/**
  The editor pane: the file record shared by the whole shell, lookup by path,
  the tab label and editor language of a path, the active path's initial
  value, the active-file content value computed at CodePane.tsx:49, and the
  guard on editor changes.
 */
module CodePane {
  import opened Wrappers
  import opened Strings

  /** One generated file; `path` is an opaque, case-sensitive key. */
  datatype FileData = FileData(path: string, content: string)

  /** `files.find(f => f.path === path)`, as an index: the first file with exactly that path. */
  function FindPath(files: seq<FileData>, path: string): (r: Option<nat>)
    ensures r.Some? ==> r.value < |files| && files[r.value].path == path
    ensures r.Some? ==> forall j :: 0 <= j < r.value ==> files[j].path != path
    ensures r.None? <==> forall j :: 0 <= j < |files| ==> files[j].path != path
    decreases |files|
  {
    if files == [] then None
    else if files[0].path == path then Some(0)
    else match FindPath(files[1..], path)
      case None => None
      case Some(k) => Some(k + 1)
  }

  /** The tab label: the text after the last `/`, or the whole path when that text is empty. */
  function GetFileName(path: string): (r: string)
    ensures |r| <= |path| && r == path[|path| - |r|..]
    ensures '/' !in path ==> r == path
    ensures path == [] || path[|path| - 1] == '/' ==> r == path
    ensures path != [] && path[|path| - 1] != '/' ==>
              r != [] && '/' !in r && (|r| == |path| || path[|path| - |r| - 1] == '/')
  {
    var last := LastSegment(path, '/');
    if last == [] then path else last
  }

  /** The lower-cased text after the last `.` (the whole path when it has no `.`). */
  function Extension(path: string): (r: string)
    ensures '.' !in r
  {
    Lower(LastSegment(path, '.'))
  }

  lemma {:induction false} ExtensionCaseInsensitive(p: string, q: string)
    requires Lower(p) == Lower(q)
    ensures Extension(p) == Extension(q)
  {
    LastSegmentLower(p, '.');
    LastSegmentLower(q, '.');
    LowerIdempotent(LastSegment(p, '.'));
    LowerIdempotent(LastSegment(q, '.'));
  }

  /** The editor language for a path, by its lower-cased extension. */
  function GetLanguage(path: string): (r: string)
    ensures r in {"javascript", "typescript", "html", "css", "json", "plaintext"}
    ensures r == "javascript" <==> Extension(path) in {"js", "jsx"}
    ensures r == "typescript" <==> Extension(path) in {"ts", "tsx"}
    ensures r == "html" <==> Extension(path) == "html"
    ensures r == "css" <==> Extension(path) == "css"
    ensures r == "json" <==> Extension(path) == "json"
  {
    match Extension(path)
    case "js" => "javascript"
    case "jsx" => "javascript"
    case "ts" => "typescript"
    case "tsx" => "typescript"
    case "html" => "html"
    case "css" => "css"
    case "json" => "json"
    case _ => "plaintext"
  }

  /** The language does not depend on the case of the path's letters. */
  lemma LanguageCaseInsensitive(p: string, q: string)
    requires Lower(p) == Lower(q)
    ensures GetLanguage(p) == GetLanguage(q)
  {
    ExtensionCaseInsensitive(p, q);
  }

  /**
    The initial value of the active path, taken once when the pane mounts:
    the first file's path, or `''` for an empty list.
   */
  function InitialActiveFile(files: seq<FileData>): (r: string)
    ensures files == [] ==> r == ""
    ensures files != [] ==> r == files[0].path
  {
    if |files| > 0 then files[0].path else ""
  }

  /** The active-file content value: the content of the first file at the active path, or `''`. */
  function ActiveFileContent(files: seq<FileData>, activeFile: string): (r: string)
    ensures (forall j :: 0 <= j < |files| ==> files[j].path != activeFile) ==> r == ""
  {
    match FindPath(files, activeFile)
    case None => ""
    case Some(k) => files[k].content
  }

  /** With several files at the active path, the active-file content value is the first one's. */
  lemma ActiveFileContentIsFirstMatch(files: seq<FileData>, activeFile: string, k: nat)
    requires k < |files| && files[k].path == activeFile
    requires forall j :: 0 <= j < k ==> files[j].path != activeFile
    ensures ActiveFileContent(files, activeFile) == files[k].content
  {
  }

  /** A request to replace the content of the file at `path`. */
  datatype FileEdit = FileEdit(path: string, content: string)

  /**
    The editor-change guard: a change is passed on, for the active path, only
    when the editor supplies a value and the active path is not empty.
   */
  function HandleEditorChange(activeFile: string, value: Option<string>): (r: Option<FileEdit>)
    ensures r.Some? <==> value.Some? && activeFile != ""
    ensures r.Some? ==> r.value == FileEdit(activeFile, value.value)
  {
    if value.Some? && activeFile != "" then Some(FileEdit(activeFile, value.value)) else None
  }
}
