/**
  The preview pipeline's pure steps: choosing the entry document, the MIME
  table, inserting the fault-capture script after the first `<head>`, and the
  single-pass rewrite of `src=`/`href=` references, written as the scanner
  that the global regular expression `/(src|href)=["'](.+?)["']/g` performs.
 */
module PreviewPipeline {
  import opened Wrappers
  import opened Strings
  import opened CodePane
  import opened ObjectUrls

  // ---------------------------------------------------------------------------
  // Entry resolution

  /** `files.find(file => file.path.endsWith('.html'))`, as an index. */
  function FindHtml(files: seq<FileData>): (r: Option<nat>)
    ensures r.Some? ==> r.value < |files| && EndsWith(files[r.value].path, ".html")
    ensures r.Some? ==> forall j :: 0 <= j < r.value ==> !EndsWith(files[j].path, ".html")
    ensures r.None? <==> forall j :: 0 <= j < |files| ==> !EndsWith(files[j].path, ".html")
    decreases |files|
  {
    if files == [] then None
    else if EndsWith(files[0].path, ".html") then Some(0)
    else match FindHtml(files[1..])
      case None => None
      case Some(k) => Some(k + 1)
  }

  /**
    The entry document: the first `.html` file, falling back to the first file
    whose path is exactly `index.html`.  The entry is always the first file
    whose path ends with `.html`, and there is none exactly when no path does.
   */
  function ResolveEntry(files: seq<FileData>): (r: Option<nat>)
    ensures r.Some? ==> r.value < |files| && EndsWith(files[r.value].path, ".html")
    ensures r.Some? ==> forall j :: 0 <= j < r.value ==> !EndsWith(files[j].path, ".html")
    ensures r.None? <==> forall j :: 0 <= j < |files| ==> !EndsWith(files[j].path, ".html")
  {
    match FindHtml(files)
    case Some(k) => Some(k)
    case None => FindPath(files, "index.html")
  }

  /**
    The `index.html` fallback never selects anything: whenever it would find a
    file, the first rule has already found that file or an earlier one.
   */
  lemma IndexHtmlFallbackIsDead(files: seq<FileData>)
    ensures FindPath(files, "index.html").Some? ==>
              FindHtml(files).Some? && FindHtml(files).value <= FindPath(files, "index.html").value
    ensures ResolveEntry(files) == FindHtml(files)
  {
    assert EndsWith("index.html", ".html");
  }

  // ---------------------------------------------------------------------------
  // MIME types

  /** The content type of a materialised resource, by lower-cased extension. */
  function GetMimeType(path: string): (r: string)
    ensures r == "application/javascript" <==> Extension(path) == "js"
    ensures r == "text/css" <==> Extension(path) == "css"
    ensures r == "text/html" <==> Extension(path) == "html"
    ensures r == "application/json" <==> Extension(path) == "json"
    ensures r == "image/svg+xml" <==> Extension(path) == "svg"
    ensures r == "text/plain" <==> Extension(path) !in {"js", "css", "html", "json", "svg"}
  {
    match Extension(path)
    case "js" => "application/javascript"
    case "css" => "text/css"
    case "html" => "text/html"
    case "json" => "application/json"
    case "svg" => "image/svg+xml"
    case _ => "text/plain"
  }

  /** The MIME type does not depend on the case of the path's letters. */
  lemma MimeCaseInsensitive(p: string, q: string)
    requires Lower(p) == Lower(q)
    ensures GetMimeType(p) == GetMimeType(q)
  {
    ExtensionCaseInsensitive(p, q);
  }

  // ---------------------------------------------------------------------------
  // Fault-capture script and its insertion

  /**
    The script inserted after `<head>`, verbatim.  It is written in short
    pieces (split after a space, a newline or a punctuation mark, with the one
    `=` on its own) so that the verifier can inspect each literal.
   */
  const ScriptPieces: seq<string> := [
    "\n      <script>\n",
    "        window.onerror ", "=", " function(message, ",
    "source, lineno, colno, error) {\n",
    "          window.parent.", "postMessage({\n",
    "            type: 'runtime-error',\n",
    "            error: `Error: ", "${message} (line ${lineno}, ", "col ${colno})`\n",
    "          }, '*');\n",
    "          return true; ", "// Prevent default ", "error handling\n",
    "        };\n        \n",
    "        window.", "addEventListener(", "'unhandledrejection', ", "function(event) {\n",
    "          window.parent.", "postMessage({\n",
    "            type: 'runtime-error',\n",
    "            error: `Unhandled ", "Promise Rejection: ", "${event.reason}`\n",
    "          }, '*');\n",
    "        });\n      </script>\n    "
  ]

  /** The pieces from the `k`-th on, joined. */
  function ConcatFrom(pieces: seq<string>, k: nat): string
    requires k <= |pieces|
    decreases |pieces| - k
  {
    if k == |pieces| then [] else pieces[k] + ConcatFrom(pieces, k + 1)
  }

  const ErrorHandlingScript: string := ConcatFrom(ScriptPieces, 0)

  /** A case-insensitive `<head>` starts at `i`. */
  predicate HeadAt(s: string, i: nat) {
    i + 6 <= |s| && Lower(s[i..i + 6]) == "<head>"
  }

  function FindHeadFrom(s: string, i: nat): (r: Option<nat>)
    requires i <= |s|
    ensures r.Some? ==> i <= r.value && HeadAt(s, r.value)
    ensures r.Some? ==> forall j :: i <= j < r.value ==> !HeadAt(s, j)
    ensures r.None? ==> forall j :: i <= j < |s| ==> !HeadAt(s, j)
    decreases |s| - i
  {
    if i + 6 > |s| then None
    else if HeadAt(s, i) then Some(i)
    else FindHeadFrom(s, i + 1)
  }

  /** Where `/<head>/i` first matches. */
  function FindHead(s: string): (r: Option<nat>)
    ensures r.Some? ==> HeadAt(s, r.value) && forall j :: 0 <= j < r.value ==> !HeadAt(s, j)
    ensures r.None? <==> forall j :: 0 <= j < |s| ==> !HeadAt(s, j)
  {
    FindHeadFrom(s, 0)
  }

  /**
    `html.replace(/<head>/i, '<head>' + script)`: only the first
    case-insensitive `<head>` is replaced, by a lower-case `<head>` followed by
    `script`; a document without one is returned unchanged.
   */
  function InsertAfterHead(html: string, script: string): (r: string)
  {
    match FindHead(html)
    case None => html
    case Some(i) => html[..i] + "<head>" + script + html[i + 6..]
  }

  /** A document without a `<head>` is left as it is. */
  lemma InsertWithoutHead(html: string, script: string)
    requires forall j :: 0 <= j < |html| ==> !HeadAt(html, j)
    ensures InsertAfterHead(html, script) == html
  {
  }

  /** With a `<head>` at `i` and none before it, the script lands right after that one. */
  lemma InsertAfterFirstHead(html: string, script: string, i: nat)
    requires HeadAt(html, i) && forall j :: 0 <= j < i ==> !HeadAt(html, j)
    ensures InsertAfterHead(html, script) == (html[..i] + "<head>") + (script + html[i + 6..])
  {
  }

  /** The injection step of the pipeline: the fault-capture script after the first `<head>`. */
  function InjectErrorHandler(html: string): string {
    InsertAfterHead(html, ErrorHandlingScript)
  }

  // ---------------------------------------------------------------------------
  // The reference pattern

  predicate IsQuote(c: char) {
    c == '"' || c == '\''
  }

  /** The characters `.` does not match in a JavaScript regular expression. */
  predicate IsLineTerminator(c: char) {
    c == '\n' || c == '\r' || c == '\U{2028}' || c == '\U{2029}'
  }

  /** One match of the pattern at the start of the text: `len` characters in all. */
  datatype Hit = Hit(attr: string, value: string, len: nat)

  /**
    `h` is the match of `(src|href)=["'](.+?)["']` at the start of `s`: the
    attribute name, `=`, either quote, then the shortest non-empty run of
    non-line-terminators followed by either quote.  Shortest means that no
    character of the value after its first is a quote; the first may be one.
   */
  predicate IsMatch(s: string, h: Hit) {
    var n := |h.attr|;
    && (h.attr == "src" || h.attr == "href")
    && h.len == n + |h.value| + 3
    && h.len <= |s|
    && s[..n] == h.attr
    && s[n] == '='
    && IsQuote(s[n + 1])
    && s[n + 2..h.len - 1] == h.value
    && IsQuote(s[h.len - 1])
    && |h.value| > 0
    && (forall i :: 0 <= i < |h.value| ==> !IsLineTerminator(h.value[i]))
    && (forall i :: 1 <= i < |h.value| ==> !IsQuote(h.value[i]))
  }

  /** The attribute name when `s` starts with `src=` or `href=` and a quote. */
  function AttrHere(s: string): (r: Option<string>)
    ensures r.Some? ==> (r.value == "src" || r.value == "href") && |r.value| + 2 <= |s|
    ensures r.Some? ==> s[..|r.value|] == r.value && s[|r.value|] == '=' && IsQuote(s[|r.value| + 1])
  {
    if StartsWith(s, "src=") && |s| > 4 && IsQuote(s[4]) then
      assert s[..3] == s[..4][..3] && s[3] == s[..4][3];
      Some("src")
    else if StartsWith(s, "href=") && |s| > 5 && IsQuote(s[5]) then
      assert s[..4] == s[..5][..4] && s[4] == s[..5][4];
      Some("href")
    else None
  }

  /** The index of the first quote in `t`, provided no line terminator comes before it. */
  function CloseQuote(t: string): (r: Option<nat>)
    ensures r.Some? ==> r.value < |t| && IsQuote(t[r.value])
    ensures r.Some? ==> forall j :: 0 <= j < r.value ==> !IsQuote(t[j]) && !IsLineTerminator(t[j])
    decreases |t|
  {
    if t == [] then None
    else if IsQuote(t[0]) then Some(0)
    else if IsLineTerminator(t[0]) then None
    else match CloseQuote(t[1..])
      case None => None
      case Some(k) => Some(k + 1)
  }

  /** The closing quote found is the first one: any quote with nothing disallowed before it. */
  lemma {:induction false} CloseQuoteIsFirst(t: string, k: nat)
    requires k < |t| && IsQuote(t[k])
    requires forall j :: 0 <= j < k ==> !IsQuote(t[j]) && !IsLineTerminator(t[j])
    ensures CloseQuote(t) == Some(k)
    decreases k
  {
    if k > 0 {
      assert !IsQuote(t[0]) && !IsLineTerminator(t[0]);
      forall j | 0 <= j < k - 1
        ensures !IsQuote(t[1..][j]) && !IsLineTerminator(t[1..][j])
      {
        assert t[1..][j] == t[j + 1];
      }
      CloseQuoteIsFirst(t[1..], k - 1);
    }
  }

  /** The match of the pattern at the start of `s`, if any. */
  function MatchHere(s: string): (r: Option<Hit>)
    ensures r.Some? ==> IsMatch(s, r.value)
  {
    match AttrHere(s)
    case None => None
    case Some(attr) =>
      var j := |attr| + 2;
      if j < |s| && !IsLineTerminator(s[j]) then
        match CloseQuote(s[j + 1..])
        case None => None
        case Some(k) =>
          var value := s[j..j + 1 + k];
          assert forall i :: 1 <= i < |value| ==> value[i] == s[j + 1..][i - 1];
          Some(Hit(attr, value, j + k + 2))
      else None
  }

  /** Every match of the pattern is the one `MatchHere` finds: the scanner misses none. */
  lemma MatchHereComplete(s: string, h: Hit)
    requires IsMatch(s, h)
    ensures MatchHere(s) == Some(h)
  {
    var n := |h.attr|;
    if h.attr == "src" {
      assert s[..4] == "src=";
    } else {
      assert s[..5] == "href=";
      assert s[0] == 'h';
      assert !StartsWith(s, "src=");
    }
    assert AttrHere(s) == Some(h.attr);
    var t := s[n + 3..];
    var k := |h.value| - 1;
    assert t[k] == s[h.len - 1];
    forall j | 0 <= j < k
      ensures !IsQuote(t[j]) && !IsLineTerminator(t[j])
    {
      assert t[j] == h.value[j + 1];
    }
    CloseQuoteIsFirst(t, k);
  }

  // ---------------------------------------------------------------------------
  // Facts about the pattern

  /** `p` occurs as a contiguous piece of `s`. */
  predicate Occurs(p: string, s: string) {
    exists i: nat :: i <= |s| && OccursAt(p, s, i)
  }

  predicate OccursAt(p: string, s: string, i: nat) {
    i + |p| <= |s| && s[i..i + |p|] == p
  }

  lemma OccursInSuffix(p: string, s: string, m: nat)
    requires m <= |s| && Occurs(p, s[m..])
    ensures Occurs(p, s)
  {
    var i: nat :| i <= |s[m..]| && OccursAt(p, s[m..], i);
    assert s[m..][i..i + |p|] == s[m + i..m + i + |p|];
    assert OccursAt(p, s, m + i);
  }

  lemma MatchValueOccurs(s: string, h: Hit)
    requires IsMatch(s, h)
    ensures OccursAt(h.value, s, |h.attr| + 2)
  {
  }

  /** Whether `h` matches depends only on the characters it covers. */
  lemma IsMatchOnPrefix(s: string, t: string, h: Hit)
    requires h.len <= |s| && h.len <= |t| && s[..h.len] == t[..h.len]
    ensures IsMatch(s, h) <==> IsMatch(t, h)
  {
    if h.len >= |h.attr| + 3 {
      var n := |h.attr|;
      assert s[..n] == s[..h.len][..n] && t[..n] == t[..h.len][..n];
      assert s[n + 2..h.len - 1] == s[..h.len][n + 2..h.len - 1];
      assert t[n + 2..h.len - 1] == t[..h.len][n + 2..h.len - 1];
      assert s[n] == s[..h.len][n] && t[n] == t[..h.len][n];
      assert s[n + 1] == s[..h.len][n + 1] && t[n + 1] == t[..h.len][n + 1];
      assert s[h.len - 1] == s[..h.len][h.len - 1] && t[h.len - 1] == t[..h.len][h.len - 1];
    }
  }

  /** No character of a match is a line terminator. */
  lemma MatchHasNoLineTerminator(s: string, h: Hit, p: nat)
    requires IsMatch(s, h) && p < h.len
    ensures !IsLineTerminator(s[p])
  {
    var n := |h.attr|;
    if p < n {
      assert s[p] == h.attr[p];
    } else if n + 2 <= p < h.len - 1 {
      assert s[p] == h.value[p - n - 2];
    }
  }

  /** A line terminator is a boundary no match crosses. */
  lemma {:induction false} MatchHereStopsAtLineTerminator(a: string, b: string)
    requires b != [] && IsLineTerminator(b[0])
    ensures MatchHere(a + b) == MatchHere(a)
    ensures MatchHere(a).Some? ==> MatchHere(a).value.len <= |a|
  {
    match MatchHere(a + b)
    case Some(h) =>
      if h.len > |a| {
        MatchHasNoLineTerminator(a + b, h, |a|);
      }
      assert (a + b)[..h.len] == a[..h.len];
      IsMatchOnPrefix(a + b, a, h);
      MatchHereComplete(a, h);
    case None =>
      match MatchHere(a)
      case Some(h) =>
        assert (a + b)[..h.len] == a[..h.len];
        IsMatchOnPrefix(a + b, a, h);
        MatchHereComplete(a + b, h);
        assert false;
      case None =>
  }

  /** The letters of `src` and `href`. */
  predicate AttrLetter(c: char) {
    c == 's' || c == 'r' || c == 'c' || c == 'h' || c == 'e' || c == 'f'
  }

  /**
    A piece of text in which no match can start, whatever follows it: it has
    no `=` (or is a lone `=`), and does not end in a letter of `src`/`href`.
   */
  predicate Inert(a: string) {
    a == "=" || ('=' !in a && (a == [] || !AttrLetter(a[|a| - 1])))
  }

  /** No non-empty prefix of a match is inert. */
  lemma MatchHasNoInertPrefix(s: string, h: Hit, m: nat)
    requires IsMatch(s, h) && 0 < m <= |s|
    ensures !Inert(s[..m])
  {
    var n := |h.attr|;
    var p := s[..m];
    if m <= n {
      assert p[0] == h.attr[0] && p[m - 1] == h.attr[m - 1];
    } else {
      assert p[n] == '=' && p[0] == h.attr[0];
    }
  }

  lemma NoMatchInInert(a: string, b: string)
    requires a != [] && Inert(a)
    ensures MatchHere(a + b) == None
  {
    assert (a + b)[..|a|] == a;
    match MatchHere(a + b)
    case Some(h) => MatchHasNoInertPrefix(a + b, h, |a|);
    case None =>
  }

  // The 28 pieces are checked in four ranges so that each evaluation of the literal stays small.
  lemma ScriptPiecesInert0() ensures forall k :: 0 <= k < 7 ==> Inert(ScriptPieces[k]) {}
  lemma ScriptPiecesInert1() ensures forall k :: 7 <= k < 14 ==> Inert(ScriptPieces[k]) {}
  lemma ScriptPiecesInert2() ensures forall k :: 14 <= k < 21 ==> Inert(ScriptPieces[k]) {}
  lemma ScriptPiecesInert3() ensures forall k :: 21 <= k < 28 ==> Inert(ScriptPieces[k]) {}

  /** Every piece of the fault-capture script is inert. */
  lemma ScriptPiecesAreInert()
    ensures forall k :: 0 <= k < |ScriptPieces| ==> Inert(ScriptPieces[k])
  {
    ScriptPiecesInert0();
    ScriptPiecesInert1();
    ScriptPiecesInert2();
    ScriptPiecesInert3();
  }

  /** The script opens with a newline, so no match runs into it from before. */
  lemma ScriptStartsWithNewline()
    ensures ErrorHandlingScript != [] && ErrorHandlingScript[0] == '\n'
  {
    assert ErrorHandlingScript == ScriptPieces[0] + ConcatFrom(ScriptPieces, 1);
  }
}
