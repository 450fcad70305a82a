/**
  The preview component: the scanner loop that performs the reference
  rewrite while handing out object URLs, and a controller holding the
  component's state (`files`, `error`, the runtime-error log and the frame's
  source) with the files-change effect, `updatePreview` and the message
  handler as methods.
 */
module PreviewPane {
  import opened Wrappers
  import opened Strings
  import opened CodePane
  import opened ObjectUrls
  import opened PreviewPipeline
  import opened ReferenceRewrite

  const NoHtmlMessage: string := "No HTML file found in the generated code."
  const PreviewErrorPrefix: string := "Preview error: "
  const RuntimeErrorType: string := "runtime-error"

  // ---------------------------------------------------------------------------
  // The rewrite as the scan `replace` performs

  /**
    The callback of the `replace`: an external value or one naming no file
    leaves the match as it is; a project path is materialised as a blob of
    the file's content, typed by the path's extension, and the match becomes
    `attr="locator"`.
   */
  method ReplaceMatch(matched: string, attr: string, path: string, files: seq<FileData>, urls: ObjectUrlStore)
    returns (replacement: string)
    modifies urls
    ensures Resolve(path, files).None? ==> replacement == matched && urls.entries == old(urls.entries)
    ensures Resolve(path, files).Some? ==>
              && replacement == Reference(attr, Locator(|old(urls.entries)|))
              && urls.entries == old(urls.entries) + [Resolve(path, files).value]
  {
    if IsExternal(path) {
      return matched;
    }
    var found := FindPath(files, path);
    if found.None? {
      return matched;
    }
    var mimeType := GetMimeType(path);
    var blobUrl := urls.CreateObjectUrl(Blob(files[found.value].content, mimeType));
    return Reference(attr, blobUrl);
  }

  /**
    `html.replace(/(src|href)=["'](.+?)["']/g, callback)`: scan left to right,
    handing every match to the callback and copying every other character.
    The output and the registered blobs are those of `Rewrite`.
   */
  method RewriteReferences(html: string, files: seq<FileData>, urls: ObjectUrlStore) returns (out: string)
    modifies urls
    ensures out == Rewrite(html, files, |old(urls.entries)|).text
    ensures urls.entries == old(urls.entries) + Rewrite(html, files, |old(urls.entries)|).made
  {
    ghost var total := Join(Rewritten([], urls.entries), Rewrite(html, files, |urls.entries|));
    out := [];
    var rest := html;
    while rest != []
      invariant Scanned(total, out, urls.entries, rest, files)
      decreases |rest|
    {
      match MatchHere(rest)
      case None =>
        ScanCopiesChar(total, out, urls.entries, rest, files);
        out := out + [rest[0]];
        rest := rest[1..];
      case Some(h) =>
        ScanMatch(total, out, urls.entries, rest, h, files);
        var replacement := ReplaceMatch(rest[..h.len], h.attr, h.value, files, urls);
        out := out + replacement;
        rest := rest[h.len..];
    }
    ScanDone(total, out, urls.entries, files);
  }

  /**
    The scan invariant: the output so far, with every blob registered so far,
    followed by the rewrite of what is left (its locators numbered after the
    registered ones), makes up the whole.
   */
  predicate Scanned(total: Rewritten, out: string, entries: seq<Blob>, rest: string, files: seq<FileData>) {
    total == Join(Rewritten(out, entries), Rewrite(rest, files, |entries|))
  }

  lemma {:induction false} ScanDone(total: Rewritten, out: string, entries: seq<Blob>, files: seq<FileData>)
    requires Scanned(total, out, entries, [], files)
    ensures total == Rewritten(out, entries)
  {
    RewriteEmpty(files, |entries|);
  }

  /** The scan invariant survives copying a character where no match starts. */
  lemma {:induction false} ScanCopiesChar(total: Rewritten, out: string, entries: seq<Blob>, rest: string, files: seq<FileData>)
    requires rest != [] && MatchHere(rest).None?
    requires Scanned(total, out, entries, rest, files)
    ensures Scanned(total, out + [rest[0]], entries, rest[1..], files)
  {
    RewriteCopiesChar(rest, files, |entries|);
    Advance(total, out, entries, Rewrite(rest, files, |entries|), [rest[0]], [], Rewrite(rest[1..], files, |entries|));
  }

  /** The scan invariant survives handing a match to the callback. */
  lemma {:induction false} ScanMatch(total: Rewritten, out: string, entries: seq<Blob>, rest: string, h: Hit, files: seq<FileData>)
    requires MatchHere(rest) == Some(h)
    requires Scanned(total, out, entries, rest, files)
    ensures Resolve(h.value, files).None? ==> Scanned(total, out + rest[..h.len], entries, rest[h.len..], files)
    ensures Resolve(h.value, files).Some? ==>
              Scanned(total, out + Reference(h.attr, Locator(|entries|)), entries + [Resolve(h.value, files).value], rest[h.len..], files)
  {
    match Resolve(h.value, files)
    case None => ScanCopiesMatch(total, out, entries, rest, h, files);
    case Some(blob) => ScanReplacesMatch(total, out, entries, rest, h, blob, files);
  }

  /** A match whose value names no project file is copied as it is. */
  lemma {:induction false} ScanCopiesMatch(total: Rewritten, out: string, entries: seq<Blob>, rest: string, h: Hit, files: seq<FileData>)
    requires MatchHere(rest) == Some(h) && Resolve(h.value, files).None?
    requires Scanned(total, out, entries, rest, files)
    ensures Scanned(total, out + rest[..h.len], entries, rest[h.len..], files)
  {
    var n := |entries|;
    RewriteCopiesMatch(rest, files, n, h);
    Advance(total, out, entries, Rewrite(rest, files, n), rest[..h.len], [], Rewrite(rest[h.len..], files, n));
  }

  /** A match whose value names a project file becomes a reference to the next blob. */
  lemma {:induction false} ScanReplacesMatch(total: Rewritten, out: string, entries: seq<Blob>, rest: string, h: Hit, blob: Blob,
                                             files: seq<FileData>)
    requires MatchHere(rest) == Some(h) && Resolve(h.value, files) == Some(blob)
    requires Scanned(total, out, entries, rest, files)
    ensures Scanned(total, out + Reference(h.attr, Locator(|entries|)), entries + [blob], rest[h.len..], files)
  {
    var n := |entries|;
    RewriteReplacesMatch(rest, files, n, h, blob);
    ScanAdvances(total, out, entries, rest, Reference(h.attr, Locator(n)), [blob], rest[h.len..], files);
  }

  /** The scan invariant survives writing `piece` and registering `blobs` for the start of the rest. */
  lemma {:induction false} ScanAdvances(total: Rewritten, out: string, entries: seq<Blob>, rest: string,
                                        piece: string, blobs: seq<Blob>, after: string, files: seq<FileData>)
    requires Scanned(total, out, entries, rest, files)
    requires Rewrite(rest, files, |entries|) == Join(Rewritten(piece, blobs), Rewrite(after, files, |entries| + |blobs|))
    ensures Scanned(total, out + piece, entries + blobs, after, files)
  {
    Advance(total, out, entries, Rewrite(rest, files, |entries|), piece, blobs, Rewrite(after, files, |entries| + |blobs|));
  }

  /** One scan step: the piece written and the blobs made move from the rest into the output. */
  lemma {:induction false} Advance(total: Rewritten, out: string, made: seq<Blob>, here: Rewritten,
                piece: string, blobs: seq<Blob>, rest: Rewritten)
    requires total == Join(Rewritten(out, made), here)
    requires here == Join(Rewritten(piece, blobs), rest)
    ensures total == Join(Rewritten(out + piece, made + blobs), rest)
  {
    JoinAssociative(Rewritten(out, made), Rewritten(piece, blobs), rest);
  }

  // ---------------------------------------------------------------------------
  // The document the frame is given

  /**
    The entry document after both passes: the fault-capture script inserted
    after the first `<head>`, then the references rewritten, with object URLs
    numbered from `next`.
   */
  function PreparedDocument(html: string, files: seq<FileData>, next: nat): Rewritten {
    Rewrite(InjectErrorHandler(html), files, next)
  }

  /** A document without `<head>` is only rewritten. */
  lemma PreparedWithoutHead(html: string, files: seq<FileData>, next: nat)
    requires forall j :: 0 <= j < |html| ==> !HeadAt(html, j)
    ensures PreparedDocument(html, files, next) == Rewrite(html, files, next)
  {
    InsertWithoutHead(html, ErrorHandlingScript);
  }

  /**
    A document made by inserting a script that opens with a line terminator
    and that the rewrite copies intact: the text around the script is
    rewritten as if the script were not there.
   */
  lemma InsertThenRewrite(html: string, script: string, pre: string, post: string, files: seq<FileData>, next: nat)
    requires InsertAfterHead(html, script) == pre + (script + post)
    requires script != [] && IsLineTerminator(script[0])
    requires PassesThrough(script, files)
    ensures Rewrite(InsertAfterHead(html, script), files, next) ==
              Join(Rewrite(pre, files, next), Join(Rewritten(script, []), Rewrite(post, files, next + |Rewrite(pre, files, next).made|)))
  {
    RewriteAroundScript(pre, script, post, files, next);
  }

  /**
    With its first `<head>` at `i`, the prepared document is the rewritten text
    up to and including that tag (`pre`), the fault-capture script exactly as
    written, and the rewritten rest (`post`); no blob is made for the script.
   */
  lemma PreparedKeepsErrorHandler(html: string, files: seq<FileData>, next: nat, i: nat, pre: string, post: string)
    requires HeadAt(html, i) && forall j :: 0 <= j < i ==> !HeadAt(html, j)
    requires pre == html[..i] + "<head>" && post == html[i + 6..]
    ensures PreparedDocument(html, files, next) ==
              Join(Rewrite(pre, files, next),
                   Join(Rewritten(ErrorHandlingScript, []), Rewrite(post, files, next + |Rewrite(pre, files, next).made|)))
  {
    ScriptStartsWithNewline();
    ScriptSurvives(files);
    InsertAfterFirstHead(html, ErrorHandlingScript, i);
    InsertThenRewrite(html, ErrorHandlingScript, pre, post, files, next);
  }

  /**
    Every blob made for the document is the verbatim content of the first
    project file at some path, typed by that path.
   */
  lemma PreparedMaterialisesFiles(html: string, files: seq<FileData>, next: nat)
    ensures forall b :: b in PreparedDocument(html, files, next).made ==>
              exists k: nat :: FirstWithPath(files, k) && b == Blob(files[k].content, GetMimeType(files[k].path))
  {
    RewriteMaterialisesFileContents(InjectErrorHandler(html), files, next);
  }

  // ---------------------------------------------------------------------------
  // The component

  /** The payload of a `message` event: absent (falsy), or an object with `type` and `error`. */
  datatype MessageData = MessageData(kind: string, error: string)

  class PreviewController {
    var files: seq<FileData>
    var error: Option<string>
    var runtimeErrors: seq<string>
    /** The `src` last assigned to the frame. */
    var frameSrc: string
    /** The identity of the frame's window, the only accepted message source. */
    const frameWindow: nat
    const urls: ObjectUrlStore

    constructor (frameWindow: nat)
      ensures this.frameWindow == frameWindow && fresh(urls) && urls.entries == []
      ensures files == [] && error == None && runtimeErrors == [] && frameSrc == ""
    {
      this.frameWindow := frameWindow;
      urls := new ObjectUrlStore();
      files := [];
      error := None;
      runtimeErrors := [];
      frameSrc := "";
    }

    /** The frame is rendered, and the frame reference set, only with no error and some files. */
    predicate FrameMounted()
      reads this
    {
      error.None? && files != []
    }

    /**
      `updatePreview`: nothing without a mounted frame; otherwise the error is
      cleared, the entry found (or the no-HTML error set), the document
      prepared and registered, and the frame pointed at it.  `fault` is an
      exception the platform raises when the document's object URL is
      created; it is returned as `thrown`.
     */
    method UpdatePreview(fault: Option<string>) returns (thrown: Option<string>)
      modifies this, urls
      ensures files == old(files) && runtimeErrors == old(runtimeErrors)
      ensures !old(FrameMounted()) ==>
                thrown == None && error == old(error) && frameSrc == old(frameSrc) && urls.entries == old(urls.entries)
      ensures old(FrameMounted()) && ResolveEntry(files).None? ==>
                thrown == None && error == Some(NoHtmlMessage) && frameSrc == old(frameSrc) &&
                urls.entries == old(urls.entries)
      ensures old(FrameMounted()) && ResolveEntry(files).Some? ==>
                var doc := PreparedDocument(files[ResolveEntry(files).value].content, files, |old(urls.entries)|);
                && error == None
                && thrown == fault
                && (fault.Some? ==> frameSrc == old(frameSrc) && urls.entries == old(urls.entries) + doc.made)
                && (fault.None? ==>
                      && urls.entries == old(urls.entries) + doc.made + [Blob(doc.text, "text/html")]
                      && frameSrc == Locator(|old(urls.entries)| + |doc.made|)
                      && urls.Deref(frameSrc) == Some(Blob(doc.text, "text/html")))
    {
      if !FrameMounted() {
        return None;
      }
      error := None;
      var entry := FindHtml(files);
      if entry.None? {
        entry := FindPath(files, "index.html");
      }
      if entry.None? {
        error := Some(NoHtmlMessage);
        return None;
      }
      var processedHtml := files[entry.value].content;
      processedHtml := InsertAfterHead(processedHtml, ErrorHandlingScript);
      processedHtml := RewriteReferences(processedHtml, files, urls);
      if fault.Some? {
        return fault;
      }
      var htmlUrl := urls.CreateObjectUrl(Blob(processedHtml, "text/html"));
      frameSrc := htmlUrl;
      return None;
    }

    /**
      The effect run when `files` changes: nothing for an empty list;
      otherwise `updatePreview`, after which the runtime-error log is cleared,
      or, if it threw, the error becomes `Preview error: ` followed by the
      exception's message and the log is kept.
     */
    method FilesChanged(newFiles: seq<FileData>, fault: Option<string>)
      modifies this, urls
      ensures files == newFiles
      ensures newFiles == [] ==>
                error == old(error) && runtimeErrors == old(runtimeErrors) &&
                frameSrc == old(frameSrc) && urls.entries == old(urls.entries)
      ensures newFiles != [] && old(error).Some? ==>
                error == old(error) && runtimeErrors == [] &&
                frameSrc == old(frameSrc) && urls.entries == old(urls.entries)
      ensures newFiles != [] && old(error).None? && ResolveEntry(newFiles).None? ==>
                error == Some(NoHtmlMessage) && runtimeErrors == [] &&
                frameSrc == old(frameSrc) && urls.entries == old(urls.entries)
      ensures newFiles != [] && old(error).None? && ResolveEntry(newFiles).Some? ==>
                var doc := PreparedDocument(newFiles[ResolveEntry(newFiles).value].content, newFiles, |old(urls.entries)|);
                && (fault.Some? ==>
                      && error == Some(PreviewErrorPrefix + fault.value)
                      && runtimeErrors == old(runtimeErrors)
                      && frameSrc == old(frameSrc)
                      && urls.entries == old(urls.entries) + doc.made)
                && (fault.None? ==>
                      && error == None
                      && runtimeErrors == []
                      && urls.entries == old(urls.entries) + doc.made + [Blob(doc.text, "text/html")]
                      && frameSrc == Locator(|old(urls.entries)| + |doc.made|)
                      && urls.Deref(frameSrc) == Some(Blob(doc.text, "text/html")))
    {
      files := newFiles;
      if |files| == 0 {
        return;
      }
      var thrown := UpdatePreview(fault);
      if thrown.None? {
        runtimeErrors := [];
      } else {
        error := Some(PreviewErrorPrefix + thrown.value);
      }
    }

    /**
      The `message` listener: a message from any source but the mounted
      frame's window is dropped; an accepted `runtime-error` message appends
      its error to the log; any other message is ignored.
     */
    method HandleMessage(source: nat, data: Option<MessageData>)
      modifies this
      ensures files == old(files) && error == old(error) && frameSrc == old(frameSrc)
      ensures runtimeErrors ==
                if FrameMounted() && source == frameWindow && data.Some? && data.value.kind == RuntimeErrorType
                then old(runtimeErrors) + [data.value.error]
                else old(runtimeErrors)
    {
      if !FrameMounted() || source != frameWindow {
        return;
      }
      if data.Some? && data.value.kind == RuntimeErrorType {
        runtimeErrors := runtimeErrors + [data.value.error];
      }
    }
  }
}
