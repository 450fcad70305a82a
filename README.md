# Code Studio preview pipeline, in Dafny

Code Studio is a browser shell: a prompt pane asks a language-model service
for a small web project, a code pane shows and edits the generated files, and
a preview pane runs the project in a sandboxed frame. This project models the
preview pane's pipeline and proves properties of it, along with the parts of
the editor pane and of the application shell that feed it.

The preview pipeline, for each new file set:

1. It picks the entry document: the first file whose path ends in `.html`.
   The fallback to a file named exactly `index.html` exists in the code, but
   it can never change the outcome.
2. It inserts a fault-capture script right after the first `<head>`, matched
   case-insensitively.
3. It rewrites every `src="…"`/`href='…'` reference that names a project
   file into an object URL for a blob holding that file's content, typed by
   the path's extension. It leaves external values (`http…`, `data:…`,
   `#…`) and unknown paths alone.
4. It registers the result as a `text/html` blob and points the frame at it.

A message listener collects `runtime-error` reports from that frame only.

Module layout, following the source:

- `strings.dfy`:
  - `Wrappers`: the `Option` type for `null`/`undefined`.
  - `Strings`: ASCII `toLowerCase`, `split(sep).pop()` as `LastSegment`, and decimal numerals.
- `code_pane.dfy`, `CodePane`: the shared `FileData` record and path lookup (`files.find`). Also the tab label, the editor language, the active path's initial value, the active-file content value computed at CodePane.tsx:49, and the editor-change guard.
- `object_urls.dfy`, `ObjectUrls`: the platform's blob registry, as a class whose `entries` grow by one per `URL.createObjectURL`. A locator is `blob:` followed by the blob's serial number.
- `preview_pipeline.dfy`, `PreviewPipeline`: the pure pieces of `updatePreview`:
  - entry resolution and MIME types;
  - the fault-capture script (the constants `ScriptPieces` and `ErrorHandlingScript`, the template literal at PreviewPane.tsx:65-82) and its insertion after `<head>`;
  - a scanner for the reference pattern `/(src|href)=["'](.+?)["']/`, with JavaScript's rule that `.` matches no line terminator.
- `rewrite.dfy`, `ReferenceRewrite`: the global `replace` as a reference definition, `Rewrite`, built in three layers:
  - `Tokens` cuts the document into plain characters and matches, with no overlaps and scanning left to right;
  - `Steps` decides for each token whether to keep it or embed a blob;
  - `Emit` produces the text and numbers the blobs it registers.
- `preview_pane.dfy`, `PreviewPane`: the component itself:
  - the scanning loop that performs the rewrite against the registry (`RewriteReferences`), proved equal to `Rewrite`;
  - a controller class with the component's state (`files`, `error`, the runtime-error log, the frame's `src`);
  - methods for the files-change effect, `updatePreview` and the message listener.
- `app.dfy`, `App`: `handleFileChange` as a function on the file list, and a controller class for the configured check and the state updates of `handleGenerate`.

Points where the behaviour is easy to misread, stated as the code has it:

- **The error is sticky.** The frame is rendered only while there is no error and some files (PreviewPane.tsx:150-161). So once an error is shown, the frame reference is empty, `updatePreview` returns at its first line (PreviewPane.tsx:42), and nothing clears the error again, not even a new file set. `FilesChanged` states this outright.
- **When the runtime-error log is cleared.** The log is cleared after `updatePreview` returns normally (PreviewPane.tsx:18-19), not when resolution begins. So it also clears when the preview stops with the no-HTML error or with no frame mounted, and it is kept when `updatePreview` throws.
- **The `$` in the inserted script.** The script's `$` signs all come as `${`. That is not one of `replace`'s special replacement patterns, so the script is inserted literally, which is how `InsertAfterHead` models it.
- **The `index.html` fallback.** It is dead code, because `index.html` ends in `.html` (`IndexHtmlFallbackIsDead`).

## Model

| member | source | states |
|---|---|---|
| Strings.Lower | CodePane.tsx:26 | lower-casing keeps the length and maps every character through the ASCII lower-case table |
| Strings.LastSegment | CodePane.tsx:21 | `split(sep).pop()`: the result is a suffix free of the separator, preceded by the separator unless it is the whole string |
| Strings.LastSegmentLower | PreviewPane.tsx:121 | splitting at a non-letter and lower-casing commute, so lowering before or after `pop()` gives the same extension |
| Strings.ParseDecimal | PreviewPane.tsx:105 | a decimal numeral reads back as the number it was written from |
| Strings.DecimalOfNumeral | PreviewPane.tsx:105 | a numeral without leading zeros is the one `Decimal` writes for its value, the other half of the round trip |
| Strings.StartsWith | PreviewPane.tsx:92 | no contract of its own: `startsWith`, the prefix test of the external-value check `IsExternal`; `Resolve` states that such values are left alone |
| Strings.EndsWith | PreviewPane.tsx:47 | no contract of its own: `endsWith`, the suffix test of the entry lookup; `FindHtml` states its use |
| CodePane.FindPath | CodePane.tsx:49 | `files.find` by exact path: the index found holds the path and no earlier file does; nothing is found exactly when no file has the path |
| CodePane.GetFileName | CodePane.tsx:20-22 | the tab label is the text after the last `/`, or the whole path when that text is empty; it is a suffix of the path, and holds no `/` unless the path is empty or ends in `/`, when it is the whole path |
| CodePane.Extension | CodePane.tsx:26 | the lower-cased last `.`-segment is free of `.` |
| CodePane.ExtensionCaseInsensitive | CodePane.tsx:26 | paths equal up to letter case have the same extension |
| CodePane.GetLanguage | CodePane.tsx:25-46 | the language is one of six names, and each of `javascript`, `typescript`, `html`, `css`, `json` is returned exactly for its extensions |
| CodePane.LanguageCaseInsensitive | CodePane.tsx:26-45 | the language does not depend on the case of the path |
| CodePane.InitialActiveFile | CodePane.tsx:17 | the active path's initial value at mount: the first file's path, or empty for no files |
| CodePane.ActiveFileContent | CodePane.tsx:49 | the active-file content value computed from the file list: empty when no file has the active path |
| CodePane.ActiveFileContentIsFirstMatch | CodePane.tsx:49 | with several files at the active path, the active-file content value is the first one's content |
| CodePane.HandleEditorChange | CodePane.tsx:52-56 | an edit is forwarded exactly when the editor gives a value and the active path is non-empty, and then for that path and value |
| ObjectUrls.Locator | PreviewPane.tsx:105 | an object URL starts with the `blob:` scheme and has more after it |
| ObjectUrls.LocatorRoundTrip | PreviewPane.tsx:105 | a locator reads back as the serial number it was made from |
| ObjectUrls.LocatorInjective | PreviewPane.tsx:105 | distinct serial numbers give distinct object URLs |
| ObjectUrls.LocatorId | PreviewPane.tsx:116 | a URL read as a locator carries the `blob:` scheme and a numeral without leading zeros; `LocatorRoundTrip` and `LocatorIdOnlyLocators` show it reads exactly the URLs `Locator` writes |
| ObjectUrls.LocatorIdOnlyLocators | PreviewPane.tsx:105 | a URL read as carrying serial number `n` is `Locator(n)` itself, so no URL the registry did not hand out (such as one with a leading zero) dereferences to a blob |
| ObjectUrls.ObjectUrlStore.constructor | PreviewPane.tsx:105 | the registry starts empty |
| ObjectUrls.ObjectUrlStore.Deref | PreviewPane.tsx:116 | a URL dereferences only to a registered blob |
| ObjectUrls.ObjectUrlStore.CreateObjectUrl | PreviewPane.tsx:104-105 | registering appends the blob, returns the next serial's URL, which then dereferences to that blob, and leaves every earlier URL's blob as it was |
| PreviewPipeline.FindHtml | PreviewPane.tsx:47 | the first file whose path ends in `.html`; none exactly when no path does |
| PreviewPipeline.ResolveEntry | PreviewPane.tsx:47-48 | the entry, with the `index.html` fallback: the first `.html` file, and none exactly when no path ends in `.html` |
| PreviewPipeline.IndexHtmlFallbackIsDead | PreviewPane.tsx:47-48 | a file named `index.html` is always found by the first rule, so the fallback never changes the entry |
| PreviewPipeline.GetMimeType | PreviewPane.tsx:120-137 | each of the five MIME types is returned exactly for its extension, and `text/plain` exactly for every other extension |
| PreviewPipeline.MimeCaseInsensitive | PreviewPane.tsx:121 | the MIME type does not depend on the case of the path |
| PreviewPipeline.FindHeadFrom | PreviewPane.tsx:85 | the first case-insensitive `<head>` at or after a position; when none is found there is none from there on |
| PreviewPipeline.FindHead | PreviewPane.tsx:85 | where `/<head>/i` matches: a `<head>` with none before it, and none exactly when the document has no `<head>` |
| PreviewPipeline.HeadAt | PreviewPane.tsx:85 | no contract of its own: `<head>` at a position up to ASCII case, the match of `/<head>/i` there; `FindHeadFrom` and `FindHead` state where it first holds |
| PreviewPipeline.InsertWithoutHead | PreviewPane.tsx:85 | a document without `<head>` is left unchanged by the insertion |
| PreviewPipeline.InsertAfterFirstHead | PreviewPane.tsx:85 | with the first `<head>` at `i`, the result is the text before it, a lower-case `<head>`, the script, then the rest |
| PreviewPipeline.InsertAfterHead | PreviewPane.tsx:85 | no contract of its own: the non-global `replace` of `/<head>/i`; `InsertWithoutHead` and `InsertAfterFirstHead` state its two cases |
| PreviewPipeline.InjectErrorHandler | PreviewPane.tsx:85 | no contract of its own: the `<head>` replacement with the fault-capture script, the first pass `PreparedDocument` applies; `PreparedWithoutHead` and `PreparedKeepsErrorHandler` state its effect |
| PreviewPipeline.AttrHere | PreviewPane.tsx:89 | the attribute is `src` or `href`, and the text starts with it, `=` and a quote |
| PreviewPipeline.IsLineTerminator | PreviewPane.tsx:89 | no contract of its own: the four characters `.` does not match in a JavaScript regular expression (line feed, carriage return, U+2028, U+2029); `MatchHasNoLineTerminator` and `MatchHereStopsAtLineTerminator` state that no match contains or crosses one |
| PreviewPipeline.IsQuote | PreviewPane.tsx:89 | no contract of its own: the class `["']` of the pattern, either quote; `AttrHere`, `CloseQuote` and `CloseQuoteIsFirst` state its use |
| PreviewPipeline.IsMatch | PreviewPane.tsx:89 | no contract of its own: the reference pattern matching at the start of the text, that is `src` or `href`, `=`, either quote, the shortest non-empty value of no line terminator (no quote after its first character), and either quote; `MatchHere` and `MatchHereComplete` show the scanner reports exactly these |
| PreviewPipeline.CloseQuote | PreviewPane.tsx:89 | the closing quote found is a quote with no quote or line terminator before it |
| PreviewPipeline.CloseQuoteIsFirst | PreviewPane.tsx:89 | any quote with nothing disallowed before it is the one found: the lazy `.+?` stops at the first quote |
| PreviewPipeline.MatchHere | PreviewPane.tsx:89 | what the scanner reports at a position is a match of the pattern |
| PreviewPipeline.MatchHereComplete | PreviewPane.tsx:89 | every match of the pattern at a position is the one the scanner reports, so none is missed |
| PreviewPipeline.MatchValueOccurs | PreviewPane.tsx:89-90 | the captured path is the text right after `attr=` and its quote |
| PreviewPipeline.IsMatchOnPrefix | PreviewPane.tsx:89 | whether a match holds depends only on the characters it covers |
| PreviewPipeline.MatchHasNoLineTerminator | PreviewPane.tsx:89 | no character of a match is a line terminator |
| PreviewPipeline.MatchHereStopsAtLineTerminator | PreviewPane.tsx:89 | no match runs across a line terminator: what follows it does not change the match before it |
| PreviewPipeline.MatchHasNoInertPrefix | PreviewPane.tsx:89 | no non-empty prefix of a match is inert, that is free of `=` (or a lone `=`) and not ending in a letter of `src`/`href` |
| PreviewPipeline.NoMatchInInert | PreviewPane.tsx:89 | no match starts at non-empty inert text, whatever follows |
| PreviewPipeline.ScriptPiecesAreInert | PreviewPane.tsx:65-82 | every piece of the fault-capture script is inert: it has no `=` (or is a lone `=`) and does not end in a letter of `src`/`href`, so no match can start in it |
| PreviewPipeline.ScriptStartsWithNewline | PreviewPane.tsx:65 | the fault-capture script opens with a newline |
| ReferenceRewrite.TokensLossless | PreviewPane.tsx:88-109 | the scan loses and adds nothing: its tokens put back together are the document |
| ReferenceRewrite.TokensAreMatches | PreviewPane.tsx:89 | every match token is a match of the pattern on its own text |
| ReferenceRewrite.TokenValuesOccur | PreviewPane.tsx:89-90 | the path of every match is a piece of the document |
| ReferenceRewrite.TokensSplitAtLineTerminator | PreviewPane.tsx:89 | the scan of text that continues at a line terminator is the scan of the two parts |
| ReferenceRewrite.TokensInertPrefix | PreviewPane.tsx:89 | an inert prefix is scanned character by character, whatever follows it |
| ReferenceRewrite.Tokens | PreviewPane.tsx:88-89 | no contract of its own: the global scan, a match taken whole and scanning resumed after it, otherwise one character; `TokensLossless`, `TokensAreMatches` and `MatchHereComplete` state what it yields |
| ReferenceRewrite.Steps | PreviewPane.tsx:90-108 | no contract of its own: the callback's decision for every token, in order; `StepsConcat` states that it composes, and `RewriteCopiesMatch`/`RewriteReplacesMatch` state each decision |
| ReferenceRewrite.IsExternal | PreviewPane.tsx:92 | no contract of its own: the value starts with `http`, `data:` or `#`; `Resolve` states that such a value is left alone |
| ReferenceRewrite.Resolve | PreviewPane.tsx:92-104 | a reference is left alone exactly when it is external or names no file; otherwise it becomes a blob of the first such file's content, typed by the path |
| ReferenceRewrite.Decide | PreviewPane.tsx:90-107 | no contract of its own: a character is copied, a match is copied or embedded as `Resolve` decides; `RewriteCopiesMatch` and `RewriteReplacesMatch` state both outcomes |
| ReferenceRewrite.Reference | PreviewPane.tsx:107 | no contract of its own: the replacement text `attr="url"`, always double-quoted; `RewriteReplacesMatch` and `PreviewPane.ReplaceMatch` state that a resolved match becomes it |
| ReferenceRewrite.Emit | PreviewPane.tsx:88-109 | no contract of its own: the output text and the blobs registered in order, serial numbers counted on; `EmitConcat` states that it composes |
| ReferenceRewrite.Rewrite | PreviewPane.tsx:88-109 | no contract of its own: the whole `replace` pass; `RewriteCopiesChar`, `RewriteCopiesMatch`, `RewriteReplacesMatch` and `RewriteMaterialisesFileContents` state it, and `PreviewPane.RewriteReferences` is proved to compute it |
| ReferenceRewrite.EmitConcat | PreviewPane.tsx:88-109 | emission is compositional, with serial numbers carried on from one part to the next |
| ReferenceRewrite.RewriteCopiesChar | PreviewPane.tsx:88-89 | where no match starts, the character is kept and scanning goes on after it |
| ReferenceRewrite.RewriteCopiesMatch | PreviewPane.tsx:92-100 | an external or unknown reference is kept whole, and scanning goes on after it |
| ReferenceRewrite.RewriteReplacesMatch | PreviewPane.tsx:102-107 | a resolved reference becomes `attr="<next URL>"`, registering its blob, and scanning goes on with the next serial |
| ReferenceRewrite.RewriteWithoutBlobsIsIdentity | PreviewPane.tsx:88-109 | when no blob is registered, the output is the input |
| ReferenceRewrite.RewriteUnreferenced | PreviewPane.tsx:97-100 | a document that mentions no project path comes out unchanged, and no blob is made |
| ReferenceRewrite.RewriteMaterialisesFileContents | PreviewPane.tsx:97-105 | every registered blob has the verbatim content of the first file at some path, typed by that path |
| ReferenceRewrite.RewriteSplitsAtLineTerminator | PreviewPane.tsx:89 | the rewrite of text that continues at a line terminator is the two rewrites joined, serial numbers carried on |
| ReferenceRewrite.RewriteInertPieces | PreviewPane.tsx:65-89 | inert pieces pass through the rewrite as they are, whatever follows them |
| ReferenceRewrite.ScriptSurvives | PreviewPane.tsx:65-89 | the fault-capture script passes through the rewrite unchanged whatever follows it, and no blob is made for it |
| ReferenceRewrite.RewriteAroundScript | PreviewPane.tsx:85-89 | around such a script the text on either side is rewritten as if it were not there |
| ReferenceRewrite.RewriteKeepsErrorHandler | PreviewPane.tsx:65-109 | the fault-capture script comes out of the rewrite as written, wherever it is put |
| PreviewPane.ReplaceMatch | PreviewPane.tsx:90-108 | the `replace` callback returns the match and registers nothing for an external or unknown path; otherwise it returns `attr="<next URL>"` and registers exactly the resolved blob |
| PreviewPane.RewriteReferences | PreviewPane.tsx:88-109 | the global `replace` yields `Rewrite`'s text and registers just `Rewrite`'s blobs, in order, from the registry's next serial |
| PreviewPane.PreparedWithoutHead | PreviewPane.tsx:85-109 | a document without `<head>` is only rewritten |
| PreviewPane.PreparedDocument | PreviewPane.tsx:62-109 | no contract of its own: the `<head>` insertion, then the reference rewrite; `PreparedWithoutHead`, `PreparedKeepsErrorHandler` and `PreparedMaterialisesFiles` state it |
| PreviewPane.InsertThenRewrite | PreviewPane.tsx:85-109 | inserting a script that opens with a line terminator and passes through the rewrite leaves the text around it rewritten as if it were absent |
| PreviewPane.PreparedKeepsErrorHandler | PreviewPane.tsx:62-109 | the prepared document is the rewritten text through the first `<head>`, the fault-capture script exactly as written, then the rewritten rest, numbered on |
| PreviewPane.PreparedMaterialisesFiles | PreviewPane.tsx:97-105 | every blob made for the document is the verbatim content of the first file at some path, typed by that path's MIME type |
| PreviewPane.PreviewController.constructor | PreviewPane.tsx:9-11 | the component starts with no files, no error, an empty log and an empty registry |
| PreviewPane.PreviewController.FrameMounted | PreviewPane.tsx:150-161 | no contract of its own: the frame exists exactly when there is no error and some file, which is what the check at PreviewPane.tsx:42 sees; `UpdatePreview` and `HandleMessage` state its effect |
| PreviewPane.PreviewController.UpdatePreview | PreviewPane.tsx:41-117 | no frame: nothing changes. No entry: the no-HTML error. Otherwise: the error is cleared, the prepared document's blobs are registered, then the document itself, and the frame's `src` dereferences to it; a fault at that last step leaves `src` as it was and propagates |
| PreviewPane.PreviewController.FilesChanged | PreviewPane.tsx:14-23 | empty files: nothing. A standing error stays and the log clears. No entry: the no-HTML error. A fault: `Preview error: ` and its message, log kept. Otherwise: no error, log cleared, the frame's `src` is the next locator after the document's blobs and dereferences to the prepared document |
| PreviewPane.PreviewController.HandleMessage | PreviewPane.tsx:26-38 | a message is appended to the log exactly when it comes from the mounted frame's window and is a `runtime-error`; nothing else changes |
| App.HandleFileChange | App.tsx:55-61 | length and every path are kept; every file at the edited path, duplicates included, gets the new content; every other file is unchanged |
| App.EditFile | App.tsx:58 | no contract of its own: `{ ...file, content }` for the edited path, the file otherwise; `HandleFileChange` states it for every file |
| App.EditAbsentPath | App.tsx:58 | editing a path no file has leaves the list equal to the old one |
| App.EditIdempotent | App.tsx:58 | applying the same edit twice gives the list one application gives |
| App.EditsCommute | App.tsx:56-60 | edits of different paths give the same list in either order |
| App.EditUpdatesActiveContent | App.tsx:55-61 | after editing a path some file has, the active-file content value at that path is the new content |
| App.ApplyOutcome | App.tsx:36-52 | the error is cleared exactly when the answer carries no error, and then the answer's files replace the old ones; otherwise the files are kept and the error shown is never empty |
| App.Truthy | App.tsx:17 | no contract of its own: JavaScript truthiness of an optional string, present and non-empty, as tested at App.tsx:17 and App.tsx:41; `ApplyOutcome` and `ConfigureApi` state its use |
| App.SuccessReplacesWholesale | App.tsx:47 | what a successful answer shows does not depend on the files shown before |
| App.AppController.constructor | App.tsx:9-12 | no files, not loading, no error, not configured |
| App.AppController.ConfigureApi | App.tsx:15-21 | a non-empty answer configures the endpoint and sets the flag; a dismissed or empty one changes nothing |
| App.AppController.HandleGenerate | App.tsx:23-53 | unconfigured at call time: the configuration error, with no loading and files kept, even if the dialog configures the service. Configured: the state is `ApplyOutcome` of the old files, and loading ends false |

## Left out

- The active-file content value (CodePane.tsx:49) is computed but never read: each tab's editor is given `file.content` directly (CodePane.tsx:92). `ActiveFileContent` models the value as computed, not what an editor displays.
- The active path's initial value (CodePane.tsx:17) is taken once at mount. The shell mounts the code pane while its file list is still empty (App.tsx:9, App.tsx:90), so in the running shell the active path starts as `''` and changes only on a tab click (CodePane.tsx:66). Tab clicks are not modelled.
- Source strings are sequences of UTF-16 code units; the model's strings are sequences of Unicode scalar values. A lone surrogate cannot be written here, and a character outside the Basic Multilingual Plane is one position here but two in the source. No stated outcome depends on this: the literals the model compares against are ASCII, apart from U+2028 and U+2029, which are single code units in the source too.
- The generation service (`llmApiService.ts`) and the prompt pane are not part of this model. A generation call is an `Outcome` parameter: a response or a thrown message, already converted to text as at App.tsx:49.
- The prompt dialog behind `configureApi` is an `Option<string>` parameter. `configureLlmApi` is recorded only as the endpoint field it is given.
- Rendering (JSX, Monaco, tabs, scroll areas, the header button label) is not modelled. The exception is the frame's render condition, which decides whether `updatePreview` runs (`FrameMounted`).
- The runtime-error badge counts (PreviewPane.tsx:143-147) and the list rendering are not modelled; they only display the log.
- The `sandbox` attribute of the frame, and what the browser does inside it, run outside the program.
- The unused `fileMap` (PreviewPane.tsx:56-59) has no effect on any output, so it is not modelled.
- React's asynchronous state updates, effect scheduling and re-renders are not modelled. Each method gives the state once its handler has finished, so the `isLoading` value seen during an `await` is not modelled.
- Messages from a frame window that was replaced are not modelled: frame identity is a fixed number, `frameWindow`.
- PreviewController.UpdatePreview: exceptions are modelled only at the creation of the document's object URL (`fault`). A throw at an earlier step would leave fewer blobs registered; that case is not stated.
- `toLowerCase` is modelled on ASCII only. No other character lower-cases into one of the extension keys, and `/<head>/i` without the `u` flag folds ASCII only, so the outcomes are the same.
- The text of a blob URL is platform-chosen. It is modelled as `blob:` followed by a serial number, and the model relies only on distinctness and dereferencing.
- Object URLs are never revoked in the source, and nothing frees them in the model either; the registry only grows.
