/**
  The application shell: the path-keyed edit applied to the file list, and
  the state decisions of a generation request (the configured check, the
  response or failure that is applied, the loading flag).
 */
module App {
  import opened Wrappers
  import opened CodePane

  // ---------------------------------------------------------------------------
  // Editing a file

  /** `{ ...file, content }` for the edited path, the file itself otherwise. */
  function EditFile(file: FileData, path: string, content: string): FileData {
    if file.path == path then FileData(file.path, content) else file
  }

  /**
    `handleFileChange`: every file whose path is exactly `path` gets the new
    content, duplicates included; every other file stays as it was.
   */
  function HandleFileChange(files: seq<FileData>, path: string, content: string): (r: seq<FileData>)
    ensures |r| == |files|
    ensures forall k :: 0 <= k < |r| ==> r[k].path == files[k].path
    ensures forall k :: 0 <= k < |r| && files[k].path == path ==> r[k].content == content
    ensures forall k :: 0 <= k < |r| && files[k].path != path ==> r[k] == files[k]
    decreases |files|
  {
    if files == [] then [] else [EditFile(files[0], path, content)] + HandleFileChange(files[1..], path, content)
  }

  /** Editing a path no file has leaves the list as it was. */
  lemma EditAbsentPath(files: seq<FileData>, path: string, content: string)
    requires forall k :: 0 <= k < |files| ==> files[k].path != path
    ensures HandleFileChange(files, path, content) == files
  {
    var r := HandleFileChange(files, path, content);
    assert forall k :: 0 <= k < |r| ==> r[k] == files[k];
  }

  /** The same edit applied twice gives the list it gives once. */
  lemma EditIdempotent(files: seq<FileData>, path: string, content: string)
    ensures HandleFileChange(HandleFileChange(files, path, content), path, content) ==
            HandleFileChange(files, path, content)
  {
    var once := HandleFileChange(files, path, content);
    var twice := HandleFileChange(once, path, content);
    forall k | 0 <= k < |twice|
      ensures twice[k] == once[k]
    {
      if once[k].path == path {
        assert twice[k] == FileData(path, content) == once[k];
      }
    }
  }

  /** Edits of two different paths do not interfere: either order gives the same list. */
  lemma EditsCommute(files: seq<FileData>, p: string, c: string, q: string, d: string)
    requires p != q
    ensures HandleFileChange(HandleFileChange(files, p, c), q, d) ==
            HandleFileChange(HandleFileChange(files, q, d), p, c)
  {
    var pq := HandleFileChange(HandleFileChange(files, p, c), q, d);
    var qp := HandleFileChange(HandleFileChange(files, q, d), p, c);
    forall k | 0 <= k < |pq|
      ensures pq[k] == qp[k]
    {
      if files[k].path == p {
        assert pq[k] == FileData(p, c) == qp[k];
      } else if files[k].path == q {
        assert pq[k] == FileData(q, d) == qp[k];
      }
    }
  }

  /** After an edit of a path some file has, the active-file content value for that path is the new content. */
  lemma EditUpdatesActiveContent(files: seq<FileData>, path: string, content: string)
    requires exists k :: 0 <= k < |files| && files[k].path == path
    ensures ActiveFileContent(HandleFileChange(files, path, content), path) == content
  {
    var r := HandleFileChange(files, path, content);
    var k :| 0 <= k < |files| && files[k].path == path;
    assert r[k].path == path;
    match FindPath(r, path)
    case Some(m) =>
      assert r[m].content == content;
  }

  // ---------------------------------------------------------------------------
  // Generating code

  const NotConfiguredMessage: string := "API endpoint must be configured before generating code."
  const GenerateFailurePrefix: string := "Failed to generate code: "

  /** What the generation service answers: the files, and an error message when it reports one. */
  datatype GenerateResponse = GenerateResponse(files: seq<FileData>, error: Option<string>)

  /**
    How the awaited call ends: with a response, or by throwing, in which case
    `message` is the text the failure carries.
   */
  datatype Outcome = Responded(response: GenerateResponse) | Threw(message: string)

  /** JavaScript truthiness of an optional string: present and not empty. */
  predicate Truthy(s: Option<string>) {
    s.Some? && s.value != ""
  }

  /** The files and the error message the shell shows once a call has ended. */
  datatype Shown = Shown(files: seq<FileData>, error: Option<string>)

  /**
    The state a finished call leaves, from the files shown before it. The
    error is cleared exactly when the call answered without an error, and
    then the answer's files are shown in place of the old ones, whatever they
    were; on every other ending the old files stay and an error that is never
    empty (so always rendered) is shown.
   */
  function ApplyOutcome(files: seq<FileData>, outcome: Outcome): (r: Shown)
    ensures r.error.None? <==> outcome.Responded? && !Truthy(outcome.response.error)
    ensures r.error.None? ==> r.files == outcome.response.files
    ensures r.error.Some? ==> r.files == files && r.error.value != ""
    ensures outcome.Responded? && Truthy(outcome.response.error) ==> r.error == outcome.response.error
    ensures outcome.Threw? ==> r.error == Some(GenerateFailurePrefix + outcome.message)
  {
    match outcome
    case Threw(message) => Shown(files, Some(GenerateFailurePrefix + message))
    case Responded(response) =>
      if Truthy(response.error) then Shown(files, response.error) else Shown(response.files, None)
  }

  /** The old files play no part in what a successful answer shows. */
  lemma SuccessReplacesWholesale(f: seq<FileData>, g: seq<FileData>, response: GenerateResponse)
    requires !Truthy(response.error)
    ensures ApplyOutcome(f, Responded(response)) == ApplyOutcome(g, Responded(response))
  {
  }

  /** The shell's state: the generated files, the loading flag, the error banner and the configured flag. */
  class AppController {
    var files: seq<FileData>
    var isLoading: bool
    var error: Option<string>
    var apiConfigured: bool
    /** The endpoint handed to the generation service, once one has been given. */
    var endpoint: Option<string>

    constructor()
      ensures files == [] && !isLoading && error.None? && !apiConfigured && endpoint.None?
    {
      files := [];
      isLoading := false;
      error := None;
      apiConfigured := false;
      endpoint := None;
    }

    /**
      `configureApi`, with `answer` standing for what the prompt dialog
      returns (`None` when it is dismissed): a non-empty answer configures the
      service and sets the flag; anything else changes nothing.
     */
    method ConfigureApi(answer: Option<string>)
      modifies this
      ensures Truthy(answer) ==> apiConfigured && endpoint == answer
      ensures !Truthy(answer) ==> apiConfigured == old(apiConfigured) && endpoint == old(endpoint)
      ensures files == old(files) && isLoading == old(isLoading) && error == old(error)
    {
      if Truthy(answer) {
        endpoint := answer;
        apiConfigured := true;
      }
    }

    /**
      `handleGenerate`. `answer` is the prompt dialog's result should the
      configured check open it, and `outcome` how the awaited call ends. The
      check reads the flag as it was when the call began, so a call made
      unconfigured always stops with the configuration error, even when the
      dialog configures the service for later calls.
     */
    method HandleGenerate(answer: Option<string>, outcome: Outcome)
      modifies this
      ensures !old(apiConfigured) ==>
                && error == Some(NotConfiguredMessage)
                && files == old(files) && isLoading == old(isLoading)
                && apiConfigured == Truthy(answer)
                && endpoint == (if Truthy(answer) then answer else old(endpoint))
      ensures old(apiConfigured) ==>
                && Shown(files, error) == ApplyOutcome(old(files), outcome)
                && !isLoading
                && apiConfigured && endpoint == old(endpoint)
    {
      var configured := apiConfigured;
      if !configured {
        ConfigureApi(answer);
        if !configured {
          error := Some(NotConfiguredMessage);
          return;
        }
      }

      isLoading := true;
      error := None;
      match outcome {
        case Threw(message) =>
          error := Some(GenerateFailurePrefix + message);
        case Responded(response) =>
          if Truthy(response.error) {
            error := response.error;
          } else {
            files := response.files;
          }
      }
      isLoading := false;
    }
  }
}
