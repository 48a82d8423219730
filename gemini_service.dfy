/** The browser-side client of `POST /api/analyze` (services/geminiService.ts): the base64
    payload cut out of each file's data URL, the request body with one part per uploaded
    file, and the message of the error the caller sees. The `FileReader` that produces the
    data URL and the `fetch` itself are oracles: the data URL of a file is the parameter
    `read`, and what the server did is a `ServerReply`. */
module GeminiService {
  import Text
  import opened Wrappers
  import opened Types
  import ServerlessHandler

  /** What the client observes of its call: the server's JSON when the status is ok; the
      `error` field of the JSON when it is not (None when absent or not a string); or an
      exception, thrown by `fetch` or by reading a body that is not JSON. */
  datatype ServerReply =
    | Answered(result: AnalysisResult)
    | Refused(error: Option<string>)
    | Threw(message: string)

  const Failed: string := "Failed to analyze documents"
  const FailedTryAgain: string := "Failed to analyze documents. Please try again."

  /** `result.split(',')[1]`: the text after the first comma up to the next one, or
      undefined when the data URL holds no comma. */
  function DataPayload(url: string): (r: Option<string>)
    ensures r.None? <==> ',' !in url
    ensures r.Some? ==> ',' !in r.value
    ensures r.Some? ==> exists i :: 0 <= i < |url| && url[i] == ',' && ',' !in url[..i]
                                    && (url[i + 1..] == r.value || r.value + "," <= url[i + 1..])
  {
    var parts := Text.Split(url, ',');
    if |parts| >= 2 then
      assert url == parts[0] + "," + Text.Join(parts[1..], ",");
      assert ',' !in url[..|parts[0]|] by { assert url[..|parts[0]|] == parts[0]; }
      assert url[|parts[0]| + 1..] == Text.Join(parts[1..], ",");
      JoinFirst(parts[1..], ",");
      Some(parts[1])
    else
      assert url == parts[0];
      None
  }

  /** A join is its first part alone, or that part followed by the separator. */
  lemma JoinFirst(parts: seq<string>, sep: string)
    requires |parts| >= 1
    ensures Text.Join(parts, sep) == parts[0] || parts[0] + sep <= Text.Join(parts, sep)
  {
    if |parts| > 1 {
      assert Text.Join(parts, sep) == parts[0] + sep + Text.Join(parts[1..], sep);
    }
  }

  /** For a data URL `data:<mime>;base64,<payload>` whose type and payload hold no comma,
      the cut-out text is exactly the payload. */
  lemma DataUrlPayload(mime: string, payload: string)
    requires ',' !in mime && ',' !in payload
    ensures DataPayload("data:" + mime + ";base64," + payload) == Some(payload)
  {
    var head := "data:" + mime + ";base64";
    assert ',' !in head by {
      assert forall c :: c in head ==> c in "data:" || c in mime || c in ";base64";
    }
    var url := "data:" + mime + ";base64," + payload;
    assert url == Text.Join([head, payload], ",");
    Text.SplitJoin([head, payload], ',');
  }

  /** `fileToBase64`: the payload of the file's data URL and the file's own type. */
  function FilePayload(f: UploadedFile, read: UploadedFile -> string): ServerlessHandler.FilePayload {
    ServerlessHandler.FilePayload(DataPayload(read(f)), f.file.mimeType)
  }

  /** `files.map(f => fileToBase64(f.file))`, awaited together: one payload per uploaded
      file, in list order, whatever order the reads finish in. */
  function Payloads(files: seq<UploadedFile>, read: UploadedFile -> string)
    : (ps: seq<ServerlessHandler.FilePayload>)
    ensures |ps| == |files|
    ensures forall i :: 0 <= i < |files| ==>
      ps[i].data == DataPayload(read(files[i])) && ps[i].mimeType == files[i].file.mimeType
  {
    if files == [] then [] else [FilePayload(files[0], read)] + Payloads(files[1..], read)
  }

  /** The POST the client sends: the payloads and the question. */
  function Request(files: seq<UploadedFile>, question: string, read: UploadedFile -> string)
    : ServerlessHandler.Request
  {
    ServerlessHandler.Request("POST", ServerlessHandler.FileArray(Payloads(files, read)), Some(question))
  }

  /** `analyzeDocuments`: the server's result on success; otherwise the message of the
      error it throws, after the catch has re-thrown it. */
  function Analyze(reply: ServerReply): (r: Result<AnalysisResult, string>)
    ensures r.Success? <==> reply.Answered?
    ensures r.Success? ==> r.value == reply.result
    ensures r.Failure? ==> r.error != ""
    // A non-ok status surfaces the server's own error text when it gave one.
    ensures reply.Refused? ==> r.error == OrElse(reply.error, Failed)
    // An exception keeps its message; only an empty one is replaced.
    ensures reply.Threw? ==> r.error == OrElse(Some(reply.message), FailedTryAgain)
  {
    match reply
    case Answered(result) => Success(result)
    case Refused(error) =>
      // thrown inside the try, caught, and thrown again with the same, non-empty message
      var inner := OrElse(error, Failed);
      Failure(OrElse(Some(inner), FailedTryAgain))
    case Threw(message) => Failure(OrElse(Some(message), FailedTryAgain))
  }

  /** The request the client sends passes every check of the serverless handler once the
      question is non-empty and the key is set, and the model then receives each file's
      payload and type in list order together with the question's prompt. */
  lemma RequestReachesModel(files: seq<UploadedFile>, question: string, read: UploadedFile -> string,
                            apiKey: string, call: ServerlessHandler.ModelCall,
                            parse: string -> Result<Reply, string>, now: int)
    requires question != "" && apiKey != ""
    ensures var o := ServerlessHandler.Handler(Request(files, question, read), apiKey, call, parse, now);
      && o.sent.Some?
      && |o.sent.value.parts| == |files|
      && (forall i :: 0 <= i < |files| ==>
            o.sent.value.parts[i].data == DataPayload(read(files[i]))
            && o.sent.value.parts[i].mimeType == files[i].file.mimeType)
      && o.sent.value.prompt == ServerlessHandler.Prompt(question)
  {
  }

  /** With an empty question the serverless handler refuses the request, and the caller
      sees that refusal's text. */
  lemma EmptyQuestionRefused(files: seq<UploadedFile>, read: UploadedFile -> string, apiKey: string,
                             call: ServerlessHandler.ModelCall,
                             parse: string -> Result<Reply, string>, now: int)
    ensures var o := ServerlessHandler.Handler(Request(files, "", read), apiKey, call, parse, now);
      && o.sent.None? && o.response.status == 400
      && Analyze(Refused(Some(o.response.body.error))) == Failure("Missing files or question")
  {
  }
}
