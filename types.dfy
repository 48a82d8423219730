/** The application's records (types.ts), together with the JSON bodies the two server
    handlers send back. A field that TypeScript marks optional, or that the server does not
    send although the type declares it, is an Option. */
module Types {
  import opened Wrappers

  /** The steps of the single-page application. */
  datatype AppState = Landing | Uploading | Question | Processing | Results

  datatype Confidence = High | Medium | Low

  /** One document's extracted value. */
  datatype Answer = Answer(
    value: string,
    source: string,          // the document's file name
    page: Option<int>,
    quote: Option<string>,
    confidence: Confidence)

  /** The legacy, flat shape the model is asked to produce. */
  datatype ConflictItem = ConflictItem(
    value: string,
    source: string,
    context: string,
    confidence: Confidence)

  /** What the client receives. The servers send `conflicts` and never `answers` or
      `hasConflict`, which is why those two are optional here. */
  datatype AnalysisResult = AnalysisResult(
    question: string,
    answers: Option<seq<Answer>>,
    hasConflict: Option<bool>,
    explanation: string,
    recommendation: string,
    timestamp: int,
    conflicts: Option<seq<ConflictItem>>)

  /** A browser `File`: only the properties the application reads. */
  datatype FileInfo = FileInfo(name: string, mimeType: string, size: nat)

  /** An entry of the upload list. */
  datatype UploadedFile = UploadedFile(file: FileInfo, id: string, base64: Option<string>)

  /** The fields of the model's JSON reply once parsed; a field that is absent, or holds a
      falsy value, is None. */
  datatype Reply = Reply(
    conflicts: Option<seq<ConflictItem>>,
    explanation: Option<string>,
    recommendation: Option<string>)

  /** JavaScript's `s || d` for a field that may be missing: the empty string is falsy too. */
  function OrElse(s: Option<string>, d: string): (r: string)
    ensures r == d || (s.Some? && r == s.value && r != "")
    ensures s.Some? && s.value != "" ==> r == s.value
  {
    if s.Some? && s.value != "" then s.value else d
  }

  /** The JSON body of a handler's HTTP response. */
  datatype Body =
    | ErrorBody(error: string)
    | ErrorDetails(error: string, details: string)
    | UpstreamError(error: string, upstreamStatus: int, details: string)
    | AnalysisBody(
        question: string,
        conflicts: seq<ConflictItem>,
        explanation: string,
        recommendation: string,
        timestamp: int)

  datatype Response = Response(status: int, body: Body)
}
