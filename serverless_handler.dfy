/** The serverless function behind `POST /api/analyze` (api/analyze.ts, `handler`). It takes
    a JSON body of already-encoded files and a question, checks the method, the body and its
    configuration in that order, sends one part per file and a prompt to the model, and
    answers with the parsed reply or a 500 carrying the failure's message. The model call and
    the JSON parser are parameters. */
module ServerlessHandler {
  import opened Wrappers
  import opened Types
  import Text

  /** One element of the `files` array, as the browser sends it. */
  datatype FilePayload = FilePayload(data: Option<string>, mimeType: string)

  /** The `files` field of the request body: missing (or otherwise falsy), present but not an
      array, or an array. */
  datatype FilesField = Missing | NotAnArray | FileArray(items: seq<FilePayload>)

  datatype Request = Request(httpMethod: string, files: FilesField, question: Option<string>)

  /** A document part of the model request: `inlineData`. */
  datatype InlineData = InlineData(data: Option<string>, mimeType: string)

  datatype ModelRequest = ModelRequest(parts: seq<InlineData>, prompt: string)

  /** How the model call ended: it threw with a message, or it returned (possibly without
      text). */
  datatype ModelCall = Threw(message: string) | Returned(text: Option<string>)

  /** A handler run: the response and the request the model received, if any. */
  datatype Outcome = Outcome(response: Response, sent: Option<ModelRequest>)

  const FailedToAnalyze: string := "Failed to analyze documents. Ensure files are valid and API key is correct."
  const NoExplanation: string := "Could not generate explanation."
  const NoRecommendation: string := "No recommendation available."
  const NoResponse: string := "No response from AI"

  const PromptBefore: string :=
    "\n      You are a senior investment analyst.\n      Your task is to answer the user's question: \""
  const PromptAfter: string :=
    "\" by reconciling data across the attached documents.\n      \n"
    + "      1. EXTRACT: Find all specific mentions related to the question.\n"
    + "      2. COMPARE: Identify material conflicts (e.g., numbers differing by >10%) or distinct viewpoints.\n"
    + "      3. EXPLAIN: Why do they differ? (Methodology? Date? Scope? Definition?)\n      \n"
    + "      Output Format Requirements:\n"
    + "      - Context: You MUST cite the Page Number if the document allows (e.g., \"Page 5: ...\").\n"
    + "      - Value: Normalize units where possible (e.g., convert all to USD Billions).\n"
    + "      - Recommendation: Give a decisive advice.\n      \n"
    + "      Be brutally concise. No fluff.\n    "

  /** The prompt: the fixed instructions with the question quoted inside them. */
  function Prompt(question: string): (p: string)
    ensures PromptBefore + question <= p
    ensures Text.EndsWith(p, PromptAfter)
    ensures |p| == |PromptBefore| + |question| + |PromptAfter|
  {
    Text.EndsWithAppend(PromptBefore + question, PromptAfter);
    PromptBefore + question + PromptAfter
  }

  /** `files.map(...)`: one part per file, same order, data and type copied. */
  function FileParts(files: seq<FilePayload>): (parts: seq<InlineData>)
    ensures |parts| == |files|
    ensures forall i :: 0 <= i < |files| ==>
      parts[i].data == files[i].data && parts[i].mimeType == files[i].mimeType
  {
    if files == [] then []
    else [InlineData(files[0].data, files[0].mimeType)] + FileParts(files[1..])
  }

  /** The request passes the body check: `files` is an array (an empty one too) and the
      question is truthy. */
  predicate BodyValid(req: Request) {
    req.files.FileArray? && req.question.Some? && req.question.value != ""
  }

  /** After the model call: no text, or text the parser rejects, is a 500 with the fixed
      error and the thrown message; parsed text is a 200 with the question echoed and the
      missing fields defaulted. */
  function ReplyResponse(question: string, call: ModelCall, parse: string -> Result<Reply, string>, now: int)
    : (r: Response)
  {
    match call
    case Threw(message) => Response(500, ErrorDetails(FailedToAnalyze, message))
    case Returned(text) =>
      if text.None? || text.value == "" then Response(500, ErrorDetails(FailedToAnalyze, NoResponse))
      else
        match parse(text.value)
        case Failure(message) => Response(500, ErrorDetails(FailedToAnalyze, message))
        case Success(data) =>
          Response(200, AnalysisBody(question, data.conflicts.GetOr([]),
            OrElse(data.explanation, NoExplanation), OrElse(data.recommendation, NoRecommendation), now))
  }

  /** The handler. */
  function Handler(req: Request, apiKey: string, call: ModelCall,
                   parse: string -> Result<Reply, string>, now: int): (o: Outcome)
    // A method other than POST is refused before anything else is looked at.
    ensures req.httpMethod != "POST" ==> o == Outcome(Response(405, ErrorBody("Method not allowed")), None)
    // Then the body: files must be an array and the question truthy.
    ensures req.httpMethod == "POST" && !BodyValid(req) ==>
      o == Outcome(Response(400, ErrorBody("Missing files or question")), None)
    // The key is checked only once the body is valid.
    ensures req.httpMethod == "POST" && BodyValid(req) && apiKey == "" ==>
      o == Outcome(Response(500, ErrorBody("API Key not configured")), None)
    // The model is called exactly when all three checks pass, even with no files at all.
    ensures o.sent.Some? <==> req.httpMethod == "POST" && BodyValid(req) && apiKey != ""
    ensures o.sent.Some? ==>
      && o.sent.value.parts == FileParts(req.files.items)
      && o.sent.value.prompt == Prompt(req.question.value)
      && o.response == ReplyResponse(req.question.value, call, parse, now)
    // Every response is one of the four statuses, and a 200 always echoes the question.
    ensures o.response.status in {200, 400, 405, 500}
    ensures o.response.status == 200 ==>
      o.response.body.AnalysisBody? && req.question.Some? && o.response.body.question == req.question.value
  {
    if req.httpMethod != "POST" then Outcome(Response(405, ErrorBody("Method not allowed")), None)
    else if !BodyValid(req) then Outcome(Response(400, ErrorBody("Missing files or question")), None)
    else if apiKey == "" then Outcome(Response(500, ErrorBody("API Key not configured")), None)
    else
      var question := req.question.value;
      var request := ModelRequest(FileParts(req.files.items), Prompt(question));
      Outcome(ReplyResponse(question, call, parse, now), Some(request))
  }

  /** The failure paths after the call: no text or unparsable text gives 500 with the fixed
      error, and the details say why. */
  lemma ReplyFailures(question: string, call: ModelCall, parse: string -> Result<Reply, string>, now: int)
    ensures call.Threw? ==>
      ReplyResponse(question, call, parse, now) == Response(500, ErrorDetails(FailedToAnalyze, call.message))
    ensures call.Returned? && (call.text.None? || call.text.value == "") ==>
      ReplyResponse(question, call, parse, now) == Response(500, ErrorDetails(FailedToAnalyze, NoResponse))
    ensures call.Returned? && call.text.Some? && call.text.value != "" && parse(call.text.value).Failure? ==>
      ReplyResponse(question, call, parse, now)
        == Response(500, ErrorDetails(FailedToAnalyze, parse(call.text.value).error))
  {
  }

  /** The success defaults: a parsed reply yields 200 with the question, the conflicts or [],
      and the explanation and recommendation or their fixed replacements. */
  lemma ReplySuccess(question: string, text: string, parse: string -> Result<Reply, string>, now: int)
    requires text != "" && parse(text).Success?
    ensures var r := ReplyResponse(question, Returned(Some(text)), parse, now);
      var data := parse(text).value;
      && r.status == 200
      && r.body == AnalysisBody(question, data.conflicts.GetOr([]),
           OrElse(data.explanation, NoExplanation), OrElse(data.recommendation, NoRecommendation), now)
      && r.body.explanation != "" && r.body.recommendation != ""
  {
  }
}
