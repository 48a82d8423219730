/** The application shell (App.tsx): four pieces of state and the handlers the steps call.
    `handleAnalyze` awaits the analysis in the middle, so it is two methods here: what runs
    before the await and what runs once the call has settled. */
module AppShell {
  import opened Wrappers
  import opened Types
  import Upload
  import GeminiService

  /** The step the main stage renders. */
  datatype View = UploadView | QuestionView | ProcessingView | ResultsView(result: AnalysisResult) | Blank

  const Interrupted: string := "Analysis interruption. Please retry."

  class App {
    var state: AppState
    var files: seq<UploadedFile>
    var question: string
    var result: Option<AnalysisResult>

    /** What every handler keeps: the landing step is never entered, the results step always
        has a result to show, and the list respects the upload limits. */
    predicate Valid()
      reads this
    {
      && state != Landing
      && (state == Results ==> result.Some?)
      && Upload.WithinLimits(files)
    }

    /** The initial state: the upload step, nothing uploaded, asked or answered. */
    constructor()
      ensures Valid()
      ensures state == Uploading && files == [] && question == "" && result == None
    {
      state := Uploading;
      files := [];
      question := "";
      result := None;
    }

    /** The step rendered for the current state; the results step needs a result. */
    function CurrentView(): (v: View)
      reads this
      ensures v == Blank <==> state == Landing || (state == Results && result.None?)
      ensures v.ResultsView? <==> state == Results && result.Some?
      ensures v.ResultsView? ==> v.result == result.value
    {
      match state
      case Uploading => UploadView
      case Question => QuestionView
      case Processing => ProcessingView
      case Results => if result.Some? then ResultsView(result.value) else Blank
      case Landing => Blank
    }

    /** Under the invariant every state shows its own step: nothing is ever blank. */
    lemma ValidNeverBlank()
      requires Valid()
      ensures CurrentView() != Blank
      ensures state == Results ==> CurrentView() == ResultsView(result.value)
    {
    }

    /** The upload step's "Continue". */
    method Continue()
      requires Valid()
      modifies this
      ensures Valid()
      ensures state == Question
      ensures files == old(files) && question == old(question) && result == old(result)
    {
      state := Question;
    }

    /** The question step's back arrow. */
    method Back()
      requires Valid()
      modifies this
      ensures Valid()
      ensures state == Uploading
      ensures files == old(files) && question == old(question) && result == old(result)
    {
      state := Uploading;
    }

    /** A batch chosen or dropped on the upload step: the step validates it against the
        current list and, if it is accepted, hands the new list to `setFiles`. The message
        the step shows comes back. */
    method AddFiles(newFiles: seq<FileInfo>, ids: nat -> string) returns (error: Option<Upload.UploadError>)
      requires Valid()
      modifies this
      ensures Valid()
      ensures var r := Upload.ProcessFiles(old(files), newFiles, ids);
        && files == r.change.GetOr(old(files))
        && error == r.error
      ensures state == old(state) && question == old(question) && result == old(result)
    {
      Upload.ProcessKeepsLimits(files, newFiles, ids);
      var r := Upload.ProcessFiles(files, newFiles, ids);
      if r.change.Some? {
        files := r.change.value;
      }
      error := r.error;
    }

    /** A file's remove button on the upload step. */
    method RemoveFile(id: string)
      requires Valid()
      modifies this
      ensures Valid()
      ensures files == Upload.RemoveFile(old(files), id)
      ensures state == old(state) && question == old(question) && result == old(result)
    {
      Upload.RemoveKeepsLimits(files, id);
      files := Upload.RemoveFile(files, id);
    }

    /** `handleAnalyze` up to the await: the question is stored and the processing step
        shown. */
    method StartAnalysis(q: string)
      requires Valid()
      modifies this
      ensures Valid()
      ensures state == Processing && question == q
      ensures files == old(files) && result == old(result)
    {
      question := q;
      state := Processing;
    }

    /** `handleAnalyze` after the await: a result is stored and shown; a failure raises the
        alert and goes back to the question step, keeping the files, the question and
        whatever result was there before. */
    method AnalysisSettled(reply: GeminiService.ServerReply) returns (alert: Option<string>)
      requires Valid()
      modifies this
      ensures Valid()
      ensures files == old(files) && question == old(question)
      ensures match GeminiService.Analyze(reply)
        case Success(r) => state == Results && result == Some(r) && alert == None
        case Failure(_) => state == Question && result == old(result) && alert == Some(Interrupted)
    {
      match GeminiService.Analyze(reply)
      case Success(r) =>
        result := Some(r);
        state := Results;
        alert := None;
      case Failure(_) =>
        alert := Some(Interrupted);
        state := Question;
    }

    /** The results step's "New analysis": everything is cleared. */
    method Reset()
      requires Valid()
      modifies this
      ensures Valid()
      ensures state == Uploading && files == [] && question == "" && result == None
    {
      files := [];
      question := "";
      result := None;
      state := Uploading;
    }

    /** The results step's "Ask another question": the documents stay, the question and
        the result go. */
    method AnalyzeAnother()
      requires Valid()
      modifies this
      ensures Valid()
      ensures state == Question && files == old(files) && question == "" && result == None
    {
      question := "";
      result := None;
      state := Question;
    }
  }

  /** A whole session: start, upload a batch, continue, ask, and get an answer. The
      answer is what the results step shows, and the documents are the accepted batch. */
  method AnswerSession(batch: seq<FileInfo>, ids: nat -> string, q: string, answer: AnalysisResult)
    returns (app: App)
    ensures app.Valid()
    ensures app.CurrentView() == ResultsView(answer)
    ensures app.question == q
    ensures app.files == Upload.ProcessFiles([], batch, ids).change.GetOr([])
  {
    app := new App();
    var _ := app.AddFiles(batch, ids);
    app.Continue();
    app.StartAnalysis(q);
    var _ := app.AnalysisSettled(GeminiService.Answered(answer));
  }
}
