/** The results view (components/ResultsStep.tsx): the answers it lists, whether it reports a
    conflict, the text the "Copy" button puts on the clipboard, the text and file name of the
    "Download" button, and which panels it shows. The date the download prints comes from the
    browser's locale and is a parameter. */
module Results {
  import opened Wrappers
  import opened Types
  import Text

  /** A legacy conflict item shown as an answer: its context becomes the quote, and it has
      no page. */
  function FromConflict(c: ConflictItem): Answer {
    Answer(c.value, c.source, None, Some(c.context), c.confidence)
  }

  /** The answers listed: the result's own `answers` when present (even an empty list),
      otherwise its legacy `conflicts` converted one by one, otherwise none. */
  function Answers(r: AnalysisResult): (answers: seq<Answer>)
    ensures r.answers.Some? ==> answers == r.answers.value
    ensures r.answers.None? ==> |answers| == |r.conflicts.GetOr([])|
    ensures r.answers.None? ==> forall i :: 0 <= i < |answers| ==>
      && answers[i].value == r.conflicts.value[i].value
      && answers[i].source == r.conflicts.value[i].source
      && answers[i].quote == Some(r.conflicts.value[i].context)
      && answers[i].page.None?
      && answers[i].confidence == r.conflicts.value[i].confidence
  {
    if r.answers.Some? then r.answers.value
    else
      var cs := r.conflicts.GetOr([]);
      seq(|cs|, i requires 0 <= i < |cs| => FromConflict(cs[i]))
  }

  /** `hasConflict ?? answers.length > 1`: an explicit flag wins, false included; without
      one, a conflict is reported exactly when more than one answer is listed. */
  function HasConflict(r: AnalysisResult): (b: bool)
    ensures r.hasConflict.Some? ==> b == r.hasConflict.value
    ensures r.hasConflict.None? ==> (b <==> |Answers(r)| > 1)
  {
    match r.hasConflict
    case Some(flag) => flag
    case None => |Answers(r)| > 1
  }

  const LeftArrow: string := "\U{2190}"
  const RightArrow: string := "\U{2192}"
  const Warning: string := "\U{26A0}\U{FE0F}"
  const Check: string := "\U{2713}"

  /** One clipboard line per answer: the value, an arrow, the source. */
  function CopyLine(a: Answer): string {
    a.value + " " + LeftArrow + " " + a.source
  }

  function CopyLines(answers: seq<Answer>): (lines: seq<string>)
    ensures |lines| == |answers|
    ensures forall i :: 0 <= i < |answers| ==> lines[i] == CopyLine(answers[i])
  {
    seq(|answers|, i requires 0 <= i < |answers| => CopyLine(answers[i]))
  }

  function CopyVerdict(conflict: bool): string {
    if conflict then Warning + " Conflict detected" else Check + " Consistent"
  }

  /** The clipboard text: the question, the answer lines, the verdict, the explanation and
      the recommendation, separated by blank lines. */
  function CopyText(r: AnalysisResult): string {
    var answers := Answers(r);
    "Q: " + r.question + "\n\n" + Text.Join(CopyLines(answers), "\n") + "\n\n"
      + CopyVerdict(HasConflict(r)) + "\n\n" + r.explanation + "\n\n" + RightArrow + " " + r.recommendation
  }

  lemma {:induction false} JoinAppend(p: seq<string>, q: seq<string>, sep: string)
    requires p != [] && q != []
    ensures Text.Join(p + q, sep) == Text.Join(p, sep) + sep + Text.Join(q, sep)
  {
    if |p| > 1 {
      assert (p + q)[1..] == p[1..] + q;
      JoinAppend(p[1..], q, sep);
    } else {
      assert (p + q)[1..] == q;
    }
  }

  lemma JoinCons(x: string, rest: seq<string>, sep: string)
    requires rest != []
    ensures Text.Join([x] + rest, sep) == x + sep + Text.Join(rest, sep)
  {
    assert ([x] + rest)[1..] == rest;
  }

  /** The part of the clipboard text after the answer lines, as lines. */
  lemma CopyTail(verdict: string, explanation: string, last: string)
    ensures Text.Join(["", verdict, "", explanation, "", last], "\n")
      == "\n" + verdict + "\n\n" + explanation + "\n\n" + last
  {
    var t5 := [last];
    var t4 := [""] + t5;
    var t3 := [explanation] + t4;
    var t2 := [""] + t3;
    var t1 := [verdict] + t2;
    var t0 := [""] + t1;
    assert Text.Join(t5, "\n") == last;
    JoinCons("", t5, "\n");
    JoinCons(explanation, t4, "\n");
    JoinCons("", t3, "\n");
    JoinCons(verdict, t2, "\n");
    JoinCons("", t1, "\n");
    assert t0 == ["", verdict, "", explanation, "", last];
  }

  /** The reassociation of the clipboard text into its joined lines. */
  lemma CopyAssemble(q: string, l: string, v: string, e: string, arrow: string, rec: string)
    ensures q + "\n\n" + l + "\n\n" + v + "\n\n" + e + "\n\n" + arrow + " " + rec
      == (q + "\n" + "") + "\n" + (l + "\n" + ("\n" + v + "\n\n" + e + "\n\n" + (arrow + " " + rec)))
  {
  }

  /** The answer lines as lines of the clipboard text: with no answer, `join` gives the empty
      string, which still stands as one (empty) line between the blank ones. */
  function AnswerBlock(answers: seq<Answer>): (block: seq<string>)
    ensures block != []
    ensures Text.Join(block, "\n") == Text.Join(CopyLines(answers), "\n")
  {
    if answers == [] then [""] else CopyLines(answers)
  }

  /** The lines of the clipboard text. */
  function CopyParts(r: AnalysisResult): seq<string> {
    ["Q: " + r.question, ""] + AnswerBlock(Answers(r))
      + ["", CopyVerdict(HasConflict(r)), "", r.explanation, "", RightArrow + " " + r.recommendation]
  }

  /** The clipboard text is its lines joined by line breaks, for every result, including
      one with no answer. */
  lemma CopyTextJoin(r: AnalysisResult)
    ensures Text.Join(CopyParts(r), "\n") == CopyText(r)
  {
    var lines := AnswerBlock(Answers(r));
    var verdict := CopyVerdict(HasConflict(r));
    var last := RightArrow + " " + r.recommendation;
    var head := ["Q: " + r.question, ""];
    var tail := ["", verdict, "", r.explanation, "", last];
    JoinCons("Q: " + r.question, [""], "\n");
    CopyTail(verdict, r.explanation, last);
    JoinAppend(lines, tail, "\n");
    assert CopyParts(r) == head + (lines + tail);
    JoinAppend(head, lines + tail, "\n");
    CopyAssemble("Q: " + r.question, Text.Join(CopyLines(Answers(r)), "\n"), verdict, r.explanation, RightArrow, r.recommendation);
  }

  lemma CopyPartsSingleLine(r: AnalysisResult)
    requires '\n' !in r.question && '\n' !in r.explanation && '\n' !in r.recommendation
    requires forall a :: a in Answers(r) ==> '\n' !in a.value && '\n' !in a.source
    ensures forall k :: 0 <= k < |CopyParts(r)| ==> '\n' !in CopyParts(r)[k]
  {
    var parts := CopyParts(r);
    var n := |Answers(r)|;
    forall k | 0 <= k < |parts|
      ensures '\n' !in parts[k]
    {
      if n == 0 && k == 2 {
        assert parts[k] == "";
      } else if 2 <= k < 2 + n {
        assert parts[k] == CopyLine(Answers(r)[k - 2]);
        assert Answers(r)[k - 2] in Answers(r);
      } else if k >= 2 + |AnswerBlock(Answers(r))| {
        assert parts[k] in ["", CopyVerdict(HasConflict(r)), "", r.explanation, "", RightArrow + " " + r.recommendation];
      }
    }
  }

  /** The clipboard text read back line by line: when no field holds a line break, splitting
      it at the line breaks gives the question line, one line per answer (a single empty
      line when there is none), the verdict, the explanation and the recommendation line,
      with the blank lines between them. */
  lemma CopyTextLines(r: AnalysisResult)
    requires '\n' !in r.question && '\n' !in r.explanation && '\n' !in r.recommendation
    requires forall a :: a in Answers(r) ==> '\n' !in a.value && '\n' !in a.source
    ensures Text.Split(CopyText(r), '\n')
      == ["Q: " + r.question, ""] + (if Answers(r) == [] then [""] else CopyLines(Answers(r)))
         + ["", CopyVerdict(HasConflict(r)), "", r.explanation, "", RightArrow + " " + r.recommendation]
  {
    CopyTextJoin(r);
    CopyPartsSingleLine(r);
    Text.SplitJoin(CopyParts(r), '\n');
  }

  /** An answer's page suffix: only a page that is present and not zero is printed. */
  function PageSuffix(page: Option<int>): (s: string)
    ensures s == "" <==> page.None? || page.value == 0
    ensures s != "" ==> |s| > 8 && s[..7] == " (page " && s[|s| - 1] == ')'
    ensures s != "" && page.value > 0 ==>
      Text.IsDigits(s[7..|s| - 1]) && Text.DigitsValue(s[7..|s| - 1]) == page.value
  {
    if page.Some? && page.value != 0 then
      var n := Text.IntToString(page.value);
      var s := " (page " + n + ")";
      assert s[7..|s| - 1] == n;
      Text.NatToStringValue(if page.value > 0 then page.value else -page.value);
      s
    else ""
  }

  /** The quote printed under an answer: a missing or empty quote is replaced. */
  function QuoteText(quote: Option<string>): (q: string)
    ensures quote.None? || quote.value == "" ==> q == "No quote available"
    ensures quote.Some? && quote.value != "" ==> q == quote.value
  {
    OrElse(quote, "No quote available")
  }

  /** One entry of the downloaded report: the value and source on one line, the quote indented
      and in double quotes on the next. */
  function Entry(a: Answer): string {
    a.value + "  " + LeftArrow + "  " + a.source + PageSuffix(a.page) + "\n   \"" + QuoteText(a.quote) + "\""
  }

  function Entries(answers: seq<Answer>): (es: seq<string>)
    ensures |es| == |answers|
    ensures forall i :: 0 <= i < |answers| ==> es[i] == Entry(answers[i])
  {
    seq(|answers|, i requires 0 <= i < |answers| => Entry(answers[i]))
  }

  /** A legacy result's entries: no page suffix, and the context as the quote, unless it is
      empty. */
  lemma LegacyEntries(r: AnalysisResult)
    requires r.answers.None?
    ensures var es := Entries(Answers(r));
      forall i :: 0 <= i < |es| ==>
        var c := r.conflicts.value[i];
        es[i] == c.value + "  " + LeftArrow + "  " + c.source + "\n   \""
          + (if c.context == "" then "No quote available" else c.context) + "\""
  {
  }

  /** The report down to its answers, a blank line closing them. */
  function ReportHead(r: AnalysisResult, date: string): string {
    "CLASH ANALYSIS\n==============\nDate: " + date + "\n\nQ: " + r.question
      + "\n\nANSWERS FROM SOURCES\n--------------------\n" + Text.Join(Entries(Answers(r)), "\n\n") + "\n\n"
  }

  function ReportVerdict(conflict: bool): string {
    if conflict then Warning + " CONFLICT DETECTED" else Check + " VALUES CONSISTENT"
  }

  /** The report's last line, with a conflict. */
  function RecommendationLine(recommendation: string): string {
    RightArrow + " " + recommendation
  }

  /** The explanation and recommendation sections, printed only for a conflict. */
  function ReportReasons(r: AnalysisResult, conflict: bool): string {
    if conflict then WhyTitle + r.explanation + RecommendationTitle + RecommendationLine(r.recommendation)
    else ""
  }

  /** The report up to its verdict neither starts nor ends with whitespace. */
  lemma ReportFront(r: AnalysisResult, date: string, conflict: bool)
    ensures var hv := ReportHead(r, date) + ReportVerdict(conflict);
      hv != [] && !Text.IsSpace(hv[0]) && !Text.IsSpace(hv[|hv| - 1])
  {
    ReportHeadStart(r, date);
    var h := ReportHead(r, date);
    var v := ReportVerdict(conflict);
    assert v[|v| - 1] == (if conflict then 'D' else 'T');
    assert (h + v)[0] == h[0] && (h + v)[|h + v| - 1] == v[|v| - 1];
  }

  /** The downloaded report: the template, which opens and closes with a line break, trimmed.
      Since the report starts with its title, only trailing whitespace is lost, and the report
      always starts with the header, the answers and the verdict. */
  function DownloadText(r: AnalysisResult, date: string): (t: string)
    ensures var conflict := HasConflict(r);
      var front := ReportHead(r, date) + ReportVerdict(conflict);
      t == Text.TrimEnd(front + ("\n\n" + ReportReasons(r, conflict))) && front <= t
  {
    var conflict := HasConflict(r);
    var front := ReportHead(r, date) + ReportVerdict(conflict);
    var rest := "\n\n" + ReportReasons(r, conflict);
    ReportFront(r, date, conflict);
    Text.TrimFramedFront(front, rest);
    Text.Trim("\n" + front + rest + "\n")
  }

  /** Without a conflict the report ends with the verdict: neither the explanation nor the
      recommendation appears. */
  lemma DownloadConsistent(r: AnalysisResult, date: string)
    requires !HasConflict(r)
    ensures DownloadText(r, date) == ReportHead(r, date) + ReportVerdict(false)
  {
    var front := ReportHead(r, date) + ReportVerdict(false);
    ReportFront(r, date, false);
    BlankTrim(front);
  }

  lemma BlankTrim(front: string)
    requires front != [] && !Text.IsSpace(front[|front| - 1])
    ensures Text.TrimEnd(front + ("\n\n" + "")) == front
  {
    assert front + ("\n\n" + "") == front + "\n\n";
    Text.TrimEndPadded(front, "\n\n");
  }

  /** So the report of a consistent result does not depend on its explanation or
      recommendation. */
  lemma DownloadIgnoresReasons(r: AnalysisResult, date: string, explanation: string, recommendation: string)
    requires !HasConflict(r)
    ensures DownloadText(r, date) == DownloadText(r.(explanation := explanation, recommendation := recommendation), date)
  {
    DownloadConsistent(r, date);
    DownloadConsistent(r.(explanation := explanation, recommendation := recommendation), date);
  }

  lemma ReportHeadStart(r: AnalysisResult, date: string)
    ensures ReportHead(r, date) != [] && ReportHead(r, date)[0] == 'C'
  {
  }

  const WhyTitle: string := "WHY THEY DIFFER\n----------------\n"
  const RecommendationTitle: string := "\n\nRECOMMENDATION\n--------------\n"

  /** With a conflict, whatever the recommendation, the report is the header, the warning,
      the explanation section and the recommendation line, and only trailing whitespace of
      that last line is dropped; a recommendation that ends in a non-space character is
      printed whole. */
  lemma DownloadConflict(r: AnalysisResult, date: string)
    requires HasConflict(r)
    ensures DownloadText(r, date)
      == ReportHead(r, date) + ReportVerdict(true) + "\n\n" + WhyTitle + r.explanation + RecommendationTitle
         + Text.TrimEnd(RecommendationLine(r.recommendation))
    ensures r.recommendation != [] && !Text.IsSpace(r.recommendation[|r.recommendation| - 1]) ==>
      DownloadText(r, date)
      == ReportHead(r, date) + ReportVerdict(true) + "\n\n" + WhyTitle + r.explanation + RecommendationTitle
         + RecommendationLine(r.recommendation)
  {
    var front := ReportHead(r, date) + ReportVerdict(true);
    var line := RecommendationLine(r.recommendation);
    Regroup(front, "\n\n", WhyTitle, r.explanation, RecommendationTitle, line);
    Text.TrimEndAppend(front + "\n\n" + WhyTitle + r.explanation + RecommendationTitle, line);
    if r.recommendation != [] && !Text.IsSpace(r.recommendation[|r.recommendation| - 1]) {
      assert line[|line| - 1] == r.recommendation[|r.recommendation| - 1];
    }
  }

  lemma Regroup(a: string, b: string, c: string, d: string, e: string, f: string)
    ensures a + (b + (c + d + e + f)) == (a + b + c + d + e) + f
  {
  }

  /** So a conflict report always contains the explanation and ends with the recommendation
      line, trailing whitespace removed; a recommendation that ends in a non-space character
      ends the report. */
  lemma DownloadMentions(r: AnalysisResult, date: string)
    requires HasConflict(r)
    ensures Text.Contains(DownloadText(r, date), r.explanation)
    ensures Text.EndsWith(DownloadText(r, date), Text.TrimEnd(RecommendationLine(r.recommendation)))
    ensures r.recommendation != [] && !Text.IsSpace(r.recommendation[|r.recommendation| - 1]) ==>
      Text.EndsWith(DownloadText(r, date), r.recommendation)
  {
    DownloadConflict(r, date);
    var h := ReportHead(r, date) + ReportVerdict(true) + "\n\n" + WhyTitle;
    var line := RecommendationLine(r.recommendation);
    Mentions(h, r.explanation, RecommendationTitle, Text.TrimEnd(line));
    if r.recommendation != [] && !Text.IsSpace(r.recommendation[|r.recommendation| - 1]) {
      Text.EndsWithAppend(RightArrow + " ", r.recommendation);
      Text.EndsWithTrans(DownloadText(r, date), line, r.recommendation);
    }
  }

  lemma Mentions(h: string, e: string, t: string, l: string)
    ensures Text.Contains(h + e + t + l, e) && Text.EndsWith(h + e + t + l, l)
  {
    assert h + e + t + l == h + e + (t + l);
    Text.ContainsMiddle(h, e, t + l);
    Text.EndsWithAppend(h + e + t, l);
  }

  /** The download's file name: the date with every slash turned into a dash. */
  function DownloadFileName(date: string): (name: string)
    ensures |name| == |date| + 19
    ensures name[..15] == "clash-analysis-" && name[15 + |date|..] == ".txt"
    ensures '/' !in name[15..15 + |date|]
    ensures forall i :: 0 <= i < |date| ==> name[15 + i] == (if date[i] == '/' then '-' else date[i])
  {
    var name := "clash-analysis-" + Text.ReplaceChar(date, '/', '-') + ".txt";
    assert name[15..15 + |date|] == Text.ReplaceChar(date, '/', '-');
    name
  }

  /** What the view shows below the answers. */
  datatype Panels = Panels(conflictBanner: bool, explanationTitle: Option<string>, recommendation: bool)

  /** The conflict indicator follows the flag; the explanation panel needs a non-empty
      explanation and is titled by the flag; the recommendation panel needs both a conflict
      and a non-empty recommendation. */
  function ShownPanels(r: AnalysisResult): (p: Panels)
    ensures p.conflictBanner == HasConflict(r)
    ensures p.explanationTitle.Some? <==> r.explanation != ""
    ensures p.explanationTitle.Some? ==> (p.explanationTitle.value == "Why They Differ" <==> HasConflict(r))
    ensures p.recommendation <==> HasConflict(r) && r.recommendation != ""
  {
    var conflict := HasConflict(r);
    Panels(conflict,
      if r.explanation != "" then Some(if conflict then "Why They Differ" else "Analysis") else None,
      conflict && r.recommendation != "")
  }
}
