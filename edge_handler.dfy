/** The edge function that answers `POST /api/analyze` (functions/api/analyze.ts,
    `onRequestPost`). It checks its configuration and the multipart form, base64-encodes
    every `file_*` entry through a chunked binary string, sends the files and a prompt to the
    language model, strips code fences from the reply, parses it with a fallback, and shapes
    the JSON response. The model's reply and the JSON parser are parameters. */
module EdgeHandler {
  import opened Wrappers
  import opened Types
  import Text
  import Base64

  type byte = Base64.byte

  /** Bytes per binary-string chunk. */
  const ChunkSize: nat := 1024

  function Min(a: int, b: int): int {
    if a < b then a else b
  }

  lemma BinaryStringAppend(a: seq<byte>, b: seq<byte>)
    ensures Base64.BinaryString(a + b) == Base64.BinaryString(a) + Base64.BinaryString(b)
  {
  }

  /** Chunk k of the binary string of `b`: bytes k*1024 up to min((k+1)*1024, n). */
  function Chunk(b: seq<byte>, k: nat): (c: string)
    requires k * 1024 < |b|
    ensures 1 <= |c| <= 1024
    ensures (k + 1) * 1024 <= |b| ==> |c| == 1024
  {
    Base64.BinaryString(b[k * 1024..Min(k * 1024 + 1024, |b|)])
  }

  /** The inner loop: one chunk, one `String.fromCharCode` at a time. */
  method ChunkString(bytes: array<byte>, i: nat, end: nat) returns (chunkStr: string)
    requires i <= end <= bytes.Length
    ensures chunkStr == Base64.BinaryString(bytes[i..end])
  {
    chunkStr := "";
    var j := i;
    while j < end
      invariant i <= j <= end
      invariant chunkStr == Base64.BinaryString(bytes[i..j])
    {
      assert bytes[i..j + 1] == bytes[i..j] + [bytes[j]];
      BinaryStringAppend(bytes[i..j], [bytes[j]]);
      chunkStr := chunkStr + [bytes[j] as char];
      j := j + 1;
    }
  }

  /** The binary string of `bytes`, built as the source builds it: chunks of at most
      `ChunkSize` characters collected in a list. There are ceil(n/1024) chunks, chunk k is
      `Chunk(bytes, k)` (so all but the last are full and the last holds 1..1024
      characters), and their join is the binary string of the whole buffer. */
  method BinaryChunks(bytes: array<byte>) returns (chunks: seq<string>)
    ensures |chunks| == (bytes.Length + 1023) / 1024
    ensures forall k :: 0 <= k < |chunks| ==> k * 1024 < bytes.Length && chunks[k] == Chunk(bytes[..], k)
    ensures Text.Join(chunks, "") == Base64.BinaryString(bytes[..])
  {
    var n := bytes.Length;
    ghost var b := bytes[..];
    chunks := [];
    var i := 0;
    while i < n
      invariant i == |chunks| * 1024
      invariant chunks != [] ==> i - 1024 < n
      invariant forall k :: 0 <= k < |chunks| ==> k * 1024 < n && chunks[k] == Chunk(b, k)
      invariant Text.Join(chunks, "") == Base64.BinaryString(b[..Min(i, n)])
    {
      var end := Min(i + 1024, n);
      var chunkStr := ChunkString(bytes, i, end);
      assert bytes[i..end] == b[i..end];
      assert chunkStr == Chunk(b, |chunks|);
      JoinStep(b, chunks, i, end);
      chunks := chunks + [chunkStr];
      i := i + 1024;
    }
    assert b[..Min(i, n)] == b;
    ChunkCount(|chunks|, n);
  }

  /** Appending the binary string of the next slice extends the joined prefix. */
  lemma JoinStep(b: seq<byte>, chunks: seq<string>, i: nat, end: nat)
    requires i <= end <= |b|
    requires Text.Join(chunks, "") == Base64.BinaryString(b[..i])
    ensures Text.Join(chunks + [Base64.BinaryString(b[i..end])], "") == Base64.BinaryString(b[..end])
  {
    Text.JoinSnoc(chunks, Base64.BinaryString(b[i..end]), "");
    assert b[..end] == b[..i] + b[i..end];
    BinaryStringAppend(b[..i], b[i..end]);
  }

  /** c chunks of 1024 cover n bytes with the last one non-empty exactly when c is
      ceil(n/1024). */
  lemma ChunkCount(c: nat, n: nat)
    requires c * 1024 >= n && (c > 0 ==> (c - 1) * 1024 < n)
    ensures c == (n + 1023) / 1024
  {
  }

  /** The chunk sizes: all chunks but the last hold exactly 1024 characters, the last
      1..1024, and an empty buffer gives no chunk at all. */
  lemma ChunkSizes(b: seq<byte>, chunks: seq<string>)
    requires |chunks| == (|b| + 1023) / 1024
    requires forall k :: 0 <= k < |chunks| ==> k * 1024 < |b| && chunks[k] == Chunk(b, k)
    ensures forall k :: 0 <= k < |chunks| - 1 ==> |chunks[k]| == 1024
    ensures |chunks| > 0 ==> 1 <= |chunks[|chunks| - 1]| <= 1024
    ensures |b| == 0 <==> chunks == []
  {
    forall k | 0 <= k < |chunks| - 1 ensures |chunks[k]| == 1024 {
      assert (k + 1) * 1024 <= (|chunks| - 1) * 1024;
    }
  }

  /** Reads the buffer into a fresh byte array, builds the chunked binary string, joins it
      and hands it to `btoa`: the result is the base64 of the file, which never throws and
      decodes back to the file's bytes. */
  method EncodeFile(bytes: seq<byte>) returns (data: string)
    ensures data == Base64.Encode(bytes)
    ensures Base64.Decode(data) == Some(bytes)
  {
    var buffer := new byte[|bytes|](i requires 0 <= i < |bytes| => bytes[i]);
    assert buffer[..] == bytes;
    var chunks := BinaryChunks(buffer);
    var binary := Text.Join(chunks, "");
    Base64.BtoaBinaryString(bytes);
    data := Base64.Btoa(binary).value;
    Base64.DecodeEncode(bytes);
  }

  /** An uploaded part of the multipart form. */
  datatype FormFile = FormFile(name: string, mimeType: string, bytes: seq<byte>)

  datatype FormValue = TextValue(text: string) | FileValue(file: FormFile)

  datatype FormEntry = FormEntry(key: string, value: FormValue)

  /** A document part of the model request: `inline_data`. */
  datatype InlinePart = InlinePart(mimeType: string, data: string)

  /** The request sent to the model: the document parts, then the prompt. */
  datatype ModelRequest = ModelRequest(parts: seq<InlinePart>, prompt: string)

  /** The model's answer: whether the HTTP status was a success, the status, the body text
      read on failure, and the reply text found in the JSON on success. */
  datatype Upstream = Upstream(ok: bool, status: int, errorText: string, replyText: Option<string>)

  /** The entries the handler encodes: a key starting with "file_" and a file value. */
  predicate IsFileEntry(e: FormEntry) {
    "file_" <= e.key && e.value.FileValue?
  }

  /** Positions of the file entries, in form order: exactly the file entries, each once,
      increasing. */
  function FileIndices(entries: seq<FormEntry>): (idx: seq<nat>)
    ensures forall k :: 0 <= k < |idx| ==> idx[k] < |entries| && IsFileEntry(entries[idx[k]])
    ensures forall i :: 0 <= i < |entries| && IsFileEntry(entries[i]) ==> i in idx
    ensures forall k, l :: 0 <= k < l < |idx| ==> idx[k] < idx[l]
  {
    if entries == [] then []
    else
      var m := |entries| - 1;
      var front := FileIndices(entries[..m]);
      if IsFileEntry(entries[m]) then front + [m] else front
  }

  /** The files the handler encodes, in form order. */
  function SelectedFiles(entries: seq<FormEntry>): seq<FormFile>
  {
    var idx := FileIndices(entries);
    seq(|idx|, k requires 0 <= k < |idx| => entries[idx[k]].value.file)
  }

  /** `value.type || "application/pdf"`. */
  function MimeTypeOf(f: FormFile): string {
    if f.mimeType == "" then "application/pdf" else f.mimeType
  }

  function PartOf(f: FormFile): InlinePart {
    InlinePart(MimeTypeOf(f), Base64.Encode(f.bytes))
  }

  /** The loop over the form entries: one part and one name per selected file, pushed
      together, so the two lists stay parallel and in form order. */
  method CollectFiles(entries: seq<FormEntry>) returns (fileParts: seq<InlinePart>, fileNames: seq<string>)
    ensures var files := SelectedFiles(entries);
      && |fileParts| == |files| && |fileNames| == |files|
      && (forall k :: 0 <= k < |files| ==> fileParts[k] == PartOf(files[k]) && fileNames[k] == files[k].name)
  {
    fileParts, fileNames := [], [];
    for n := 0 to |entries|
      invariant var files := SelectedFiles(entries[..n]);
        && |fileParts| == |files| && |fileNames| == |files|
        && (forall k :: 0 <= k < |files| ==> fileParts[k] == PartOf(files[k]) && fileNames[k] == files[k].name)
    {
      assert entries[..n + 1][..n] == entries[..n];
      var e := entries[n];
      if "file_" <= e.key && e.value.FileValue? {
        var data := EncodeFile(e.value.file.bytes);
        fileParts := fileParts + [InlinePart(MimeTypeOf(e.value.file), data)];
        fileNames := fileNames + [e.value.file.name];
      }
    }
    assert entries[..|entries|] == entries;
  }

  /** `formData.get(key)`: the value of the first entry with that key. */
  function FormGet(entries: seq<FormEntry>, key: string): (v: Option<FormValue>)
    ensures v.None? <==> forall i :: 0 <= i < |entries| ==> entries[i].key != key
    ensures v.Some? ==> exists i :: 0 <= i < |entries| && entries[i].key == key && v.value == entries[i].value
                                    && forall j :: 0 <= j < i ==> entries[j].key != key
  {
    if entries == [] then None
    else if entries[0].key == key then Some(entries[0].value)
    else FormGet(entries[1..], key)
  }

  /** The question as the handler uses it; the empty string stands for a missing field, which
      the guard treats alike. A file in the question field renders as "[object File]". */
  function QuestionOf(entries: seq<FormEntry>): (q: string)
    ensures q == "" <==> FormGet(entries, "question") in {None, Some(TextValue(""))}
    ensures FormGet(entries, "question").Some? && FormGet(entries, "question").value.TextValue? ==>
      q == FormGet(entries, "question").value.text
  {
    match FormGet(entries, "question")
    case None => ""
    case Some(TextValue(t)) => t
    case Some(FileValue(_)) => "[object File]"
  }

  const PromptIntro: string := "You are a senior investment analyst comparing multiple documents.\n\nQUESTION: \""
  const PromptDocuments: string := "\"\n\nDOCUMENTS: "
  const PromptTask: string :=
    "\n\nTASK:\n"
    + "1. EXTRACT: Find all specific data points related to the question from EACH document\n"
    + "2. NORMALIZE: Convert all values to standard units (billions USD, percentages)\n"
    + "3. COMPARE: Identify conflicts where values differ by >10% or statements contradict\n"
    + "4. EXPLAIN: Why do conflicts exist? (methodology, timeframe, scope, definitions)\n"
    + "5. RECOMMEND: Which source is most reliable and why\n\n"
    + "RESPOND WITH PURE JSON (no markdown, no code blocks):\n"
    + "{\n  \"conflicts\": [\n    {\n"
    + "      \"value\": \"The specific number or fact (e.g., '$196.63 billion')\",\n"
    + "      \"source\": \"Document name\",\n"
    + "      \"context\": \"Exact quote with page if available\",\n"
    + "      \"confidence\": \"High, Medium, or Low\"\n"
    + "    }\n  ],\n"
    + "  \"explanation\": \"Clear explanation of WHY the values differ\",\n"
    + "  \"recommendation\": \"Which value to trust and why\"\n}\n\n"
    + "If no conflicts found, still list all extracted values in conflicts array.\n"
    + "Be specific with numbers. Cite sources."

  /** The prompt: the question, then the document names joined by ", ", then the fixed task. */
  function Prompt(question: string, names: seq<string>): string {
    PromptIntro + question + PromptDocuments + Text.Join(names, ", ") + PromptTask
  }

  /** The prompt opens with the instructions and the question, lists the file names
      separated by ", " and closes with the task and its output format. */
  lemma PromptParts(question: string, names: seq<string>)
    ensures PromptIntro + question <= Prompt(question, names)
    ensures Text.Contains(Prompt(question, names), Text.Join(names, ", "))
    ensures Text.EndsWith(Prompt(question, names), PromptTask)
  {
    Text.Pieces(PromptIntro, question, PromptDocuments, Text.Join(names, ", "), PromptTask);
  }

  /** Three backticks at position i. */
  predicate FenceAt(s: string, i: int)
    requires 0 <= i && i + 3 <= |s|
  {
    s[i] == '`' && s[i + 1] == '`' && s[i + 2] == '`'
  }

  predicate NoFence(s: string) {
    forall i :: 0 <= i && i + 3 <= |s| ==> !FenceAt(s, i)
  }

  /** A match of the pattern ```json\s* (case-insensitive) starts here: three backticks, then
      "json" in any ASCII letter case. */
  predicate JsonFenceAt(s: string) {
    && |s| >= 7 && FenceAt(s, 0)
    && Text.LowerChar(s[3]) == 'j' && Text.LowerChar(s[4]) == 's'
    && Text.LowerChar(s[5]) == 'o' && Text.LowerChar(s[6]) == 'n'
  }

  /** The first replacement (pattern ```json\s*, flags g and i, replaced by nothing): a
      left-to-right scan deleting each match, the greedy whitespace run included. */
  function RemoveJsonFences(s: string): (r: string)
    ensures |r| <= |s|
    decreases |s|
  {
    if s == [] then []
    else if JsonFenceAt(s) then RemoveJsonFences(Text.TrimStart(s[7..]))
    else [s[0]] + RemoveJsonFences(s[1..])
  }

  /** The second replacement (pattern ```\s*, flag g). */
  function RemoveFences(s: string): (r: string)
    ensures |r| <= |s|
    decreases |s|
  {
    if s == [] then []
    else if |s| >= 3 && FenceAt(s, 0) then RemoveFences(Text.TrimStart(s[3..]))
    else [s[0]] + RemoveFences(s[1..])
  }

  /** The reply text with its code fences stripped and then trimmed. */
  function CleanReply(text: string): (r: string)
    ensures |r| <= |text|
  {
    Text.Trim(RemoveFences(RemoveJsonFences(text)))
  }

  /** A cleaned reply neither starts nor ends with whitespace. */
  lemma CleanReplyTrimmed(text: string)
    ensures var r := CleanReply(text); r == [] || (!Text.IsSpace(r[0]) && !Text.IsSpace(r[|r| - 1]))
  {
    var m := RemoveFences(RemoveJsonFences(text));
    assert CleanReply(text) == Text.Trim(m);
  }

  /** When the text does not start with a fence, its first character survives. */
  lemma RemoveFencesHead(s: string)
    requires s != [] && !(|s| >= 3 && FenceAt(s, 0))
    ensures RemoveFences(s) != [] && RemoveFences(s)[0] == s[0]
  {
  }

  /** One pass of the second replacement leaves no three backticks in a row: what it
      keeps of a run of backticks is shorter than three and is never joined to another run. */
  lemma {:induction false} RemoveFencesNoFence(s: string)
    ensures NoFence(RemoveFences(s))
    decreases |s|
  {
    if s == [] {
    } else if |s| >= 3 && FenceAt(s, 0) {
      RemoveFencesNoFence(Text.TrimStart(s[3..]));
    } else {
      var t := s[1..];
      RemoveFencesNoFence(t);
      if s[0] == '`' && |t| > 0 {
        RemoveFencesNoDoubleTick(t);
      }
      NoFenceCons(s[0], RemoveFences(t));
    }
  }

  /** After a backtick that does not open a fence, what is kept of the rest does not start
      with two more backticks. */
  lemma RemoveFencesNoDoubleTick(t: string)
    requires t != [] && !(|t| >= 2 && t[0] == '`' && t[1] == '`')
    ensures |RemoveFences(t)| >= 2 ==> !(RemoveFences(t)[0] == '`' && RemoveFences(t)[1] == '`')
  {
    RemoveFencesHead(t);
    if t[0] == '`' && |t| >= 2 {
      assert RemoveFences(t) == [t[0]] + RemoveFences(t[1..]);
      RemoveFencesHead(t[1..]);
    }
  }

  /** Putting one character in front of a fence-free text makes no fence unless that
      character and the next two are backticks. */
  lemma NoFenceCons(c: char, x: string)
    requires NoFence(x)
    requires |x| >= 2 ==> !(c == '`' && x[0] == '`' && x[1] == '`')
    ensures NoFence([c] + x)
  {
    var r := [c] + x;
    forall i | 0 <= i && i + 3 <= |r| ensures !FenceAt(r, i) {
      if i > 0 {
        assert FenceAt(r, i) == FenceAt(x, i - 1);
      }
    }
  }

  /** A cleaned reply holds no code-fence marker at all. */
  lemma CleanReplyNoFence(text: string)
    ensures NoFence(CleanReply(text))
  {
    var a := RemoveFences(RemoveJsonFences(text));
    RemoveFencesNoFence(RemoveJsonFences(text));
    var t := Text.TrimStart(a);
    NoFenceSuffix(a, |a| - |t|);
    NoFencePrefix(t, |Text.TrimEnd(t)|);
  }

  lemma NoFenceSuffix(s: string, k: nat)
    requires k <= |s| && NoFence(s)
    ensures NoFence(s[k..])
  {
    var t := s[k..];
    forall i | 0 <= i && i + 3 <= |t| ensures !FenceAt(t, i) {
      assert FenceAt(t, i) == FenceAt(s, i + k);
    }
  }

  lemma NoFencePrefix(s: string, k: nat)
    requires k <= |s| && NoFence(s)
    ensures NoFence(s[..k])
  {
    var t := s[..k];
    forall i | 0 <= i && i + 3 <= |t| ensures !FenceAt(t, i) {
      assert FenceAt(t, i) == FenceAt(s, i);
    }
  }

  /** Text without backticks passes through the fence removal unchanged. */
  lemma {:induction false} RemoveJsonFencesPlain(u: string, v: string)
    requires '`' !in u
    ensures RemoveJsonFences(u + v) == u + RemoveJsonFences(v)
  {
    if u != [] {
      assert (u + v)[1..] == u[1..] + v;
      RemoveJsonFencesPlain(u[1..], v);
    } else {
      assert u + v == v;
    }
  }

  lemma {:induction false} RemoveFencesPlain(u: string, v: string)
    requires '`' !in u
    ensures RemoveFences(u + v) == u + RemoveFences(v)
  {
    if u != [] {
      var w := u + v;
      assert w[0] == u[0] && u[0] != '`';
      assert w[1..] == u[1..] + v;
      assert RemoveFences(w) == [u[0]] + RemoveFences(u[1..] + v);
      RemoveFencesPlain(u[1..], v);
      assert u == [u[0]] + u[1..];
    } else {
      assert u + v == v;
    }
  }

  /** A newline before a non-space character is the whole whitespace run. */
  lemma TrimNewline(x: string)
    requires x != [] && !Text.IsSpace(x[0])
    ensures Text.TrimStart("\n" + x) == x
  {
    assert ("\n" + x)[1..] == x;
  }

  /** An opening "```json" is deleted together with the whitespace after it. */
  lemma JsonOpening(x: string)
    ensures RemoveJsonFences("```json" + x) == RemoveJsonFences(Text.TrimStart(x))
  {
    var s := "```json" + x;
    assert JsonFenceAt(s);
    assert s[7..] == x;
  }

  /** A bare closing fence is not a match of the first pattern. */
  lemma JsonFencesKeepClosing()
    ensures RemoveJsonFences("```") == "```"
  {
    assert "```"[1..] == "``" && "``"[1..] == "`" && "`"[1..] == [];
  }

  /** The first replacement removes the opening "```json" and the newline after it. */
  lemma OpeningFenceRemoved(body: string)
    requires '`' !in body
    requires body != [] && !Text.IsSpace(body[0])
    ensures RemoveJsonFences("```json\n" + body + "\n```") == body + "\n```"
  {
    var x := body + "\n```";
    calc {
      RemoveJsonFences("```json\n" + body + "\n```");
      { assert "```json\n" + body + "\n```" == "```json" + ("\n" + x); }
      RemoveJsonFences("```json" + ("\n" + x));
      { JsonOpening("\n" + x); }
      RemoveJsonFences(Text.TrimStart("\n" + x));
      { TrimNewline(x); }
      RemoveJsonFences(x);
      { assert x == (body + "\n") + "```"; RemoveJsonFencesPlain(body + "\n", "```"); }
      (body + "\n") + RemoveJsonFences("```");
      { JsonFencesKeepClosing(); }
      (body + "\n") + "```";
      body + "\n```";
    }
  }

  /** The second replacement removes the closing fence. */
  lemma ClosingFenceRemoved(body: string)
    requires '`' !in body
    ensures RemoveFences(body + "\n```") == body + "\n"
  {
    assert body + "\n```" == (body + "\n") + "```";
    RemoveFencesPlain(body + "\n", "```");
    assert RemoveFences("```") == RemoveFences(Text.TrimStart(""));
    assert (body + "\n") + "" == body + "\n";
  }

  /** The reply the prompt guards against: a JSON body wrapped in a "```json" fence. The
      cleaned text is exactly the body. */
  lemma FencedReply(body: string)
    requires '`' !in body
    requires body != [] && !Text.IsSpace(body[0]) && !Text.IsSpace(body[|body| - 1])
    ensures CleanReply("```json\n" + body + "\n```") == body
  {
    OpeningFenceRemoved(body);
    ClosingFenceRemoved(body);
    var t := body + "\n";
    assert Text.TrimStart(t) == t;
    assert t[..|t| - 1] == body;
    assert Text.TrimEnd(t) == Text.TrimEnd(body);
  }

  const CouldNotParse: string := "Could not parse structured response"

  /** `JSON.parse(text)`, and on failure the fallback record: no conflicts, the text as the
      explanation and a fixed recommendation. */
  function ParseOrFallback(text: string, parse: string -> Option<Reply>): (r: Reply)
    ensures parse(text).None? ==>
      r.conflicts == Some([]) && r.explanation == Some(text) && r.recommendation == Some(CouldNotParse)
    ensures parse(text).Some? ==> r == parse(text).value
  {
    match parse(text)
    case Some(reply) => reply
    case None => Reply(Some([]), Some(text), Some(CouldNotParse))
  }

  /** What follows the model call: a failed call gives 502 with at most 500 characters of
      the upstream body, a successful one 200 with the question echoed and every missing
      field defaulted (no conflicts, empty explanation and recommendation). */
  function UpstreamResponse(question: string, upstream: Upstream, parse: string -> Option<Reply>, now: int)
    : (r: Response)
    ensures !upstream.ok ==> (
      && r.status == 502 && r.body.UpstreamError?
      && r.body.upstreamStatus == upstream.status
      && |r.body.details| <= 500 && r.body.details <= upstream.errorText
      && (|upstream.errorText| <= 500 ==> r.body.details == upstream.errorText))
    ensures upstream.ok ==> (
      && r.status == 200 && r.body.AnalysisBody?
      && r.body.question == question && r.body.timestamp == now)
    // The body carries the parsed record (or the fallback), each missing field defaulted.
    ensures upstream.ok ==>
      var p := ParseOrFallback(CleanReply(upstream.replyText.GetOr("")), parse);
      && r.body.conflicts == p.conflicts.GetOr([])
      && r.body.explanation == OrElse(p.explanation, "")
      && r.body.recommendation == OrElse(p.recommendation, "")
  {
    if !upstream.ok then
      Response(502, UpstreamError("Gemini API error", upstream.status,
        upstream.errorText[..Min(500, |upstream.errorText|)]))
    else
      var text := CleanReply(upstream.replyText.GetOr(""));
      var parsed := ParseOrFallback(text, parse);
      Response(200, AnalysisBody(question, parsed.conflicts.GetOr([]),
        OrElse(parsed.explanation, ""), OrElse(parsed.recommendation, ""), now))
  }

  /** A reply the parser rejects still gives a 200 body: no conflicts, the cleaned reply as the
      explanation, and the "could not parse" recommendation. */
  lemma UnparsableReply(question: string, upstream: Upstream, parse: string -> Option<Reply>, now: int)
    requires upstream.ok
    requires parse(CleanReply(upstream.replyText.GetOr(""))).None?
    ensures UpstreamResponse(question, upstream, parse, now)
      == Response(200, AnalysisBody(question, [], CleanReply(upstream.replyText.GetOr("")), CouldNotParse, now))
  {
    var text := CleanReply(upstream.replyText.GetOr(""));
    var parsed := ParseOrFallback(text, parse);
    assert parsed == Reply(Some([]), Some(text), Some(CouldNotParse));
    assert OrElse(parsed.explanation, "") == text;
  }

  /** The handler. The guards run in order (API key, question, at least one file); on each of
      those paths no request reaches the model. Otherwise the model receives one part per
      selected file in form order, then the prompt naming those files in that order. */
  method OnRequestPost(apiKey: string, entries: seq<FormEntry>, upstream: Upstream,
                       parse: string -> Option<Reply>, now: int)
    returns (response: Response, sent: Option<ModelRequest>)
    ensures apiKey == "" ==>
      response == Response(500, ErrorBody("API key not configured"))
    ensures apiKey != "" && QuestionOf(entries) == "" ==>
      response == Response(400, ErrorBody("Missing question"))
    ensures apiKey != "" && QuestionOf(entries) != "" && SelectedFiles(entries) == [] ==>
      response == Response(400, ErrorBody("No files uploaded"))
    ensures sent.None? <==> apiKey == "" || QuestionOf(entries) == "" || SelectedFiles(entries) == []
    ensures sent.Some? ==>
      var files := SelectedFiles(entries);
      && |sent.value.parts| == |files|
      && (forall k :: 0 <= k < |files| ==> sent.value.parts[k] == PartOf(files[k]))
      && sent.value.prompt == Prompt(QuestionOf(entries), seq(|files|, k requires 0 <= k < |files| => files[k].name))
      && response == UpstreamResponse(QuestionOf(entries), upstream, parse, now)
  {
    if apiKey == "" {
      return Response(500, ErrorBody("API key not configured")), None;
    }
    var question := QuestionOf(entries);
    if question == "" {
      return Response(400, ErrorBody("Missing question")), None;
    }
    var fileParts, fileNames := CollectFiles(entries);
    if |fileParts| == 0 {
      return Response(400, ErrorBody("No files uploaded")), None;
    }
    var files := SelectedFiles(entries);
    assert fileNames == seq(|files|, k requires 0 <= k < |files| => files[k].name);
    sent := Some(ModelRequest(fileParts, Prompt(question, fileNames)));
    response := UpstreamResponse(question, upstream, parse, now);
  }
}
