/** The upload step (components/UploadStep.tsx): filtering a batch of dropped or picked files
    by type, enforcing the count and size limits, appending the accepted files to the list,
    and removing one entry by id. The random ids the component draws are a parameter. */
module Upload {
  import opened Wrappers
  import opened Types
  import Text

  const MaxFiles: nat := 5
  const MaxFileSize: nat := 30 * 1024 * 1024
  const MaxTotalSize: nat := 50 * 1024 * 1024

  /** The four messages the step can show. */
  datatype UploadError =
    | UnsupportedType
    | TooManyDocuments
    | FileTooLarge(name: string)
    | TotalTooLarge(total: nat)

  /** What a call of `processFiles` leaves behind: the list handed to `onFilesChange` (None when
      it is not called) and the error message the component shows. `Crashed` is a call that
      throws part-way; the list is then not changed. */
  datatype Outcome =
    | Done(change: Option<seq<UploadedFile>>, error: Option<UploadError>)
    | Crashed(error: Option<UploadError>)

  /** The two accepted MIME types. */
  predicate Accepted(f: FileInfo) {
    f.mimeType == "application/pdf" || f.mimeType == "text/plain"
  }

  /** `newFiles.filter(...)` by type, order kept. */
  function ValidFiles(newFiles: seq<FileInfo>): (valid: seq<FileInfo>)
    ensures |valid| <= |newFiles|
    ensures forall f :: f in valid <==> f in newFiles && Accepted(f)
    ensures |valid| == |newFiles| <==> forall f :: f in newFiles ==> Accepted(f)
  {
    if newFiles == [] then []
    else if Accepted(newFiles[0]) then [newFiles[0]] + ValidFiles(newFiles[1..])
    else ValidFiles(newFiles[1..])
  }

  /** The filter works entry by entry: a batch's accepted files are those of its first part
      followed by those of its rest, so order and multiplicity are kept. */
  lemma {:induction false} ValidFilesAppend(a: seq<FileInfo>, b: seq<FileInfo>)
    ensures ValidFiles(a + b) == ValidFiles(a) + ValidFiles(b)
  {
    if a == [] {
      assert a + b == b;
    } else {
      assert (a + b)[1..] == a[1..] + b;
      ValidFilesAppend(a[1..], b);
    }
  }

  /** A single file is kept exactly when its type is accepted. */
  lemma ValidFilesOne(f: FileInfo)
    ensures ValidFiles([f]) == if Accepted(f) then [f] else []
  {
    assert [f][1..] == [];
  }

  /** The files whose size exceeds the per-file limit, order kept. */
  function Oversized(fs: seq<FileInfo>): (big: seq<FileInfo>)
    ensures forall f :: f in big <==> f in fs && f.size > MaxFileSize
  {
    if fs == [] then []
    else if fs[0].size > MaxFileSize then [fs[0]] + Oversized(fs[1..])
    else Oversized(fs[1..])
  }

  /** The file the message names is the first oversized one in the batch's order. */
  lemma {:induction false} OversizedFirst(fs: seq<FileInfo>, k: nat)
    requires k < |fs| && fs[k].size > MaxFileSize
    requires forall j :: 0 <= j < k ==> fs[j].size <= MaxFileSize
    ensures Oversized(fs) != [] && Oversized(fs)[0] == fs[k]
  {
    if k > 0 {
      OversizedFirst(fs[1..], k - 1);
    }
  }

  /** The sum of the sizes. */
  function SizeSum(fs: seq<FileInfo>): nat {
    if fs == [] then 0 else fs[0].size + SizeSum(fs[1..])
  }

  /** The `File` objects of a list of uploads. */
  function FilesOf(l: seq<UploadedFile>): (fs: seq<FileInfo>)
    ensures |fs| == |l| && forall i :: 0 <= i < |l| ==> fs[i] == l[i].file
  {
    seq(|l|, i requires 0 <= i < |l| => l[i].file)
  }

  /** The sizes of a list of uploads, as `reduce((sum, f) => sum + f.file.size, 0)` adds them. */
  function TotalSize(l: seq<UploadedFile>): nat {
    SizeSum(FilesOf(l))
  }

  lemma {:induction false} SizeSumAppend(a: seq<FileInfo>, b: seq<FileInfo>)
    ensures SizeSum(a + b) == SizeSum(a) + SizeSum(b)
  {
    if a != [] {
      assert (a + b)[0] == a[0] && (a + b)[1..] == a[1..] + b;
      SizeSumAppend(a[1..], b);
    } else {
      assert a + b == b;
    }
  }

  lemma FilesOfAppend(a: seq<UploadedFile>, b: seq<UploadedFile>)
    ensures FilesOf(a + b) == FilesOf(a) + FilesOf(b)
  {
  }

  /** The new entries: each accepted file with the id drawn for it and no content yet. */
  function Uploaded(valid: seq<FileInfo>, ids: nat -> string): (l: seq<UploadedFile>)
    ensures FilesOf(l) == valid
    ensures forall i :: 0 <= i < |l| ==> l[i] == UploadedFile(valid[i], ids(i), None)
  {
    seq(|valid|, i requires 0 <= i < |valid| => UploadedFile(valid[i], ids(i), None))
  }

  /** `(num / den).toFixed(1)` for a non-negative integer `num` and positive `den`: the tenths
      are rounded to nearest, a tie going up. */
  function Tenths(num: nat): (n: nat)
    ensures 20 * num < 2 * n * 1048576 + 1048576
    ensures 2 * n * 1048576 <= 20 * num + 1048576
  {
    (20 * num + 1048576) / 2097152
  }

  /** The number of mebibytes with one decimal, as the total-size message prints it. */
  function Megabytes(total: nat): string {
    var n := Tenths(total);
    Text.NatToString(n / 10) + "." + [Text.DigitChar(n % 10)]
  }

  /** The printed number reads back as the rounded tenths: decimal digits, a point, one more
      digit. */
  lemma MegabytesValue(total: nat)
    ensures var s := Megabytes(total);
      && |s| >= 3 && s[|s| - 2] == '.' && '0' <= s[|s| - 1] <= '9'
      && Text.IsDigits(s[..|s| - 2])
      && Text.DigitsValue(s[..|s| - 2]) * 10 + (s[|s| - 1] as int - '0' as int) == Tenths(total)
  {
    var n := Tenths(total);
    Text.NatToStringValue(n / 10);
    var s := Megabytes(total);
    assert s[..|s| - 2] == Text.NatToString(n / 10);
  }

  /** The text the step shows for an error. */
  function Message(e: UploadError): string {
    match e
    case UnsupportedType => "Only PDF and text files supported."
    case TooManyDocuments => "Maximum 5 documents."
    case FileTooLarge(name) => "File too large: " + name + ". Max 30MB per file."
    case TotalTooLarge(total) => "Total file size exceeds 50MB limit." + " Current: " + Megabytes(total) + "MB"
  }

  function Initial(e: UploadError): char {
    match e
    case UnsupportedType => 'O'
    case TooManyDocuments => 'M'
    case FileTooLarge(_) => 'F'
    case TotalTooLarge(_) => 'T'
  }

  lemma MessageInitial(e: UploadError)
    ensures Message(e) != [] && Message(e)[0] == Initial(e)
  {
    match e
    case UnsupportedType =>
    case TooManyDocuments =>
    case FileTooLarge(name) =>
      assert Message(e) == "File too large: " + (name + ". Max 30MB per file.");
    case TotalTooLarge(total) =>
      TotalInitial(total);
  }

  lemma TotalInitial(total: nat)
    ensures Message(TotalTooLarge(total))[0] == 'T'
  {
    var head := "Total file size exceeds 50MB limit.";
    assert Message(TotalTooLarge(total)) == head + (" Current: " + Megabytes(total) + "MB");
    assert head[0] == 'T';
  }

  /** Two totals print the same only when they round to the same tenth. */
  lemma SameMegabytes(t1: nat, t2: nat)
    requires Megabytes(t1) == Megabytes(t2)
    ensures Tenths(t1) == Tenths(t2)
  {
    MegabytesValue(t1);
    MegabytesValue(t2);
  }

  /** Each message names its error: two errors print the same text only when they are the
      same error, or two totals that round to the same tenth of a mebibyte. */
  lemma MessageIdentifies(e1: UploadError, e2: UploadError)
    requires Message(e1) == Message(e2)
    ensures e1 == e2 || (e1.TotalTooLarge? && e2.TotalTooLarge? && Tenths(e1.total) == Tenths(e2.total))
  {
    var m := Message(e1);
    if e1.FileTooLarge? && e2.FileTooLarge? {
      assert |e1.name| == |e2.name|;
      assert e1.name == m[16..16 + |e1.name|];
      assert e2.name == Message(e2)[16..16 + |e2.name|];
    } else if e1.TotalTooLarge? && e2.TotalTooLarge? {
      var p := "Total file size exceeds 50MB limit." + " Current: ";
      assert Megabytes(e1.total) == m[|p|..|m| - 2];
      assert Megabytes(e2.total) == Message(e2)[|p|..|m| - 2];
      SameMegabytes(e1.total, e2.total);
    } else {
      // The four kinds of message start with four different letters.
      MessageInitial(e1);
      MessageInitial(e2);
    }
  }

  /** The checks that refuse a batch, in the order `processFiles` makes them: the count,
      then the first accepted file over 30 MB, then the total. The sizes are read from the
      new `File` objects themselves. A batch is let through exactly when all three limits
      hold. */
  function Refusal(files: seq<UploadedFile>, valid: seq<FileInfo>): (r: Option<UploadError>)
    ensures r.None? <==>
      && |files| + |valid| <= MaxFiles
      && (forall f :: f in valid ==> f.size <= MaxFileSize)
      && TotalSize(files) + SizeSum(valid) <= MaxTotalSize
    ensures r.Some? && r.value.FileTooLarge? ==> exists f :: f in valid && f.size > MaxFileSize && f.name == r.value.name
  {
    if |files| + |valid| > MaxFiles then Some(TooManyDocuments)
    else
      var oversized := Oversized(valid);
      if oversized != [] then
        assert oversized[0] in oversized;
        Some(FileTooLarge(oversized[0].name))
      else
        var total := TotalSize(files) + SizeSum(valid);
        if total > MaxTotalSize then Some(TotalTooLarge(total)) else None
  }

  /** `processFiles`: the type message is set first and survives only when no check refuses
      the batch; an accepted batch is handed on after the existing files. */
  function ProcessFiles(files: seq<UploadedFile>, newFiles: seq<FileInfo>, ids: nat -> string): (r: Outcome)
    ensures r.Done?
    ensures r.change.Some? ==> files <= r.change.value && |r.change.value| == |files| + |ValidFiles(newFiles)|
    ensures r.change.Some? <==> Refusal(files, ValidFiles(newFiles)).None?
  {
    var valid := ValidFiles(newFiles);
    match Refusal(files, valid)
    case Some(e) => Done(None, Some(e))
    case None => Done(Some(files + Uploaded(valid, ids)), if |valid| != |newFiles| then Some(UnsupportedType) else None)
  }

  /** When a batch is accepted and what that leaves: the list changes exactly when the count,
      every accepted file's size and the total are within the limits; the accepted files are
      then appended after the existing ones, in order, and the only message that can remain is
      the unsupported-type one, shown exactly when some file of the batch was dropped. */
  lemma AcceptIff(files: seq<UploadedFile>, newFiles: seq<FileInfo>, ids: nat -> string)
    ensures var r := ProcessFiles(files, newFiles, ids);
      && r.Done?
      && (r.change.Some? <==>
            && |files| + |ValidFiles(newFiles)| <= MaxFiles
            && (forall f :: f in newFiles && Accepted(f) ==> f.size <= MaxFileSize)
            && TotalSize(files) + SizeSum(ValidFiles(newFiles)) <= MaxTotalSize)
      && (r.change.Some? ==> r.change.value == files + Uploaded(ValidFiles(newFiles), ids))
      && (r.change.Some? ==> (r.error == Some(UnsupportedType) <==> exists f :: f in newFiles && !Accepted(f)))
      && (r.change.Some? ==> r.error.None? || r.error == Some(UnsupportedType))
      && (r.change.None? ==> r.error == Refusal(files, ValidFiles(newFiles)))
      && (|files| + |ValidFiles(newFiles)| > MaxFiles ==> r == Done(None, Some(TooManyDocuments)))
  {
    var valid := ValidFiles(newFiles);
    var big := Oversized(valid);
    if big != [] {
      assert big[0] in big;
    }
  }

  /** A batch with an oversized accepted file is refused naming the first such file. */
  lemma RejectsOversized(files: seq<UploadedFile>, valid: seq<FileInfo>, k: nat)
    requires |files| + |valid| <= MaxFiles
    requires k < |valid| && valid[k].size > MaxFileSize
    requires forall j :: 0 <= j < k ==> valid[j].size <= MaxFileSize
    ensures Refusal(files, valid) == Some(FileTooLarge(valid[k].name))
  {
    OversizedFirst(valid, k);
  }

  /** A batch of files each within 30 MB but too large together is refused with the total. */
  lemma RejectsTotal(files: seq<UploadedFile>, valid: seq<FileInfo>)
    requires |files| + |valid| <= MaxFiles
    requires forall f :: f in valid ==> f.size <= MaxFileSize
    requires TotalSize(files) + SizeSum(valid) > MaxTotalSize
    ensures Refusal(files, valid) == Some(TotalTooLarge(TotalSize(files) + SizeSum(valid)))
  {
  }

  /** A file the step lets into the list: an accepted type and at most 30 MB. */
  predicate FileOk(f: FileInfo) {
    Accepted(f) && f.size <= MaxFileSize
  }

  /** The list the upload step can reach: at most five files, each of an accepted type and at
      most 30 MB, together at most 50 MB. */
  predicate WithinLimits(l: seq<UploadedFile>) {
    && |l| <= MaxFiles
    && (forall u :: u in l ==> FileOk(u.file))
    && TotalSize(l) <= MaxTotalSize
  }

  lemma TotalSizeAppend(a: seq<UploadedFile>, b: seq<UploadedFile>)
    ensures TotalSize(a + b) == TotalSize(a) + TotalSize(b)
  {
    FilesOfAppend(a, b);
    SizeSumAppend(FilesOf(a), FilesOf(b));
  }

  lemma UploadedMembers(valid: seq<FileInfo>, ids: nat -> string)
    ensures forall u :: u in Uploaded(valid, ids) ==> u.file in valid
  {
    var l := Uploaded(valid, ids);
    forall u | u in l
      ensures u.file in valid
    {
      var i :| 0 <= i < |l| && l[i] == u;
      assert u.file == valid[i];
    }
  }

  /** A batch accepted onto a list within the limits leaves a list within the limits. */
  lemma ProcessKeepsLimits(files: seq<UploadedFile>, newFiles: seq<FileInfo>, ids: nat -> string)
    requires WithinLimits(files)
    ensures var r := ProcessFiles(files, newFiles, ids);
      r.change.Some? ==> WithinLimits(r.change.value) && |r.change.value| == |files| + |ValidFiles(newFiles)|
  {
    var r := ProcessFiles(files, newFiles, ids);
    AcceptIff(files, newFiles, ids);
    if r.change.Some? {
      var valid := ValidFiles(newFiles);
      var up := Uploaded(valid, ids);
      TotalSizeAppend(files, up);
      UploadedMembers(valid, ids);
      assert forall u :: u in files + up ==> u in files || u in up;
    }
  }

  /** Removing an entry and adding nothing: every other entry stays, in order. */
  function RemoveFile(files: seq<UploadedFile>, id: string): (r: seq<UploadedFile>)
    ensures |r| <= |files|
    ensures forall f :: f in r <==> f in files && f.id != id
    ensures (forall f :: f in files ==> f.id != id) ==> r == files
  {
    if files == [] then []
    else if files[0].id == id then RemoveFile(files[1..], id)
    else [files[0]] + RemoveFile(files[1..], id)
  }

  /** `filter` works entry by entry: removing from a concatenation removes from each part,
      so the kept entries keep their order and their multiplicity. */
  lemma {:induction false} RemoveFileAppend(a: seq<UploadedFile>, b: seq<UploadedFile>, id: string)
    ensures RemoveFile(a + b, id) == RemoveFile(a, id) + RemoveFile(b, id)
  {
    if a == [] {
      assert a + b == b;
    } else {
      assert (a + b)[1..] == a[1..] + b;
      RemoveFileAppend(a[1..], b, id);
    }
  }

  /** A single entry is dropped exactly when it carries the id. */
  lemma RemoveFileOne(f: UploadedFile, id: string)
    ensures RemoveFile([f], id) == if f.id == id then [] else [f]
  {
    assert [f][1..] == [];
  }

  lemma {:induction false} RemoveTotal(files: seq<UploadedFile>, id: string)
    ensures TotalSize(RemoveFile(files, id)) <= TotalSize(files)
  {
    if files != [] {
      assert files == [files[0]] + files[1..];
      TotalSizeAppend([files[0]], files[1..]);
      RemoveTotal(files[1..], id);
      if files[0].id != id {
        TotalSizeAppend([files[0]], RemoveFile(files[1..], id));
      }
    }
  }

  /** Removal never leaves the limits. */
  lemma RemoveKeepsLimits(files: seq<UploadedFile>, id: string)
    requires WithinLimits(files)
    ensures WithinLimits(RemoveFile(files, id))
  {
    RemoveTotal(files, id);
  }

  /** Which of the step's controls are rendered. */
  datatype Controls = Controls(continueButton: bool, demoLink: bool, addAnother: bool)

  /** The list is drawn with an "Add another" tile below five files; under the tray,
      "Continue" from two files, otherwise the demo link, and that only on an empty list. */
  function ShownControls(files: seq<UploadedFile>): (c: Controls)
    ensures c.continueButton <==> |files| >= 2
    ensures c.demoLink <==> files == []
    ensures c.addAnother <==> 0 < |files| < MaxFiles
    ensures !(c.continueButton && c.demoLink)
  {
    var addAnother := if |files| == 0 then false else |files| < MaxFiles;
    if |files| >= 2 then Controls(true, false, addAnother)
    else Controls(false, |files| == 0, addAnother)
  }

  /** The demo documents the "Try with example data" link loads. */
  const DemoText1: string := "The global AI market size was valued at $196.63 billion in 2023. Source: Grand View Research."
  const DemoText2: string := "The global artificial intelligence market size is projected to reach $305.90 billion in 2024. However, in 2023 it was approximately $150.2 billion. Source: Fortune Business Insights."

  function DemoFiles(): (fs: seq<FileInfo>)
    ensures |fs| == 2 && forall f :: f in fs ==> Accepted(f)
  {
    [FileInfo("GrandView_AI_Report_2023.txt", "text/plain", |DemoText1|),
     FileInfo("Fortune_AI_Market_2024.txt", "text/plain", |DemoText2|)]
  }

  /** Loading the demo on the empty list, which is the only list the link is shown for,
      leaves exactly the two demo files and enables "Continue". */
  lemma DemoLoads(ids: nat -> string)
    ensures var r := ProcessFiles([], DemoFiles(), ids);
      && r == Done(Some(Uploaded(DemoFiles(), ids)), None)
      && ShownControls(r.change.value).continueButton
  {
    DemoAllAccepted();
    DemoNotRefused();
    assert [] + Uploaded(DemoFiles(), ids) == Uploaded(DemoFiles(), ids);
  }

  lemma DemoAllAccepted()
    ensures ValidFiles(DemoFiles()) == DemoFiles()
  {
    var fs := DemoFiles();
    assert fs[1..][1..] == [];
  }

  lemma DemoNotRefused()
    ensures Refusal([], DemoFiles()) == None
  {
    var fs := DemoFiles();
    assert fs[1..][1..] == [];
    assert Oversized(fs) == [];
    assert FilesOf([]) == [];
    assert SizeSum(fs) == |DemoText1| + |DemoText2|;
  }

  /** `processFiles` as it is written: the total (line 38) and the oversized filter (line 41)
      read `f.file.size` on the new entries too, but those are plain `File` objects with no
      `file` property, so the sum throws a TypeError as soon as one accepted file reaches it. */
  function ProcessFilesAsWritten(files: seq<UploadedFile>, newFiles: seq<FileInfo>, ids: nat -> string): (r: Outcome)
    ensures r.Done? && r.change.Some? ==> r.change.value == files
    ensures r.Crashed? <==> |files| + |ValidFiles(newFiles)| <= MaxFiles && ValidFiles(newFiles) != []
  {
    var valid := ValidFiles(newFiles);
    var typeError := if |valid| != |newFiles| then Some(UnsupportedType) else None;
    if |files| + |valid| > MaxFiles then Done(None, Some(TooManyDocuments))
    else if valid != [] then Crashed(typeError)
    else
      var total := TotalSize(files);
      if total > MaxTotalSize then Done(None, Some(TotalTooLarge(total)))
      else Done(Some(files), typeError)
  }

  /** As written, no call ever lengthens the list: the demo, loaded on the empty list, throws
      instead of adding its two files. */
  lemma AsWrittenNeverUploads(files: seq<UploadedFile>, newFiles: seq<FileInfo>, ids: nat -> string)
    ensures var r := ProcessFilesAsWritten(files, newFiles, ids);
      r.Crashed? || r.change.None? || r.change.value == files
    ensures ProcessFilesAsWritten([], DemoFiles(), ids).Crashed?
    ensures ProcessFiles([], DemoFiles(), ids).change == Some(Uploaded(DemoFiles(), ids))
  {
    DemoLoads(ids);
    AcceptIff([], DemoFiles(), ids);
  }
}
