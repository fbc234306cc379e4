/** The home page's logic: upload validation, the training-history records
    built from the store, and the rule deciding which uploaded files are sent
    to the knowledge base. Page rendering is not modelled. */
module App {

  import opened Wrappers
  import Seqs
  import Text
  import Sorting
  import Database
  import KnowledgeService

  // ------------------------------------------------------------------
  // Upload validation
  // ------------------------------------------------------------------

  /** 5 MiB, the largest accepted upload. */
  const MaxSize: nat := 5 * 1024 * 1024

  /** Why an upload is refused; the size message's megabyte figure is a float
      and is not modelled. */
  datatype Validation = Accepted | TooLarge(size: nat) | UnsupportedType(ext: string)

  /** `validate_uploaded_file`: the size check comes first, then the type. */
  function ValidateUploadedFile(name: string, size: nat): (r: Validation)
    ensures r.TooLarge? <==> size > MaxSize
    ensures r.TooLarge? ==> r.size == size
    ensures r.UnsupportedType? <==> size <= MaxSize && Text.Extension(name) != "txt" && Text.Extension(name) != "docx"
    ensures r.UnsupportedType? ==> r.ext == Text.Extension(name)
    ensures r.Accepted? <==> size <= MaxSize && (Text.Extension(name) == "txt" || Text.Extension(name) == "docx")
  {
    if size > MaxSize then TooLarge(size)
    else
      var ext := Text.Extension(name);
      if ext != "txt" && ext != "docx" then UnsupportedType(ext) else Accepted
  }

  /** The message shown for an unsupported type. */
  function UnsupportedMessage(ext: string): string
  {
    "仅支持 txt 和 docx 格式（当前：." + ext + "）"
  }

  /** A file within the size limit is accepted exactly when the text after its
      last dot is "txt" or "docx" in any letter case. */
  lemma AcceptedIffExtension(stem: string, ext: string, size: nat)
    requires '.' !in ext
    ensures ValidateUploadedFile(stem + "." + ext, size).Accepted?
            <==> size <= MaxSize && (Text.Lower(ext) == "txt" || Text.Lower(ext) == "docx")
  {
    Text.ExtensionAfterDot(stem, ext);
  }

  /** A 3 MiB text file is accepted. */
  lemma SmallTextAccepted()
    ensures ValidateUploadedFile("notes.txt", 3 * 1024 * 1024) == Accepted
  {
    assert "notes.txt" == "notes" + "." + "txt";
    Text.ExtensionAfterDot("notes", "txt");
    Text.LowerKeepsLowercase("txt");
  }

  /** A file of exactly 5 MiB passes the size check. */
  lemma ExactlyFiveMiBAccepted()
    ensures ValidateUploadedFile("plan.docx", 5 * 1024 * 1024) == Accepted
  {
    assert "plan.docx" == "plan" + "." + "docx";
    Text.ExtensionAfterDot("plan", "docx");
    Text.LowerKeepsLowercase("docx");
  }

  /** A 6 MiB file is refused for its size before its type is looked at. */
  lemma OversizeRefusedFirst(name: string)
    ensures ValidateUploadedFile(name, 6 * 1024 * 1024) == TooLarge(6 * 1024 * 1024)
  {
  }

  /** A PDF is refused for its type, whatever the case of its extension. */
  lemma PdfRefused()
    ensures ValidateUploadedFile("deck.PDF", 1024) == UnsupportedType("pdf")
  {
    assert "deck.PDF" == "deck" + "." + "PDF";
    Text.ExtensionAfterDot("deck", "PDF");
    assert Text.Lower("PDF") == "pdf";
  }

  // ------------------------------------------------------------------
  // Knowledge-base upload
  // ------------------------------------------------------------------

  /** How a call of `upload_document` ended: its result, or an exception
      (the temporary file could not be opened, say) with its text. */
  datatype Attempt = Returned(outcome: KnowledgeService.Outcome<KnowledgeService.Uploaded>) | Raised(message: string)

  /** `upload_file_to_knowledge`'s `(success, file_id, error)`. */
  datatype UploadReport = UploadReport(success: bool, fileId: Option<string>, error: Option<string>)

  function UploadFileToKnowledge(a: Attempt): (r: UploadReport)
    ensures r.success <==> a.Returned? && a.outcome.Succeeded?
    ensures r.success ==> r.fileId == a.outcome.payload.fileId && r.error.None?
    ensures !r.success ==> r.fileId.None? && r.error.Some?
    ensures a.Raised? ==> r.error == Some("网络错误：" + a.message)
    ensures a.Returned? && !a.outcome.Succeeded? ==> r.error == Some(a.outcome.error)
  {
    match a
    case Raised(message) => UploadReport(false, None, Some("网络错误：" + message))
    case Returned(o) =>
      if o.Succeeded? then UploadReport(true, o.payload.fileId, None)
      else UploadReport(false, None, Some(o.error))
  }

  /** An uploaded file: its name and size in bytes. */
  datatype UploadedFile = UploadedFile(name: string, size: nat)

  /** The session fields the upload loop touches. */
  datatype UploadState = UploadState(processed: set<string>, fileIds: seq<Option<string>>)

  /** What became of one file of the batch. */
  datatype FileOutcome = Skipped | Invalid(reason: Validation) | Failed(error: string) | Added(fileId: Option<string>)

  /** The file name a knowledge-base row contributes to the duplicate check. */
  function RowName(row: KnowledgeService.DocumentRow): string
  {
    row.fileName.GetOr("")
  }

  predicate InKnowledgeBase(rows: seq<KnowledgeService.DocumentRow>, name: string)
  {
    exists k :: 0 <= k < |rows| && RowName(rows[k]) == name
  }

  /** The names of the files the first `n` outcomes added. */
  function AddedNames(files: seq<UploadedFile>, outcomes: seq<FileOutcome>, n: nat): set<string>
    requires n <= |files| && n <= |outcomes|
  {
    if n == 0 then {}
    else AddedNames(files, outcomes, n - 1) + (if outcomes[n - 1].Added? then {files[n - 1].name} else {})
  }

  /** The file ids the outcomes added, in order. */
  function AddedIds(outcomes: seq<FileOutcome>): seq<Option<string>>
  {
    if |outcomes| == 0 then []
    else
      var last := outcomes[|outcomes| - 1];
      AddedIds(outcomes[..|outcomes| - 1]) + (if last.Added? then [last.fileId] else [])
  }

  /** What the loop does with the `j`-th file: skip it when its name was
      processed before (`processed0` or added earlier in the batch) or is in
      the knowledge base; otherwise refuse it when validation fails; otherwise
      record the upload's result. */
  predicate Explains(files: seq<UploadedFile>, rows: seq<KnowledgeService.DocumentRow>, processed0: set<string>,
                     upload: (nat, UploadedFile) -> Attempt, outcomes: seq<FileOutcome>, j: nat)
    requires j < |files| && j < |outcomes|
  {
    var f, o := files[j], outcomes[j];
    var v := ValidateUploadedFile(f.name, f.size);
    var report := UploadFileToKnowledge(upload(j, f));
    && (o.Skipped? <==> f.name in processed0 + AddedNames(files, outcomes, j) || InKnowledgeBase(rows, f.name))
    && (o.Invalid? ==> o.reason == v && !v.Accepted?)
    && (o.Added? || o.Failed? ==> v.Accepted?)
    && (o.Added? ==> report.success && o.fileId == report.fileId)
    && (o.Failed? ==> !report.success && o.error == report.error.value)
  }

  lemma ExplainsExtend(files: seq<UploadedFile>, rows: seq<KnowledgeService.DocumentRow>, processed0: set<string>,
                       upload: (nat, UploadedFile) -> Attempt, outcomes: seq<FileOutcome>, o: FileOutcome, j: nat)
    requires j < |outcomes| < |files|
    requires Explains(files, rows, processed0, upload, outcomes, j)
    ensures Explains(files, rows, processed0, upload, outcomes + [o], j)
  {
    AddedNamesExtend(files, outcomes, o, j);
    assert (outcomes + [o])[j] == outcomes[j];
  }

  /** The fate of the `i`-th file given the names processed so far. */
  function Decide(file: UploadedFile, i: nat, processed: set<string>, rows: seq<KnowledgeService.DocumentRow>,
                  upload: (nat, UploadedFile) -> Attempt): FileOutcome
  {
    if file.name in processed || InKnowledgeBase(rows, file.name) then Skipped
    else
      var validation := ValidateUploadedFile(file.name, file.size);
      if !validation.Accepted? then Invalid(validation)
      else
        var report := UploadFileToKnowledge(upload(i, file));
        if report.success then Added(report.fileId) else Failed(report.error.value)
  }

  lemma DecideExplains(files: seq<UploadedFile>, rows: seq<KnowledgeService.DocumentRow>, processed0: set<string>,
                       upload: (nat, UploadedFile) -> Attempt, outcomes: seq<FileOutcome>)
    requires |outcomes| < |files|
    ensures var i := |outcomes|;
      var o := Decide(files[i], i, processed0 + AddedNames(files, outcomes, i), rows, upload);
      Explains(files, rows, processed0, upload, outcomes + [o], i)
  {
    var i := |outcomes|;
    var o := Decide(files[i], i, processed0 + AddedNames(files, outcomes, i), rows, upload);
    AddedNamesExtend(files, outcomes, o, i);
    assert (outcomes + [o])[i] == o;
  }

  /** Recording one more outcome keeps every earlier outcome explained. */
  lemma ExplainsExtendAll(files: seq<UploadedFile>, rows: seq<KnowledgeService.DocumentRow>, processed0: set<string>,
                          upload: (nat, UploadedFile) -> Attempt, outcomes: seq<FileOutcome>, o: FileOutcome)
    requires |outcomes| < |files|
    requires forall j :: 0 <= j < |outcomes| ==> Explains(files, rows, processed0, upload, outcomes, j)
    ensures forall j :: 0 <= j < |outcomes| ==> Explains(files, rows, processed0, upload, outcomes + [o], j)
  {
    forall j | 0 <= j < |outcomes|
      ensures Explains(files, rows, processed0, upload, outcomes + [o], j)
    {
      ExplainsExtend(files, rows, processed0, upload, outcomes, o, j);
    }
  }

  lemma StepTotals(files: seq<UploadedFile>, outcomes: seq<FileOutcome>, o: FileOutcome)
    requires |outcomes| < |files|
    ensures var i := |outcomes|;
      AddedNames(files, outcomes + [o], i + 1)
        == AddedNames(files, outcomes, i) + (if o.Added? then {files[i].name} else {})
    ensures AddedIds(outcomes + [o]) == AddedIds(outcomes) + (if o.Added? then [o.fileId] else [])
  {
    var i := |outcomes|;
    AddedNamesExtend(files, outcomes, o, i);
    assert (outcomes + [o])[..i] == outcomes;
    assert (outcomes + [o])[i] == o;
  }

  /** The upload loop of the home page over one batch, following `Explains`
      for every file (`upload` stands for the network call for the i-th
      file): the processed names grow by the names added, and the session's
      file ids by the returned ids, in order. */
  method ProcessUploads(files: seq<UploadedFile>, rows: seq<KnowledgeService.DocumentRow>,
                        st: UploadState, upload: (nat, UploadedFile) -> Attempt)
    returns (st': UploadState, outcomes: seq<FileOutcome>)
    ensures |outcomes| == |files|
    ensures forall j :: 0 <= j < |files| ==> Explains(files, rows, st.processed, upload, outcomes, j)
    ensures st'.processed == st.processed + AddedNames(files, outcomes, |files|)
    ensures st'.fileIds == st.fileIds + AddedIds(outcomes)
  {
    var processed := st.processed;
    var ids := st.fileIds;
    outcomes := [];
    var i := 0;
    while i < |files|
      invariant 0 <= i <= |files| && |outcomes| == i
      invariant forall j :: 0 <= j < i ==> Explains(files, rows, st.processed, upload, outcomes, j)
      invariant processed == st.processed + AddedNames(files, outcomes, i)
      invariant ids == st.fileIds + AddedIds(outcomes)
    {
      var outcome := Decide(files[i], i, processed, rows, upload);
      DecideExplains(files, rows, st.processed, upload, outcomes);
      ExplainsExtendAll(files, rows, st.processed, upload, outcomes, outcome);
      StepTotals(files, outcomes, outcome);
      if outcome.Added? {
        processed := processed + {files[i].name};
        ids := ids + [outcome.fileId];
      }
      outcomes := outcomes + [outcome];
      i := i + 1;
    }
    st' := UploadState(processed, ids);
  }

  lemma AddedNamesExtend(files: seq<UploadedFile>, outcomes: seq<FileOutcome>, o: FileOutcome, j: nat)
    requires j <= |outcomes| < |files|
    ensures AddedNames(files, outcomes + [o], j) == AddedNames(files, outcomes, j)
  {
    assert (outcomes + [o])[..j] == outcomes[..j];
    AddedNamesPrefix(files, outcomes, outcomes + [o], j);
  }

  lemma {:induction false} AddedNamesPrefix(files: seq<UploadedFile>, a: seq<FileOutcome>, b: seq<FileOutcome>, n: nat)
    requires n <= |files| && n <= |a| && n <= |b| && a[..n] == b[..n]
    ensures AddedNames(files, a, n) == AddedNames(files, b, n)
    decreases n
  {
    if n > 0 {
      assert a[n - 1] == a[..n][n - 1] == b[..n][n - 1] == b[n - 1];
      assert a[..n - 1] == a[..n][..n - 1];
      assert b[..n - 1] == b[..n][..n - 1];
      AddedNamesPrefix(files, a, b, n - 1);
    }
  }

  /** Within one batch no file name is added twice, and none that was already
      processed or already in the knowledge base. */
  lemma AddedOnce(files: seq<UploadedFile>, rows: seq<KnowledgeService.DocumentRow>, processed0: set<string>,
                  upload: (nat, UploadedFile) -> Attempt, outcomes: seq<FileOutcome>)
    requires |outcomes| == |files|
    requires forall j :: 0 <= j < |files| ==> Explains(files, rows, processed0, upload, outcomes, j)
    ensures forall i, j :: 0 <= i < j < |files| && outcomes[i].Added? && outcomes[j].Added? ==>
      files[i].name != files[j].name
    ensures forall i :: 0 <= i < |files| && outcomes[i].Added? ==>
      files[i].name !in processed0 && !InKnowledgeBase(rows, files[i].name)
  {
    forall i, j | 0 <= i < j < |files| && outcomes[i].Added? && outcomes[j].Added?
      ensures files[i].name != files[j].name
    {
      assert Explains(files, rows, processed0, upload, outcomes, j);
      AddedNamesMono(files, outcomes, i + 1, j);
    }
    forall i | 0 <= i < |files| && outcomes[i].Added?
      ensures files[i].name !in processed0 && !InKnowledgeBase(rows, files[i].name)
    {
      assert Explains(files, rows, processed0, upload, outcomes, i);
    }
  }

  lemma {:induction false} AddedNamesMono(files: seq<UploadedFile>, outcomes: seq<FileOutcome>, m: nat, n: nat)
    requires m <= n <= |files| && n <= |outcomes|
    ensures AddedNames(files, outcomes, m) <= AddedNames(files, outcomes, n)
    decreases n - m
  {
    if m < n {
      AddedNamesMono(files, outcomes, m, n - 1);
    }
  }

  // ------------------------------------------------------------------
  // Training history
  // ------------------------------------------------------------------

  /** One entry of the sidebar's training history. */
  datatype HistoryRecord = HistoryRecord(
    id: string,
    title: string,
    files: seq<string>,
    date: string,
    rounds: nat,
    redQuestions: nat,
    blueResponses: nat,
    status: string)

  /** The record for a session row and its statistics; `created_at` is text. */
  function Record(row: Database.SessionRow, stats: Database.Stats): (r: HistoryRecord)
    ensures r.id == row.id && r.files == [] && r.status == "completed"
    ensures |r.title| >= 3 && r.title[..3] == "训练-" && r.title[3..] == Text.PySuffix(row.id, 6)
    ensures r.date == Text.PyPrefix(row.createdAt, 16)
    ensures r.rounds == stats.user && r.redQuestions == stats.red && r.blueResponses == stats.blue
  {
    HistoryRecord(row.id, "训练-" + Text.PySuffix(row.id, 6), [], Text.PyPrefix(row.createdAt, 16),
                  stats.user, stats.red, stats.blue, "completed")
  }

  /** The records for `rows` in order, or nothing when reading some row's
      statistics fails. */
  function Records(st: Database.Store, rows: seq<Database.SessionRow>): (r: Option<seq<HistoryRecord>>)
    ensures r.Some? <==> forall i :: 0 <= i < |rows| ==> Database.GetSessionStats(st, rows[i].id).Some?
    ensures r.Some? ==> |r.value| == |rows|
    ensures r.Some? ==> forall i :: 0 <= i < |rows| ==>
      r.value[i] == Record(rows[i], Database.GetSessionStats(st, rows[i].id).value)
  {
    if |rows| == 0 then Some([])
    else
      var stats := Database.GetSessionStats(st, rows[0].id);
      var rest := Records(st, rows[1..]);
      if stats.None? || rest.None? then
        assert rest.None? ==> exists i :: 0 <= i < |rows[1..]| && Database.GetSessionStats(st, rows[1..][i].id).None?;
        None
      else Some([Record(rows[0], stats.value)] + rest.value)
  }

  /** `refresh_training_history`: the twenty most recent sessions as records,
      or an empty history when reading any of their statistics fails. */
  function TrainingHistory(st: Database.Store): (r: seq<HistoryRecord>)
    ensures var rows := Database.ListSessions(st, 20);
      (forall i :: 0 <= i < |rows| ==> Database.GetSessionStats(st, rows[i].id).Some?) ==>
        && |r| == |rows|
        && forall i :: 0 <= i < |rows| ==>
             r[i] == Record(rows[i], Database.GetSessionStats(st, rows[i].id).value)
    ensures var rows := Database.ListSessions(st, 20);
      !(forall i :: 0 <= i < |rows| ==> Database.GetSessionStats(st, rows[i].id).Some?) ==> r == []
    ensures |r| <= 20
  {
    Records(st, Database.ListSessions(st, 20)).GetOr([])
  }

  /** A prefix keeps the lexicographic order of the strings it is taken from. */
  lemma {:induction false} PrefixKeepsOrder(a: string, b: string, n: nat)
    requires Sorting.LexLe(a, b)
    ensures Sorting.LexLe(Text.PyPrefix(a, n), Text.PyPrefix(b, n))
    decreases n
  {
    var pa, pb := Text.PyPrefix(a, n), Text.PyPrefix(b, n);
    if n > 0 && |a| > 0 {
      assert |b| > 0 && pa[0] == a[0] && pb[0] == b[0];
      if a[0] == b[0] {
        PrefixKeepsOrder(a[1..], b[1..], n - 1);
        assert pa[1..] == Text.PyPrefix(a[1..], n - 1);
        assert pb[1..] == Text.PyPrefix(b[1..], n - 1);
      }
    }
  }

  /** The history lists newest sessions first: its dates never increase, and
      each record's counts are the session's statistics. */
  lemma TrainingHistoryNewestFirst(st: Database.Store)
    ensures var r := TrainingHistory(st);
      forall i, j :: 0 <= i < j < |r| ==> Sorting.LexLe(r[j].date, r[i].date)
    ensures var r := TrainingHistory(st);
      forall i :: 0 <= i < |r| ==>
        (Database.GetSessionStats(st, r[i].id).Some?
         && r[i].rounds == Database.GetSessionStats(st, r[i].id).value.user)
  {
    var rows := Database.ListSessions(st, 20);
    var rec := Records(st, rows);
    if rec.Some? {
      forall i, j | 0 <= i < j < |rows|
        ensures Sorting.LexLe(rec.value[j].date, rec.value[i].date)
      {
        assert Sorting.InOrder(rows[i].createdAt, rows[j].createdAt, true);
        PrefixKeepsOrder(rows[j].createdAt, rows[i].createdAt, 16);
      }
    }
  }
}
