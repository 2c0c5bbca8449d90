/** The verdict of mariadb-compare over all canonical tables. */
module CompareReport {
  import opened Basics
  import opened CanonicalJson
  import opened TableChecksums

  const CANONICAL_TABLES: seq<string> := [
    "chat_logs", "effective_input_logs", "memories", "direct_evidence_records", "kg_triples",
    "audit_logs", "critic_feedback", "character_events", "storylines", "world_rules",
    "character_states", "pending_threads", "active_states", "canonical_state_layers",
    "episode_summaries"]

  datatype Manifest = Manifest(exported: seq<string>, skipped: seq<string>)

  /** What reading one table yields: its export file, the row count, and the selected rows. */
  datatype Source = Source(exportRows: Result<seq<Row>>, count: Result<nat>, dbRows: Result<seq<Row>>)

  /** The two row normalisers, whose details are not part of this model. */
  datatype Normalizer = Normalizer(shape: (string, Row) -> Row, comparable: (string, Row) -> Row)

  datatype TableStatus = TableOk | TableFailed | CountMismatch | ChecksumMismatch | Skipped | MissingExport

  datatype TableResult = TableResult(
    name: string, status: TableStatus, exportCount: nat, mariadbCount: nat,
    checksumMatch: Option<bool>, exportChecksum: string, mariadbChecksum: string)

  datatype ReportStatus = Unset | ReportOk | Mismatch | ReportFailed

  datatype Report = Report(status: ReportStatus, tables: seq<TableResult>, errors: seq<string>)

  function NewResult(table: string, status: TableStatus): TableResult {
    TableResult(table, status, 0, 0, None, "", "")
  }

  function ExportSide(n: Normalizer, table: string, rows: seq<Row>): seq<Row> {
    seq(|rows|, i requires 0 <= i < |rows| => n.comparable(table, n.shape(table, rows[i])))
  }

  function MariaDBSide(n: Normalizer, table: string, rows: seq<Row>): seq<Row> {
    seq(|rows|, i requires 0 <= i < |rows| => n.comparable(table, rows[i]))
  }

  /** Result and error of comparing one exported table. */
  ghost function Outcome(h: string -> string, n: Normalizer, table: string, src: Source)
    : (TableResult, Option<string>)
  {
    var start := NewResult(table, TableOk);
    if src.exportRows.Err? then (start.(status := TableFailed), Some(src.exportRows.error))
    else
      var exported := ExportSide(n, table, src.exportRows.value);
      var counted := start.(exportCount := |exported|);
      if src.count.Err? then (counted.(status := TableFailed), Some(src.count.error))
      else
        var differs := |exported| != src.count.value;
        var r := counted.(mariadbCount := src.count.value, status := if differs then CountMismatch else TableOk);
        if src.dbRows.Err? then
          (r.(status := if differs then CountMismatch else TableFailed), Some(src.dbRows.error))
        else
          var ec := TableChecksum(h, exported);
          var mc := TableChecksum(h, MariaDBSide(n, table, src.dbRows.value));
          (r.(checksumMatch := Some(ec == mc), exportChecksum := ec, mariadbChecksum := mc,
              status := if differs then CountMismatch else if ec == mc then TableOk else ChecksumMismatch), None)
  }

  method CompareTable(h: string -> string, n: Normalizer, table: string, src: Source)
    returns (result: TableResult, err: Option<string>)
    ensures (result, err) == Outcome(h, n, table, src)
  {
    result, err := NewResult(table, TableOk), None;
    if src.exportRows.Err? {
      return result.(status := TableFailed), Some(src.exportRows.error);
    }
    var exportRows := src.exportRows.value;
    var i := 0;
    while i < |exportRows|
      invariant 0 <= i <= |exportRows| == |src.exportRows.value|
      invariant exportRows[..i] == ExportSide(n, table, src.exportRows.value)[..i]
      invariant exportRows[i..] == src.exportRows.value[i..]
    {
      exportRows := exportRows[i := n.shape(table, exportRows[i])];
      exportRows := exportRows[i := n.comparable(table, exportRows[i])];
      i := i + 1;
    }
    assert exportRows == ExportSide(n, table, src.exportRows.value);
    result := result.(exportCount := |exportRows|);
    if src.count.Err? {
      return result.(status := TableFailed), Some(src.count.error);
    }
    result := result.(mariadbCount := src.count.value);
    if result.exportCount != result.mariadbCount {
      result := result.(status := CountMismatch);
    }
    if src.dbRows.Err? {
      if result.status == TableOk {
        result := result.(status := TableFailed);
      }
      return result, Some(src.dbRows.error);
    }
    var mariadbRows := src.dbRows.value;
    i := 0;
    while i < |mariadbRows|
      invariant 0 <= i <= |mariadbRows| == |src.dbRows.value|
      invariant mariadbRows[..i] == MariaDBSide(n, table, src.dbRows.value)[..i]
      invariant mariadbRows[i..] == src.dbRows.value[i..]
    {
      mariadbRows := mariadbRows[i := n.comparable(table, mariadbRows[i])];
      i := i + 1;
    }
    assert mariadbRows == MariaDBSide(n, table, src.dbRows.value);
    var exportChecksum := ComputeChecksums(h, exportRows);
    var mariadbChecksum := ComputeChecksums(h, mariadbRows);
    var match_ := exportChecksum == mariadbChecksum;
    result := result.(checksumMatch := Some(match_), exportChecksum := exportChecksum,
                      mariadbChecksum := mariadbChecksum);
    if !match_ && result.status == TableOk {
      result := result.(status := ChecksumMismatch);
    }
  }

  /** What the report says about one canonical table. */
  ghost function TableVerdict(h: string -> string, n: Normalizer, m: Manifest, sources: string -> Source, table: string)
    : (TableResult, Option<string>)
  {
    if table in m.skipped then (NewResult(table, Skipped), None)
    else if table !in m.exported then (NewResult(table, MissingExport), Some("canonical table missing from export"))
    else Outcome(h, n, table, sources(table))
  }

  ghost function Verdict(h: string -> string, n: Normalizer, manifest: Result<Manifest>,
                         sources: string -> Source): ReportStatus {
    if manifest.Err? then ReportFailed
    else if exists t :: t in CANONICAL_TABLES && TableVerdict(h, n, manifest.value, sources, t).1.Some?
    then ReportFailed
    else if forall t :: t in CANONICAL_TABLES ==> TableVerdict(h, n, manifest.value, sources, t).0.status == TableOk
    then ReportOk
    else Mismatch
  }

  /** The errors of the first `k` canonical tables, in their order. */
  ghost function TableErrors(h: string -> string, n: Normalizer, m: Manifest, sources: string -> Source, k: nat)
    : seq<string>
    requires k <= |CANONICAL_TABLES|
  {
    if k == 0 then []
    else
      var err := TableVerdict(h, n, m, sources, CANONICAL_TABLES[k - 1]).1;
      TableErrors(h, n, m, sources, k - 1) + if err.Some? then [err.value] else []
  }

  lemma ErrorsNext(h: string -> string, n: Normalizer, m: Manifest, sources: string -> Source, k: nat)
    requires k < |CANONICAL_TABLES|
    ensures TableErrors(h, n, m, sources, 0) == []
    ensures var err := TableVerdict(h, n, m, sources, CANONICAL_TABLES[k]).1;
            && (err.Some? ==> TableErrors(h, n, m, sources, k + 1) == TableErrors(h, n, m, sources, k) + [err.value])
            && (err.None? ==> TableErrors(h, n, m, sources, k + 1) == TableErrors(h, n, m, sources, k))
  {
    hide CANONICAL_TABLES, TableVerdict;
  }

  lemma {:induction false} ErrorsIff(h: string -> string, n: Normalizer, m: Manifest, sources: string -> Source, k: nat)
    requires k <= |CANONICAL_TABLES|
    ensures TableErrors(h, n, m, sources, k) == [] <==>
              forall j :: 0 <= j < k ==> TableVerdict(h, n, m, sources, CANONICAL_TABLES[j]).1.None?
  {
    hide CANONICAL_TABLES, TableVerdict;
    if k > 0 {
      ErrorsIff(h, n, m, sources, k - 1);
    }
  }

  lemma SomeTable()
    ensures |CANONICAL_TABLES| > 0
  {
  }

  /** The closing loop over the results, when nothing has failed or differed. */
  method AllTablesOk(tables: seq<TableResult>) returns (allOk: bool)
    ensures allOk <==> forall j :: 0 <= j < |tables| ==> tables[j].status in {TableOk, MissingExport}
  {
    allOk := true;
    for i := 0 to |tables|
      invariant allOk && forall j :: 0 <= j < i ==> tables[j].status in {TableOk, MissingExport}
    {
      if tables[i].status != TableOk && tables[i].status != MissingExport {
        return false;
      }
    }
  }

  lemma VerdictCases(h: string -> string, n: Normalizer, m: Manifest, sources: string -> Source, table: string)
    ensures var v := TableVerdict(h, n, m, sources, table);
            && (table in m.skipped ==> v == (NewResult(table, Skipped), None) && v.0.status == Skipped)
            && (table !in m.skipped && table !in m.exported ==>
                  v == (NewResult(table, MissingExport), Some("canonical table missing from export")))
            && (table !in m.skipped && table in m.exported ==> v == Outcome(h, n, table, sources(table)))
  {
    hide Outcome;
  }

  /** The loop over the canonical tables. */
  method CompareTables(h: string -> string, n: Normalizer, m: Manifest, sources: string -> Source)
    returns (report: Report)
    ensures |report.tables| == |CANONICAL_TABLES|
    ensures forall j :: 0 <= j < |CANONICAL_TABLES| ==>
              report.tables[j] == TableVerdict(h, n, m, sources, CANONICAL_TABLES[j]).0
    ensures report.errors == TableErrors(h, n, m, sources, |CANONICAL_TABLES|)
    ensures report.status == ReportFailed <==> report.errors != []
    ensures report.status == Mismatch ==> exists j :: 0 <= j < |report.tables| && report.tables[j].status != TableOk
    ensures report.status == Unset ==> forall j :: 0 <= j < |report.tables| ==>
              report.tables[j].status in {TableOk, Skipped}
    ensures report.status != ReportOk
  {
    hide Outcome, CANONICAL_TABLES, TableVerdict, NewResult, TableErrors;
    report := Report(Unset, [], []);
    SomeTable();
    ErrorsNext(h, n, m, sources, 0);
    var i := 0;
    while i < |CANONICAL_TABLES|
      invariant 0 <= i <= |CANONICAL_TABLES| && |report.tables| == i
      invariant forall j :: 0 <= j < i ==> report.tables[j] == TableVerdict(h, n, m, sources, CANONICAL_TABLES[j]).0
      invariant report.status == ReportFailed <==> report.errors != []
      invariant report.errors == TableErrors(h, n, m, sources, i)
      invariant report.status == Mismatch ==> exists j :: 0 <= j < i && report.tables[j].status != TableOk
      invariant report.status == Unset ==> forall j :: 0 <= j < i ==> report.tables[j].status in {TableOk, Skipped}
      invariant report.status != ReportOk
    {
      var table := CANONICAL_TABLES[i];
      VerdictCases(h, n, m, sources, table);
      ErrorsNext(h, n, m, sources, i);
      if table in m.skipped {
        report := report.(tables := report.tables + [NewResult(table, Skipped)]);
      } else if table !in m.exported {
        report := Report(ReportFailed, report.tables + [NewResult(table, MissingExport)],
                         report.errors + ["canonical table missing from export"]);
      } else {
        var tr, err := CompareTable(h, n, table, sources(table));
        report := report.(tables := report.tables + [tr]);
        if err.Some? {
          report := report.(errors := report.errors + [err.value], status := ReportFailed);
        } else if tr.status != TableOk && report.status != ReportFailed {
          report := report.(status := Mismatch);
        }
      }
      i := i + 1;
    }
  }

  /** The verdict over all canonical tables, with a result and, where one failed, an error for each. */
  method CompareExport(h: string -> string, n: Normalizer, manifest: Result<Manifest>, sources: string -> Source)
    returns (report: Report)
    ensures report.status == Verdict(h, n, manifest, sources)
    ensures report.status == ReportFailed <==> report.errors != []
    ensures manifest.Err? ==> report.errors == [manifest.error] && report.tables == []
    ensures manifest.Ok? ==> report.errors == TableErrors(h, n, manifest.value, sources, |CANONICAL_TABLES|)
    ensures manifest.Ok? ==> |report.tables| == |CANONICAL_TABLES|
    ensures manifest.Ok? ==> forall j :: 0 <= j < |CANONICAL_TABLES| ==>
              report.tables[j] == TableVerdict(h, n, manifest.value, sources, CANONICAL_TABLES[j]).0
  {
    hide Outcome, CANONICAL_TABLES, TableVerdict, NewResult, TableErrors;
    if manifest.Err? {
      return Report(ReportFailed, [], [manifest.error]);
    }
    report := CompareTables(h, n, manifest.value, sources);
    ErrorsIff(h, n, manifest.value, sources, |CANONICAL_TABLES|);
    if report.status == Unset {
      var allOk := AllTablesOk(report.tables);
      report := report.(status := if allOk then ReportOk else Mismatch);
    }
  }

  /** Nothing read failed, the counts agree, and both sides hold the same rows, `id` and `_row_checksum` aside. */
  ghost predicate SameContents(n: Normalizer, table: string, src: Source) {
    && src.exportRows.Ok? && src.count.Ok? && src.dbRows.Ok?
    && |src.exportRows.value| == src.count.value
    && SameRows(n, table, src.exportRows.value, src.dbRows.value)
  }

  /** The exported rows, shaped and normalised, are the normalised selected rows as a multiset. */
  ghost predicate SameRows(n: Normalizer, table: string, exported: seq<Row>, selected: seq<Row>) {
    multiset(seq(|exported|, i requires 0 <= i < |exported| =>
                   n.comparable(table, n.shape(table, exported[i])) - {"id", "_row_checksum"}))
    == multiset(seq(|selected|, i requires 0 <= i < |selected| =>
                      n.comparable(table, selected[i]) - {"id", "_row_checksum"}))
  }

  lemma SidesAre(n: Normalizer, table: string, exported: seq<Row>, selected: seq<Row>)
    ensures var (a, b) := (ExportSide(n, table, exported), MariaDBSide(n, table, selected));
            SameRows(n, table, exported, selected) <==>
            multiset(seq(|a|, i requires 0 <= i < |a| => a[i] - {"id", "_row_checksum"}))
            == multiset(seq(|b|, i requires 0 <= i < |b| => b[i] - {"id", "_row_checksum"}))
  {
    var (a, b) := (ExportSide(n, table, exported), MariaDBSide(n, table, selected));
    assert seq(|a|, i requires 0 <= i < |a| => a[i] - {"id", "_row_checksum"})
        == seq(|exported|, i requires 0 <= i < |exported| =>
                 n.comparable(table, n.shape(table, exported[i])) - {"id", "_row_checksum"});
    assert seq(|b|, i requires 0 <= i < |b| => b[i] - {"id", "_row_checksum"})
        == seq(|selected|, i requires 0 <= i < |selected| =>
                 n.comparable(table, selected[i]) - {"id", "_row_checksum"});
  }

  /** The assumptions on one table: printable rows, and no collision among the texts hashed for it. */
  ghost predicate Hashable(h: string -> string, n: Normalizer, table: string, src: Source) {
    src.exportRows.Ok? && src.dbRows.Ok? ==>
      var (a, b) := (ExportSide(n, table, src.exportRows.value), MariaDBSide(n, table, src.dbRows.value));
      && WellFormedRows(a) && WellFormedRows(b)
      && CollisionFree(h, HashedTexts(h, a) + HashedTexts(h, b))
  }

  lemma {:induction false} TableOkIff(h: string -> string, n: Normalizer, table: string, src: Source)
    requires Digest(h) && Hashable(h, n, table, src)
    ensures Outcome(h, n, table, src).0.status == TableOk && Outcome(h, n, table, src).1.None?
       <==> SameContents(n, table, src)
  {
    if src.exportRows.Ok? && src.dbRows.Ok? {
      ChecksumsEqualIff(h, ExportSide(n, table, src.exportRows.value), MariaDBSide(n, table, src.dbRows.value));
      SidesAre(n, table, src.exportRows.value, src.dbRows.value);
    }
  }

  /** Reading the table failed somewhere. */
  predicate Unreadable(src: Source) {
    src.exportRows.Err? || src.count.Err? || src.dbRows.Err?
  }

  predicate CountsDiffer(src: Source) {
    src.exportRows.Ok? && src.count.Ok? && |src.exportRows.value| != src.count.value
  }

  /** What each status of an exported table means, what error is reported, and the counts with it. */
  lemma {:induction false} TableStatusIff(h: string -> string, n: Normalizer, table: string, src: Source)
    requires Digest(h) && Hashable(h, n, table, src)
    ensures var (r, err) := Outcome(h, n, table, src);
            && (r.status == TableOk <==> SameContents(n, table, src))
            && (r.status == CountMismatch <==> CountsDiffer(src))
            && (r.status == TableFailed <==> Unreadable(src) && !CountsDiffer(src))
            && (r.status == ChecksumMismatch <==>
                  !Unreadable(src) && !CountsDiffer(src) && !SameContents(n, table, src))
            && err == (if src.exportRows.Err? then Some(src.exportRows.error)
                       else if src.count.Err? then Some(src.count.error)
                       else if src.dbRows.Err? then Some(src.dbRows.error) else None)
            && r.name == table
            && (src.exportRows.Ok? ==> r.exportCount == |src.exportRows.value|)
            && (src.exportRows.Ok? && src.count.Ok? ==> r.mariadbCount == src.count.value)
            && (r.checksumMatch.Some? <==> !Unreadable(src))
            && (!Unreadable(src) ==>
                  r.checksumMatch.value == SameRows(n, table, src.exportRows.value, src.dbRows.value))
  {
    if src.exportRows.Ok? && src.dbRows.Ok? {
      ChecksumsEqualIff(h, ExportSide(n, table, src.exportRows.value), MariaDBSide(n, table, src.dbRows.value));
      SidesAre(n, table, src.exportRows.value, src.dbRows.value);
    }
  }

  /** The report is "ok" iff every canonical table is exported, not skipped, and has the same contents. */
  lemma {:induction false} ReportOkIff(h: string -> string, n: Normalizer, manifest: Result<Manifest>,
                                       sources: string -> Source)
    requires Digest(h)
    requires forall t :: t in CANONICAL_TABLES ==> Hashable(h, n, t, sources(t))
    ensures Verdict(h, n, manifest, sources) == ReportOk
       <==> manifest.Ok? && forall t :: t in CANONICAL_TABLES ==>
              t in manifest.value.exported && t !in manifest.value.skipped && SameContents(n, t, sources(t))
  {
    if manifest.Ok? {
      forall t | t in CANONICAL_TABLES
        ensures (TableVerdict(h, n, manifest.value, sources, t).0.status == TableOk
                 && TableVerdict(h, n, manifest.value, sources, t).1.None?)
           <==> (t in manifest.value.exported && t !in manifest.value.skipped && SameContents(n, t, sources(t)))
      {
        TableOkIff(h, n, t, sources(t));
      }
    }
  }

  /** The report is "failed" iff the manifest or some table that is not skipped cannot be read or was not exported. */
  lemma {:induction false} ReportFailedIff(h: string -> string, n: Normalizer, manifest: Result<Manifest>,
                                           sources: string -> Source)
    ensures Verdict(h, n, manifest, sources) == ReportFailed
       <==> manifest.Err? || exists t :: t in CANONICAL_TABLES && t !in manifest.value.skipped
                                         && (t !in manifest.value.exported || Unreadable(sources(t)))
    ensures Verdict(h, n, manifest, sources) != Unset
  {
    hide CANONICAL_TABLES;
    if manifest.Ok? {
      forall t | t in CANONICAL_TABLES
        ensures TableVerdict(h, n, manifest.value, sources, t).1.Some?
           <==> t !in manifest.value.skipped && (t !in manifest.value.exported || Unreadable(sources(t)))
      {
      }
    }
  }

  ghost predicate Reordered(a: Result<seq<Row>>, b: Result<seq<Row>>) {
    if a.Ok? && b.Ok? then multiset(a.value) == multiset(b.value) else a == b
  }

  /** The whole report is the same whatever order either side lists its rows in. */
  lemma {:induction false} VerdictIgnoresRowOrder(h: string -> string, n: Normalizer, manifest: Result<Manifest>,
                               sources: string -> Source, others: string -> Source)
    requires forall t :: t in CANONICAL_TABLES ==>
               && Reordered(sources(t).exportRows, others(t).exportRows)
               && Reordered(sources(t).dbRows, others(t).dbRows)
               && sources(t).count == others(t).count
    ensures Verdict(h, n, manifest, sources) == Verdict(h, n, manifest, others)
    ensures manifest.Ok? ==> forall t :: t in CANONICAL_TABLES ==>
              TableVerdict(h, n, manifest.value, sources, t) == TableVerdict(h, n, manifest.value, others, t)
  {
    forall t | t in CANONICAL_TABLES
      ensures Outcome(h, n, t, sources(t)) == Outcome(h, n, t, others(t))
    {
      OutcomeIgnoresRowOrder(h, n, t, sources(t), others(t));
    }
    if manifest.Ok? {
      assert forall t :: t in CANONICAL_TABLES ==>
        TableVerdict(h, n, manifest.value, sources, t) == TableVerdict(h, n, manifest.value, others, t);
    }
  }

  lemma {:induction false} OutcomeIgnoresRowOrder(h: string -> string, n: Normalizer, table: string, s: Source,
                                                  o: Source)
    requires Reordered(s.exportRows, o.exportRows) && Reordered(s.dbRows, o.dbRows) && s.count == o.count
    ensures Outcome(h, n, table, s) == Outcome(h, n, table, o)
  {
    if s.exportRows.Ok? {
      var (a, b) := (s.exportRows.value, o.exportRows.value);
      assert |multiset(a)| == |a| && |multiset(b)| == |b|;
      ImageMultisets(a, ExportSide(n, table, a), b, ExportSide(n, table, b));
      ChecksumIgnoresOrder(h, ExportSide(n, table, a), ExportSide(n, table, b));
    }
    if s.dbRows.Ok? {
      var (a, b) := (s.dbRows.value, o.dbRows.value);
      assert |multiset(a)| == |a| && |multiset(b)| == |b|;
      ImageMultisets(a, MariaDBSide(n, table, a), b, MariaDBSide(n, table, b));
      ChecksumIgnoresOrder(h, MariaDBSide(n, table, a), MariaDBSide(n, table, b));
    }
  }
}
