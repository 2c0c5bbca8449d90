/** The pair sqlite-export / dry-run-validator: the exporter stores a checksum in every
    row line and a table checksum over them, the validator recomputes the latter. */
module ExportValidation {
  import opened Basics
  import opened StringOrder
  import opened CanonicalJson
  import opened TableChecksums

  /** The texts the two programs hash for a row.  They escape differently, so they are two
      parameters.  The exporter's drops only `id`, the validator's also `_row_checksum`. */
  datatype RowText = RowText(exporter: Row -> string, validator: Row -> string)

  const STORED := "_row_checksum"

  function WithoutID(row: Row): Row {
    map k | k in row && k != "id" :: row[k]
  }

  function ExportedRow(h: string -> string, text: RowText, row: Row): Row {
    row[STORED := Str(h(text.exporter(WithoutID(row))))]
  }

  /** Hash of the sorted, joined row checksums, and of the empty text when there are none. */
  function ListChecksum(h: string -> string, checksums: seq<string>): string {
    if checksums == [] then h("") else h(JoinLines(Sort(checksums)))
  }

  lemma NothingExported(h: string -> string)
    ensures ListChecksum(h, []) == h("")
  {
  }

  datatype Meta = Meta(
    table: string, timestamp: string, sourcePath: string, rowCount: nat, columns: seq<string>, checksum: string)

  /** The query for all rows: it may fail, a row may not be read, and it may break off. */
  datatype Cursor = QueryFailed | Cursor(rows: seq<Option<Row>>, interrupted: bool)

  /** The rows of a cursor that delivers them all. */
  predicate Delivers(cursor: Cursor, rows: seq<Row>) {
    && cursor.Cursor? && !cursor.interrupted && |cursor.rows| == |rows|
    && forall i :: 0 <= i < |rows| ==> cursor.rows[i] == Some(rows[i])
  }

  function StoredChecksums(h: string -> string, text: RowText, rows: seq<Row>): (r: seq<string>)
    ensures |r| == |rows|
  {
    seq(|rows|, i requires 0 <= i < |rows| => h(text.exporter(WithoutID(rows[i]))))
  }

  /** An export succeeds iff columns and all rows can be read; it then holds every row with its stored checksum. */
  method ExportTable(h: string -> string, text: RowText, table: string, columns: Option<seq<string>>,
                     cursor: Cursor, timestamp: string, sourcePath: string)
    returns (out: Option<(Meta, seq<Row>)>)
    ensures out.Some? <==> columns.Some? && exists rows :: Delivers(cursor, rows)
    ensures forall rows: seq<Row> | out.Some? && Delivers(cursor, rows) ::
              && out.value.1 == seq(|rows|, i requires 0 <= i < |rows| => ExportedRow(h, text, rows[i]))
              && out.value.0 == Meta(table, timestamp, sourcePath, |rows|, columns.value,
                                     ListChecksum(h, StoredChecksums(h, text, rows)))
              && (rows == [] ==> out.value.0.checksum == h(""))
              && forall i :: 0 <= i < |rows| ==>
                   var checksum := h(text.exporter(rows[i] - {"id"}));
                   && out.value.1[i] == rows[i]["_row_checksum" := Str(checksum)]
                   && StoredChecksums(h, text, rows)[i] == checksum
  {
    hide ListChecksum;
    if columns.None? || cursor.QueryFailed? {
      return None;
    }
    var rowChecksums: seq<string> := [];
    var exportRows: seq<Row> := [];
    ghost var rows: seq<Row> := [];
    for i := 0 to |cursor.rows|
      invariant |rows| == |exportRows| == i
      invariant forall j :: 0 <= j < i ==> cursor.rows[j] == Some(rows[j])
      invariant rowChecksums == StoredChecksums(h, text, rows)
      invariant forall j :: 0 <= j < i ==> exportRows[j] == ExportedRow(h, text, rows[j])
    {
      if cursor.rows[i].None? {
        return None;
      }
      var row := cursor.rows[i].value;
      rows := rows + [row];
      var checksum := h(text.exporter(WithoutID(row)));
      rowChecksums := rowChecksums + [checksum];
      exportRows := exportRows + [row[STORED := Str(checksum)]];
    }
    if cursor.interrupted {
      return None;
    }
    assert Delivers(cursor, rows);
    assert ListChecksum(h, []) == h("") by { NothingExported(h); }
    forall row: Row ensures WithoutID(row) == row - {"id"} {
    }
    forall other | Delivers(cursor, other) ensures other == rows {
      assert forall j :: 0 <= j < |rows| ==> Some(other[j]) == cursor.rows[j] == Some(rows[j]);
    }
    out := Some((Meta(table, timestamp, sourcePath, |exportRows|, columns.value, ListChecksum(h, rowChecksums)),
          exportRows));
  }

  /** What validation expects of a table: its manifest entries and the checks on canonical rows. */
  datatype Expectation = Expectation(
    table: string, rowCount: nat, checksum: string, canonical: bool,
    required: seq<string>, jsonColumns: seq<string>, validJSON: string -> bool)

  /** A table file: it may be missing or empty, and its first line may hold no meta record. */
  datatype TableFile =
    | Unopened | NoLines | MetaLineBroken | MetaMissing | MetaBroken
    | TableFile(meta: Meta, lines: seq<Option<Row>>, scannerFailed: bool)

  datatype Finding =
    | Unreadable(file: TableFile)
    | ScannerError
    | WrongTable
    | ParseError(row: nat)
    | MissingField(row: nat, column: string)
    | InvalidJSON(row: nat, column: string)
    | MetaCount
    | ManifestCount
    | MetaChecksum
    | ManifestChecksum

  datatype TableReport = TableReport(
    discovered: nat, accepted: nat, rejected: nat, checksum: string, errors: seq<Finding>)

  /** The checksum the validator uses for a parsed row: the stored one, or else its own. */
  function EffectiveChecksum(h: string -> string, text: RowText, row: Row): string {
    if STORED in row && row[STORED].Str? && row[STORED].s != "" then row[STORED].s
    else h(text.validator(Comparable(row)))
  }

  /** The stored checksum counts if there is one; otherwise the line is hashed without `id` and `_row_checksum`. */
  lemma EffectiveChecksumIs(h: string -> string, text: RowText, row: Row)
    ensures EffectiveChecksum(h, text, row) ==
              if "_row_checksum" in row && row["_row_checksum"].Str? && row["_row_checksum"] != Str("")
              then row["_row_checksum"].s
              else h(text.validator(row - {"id", "_row_checksum"}))
  {
    assert Comparable(row) == row - {"id", "_row_checksum"};
  }

  predicate BadJSON(e: Expectation, row: Row, column: string) {
    column in row && row[column].Str? && row[column].s != "" && !e.validJSON(row[column].s)
  }

  /** A line is accepted when it parses and, in a canonical table, has its fields and valid JSON. */
  predicate Accepted(e: Expectation, line: Option<Row>) {
    line.Some? && (e.canonical ==>
      && (forall c :: c in e.required ==> c in line.value)
      && (forall c :: c in e.jsonColumns ==> !BadJSON(e, line.value, c)))
  }

  function CountAccepted(e: Expectation, lines: seq<Option<Row>>): nat {
    if lines == [] then 0
    else CountAccepted(e, lines[..|lines| - 1]) + if Accepted(e, lines[|lines| - 1]) then 1 else 0
  }

  /** The checksums of the lines that parse. */
  function LineChecksums(h: string -> string, text: RowText, lines: seq<Option<Row>>): seq<string> {
    if lines == [] then []
    else
      var last := lines[|lines| - 1];
      LineChecksums(h, text, lines[..|lines| - 1])
      + if last.Some? then [EffectiveChecksum(h, text, last.value)] else []
  }

  predicate RowFinding(f: Finding) {
    f.ParseError? || f.MissingField? || f.InvalidJSON?
  }

  /** What is wrong with a line: it does not parse, lacks a required field, or, with all of them, holds broken JSON. */
  predicate LineFinding(e: Expectation, line: Option<Row>, row: nat, f: Finding) {
    match f
    case ParseError(r) => r == row && line.None?
    case MissingField(r, c) => r == row && line.Some? && e.canonical && c in e.required && c !in line.value
    case InvalidJSON(r, c) =>
      && r == row && line.Some? && e.canonical && (forall x :: x in e.required ==> x in line.value)
      && c in e.jsonColumns && c in line.value
      && line.value[c].Str? && line.value[c].s != "" && !e.validJSON(line.value[c].s)
    case _ => false
  }

  /** The checks on one line, appended to the errors so far. */
  method CheckLine(e: Expectation, line: Option<Row>, row: nat, before: seq<Finding>)
    returns (errors: seq<Finding>, accepted: bool)
    ensures accepted <==> Accepted(e, line)
    ensures accepted <==> errors == before
    ensures |before| <= |errors| && errors[..|before|] == before
    ensures forall k :: |before| <= k < |errors| ==> RowFinding(errors[k])
    ensures forall f :: f in errors <==> f in before || LineFinding(e, line, row, f)
  {
    errors := before;
    if line.None? {
      return errors + [ParseError(row)], false;
    }
    if e.canonical {
      var missingRequired := false;
      for i := 0 to |e.required|
        invariant missingRequired <==> exists k :: 0 <= k < i && e.required[k] !in line.value
        invariant missingRequired <==> errors != before
        invariant |before| <= |errors| && errors[..|before|] == before
        invariant forall k :: |before| <= k < |errors| ==> RowFinding(errors[k])
        invariant forall f :: f in errors <==>
                    || f in before
                    || (f.MissingField? && f.row == row && f.column in e.required[..i] && f.column !in line.value)
      {
        if e.required[i] !in line.value {
          errors := errors + [MissingField(row, e.required[i])];
          missingRequired := true;
        }
      }
      if missingRequired {
        return errors, false;
      }
      var invalidJSON := false;
      for i := 0 to |e.jsonColumns|
        invariant invalidJSON <==> exists k :: 0 <= k < i && BadJSON(e, line.value, e.jsonColumns[k])
        invariant invalidJSON <==> errors != before
        invariant |before| <= |errors| && errors[..|before|] == before
        invariant forall k :: |before| <= k < |errors| ==> RowFinding(errors[k])
        invariant forall f :: f in errors <==>
                    || f in before
                    || (f.InvalidJSON? && f.row == row && f.column in e.jsonColumns[..i]
                        && BadJSON(e, line.value, f.column))
      {
        if BadJSON(e, line.value, e.jsonColumns[i]) {
          errors := errors + [InvalidJSON(row, e.jsonColumns[i])];
          invalidJSON := true;
        }
      }
      if invalidJSON {
        return errors, false;
      }
    }
    accepted := true;
  }

  /** The scanner loop over the row lines. */
  method ScanRows(h: string -> string, text: RowText, e: Expectation, lines: seq<Option<Row>>, before: seq<Finding>)
    returns (accepted: nat, rejected: nat, rowChecksums: seq<string>, errors: seq<Finding>)
    requires forall f :: f in before ==> f == WrongTable
    ensures accepted + rejected == |lines| && accepted == CountAccepted(e, lines)
    ensures rowChecksums == LineChecksums(h, text, lines)
    ensures errors == [] <==> before == [] && rejected == 0
    ensures forall f :: f in errors ==> f == WrongTable || RowFinding(f)
    ensures forall f :: f in errors <==> f in before || LinesFinding(e, lines, f)
  {
    hide Accepted, EffectiveChecksum, LineFinding, RowFinding;
    assert lines[..0] == [];
    accepted, rejected, rowChecksums, errors := 0, 0, [], before;
    var rowCount := 0;
    while rowCount < |lines|
      invariant 0 <= rowCount <= |lines| && accepted + rejected == rowCount
      invariant accepted == CountAccepted(e, lines[..rowCount])
      invariant rowChecksums == LineChecksums(h, text, lines[..rowCount])
      invariant errors == [] <==> before == [] && rejected == 0
      invariant forall f :: f in errors ==> f == WrongTable || RowFinding(f)
      invariant forall f :: f in errors <==> f in before || LinesFinding(e, lines[..rowCount], f)
    {
      FindingsNext(e, lines, rowCount);
      var line := lines[rowCount];
      assert lines[..rowCount + 1][..rowCount] == lines[..rowCount];
      rowCount := rowCount + 1;
      if line.Some? {
        rowChecksums := rowChecksums + [EffectiveChecksum(h, text, line.value)];
      }
      var ok: bool;
      ghost var earlier := errors;
      errors, ok := CheckLine(e, line, rowCount, errors);
      FindingsKept(earlier, errors);
      if ok {
        accepted := accepted + 1;
      } else {
        rejected := rejected + 1;
      }
    }
    assert lines[..rowCount] == lines;
  }

  /** The finding concerns one of the lines, counted from one. */
  ghost predicate LinesFinding(e: Expectation, lines: seq<Option<Row>>, f: Finding) {
    exists k :: 0 <= k < |lines| && LineFinding(e, lines[k], k + 1, f)
  }

  lemma FindingsNext(e: Expectation, lines: seq<Option<Row>>, n: nat)
    requires n < |lines|
    ensures forall f :: LinesFinding(e, lines[..n + 1], f) <==>
                        LinesFinding(e, lines[..n], f) || LineFinding(e, lines[n], n + 1, f)
  {
    hide LineFinding;
    var (longer, shorter) := (lines[..n + 1], lines[..n]);
    forall f ensures LinesFinding(e, longer, f) <==> LinesFinding(e, shorter, f) || LineFinding(e, lines[n], n + 1, f) {
      if LinesFinding(e, shorter, f) {
        var k :| 0 <= k < n && LineFinding(e, shorter[k], k + 1, f);
        assert LineFinding(e, longer[k], k + 1, f);
      }
      if LineFinding(e, lines[n], n + 1, f) {
        assert LineFinding(e, longer[n], n + 1, f);
      }
      if LinesFinding(e, longer, f) {
        var k :| 0 <= k <= n && LineFinding(e, longer[k], k + 1, f);
        assert k < n ==> LineFinding(e, shorter[k], k + 1, f);
      }
    }
  }

  lemma FindingKinds(e: Expectation, lines: seq<Option<Row>>)
    ensures forall f :: LinesFinding(e, lines, f) ==> RowFinding(f)
  {
  }

  lemma FindingsKept(earlier: seq<Finding>, errors: seq<Finding>)
    requires |earlier| <= |errors| && errors[..|earlier|] == earlier
    requires forall k :: |earlier| <= k < |errors| ==> RowFinding(errors[k])
    requires forall f :: f in earlier ==> f == WrongTable || RowFinding(f)
    ensures forall f :: f in errors ==> f == WrongTable || RowFinding(f)
  {
    forall k | 0 <= k < |errors| ensures errors[k] == WrongTable || RowFinding(errors[k]) {
      if k < |earlier| {
        assert errors[k] == earlier[k] && earlier[k] in earlier;
      }
    }
  }

  /** Validation of one table file. Without a meta record there is nothing but the reason. */
  method ValidateTable(h: string -> string, text: RowText, e: Expectation, file: TableFile) returns (tr: TableReport)
    ensures tr.accepted + tr.rejected == tr.discovered
    ensures !file.TableFile? ==> tr == TableReport(0, 0, 0, "", [Unreadable(file)])
    ensures file.TableFile? ==> Judged(h, text, e, file.meta, file.lines, file.scannerFailed, tr)
  {
    if !file.TableFile? {
      return TableReport(0, 0, 0, "", [Unreadable(file)]);
    }
    tr := ValidateRows(h, text, e, file.meta, file.lines, file.scannerFailed);
  }

  /** What a report says about a table file with a meta record. */
  ghost predicate Judged(h: string -> string, text: RowText, e: Expectation, meta: Meta,
                   lines: seq<Option<Row>>, scannerFailed: bool, tr: TableReport)
  {
    && tr.discovered == |lines| && tr.accepted + tr.rejected == tr.discovered
    && tr.accepted == CountAccepted(e, lines)
    && tr.checksum == ListChecksum(h, LineChecksums(h, text, lines))
    && (forall f :: RowFinding(f) ==> (f in tr.errors <==> LinesFinding(e, lines, f)))
    && (WrongTable in tr.errors <==> meta.table != e.table)
    && (ScannerError in tr.errors <==> scannerFailed)
    && (MetaCount in tr.errors <==> meta.rowCount != |lines|)
    && (ManifestCount in tr.errors <==> e.rowCount != |lines|)
    && (MetaChecksum in tr.errors <==> meta.checksum != "" && meta.checksum != tr.checksum)
    && (ManifestChecksum in tr.errors <==> e.checksum != "" && e.checksum != tr.checksum)
    && (tr.errors == [] <==>
          && !scannerFailed && meta.table == e.table && tr.rejected == 0
          && meta.rowCount == |lines| && e.rowCount == |lines|
          && (meta.checksum == "" || meta.checksum == tr.checksum)
          && (e.checksum == "" || e.checksum == tr.checksum))
  }

  /** The closing comparisons of counts and checksums, on errors that concern the table name and rows only. */
  method CloseReport(e: Expectation, meta: Meta, count: nat, calculated: string, scannerFailed: bool,
                     before: seq<Finding>)
    returns (errors: seq<Finding>)
    requires forall f :: f in before ==> f == WrongTable || RowFinding(f)
    ensures forall f :: f in before ==> f in errors
    ensures forall f :: f in errors && (f == WrongTable || RowFinding(f)) ==> f in before
    ensures ScannerError in errors <==> scannerFailed
    ensures MetaCount in errors <==> meta.rowCount != count
    ensures ManifestCount in errors <==> e.rowCount != count
    ensures MetaChecksum in errors <==> meta.checksum != "" && meta.checksum != calculated
    ensures ManifestChecksum in errors <==> e.checksum != "" && e.checksum != calculated
    ensures errors == [] <==>
              && before == [] && !scannerFailed && meta.rowCount == count && e.rowCount == count
              && (meta.checksum == "" || meta.checksum == calculated)
              && (e.checksum == "" || e.checksum == calculated)
  {
    errors := before;
    if scannerFailed {
      errors := errors + [ScannerError];
    }
    if meta.rowCount != count {
      errors := errors + [MetaCount];
    }
    if e.rowCount != count {
      errors := errors + [ManifestCount];
    }
    if meta.checksum != "" && meta.checksum != calculated {
      errors := errors + [MetaChecksum];
    }
    if e.checksum != "" && e.checksum != calculated {
      errors := errors + [ManifestChecksum];
    }
  }

  method ValidateRows(h: string -> string, text: RowText, e: Expectation, meta: Meta,
                      lines: seq<Option<Row>>, scannerFailed: bool)
    returns (tr: TableReport)
    ensures Judged(h, text, e, meta, lines, scannerFailed, tr)
  {
    hide CountAccepted, LineChecksums, ListChecksum, LinesFinding;
    FindingKinds(e, lines);
    var accepted, rejected, rowChecksums, errors :=
      ScanRows(h, text, e, lines, if meta.table != e.table then [WrongTable] else []);
    var calculated := ListChecksum(h, rowChecksums);
    errors := CloseReport(e, meta, |lines|, calculated, scannerFailed, errors);
    tr := TableReport(|lines|, accepted, rejected, calculated, errors);
  }

  /** The lines hold the exported rows in some order: line `i` parses and carries the checksum
      stored with row `order[i]`.  The other fields may read back in any form. */
  ghost predicate CarriesExport(h: string -> string, text: RowText, rows: seq<Row>,
                                lines: seq<Option<Row>>, order: seq<nat>)
  {
    && |lines| == |rows| == |order|
    && multiset(order) == multiset(seq(|rows|, (i: nat) => i))
    && (forall i :: 0 <= i < |order| ==> order[i] < |rows|)
    && forall i :: 0 <= i < |lines| ==>
         lines[i].Some? && STORED in lines[i].value
         && lines[i].value[STORED] == Str(h(text.exporter(WithoutID(rows[order[i]]))))
  }

  lemma {:induction false} LineChecksumsAt(h: string -> string, text: RowText, lines: seq<Option<Row>>)
    requires forall i :: 0 <= i < |lines| ==> lines[i].Some?
    ensures |LineChecksums(h, text, lines)| == |lines|
    ensures forall i :: 0 <= i < |lines| ==>
              LineChecksums(h, text, lines)[i] == EffectiveChecksum(h, text, lines[i].value)
  {
    if lines != [] {
      LineChecksumsAt(h, text, lines[..|lines| - 1]);
    }
  }

  /** Lines that carry an export in any order give the exporter's table checksum. */
  lemma {:induction false} ExportValidates(h: string -> string, text: RowText, rows: seq<Row>,
                                           lines: seq<Option<Row>>, order: seq<nat>)
    requires Digest(h) && CarriesExport(h, text, rows, lines, order)
    ensures ListChecksum(h, LineChecksums(h, text, lines)) == ListChecksum(h, StoredChecksums(h, text, rows))
  {
    hide ListChecksum, LineChecksums;
    LineChecksumsAt(h, text, lines);
    var (found, stored) := (LineChecksums(h, text, lines), StoredChecksums(h, text, rows));
    var positions := seq(|rows|, (i: nat) => i);
    forall i | 0 <= i < |lines| ensures found[i] == stored[order[i]] {
      assert |h(text.exporter(WithoutID(rows[order[i]])))| == DIGEST_LENGTH;
    }
    ImageMultisets(positions, stored, order, found);
    SameChecksum(h, found, stored);
  }

  lemma SameChecksum(h: string -> string, xs: seq<string>, ys: seq<string>)
    requires multiset(xs) == multiset(ys)
    ensures ListChecksum(h, xs) == ListChecksum(h, ys)
  {
    hide Sort, JoinLines;
    assert |multiset(xs)| == |xs| && |multiset(ys)| == |ys|;
    SortOfPermutation(xs, ys);
  }

  /** An order of `n` positions. */
  predicate Permutation(order: seq<nat>, n: nat) {
    |order| == n && multiset(order) == multiset(seq(n, (i: nat) => i))
  }

  lemma PermutationInRange(order: seq<nat>, n: nat)
    requires Permutation(order, n)
    ensures forall i :: 0 <= i < n ==> order[i] < n
  {
    forall i | 0 <= i < n ensures order[i] < n {
      assert order[i] in multiset(order);
      assert order[i] in seq(n, (i: nat) => i);
    }
  }

  /** Writing and reading a row line may change any field but the stored checksum. */
  ghost predicate KeepsStored(readBack: Row -> Row) {
    forall row :: STORED in row ==> STORED in readBack(row) && readBack(row)[STORED] == row[STORED]
  }

  /**
   * Export, reorder and validate: with the manifest's count and checksum taken from the export and its row lines in
   * any order, no row-count and no checksum error is reported; outside the canonical tables no error at all.
   */
  method ExportAndValidate(h: string -> string, text: RowText, columns: seq<string>, rows: seq<Row>, timestamp: string,
                           sourcePath: string, order: seq<nat>, readBack: Row -> Row, checks: Expectation)
    returns (tr: TableReport)
    requires Digest(h) && Permutation(order, |rows|) && KeepsStored(readBack)
    ensures MetaCount !in tr.errors && ManifestCount !in tr.errors
    ensures MetaChecksum !in tr.errors && ManifestChecksum !in tr.errors
    ensures !checks.canonical ==> tr.errors == [] && tr.accepted == |rows|
  {
    hide ListChecksum, LineChecksums, CountAccepted;
    var cursor := Cursor(seq(|rows|, i requires 0 <= i < |rows| => Some(rows[i])), false);
    assert Delivers(cursor, rows);
    var out := ExportTable(h, text, checks.table, Some(columns), cursor, timestamp, sourcePath);
    var (meta, exported) := out.value;
    PermutationInRange(order, |rows|);
    var lines := seq(|rows|, i requires 0 <= i < |rows| => Some(readBack(exported[order[i]])));
    Carried(h, text, rows, lines, order, readBack);
    ExportValidates(h, text, rows, lines, order);
    var e := checks.(rowCount := meta.rowCount, checksum := meta.checksum);
    tr := ValidateTable(h, text, e, TableFile(meta, lines, false));
    if !checks.canonical {
      AllAccepted(e, lines);
    }
  }

  lemma Carried(h: string -> string, text: RowText, rows: seq<Row>, lines: seq<Option<Row>>, order: seq<nat>,
                readBack: Row -> Row)
    requires Permutation(order, |rows|) && |lines| == |rows| && KeepsStored(readBack)
    requires forall i :: 0 <= i < |rows| ==> order[i] < |rows|
    requires forall i :: 0 <= i < |rows| ==> lines[i] == Some(readBack(ExportedRow(h, text, rows[order[i]])))
    ensures CarriesExport(h, text, rows, lines, order)
  {
  }

  lemma {:induction false} AllAccepted(e: Expectation, lines: seq<Option<Row>>)
    requires !e.canonical && forall i :: 0 <= i < |lines| ==> lines[i].Some?
    ensures CountAccepted(e, lines) == |lines|
  {
    if lines != [] {
      AllAccepted(e, lines[..|lines| - 1]);
    }
  }

  // ---------- What a checksum cannot miss ----------

  function Breaks(s: string): nat {
    if s == "" then 0 else (if s[0] == '\n' then 1 else 0) + Breaks(s[1..])
  }

  function TotalBreaks(xs: seq<string>): nat {
    if xs == [] then 0 else Breaks(xs[0]) + TotalBreaks(xs[1..])
  }

  lemma {:induction false} BreaksConcat(a: string, b: string)
    ensures Breaks(a + b) == Breaks(a) + Breaks(b)
  {
    if a == "" {
      assert a + b == b;
    } else {
      assert (a + b)[1..] == a[1..] + b;
      BreaksConcat(a[1..], b);
    }
  }

  lemma {:induction false} NoBreaksIff(s: string)
    ensures Breaks(s) == 0 <==> '\n' !in s
  {
    if s != "" {
      NoBreaksIff(s[1..]);
      assert s == [s[0]] + s[1..];
    }
  }

  lemma {:induction false} LineFreeIff(xs: seq<string>)
    ensures TotalBreaks(xs) == 0 <==> LineFree(xs)
  {
    hide Breaks;
    if xs != [] {
      NoBreaksIff(xs[0]);
      LineFreeIff(xs[1..]);
      assert xs == [xs[0]] + xs[1..];
    }
  }

  lemma OneBreak()
    ensures Breaks("\n") == 1 && Breaks("") == 0
  {
    assert "\n"[1..] == "";
  }

  lemma {:induction false} JoinBreaks(xs: seq<string>)
    ensures Breaks(JoinLines(xs)) == TotalBreaks(xs) + if xs == [] then 0 else |xs| - 1
  {
    hide Breaks;
    OneBreak();
    if |xs| == 1 {
      assert xs[1..] == [];
    } else if xs != [] {
      JoinBreaks(xs[1..]);
      BreaksConcat(xs[0] + "\n", JoinLines(xs[1..]));
      BreaksConcat(xs[0], "\n");
    }
  }

  /** A list as long as one without line breaks, with the same join, is that list. */
  lemma SameJoin(xs: seq<string>, ys: seq<string>)
    requires |xs| == |ys| && LineFree(ys) && JoinLines(xs) == JoinLines(ys)
    ensures xs == ys
  {
    hide Breaks, JoinLines, LineFree;
    JoinBreaks(xs);
    JoinBreaks(ys);
    LineFreeIff(xs);
    LineFreeIff(ys);
    if xs != [] {
      JoinInjective(xs, ys);
    }
  }

  /**
   * Whatever the lines hold, count and table checksum agree with the exporter's exactly when the checksums of the
   * lines are the stored ones as a multiset, if the two joined texts do not collide.
   */
  lemma {:induction false} ChecksumAgreesIff(h: string -> string, text: RowText, rows: seq<Row>,
                                             lines: seq<Option<Row>>)
    requires Digest(h)
    requires CollisionFree(h, {JoinLines(Sort(LineChecksums(h, text, lines))),
                               JoinLines(Sort(StoredChecksums(h, text, rows)))})
    ensures |LineChecksums(h, text, lines)| == |rows|
            && ListChecksum(h, LineChecksums(h, text, lines)) == ListChecksum(h, StoredChecksums(h, text, rows))
       <==> multiset(LineChecksums(h, text, lines)) == multiset(StoredChecksums(h, text, rows))
  {
    hide Sort, JoinLines, LineChecksums, LineFree;
    var (found, stored) := (LineChecksums(h, text, lines), StoredChecksums(h, text, rows));
    assert |multiset(found)| == |found| && |multiset(stored)| == |stored|;
    assert LineFree(stored) by { StoredLineFree(h, text, rows); }
    if |found| == |rows| && ListChecksum(h, found) == ListChecksum(h, stored) {
      SortedLineFree(found);
      SortedLineFree(stored);
      if found != [] {
        SameJoin(Sort(found), Sort(stored));
        assert multiset(Sort(found)) == multiset(found) && multiset(Sort(stored)) == multiset(stored);
      }
    }
    if multiset(found) == multiset(stored) {
      SameChecksum(h, found, stored);
    }
  }

  lemma StoredLineFree(h: string -> string, text: RowText, rows: seq<Row>)
    requires Digest(h)
    ensures LineFree(StoredChecksums(h, text, rows))
  {
    forall x | x in StoredChecksums(h, text, rows) ensures '\n' !in x {
      var i :| 0 <= i < |rows| && StoredChecksums(h, text, rows)[i] == x;
      assert x == h(text.exporter(WithoutID(rows[i])));
    }
  }
}
