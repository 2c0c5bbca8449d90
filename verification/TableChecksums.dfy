/** Order-independent table checksums: hash each row's canonical text, sort the
    hashes, hash their join.  The hash function is a parameter.  It is never
    assumed injective everywhere, only free of collisions among the texts hashed. */
module TableChecksums {
  import opened Basics
  import opened StringOrder
  import opened CanonicalJson
  import T = Text

  const DIGEST_LENGTH := 64

  /** Digests as a SHA-256 in hexadecimal: of fixed length, and without line breaks. */
  ghost predicate Digest(h: string -> string) {
    forall s :: |h(s)| == DIGEST_LENGTH && '\n' !in h(s)
  }

  ghost predicate CollisionFree(h: string -> string, texts: set<string>) {
    forall a, b :: a in texts && b in texts && h(a) == h(b) ==> a == b
  }

  /** What a row contributes to the checksum: everything but its id and its stored checksum. */
  function Comparable(row: Row): Row {
    map k | k in row && k != "id" && k != "_row_checksum" :: row[k]
  }

  function ComparableRows(rows: seq<Row>): seq<Row> {
    seq(|rows|, i requires 0 <= i < |rows| => Comparable(rows[i]))
  }

  ghost function RowText(row: Row): string {
    Enc(Object(Comparable(row)))
  }

  ghost function RowTexts(rows: seq<Row>): seq<string> {
    seq(|rows|, i requires 0 <= i < |rows| => RowText(rows[i]))
  }

  ghost function RowHashes(h: string -> string, rows: seq<Row>): (r: seq<string>)
    ensures |r| == |rows|
  {
    seq(|rows|, i requires 0 <= i < |rows| => h(RowText(rows[i])))
  }

  function JoinLines(xs: seq<string>): string {
    T.Join(xs, '\n')
  }

  ghost function TableChecksum(h: string -> string, rows: seq<Row>): string {
    if rows == [] then "" else h(JoinLines(Sort(RowHashes(h, rows))))
  }

  /** Every text the checksum of a table hashes. */
  ghost function HashedTexts(h: string -> string, rows: seq<Row>): set<string> {
    Elements(RowTexts(rows)) + {JoinLines(Sort(RowHashes(h, rows)))}
  }

  ghost predicate WellFormedRow(row: Row) {
    forall k :: k in row ==> WellFormed(row[k])
  }

  ghost predicate WellFormedRows(rows: seq<Row>) {
    forall r :: r in rows ==> WellFormedRow(r)
  }

  method ComputeChecksums(h: string -> string, rows: seq<Row>) returns (checksum: string)
    ensures checksum == TableChecksum(h, rows)
    ensures rows == [] ==> checksum == ""
  {
    if |rows| == 0 {
      return "";
    }
    var checksums := [];
    var i := 0;
    while i < |rows|
      invariant 0 <= i <= |rows|
      invariant checksums == RowHashes(h, rows)[..i]
    {
      var rowCopy := Comparable(rows[i]);
      var text := CanonicalJSONBytes(rowCopy);
      assert text == RowText(rows[i]);
      assert RowHashes(h, rows)[i] == h(RowText(rows[i]));
      checksums := checksums + [h(text)];
      i := i + 1;
    }
    assert checksums == RowHashes(h, rows);
    return h(JoinLines(Sort(checksums)));
  }

  // ---------- Joins of pieces without line breaks ----------

  predicate LineFree(xs: seq<string>) {
    forall x :: x in xs ==> '\n' !in x
  }

  /** Lists of digests can be read back from their join. */
  lemma {:induction false} JoinInjective(xs: seq<string>, ys: seq<string>)
    requires xs != [] && ys != [] && LineFree(xs) && LineFree(ys)
    requires JoinLines(xs) == JoinLines(ys)
    ensures xs == ys
  {
    T.SplitJoin(xs, '\n');
    T.SplitJoin(ys, '\n');
  }

  // ---------- Multisets of images ----------

  /** `fx` lists the images of `xs`, and `fy` those of `ys`, under one mapping. */
  ghost predicate Follows<A(!new), B(!new)>(xs: seq<A>, fx: seq<B>, ys: seq<A>, fy: seq<B>) {
    && |xs| == |fx| && |ys| == |fy|
    && forall i, j :: 0 <= i < |xs| && 0 <= j < |ys| ==> (xs[i] == ys[j] ==> fx[i] == fy[j])
  }

  function Without<T>(xs: seq<T>, j: nat): seq<T>
    requires j < |xs|
  {
    xs[..j] + xs[j + 1..]
  }

  lemma WithoutMultiset<T>(xs: seq<T>, j: nat)
    requires j < |xs|
    ensures multiset(xs) == multiset(Without(xs, j)) + multiset{xs[j]}
    ensures |Without(xs, j)| == |xs| - 1
  {
    assert xs == xs[..j] + [xs[j]] + xs[j + 1..];
  }

  lemma WithoutFollows<A(!new), B(!new)>(xs: seq<A>, fx: seq<B>, ys: seq<A>, fy: seq<B>, j: nat)
    requires Follows(xs, fx, ys, fy) && xs != [] && j < |ys|
    ensures Follows(Without(xs, 0), Without(fx, 0), Without(ys, j), Without(fy, j))
    ensures xs[0] == ys[j] ==> fx[0] == fy[j]
  {
    var (n, m) := (|xs| - 1, |ys| - 1);
    assert forall i :: 0 <= i < n ==> Without(xs, 0)[i] == xs[i + 1] && Without(fx, 0)[i] == fx[i + 1];
    assert forall i :: 0 <= i < m ==> Without(ys, j)[i] == ys[if i < j then i else i + 1];
    assert forall i :: 0 <= i < m ==> Without(fy, j)[i] == fy[if i < j then i else i + 1];
  }

  lemma SameElements<T>(xs: seq<T>, ys: seq<T>)
    requires multiset(xs) == multiset(ys)
    ensures |xs| == |ys|
    ensures xs != [] ==> exists j :: 0 <= j < |ys| && ys[j] == xs[0]
  {
    assert |multiset(xs)| == |xs| && |multiset(ys)| == |ys|;
    if xs != [] {
      assert xs[0] in multiset(xs);
      assert xs[0] in ys;
    }
  }

  lemma SameRest<T>(x: T, a: multiset<T>, b: multiset<T>)
    requires a + multiset{x} == b + multiset{x}
    ensures a == b
  {
    assert a == (a + multiset{x}) - multiset{x} && b == (b + multiset{x}) - multiset{x};
  }

  /** Equal multisets have equal multisets of images. */
  lemma {:induction false} ImageMultisets<A(!new), B(!new)>(xs: seq<A>, fx: seq<B>, ys: seq<A>, fy: seq<B>)
    requires Follows(xs, fx, ys, fy) && multiset(xs) == multiset(ys)
    ensures multiset(fx) == multiset(fy)
  {
    SameElements(xs, ys);
    assert |fx| == |xs| && |fy| == |ys|;
    hide Follows, Without;
    if xs == [] {
      assert fx == [] && fy == [];
    } else {
      var j :| 0 <= j < |ys| && ys[j] == xs[0];
      WithoutMultiset(xs, 0);
      WithoutMultiset(ys, j);
      WithoutMultiset(fx, 0);
      WithoutMultiset(fy, j);
      WithoutFollows(xs, fx, ys, fy, j);
      SameRest(xs[0], multiset(Without(xs, 0)), multiset(Without(ys, j)));
      ImageMultisets(Without(xs, 0), Without(fx, 0), Without(ys, j), Without(fy, j));
    }
  }

  // ---------- The checksum decides equality of row multisets ----------

  /** Rows are told apart by their hashes exactly when they differ outside `id` and `_row_checksum`. */
  lemma {:induction false} HashesSeparateRows(h: string -> string, a: seq<Row>, b: seq<Row>)
    requires WellFormedRows(a) && WellFormedRows(b)
    requires CollisionFree(h, Elements(RowTexts(a)) + Elements(RowTexts(b)))
    ensures Follows(ComparableRows(a), RowHashes(h, a), ComparableRows(b), RowHashes(h, b))
    ensures Follows(RowHashes(h, a), ComparableRows(a), RowHashes(h, b), ComparableRows(b))
  {
    forall i, j | 0 <= i < |a| && 0 <= j < |b|
      ensures Comparable(a[i]) == Comparable(b[j]) <==> h(RowText(a[i])) == h(RowText(b[j]))
    {
      assert a[i] in a && b[j] in b;
      CanonicalUnambiguous(Object(Comparable(a[i])), Object(Comparable(b[j])));
      assert RowTexts(a)[i] in Elements(RowTexts(a)) && RowTexts(b)[j] in Elements(RowTexts(b));
    }
  }

  /** Listing the rows of a table in another order never changes its checksum. */
  lemma {:induction false} ChecksumIgnoresOrder(h: string -> string, a: seq<Row>, b: seq<Row>)
    requires multiset(a) == multiset(b)
    ensures TableChecksum(h, a) == TableChecksum(h, b)
  {
    assert |multiset(a)| == |a| && |multiset(b)| == |b|;
    ImageMultisets(a, RowHashes(h, a), b, RowHashes(h, b));
    SortOfPermutation(RowHashes(h, a), RowHashes(h, b));
  }

  lemma ComparableRowsAre(rows: seq<Row>)
    ensures ComparableRows(rows) == seq(|rows|, i requires 0 <= i < |rows| => rows[i] - {"id", "_row_checksum"})
  {
    forall i | 0 <= i < |rows| ensures Comparable(rows[i]) == rows[i] - {"id", "_row_checksum"} {
    }
  }

  /** Two tables have the same checksum iff their rows without `id` and `_row_checksum` are the same multiset. */
  lemma {:induction false} ChecksumsEqualIff(h: string -> string, a: seq<Row>, b: seq<Row>)
    requires Digest(h) && WellFormedRows(a) && WellFormedRows(b)
    requires CollisionFree(h, HashedTexts(h, a) + HashedTexts(h, b))
    ensures TableChecksum(h, a) == TableChecksum(h, b)
       <==> multiset(seq(|a|, i requires 0 <= i < |a| => a[i] - {"id", "_row_checksum"}))
            == multiset(seq(|b|, i requires 0 <= i < |b| => b[i] - {"id", "_row_checksum"}))
  {
    ComparableRowsAre(a);
    ComparableRowsAre(b);
    ChecksumsDecide(h, a, b);
  }

  lemma {:induction false} ChecksumsDecide(h: string -> string, a: seq<Row>, b: seq<Row>)
    requires Digest(h) && WellFormedRows(a) && WellFormedRows(b)
    requires CollisionFree(h, HashedTexts(h, a) + HashedTexts(h, b))
    ensures TableChecksum(h, a) == TableChecksum(h, b)
       <==> multiset(ComparableRows(a)) == multiset(ComparableRows(b))
  {
    HashesSeparateRows(h, a, b);
    var (ha, hb) := (RowHashes(h, a), RowHashes(h, b));
    if multiset(ComparableRows(a)) == multiset(ComparableRows(b)) {
      assert |multiset(ComparableRows(a))| == |a| && |multiset(ComparableRows(b))| == |b|;
      ImageMultisets(ComparableRows(a), ha, ComparableRows(b), hb);
      SortOfPermutation(ha, hb);
    }
    if TableChecksum(h, a) == TableChecksum(h, b) {
      assert |TableChecksum(h, a)| == if a == [] then 0 else DIGEST_LENGTH;
      assert |TableChecksum(h, b)| == if b == [] then 0 else DIGEST_LENGTH;
      if a != [] {
        SortedLineFree(ha);
        SortedLineFree(hb);
        JoinInjective(Sort(ha), Sort(hb));
        assert multiset(ha) == multiset(hb);
        ImageMultisets(ha, ComparableRows(a), hb, ComparableRows(b));
      } else {
        assert ComparableRows(a) == [] && ComparableRows(b) == [];
      }
    }
  }

  /** Another value under any key but these two, in any row, changes the checksum. */
  lemma {:induction false} ChangeNoticed(h: string -> string, rows: seq<Row>, i: nat, key: string, value: Value)
    requires i < |rows| && key !in {"id", "_row_checksum"}
    requires key in rows[i] ==> rows[i][key] != value
    requires var changed := rows[i := rows[i][key := value]];
             && Digest(h) && WellFormedRows(rows) && WellFormedRows(changed)
             && CollisionFree(h, HashedTexts(h, rows) + HashedTexts(h, changed))
    ensures TableChecksum(h, rows[i := rows[i][key := value]]) != TableChecksum(h, rows)
  {
    hide Digest, WellFormedRows, CollisionFree, HashedTexts, TableChecksum, Comparable;
    var changed := rows[i := rows[i][key := value]];
    ChecksumsDecide(h, rows, changed);
    ComparableRowsAre(rows);
    ComparableRowsAre(changed);
    var (was, now) := (ComparableRows(rows), ComparableRows(changed));
    assert now == was[i := now[i]];
    assert key in now[i] && now[i][key] == value;
    assert key in was[i] ==> was[i][key] == rows[i][key];
    OneReplaced(was, i, now[i]);
  }

  lemma OneReplaced<T>(xs: seq<T>, i: nat, y: T)
    requires i < |xs| && xs[i] != y
    ensures multiset(xs[i := y]) != multiset(xs)
  {
    assert xs == xs[..i] + [xs[i]] + xs[i + 1..];
    assert xs[i := y] == xs[..i] + [y] + xs[i + 1..];
    assert multiset(xs[i := y])[y] == multiset(xs[..i])[y] + 1 + multiset(xs[i + 1..])[y];
  }

  lemma SortedLineFree(xs: seq<string>)
    ensures LineFree(xs) <==> LineFree(Sort(xs))
    ensures |Sort(xs)| == |xs|
  {
    assert |multiset(Sort(xs))| == |Sort(xs)| && |multiset(xs)| == |xs|;
    assert forall x :: x in xs <==> x in multiset(xs);
    assert forall x :: x in Sort(xs) <==> x in multiset(Sort(xs));
  }
}
