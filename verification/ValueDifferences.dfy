/** What the unbounded diffs are: exactly one diff at every position where the two trees disagree.
    Positions are looked up directly in both trees, independently of the comparison's recursion. */
module ValueDifferences {
  import opened Basics
  import opened Text
  import opened ValueCompare

  /** The value at a position of a tree, if there is one. */
  function At(v: Value, p: Path): Option<Value> {
    if p == [] then Some(v)
    else match p[0]
      case Key(k) => if v.Object? && k in v.fields then At(v.fields[k], p[1..]) else None
      case Index(i) => if v.Array? && i < |v.items| then At(v.items[i], p[1..]) else None
  }

  /** How two trees disagree at position `p`: both have a value there and these differ themselves,
      or two objects have a key there that only one of them holds. */
  function DiffAt(py: Value, go: Value, base: Path, p: Path): Option<Diff> {
    var (a, b) := (At(py, p), At(go, p));
    if a.Some? && b.Some? then HeadDiff(a.value, b.value, base + p)
    else if p == [] || p[|p| - 1].Index? then None
    else
      var q := p[..|p| - 1];
      var (x, y) := (At(py, q), At(go, q));
      if x.Some? && y.Some? && x.value.Object? && y.value.Object? && (a.Some? || b.Some?)
      then Some(MissingDiff(base + q, p[|p| - 1].name, a.Some?)) else None
  }

  /** `d` is what the disagreement at its own position is reported as. */
  predicate Expected(py: Value, go: Value, base: Path, d: Diff) {
    && |base| <= |d.path| && d.path[..|base|] == base
    && var e := DiffAt(py, go, base, d.path[|base|..]);
       e.Some? && Classify(e.value) == d
  }

  function Once(b: bool): nat {
    if b then 1 else 0
  }

  lemma {:induction false} AtPrefix(v: Value, p: Path)
    requires p != [] && At(v, p).Some?
    ensures var x := At(v, p[..|p| - 1]);
            x.Some? && match p[|p| - 1]
                       case Key(k) => x.value.Object? && k in x.value.fields && At(v, p) == Some(x.value.fields[k])
                       case Index(i) => x.value.Array? && i < |x.value.items| && At(v, p) == Some(x.value.items[i])
  {
    if |p| > 1 {
      var child := if p[0].Key? then v.fields[p[0].name] else v.items[p[0].i];
      AtPrefix(child, p[1..]);
      assert p[..|p| - 1][1..] == p[1..][..|p[1..]| - 1];
    }
  }

  /** Below a child both trees have, disagreements are those of the two children. */
  lemma DiffAtChild(py: Value, go: Value, base: Path, p: Path, x: Value, y: Value)
    requires p != [] && At(py, p[..1]) == Some(x) && At(go, p[..1]) == Some(y)
    ensures DiffAt(py, go, base, p) == DiffAt(x, y, base + p[..1], p[1..])
  {
    hide HeadDiff, MissingDiff;
    ChildAt(py, p, x);
    ChildAt(go, p, y);
    assert base + p == base + p[..1] + p[1..];
    if |p| > 1 {
      var q := p[..|p| - 1];
      assert q[..1] == p[..1] && q[1..] == p[1..][..|p[1..]| - 1];
      ChildAt(py, q, x);
      ChildAt(go, q, y);
      assert base + q == base + p[..1] + q[1..];
    }
  }

  lemma ChildAt(v: Value, p: Path, x: Value)
    requires p != [] && At(v, p[..1]) == Some(x)
    ensures At(v, p) == At(x, p[1..])
  {
  }

  /** At or below a child that one tree lacks, the only disagreement is the missing key itself. */
  lemma {:induction false} DiffAtOneSided(py: Value, go: Value, base: Path, p: Path)
    requires p != [] && (At(py, p[..1]).None? || At(go, p[..1]).None?)
    ensures DiffAt(py, go, base, p) ==
              if |p| == 1 && p[0].Key? && py.Object? && go.Object? && (At(py, p).Some? || At(go, p).Some?)
              then Some(MissingDiff(base, p[0].name, At(py, p).Some?)) else None
  {
    hide HeadDiff, MissingDiff;
    assert p[..1] == [p[0]];
    if |p| == 1 {
      assert p[..0] == [] && base + [] == base;
    } else {
      var q := p[..|p| - 1];
      assert q[..1] == p[..1];
    }
  }

  /** Every diff is reported once if it is expected and not at all otherwise. */
  lemma {:induction false} BagCount(py: Value, go: Value, base: Path, d: Diff)
    ensures Bag(py, go, base)[d] == Once(Expected(py, go, base, d))
    decreases py, 2
  {
    hide HeadDiff, Classify;
    var n := |base|;
    if n <= |d.path| && d.path[..n] == base && |d.path| == n {
      assert d.path[n..] == [];
      assert base + [] == base;
    }
    HeadCount(py, go, base, d);
    if py.Object? && go.Object? {
      SumKeysCount(py, go, base, py.fields.Keys + go.fields.Keys, d);
    } else if py.Array? && go.Array? {
      SumItemsCount(py, go, base, MinLength(py, go), d);
    }
    BelowCount(py, go, base, d);
  }

  /** The part of the bag that concerns the position `base` itself. */
  lemma {:induction false} HeadCount(py: Value, go: Value, base: Path, d: Diff)
    ensures OptionBag(HeadDiff(py, go, base))[d] == Once(d.path == base && Expected(py, go, base, d))
  {
    hide HeadDiff, IsVolatilePath, Render;
    HeadPath(py, go, base);
    assert base + [] == base;
    if d.path == base {
      assert d.path[|base|..] == [];
    }
  }

  lemma HeadPath(py: Value, go: Value, path: Path)
    ensures HeadDiff(py, go, path).Some? ==>
              HeadDiff(py, go, path).value.path == path && HeadDiff(py, go, path).value.kind != Volatile
  {
    hide TypeName;
  }

  predicate Below(base: Path, step: Step, d: Diff) {
    |base| < |d.path| && d.path[..|base|] == base && d.path[|base|] == step
  }

  lemma {:induction false} SumKeysCount(py: Value, go: Value, base: Path, keys: set<string>, d: Diff)
    requires py.Object? && go.Object? && keys <= py.fields.Keys + go.fields.Keys
    ensures SumKeys(py, go, base, keys)[d] ==
            Once(exists k :: k in keys && Below(base, Key(k), d) && Expected(py, go, base, d))
    decreases py, 1, keys
  {
    hide HeadDiff, Classify, KeyBag, Expected;
    if keys != {} {
      var k := Pick(keys);
      KeyCount(py, go, base, k, d);
      SumKeysCount(py, go, base, keys - {k}, d);
    }
  }

  lemma {:induction false} KeyCount(py: Value, go: Value, base: Path, k: string, d: Diff)
    requires py.Object? && go.Object? && (k in py.fields || k in go.fields)
    ensures KeyBag(py, go, base, k)[d] == Once(Below(base, Key(k), d) && Expected(py, go, base, d))
    decreases py, 0
  {
    hide Expected, Below, Bag, Classify, MissingDiff;
    if k in py.fields && k in go.fields {
      BagCount(py.fields[k], go.fields[k], base + [Key(k)], d);
      ChildExpected(py, go, base, Key(k), py.fields[k], go.fields[k], d);
    } else {
      OneSidedExpected(py, go, base, k, d);
    }
  }

  /** What is expected below a child that both trees have is what is expected of the two children. */
  lemma {:induction false} ChildExpected(py: Value, go: Value, base: Path, step: Step, x: Value, y: Value, d: Diff)
    requires At(py, [step]) == Some(x) && At(go, [step]) == Some(y)
    ensures Expected(x, y, base + [step], d) <==> Below(base, step, d) && Expected(py, go, base, d)
  {
    hide HeadDiff, Classify, At, DiffAt;
    BelowIff(base, step, d);
    if Below(base, step, d) {
      var p := d.path[|base|..];
      assert p[..1] == [step] && p[1..] == d.path[|base + [step]|..];
      DiffAtChild(py, go, base, p, x, y);
    }
  }

  lemma BelowIff(base: Path, step: Step, d: Diff)
    ensures Below(base, step, d) <==> |base| < |d.path| && d.path[..|base| + 1] == base + [step]
  {
    if |base| < |d.path| {
      assert d.path[..|base| + 1] == d.path[..|base|] + [d.path[|base|]];
      if d.path[..|base| + 1] == base + [step] {
        assert d.path[..|base|] == (base + [step])[..|base|];
        assert d.path[|base|] == (base + [step])[|base|];
      }
    }
  }

  /** All that is expected at or below a key of one tree only is the missing key itself. */
  lemma {:induction false} OneSidedExpected(py: Value, go: Value, base: Path, k: string, d: Diff)
    requires py.Object? && go.Object? && (k in py.fields <==> k !in go.fields)
    ensures Below(base, Key(k), d) && Expected(py, go, base, d) <==> d == Classify(MissingDiff(base, k, k in py.fields))
  {
    hide HeadDiff, DiffAt;
    OneStep(py, k);
    OneStep(go, k);
    BelowIff(base, Key(k), d);
    if d == Classify(MissingDiff(base, k, k in py.fields)) {
      assert d.path == base + [Key(k)];
      assert d.path[|base|..] == [Key(k)];
    }
    if Below(base, Key(k), d) {
      var p := d.path[|base|..];
      assert p[..1] == [Key(k)] && |p| > 0;
      hide At;
      DiffAtOneSided(py, go, base, p);
      assert |p| == 1 ==> p == [Key(k)];
    }
  }

  lemma OneStep(v: Value, k: string)
    requires v.Object?
    ensures At(v, [Key(k)]) == if k in v.fields then Some(v.fields[k]) else None
  {
  }

  lemma {:induction false} SumItemsCount(py: Value, go: Value, base: Path, n: nat, d: Diff)
    requires py.Array? && go.Array? && n <= |py.items| && n <= |go.items|
    ensures SumItems(py, go, base, n)[d] ==
            Once(exists i :: 0 <= i < n && Below(base, Index(i), d) && Expected(py, go, base, d))
    decreases py, 1, n
  {
    hide HeadDiff, Classify, Expected, Bag;
    if n > 0 {
      var i := n - 1;
      SumItemsCount(py, go, base, i, d);
      BagCount(py.items[i], go.items[i], base + [Index(i)], d);
      ChildExpected(py, go, base, Index(i), py.items[i], go.items[i], d);
    }
  }

  /** An expected diff below `base` is below one of the steps the comparison takes. */
  lemma {:induction false} BelowCount(py: Value, go: Value, base: Path, d: Diff)
    ensures Expected(py, go, base, d) && d.path != base ==>
              || (py.Object? && go.Object?
                  && exists k :: k in py.fields.Keys + go.fields.Keys && Below(base, Key(k), d))
              || (py.Array? && go.Array? && exists i :: 0 <= i < MinLength(py, go) && Below(base, Index(i), d))
  {
    hide HeadDiff, Classify;
    if Expected(py, go, base, d) && d.path != base {
      var p := d.path[|base|..];
      assert p[0] == d.path[|base|] && p[..1] == [p[0]];
      if At(py, p[..1]).None? || At(go, p[..1]).None? {
        DiffAtOneSided(py, go, base, p);
        assert Below(base, Key(p[0].name), d);
      } else {
        assert Below(base, p[0], d);
      }
    }
  }

  // ---------- Consequences ----------

  /** Each diff is reported at most once, and no two diffs share a position. */
  lemma OneDiffPerPosition(py: Value, go: Value, d: Diff, e: Diff)
    requires d in Bag(py, go, [])
    ensures Bag(py, go, [])[d] == 1
    ensures e in Bag(py, go, []) && e.path == d.path ==> e == d
  {
    BagCount(py, go, [], d);
    BagCount(py, go, [], e);
  }

  /** A diff is reported exactly at the positions where the trees disagree, by direct lookup. */
  lemma {:induction false} DiffIffDisagreement(py: Value, go: Value, p: Path)
    ensures Disagree(py, go, p) <==> exists d :: d in Bag(py, go, []) && d.path == p
    ensures DiffAt(py, go, [], p).Some? <==> Disagree(py, go, p)
  {
    DisagreeIff(py, go, p);
    hide HeadDiff, Bag, Disagree;
    if DiffAt(py, go, [], p).Some? {
      var d := Classify(DiffAt(py, go, [], p).value);
      DiffAtPath(py, go, p);
      assert d.path[..0] == [] && d.path[0..] == p;
      BagCount(py, go, [], d);
      assert d in Bag(py, go, []);
    }
    forall d | d in Bag(py, go, []) && d.path == p ensures DiffAt(py, go, [], p).Some? {
      BagCount(py, go, [], d);
      assert d.path[0..] == p;
    }
  }

  lemma DiffAtPath(py: Value, go: Value, p: Path)
    requires DiffAt(py, go, [], p).Some?
    ensures DiffAt(py, go, [], p).value.path == p && DiffAt(py, go, [], p).value.kind != Volatile
  {
    hide HeadDiff;
    assert [] + p == p;
    var (a, b) := (At(py, p), At(go, p));
    if a.Some? && b.Some? {
      HeadPath(a.value, b.value, p);
    } else {
      assert p == [] + p[..|p| - 1] + [Key(p[|p| - 1].name)];
    }
  }

  /** Different trees disagree somewhere. */
  lemma {:induction false} DifferenceExists(py: Value, go: Value) returns (p: Path)
    requires py != go
    ensures DiffAt(py, go, [], p).Some?
    decreases py
  {
    hide HeadDiff;
    if py.Object? && go.Object? {
      if k :| k in py.fields && k !in go.fields {
        p := [Key(k)];
        assert p[..1] == p && p[1..] == [];
        assert At(py, p) == Some(py.fields[k]);
        DiffAtOneSided(py, go, [], p);
      } else if k :| k in go.fields && k !in py.fields {
        p := [Key(k)];
        assert p[..1] == p && p[1..] == [];
        assert At(go, p) == Some(go.fields[k]);
        DiffAtOneSided(py, go, [], p);
      } else {
        assert py.fields.Keys == go.fields.Keys;
        var k :| k in py.fields && py.fields[k] != go.fields[k];
        var rest := DifferenceExists(py.fields[k], go.fields[k]);
        p := [Key(k)] + rest;
        LiftDifference(py, go, py.fields[k], go.fields[k], Key(k), rest);
      }
    } else if py.Array? && go.Array? && |py.items| == |go.items| {
      var i :| 0 <= i < |py.items| && py.items[i] != go.items[i];
      var rest := DifferenceExists(py.items[i], go.items[i]);
      p := [Index(i)] + rest;
      LiftDifference(py, go, py.items[i], go.items[i], Index(i), rest);
    } else {
      p := [];
      assert [] + p == p;
      HeadsDiffer(py, go);
    }
  }

  lemma HeadsDiffer(py: Value, go: Value)
    requires py != go && !(py.Object? && go.Object?)
    requires py.Array? && go.Array? ==> |py.items| != |go.items|
    ensures HeadDiff(py, go, []).Some?
  {
  }

  lemma LiftDifference(py: Value, go: Value, x: Value, y: Value, step: Step, rest: Path)
    requires At(py, [step]) == Some(x) && At(go, [step]) == Some(y)
    requires DiffAt(x, y, [], rest).Some?
    ensures DiffAt(py, go, [], [step] + rest).Some?
  {
    var p := [step] + rest;
    assert p[..1] == [step] && p[1..] == rest;
    DiffAtChild(py, go, [], p, x, y);
    BaseIrrelevant(x, y, [], [] + p[..1], rest);
  }

  lemma BaseIrrelevant(py: Value, go: Value, base: Path, other: Path, p: Path)
    ensures DiffAt(py, go, base, p).Some? <==> DiffAt(py, go, other, p).Some?
  {
  }

  /** No diffs without a bound iff the values are equal. */
  lemma NoDiffsIffEqual(py: Value, go: Value)
    ensures Bag(py, go, []) == multiset{} <==> py == go
  {
    hide HeadDiff, Bag;
    if py != go {
      var p := DifferenceExists(py, go);
      DiffIffDisagreement(py, go, p);
    } else if Bag(py, go, []) != multiset{} {
      var d :| d in Bag(py, go, []);
      DiffIffDisagreement(py, go, d.path);
      NoSelfDisagreement(py, d.path);
      assert false;
    }
  }

  lemma NoSelfDisagreement(v: Value, p: Path)
    ensures DiffAt(v, v, [], p).None?
  {
    if p != [] && At(v, p).None? {
    }
  }

  // ---------- What the kinds say ----------

  /** Two values of one JSON type; numbers that fit no machine type are read as text. */
  predicate SameShape(a: Value, b: Value) {
    && (a.Null? <==> b.Null?) && (a.Bool? <==> b.Bool?) && (a.Int? <==> b.Int?) && (a.Float? <==> b.Float?)
    && (a.Array? <==> b.Array?) && (a.Object? <==> b.Object?)
  }

  predicate EmptyContainer(v: Value) {
    v == Array([]) || v == Object(map[])
  }

  predicate NullAndEmpty(a: Value, b: Value) {
    (a.Null? && EmptyContainer(b)) || (b.Null? && EmptyContainer(a))
  }

  /** Exactly one of two objects in one place has the last key of the path. */
  predicate OneSided(py: Value, go: Value, p: Path) {
    && p != [] && p[|p| - 1].Key?
    && var (x, y) := (At(py, p[..|p| - 1]), At(go, p[..|p| - 1]));
       && x.Some? && y.Some? && x.value.Object? && y.value.Object?
       && (p[|p| - 1].name in x.value.fields <==> p[|p| - 1].name !in y.value.fields)
  }

  /** The trees disagree at a position: in type, in length, as scalars, or because one of them lacks the key. */
  predicate Disagree(py: Value, go: Value, p: Path) {
    || OneSided(py, go, p)
    || (At(py, p).Some? && At(go, p).Some? &&
        var (x, y) := (At(py, p).value, At(go, p).value);
        || !SameShape(x, y)
        || (x.Array? && |x.items| != |y.items|)
        || (!x.Array? && !x.Object? && x != y))
  }

  lemma HeadKinds(x: Value, y: Value, path: Path)
    ensures var d := HeadDiff(x, y, path);
            && (d.Some? <==> || !SameShape(x, y)
                             || (x.Array? && |x.items| != |y.items|)
                             || (!x.Array? && !x.Object? && x != y))
            && (d.Some? ==>
                  && d.value.path == path
                  && d.value.kind == if NullAndEmpty(x, y) then NullVsEmpty
                                     else if !SameShape(x, y) then TypeDiff
                                     else if x.Array? then ListLength else ScalarDiff)
            && (d.Some? && d.value.kind == ScalarDiff ==> (d.value.py, d.value.go) == (Printed(x), Printed(y)))
            && (d.Some? && d.value.kind == ListLength ==>
                  (d.value.py, d.value.go) == (Words(Decimal(|x.items|)), Words(Decimal(|y.items|))))
  {
    hide TypeName, Decimal;
  }

  lemma OneSidedAt(py: Value, go: Value, p: Path)
    ensures OneSided(py, go, p) ==> (At(py, p).Some? <==> At(go, p).None?)
    ensures OneSided(py, go, p) ==> (At(py, p).Some? <==> p[|p| - 1].name in At(py, p[..|p| - 1]).value.fields)
    ensures DiffAt(py, go, [], p).Some? && !(At(py, p).Some? && At(go, p).Some?) ==> OneSided(py, go, p)
  {
    hide HeadDiff, MissingDiff, At;
    if p != [] && p[|p| - 1].Key? && At(py, p[..|p| - 1]).Some? && At(go, p[..|p| - 1]).Some? {
      LastStep(py, p);
      LastStep(go, p);
    }
  }

  lemma {:induction false} LastStep(v: Value, p: Path)
    requires p != [] && At(v, p[..|p| - 1]).Some?
    ensures p[|p| - 1].Key? ==>
              At(v, p) == var x := At(v, p[..|p| - 1]).value;
                          if x.Object? && p[|p| - 1].name in x.fields then Some(x.fields[p[|p| - 1].name]) else None
  {
    if |p| > 1 {
      var child := if p[0].Key? then v.fields[p[0].name] else v.items[p[0].i];
      assert p[..|p| - 1][1..] == p[1..][..|p[1..]| - 1];
      LastStep(child, p[1..]);
    }
  }

  /** What is reported at a position, in terms of the two trees alone. */
  lemma {:induction false} DisagreeIff(py: Value, go: Value, p: Path)
    ensures DiffAt(py, go, [], p).Some? <==> Disagree(py, go, p)
    ensures DiffAt(py, go, [], p).Some? ==>
              var d := DiffAt(py, go, [], p).value;
              if OneSided(py, go, p) then
                && d.kind == MissingKey
                && (d.py, d.go) == (if At(py, p).Some? then (Words("present"), Words("missing"))
                                    else (Words("missing"), Words("present")))
              else
                && At(py, p).Some? && At(go, p).Some?
                && var (x, y) := (At(py, p).value, At(go, p).value);
                   d.kind == if NullAndEmpty(x, y) then NullVsEmpty
                             else if !SameShape(x, y) then TypeDiff
                             else if x.Array? then ListLength else ScalarDiff
  {
    hide HeadDiff, At, SameShape, NullAndEmpty;
    assert [] + p == p;
    OneSidedAt(py, go, p);
    if At(py, p).Some? && At(go, p).Some? {
      HeadKinds(At(py, p).value, At(go, p).value, p);
    }
  }

  /** The diffs, position by position: there is one iff the trees disagree there, and its kind says how. */
  lemma {:induction false} ReportedKind(py: Value, go: Value, d: Diff)
    requires d in Bag(py, go, [])
    ensures Disagree(py, go, d.path)
    ensures d.kind == if IsVolatilePath(Render(d.path)) then Volatile
                      else if OneSided(py, go, d.path) then MissingKey
                      else if NullAndEmpty(At(py, d.path).value, At(go, d.path).value) then NullVsEmpty
                      else if !SameShape(At(py, d.path).value, At(go, d.path).value) then TypeDiff
                      else if At(py, d.path).value.Array? then ListLength else ScalarDiff
  {
    hide Bag, HeadDiff, IsVolatilePath, Render, DiffAt, OneSided, Disagree, NullAndEmpty, SameShape, At;
    BagCount(py, go, [], d);
    assert d.path[0..] == d.path;
    DisagreeIff(py, go, d.path);
    DiffAtPath(py, go, d.path);
  }

  /** A difference that `typeMatch` does not forgive: a missing key, or two values of different types. */
  predicate Structural(py: Value, go: Value, p: Path) {
    || OneSided(py, go, p)
    || (At(py, p).Some? && At(go, p).Some? && !SameShape(At(py, p).value, At(go, p).value))
  }

  // ---------- Swapping the inputs ----------

  function MirrorNote(note: string): string {
    if note == "null vs empty object" then "empty object vs null"
    else if note == "empty object vs null" then "null vs empty object"
    else if note == "null vs empty array" then "empty array vs null"
    else if note == "empty array vs null" then "null vs empty array"
    else note
  }

  function Mirror(d: Diff): Diff {
    d.(py := d.go, go := d.py, note := MirrorNote(d.note))
  }

  lemma MirrorHead(py: Value, go: Value, path: Path)
    ensures HeadDiff(go, py, path) == match HeadDiff(py, go, path)
                                      case None => None
                                      case Some(d) => Some(Mirror(d))
  {
  }

  lemma MirrorDiffAt(py: Value, go: Value, base: Path, p: Path)
    ensures DiffAt(go, py, base, p) == match DiffAt(py, go, base, p)
                                       case None => None
                                       case Some(d) => Some(Mirror(d))
  {
    hide HeadDiff;
    var (a, b) := (At(py, p), At(go, p));
    if a.Some? && b.Some? {
      MirrorHead(a.value, b.value, base + p);
    }
  }

  lemma MirrorInvolutive(d: Diff)
    ensures Mirror(Mirror(d)) == d
    ensures Mirror(Classify(d)) == Classify(Mirror(d))
  {
    hide IsVolatilePath;
  }

  /** Swapping the two values mirrors every diff. */
  lemma {:induction false} SwapMirrors(py: Value, go: Value, d: Diff)
    ensures Bag(go, py, [])[Mirror(d)] == Bag(py, go, [])[d]
  {
    hide HeadDiff, Classify, Bag, DiffAt, MirrorNote;
    BagCount(go, py, [], Mirror(d));
    BagCount(py, go, [], d);
    var p := d.path[0..];
    MirrorDiffAt(py, go, [], p);
    if DiffAt(py, go, [], p).Some? {
      var e := DiffAt(py, go, [], p).value;
      MirrorInvolutive(e);
      MirrorInvolutive(Classify(e));
      MirrorInvolutive(d);
    }
  }

  /** So the number of diffs, and with it truncation, does not depend on which side is which. */
  lemma {:induction false} SwapKeepsCount(py: Value, go: Value)
    ensures |Bag(go, py, [])| == |Bag(py, go, [])|
  {
    hide Bag;
    forall d ensures Bag(go, py, [])[Mirror(d)] == Bag(py, go, [])[d] {
      SwapMirrors(py, go, d);
    }
    MirroredSize(Bag(py, go, []), Bag(go, py, []));
  }

  lemma {:induction false} MirroredSize(a: multiset<Diff>, b: multiset<Diff>)
    requires forall d :: b[Mirror(d)] == a[d]
    ensures |a| == |b|
    decreases |a|
  {
    hide MirrorNote;
    if d :| d in a {
      assert Mirror(d) in b;
      forall e ensures (b - multiset{Mirror(d)})[Mirror(e)] == (a - multiset{d})[e] {
        MirrorInvolutive(d);
        MirrorInvolutive(e);
      }
      MirroredSize(a - multiset{d}, b - multiset{Mirror(d)});
    } else {
      forall e ensures e !in b {
        MirrorInvolutive(e);
        assert b[Mirror(Mirror(e))] == a[Mirror(e)];
      }
    }
  }
}
