/** Volatile positions, and the verdict a probe derives from the collected diffs. */
module CompareProbe {
  import opened Basics
  import opened Text
  import opened ValueCompare
  import opened ValueDifferences
  import opened ProbeBodies

  // ---------- Which paths are volatile ----------

  /** The last key of a path, if only array indices follow it. */
  function NearestKey(p: Path): Option<string> {
    if p == [] then None
    else match p[|p| - 1]
      case Key(k) => Some(k)
      case Index(_) => NearestKey(p[..|p| - 1])
  }

  /** The part of a key that `isVolatilePath` looks at once the key is part of a path text. */
  function EffectiveName(k: string): string {
    BeforeFirst(AfterLast(k, '.'), '[')
  }

  lemma {:induction false} AfterLastJoin(s: string, t: string)
    ensures AfterLast(s + "." + t, '.') == AfterLast(t, '.')
  {
    var all := s + "." + t;
    if t != "" {
      AfterLastJoin(s, t[..|t| - 1]);
      assert all[..|all| - 1] == s + "." + t[..|t| - 1] && all[|all| - 1] == t[|t| - 1];
    }
  }

  lemma {:induction false} AfterLastAppend(s: string, t: string)
    requires '.' !in t
    ensures AfterLast(s + t, '.') == AfterLast(s, '.') + t
  {
    if t == "" {
      assert s + t == s;
    } else {
      AfterLastAppend(s, t[..|t| - 1]);
      assert (s + t)[..|s + t| - 1] == s + t[..|t| - 1];
      assert t == t[..|t| - 1] + [t[|t| - 1]];
    }
  }

  lemma {:induction false} BeforeFirstCut(s: string, t: string)
    ensures BeforeFirst(s + "[" + t, '[') == BeforeFirst(s, '[')
  {
    if s != "" && s[0] != '[' {
      BeforeFirstCut(s[1..], t);
      assert (s + "[" + t)[1..] == s[1..] + "[" + t;
    } else if s == "" {
      assert (s + "[" + t)[0] == '[';
    } else {
      assert (s + "[" + t)[0] == s[0];
    }
  }

  lemma {:induction false} LastName(p: Path)
    ensures BeforeFirst(AfterLast(Render(p), '.'), '[') ==
              match NearestKey(p) case None => "" case Some(k) => EffectiveName(k)
  {
    hide AfterLast, BeforeFirst, Decimal;
    if p == [] {
      assert Render(p) == "";
      LastNameOfNothing();
    } else {
      var q := p[..|p| - 1];
      match p[|p| - 1] {
        case Key(k) =>
          assert Render(p) == Render(q) + "." + k;
          AfterLastJoin(Render(q), k);
        case Index(i) =>
          LastName(q);
          assert Digits(Decimal(i));
          assert '.' !in Piece(Index(i));
          AfterLastAppend(Render(q), Piece(Index(i)));
          assert AfterLast(Render(q), '.') + Piece(Index(i)) == AfterLast(Render(q), '.') + "[" + (Decimal(i) + "]");
          BeforeFirstCut(AfterLast(Render(q), '.'), Decimal(i) + "]");
      }
    }
  }

  lemma LastNameOfNothing()
    ensures BeforeFirst(AfterLast("", '.'), '[') == ""
  {
  }

  /**
   * A path text is volatile iff only indices follow its last key and what the code reads of that key is a volatile
   * name.
   */
  lemma VolatilePathIff(p: Path)
    ensures IsVolatilePath(Render(p)) <==>
              NearestKey(p).Some? && VolatileName(EffectiveName(NearestKey(p).value))
  {
    hide Render, AfterLast, BeforeFirst, EffectiveName, VolatileName;
    var text := Render(p);
    if text != "" && text[0] == '.' {
      assert text == "" + "." + text[1..];
      AfterLastJoin("", text[1..]);
    }
    LastName(p);
    NoNameNotVolatile();
  }

  lemma NoNameNotVolatile()
    ensures !VolatileName("")
  {
  }

  /** The volatile names are five, in any case. */
  lemma VolatileNameIff(s: string)
    ensures VolatileName(s) <==>
              || EqualFold(s, "timestamp") || EqualFold(s, "exported_at") || EqualFold(s, "generated_at")
              || EqualFold(s, "runtime_updated_at") || EqualFold(s, "updated_at")
  {
    hide EqualFold;
    assert VOLATILE_NAMES[0] == "timestamp" && VOLATILE_NAMES[1] == "exported_at";
    assert VOLATILE_NAMES[2] == "generated_at" && VOLATILE_NAMES[3] == "runtime_updated_at";
    assert VOLATILE_NAMES[4] == "updated_at";
  }

  /** The texts differ at most in that letters of the first are capitals in the second. */
  predicate SameButForCapitals(s: string, t: string) {
    |s| == |t| && forall i :: 0 <= i < |s| ==> s[i] == t[i] || ('a' <= s[i] <= 'z' && t[i] as int == s[i] as int - 32)
  }

  lemma CapitalsIgnored(s: string, t: string)
    requires SameButForCapitals(s, t)
    ensures VolatileName(s) <==> VolatileName(t)
  {
    forall name | true ensures EqualFold(s, name) <==> EqualFold(t, name) {
      assert |s| == |t| && forall i :: 0 <= i < |s| ==> FoldChar(s[i]) == FoldChar(t[i]);
    }
    hide EqualFold;
    VolatileNameIff(s);
    VolatileNameIff(t);
  }

  predicate CleanName(k: string) {
    '.' !in k && '[' !in k
  }

  lemma CleanNameWhole(k: string)
    requires CleanName(k)
    ensures EffectiveName(k) == k
  {
    AfterLastWhole(k);
    BeforeFirstWhole(k);
  }

  lemma {:induction false} AfterLastWhole(s: string)
    requires '.' !in s
    ensures AfterLast(s, '.') == s
  {
    if s != "" {
      AfterLastWhole(s[..|s| - 1]);
      assert s == s[..|s| - 1] + [s[|s| - 1]];
    }
  }

  lemma {:induction false} BeforeFirstWhole(s: string)
    requires '[' !in s
    ensures BeforeFirst(s, '[') == s
  {
    if s != "" {
      BeforeFirstWhole(s[1..]);
    }
  }

  /** For keys without '.' and '[' the nearest key itself decides. */
  lemma VolatileByNearestKey(p: Path)
    requires NearestKey(p).Some? ==> CleanName(NearestKey(p).value)
    ensures IsVolatilePath(Render(p)) <==> NearestKey(p).Some? && VolatileName(NearestKey(p).value)
  {
    VolatilePathIff(p);
    if NearestKey(p).Some? {
      CleanNameWhole(NearestKey(p).value);
    }
  }

  /** With a dot in a key the code disagrees with the key's own name. */
  lemma DottedKeyMisread()
    ensures IsVolatilePath(Render([Key("cfg.updated_at")])) && !VolatileName("cfg.updated_at")
  {
    hide AfterLast, BeforeFirst, IsVolatilePath, VolatileName, Render;
    VolatilePathIff([Key("cfg.updated_at")]);
    assert "cfg.updated_at" == "cfg" + "." + "updated_at";
    AfterLastJoin("cfg", "updated_at");
    CleanNameWhole("updated_at");
    UpdatedAtIsVolatile();
    assert "cfg.updated_at"[3] == '.';
    if VolatileName("cfg.updated_at") {
      VolatileNameClean("cfg.updated_at");
    }
  }

  lemma UpdatedAtIsVolatile()
    ensures VolatileName("updated_at")
  {
    assert EqualFold("updated_at", VOLATILE_NAMES[4]);
  }

  lemma FoldsClean(s: string, name: string)
    requires EqualFold(s, name) && CleanName(name)
    ensures CleanName(s)
  {
    forall c | c in s ensures c != '.' && c != '[' {
      var j :| 0 <= j < |s| && s[j] == c;
      assert name[j] in name && FoldChar(c) == name[j];
    }
  }

  /** A volatile name has neither dot nor bracket. */
  lemma {:induction false} VolatileNameClean(k: string)
    requires VolatileName(k)
    ensures CleanName(k)
  {
    hide EqualFold;
    var i :| 0 <= i < |VOLATILE_NAMES| && EqualFold(k, VOLATILE_NAMES[i]);
    assert CleanName(VOLATILE_NAMES[0]) && CleanName(VOLATILE_NAMES[1]) && CleanName(VOLATILE_NAMES[2]);
    assert CleanName(VOLATILE_NAMES[3]) && CleanName(VOLATILE_NAMES[4]);
    FoldsClean(k, VOLATILE_NAMES[i]);
  }

  /** The nearest key's own name decides iff it is clean, or what the code reads of it is no volatile name. */
  lemma {:induction false} NearestKeyDecidesIff(p: Path)
    requires NearestKey(p).Some?
    ensures var k := NearestKey(p).value;
            (IsVolatilePath(Render(p)) <==> VolatileName(k)) <==> CleanName(k) || !VolatileName(EffectiveName(k))
  {
    hide IsVolatilePath, Render, VolatileName, EffectiveName;
    var k := NearestKey(p).value;
    VolatilePathIff(p);
    if CleanName(k) {
      CleanNameWhole(k);
    }
    if VolatileName(k) {
      VolatileNameClean(k);
    }
  }

  // ---------- Path texts tell positions apart ----------

  predicate CleanPath(p: Path) {
    forall i :: 0 <= i < |p| && p[i].Key? ==> CleanName(p[i].name)
  }

  lemma RenderLast(p: Path)
    ensures Render([]) == ""
    ensures p != [] ==> Render(p) == Render(p[..|p| - 1]) + Piece(p[|p| - 1])
  {
  }

  lemma {:induction false} RenderHead(p: Path)
    requires p != []
    ensures Render(p) == Piece(p[0]) + Render(p[1..])
  {
    hide Piece, Render;
    RenderLast(p);
    RenderLast(p[1..]);
    if |p| == 1 {
      assert p[..0] == [] && p[1..] == [];
    } else {
      RenderHead(p[..|p| - 1]);
      assert p[..|p| - 1][1..] == p[1..][..|p[1..]| - 1];
    }
  }

  predicate AtStep(rest: string) {
    rest == "" || rest[0] == '.' || rest[0] == '['
  }

  lemma RenderAtStep(p: Path)
    ensures AtStep(Render(p)) && (Render(p) == "" <==> p == [])
  {
    hide Render;
    RenderLast(p);
    if p != [] {
      RenderHead(p);
    }
  }

  /** Two positions made of keys without '.' and '[' have different path texts. */
  lemma {:induction false} RenderInjective(p: Path, q: Path)
    requires CleanPath(p) && CleanPath(q) && Render(p) == Render(q)
    ensures p == q
  {
    RenderAtStep(p);
    RenderAtStep(q);
    if p != [] {
      RenderHead(p);
      RenderHead(q);
      RenderAtStep(p[1..]);
      RenderAtStep(q[1..]);
      SameFirstStep(p[0], Render(p[1..]), q[0], Render(q[1..]));
      RenderInjective(p[1..], q[1..]);
      assert p == [p[0]] + p[1..] && q == [q[0]] + q[1..];
    }
  }

  /** A dot in a key, or an index in brackets at its end, gives a key the path text of two steps. */
  lemma {:induction false} UncleanKeysCollide(a: string, b: string, i: nat)
    ensures Render([Key(a + "." + b)]) == Render([Key(a), Key(b)])
    ensures Render([Key(a + "[" + Decimal(i) + "]")]) == Render([Key(a), Index(i)])
  {
    hide Decimal, Render;
    KeyThenStep(a, Key(b));
    KeyThenStep(a, Index(i));
    assert a + "[" + Decimal(i) + "]" == a + ("[" + Decimal(i) + "]") by {
      Regroup(a, "[", Decimal(i), "]");
    }
    assert a + "." + b == a + ("." + b);
  }

  lemma Regroup(a: string, b: string, c: string, d: string)
    ensures a + b + c + d == a + (b + c + d)
  {
  }

  lemma KeyThenStep(a: string, x: Step)
    ensures Render([Key(a + Piece(x))]) == Render([Key(a), x])
  {
    hide Render;
    RenderOne(Key(a + Piece(x)));
    RenderTwo(Key(a), x);
    PrefixKey(a, Piece(x));
  }

  lemma PrefixKey(a: string, r: string)
    ensures Piece(Key(a + r)) == Piece(Key(a)) + r
  {
  }

  lemma RenderOne(x: Step)
    ensures Render([x]) == Piece(x)
  {
    hide Piece;
    assert [x][..0] == [];
  }

  lemma RenderTwo(x: Step, y: Step)
    ensures Render([x, y]) == Piece(x) + Piece(y)
  {
    hide Piece;
    RenderOne(x);
    assert [x, y][..1] == [x];
  }

  /** Two different positions of one pair of trees can be reported under one path text. */
  lemma {:induction false} PathTextsCollide()
    ensures var x := Object(map["a.b" := Int(1), "a" := Object(map["b" := Int(1)])]);
            var y := Object(map["a.b" := Int(2), "a" := Object(map["b" := Int(2)])]);
            && DiffAt(x, y, [], [Key("a.b")]).Some? && DiffAt(x, y, [], [Key("a"), Key("b")]).Some?
            && Render([Key("a.b")]) == Render([Key("a"), Key("b")])
  {
    UncleanKeysCollide("a", "b", 0);
    assert "a" + "." + "b" == "a.b";
    hide Render;
    var (inner, other) := (Object(map["b" := Int(1)]), Object(map["b" := Int(2)]));
    var x := Object(map["a.b" := Int(1), "a" := inner]);
    var y := Object(map["a.b" := Int(2), "a" := other]);
    OneStepAt(x, "a.b", Int(1), []);
    OneStepAt(y, "a.b", Int(2), []);
    OneStepAt(inner, "b", Int(1), []);
    OneStepAt(other, "b", Int(2), []);
    OneStepAt(x, "a", inner, [Key("b")]);
    OneStepAt(y, "a", other, [Key("b")]);
    assert [Key("a")] + [Key("b")] == [Key("a"), Key("b")];
    assert [Key("a.b")] + [] == [Key("a.b")] && [Key("b")] + [] == [Key("b")];
  }

  lemma OneStepAt(v: Value, k: string, x: Value, rest: Path)
    requires v.Object? && k in v.fields && v.fields[k] == x
    ensures At(v, [Key(k)] + rest) == At(x, rest)
    ensures At(x, []) == Some(x)
  {
    assert ([Key(k)] + rest)[1..] == rest;
  }

  lemma SameFirstStep(x: Step, r: string, y: Step, s: string)
    requires x.Key? ==> CleanName(x.name)
    requires y.Key? ==> CleanName(y.name)
    requires AtStep(r) && AtStep(s) && Piece(x) + r == Piece(y) + s
    ensures x == y && r == s
  {
    hide Decimal, AtStep, Piece, CleanName;
    PieceText(x, r);
    PieceText(y, s);
    var (t, u) := (Piece(x) + r, Piece(y) + s);
    assert t[0] == u[0] && t[1..] == u[1..];
    if x.Key? {
      SameName(x.name, r, y.name, s);
    } else {
      SameIndex(x.i, r, y.i, s);
    }
  }

  lemma PieceText(x: Step, r: string)
    ensures |Piece(x) + r| > 0
    ensures (Piece(x) + r)[0] == if x.Key? then '.' else '['
    ensures (Piece(x) + r)[1..] == if x.Key? then x.name + r else Decimal(x.i) + ("]" + r)
  {
    hide Decimal;
  }

  lemma SameName(a: string, r: string, b: string, s: string)
    requires CleanName(a) && CleanName(b) && AtStep(r) && AtStep(s) && a + r == b + s
    ensures a == b && r == s
  {
    SplitUnique(a, r, b, s, {'.', '['});
  }

  lemma SameIndex(i: nat, r: string, j: nat, s: string)
    requires Decimal(i) + ("]" + r) == Decimal(j) + ("]" + s)
    ensures i == j && r == s
  {
    hide Decimal, DigitsValue;
    assert Digits(Decimal(i)) && Digits(Decimal(j));
    SplitUnique(Decimal(i), "]" + r, Decimal(j), "]" + s, {']'});
    DecimalValue(i);
    DecimalValue(j);
    assert r == ("]" + r)[1..] && s == ("]" + s)[1..];
  }

  // ---------- The verdict ----------

  /** The trees agree everywhere except at volatile positions. */
  ghost predicate EqualUpToVolatile(py: Value, go: Value) {
    forall p :: Disagree(py, go, p) ==> IsVolatilePath(Render(p))
  }

  ghost predicate AllVolatile(diffs: multiset<Diff>) {
    forall d :: d in diffs ==> d.kind == Volatile
  }

  /** A reported diff is marked volatile iff its path text is. */
  lemma VolatileKind(py: Value, go: Value, d: Diff)
    requires d in Bag(py, go, [])
    ensures d.kind == Volatile <==> IsVolatilePath(Render(d.path))
  {
    hide Bag, HeadDiff, IsVolatilePath, Render, DiffAt;
    BagCount(py, go, [], d);
    DiffAtPath(py, go, d.path[0..]);
    assert d.path[0..] == d.path;
  }

  /** Without truncation, only volatile diffs are reported iff the trees are equal up to volatile positions. */
  lemma {:induction false} AllVolatileIff(py: Value, go: Value)
    ensures AllVolatile(Bag(py, go, [])) <==> EqualUpToVolatile(py, go)
  {
    hide Bag, IsVolatilePath, Render, DiffAt, Disagree;
    if AllVolatile(Bag(py, go, [])) {
      forall p | Disagree(py, go, p) ensures IsVolatilePath(Render(p)) {
        DiffIffDisagreement(py, go, p);
        var d :| d in Bag(py, go, []) && d.path == p;
        VolatileKind(py, go, d);
      }
    }
    if EqualUpToVolatile(py, go) {
      forall d | d in Bag(py, go, []) ensures d.kind == Volatile {
        DiffIffDisagreement(py, go, d.path);
        VolatileKind(py, go, d);
      }
    }
  }

  /** The trees have the same types and keys everywhere except at volatile positions. */
  ghost predicate SameTypesUpToVolatile(py: Value, go: Value) {
    forall p :: ValueDifferences.Structural(py, go, p) ==> IsVolatilePath(Render(p))
  }

  lemma {:induction false} TypesMatchIff(py: Value, go: Value)
    ensures (forall d :: d in Bag(py, go, []) ==> !Structural(d.kind)) <==> SameTypesUpToVolatile(py, go)
  {
    hide Bag, IsVolatilePath, Render, At, SameShape, NullAndEmpty, OneSided;
    if forall d :: d in Bag(py, go, []) ==> !Structural(d.kind) {
      forall p | ValueDifferences.Structural(py, go, p) ensures IsVolatilePath(Render(p)) {
        DiffIffDisagreement(py, go, p);
        var d :| d in Bag(py, go, []) && d.path == p;
        ReportedKind(py, go, d);
      }
    }
    if SameTypesUpToVolatile(py, go) {
      forall d | d in Bag(py, go, []) ensures !Structural(d.kind) {
        ReportedKind(py, go, d);
        NullAndEmptyDiffer(py, go, d.path);
      }
    }
  }

  lemma NullAndEmptyDiffer(py: Value, go: Value, p: Path)
    ensures At(py, p).Some? && At(go, p).Some? && NullAndEmpty(At(py, p).value, At(go, p).value) ==>
            !SameShape(At(py, p).value, At(go, p).value)
  {
    hide At;
  }

  datatype Verdict = Verdict(
    statusMatch: bool, keysMatch: bool, diffs: seq<Diff>, truncated: bool,
    exact: bool, typeMatch: bool, volatileOnly: bool, behaviorMatch: bool)

  predicate Structural(kind: DiffKind) {
    kind == TypeDiff || kind == MissingKey || kind == NullVsEmpty
  }

  /** The verdict on two responses. */
  method DeriveVerdict(pyStatus: int, goStatus: int, pyFailed: bool, goFailed: bool,
                       pyBody: Body, goBody: Body, num: Numbers, maxDiffs: int)
    returns (v: Verdict)
    ensures v.statusMatch <==> pyStatus == goStatus && !pyFailed && !goFailed
    ensures pyFailed || goFailed ==> !v.behaviorMatch && v.diffs == []
    ensures v.volatileOnly <==> v.diffs != [] && forall d :: d in v.diffs ==> d.kind == Volatile
    ensures !pyFailed && !goFailed ==>
              var (py, go) := (AsObject(pyBody, num), AsObject(goBody, num));
              && (v.keysMatch <==> py.fields.Keys == go.fields.Keys)
              && (v.typeMatch <==> forall d :: d in v.diffs ==> d.kind !in {TypeDiff, MissingKey, NullVsEmpty})
              && (!v.truncated ==> (v.typeMatch <==> SameTypesUpToVolatile(py, go)))
              && (maxDiffs > 0 ==> (v.exact <==> py == go))
              && (!v.truncated ==> (v.behaviorMatch <==> v.statusMatch && v.keysMatch && EqualUpToVolatile(py, go)))
    ensures !pyFailed && !goFailed && maxDiffs > 0 ==>
              ((v.exact <==> Same(pyBody, goBody, num)) <==> ToldApart(pyBody, goBody, num))
  {
    hide Bag, IsVolatilePath, Render, DiffAt, AsObject, Same, ToldApart, SameTypesUpToVolatile, EqualUpToVolatile;
    v := Verdict(pyStatus == goStatus && !pyFailed && !goFailed, false, [], false, false, false, false, false);
    if pyFailed || goFailed {
      return;
    }
    var (pyMap, goMap) := (AsObject(pyBody, num), AsObject(goBody, num));
    var diffs, truncated := CompareValues(pyMap, goMap, maxDiffs);
    var typeMatch := true;
    var volatileOnly := |diffs| > 0;
    for i := 0 to |diffs|
      invariant typeMatch <==> forall j :: 0 <= j < i ==> !Structural(diffs[j].kind)
      invariant volatileOnly <==> |diffs| > 0 && forall j :: 0 <= j < i ==> diffs[j].kind == Volatile
    {
      if Structural(diffs[i].kind) {
        typeMatch := false;
      }
      if diffs[i].kind != Volatile {
        volatileOnly := false;
      }
    }
    var exact := |diffs| == 0;
    var keysMatch := pyMap.fields.Keys == goMap.fields.Keys;
    v := Verdict(v.statusMatch, keysMatch, diffs, truncated, exact, typeMatch, volatileOnly,
                 v.statusMatch && keysMatch && typeMatch && (exact || volatileOnly));
    ExactIffEqual(pyMap, goMap, diffs, maxDiffs);
    ToldApartIff(pyBody, goBody, num);
    if !truncated {
      AllVolatileIff(pyMap, goMap);
      TypesMatchIff(pyMap, goMap);
      assert forall d :: d in diffs <==> d in multiset(diffs);
    }
  }

  lemma ExactIffEqual(py: Value, go: Value, diffs: seq<Diff>, maxDiffs: int)
    requires |diffs| == if |Bag(py, go, [])| <= Cap(maxDiffs) then |Bag(py, go, [])| else Cap(maxDiffs)
    ensures maxDiffs > 0 ==> (diffs == [] <==> py == go)
  {
    hide Bag;
    NoDiffsIffEqual(py, go);
    assert |Bag(py, go, [])| == 0 <==> Bag(py, go, []) == multiset{};
  }
}
