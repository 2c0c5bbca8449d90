/** Deep comparison of two decoded JSON values with a bounded diff collector. */
module ValueCompare {
  import opened Basics
  import opened Text

  /** A decoded value after number normalisation: a number is an int64, a float64, or, when it
      is neither, still its token, whose reflected kind is string. A float64 is given by one token
      for all forms of equal numbers, so that zero and negative zero share it. */
  datatype Value =
    | Null
    | Bool(b: bool)
    | Int(n: int)
    | Float(token: string)
    | RawNumber(token: string)
    | Str(s: string)
    | Array(items: seq<Value>)
    | Object(fields: map<string, Value>)

  datatype Kind = NullKind | BoolKind | IntKind | FloatKind | StringKind | SliceKind | MapKind

  function KindOf(v: Value): Kind {
    match v
    case Null => NullKind
    case Bool(_) => BoolKind
    case Int(_) => IntKind
    case Float(_) => FloatKind
    case RawNumber(_) => StringKind
    case Str(_) => StringKind
    case Array(_) => SliceKind
    case Object(_) => MapKind
  }

  function TypeName(v: Value): string {
    match v
    case Null => "null"
    case Bool(_) => "bool"
    case Int(_) => "int64"
    case Float(_) => "float64"
    case RawNumber(_) => "json.Number"
    case Str(_) => "string"
    case Array(_) => "[]interface {}"
    case Object(_) => "map[string]interface {}"
  }

  // ---------- Paths ----------

  datatype Step = Key(name: string) | Index(i: nat)

  type Path = seq<Step>

  function Piece(step: Step): string {
    match step
    case Key(name) => "." + name
    case Index(i) => "[" + Decimal(i) + "]"
  }

  /** The path text the code builds. */
  function Render(p: Path): string {
    if p == [] then "" else Render(p[..|p| - 1]) + Piece(p[|p| - 1])
  }

  const VOLATILE_NAMES: seq<string> :=
    ["timestamp", "exported_at", "generated_at", "runtime_updated_at", "updated_at"]

  /** The simple case folding of a character to an ASCII lower-case letter, where it has one. */
  function FoldChar(c: char): char {
    if 'A' <= c <= 'Z' then (c as int + 32) as char
    else if c == '\U{17f}' then 's'
    else if c == '\U{212a}' then 'k'
    else c
  }

  /** `strings.EqualFold` against a lower-case ASCII name. */
  predicate EqualFold(s: string, name: string) {
    |s| == |name| && forall i :: 0 <= i < |s| ==> FoldChar(s[i]) == name[i]
  }

  predicate VolatileName(s: string) {
    exists i :: 0 <= i < |VOLATILE_NAMES| && EqualFold(s, VOLATILE_NAMES[i])
  }

  /** `isVolatilePath`. */
  predicate IsVolatilePath(path: string) {
    var trimmed := if path != "" && path[0] == '.' then path[1..] else path;
    VolatileName(BeforeFirst(AfterLast(trimmed, '.'), '['))
  }

  // ---------- Diffs ----------

  datatype DiffKind = TypeDiff | ScalarDiff | ListLength | NullVsEmpty | Volatile | MissingKey

  /** What a diff prints for one side: a fixed text, or a scalar formatted with `%v`. */
  datatype Shown = Words(text: string) | Printed(v: Value)

  datatype Diff = Diff(path: Path, kind: DiffKind, py: Shown, go: Shown, note: string)

  /** The reclassification `append` applies. */
  function Classify(d: Diff): Diff {
    if IsVolatilePath(Render(d.path))
    then d.(kind := Volatile, note := if d.note == "" then "volatile field" else d.note)
    else d
  }

  /** The difference between two values themselves, leaving aside what is inside both. */
  function HeadDiff(py: Value, go: Value, path: Path): Option<Diff> {
    if py.Null? && go.Null? then None
    else if py.Null? then
      if go.Object? && go.fields == map[] then
        Some(Diff(path, NullVsEmpty, Words("null"), Words("empty object"), "null vs empty object"))
      else if go.Array? && go.items == [] then
        Some(Diff(path, NullVsEmpty, Words("null"), Words("empty array"), "null vs empty array"))
      else Some(Diff(path, TypeDiff, Words("null"), Words(TypeName(go)), ""))
    else if go.Null? then
      if py.Object? && py.fields == map[] then
        Some(Diff(path, NullVsEmpty, Words("empty object"), Words("null"), "empty object vs null"))
      else if py.Array? && py.items == [] then
        Some(Diff(path, NullVsEmpty, Words("empty array"), Words("null"), "empty array vs null"))
      else Some(Diff(path, TypeDiff, Words(TypeName(py)), Words("null"), ""))
    else if KindOf(py) != KindOf(go) then
      Some(Diff(path, TypeDiff, Words(TypeName(py)), Words(TypeName(go)), ""))
    else if py.Object? then None
    else if py.Array? then
      if |py.items| == |go.items| then None
      else Some(Diff(path, ListLength, Words(Decimal(|py.items|)), Words(Decimal(|go.items|)), ""))
    else if py == go then None
    else Some(Diff(path, ScalarDiff, Printed(py), Printed(go), ""))
  }

  function MissingDiff(path: Path, k: string, inPy: bool): Diff {
    Diff(path + [Key(k)], MissingKey,
         Words(if inPy then "present" else "missing"), Words(if inPy then "missing" else "present"), "")
  }

  // ---------- The unbounded specification ----------

  function OptionBag(d: Option<Diff>): multiset<Diff> {
    if d.None? then multiset{} else multiset{Classify(d.value)}
  }

  /** All diffs of two values, each as often as it would be reported without a bound. */
  ghost function Bag(py: Value, go: Value, path: Path): multiset<Diff>
    decreases py
  {
    OptionBag(HeadDiff(py, go, path)) +
    (if py.Object? && go.Object? then SumKeys(py, go, path, py.fields.Keys + go.fields.Keys)
     else if py.Array? && go.Array? then SumItems(py, go, path, MinLength(py, go))
     else multiset{})
  }

  function MinLength(py: Value, go: Value): nat
    requires py.Array? && go.Array?
  {
    if |go.items| < |py.items| then |go.items| else |py.items|
  }

  /** The diffs below one key of either object. */
  ghost function KeyBag(py: Value, go: Value, path: Path, k: string): multiset<Diff>
    requires py.Object? && go.Object? && (k in py.fields || k in go.fields)
    decreases py, 0
  {
    if k !in go.fields then multiset{Classify(MissingDiff(path, k, true))}
    else if k !in py.fields then multiset{Classify(MissingDiff(path, k, false))}
    else Bag(py.fields[k], go.fields[k], path + [Key(k)])
  }

  ghost function Pick(keys: set<string>): (k: string)
    requires keys != {}
    ensures k in keys
  {
    var k :| k in keys;
    k
  }

  ghost function SumKeys(py: Value, go: Value, path: Path, keys: set<string>): multiset<Diff>
    requires py.Object? && go.Object? && keys <= py.fields.Keys + go.fields.Keys
    decreases py, 1, keys
  {
    if keys == {} then multiset{}
    else KeyBag(py, go, path, Pick(keys)) + SumKeys(py, go, path, keys - {Pick(keys)})
  }

  ghost function SumItems(py: Value, go: Value, path: Path, n: nat): multiset<Diff>
    requires py.Array? && go.Array? && n <= |py.items| && n <= |go.items|
    decreases py, 1, n
  {
    if n == 0 then multiset{}
    else SumItems(py, go, path, n - 1) + Bag(py.items[n - 1], go.items[n - 1], path + [Index(n - 1)])
  }

  /** The sum over keys does not depend on the order in which they are taken. */
  lemma {:induction false} SumKeysAny(py: Value, go: Value, path: Path, keys: set<string>, k: string)
    requires py.Object? && go.Object? && keys <= py.fields.Keys + go.fields.Keys && k in keys
    ensures SumKeys(py, go, path, keys) == KeyBag(py, go, path, k) + SumKeys(py, go, path, keys - {k})
    decreases keys
  {
    hide KeyBag;
    var j := Pick(keys);
    if j != k {
      SumKeysAny(py, go, path, keys - {j}, k);
      SumKeysAny(py, go, path, keys - {k}, j);
      assert keys - {j} - {k} == keys - {k} - {j};
    }
  }

  // ---------- The bounded collector ----------

  function Cap(maxDiffs: int): nat {
    if maxDiffs < 0 then 0 else maxDiffs
  }

  /** `after` extends `before` by as many of the diffs in `bag` as the cap allows. */
  ghost predicate Collected(before: seq<Diff>, after: seq<Diff>, truncated: bool, maxDiffs: int, bag: multiset<Diff>) {
    && |before| <= |after| && after[..|before|] == before
    && multiset(after[|before|..]) <= bag
    && |after| == (if |before| + |bag| <= Cap(maxDiffs) then |before| + |bag| else Cap(maxDiffs))
    && (truncated <==> |before| + |bag| > Cap(maxDiffs))
  }

  lemma CollectedNothing(before: seq<Diff>, maxDiffs: int)
    requires |before| <= Cap(maxDiffs)
    ensures Collected(before, before, false, maxDiffs, multiset{})
  {
    assert before[|before|..] == [];
  }

  lemma CollectedThen(before: seq<Diff>, mid: seq<Diff>, after: seq<Diff>, truncated: bool, maxDiffs: int,
                      first: multiset<Diff>, second: multiset<Diff>)
    requires Collected(before, mid, false, maxDiffs, first)
    requires Collected(mid, after, truncated, maxDiffs, second)
    ensures Collected(before, after, truncated, maxDiffs, first + second)
  {
    assert after[|before|..] == mid[|before|..] + after[|mid|..];
    assert after[..|before|] == after[..|mid|][..|before|];
  }

  /** Once truncated, the diffs not yet visited change nothing. */
  lemma CollectedEnough(before: seq<Diff>, after: seq<Diff>, maxDiffs: int, some: multiset<Diff>, all: multiset<Diff>)
    requires Collected(before, after, true, maxDiffs, some) && some <= all
    ensures Collected(before, after, true, maxDiffs, all)
  {
    assert all == some + (all - some);
  }

  class DiffCollector {
    var diffs: seq<Diff>
    var truncated: bool
    const maxDiffs: int

    constructor (maxDiffs: int)
      ensures diffs == [] && !truncated && this.maxDiffs == maxDiffs
    {
      diffs, truncated := [], false;
      this.maxDiffs := maxDiffs;
    }

    method Append(d: Diff)
      requires !truncated && |diffs| <= Cap(maxDiffs)
      modifies this
      ensures Collected(old(diffs), diffs, truncated, maxDiffs, multiset{Classify(d)})
    {
      if |diffs| >= maxDiffs {
        truncated := true;
        return;
      }
      diffs := diffs + [Classify(d)];
      assert diffs[|old(diffs)|..] == [Classify(d)];
    }
  }

  /** The diff for exactly one null side. */
  method NullDiff(py: Value, go: Value, path: Path) returns (d: Diff)
    requires py.Null? != go.Null?
    ensures HeadDiff(py, go, path) == Some(d)
  {
    if py.Null? {
      if go.Object? && |go.fields| == 0 {
        return Diff(path, NullVsEmpty, Words("null"), Words("empty object"), "null vs empty object");
      }
      if go.Array? && |go.items| == 0 {
        return Diff(path, NullVsEmpty, Words("null"), Words("empty array"), "null vs empty array");
      }
      return Diff(path, TypeDiff, Words("null"), Words(TypeName(go)), "");
    }
    if py.Object? && |py.fields| == 0 {
      return Diff(path, NullVsEmpty, Words("empty object"), Words("null"), "empty object vs null");
    }
    if py.Array? && |py.items| == 0 {
      return Diff(path, NullVsEmpty, Words("empty array"), Words("null"), "empty array vs null");
    }
    return Diff(path, TypeDiff, Words(TypeName(py)), Words("null"), "");
  }

  /** Values that are not two objects or two arrays have at most their own difference. */
  lemma HeadOnly(py: Value, go: Value, path: Path)
    requires !(py.Object? && go.Object?) && !(py.Array? && go.Array?)
    ensures Bag(py, go, path) == match HeadDiff(py, go, path)
                                 case None => multiset{}
                                 case Some(d) => multiset{Classify(d)}
    ensures !py.Null? && !go.Null? ==>
              HeadDiff(py, go, path) ==
                if KindOf(py) != KindOf(go) then
                  Some(Diff(path, TypeDiff, Words(TypeName(py)), Words(TypeName(go)), ""))
                else if py != go then Some(Diff(path, ScalarDiff, Printed(py), Printed(go), ""))
                else None
  {
  }

  /** Two arrays differ themselves only in length. */
  lemma ArrayHead(py: Value, go: Value, path: Path)
    requires py.Array? && go.Array?
    ensures Bag(py, go, path) ==
              (if |py.items| == |go.items| then multiset{}
               else multiset{Classify(Diff(path, ListLength, Words(Decimal(|py.items|)), Words(Decimal(|go.items|)),
                                           ""))})
              + SumItems(py, go, path, MinLength(py, go))
  {
  }

  method CompareValue(py: Value, go: Value, path: Path, dc: DiffCollector)
    requires |dc.diffs| <= Cap(dc.maxDiffs)
    modifies dc
    ensures old(dc.truncated) ==> dc.truncated && dc.diffs == old(dc.diffs)
    ensures !old(dc.truncated) ==> Collected(old(dc.diffs), dc.diffs, dc.truncated, dc.maxDiffs, Bag(py, go, path))
    decreases py, 2
  {
    if dc.truncated {
      return;
    }
    hide IsVolatilePath, Render, Collected, Bag, Classify, TypeName, HeadDiff;
    CollectedNothing(dc.diffs, dc.maxDiffs);
    if py.Object? && go.Object? {
      CompareMap(py, go, path, dc);
      return;
    }
    if py.Array? && go.Array? {
      CompareSlice(py, go, path, dc);
      return;
    }
    HeadOnly(py, go, path);
    if py.Null? && go.Null? {
      return;
    }
    if py.Null? || go.Null? {
      var d := NullDiff(py, go, path);
      dc.Append(d);
      return;
    }
    if KindOf(py) != KindOf(go) {
      dc.Append(Diff(path, TypeDiff, Words(TypeName(py)), Words(TypeName(go)), ""));
      return;
    }
    if py != go {
      dc.Append(Diff(path, ScalarDiff, Printed(py), Printed(go), ""));
    }
  }

  method CompareSlice(py: Value, go: Value, path: Path, dc: DiffCollector)
    requires py.Array? && go.Array? && !dc.truncated && |dc.diffs| <= Cap(dc.maxDiffs)
    modifies dc
    ensures Collected(old(dc.diffs), dc.diffs, dc.truncated, dc.maxDiffs, Bag(py, go, path))
    decreases py, 1
  {
    hide IsVolatilePath, Render, Collected, Bag, Classify, SumItems, Decimal;
    ghost var before := dc.diffs;
    ghost var head: multiset<Diff> := multiset{};
    ArrayHead(py, go, path);
    var minLen := MinLength(py, go);
    CollectedNothing(before, dc.maxDiffs);
    SumItemsNothing(py, go, path);
    if |py.items| != |go.items| {
      ghost var d := Diff(path, ListLength, Words(Decimal(|py.items|)), Words(Decimal(|go.items|)), "");
      dc.Append(Diff(path, ListLength, Words(Decimal(|py.items|)), Words(Decimal(|go.items|)), ""));
      head := multiset{Classify(d)};
      if dc.truncated {
        CollectedEnough(before, dc.diffs, dc.maxDiffs, head, Bag(py, go, path));
        return;
      }
    }
    assert head + multiset{} == head;
    assert Collected(before, dc.diffs, false, dc.maxDiffs, head);
    CollectedCap(before, dc.diffs, false, dc.maxDiffs, head);
    var i := 0;
    while i < minLen
      invariant 0 <= i <= minLen && !dc.truncated
      invariant Collected(before, dc.diffs, false, dc.maxDiffs, head + SumItems(py, go, path, i))
      invariant |dc.diffs| <= Cap(dc.maxDiffs)
    {
      ghost var mid := dc.diffs;
      CompareValue(py.items[i], go.items[i], path + [Index(i)], dc);
      ghost var below := Bag(py.items[i], go.items[i], path + [Index(i)]);
      CollectedThen(before, mid, dc.diffs, dc.truncated, dc.maxDiffs, head + SumItems(py, go, path, i), below);
      CollectedCap(mid, dc.diffs, dc.truncated, dc.maxDiffs, below);
      SumItemsNext(py, go, path, i);
      assert head + SumItems(py, go, path, i) + below == head + SumItems(py, go, path, i + 1);
      i := i + 1;
      if dc.truncated {
        SumItemsGrow(py, go, path, i, minLen);
        CollectedEnough(before, dc.diffs, dc.maxDiffs, head + SumItems(py, go, path, i), Bag(py, go, path));
        return;
      }
    }
  }

  lemma SumItemsNext(py: Value, go: Value, path: Path, i: nat)
    requires py.Array? && go.Array? && i < |py.items| && i < |go.items|
    ensures SumItems(py, go, path, i + 1)
         == SumItems(py, go, path, i) + Bag(py.items[i], go.items[i], path + [Index(i)])
  {
  }

  lemma SumItemsNothing(py: Value, go: Value, path: Path)
    requires py.Array? && go.Array?
    ensures SumItems(py, go, path, 0) == multiset{}
  {
  }

  lemma CollectedCap(before: seq<Diff>, after: seq<Diff>, truncated: bool, maxDiffs: int, bag: multiset<Diff>)
    requires Collected(before, after, truncated, maxDiffs, bag)
    ensures |after| <= Cap(maxDiffs)
  {
  }

  lemma {:induction false} SumItemsGrow(py: Value, go: Value, path: Path, i: nat, n: nat)
    requires py.Array? && go.Array? && i <= n <= |py.items| && n <= |go.items|
    ensures SumItems(py, go, path, i) <= SumItems(py, go, path, n)
    decreases n
  {
    hide Bag;
    if i < n {
      SumItemsGrow(py, go, path, i, n - 1);
    }
  }

  lemma {:induction false} SumKeysGrow(py: Value, go: Value, path: Path, some: set<string>, all: set<string>)
    requires py.Object? && go.Object? && some <= all <= py.fields.Keys + go.fields.Keys
    ensures SumKeys(py, go, path, some) <= SumKeys(py, go, path, all)
    decreases all
  {
    hide KeyBag;
    if some != all {
      assert exists k :: k in all && k !in some;
      var k :| k in all && k !in some;
      SumKeysAny(py, go, path, all, k);
      SumKeysGrow(py, go, path, some, all - {k});
    }
  }

  /** The state inside the loops of `compareMap`: the diffs below the keys `done` are collected. */
  ghost predicate Visited(before: seq<Diff>, after: seq<Diff>, truncated: bool, maxDiffs: int,
                          py: Value, go: Value, path: Path, done: set<string>)
    requires py.Object? && go.Object?
  {
    && done <= py.fields.Keys + go.fields.Keys
    && Collected(before, after, truncated, maxDiffs, SumKeys(py, go, path, done))
    && |after| <= Cap(maxDiffs)
  }

  lemma VisitedNothing(before: seq<Diff>, maxDiffs: int, py: Value, go: Value, path: Path)
    requires py.Object? && go.Object? && |before| <= Cap(maxDiffs)
    ensures Visited(before, before, false, maxDiffs, py, go, path, {})
  {
    CollectedNothing(before, maxDiffs);
  }

  /** Visiting one more key, by one `append` or one recursive comparison. */
  lemma {:induction false} VisitKey(before: seq<Diff>, mid: seq<Diff>, after: seq<Diff>, truncated: bool, maxDiffs: int,
                 py: Value, go: Value, path: Path, done: set<string>, k: string)
    requires py.Object? && go.Object? && k !in done && (k in py.fields || k in go.fields)
    requires Visited(before, mid, false, maxDiffs, py, go, path, done)
    requires Collected(mid, after, truncated, maxDiffs, KeyBag(py, go, path, k))
    ensures Visited(before, after, truncated, maxDiffs, py, go, path, done + {k})
    ensures truncated ==> Collected(before, after, truncated, maxDiffs, Bag(py, go, path))
  {
    hide KeyBag, SumKeys, Bag, Collected;
    SumKeysAny(py, go, path, done + {k}, k);
    assert done + {k} - {k} == done;
    CollectedThen(before, mid, after, truncated, maxDiffs, SumKeys(py, go, path, done), KeyBag(py, go, path, k));
    assert SumKeys(py, go, path, done) + KeyBag(py, go, path, k) == SumKeys(py, go, path, done + {k});
    CollectedCap(mid, after, truncated, maxDiffs, KeyBag(py, go, path, k));
    if truncated {
      var all := py.fields.Keys + go.fields.Keys;
      SumKeysGrow(py, go, path, done + {k}, all);
      CollectedEnough(before, after, maxDiffs, SumKeys(py, go, path, done + {k}), SumKeys(py, go, path, all));
      VisitedAll(py, go, path, all);
    }
  }

  lemma VisitedAll(py: Value, go: Value, path: Path, done: set<string>)
    requires py.Object? && go.Object? && done == py.fields.Keys + go.fields.Keys
    ensures Bag(py, go, path) == SumKeys(py, go, path, done)
  {
  }

  method CompareMap(py: Value, go: Value, path: Path, dc: DiffCollector)
    requires py.Object? && go.Object? && !dc.truncated && |dc.diffs| <= Cap(dc.maxDiffs)
    modifies dc
    ensures Collected(old(dc.diffs), dc.diffs, dc.truncated, dc.maxDiffs, Bag(py, go, path))
    decreases py, 1
  {
    hide IsVolatilePath, Render, Collected, Bag, SumKeys;
    ghost var before := dc.diffs;
    VisitedNothing(before, dc.maxDiffs, py, go, path);
    ghost var done := CompareMissing(py, go, path, dc, before);
    if dc.truncated {
      return;
    }
    done := CompareExtra(py, go, path, dc, before, done);
    if dc.truncated {
      return;
    }
    var todo := py.fields.Keys;
    while todo != {}
      invariant todo <= py.fields.Keys
      invariant done == (py.fields.Keys + go.fields.Keys) - (todo * go.fields.Keys)
      invariant Visited(before, dc.diffs, dc.truncated, dc.maxDiffs, py, go, path, done) && !dc.truncated
      decreases todo
    {
      var k :| k in todo;
      todo := todo - {k};
      if k in go.fields {
        ghost var mid := dc.diffs;
        CompareValue(py.fields[k], go.fields[k], path + [Key(k)], dc);
        VisitKey(before, mid, dc.diffs, dc.truncated, dc.maxDiffs, py, go, path, done, k);
        done := done + {k};
        if dc.truncated {
          return;
        }
      }
    }
    VisitedAll(py, go, path, done);
  }

  /** The loop over keys missing on the Go side. */
  method CompareMissing(py: Value, go: Value, path: Path, dc: DiffCollector, ghost before: seq<Diff>)
    returns (ghost done: set<string>)
    requires py.Object? && go.Object? && !dc.truncated
    requires Visited(before, dc.diffs, false, dc.maxDiffs, py, go, path, {})
    modifies dc
    ensures dc.truncated ==> Collected(before, dc.diffs, true, dc.maxDiffs, Bag(py, go, path))
    ensures !dc.truncated ==>
              && done == py.fields.Keys - go.fields.Keys
              && Visited(before, dc.diffs, false, dc.maxDiffs, py, go, path, done)
  {
    hide IsVolatilePath, Render, Collected, Bag, SumKeys;
    done := {};
    var todo := py.fields.Keys;
    while todo != {}
      invariant todo <= py.fields.Keys && done == py.fields.Keys - todo - go.fields.Keys
      invariant Visited(before, dc.diffs, false, dc.maxDiffs, py, go, path, done) && !dc.truncated
      decreases todo
    {
      var k :| k in todo;
      todo := todo - {k};
      if k !in go.fields {
        ghost var mid := dc.diffs;
        dc.Append(MissingDiff(path, k, true));
        VisitKey(before, mid, dc.diffs, dc.truncated, dc.maxDiffs, py, go, path, done, k);
        done := done + {k};
        if dc.truncated {
          return;
        }
      }
    }
  }

  /** The loop over keys missing on the Python side. */
  method CompareExtra(py: Value, go: Value, path: Path, dc: DiffCollector, ghost before: seq<Diff>,
                      ghost start: set<string>)
    returns (ghost done: set<string>)
    requires py.Object? && go.Object? && !dc.truncated
    requires start == py.fields.Keys - go.fields.Keys
    requires Visited(before, dc.diffs, false, dc.maxDiffs, py, go, path, start)
    modifies dc
    ensures dc.truncated ==> Collected(before, dc.diffs, true, dc.maxDiffs, Bag(py, go, path))
    ensures !dc.truncated ==>
              && done == (py.fields.Keys + go.fields.Keys) - (py.fields.Keys * go.fields.Keys)
              && Visited(before, dc.diffs, false, dc.maxDiffs, py, go, path, done)
  {
    hide IsVolatilePath, Render, Collected, Bag, SumKeys;
    done := start;
    var todo := go.fields.Keys;
    while todo != {}
      invariant todo <= go.fields.Keys && done == start + (go.fields.Keys - todo - py.fields.Keys)
      invariant Visited(before, dc.diffs, false, dc.maxDiffs, py, go, path, done) && !dc.truncated
      decreases todo
    {
      var k :| k in todo;
      todo := todo - {k};
      if k !in py.fields {
        ghost var mid := dc.diffs;
        dc.Append(MissingDiff(path, k, false));
        VisitKey(before, mid, dc.diffs, dc.truncated, dc.maxDiffs, py, go, path, done, k);
        done := done + {k};
        if dc.truncated {
          return;
        }
      }
    }
  }

  /** `CompareValues`: exactly as many of the diffs as the bound allows, and whether there are more. */
  method CompareValues(py: Value, go: Value, maxDiffs: int) returns (diffs: seq<Diff>, truncated: bool)
    ensures multiset(diffs) <= Bag(py, go, [])
    ensures |diffs| == if |Bag(py, go, [])| <= Cap(maxDiffs) then |Bag(py, go, [])| else Cap(maxDiffs)
    ensures truncated <==> |Bag(py, go, [])| > Cap(maxDiffs)
    ensures !truncated ==> multiset(diffs) == Bag(py, go, [])
    ensures maxDiffs <= 0 ==> diffs == []
    ensures maxDiffs > 0 ==> |diffs| == (if truncated then maxDiffs else |Bag(py, go, [])|) <= maxDiffs
  {
    hide Bag;
    var dc := new DiffCollector(maxDiffs);
    CompareValue(py, go, [], dc);
    assert dc.diffs[0..] == dc.diffs;
    SameSize(multiset(dc.diffs), Bag(py, go, []));
    return dc.diffs, dc.truncated;
  }

  lemma SameSize(a: multiset<Diff>, b: multiset<Diff>)
    requires a <= b
    ensures |a| == |b| ==> a == b
  {
    assert b == a + (b - a);
    if |a| == |b| {
      assert |b - a| == 0;
    }
  }
}
