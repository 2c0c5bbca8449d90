/** The duplicate-key check on a manifest: a recursive walk over a token stream. */
module DuplicateKeys {
  import opened Basics

  datatype Token = BeginObject | EndObject | BeginArray | EndArray | Text(s: string) | Atom(lexeme: string)

  /** A JSON value as written: an object is a list of members, which may repeat a key. */
  datatype Json =
    | JText(s: string)
    | JAtom(lexeme: string)
    | JArray(items: seq<Json>)
    | JObject(members: seq<(string, Json)>)

  function Tokens(v: Json): (r: seq<Token>)
    ensures r != []
    decreases v
  {
    match v
    case JText(s) => [Text(s)]
    case JAtom(l) => [Atom(l)]
    case JArray(items) => [BeginArray] + ItemTokens(v, 0) + [EndArray]
    case JObject(members) => [BeginObject] + MemberTokens(v, 0) + [EndObject]
  }

  function ItemTokens(v: Json, i: nat): seq<Token>
    requires v.JArray? && i <= |v.items|
    decreases v, |v.items| - i
  {
    if i == |v.items| then [] else Tokens(v.items[i]) + ItemTokens(v, i + 1)
  }

  function MemberTokens(v: Json, i: nat): seq<Token>
    requires v.JObject? && i <= |v.members|
    decreases v, |v.members| - i
  {
    if i == |v.members| then [] else [Text(v.members[i].0)] + Tokens(v.members[i].1) + MemberTokens(v, i + 1)
  }

  /** No object in the value, at any depth, repeats a key. */
  predicate UniqueKeys(v: Json) {
    match v
    case JArray(items) => forall i :: 0 <= i < |items| ==> UniqueKeys(items[i])
    case JObject(members) =>
      && (forall i, j :: 0 <= i < j < |members| ==> members[i].0 != members[j].0)
      && forall i :: 0 <= i < |members| ==> UniqueKeys(members[i].1)
    case _ => true
  }

  // ---------- The walk as a function of the stream ----------

  datatype Outcome = Done(next: nat) | Duplicate | Malformed

  /** The walk of one value from token `i` on. */
  function Walk(ts: seq<Token>, i: nat): (r: Outcome)
    ensures r.Done? ==> i < r.next <= |ts|
    decreases |ts| - i, 0
  {
    if i >= |ts| then Malformed
    else match ts[i]
      case Text(_) => Done(i + 1)
      case Atom(_) => Done(i + 1)
      case BeginArray => WalkItems(ts, i + 1)
      case BeginObject => WalkMembers(ts, i + 1, {})
      case _ => Malformed
  }

  function WalkItems(ts: seq<Token>, i: nat): (r: Outcome)
    ensures r.Done? ==> i < r.next <= |ts|
    decreases |ts| - i, 1
  {
    if i >= |ts| then Malformed
    else if ts[i] == EndArray then Done(i + 1)
    else
      var first := Walk(ts, i);
      if first.Done? then WalkItems(ts, first.next) else first
  }

  function WalkMembers(ts: seq<Token>, i: nat, seen: set<string>): (r: Outcome)
    ensures r.Done? ==> i < r.next <= |ts|
    decreases |ts| - i, 1
  {
    if i >= |ts| then Malformed
    else if ts[i] == EndObject then Done(i + 1)
    else if !ts[i].Text? then Malformed
    else if ts[i].s in seen then Duplicate
    else
      var value := Walk(ts, i + 1);
      if value.Done? then WalkMembers(ts, value.next, seen + {ts[i].s}) else value
  }

  // ---------- The walk on the tokens of a value ----------

  /** The tokens `part` stand in `ts` from index `i` on. */
  predicate Stands(part: seq<Token>, ts: seq<Token>, i: nat) {
    i + |part| <= |ts| && ts[i..i + |part|] == part
  }

  lemma StandsSplit(a: seq<Token>, b: seq<Token>, ts: seq<Token>, i: nat)
    ensures Stands(a + b, ts, i) <==> Stands(a, ts, i) && Stands(b, ts, i + |a|)
  {
    if Stands(a + b, ts, i) {
      assert a == (a + b)[..|a|] && b == (a + b)[|a|..];
      assert ts[i..i + |a|] == ts[i..i + |a + b|][..|a|];
      assert ts[i + |a|..i + |a| + |b|] == ts[i..i + |a + b|][|a|..];
    }
    if Stands(a, ts, i) && Stands(b, ts, i + |a|) {
      assert ts[i..i + |a + b|] == ts[i..i + |a|] + ts[i + |a|..i + |a| + |b|];
    }
  }

  lemma StandsFirst(part: seq<Token>, ts: seq<Token>, i: nat)
    requires part != [] && Stands(part, ts, i)
    ensures i < |ts| && ts[i] == part[0]
  {
    assert ts[i..i + |part|][0] == ts[i];
  }

  /** On the tokens of a value the walk consumes exactly these, and succeeds iff no object repeats a key. */
  lemma {:induction false} WalkValue(v: Json, ts: seq<Token>, i: nat)
    requires Stands(Tokens(v), ts, i)
    ensures Walk(ts, i) == if UniqueKeys(v) then Done(i + |Tokens(v)|) else Duplicate
    decreases v
  {
    hide Stands, ItemTokens, MemberTokens, WalkItems, WalkMembers;
    match v {
      case JText(_) => StandsFirst(Tokens(v), ts, i);
      case JAtom(_) => StandsFirst(Tokens(v), ts, i);
      case JArray(_) =>
        StandsSplit([BeginArray] + ItemTokens(v, 0), [EndArray], ts, i);
        StandsSplit([BeginArray], ItemTokens(v, 0), ts, i);
        StandsFirst([BeginArray], ts, i);
        StandsFirst([EndArray], ts, i + 1 + |ItemTokens(v, 0)|);
        WalkItemsOf(v, ts, i + 1, 0);
      case JObject(_) =>
        StandsSplit([BeginObject] + MemberTokens(v, 0), [EndObject], ts, i);
        StandsSplit([BeginObject], MemberTokens(v, 0), ts, i);
        StandsFirst([BeginObject], ts, i);
        StandsFirst([EndObject], ts, i + 1 + |MemberTokens(v, 0)|);
        assert KeysBefore(v, 0) == {};
        WalkMembersOf(v, ts, i + 1, 0);
    }
  }

  lemma {:induction false} WalkItemsOf(v: Json, ts: seq<Token>, i: nat, k: nat)
    requires v.JArray? && k <= |v.items| && Stands(ItemTokens(v, k), ts, i)
    requires i + |ItemTokens(v, k)| < |ts| && ts[i + |ItemTokens(v, k)|] == EndArray
    ensures WalkItems(ts, i) == if forall j :: k <= j < |v.items| ==> UniqueKeys(v.items[j])
                                then Done(i + |ItemTokens(v, k)| + 1) else Duplicate
    decreases v, |v.items| - k
  {
    hide UniqueKeys, Tokens, Stands, Walk;
    if k < |v.items| {
      StandsSplit(Tokens(v.items[k]), ItemTokens(v, k + 1), ts, i);
      WalkValue(v.items[k], ts, i);
      FirstToken(v.items[k], ts, i);
      WalkItemsOf(v, ts, i + |Tokens(v.items[k])|, k + 1);
    }
  }

  /** The keys of the first `k` members. */
  function KeysBefore(v: Json, k: nat): set<string>
    requires v.JObject? && k <= |v.members|
  {
    set j | 0 <= j < k :: v.members[j].0
  }

  /** From member `k` on, values keep their keys unique and no key repeats an earlier one. */
  predicate UniqueFrom(v: Json, k: nat)
    requires v.JObject?
  {
    && (forall j :: k <= j < |v.members| ==> UniqueKeys(v.members[j].1))
    && forall a, b :: 0 <= a < b < |v.members| && k <= b ==> v.members[a].0 != v.members[b].0
  }

  lemma UniqueFromNext(v: Json, k: nat)
    requires v.JObject? && k < |v.members|
    ensures UniqueFrom(v, k) <==>
              v.members[k].0 !in KeysBefore(v, k) && UniqueKeys(v.members[k].1) && UniqueFrom(v, k + 1)
    ensures KeysBefore(v, k + 1) == KeysBefore(v, k) + {v.members[k].0}
  {
    hide UniqueKeys;
    if v.members[k].0 in KeysBefore(v, k) {
      var j :| 0 <= j < k && v.members[j].0 == v.members[k].0;
    }
    assert v.members[k].0 !in KeysBefore(v, k) ==> forall a :: 0 <= a < k ==> v.members[a].0 != v.members[k].0 by {
      assert forall a :: 0 <= a < k ==> v.members[a].0 in KeysBefore(v, k);
    }
  }

  lemma UniqueFromEnd(v: Json)
    requires v.JObject?
    ensures UniqueFrom(v, |v.members|)
  {
  }

  lemma {:induction false} WalkMembersOf(v: Json, ts: seq<Token>, i: nat, k: nat)
    requires v.JObject? && k <= |v.members| && Stands(MemberTokens(v, k), ts, i)
    requires i + |MemberTokens(v, k)| < |ts| && ts[i + |MemberTokens(v, k)|] == EndObject
    ensures WalkMembers(ts, i, KeysBefore(v, k)) ==
              if UniqueFrom(v, k) then Done(i + |MemberTokens(v, k)| + 1) else Duplicate
    decreases v, |v.members| - k
  {
    hide UniqueKeys, Tokens, KeysBefore, UniqueFrom, Stands, Walk;
    if k == |v.members| {
      UniqueFromEnd(v);
    } else {
      var (name, value) := v.members[k];
      StandsSplit([Text(name)] + Tokens(value), MemberTokens(v, k + 1), ts, i);
      StandsSplit([Text(name)], Tokens(value), ts, i);
      StandsFirst([Text(name)], ts, i);
      UniqueFromNext(v, k);
      WalkValue(value, ts, i + 1);
      if name !in KeysBefore(v, k) && UniqueKeys(value) {
        WalkMembersOf(v, ts, i + 1 + |Tokens(value)|, k + 1);
      }
    }
  }

  /** A value never starts with a closing token. */
  lemma FirstToken(v: Json, ts: seq<Token>, i: nat)
    requires Stands(Tokens(v), ts, i)
    ensures i < |ts| && ts[i] != EndArray && ts[i] != EndObject && ts[i] == Tokens(v)[0]
  {
    StandsFirst(Tokens(v), ts, i);
  }

  // ---------- What a successful walk has read ----------

  /** A successful walk has read the tokens of a value without repeated keys. */
  lemma {:induction false} WalkReads(ts: seq<Token>, i: nat) returns (v: Json)
    requires Walk(ts, i).Done?
    ensures UniqueKeys(v) && ts[i..Walk(ts, i).next] == Tokens(v)
    decreases |ts| - i, 0
  {
    var next := Walk(ts, i).next;
    assert ts[i..i + 1] == [ts[i]];
    match ts[i] {
      case Text(s) => v := JText(s);
      case Atom(l) => v := JAtom(l);
      case BeginArray =>
        v := ItemsRead(ts, i + 1, [], i + 1);
        assert ts[i..next] == [BeginArray] + ts[i + 1..next];
        assert [BeginArray] + (ItemTokens(v, 0) + [EndArray]) == Tokens(v);
      case BeginObject =>
        assert KeysBefore(JObject([]), 0) == {};
        v := MembersRead(ts, i + 1, [], i + 1);
        assert ts[i..next] == [BeginObject] + ts[i + 1..next];
        assert [BeginObject] + (MemberTokens(v, 0) + [EndObject]) == Tokens(v);
    }
  }

  lemma {:induction false} ItemsSnoc(items: seq<Json>, x: Json, k: nat)
    requires k <= |items|
    ensures ItemTokens(JArray(items + [x]), k) == ItemTokens(JArray(items), k) + Tokens(x)
    decreases |items| - k
  {
    hide Tokens;
    if k < |items| {
      ItemsSnoc(items, x, k + 1);
    } else {
      assert ItemTokens(JArray(items + [x]), k + 1) == [];
    }
  }

  lemma {:induction false} MembersSnoc(members: seq<(string, Json)>, x: (string, Json), k: nat)
    requires k <= |members|
    ensures MemberTokens(JObject(members + [x]), k) == MemberTokens(JObject(members), k) + [Text(x.0)] + Tokens(x.1)
    decreases |members| - k
  {
    hide Tokens;
    if k < |members| {
      MembersSnoc(members, x, k + 1);
    } else {
      assert MemberTokens(JObject(members + [x]), k + 1) == [];
    }
  }

  /** From inside an array whose items so far span `ts[start..i]`. */
  lemma {:induction false} ItemsRead(ts: seq<Token>, i: nat, items: seq<Json>, start: nat) returns (v: Json)
    requires WalkItems(ts, i).Done? && start <= i <= |ts|
    requires ItemTokens(JArray(items), 0) == ts[start..i] && UniqueKeys(JArray(items))
    ensures v.JArray? && UniqueKeys(v) && ts[start..WalkItems(ts, i).next] == ItemTokens(v, 0) + [EndArray]
    decreases |ts| - i, 1
  {
    hide Tokens;
    if ts[i] == EndArray {
      v := JArray(items);
      assert ts[start..i + 1] == ts[start..i] + [EndArray];
    } else {
      var x := WalkReads(ts, i);
      var next := Walk(ts, i).next;
      ItemsSnoc(items, x, 0);
      assert ts[start..next] == ts[start..i] + ts[i..next];
      v := ItemsRead(ts, next, items + [x], start);
    }
  }

  lemma {:induction false} MembersRead(ts: seq<Token>, i: nat, members: seq<(string, Json)>, start: nat)
    returns (v: Json)
    requires WalkMembers(ts, i, KeysBefore(JObject(members), |members|)).Done?
    requires start <= i <= |ts| && MemberTokens(JObject(members), 0) == ts[start..i] && UniqueKeys(JObject(members))
    ensures v.JObject? && UniqueKeys(v)
    ensures ts[start..WalkMembers(ts, i, KeysBefore(JObject(members), |members|)).next] ==
          MemberTokens(v, 0) + [EndObject]
    decreases |ts| - i, 1
  {
    hide Tokens;
    if ts[i] == EndObject {
      v := JObject(members);
      assert ts[start..i + 1] == ts[start..i] + [EndObject];
    } else {
      var x := WalkReads(ts, i + 1);
      var next := Walk(ts, i + 1).next;
      var more := members + [(ts[i].s, x)];
      MembersSnoc(members, (ts[i].s, x), 0);
      assert ts[start..next] == ts[start..i] + [ts[i]] + ts[i + 1..next];
      KeysSnoc(members, ts[i].s, x);
      v := MembersRead(ts, next, more, start);
    }
  }

  lemma KeysSnoc(members: seq<(string, Json)>, k: string, x: Json)
    ensures var more := members + [(k, x)];
            && KeysBefore(JObject(more), |more|) == KeysBefore(JObject(members), |members|) + {k}
            && (UniqueKeys(JObject(members)) && UniqueKeys(x) && k !in KeysBefore(JObject(members), |members|)
                ==> UniqueKeys(JObject(more)))
  {
    var more := members + [(k, x)];
    assert more[|members|] == (k, x);
    assert forall j :: 0 <= j < |members| ==> more[j] == members[j];
    assert forall j :: 0 <= j < |members| ==> members[j].0 in KeysBefore(JObject(members), |members|);
  }

  // ---------- A stream is the tokens of at most one value ----------

  /** Token texts of values are prefix-free, so a stream reads back as one value only. */
  lemma {:induction false} TokensPrefixFree(a: Json, r: seq<Token>, b: Json, s: seq<Token>)
    requires Tokens(a) + r == Tokens(b) + s
    ensures a == b && r == s
    decreases a
  {
    hide ItemTokens, MemberTokens;
    assert Tokens(a)[0] == (Tokens(a) + r)[0] == (Tokens(b) + s)[0] == Tokens(b)[0];
    match a {
      case JText(_) => Uncons(Tokens(a)[0], r, s);
      case JAtom(_) => Uncons(Tokens(a)[0], r, s);
      case JArray(_) =>
        var x, y := ItemTokens(a, 0) + [EndArray] + r, ItemTokens(b, 0) + [EndArray] + s;
        assert Tokens(a) + r == [BeginArray] + x && Tokens(b) + s == [BeginArray] + y;
        Uncons(BeginArray, x, y);
        ItemsPrefixFree(a, r, b, s, 0);
      case JObject(_) =>
        var x, y := MemberTokens(a, 0) + [EndObject] + r, MemberTokens(b, 0) + [EndObject] + s;
        assert Tokens(a) + r == [BeginObject] + x && Tokens(b) + s == [BeginObject] + y;
        Uncons(BeginObject, x, y);
        MembersPrefixFree(a, r, b, s, 0);
    }
  }

  lemma Uncons(t: Token, x: seq<Token>, y: seq<Token>)
    requires [t] + x == [t] + y
    ensures x == y
  {
    assert x == ([t] + x)[1..] && y == ([t] + y)[1..];
  }

  /** What follows the first `k` items: more items, or the closing bracket. */
  lemma ItemsNext(v: Json, k: nat, r: seq<Token>)
    requires v.JArray? && k <= |v.items|
    ensures var rest := ItemTokens(v, k) + [EndArray] + r;
            && (k == |v.items| ==> rest == [EndArray] + r)
            && (k < |v.items| ==> rest == Tokens(v.items[k]) + (ItemTokens(v, k + 1) + [EndArray] + r))
            && (rest[0] == EndArray <==> k == |v.items|)
  {
    if k < |v.items| {
      StartsValue(v.items[k]);
    }
  }

  lemma StartsValue(v: Json)
    ensures Tokens(v)[0] != EndArray && Tokens(v)[0] != EndObject
  {
  }

  lemma {:induction false} ItemsPrefixFree(a: Json, r: seq<Token>, b: Json, s: seq<Token>, k: nat)
    requires a.JArray? && b.JArray? && k <= |a.items| && k <= |b.items| && a.items[..k] == b.items[..k]
    requires ItemTokens(a, k) + [EndArray] + r == ItemTokens(b, k) + [EndArray] + s
    ensures a == b && r == s
    decreases a, |a.items| - k
  {
    hide Tokens, ItemTokens;
    ItemsNext(a, k, r);
    ItemsNext(b, k, s);
    if k == |a.items| {
      Uncons(EndArray, r, s);
    } else {
      var x, y := ItemTokens(a, k + 1) + [EndArray] + r, ItemTokens(b, k + 1) + [EndArray] + s;
      TokensPrefixFree(a.items[k], x, b.items[k], y);
      assert a.items[..k + 1] == a.items[..k] + [a.items[k]] && b.items[..k + 1] == b.items[..k] + [b.items[k]];
      ItemsPrefixFree(a, r, b, s, k + 1);
    }
  }

  lemma MembersNext(v: Json, k: nat, r: seq<Token>)
    requires v.JObject? && k <= |v.members|
    ensures var rest := MemberTokens(v, k) + [EndObject] + r;
            && (k == |v.members| ==> rest == [EndObject] + r)
            && (k < |v.members| ==>
                  rest == [Text(v.members[k].0)] +
                          (Tokens(v.members[k].1) + (MemberTokens(v, k + 1) + [EndObject] + r)))
            && (rest[0] == EndObject <==> k == |v.members|)
  {
    hide Tokens;
  }

  lemma {:induction false} MembersPrefixFree(a: Json, r: seq<Token>, b: Json, s: seq<Token>, k: nat)
    requires a.JObject? && b.JObject? && k <= |a.members| && k <= |b.members| && a.members[..k] == b.members[..k]
    requires MemberTokens(a, k) + [EndObject] + r == MemberTokens(b, k) + [EndObject] + s
    ensures a == b && r == s
    decreases a, |a.members| - k
  {
    hide Tokens, MemberTokens;
    MembersNext(a, k, r);
    MembersNext(b, k, s);
    if k == |a.members| {
      Uncons(EndObject, r, s);
    } else {
      var x, y := MemberTokens(a, k + 1) + [EndObject] + r, MemberTokens(b, k + 1) + [EndObject] + s;
      var (m, n) := (a.members[k], b.members[k]);
      assert Text(m.0) == ([Text(m.0)] + (Tokens(m.1) + x))[0] == ([Text(n.0)] + (Tokens(n.1) + y))[0];
      Uncons(Text(m.0), Tokens(m.1) + x, Tokens(n.1) + y);
      TokensPrefixFree(m.1, x, n.1, y);
      assert a.members[..k + 1] == a.members[..k] + [m] && b.members[..k + 1] == b.members[..k] + [n];
      MembersPrefixFree(a, r, b, s, k + 1);
    }
  }

  // ---------- The whole check ----------

  /** The stream ends after its tokens, either cleanly or in a syntax error. */
  predicate CheckPasses(ts: seq<Token>, broken: bool) {
    Walk(ts, 0).Done? && Walk(ts, 0).next == |ts| && !broken
  }

  /** The stream is the tokens of a value in which no object repeats a key. */
  ghost predicate OneUniqueValue(ts: seq<Token>) {
    exists v :: Tokens(v) == ts && UniqueKeys(v)
  }

  /** The check passes iff the stream is exactly one value, in which no object repeats a key. */
  lemma {:induction false} CheckPassesIff(ts: seq<Token>, broken: bool)
    ensures CheckPasses(ts, broken) <==> !broken && OneUniqueValue(ts)
    ensures forall v, w :: Tokens(v) == ts && Tokens(w) == ts ==> v == w
  {
    if CheckPasses(ts, broken) {
      var v := WalkReads(ts, 0);
      assert ts[0..|ts|] == ts;
      assert Tokens(v) == ts;
    }
    if !broken {
      forall v | Tokens(v) == ts && UniqueKeys(v) ensures CheckPasses(ts, broken) {
        assert ts[0..|ts|] == ts;
        WalkValue(v, ts, 0);
      }
    }
    forall v, w | Tokens(v) == ts && Tokens(w) == ts ensures v == w {
      TokensPrefixFree(v, [], w, []);
    }
  }

  /** `json.Decoder` over a document: it hands out tokens and refuses a closing delimiter that does not match. */
  class Decoder {
    const tokens: seq<Token>
    const broken: bool
    var pos: nat
    var open: seq<Token>

    predicate Valid()
      reads this
    {
      pos <= |tokens|
    }

    constructor (tokens: seq<Token>, broken: bool)
      ensures Valid() && this.tokens == tokens && this.broken == broken && pos == 0 && open == []
    {
      this.tokens, this.broken, pos, open := tokens, broken, 0, [];
    }

    /** `More`: another element follows in the current array or object. */
    method More() returns (more: bool)
      requires Valid()
      ensures more <==> pos < |tokens| && tokens[pos] != EndArray && tokens[pos] != EndObject
    {
      more := pos < |tokens| && tokens[pos] != EndArray && tokens[pos] != EndObject;
    }

    predicate Mismatched()
      requires Valid() && pos < |tokens|
      reads this
    {
      || (tokens[pos] == EndArray && (open == [] || open[|open| - 1] != BeginArray))
      || (tokens[pos] == EndObject && (open == [] || open[|open| - 1] != BeginObject))
    }

    /** `Token`: nothing at the end of the input, at a syntax error and at a mismatched delimiter. */
    method Token() returns (t: Option<Token>)
      requires Valid()
      modifies this
      ensures Valid()
      ensures t.None? <==> old(pos) == |tokens| || old(Mismatched())
      ensures t.None? ==> pos == old(pos) && open == old(open)
      ensures t.Some? ==> t.value == tokens[old(pos)] && pos == old(pos) + 1
      ensures t == Some(BeginArray) || t == Some(BeginObject) ==> open == old(open) + [t.value]
      ensures t == Some(EndArray) || t == Some(EndObject) ==> open == old(open)[..|old(open)| - 1]
      ensures t.Some? && (t.value.Text? || t.value.Atom?) ==> open == old(open)
    {
      if pos == |tokens| || Mismatched() {
        return None;
      }
      t := Some(tokens[pos]);
      if t.value == BeginArray || t.value == BeginObject {
        open := open + [t.value];
      } else if t.value == EndArray || t.value == EndObject {
        open := open[..|open| - 1];
      }
      pos := pos + 1;
    }

    /** The recursive closure: reads one value. */
    method WalkNext() returns (r: Outcome)
      requires Valid()
      modifies this
      ensures Valid()
      ensures r == Walk(tokens, old(pos))
      ensures r.Done? ==> pos == r.next && open == old(open)
      decreases |tokens| - pos, 0
    {
      var tok := Token();
      if tok.None? {
        return Malformed;
      }
      match tok.value {
        case BeginObject => r := WalkObject();
        case BeginArray => r := WalkArray();
        case Text(_) => r := Done(pos);
        case Atom(_) => r := Done(pos);
        case _ => r := Malformed;
      }
    }

    method WalkObject() returns (r: Outcome)
      requires Valid() && open != [] && open[|open| - 1] == BeginObject
      modifies this
      ensures Valid()
      ensures r == WalkMembers(tokens, old(pos), {})
      ensures r.Done? ==> pos == r.next && open == old(open)[..|old(open)| - 1]
      decreases |tokens| - pos, 1
    {
      var seen: set<string> := {};
      var more := More();
      while more
        invariant Valid() && old(pos) <= pos && open == old(open)
        invariant more <==> pos < |tokens| && tokens[pos] != EndArray && tokens[pos] != EndObject
        invariant WalkMembers(tokens, old(pos), {}) == WalkMembers(tokens, pos, seen)
        decreases |tokens| - pos
      {
        var keyTok := Token();
        if !keyTok.value.Text? {
          return Malformed;
        }
        var key := keyTok.value.s;
        if key in seen {
          return Duplicate;
        }
        seen := seen + {key};
        r := WalkNext();
        if !r.Done? {
          return;
        }
        more := More();
      }
      var end := Token();
      r := if end.None? then Malformed else Done(pos);
    }

    method WalkArray() returns (r: Outcome)
      requires Valid() && open != [] && open[|open| - 1] == BeginArray
      modifies this
      ensures Valid()
      ensures r == WalkItems(tokens, old(pos))
      ensures r.Done? ==> pos == r.next && open == old(open)[..|old(open)| - 1]
      decreases |tokens| - pos, 1
    {
      var more := More();
      while more
        invariant Valid() && old(pos) <= pos && open == old(open)
        invariant more <==> pos < |tokens| && tokens[pos] != EndArray && tokens[pos] != EndObject
        invariant WalkItems(tokens, old(pos)) == WalkItems(tokens, pos)
        decreases |tokens| - pos
      {
        r := WalkNext();
        if !r.Done? {
          return;
        }
        more := More();
      }
      var end := Token();
      r := if end.None? then Malformed else Done(pos);
    }
  }

  datatype Verdict = Accepted | RepeatedKey | NotOneValue

  /**
   * The whole check: accepted iff the document is one value without repeated keys at any depth; on the tokens of a
   * value, possibly followed by more, a refusal for a repeated key is given iff the value repeats one.
   */
  method RejectDuplicateJSONKeys(tokens: seq<Token>, broken: bool) returns (r: Verdict)
    ensures r == Accepted <==> !broken && OneUniqueValue(tokens)
    ensures forall v | Stands(Tokens(v), tokens, 0) :: r == RepeatedKey <==> !UniqueKeys(v)
  {
    var dec := new Decoder(tokens, broken);
    var walked := dec.WalkNext();
    CheckPassesIff(tokens, broken);
    forall v | Stands(Tokens(v), tokens, 0) ensures walked.Duplicate? <==> !UniqueKeys(v) {
      WalkValue(v, tokens, 0);
    }
    if walked.Duplicate? {
      return RepeatedKey;
    }
    if walked.Malformed? {
      return NotOneValue;
    }
    var next := dec.Token();
    r := if next.None? && dec.pos == |tokens| && !broken then Accepted else NotOneValue;
  }

  // ---------- Decoding does not depend on which duplicate wins ----------

  datatype Decoded =
    | DText(s: string)
    | DAtom(lexeme: string)
    | DArray(items: seq<Decoded>)
    | DObject(fields: map<string, Decoded>)

  /** Decoding into maps, where the first (or the last) of equal keys wins. */
  function Decode(v: Json, firstWins: bool): Decoded
    decreases v
  {
    match v
    case JText(s) => DText(s)
    case JAtom(l) => DAtom(l)
    case JArray(items) => DArray(seq(|items|, i requires 0 <= i < |items| => Decode(items[i], firstWins)))
    case JObject(members) => DObject(DecodeMembers(v, |members|, firstWins))
  }

  function DecodeMembers(v: Json, n: nat, firstWins: bool): map<string, Decoded>
    requires v.JObject? && n <= |v.members|
    decreases v, n
  {
    if n == 0 then map[]
    else
      var before := DecodeMembers(v, n - 1, firstWins);
      var (k, x) := v.members[n - 1];
      if firstWins && k in before then before else before[k := Decode(x, firstWins)]
  }

  lemma {:induction false} MemberKeys(v: Json, n: nat, firstWins: bool)
    requires v.JObject? && n <= |v.members|
    ensures DecodeMembers(v, n, firstWins).Keys == set i | 0 <= i < n :: v.members[i].0
    decreases n
  {
    hide Decode;
    if n > 0 {
      MemberKeys(v, n - 1, firstWins);
      assert (set i | 0 <= i < n :: v.members[i].0) ==
            (set i | 0 <= i < n - 1 :: v.members[i].0) + {v.members[n - 1].0};
    }
  }

  /** The first member with a key gives its value when first wins, and the last one when last wins. */
  lemma {:induction false} WhichWins(v: Json, n: nat, i: nat, firstWins: bool)
    requires v.JObject? && i < n <= |v.members|
    requires firstWins ==> forall j :: 0 <= j < i ==> v.members[j].0 != v.members[i].0
    requires !firstWins ==> forall j :: i < j < n ==> v.members[j].0 != v.members[i].0
    ensures var (k, x) := v.members[i];
            k in DecodeMembers(v, n, firstWins) && DecodeMembers(v, n, firstWins)[k] == Decode(x, firstWins)
    decreases n
  {
    hide Decode;
    MemberKeys(v, n - 1, firstWins);
    if i < n - 1 {
      WhichWins(v, n - 1, i, firstWins);
    }
  }

  /** Without repeated keys, first-wins and last-wins decoding agree at every depth. */
  lemma {:induction false} DecodingAgrees(v: Json)
    requires UniqueKeys(v)
    ensures Decode(v, true) == Decode(v, false)
    decreases v
  {
    match v {
      case JArray(items) =>
        forall i | 0 <= i < |items| ensures Decode(items[i], true) == Decode(items[i], false) {
          DecodingAgrees(items[i]);
        }
      case JObject(members) => MembersAgree(v, |members|);
      case _ =>
    }
  }

  lemma {:induction false} MembersAgree(v: Json, n: nat)
    requires v.JObject? && n <= |v.members| && UniqueKeys(v)
    ensures DecodeMembers(v, n, true) == DecodeMembers(v, n, false)
    decreases v, n
  {
    if n > 0 {
      MembersAgree(v, n - 1);
      MemberKeys(v, n - 1, true);
      DecodingAgrees(v.members[n - 1].1);
    }
  }
}
