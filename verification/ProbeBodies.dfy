/**
 * How the probe reads response bodies: into maps whose numbers are float64, so that different numbers may be read as
 * one, and a body that is no object as an empty map. When this tells two bodies apart, exactly.
 */
module ProbeBodies {
  import opened Basics
  import opened Text
  import opened ValueCompare
  import opened ValueDifferences
  import opened DuplicateKeys

  /** A body: text that the JSON decoder refuses, or a JSON value as written. */
  datatype Body = Undecodable(text: string) | Decodable(json: Json)

  /** The number of a lexeme, as one numeral for each number; and the nearest float64 of a number, if it is in range. */
  datatype Numbers = Numbers(exact: string -> string, round: string -> Option<string>)

  // ---------- What a body means ----------

  function AtomMeaning(lexeme: string, num: Numbers): Value {
    if lexeme == "null" then Null
    else if lexeme == "true" then Bool(true)
    else if lexeme == "false" then Bool(false)
    else Float(num.exact(lexeme))
  }

  /** The value of a decoded tree, with exact numbers. */
  function TreeMeaning(d: Decoded, num: Numbers): Value {
    match d
    case DText(s) => Str(s)
    case DAtom(lexeme) => AtomMeaning(lexeme, num)
    case DArray(items) => Array(seq(|items|, i requires 0 <= i < |items| => TreeMeaning(items[i], num)))
    case DObject(fields) => Object(map k | k in fields :: TreeMeaning(fields[k], num))
  }

  /** The JSON value a document denotes; of members with one key the last counts. */
  function Meaning(json: Json, num: Numbers): Value {
    TreeMeaning(Decode(json, false), num)
  }

  /** Two bodies say the same. */
  predicate Same(py: Body, go: Body, num: Numbers) {
    match (py, go)
    case (Undecodable(a), Undecodable(b)) => a == b
    case (Decodable(a), Decodable(b)) => Meaning(a, num) == Meaning(b, num)
    case _ => false
  }

  // ---------- What the probe reads ----------

  /** Every number as its float64; a number out of range is left as null. */
  function Rounded(v: Value, round: string -> Option<string>): Value {
    match v
    case Float(t) => if round(t).Some? then Float(round(t).value) else Null
    case Array(items) => Array(seq(|items|, i requires 0 <= i < |items| => Rounded(items[i], round)))
    case Object(fields) => Object(map k | k in fields :: Rounded(fields[k], round))
    case _ => v
  }

  predicate IsObject(body: Body) {
    body.Decodable? && body.json.JObject?
  }

  /** `json.Unmarshal` into a map, with its error ignored: the rounded members of an object, or nothing. */
  function AsObject(body: Body, num: Numbers): (r: Value)
    ensures r.Object?
  {
    if IsObject(body) then Rounded(Meaning(body.json, num), num.round) else Object(map[])
  }

  // ---------- Positions under rounding ----------

  function RoundedOption(v: Option<Value>, round: string -> Option<string>): Option<Value> {
    if v.Some? then Some(Rounded(v.value, round)) else None
  }

  lemma {:induction false} AtRounded(v: Value, p: Path, round: string -> Option<string>)
    ensures At(Rounded(v, round), p) == RoundedOption(At(v, p), round)
  {
    if p != [] {
      match p[0] {
        case Key(k) =>
          if v.Object? && k in v.fields {
            AtRounded(v.fields[k], p[1..], round);
          }
        case Index(i) =>
          if v.Array? && i < |v.items| {
            AtRounded(v.items[i], p[1..], round);
          }
      }
    }
  }

  predicate IsNumber(v: Value) {
    v.Float? || v.Null?
  }

  /** Two numbers, or a number and null, that are read as one. */
  predicate Identified(a: Option<Value>, b: Option<Value>, round: string -> Option<string>) {
    && a.Some? && b.Some? && IsNumber(a.value) && IsNumber(b.value)
    && Rounded(a.value, round) == Rounded(b.value, round)
  }

  lemma RoundedShape(v: Value, round: string -> Option<string>)
    ensures !v.Float? ==> KindOf(Rounded(v, round)) == KindOf(v)
    ensures v.Array? ==> |Rounded(v, round).items| == |v.items|
    ensures v.Object? ==> Rounded(v, round).fields.Keys == v.fields.Keys
    ensures v.Object? ==> (Rounded(v, round).fields == map[] <==> v.fields == map[])
    ensures v.Object? <==> Rounded(v, round).Object?
    ensures !IsNumber(v) && !v.Array? && !v.Object? ==> Rounded(v, round) == v
  {
    if v.Object? {
      assert v.fields == map[] <==> v.fields.Keys == {};
      assert Rounded(v, round).fields == map[] <==> Rounded(v, round).fields.Keys == {};
    }
  }

  /** Two values in one place differ after rounding iff they differ and are not two identified numbers. */
  lemma {:induction false} HeadRounded(a: Value, b: Value, path: Path, round: string -> Option<string>)
    ensures HeadDiff(Rounded(a, round), Rounded(b, round), path).Some?
       <==> HeadDiff(a, b, path).Some? && !Identified(Some(a), Some(b), round)
  {
    RoundedShape(a, round);
    RoundedShape(b, round);
    if IsNumber(a) || IsNumber(b) {
      HeadIffDifferent(a, b, path);
      HeadIffDifferent(Rounded(a, round), Rounded(b, round), path);
    }
    hide Rounded;
  }

  /** Where a number or null stands on one side, values differ themselves iff they are different. */
  lemma HeadIffDifferent(a: Value, b: Value, path: Path)
    requires IsNumber(a) || IsNumber(b)
    ensures HeadDiff(a, b, path).Some? <==> a != b
  {
  }

  lemma {:induction false} DiffRounded(x: Value, y: Value, p: Path, round: string -> Option<string>)
    ensures DiffAt(Rounded(x, round), Rounded(y, round), [], p).Some?
       <==> DiffAt(x, y, [], p).Some? && !Identified(At(x, p), At(y, p), round)
  {
    hide Rounded, HeadDiff, At, Identified;
    AtRounded(x, p, round);
    AtRounded(y, p, round);
    var (a, b) := (At(x, p), At(y, p));
    if a.Some? && b.Some? {
      HeadRounded(a.value, b.value, [] + p, round);
    } else {
      NotBoth(a, b, round);
      if p != [] && p[|p| - 1].Key? {
        var q := p[..|p| - 1];
        AtRounded(x, q, round);
        AtRounded(y, q, round);
        OptionShape(At(x, q), round);
        OptionShape(At(y, q), round);
      }
    }
  }

  lemma NotBoth(a: Option<Value>, b: Option<Value>, round: string -> Option<string>)
    requires a.None? || b.None?
    ensures !Identified(a, b, round)
  {
  }

  lemma OptionShape(v: Option<Value>, round: string -> Option<string>)
    ensures v.Some? ==> (v.value.Object? <==> Rounded(v.value, round).Object?)
  {
    if v.Some? {
      RoundedShape(v.value, round);
    }
  }

  /** The values disagree at a position, and not only by numbers that are read as one. */
  predicate TellsApart(x: Value, y: Value, p: Path, round: string -> Option<string>) {
    Disagree(x, y, p) && !Identified(At(x, p), At(y, p), round)
  }

  /** Values are different after rounding iff some position tells them apart. */
  lemma {:induction false} RoundedDifferIff(x: Value, y: Value, round: string -> Option<string>)
    ensures Rounded(x, round) != Rounded(y, round) <==> exists p :: TellsApart(x, y, p, round)
  {
    hide Rounded, DiffAt, At, Identified, Disagree;
    if Rounded(x, round) != Rounded(y, round) {
      var p := DifferenceExists(Rounded(x, round), Rounded(y, round));
      DisagreeIff(x, y, p);
      DiffRounded(x, y, p, round);
      assert TellsApart(x, y, p, round);
    } else {
      forall p ensures !TellsApart(x, y, p, round) {
        DisagreeIff(x, y, p);
        DiffRounded(x, y, p, round);
        NoSelfDisagreement(Rounded(x, round), p);
      }
    }
  }

  // ---------- When the probe tells bodies apart ----------

  predicate HasMember(body: Body) {
    IsObject(body) && body.json.members != []
  }

  /**
   * The bodies say the same; or both are objects with a disagreement that is more than numbers read as one; or not
   * both are objects, and one is an object with a member.
   */
  ghost predicate ToldApart(py: Body, go: Body, num: Numbers) {
    || Same(py, go, num)
    || (if IsObject(py) && IsObject(go)
        then exists p :: TellsApart(Meaning(py.json, num), Meaning(go.json, num), p, num.round)
        else HasMember(py) || HasMember(go))
  }

  lemma {:induction false} EmptyRead(body: Body, num: Numbers)
    ensures AsObject(body, num) == Object(map[]) <==> !HasMember(body)
  {
    if IsObject(body) {
      var members := body.json.members;
      MemberKeys(body.json, |members|, false);
      var keys := set i | 0 <= i < |members| :: members[i].0;
      if members != [] {
        assert members[0].0 in keys;
      }
      ObjectKeys(body.json, num);
      RoundedShape(Meaning(body.json, num), num.round);
      assert AsObject(body, num).fields.Keys == keys;
      assert AsObject(body, num).fields == map[] <==> keys == {};
    }
  }

  lemma ObjectKeys(json: Json, num: Numbers)
    requires json.JObject?
    ensures Meaning(json, num).Object?
    ensures Meaning(json, num).fields.Keys == DecodeMembers(json, |json.members|, false).Keys
  {
  }

  /** Of the members of an object with one key the last is read. */
  lemma {:induction false} LastMemberCounts(json: Json, i: nat, num: Numbers)
    requires json.JObject? && i < |json.members|
    requires forall j :: i < j < |json.members| ==> json.members[j].0 != json.members[i].0
    ensures var (k, x) := json.members[i];
            && k in AsObject(Decodable(json), num).fields
            && AsObject(Decodable(json), num).fields[k] == Rounded(Meaning(x, num), num.round)
  {
    hide Rounded;
    WhichWins(json, |json.members|, i, false);
    ObjectKeys(json, num);
    RoundedMember(Meaning(json, num), json.members[i].0, num.round);
  }

  lemma RoundedMember(v: Value, k: string, round: string -> Option<string>)
    requires v.Object? && k in v.fields
    ensures Rounded(v, round).Object? && k in Rounded(v, round).fields
    ensures Rounded(v, round).fields[k] == Rounded(v.fields[k], round)
  {
  }

  /** The exact match is right about two bodies iff the probe tells them apart when they differ. */
  lemma {:induction false} ToldApartIff(py: Body, go: Body, num: Numbers)
    ensures (AsObject(py, num) == AsObject(go, num) <==> Same(py, go, num)) <==> ToldApart(py, go, num)
  {
    hide Meaning, Rounded, TellsApart;
    if IsObject(py) && IsObject(go) {
      RoundedDifferIff(Meaning(py.json, num), Meaning(go.json, num), num.round);
    } else {
      EmptyRead(py, num);
      EmptyRead(go, num);
      if IsObject(py) != IsObject(go) {
        NotBothObjects(py, go, num);
      }
    }
  }

  lemma NotBothObjects(py: Body, go: Body, num: Numbers)
    requires IsObject(py) != IsObject(go)
    ensures !Same(py, go, num)
  {
    hide Decode;
    if py.Decodable? && go.Decodable? {
      KindsDiffer(py.json, go.json, num);
    }
  }

  lemma KindsDiffer(a: Json, b: Json, num: Numbers)
    requires a.JObject? != b.JObject?
    ensures Meaning(a, num) != Meaning(b, num)
  {
    hide AtomMeaning;
    AtomNoObject(a, num);
    AtomNoObject(b, num);
  }

  lemma AtomNoObject(a: Json, num: Numbers)
    ensures Meaning(a, num).Object? <==> a.JObject?
  {
  }

  // ---------- Numbers that are kept apart ----------

  ghost predicate Occurs(v: Value, numeral: string) {
    exists p :: At(v, p) == Some(Float(numeral))
  }

  /** Reading keeps the numbers of the two values in range and apart. */
  ghost predicate NumbersKeptApart(x: Value, y: Value, round: string -> Option<string>) {
    forall s, t :: (Occurs(x, s) || Occurs(y, s)) && (Occurs(x, t) || Occurs(y, t)) ==>
      round(s).Some? && (round(s) == round(t) ==> s == t)
  }

  lemma IdentifiedIsEqual(x: Value, y: Value, p: Path, round: string -> Option<string>)
    requires NumbersKeptApart(x, y, round) && Identified(At(x, p), At(y, p), round)
    ensures At(x, p) == At(y, p)
  {
    hide At;
    var (a, b) := (At(x, p).value, At(y, p).value);
    if a.Float? {
      assert Occurs(x, a.token);
    }
    if b.Float? {
      assert Occurs(y, b.token);
    }
  }

  /** Objects whose numbers are kept apart are told apart. */
  lemma {:induction false} KeptApartToldApart(py: Body, go: Body, num: Numbers)
    requires IsObject(py) && IsObject(go)
    requires NumbersKeptApart(Meaning(py.json, num), Meaning(go.json, num), num.round)
    ensures ToldApart(py, go, num)
  {
    hide Meaning, DiffAt, At, NumbersKeptApart, Identified, Disagree;
    var (x, y) := (Meaning(py.json, num), Meaning(go.json, num));
    if x != y {
      var p := DifferenceExists(x, y);
      if Identified(At(x, p), At(y, p), num.round) {
        IdentifiedIsEqual(x, y, p, num.round);
        EqualNumbersAgree(x, y, p, num.round);
      }
      DisagreeIff(x, y, p);
      assert TellsApart(x, y, p, num.round);
    }
  }

  lemma EqualNumbersAgree(x: Value, y: Value, p: Path, round: string -> Option<string>)
    requires Identified(At(x, p), At(y, p), round) && At(x, p) == At(y, p)
    ensures DiffAt(x, y, [], p).None?
  {
    hide At;
  }

  const EXACT_INTEGERS := 0x20_0000_0000_0000

  /** A float64 holds every integer up to 2^53 in size. */
  ghost predicate HoldsIntegers(round: string -> Option<string>) {
    forall n: int :: -EXACT_INTEGERS <= n <= EXACT_INTEGERS ==> round(DecimalInt(n)) == Some(DecimalInt(n))
  }

  ghost predicate OnlySmallIntegers(v: Value) {
    forall t :: Occurs(v, t) ==> exists n: int :: -EXACT_INTEGERS <= n <= EXACT_INTEGERS && t == DecimalInt(n)
  }

  /** Objects whose numbers are integers up to 2^53 in size are told apart. */
  lemma {:induction false} SmallIntegersToldApart(py: Body, go: Body, num: Numbers)
    requires IsObject(py) && IsObject(go) && HoldsIntegers(num.round)
    requires OnlySmallIntegers(Meaning(py.json, num)) && OnlySmallIntegers(Meaning(go.json, num))
    ensures ToldApart(py, go, num)
  {
    hide Meaning, Occurs, DecimalInt, ToldApart, EXACT_INTEGERS;
    KeptApartToldApart(py, go, num);
  }

  // ---------- Bodies that are not told apart ----------

  /** The object with the one member `id`. */
  function IdBody(lexeme: string): Body {
    Decodable(JObject([("id", JAtom(lexeme))]))
  }

  lemma IdMeaning(lexeme: string, num: Numbers)
    requires lexeme != "null" && lexeme != "true" && lexeme != "false"
    ensures Meaning(IdBody(lexeme).json, num) == Object(map["id" := Float(num.exact(lexeme))])
  {
    var v := IdBody(lexeme).json;
    assert DecodeMembers(v, 0, false) == map[];
    assert DecodeMembers(v, 1, false) == map["id" := DAtom(lexeme)];
    var fields := map["id" := DAtom(lexeme)];
    assert Decode(v, false) == DObject(fields);
    assert TreeMeaning(DAtom(lexeme), num) == Float(num.exact(lexeme));
    assert (map k | k in fields :: TreeMeaning(fields[k], num)) == map["id" := Float(num.exact(lexeme))];
  }

  /** Two objects with different numbers under one key that are read as one number are an exact match. */
  lemma {:induction false} RoundedNumbersMatch(a: string, b: string, num: Numbers)
    requires {a, b} !! {"null", "true", "false"}
    requires num.exact(a) != num.exact(b) && num.round(num.exact(a)) == num.round(num.exact(b))
    ensures HasMember(IdBody(a)) && HasMember(IdBody(b))
    ensures !Same(IdBody(a), IdBody(b), num) && AsObject(IdBody(a), num) == AsObject(IdBody(b), num)
    ensures !ToldApart(IdBody(a), IdBody(b), num)
  {
    IdMeaning(a, num);
    IdMeaning(b, num);
    hide Meaning, ToldApart;
    assert map["id" := Float(num.exact(a))]["id"] != map["id" := Float(num.exact(b))]["id"];
    assert Rounded(Object(map["id" := Float(num.exact(a))]), num.round)
        == Rounded(Object(map["id" := Float(num.exact(b))]), num.round);
    ToldApartIff(IdBody(a), IdBody(b), num);
  }

  /** The first integer that a float64 does not hold is read as its neighbour. */
  lemma {:induction false} LargeIntegersMatch(num: Numbers)
    requires num.exact("9007199254740993") != num.exact("9007199254740992")
    requires num.round(num.exact("9007199254740993")) == num.round(num.exact("9007199254740992"))
    ensures !Same(IdBody("9007199254740993"), IdBody("9007199254740992"), num)
    ensures AsObject(IdBody("9007199254740993"), num) == AsObject(IdBody("9007199254740992"), num)
  {
    assert |"9007199254740993"| == 16 && |"9007199254740992"| == 16 && |"null"| == 4 && |"true"| == 4 && |"false"| == 5;
    RoundedNumbersMatch("9007199254740993", "9007199254740992", num);
  }

  /** Bodies that are no objects are all read as the empty object, so different ones are an exact match. */
  lemma {:induction false} NonObjectBodiesMatch(py: Body, go: Body, num: Numbers)
    requires !IsObject(py) && !IsObject(go)
    ensures AsObject(py, num) == AsObject(go, num)
    ensures ToldApart(py, go, num) <==> Same(py, go, num)
    ensures !Same(Undecodable("a"), Undecodable("b"), num)
  {
  }
}
