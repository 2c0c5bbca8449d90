/** The canonical JSON printer of mariadb-compare: values, the encoding as a
    function, the encoders that append to a shared builder, and the proof that
    equal encodings come from equal values. */
module CanonicalJson {
  import opened Basics
  import opened StringOrder
  import opened Text

  /** A decoded row value.  Numbers are the tokens the printer writes for them. */
  datatype Value =
    | Null
    | Bool(b: bool)
    | Number(token: string)
    | Str(s: string)
    | Array(items: seq<Value>)
    | Object(fields: map<string, Value>)

  type Row = map<string, Value>

  predicate NumberChar(c: char) {
    '0' <= c <= '9' || c in "+-.eE"
  }

  predicate NumberToken(t: string) {
    t != "" && forall c :: c in t ==> NumberChar(c)
  }

  /** Every number in the value, at any depth, is a number token. */
  predicate WellFormed(v: Value) {
    match v
    case Number(t) => NumberToken(t)
    case Array(items) => forall x :: x in items ==> WellFormed(x)
    case Object(fields) => forall k :: k in fields ==> WellFormed(fields[k])
    case _ => true
  }

  // ---------- Strings (section 7 of RFC 8259) ----------

  function HexDigit(n: nat): char
    requires n < 16
  {
    "0123456789abcdef"[n]
  }

  /** Value of a hexadecimal digit of either case, or -1. */
  function HexValue(c: char): (n: int)
    ensures -1 <= n < 16
  {
    if '0' <= c <= '9' then c as int - '0' as int
    else if 'a' <= c <= 'f' then c as int - 'a' as int + 10
    else if 'A' <= c <= 'F' then c as int - 'A' as int + 10
    else -1
  }

  function EscapeChar(c: char): string {
    if c == '"' then "\\\""
    else if c == '\\' then "\\\\"
    else if c == '\U{8}' then "\\b"
    else if c == '\U{c}' then "\\f"
    else if c == '\n' then "\\n"
    else if c == '\r' then "\\r"
    else if c == '\t' then "\\t"
    else if c as int < 0x20 then
      ['\\', 'u', '0', '0', HexDigit(c as int / 16), HexDigit(c as int % 16)]
    else [c]
  }

  function EscapeAll(s: string): string {
    if s == "" then "" else EscapeChar(s[0]) + EscapeAll(s[1..])
  }

  function EncString(s: string): string {
    "\"" + EscapeAll(s) + "\""
  }

  /** Four hexadecimal digits at the front of `t`. */
  function Hex4(t: string): (r: Option<nat>)
    ensures r.Some? ==> |t| >= 4 && r.value < 0x1_0000
  {
    if |t| < 4 then None
    else
      var (a, b, c, d) := (HexValue(t[0]), HexValue(t[1]), HexValue(t[2]), HexValue(t[3]));
      if a < 0 || b < 0 || c < 0 || d < 0 then None
      else Some(0x1000 * a + 0x100 * b + 0x10 * c + d)
  }

  /** One character of a JSON string, escaped or not, and what follows it.
      Unpaired surrogates and unescaped controls are refused. */
  function DecodeChar(t: string): (r: Option<(char, string)>)
    ensures r.Some? ==> |r.value.1| < |t|
  {
    if t == "" || t[0] == '"' || (t[0] as int) < 0x20 then None
    else if t[0] != '\\' then Some((t[0], t[1..]))
    else if |t| < 2 then None
    else match t[1]
      case '"' => Some(('"', t[2..]))
      case '\\' => Some(('\\', t[2..]))
      case '/' => Some(('/', t[2..]))
      case 'b' => Some(('\U{8}', t[2..]))
      case 'f' => Some(('\U{c}', t[2..]))
      case 'n' => Some(('\n', t[2..]))
      case 'r' => Some(('\r', t[2..]))
      case 't' => Some(('\t', t[2..]))
      case 'u' => DecodeUnit(t[2..])
      case _ => None
  }

  /** The digits after a `\u`, with the second half of a surrogate pair if the first needs one. */
  function DecodeUnit(t: string): (r: Option<(char, string)>)
    ensures r.Some? ==> |r.value.1| < |t|
  {
    var hi := Hex4(t);
    if hi.None? then None
    else if !(0xD800 <= hi.value < 0xE000) then Some((hi.value as char, t[4..]))
    else if hi.value >= 0xDC00 || |t| < 10 || t[4..6] != "\\u" then None
    else
      var lo := Hex4(t[6..]);
      if lo.None? || !(0xDC00 <= lo.value < 0xE000) then None
      else Some(((0x10000 + 0x400 * (hi.value - 0xD800) + (lo.value - 0xDC00)) as char, t[10..]))
  }

  /** The characters of a JSON string up to its closing quote, and what follows the quote. */
  function DecodeBody(t: string): (r: Option<(string, string)>)
    ensures r.Some? ==> |r.value.1| < |t|
    decreases |t|
  {
    if t == "" then None
    else if t[0] == '"' then Some(("", t[1..]))
    else
      var first := DecodeChar(t);
      if first.None? then None
      else
        var rest := DecodeBody(first.value.1);
        if rest.None? then None else Some(([first.value.0] + rest.value.0, rest.value.1))
  }

  function DecodeString(t: string): (r: Option<(string, string)>)
    ensures r.Some? ==> |r.value.1| < |t|
  {
    if t == "" || t[0] != '"' then None else DecodeBody(t[1..])
  }

  lemma HexDigitValue(n: nat)
    requires n < 16
    ensures HexValue(HexDigit(n)) == n
  {
  }

  lemma DecodeEscapedChar(c: char, rest: string)
    ensures DecodeChar(EscapeChar(c) + rest) == Some((c, rest))
    ensures EscapeChar(c) != "" && EscapeChar(c)[0] != '"'
  {
    var t := EscapeChar(c) + rest;
    if |EscapeChar(c)| == 1 {
      assert t[1..] == rest;
    } else if |EscapeChar(c)| == 2 {
      assert t[2..] == rest;
    } else {
      var n := c as int;
      HexDigitValue(n / 16);
      HexDigitValue(n % 16);
      assert t[2..] == ['0', '0', HexDigit(n / 16), HexDigit(n % 16)] + rest;
      assert t[2..][4..] == rest;
      assert Hex4(t[2..]) == Some(n);
    }
  }

  lemma {:induction false} DecodeEscaped(s: string, rest: string)
    ensures DecodeBody(EscapeAll(s) + "\"" + rest) == Some((s, rest))
  {
    hide EscapeChar, DecodeChar;
    var t := EscapeAll(s) + "\"" + rest;
    if s == "" {
      assert t == "\"" + rest && t[1..] == rest;
    } else {
      var tail := EscapeAll(s[1..]) + "\"" + rest;
      assert t == EscapeChar(s[0]) + tail;
      DecodeEscapedChar(s[0], tail);
      DecodeEscaped(s[1..], rest);
      assert s == [s[0]] + s[1..];
    }
  }

  /** The RFC 8259 decoder inverts the printer's strings and leaves the text after them alone. */
  lemma DecodeInvertsEncString(s: string, rest: string)
    ensures DecodeString(EncString(s) + rest) == Some((s, rest))
  {
    assert (EncString(s) + rest)[1..] == EscapeAll(s) + "\"" + rest;
    DecodeEscaped(s, rest);
  }

  // ---------- Values ----------

  function Separator(i: nat): string {
    if i > 0 then "," else ""
  }

  /** The canonical text of a value: object keys sorted, no white space. */
  ghost function Enc(v: Value): string
    decreases v
  {
    match v
    case Null => "null"
    case Bool(b) => if b then "true" else "false"
    case Number(t) => t
    case Str(s) => EncString(s)
    case Array(_) => "[" + EncItems(v, 0) + "]"
    case Object(fields) => "{" + EncFields(v, KeyOrder(fields.Keys), 0) + "}"
  }

  /** The items of an array from index `i` on, separated by commas. */
  ghost function EncItems(v: Value, i: nat): string
    requires v.Array? && i <= |v.items|
    decreases v, |v.items| - i
  {
    if i == |v.items| then ""
    else Separator(i) + Enc(v.items[i]) + EncItems(v, i + 1)
  }

  /** The members of an object for the keys `ks` from index `i` on. */
  ghost function EncFields(v: Value, ks: seq<string>, i: nat): string
    requires v.Object? && Elements(ks) <= v.fields.Keys && i <= |ks|
    decreases v, |ks| - i
  {
    if i == |ks| then ""
    else
      assert ks[i] in Elements(ks);
      Separator(i) + EncString(ks[i]) + ":" + Enc(v.fields[ks[i]]) + EncFields(v, ks, i + 1)
  }

  /** Text that may follow a value: nothing, or a separator or closing bracket. */
  predicate Delimited(rest: string) {
    rest == "" || rest[0] in ",]}"
  }

  /** First character of an encoding, which decides the kind of value. */
  lemma FirstChar(v: Value)
    requires WellFormed(v)
    ensures Enc(v) != ""
    ensures match v
            case Null => Enc(v)[0] == 'n'
            case Bool(b) => Enc(v)[0] == if b then 't' else 'f'
            case Number(_) => NumberChar(Enc(v)[0])
            case Str(_) => Enc(v)[0] == '"'
            case Array(_) => Enc(v)[0] == '['
            case Object(_) => Enc(v)[0] == '{'
  {
  }

  lemma ArrayText(v: Value, r: string)
    requires v.Array?
    ensures Enc(v) + r == "[" + (EncItems(v, 0) + "]" + r)
  {
  }

  lemma ObjectText(v: Value, r: string)
    requires v.Object?
    ensures Enc(v) == "{" + EncFields(v, KeyOrder(v.fields.Keys), 0) + "}"
    ensures Enc(v) + r == "{" + (EncFields(v, KeyOrder(v.fields.Keys), 0) + "}" + r)
  {
  }

  lemma ItemsText(v: Value, i: nat, r: string)
    requires v.Array? && i < |v.items|
    ensures EncItems(v, i) + "]" + r == Separator(i) + (Enc(v.items[i]) + (EncItems(v, i + 1) + "]" + r))
  {
    ItemsStep(v, i);
    hide Enc, EncItems;
    ThreeAndTail(Separator(i), Enc(v.items[i]), EncItems(v, i + 1), "]" + r);
    assert EncItems(v, i) + "]" + r == EncItems(v, i) + ("]" + r);
    assert EncItems(v, i + 1) + "]" + r == EncItems(v, i + 1) + ("]" + r);
  }

  lemma ItemsStep(v: Value, i: nat)
    requires v.Array? && i < |v.items|
    ensures EncItems(v, i) == Separator(i) + Enc(v.items[i]) + EncItems(v, i + 1)
  {
    hide Enc;
  }

  lemma ThreeAndTail(a: string, b: string, c: string, d: string)
    ensures a + b + c + d == a + (b + (c + d))
  {
  }

  lemma FieldsStep(v: Value, ks: seq<string>, i: nat)
    requires v.Object? && Elements(ks) <= v.fields.Keys && i < |ks|
    ensures ks[i] in v.fields
    ensures EncFields(v, ks, i)
         == Separator(i) + EncString(ks[i]) + ":" + Enc(v.fields[ks[i]]) + EncFields(v, ks, i + 1)
  {
    assert ks[i] in Elements(ks);
  }

  lemma Nest(a: string, b: string, c: string, d: string, e: string)
    ensures a + b + c + d + e == a + (b + (c + (d + e)))
  {
    assert (a + b) + (c + (d + e)) == a + (b + (c + (d + e)));
    assert (a + b + c) + (d + e) == (a + b) + (c + (d + e));
  }

  lemma FieldsText(v: Value, ks: seq<string>, i: nat, r: string)
    requires v.Object? && Elements(ks) <= v.fields.Keys && i < |ks|
    ensures ks[i] in v.fields
    ensures EncFields(v, ks, i) + "}" + r
         == Separator(i) + (EncString(ks[i]) + (":" + (Enc(v.fields[ks[i]]) + (EncFields(v, ks, i + 1) + "}" + r))))
  {
    hide EncFields;
    hide EncString;
    hide Enc;
    FieldsStep(v, ks, i);
    var (sep, key, value, tail) := (Separator(i), EncString(ks[i]), Enc(v.fields[ks[i]]), EncFields(v, ks, i + 1));
    assert EncFields(v, ks, i) + "}" + r == sep + key + ":" + value + (tail + "}" + r);
    Nest(sep, key, ":", value, tail + "}" + r);
  }

  // ---------- Reading values back (RFC 8259, without white space) ----------

  function NumberPrefix(t: string): (r: string)
    ensures |r| <= |t|
  {
    if t != "" && NumberChar(t[0]) then [t[0]] + NumberPrefix(t[1..]) else ""
  }

  /** The value at the front of a text, and what follows it. */
  function ReadValue(t: string): (r: Option<(Value, string)>)
    ensures r.Some? ==> |r.value.1| < |t|
    decreases |t|, 0
  {
    if "null" <= t then Some((Null, t[4..]))
    else if "true" <= t then Some((Bool(true), t[4..]))
    else if "false" <= t then Some((Bool(false), t[5..]))
    else if t == "" then None
    else if t[0] == '"' then
      var s := DecodeString(t);
      if s.None? then None else Some((Str(s.value.0), s.value.1))
    else if t[0] == '[' then
      if |t| > 1 && t[1] == ']' then Some((Array([]), t[2..]))
      else
        var items := ReadItems(t[1..]);
        if items.None? then None else Some((Array(items.value.0), items.value.1))
    else if t[0] == '{' then
      if |t| > 1 && t[1] == '}' then Some((Object(map[]), t[2..]))
      else
        var fields := ReadMembers(t[1..]);
        if fields.None? then None else Some((Object(fields.value.0), fields.value.1))
    else
      var n := NumberPrefix(t);
      if n == "" then None else Some((Number(n), t[|n|..]))
  }

  /** Values separated by commas up to a closing bracket. */
  function ReadItems(t: string): (r: Option<(seq<Value>, string)>)
    ensures r.Some? ==> |r.value.1| < |t|
    decreases |t|, 1
  {
    var first := ReadValue(t);
    if first.None? || first.value.1 == "" then None
    else
      var (x, rest) := first.value;
      if rest[0] == ']' then Some(([x], rest[1..]))
      else if rest[0] != ',' then None
      else
        var more := ReadItems(rest[1..]);
        if more.None? then None else Some(([x] + more.value.0, more.value.1))
  }

  /** Members separated by commas up to a closing brace; of equal keys the last counts. */
  function ReadMembers(t: string): (r: Option<(map<string, Value>, string)>)
    ensures r.Some? ==> |r.value.1| < |t|
    decreases |t|, 1
  {
    var key := DecodeString(t);
    if key.None? || key.value.1 == "" || key.value.1[0] != ':' then None
    else
      var value := ReadValue(key.value.1[1..]);
      if value.None? || value.value.1 == "" then None
      else
        var (x, rest) := value.value;
        if rest[0] == '}' then Some((map[key.value.0 := x], rest[1..]))
        else if rest[0] != ',' then None
        else
          var more := ReadMembers(rest[1..]);
          if more.None? then None else Some((map[key.value.0 := x] + more.value.0, more.value.1))
  }

  lemma {:induction false} NumberPrefixStops(d: string, rest: string)
    requires (forall c :: c in d ==> NumberChar(c)) && Delimited(rest)
    ensures NumberPrefix(d + rest) == d
  {
    if d == "" {
      assert d + rest == rest;
    } else {
      assert d[0] in d;
      NumberPrefixStops(d[1..], rest);
      assert (d + rest)[1..] == d[1..] + rest;
      assert d == [d[0]] + d[1..];
    }
  }

  /** What the first character of a text says about reading it. */
  lemma ReadByFirst(c: char, u: string)
    requires c != 'n' && c != 't' && c != 'f'
    ensures var t := [c] + u;
            ReadValue(t) ==
              if c == '"' then
                var s := DecodeString(t);
                if s.None? then None else Some((Str(s.value.0), s.value.1))
              else if c == '[' then
                if u != "" && u[0] == ']' then Some((Array([]), u[1..]))
                else
                  var items := ReadItems(u);
                  if items.None? then None else Some((Array(items.value.0), items.value.1))
              else if c == '{' then
                if u != "" && u[0] == '}' then Some((Object(map[]), u[1..]))
                else
                  var fields := ReadMembers(u);
                  if fields.None? then None else Some((Object(fields.value.0), fields.value.1))
              else
                var n := NumberPrefix(t);
                if n == "" then None else Some((Number(n), t[|n|..]))
  {
    var t := [c] + u;
    hide DecodeString, ReadItems, ReadMembers, NumberPrefix;
    assert t[0] == c && t[1..] == u;
    assert u != "" ==> t[1] == u[0] && t[2..] == u[1..];
    assert !("null" <= t) && !("true" <= t) && !("false" <= t) by {
      assert "null"[0] == 'n' && "true"[0] == 't' && "false"[0] == 'f';
    }
  }

  lemma ReadWord(r: string)
    ensures ReadValue("null" + r) == Some((Null, r))
    ensures ReadValue("true" + r) == Some((Bool(true), r))
    ensures ReadValue("false" + r) == Some((Bool(false), r))
  {
    hide DecodeString, ReadItems, ReadMembers, NumberPrefix;
    assert ("null" + r)[4..] == r && ("true" + r)[4..] == r && ("false" + r)[5..] == r;
    assert "null" <= "null" + r && "true" <= "true" + r && "false" <= "false" + r;
    assert ("true" + r)[0] == 't' && ("false" + r)[0] == 'f' && ("null" + r)[0] == 'n';
    assert "null"[0] == 'n' && "true"[0] == 't' && "false"[0] == 'f';
  }

  /** Reading inverts the canonical encoding, and leaves the text after it alone. */
  lemma {:induction false} ReadInverts(v: Value, r: string)
    requires WellFormed(v) && Delimited(r)
    ensures ReadValue(Enc(v) + r) == Some((v, r))
    decreases v, 1
  {
    hide ReadValue, ReadItems, ReadMembers, DecodeString, EncString, EncItems, EncFields, FieldsFrom, Delimited;
    match v {
      case Null => ReadWord(r);
      case Bool(_) => ReadWord(r);
      case Number(t) => ReadNumber(t, r);
      case Str(s) => ReadString(s, r);
      case Array(items) =>
        if items != [] {
          ItemsRead(v, 0, r);
          assert items[0..] == items;
        }
        ReadArray(v, r);
      case Object(fields) =>
        var ks := KeyOrder(fields.Keys);
        if ks != [] {
          FieldsText(v, ks, 0, r);
          FieldsRead(v, ks, 0, r);
          NoSeparator(EncString(ks[0]) + (":" + (Enc(fields[ks[0]]) + (EncFields(v, ks, 1) + "}" + r))));
        }
        ReadObject(v, ks, r);
    }
  }

  lemma ReadArray(v: Value, r: string)
    requires v.Array? && WellFormed(v)
    requires v.items != [] ==>
               ReadItems(Enc(v.items[0]) + (EncItems(v, 1) + "]" + r)) == Some((v.items, r))
    ensures ReadValue(Enc(v) + r) == Some((v, r))
  {
    hide ReadValue, ReadItems, ReadMembers, DecodeString, NumberPrefix;
    ArrayText(v, r);
    ItemsHead(v, 0, r);
    if v.items != [] {
      ItemsText(v, 0, r);
      NoSeparator(Enc(v.items[0]) + (EncItems(v, 1) + "]" + r));
    }
    hide Enc, EncItems, WellFormed;
    ReadByFirst('[', EncItems(v, 0) + "]" + r);
    assert ("]" + r)[1..] == r;
  }

  lemma ReadObject(v: Value, ks: seq<string>, r: string)
    requires v.Object? && WellFormed(v) && ks == KeyOrder(v.fields.Keys)
    requires ks != [] ==> ReadMembers(EncFields(v, ks, 0) + "}" + r) == Some((FieldsFrom(v, ks, 0), r))
    ensures ReadValue(Enc(v) + r) == Some((v, r))
  {
    hide ReadValue, ReadItems, ReadMembers, DecodeString, NumberPrefix;
    ObjectText(v, r);
    FieldsHead(v, ks, 0, r);
    AllFields(v.fields, ks);
    hide Enc, EncFields, WellFormed, FieldsFrom;
    ReadByFirst('{', EncFields(v, ks, 0) + "}" + r);
    assert ("}" + r)[1..] == r;
    if ks == [] {
      assert v.fields.Keys == Elements(ks) == {};
      assert v.fields == map[];
    }
  }

  lemma NoSeparator(text: string)
    ensures Separator(0) + text == text
  {
  }

  lemma ReadNumber(t: string, r: string)
    requires NumberToken(t) && Delimited(r)
    ensures ReadValue(t + r) == Some((Number(t), r))
  {
    hide ReadValue, NumberPrefix;
    assert t[0] in t;
    NumberPrefixStops(t, r);
    ReadByFirst(t[0], t[1..] + r);
    assert t + r == [t[0]] + (t[1..] + r);
    assert (t + r)[|t|..] == r;
  }

  lemma ReadString(s: string, r: string)
    ensures ReadValue(EncString(s) + r) == Some((Str(s), r))
  {
    hide ReadValue, DecodeString, EscapeAll;
    DecodeInvertsEncString(s, r);
    ReadByFirst('"', EscapeAll(s) + "\"" + r);
    assert EncString(s) + r == ['"'] + (EscapeAll(s) + "\"" + r);
  }

  lemma {:induction false} ItemsRead(v: Value, i: nat, r: string)
    requires v.Array? && WellFormed(v) && i < |v.items| && Delimited(r)
    ensures ReadItems(Enc(v.items[i]) + (EncItems(v, i + 1) + "]" + r)) == Some((v.items[i..], r))
    decreases v, 0, |v.items| - i
  {
    hide ReadValue, Enc, EncItems, Delimited;
    var rest := EncItems(v, i + 1) + "]" + r;
    ItemsHead(v, i + 1, r);
    ItemsTailDelimited(v, i + 1, r);
    ItemWellFormed(v, i);
    ReadInverts(v.items[i], rest);
    if i + 1 == |v.items| {
      assert rest[1..] == r && v.items[i..] == [v.items[i]];
    } else {
      ItemsText(v, i + 1, r);
      ItemsRead(v, i + 1, r);
      assert rest[1..] == Enc(v.items[i + 1]) + (EncItems(v, i + 2) + "]" + r);
      assert v.items[i..] == [v.items[i]] + v.items[i + 1..];
    }
  }

  /** The members for the keys from index `i` on. */
  function FieldsFrom(v: Value, ks: seq<string>, i: nat): map<string, Value>
    requires v.Object? && Elements(ks) <= v.fields.Keys && i <= |ks|
  {
    map k | k in ks[i..] && k in v.fields :: v.fields[k]
  }

  lemma AllFields(fields: map<string, Value>, ks: seq<string>)
    requires Elements(ks) == fields.Keys
    ensures FieldsFrom(Object(fields), ks, 0) == fields
  {
    assert ks[0..] == ks;
    assert forall k :: k in ks <==> k in Elements(ks);
  }

  lemma FieldsNext(v: Value, ks: seq<string>, i: nat)
    requires v.Object? && Elements(ks) <= v.fields.Keys && i < |ks|
    ensures ks[i] in v.fields
    ensures FieldsFrom(v, ks, i) == map[ks[i] := v.fields[ks[i]]] + FieldsFrom(v, ks, i + 1)
    ensures FieldsFrom(v, ks, |ks|) == map[]
  {
    assert ks[i] in Elements(ks);
    assert ks[i..] == [ks[i]] + ks[i + 1..];
  }

  lemma {:induction false} FieldsRead(v: Value, ks: seq<string>, i: nat, r: string)
    requires v.Object? && WellFormed(v) && Elements(ks) <= v.fields.Keys && i < |ks| && Delimited(r)
    ensures ks[i] in v.fields
    ensures ReadMembers(EncString(ks[i]) + (":" + (Enc(v.fields[ks[i]]) + (EncFields(v, ks, i + 1) + "}" + r))))
         == Some((FieldsFrom(v, ks, i), r))
    decreases v, 0, |ks| - i
  {
    hide ReadValue, DecodeString, Enc, EncFields, EncString, Delimited, FieldsFrom;
    FieldsNext(v, ks, i);
    var rest := EncFields(v, ks, i + 1) + "}" + r;
    var x := v.fields[ks[i]];
    FieldsHead(v, ks, i + 1, r);
    FieldsTailDelimited(v, ks, i + 1, r);
    FieldWellFormed(v, ks[i]);
    ReadInverts(x, rest);
    DecodeInvertsEncString(ks[i], ":" + (Enc(x) + rest));
    assert (":" + (Enc(x) + rest))[1..] == Enc(x) + rest;
    if i + 1 == |ks| {
      assert rest[1..] == r;
      assert map[ks[i] := x] + map[] == map[ks[i] := x];
    } else {
      FieldsText(v, ks, i + 1, r);
      FieldsRead(v, ks, i + 1, r);
      var (key, value, more) := (ks[i + 1], v.fields[ks[i + 1]], EncFields(v, ks, i + 2) + "}" + r);
      assert rest == "," + (EncString(key) + (":" + (Enc(value) + more)));
      assert rest[1..] == EncString(key) + (":" + (Enc(value) + more));
    }
  }

  lemma ItemWellFormed(v: Value, i: nat)
    requires v.Array? && WellFormed(v) && i < |v.items|
    ensures WellFormed(v.items[i])
  {
  }

  lemma FieldWellFormed(v: Value, k: string)
    requires v.Object? && WellFormed(v) && k in v.fields
    ensures WellFormed(v.fields[k])
  {
  }

  /** What follows the first `i` items starts with a closing bracket exactly at the end. */
  lemma ItemsHead(v: Value, i: nat, r: string)
    requires v.Array? && WellFormed(v) && i <= |v.items|
    ensures (EncItems(v, i) + "]" + r)[0] == ']' <==> i == |v.items|
    ensures i == |v.items| ==> EncItems(v, i) + "]" + r == "]" + r
  {
    if i < |v.items| {
      FirstChar(v.items[i]);
    }
  }

  lemma ItemsTailDelimited(v: Value, i: nat, r: string)
    requires v.Array? && 0 < i <= |v.items|
    ensures Delimited(EncItems(v, i) + "]" + r)
  {
  }

  lemma FieldsHead(v: Value, ks: seq<string>, i: nat, r: string)
    requires v.Object? && Elements(ks) <= v.fields.Keys && i <= |ks|
    ensures (EncFields(v, ks, i) + "}" + r)[0] == '}' <==> i == |ks|
    ensures i == |ks| ==> EncFields(v, ks, i) + "}" + r == "}" + r
  {
    if i < |ks| {
      assert ks[i] in Elements(ks);
    }
  }

  lemma FieldsTailDelimited(v: Value, ks: seq<string>, i: nat, r: string)
    requires v.Object? && Elements(ks) <= v.fields.Keys && 0 < i <= |ks|
    ensures Delimited(EncFields(v, ks, i) + "}" + r)
  {
    FieldsHead(v, ks, i, r);
  }

  /** The canonical encoding is prefix-free up to a delimiter. */
  lemma PrefixFree(v1: Value, r1: string, v2: Value, r2: string)
    requires WellFormed(v1) && WellFormed(v2)
    requires Delimited(r1) && Delimited(r2)
    requires Enc(v1) + r1 == Enc(v2) + r2
    ensures v1 == v2 && r1 == r2
  {
    hide ReadValue, Enc, WellFormed, Delimited;
    ReadInverts(v1, r1);
    ReadInverts(v2, r2);
  }

  /** Two values with the same canonical text are the same value. */
  lemma CanonicalUnambiguous(v1: Value, v2: Value)
    requires WellFormed(v1) && WellFormed(v2)
    ensures Enc(v1) == Enc(v2) <==> v1 == v2
  {
    if Enc(v1) == Enc(v2) {
      assert Enc(v1) + "" == Enc(v2) + "";
      PrefixFree(v1, "", v2, "");
    }
  }

  // ---------- The encoders, appending to a shared builder ----------

  class Builder {
    var text: string

    constructor ()
      ensures text == ""
    {
      text := "";
    }

    method Write(s: string)
      modifies this
      ensures text == old(text) + s
    {
      text := text + s;
    }
  }

  method EncodeJSONString(s: string) returns (r: string)
    ensures r == EncString(s)
  {
    hide EscapeChar, EscapeAll;
    var buf := "\"";
    var i := 0;
    assert s[..0] == "";
    EscapeNothing();
    while i < |s|
      invariant 0 <= i <= |s|
      invariant buf == "\"" + EscapeAll(s[..i])
    {
      EscapeAllSnoc(s[..i], s[i]);
      assert s[..i + 1] == s[..i] + [s[i]];
      buf := buf + EscapeChar(s[i]);
      i := i + 1;
    }
    assert s[..|s|] == s;
    return buf + "\"";
  }

  lemma EscapeNothing()
    ensures EscapeAll("") == ""
  {
  }

  lemma {:induction false} EscapeAllSnoc(s: string, c: char)
    ensures EscapeAll(s + [c]) == EscapeAll(s) + EscapeChar(c)
  {
    hide EscapeChar;
    if s == "" {
      assert s + [c] == [c] && EscapeAll([c][1..]) == "";
    } else {
      EscapeAllSnoc(s[1..], c);
      assert (s + [c])[1..] == s[1..] + [c];
    }
  }

  /** The keys of a map, in whatever order the iteration yields them. */
  method CollectKeys(keys: set<string>) returns (r: seq<string>)
    ensures Distinct(r) && Elements(r) == keys
  {
    r := [];
    var todo := keys;
    while todo != {}
      invariant todo <= keys && Elements(r) == keys - todo && Distinct(r)
      decreases todo
    {
      var k :| k in todo;
      assert k !in Elements(r);
      ghost var before := r;
      r := r + [k];
      assert Elements(r) == Elements(before) + {k};
      todo := todo - {k};
    }
  }

  /** One member of the loop over the sorted keys. */
  method EncodeMember(w: Builder, v: Value, keys: seq<string>, i: nat)
    requires v.Object? && Elements(keys) <= v.fields.Keys && i < |keys|
    modifies w
    ensures w.text + EncFields(v, keys, i + 1) == old(w.text) + EncFields(v, keys, i)
    decreases v, 0
  {
    hide Enc;
    hide EncFields;
    hide EncString;
    FieldsStep(v, keys, i);
    if i > 0 {
      w.Write(",");
    }
    var key := EncodeJSONString(keys[i]);
    w.Write(key);
    w.Write(":");
    EncodeCanonicalValue(w, v.fields[keys[i]]);
    Regroup(old(w.text), Separator(i), key, ":", Enc(v.fields[keys[i]]), EncFields(v, keys, i + 1));
  }

  method EncodeCanonicalMap(w: Builder, v: Value)
    requires v.Object?
    modifies w
    ensures w.text == old(w.text) + Enc(v)
    decreases v, 1
  {
    w.Write("{");
    var collected := CollectKeys(v.fields.Keys);
    var keys := Sort(collected);
    SortOfEnumeration(collected);
    var i := 0;
    ghost var start := w.text;
    while i < |keys|
      invariant 0 <= i <= |keys|
      invariant start + EncFields(v, keys, 0) == w.text + EncFields(v, keys, i)
    {
      EncodeMember(w, v, keys, i);
      i := i + 1;
    }
    FieldsEnd(v, keys);
    ObjectText(v, "");
    w.Write("}");
    Regroup(old(w.text), "{", EncFields(v, keys, 0), "}", "", "");
  }

  lemma FieldsEnd(v: Value, ks: seq<string>)
    requires v.Object? && Elements(ks) <= v.fields.Keys
    ensures EncFields(v, ks, |ks|) == ""
  {
  }

  lemma Regroup(before: string, a: string, b: string, c: string, d: string, rest: string)
    ensures before + a + b + c + d + rest == before + (a + b + c + d + rest)
    ensures before + a + b + c == before + (a + b + c)
  {
  }

  method EncodeCanonicalArray(w: Builder, v: Value)
    requires v.Array?
    modifies w
    ensures w.text == old(w.text) + Enc(v)
    decreases v, 0
  {
    hide Enc, EncItems;
    w.Write("[");
    var i := 0;
    ghost var start := w.text;
    while i < |v.items|
      invariant 0 <= i <= |v.items|
      invariant start + EncItems(v, 0) == w.text + EncItems(v, i)
    {
      ghost var before := w.text;
      if i > 0 {
        w.Write(",");
      }
      EncodeCanonicalValue(w, v.items[i]);
      ItemsStep(v, i);
      Regroup(before, Separator(i), Enc(v.items[i]), EncItems(v, i + 1), "", "");
      i := i + 1;
    }
    w.Write("]");
    ArrayEnds(v);
    Regroup(old(w.text), "[", EncItems(v, 0), "]", "", "");
  }

  lemma ArrayEnds(v: Value)
    requires v.Array?
    ensures Enc(v) == "[" + EncItems(v, 0) + "]" && EncItems(v, |v.items|) == ""
  {
  }

  method EncodeCanonicalValue(w: Builder, v: Value)
    modifies w
    ensures w.text == old(w.text) + Enc(v)
    decreases v, 2
  {
    match v {
      case Null => w.Write("null");
      case Bool(b) => w.Write(if b then "true" else "false");
      case Number(t) => w.Write(t);
      case Str(s) =>
        var text := EncodeJSONString(s);
        w.Write(text);
      case Array(_) => EncodeCanonicalArray(w, v);
      case Object(_) => EncodeCanonicalMap(w, v);
    }
  }

  /** `canonicalJSONBytes`: a fresh builder, one object. */
  method CanonicalJSONBytes(row: Row) returns (text: string)
    ensures text == Enc(Object(row))
  {
    var w := new Builder();
    EncodeCanonicalMap(w, Object(row));
    return w.text;
  }
}
