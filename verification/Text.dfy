/** The string helpers of Go's `strings`, `unicode` and `fmt` packages that the modelled code calls. */
module Text {

  /** `unicode.IsSpace`. */
  predicate IsSpace(c: char) {
    c in "\t\n\U{b}\U{c}\r \U{85}\U{a0}\U{1680}\U{2028}\U{2029}\U{202f}\U{205f}\U{3000}"
    || '\U{2000}' <= c <= '\U{200a}'
  }

  predicate Blank(s: string) {
    forall c :: c in s ==> IsSpace(c)
  }

  function TrimLeft(s: string): string {
    if s != "" && IsSpace(s[0]) then TrimLeft(s[1..]) else s
  }

  function TrimRight(s: string): string {
    if s != "" && IsSpace(s[|s| - 1]) then TrimRight(s[..|s| - 1]) else s
  }

  /** `strings.TrimSpace`. */
  function Trim(s: string): string {
    TrimRight(TrimLeft(s))
  }

  predicate Trimmed(s: string) {
    s == "" || (!IsSpace(s[0]) && !IsSpace(s[|s| - 1]))
  }

  lemma BlankAfterSpace(s: string, k: nat)
    requires 0 < k <= |s| && IsSpace(s[0]) && Blank(s[1..][..k - 1])
    ensures Blank(s[..k]) && s[1..][k - 1..] == s[k..]
  {
    hide IsSpace;
    assert s[..k] == [s[0]] + s[1..][..k - 1];
  }

  lemma BlankBeforeSpace(s: string, k: nat)
    requires k < |s| && IsSpace(s[|s| - 1]) && Blank(s[..|s| - 1][k..])
    ensures Blank(s[k..]) && s[..|s| - 1][..k] == s[..k]
  {
    hide IsSpace;
    assert s[k..] == s[..|s| - 1][k..] + [s[|s| - 1]];
  }

  lemma TrimNext(s: string)
    ensures TrimLeft(s) == if s != "" && IsSpace(s[0]) then TrimLeft(s[1..]) else s
    ensures TrimRight(s) == if s != "" && IsSpace(s[|s| - 1]) then TrimRight(s[..|s| - 1]) else s
    ensures Blank("") && s[..0] == "" && s[|s|..] == "" && s[..|s|] == s && s[0..] == s
  {
    hide IsSpace;
  }

  lemma {:induction false} TrimLeftSuffix(s: string)
    ensures var r := TrimLeft(s);
            && (r == "" || !IsSpace(r[0]))
            && |r| <= |s| && r == s[|s| - |r|..] && Blank(s[..|s| - |r|])
  {
    hide IsSpace, Blank, TrimLeft;
    TrimNext(s);
    if s != "" && IsSpace(s[0]) {
      TrimLeftSuffix(s[1..]);
      BlankAfterSpace(s, |s| - |TrimLeft(s)|);
    }
  }

  lemma {:induction false} TrimRightPrefix(s: string)
    ensures var r := TrimRight(s);
            && (r == "" || !IsSpace(r[|r| - 1]))
            && |r| <= |s| && r == s[..|r|] && Blank(s[|r|..])
  {
    hide IsSpace, Blank, TrimRight;
    TrimNext(s);
    if s != "" && IsSpace(s[|s| - 1]) {
      TrimRightPrefix(s[..|s| - 1]);
      BlankBeforeSpace(s, |TrimRight(s)|);
    }
  }

  lemma TrimIsTrimmed(s: string)
    ensures Trimmed(Trim(s))
    ensures Trim(Trim(s)) == Trim(s)
  {
    hide IsSpace;
    TrimLeftSuffix(s);
    TrimRightPrefix(TrimLeft(s));
    TrimmedFixed(Trim(s));
  }

  lemma TrimmedFixed(s: string)
    requires Trimmed(s)
    ensures Trim(s) == s
  {
  }

  // ---------- Decimal numbers ----------

  predicate IsDigit(c: char) {
    '0' <= c <= '9'
  }

  predicate Digits(s: string) {
    forall c :: c in s ==> IsDigit(c)
  }

  /** `%d` of a natural number. */
  function Decimal(n: nat): (s: string)
    ensures s != "" && Digits(s)
  {
    var last := [('0' as int + n % 10) as char];
    if n < 10 then last else Decimal(n / 10) + last
  }

  /** `%d` of an integer. */
  function DecimalInt(n: int): string {
    if n < 0 then "-" + Decimal(-n) else Decimal(n)
  }

  /** `%06d` of a natural number. */
  function Pad6(n: nat): (s: string)
    ensures s != "" && Digits(s)
  {
    Zeros(6 - |Decimal(n)|) + Decimal(n)
  }

  function Zeros(k: int): (s: string)
    ensures Digits(s)
  {
    if k <= 0 then "" else "0" + Zeros(k - 1)
  }

  function DigitsValue(s: string): nat
    requires Digits(s)
  {
    if s == "" then 0
    else
      assert s[|s| - 1] in s;
      10 * DigitsValue(s[..|s| - 1]) + (s[|s| - 1] as int - '0' as int)
  }

  lemma {:induction false} DecimalValue(n: nat)
    ensures DigitsValue(Decimal(n)) == n
  {
    if n >= 10 {
      DecimalValue(n / 10);
      assert Decimal(n)[..|Decimal(n)| - 1] == Decimal(n / 10);
    }
  }

  lemma {:induction false} ZerosValue(k: int, s: string)
    requires Digits(s)
    ensures DigitsValue(Zeros(k) + s) == DigitsValue(s)
  {
    if s != "" {
      ZerosValue(k, s[..|s| - 1]);
      assert (Zeros(k) + s)[..|Zeros(k) + s| - 1] == Zeros(k) + s[..|s| - 1];
    } else if k > 0 {
      OnlyZeros(k);
      assert Zeros(k) + s == Zeros(k);
    }
  }

  lemma {:induction false} OnlyZeros(k: int)
    ensures DigitsValue(Zeros(k)) == 0
  {
    if k > 0 {
      OnlyZeros(k - 1);
      ZerosSnoc(k - 1);
      assert Zeros(k)[..|Zeros(k)| - 1] == Zeros(k - 1);
    }
  }

  lemma {:induction false} ZerosSnoc(k: int)
    ensures k >= 0 ==> Zeros(k + 1) == Zeros(k) + "0"
  {
    if k > 0 {
      ZerosSnoc(k - 1);
    }
  }

  lemma Pad6Value(n: nat)
    ensures DigitsValue(Pad6(n)) == n
  {
    DecimalValue(n);
    ZerosValue(6 - |Decimal(n)|, Decimal(n));
  }

  // ---------- Reading a text up to a stop character ----------

  lemma SplitContinues(a: string, r: string, b: string, s: string, stop: set<char>)
    requires forall c :: c in b ==> c !in stop
    requires |a| < |b| && a + r == b + s
    ensures r != "" && r[0] !in stop
  {
    var k := |a|;
    assert |a + r| == |b + s|;
    assert (a + r)[k] == r[0] && (b + s)[k] == b[k];
    assert b[k] in b;
  }

  /** Equal texts whose first parts avoid the stop characters that end them have equal first parts. */
  lemma SplitUnique(a: string, r: string, b: string, s: string, stop: set<char>)
    requires forall c :: c in a || c in b ==> c !in stop
    requires (r == "" || r[0] in stop) && (s == "" || s[0] in stop)
    requires a + r == b + s
    ensures a == b && r == s
  {
    if |a| < |b| {
      SplitContinues(a, r, b, s, stop);
    } else if |b| < |a| {
      SplitContinues(b, s, a, r, stop);
    } else {
      assert a == (a + r)[..|a|] && b == (b + s)[..|b|];
      assert r == (a + r)[|a|..] && s == (b + s)[|b|..];
    }
  }

  // ---------- Cutting and splitting at a character ----------

  /** The text after the last `c`, or all of it. */
  function AfterLast(s: string, c: char): string {
    if s == "" || s[|s| - 1] == c then "" else AfterLast(s[..|s| - 1], c) + [s[|s| - 1]]
  }

  /** The text before the first `c`, or all of it. */
  function BeforeFirst(s: string, c: char): string {
    if s == "" || s[0] == c then "" else [s[0]] + BeforeFirst(s[1..], c)
  }

  /** The text after the first `c`, or nothing when there is none. */
  function AfterFirst(s: string, c: char): string {
    if s == "" then "" else if s[0] == c then s[1..] else AfterFirst(s[1..], c)
  }

  lemma CutNext(s: string, c: char)
    requires s != ""
    ensures BeforeFirst(s, c) == if s[0] == c then "" else [s[0]] + BeforeFirst(s[1..], c)
    ensures AfterFirst(s, c) == if s[0] == c then s[1..] else AfterFirst(s[1..], c)
  {
  }

  lemma {:induction false} CutShrinks(s: string, c: char)
    ensures c in s ==> |AfterFirst(s, c)| < |s| && s == BeforeFirst(s, c) + [c] + AfterFirst(s, c)
    ensures c !in s ==> BeforeFirst(s, c) == s && AfterFirst(s, c) == ""
    ensures c !in BeforeFirst(s, c)
  {
    if s != "" {
      hide BeforeFirst, AfterFirst;
      CutNext(s, c);
      assert s == [s[0]] + s[1..];
      if s[0] != c {
        CutShrinks(s[1..], c);
        assert c in s <==> c in s[1..];
      }
    }
  }

  /** `strings.Split` at a single character. */
  function Split(s: string, c: char): (r: seq<string>)
    ensures r != []
    decreases |s|
  {
    if c in s then
      CutShrinks(s, c);
      [BeforeFirst(s, c)] + Split(AfterFirst(s, c), c)
    else [s]
  }

  lemma SplitNext(s: string, c: char)
    ensures Split(s, c) == if c in s then [BeforeFirst(s, c)] + Split(AfterFirst(s, c), c) else [s]
    ensures c in s ==> |AfterFirst(s, c)| < |s| && s == BeforeFirst(s, c) + [c] + AfterFirst(s, c)
  {
    hide BeforeFirst, AfterFirst;
    CutShrinks(s, c);
  }

  /** `strings.Join` with a single character between the parts. */
  function Join(parts: seq<string>, c: char): string {
    if parts == [] then ""
    else if |parts| == 1 then parts[0]
    else parts[0] + [c] + Join(parts[1..], c)
  }

  lemma {:induction false} JoinSplit(s: string, c: char)
    ensures Join(Split(s, c), c) == s
    ensures forall p :: p in Split(s, c) ==> c !in p
    decreases |s|
  {
    CutShrinks(s, c);
    if c in s {
      JoinSplit(AfterFirst(s, c), c);
    }
  }

  lemma CutUnique(a: string, r: string, c: char)
    requires c !in a
    ensures BeforeFirst(a + [c] + r, c) == a && AfterFirst(a + [c] + r, c) == r
  {
    var s := a + [c] + r;
    CutShrinks(s, c);
    assert s[|a|] == c;
    assert s == a + ([c] + r) && s == BeforeFirst(s, c) + ([c] + AfterFirst(s, c));
    SplitUnique(a, [c] + r, BeforeFirst(s, c), [c] + AfterFirst(s, c), {c});
    assert r == ([c] + r)[1..];
  }

  lemma SplitCons(a: string, r: string, c: char)
    requires c !in a
    ensures Split(a + [c] + r, c) == [a] + Split(r, c)
  {
    CutUnique(a, r, c);
    assert (a + [c] + r)[|a|] == c;
  }

  lemma {:induction false} SplitJoin(parts: seq<string>, c: char)
    requires parts != [] && forall p :: p in parts ==> c !in p
    ensures Split(Join(parts, c), c) == parts
  {
    if |parts| > 1 {
      SplitCons(parts[0], Join(parts[1..], c), c);
      SplitJoin(parts[1..], c);
    }
  }
}
