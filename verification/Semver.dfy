/** Version comparison of the canon pack validator, and the order of section 11 of SemVer 2.0.0. */
module Semver {
  import opened Basics
  import opened Text
  import opened StringOrder

  const INT64_LIMIT: int := 0x8000_0000_0000_0000

  /** The value of an int64 after wrap-around. */
  function Wrap64(n: int): (r: int)
    ensures -INT64_LIMIT <= r < INT64_LIMIT
    ensures -INT64_LIMIT <= n < INT64_LIMIT ==> r == n
  {
    (n + INT64_LIMIT) % (2 * INT64_LIMIT) - INT64_LIMIT
  }

  // ---------- Identifiers ----------

  /** Digits without a superfluous leading zero. */
  predicate NumericText(v: string) {
    v != "" && Digits(v) && (|v| > 1 ==> v[0] != '0')
  }

  /** The number an identifier's digits wrap around to. */
  function WrappedValue(v: string): int
    requires Digits(v)
  {
    if v == "" then 0
    else
      assert v[|v| - 1] in v;
      Wrap64(WrappedValue(v[..|v| - 1]) * 10 + (v[|v| - 1] as int - '0' as int))
  }

  lemma WrapShift(x: int, k: int)
    ensures Wrap64(x + 2 * INT64_LIMIT * k) == Wrap64(x)
  {
  }

  /** One more digit may be added before or after wrapping. */
  lemma WrapDigit(x: int, d: int)
    ensures Wrap64(Wrap64(x) * 10 + d) == Wrap64(x * 10 + d)
  {
    var k := (x + INT64_LIMIT) / (2 * INT64_LIMIT);
    assert Wrap64(x) == x - 2 * INT64_LIMIT * k;
    assert Wrap64(x) * 10 + d == x * 10 + d + 2 * INT64_LIMIT * (-10 * k);
    WrapShift(x * 10 + d, -10 * k);
  }

  /** Wrapping at every digit is wrapping once at the end. */
  lemma {:induction false} WrappedOnce(v: string)
    requires Digits(v)
    ensures WrappedValue(v) == Wrap64(DigitsValue(v))
  {
    if v != "" {
      assert v[|v| - 1] in v;
      var front := v[..|v| - 1];
      var d := v[|v| - 1] as int - '0' as int;
      WrappedOnce(front);
      hide Wrap64, INT64_LIMIT;
      WrapDigit(DigitsValue(front), d);
    }
  }

  method NumericIdentifier(v: string) returns (n: int, ok: bool)
    ensures ok <==> NumericText(v)
    ensures ok ==> n == WrappedValue(v)
    ensures !ok ==> n == 0
  {
    if v == "" || (|v| > 1 && v[0] == '0') {
      return 0, false;
    }
    n := 0;
    var i := 0;
    while i < |v|
      invariant 0 <= i <= |v| && Digits(v[..i])
      invariant n == WrappedValue(v[..i])
    {
      if v[i] < '0' || v[i] > '9' {
        assert v[i] in v;
        return 0, false;
      }
      assert v[..i + 1][..i] == v[..i];
      n := Wrap64(n * 10 + (v[i] as int - '0' as int));
      i := i + 1;
    }
    assert v[..i] == v;
    return n, true;
  }

  function CompareInt(a: int, b: int): int {
    if a < b then -1 else if a > b then 1 else 0
  }

  function CompareText(a: string, b: string): int {
    if a == b then 0 else if Le(a, b) then -1 else 1
  }

  /** Order of two pre-release identifiers. */
  function CompareID(a: string, b: string): int {
    if NumericText(a) && NumericText(b) && WrappedValue(a) != WrappedValue(b)
    then CompareInt(WrappedValue(a), WrappedValue(b))
    else if NumericText(a) != NumericText(b) then (if NumericText(a) then -1 else 1)
    else CompareText(a, b)
  }

  function CompareIDs(a: seq<string>, b: seq<string>): int {
    if a == [] then (if b == [] then 0 else -1)
    else if b == [] then 1
    else if CompareID(a[0], b[0]) != 0 then CompareID(a[0], b[0])
    else CompareIDs(a[1..], b[1..])
  }

  method ComparePrerelease(a: string, b: string) returns (r: int)
    ensures r == CompareIDs(Split(a, '.'), Split(b, '.'))
  {
    if a == b {
      CompareIDsReflexive(Split(a, '.'));
      return 0;
    }
    var left, right := Split(a, '.'), Split(b, '.');
    var i := 0;
    while i < |left| || i < |right|
      invariant 0 <= i <= |left| && i <= |right|
      invariant CompareIDs(left, right) == CompareIDs(left[i..], right[i..])
      decreases |left| - i
    {
      if i >= |left| {
        return -1;
      }
      if i >= |right| {
        return 1;
      }
      var ln, lok := NumericIdentifier(left[i]);
      var rn, rok := NumericIdentifier(right[i]);
      TextOrder(left[i], right[i]);
      if lok && rok && ln != rn {
        return if ln < rn then -1 else 1;
      } else if lok != rok {
        return if lok then -1 else 1;
      } else if left[i] != right[i] && Le(left[i], right[i]) {
        return -1;
      } else if left[i] != right[i] {
        return 1;
      }
      i := i + 1;
    }
    return 0;
  }

  lemma TextOrder(a: string, b: string)
    ensures CompareText(a, b) == 0 <==> a == b
    ensures CompareText(a, b) == -CompareText(b, a)
  {
    LeTotal(a, b);
    if Le(a, b) && Le(b, a) {
      LeAntisymmetric(a, b);
    }
  }

  lemma TextTransitive(a: string, b: string, c: string)
    requires CompareText(a, b) <= 0 && CompareText(b, c) <= 0
    ensures CompareText(a, c) <= 0
    ensures CompareText(a, c) == 0 ==> a == b == c
  {
    LeTotal(a, b);
    LeTotal(b, c);
    LeReflexive(a);
    LeReflexive(b);
    LeTransitive(a, b, c);
    if a == c && Le(a, b) && Le(b, a) {
      LeAntisymmetric(a, b);
    }
  }

  lemma IDOrder(a: string, b: string)
    ensures CompareID(a, b) == 0 <==> a == b
    ensures CompareID(a, b) == -CompareID(b, a)
    ensures -1 <= CompareID(a, b) <= 1
  {
    TextOrder(a, b);
  }

  lemma IDTransitive(a: string, b: string, c: string)
    requires CompareID(a, b) <= 0 && CompareID(b, c) <= 0
    ensures CompareID(a, c) <= 0
    ensures CompareID(a, c) == 0 ==> a == b == c
  {
    hide CompareText, WrappedValue, NumericText, Digits;
    if CompareText(a, b) <= 0 && CompareText(b, c) <= 0 {
      TextTransitive(a, b, c);
    }
    TextOrder(a, b);
    TextOrder(b, c);
    TextOrder(a, c);
  }

  lemma {:induction false} CompareIDsReflexive(a: seq<string>)
    ensures CompareIDs(a, a) == 0
  {
    if a != [] {
      IDOrder(a[0], a[0]);
      CompareIDsReflexive(a[1..]);
    }
  }

  lemma {:induction false} IDsOrder(a: seq<string>, b: seq<string>)
    ensures CompareIDs(a, b) == 0 <==> a == b
    ensures CompareIDs(a, b) == -CompareIDs(b, a)
    ensures -1 <= CompareIDs(a, b) <= 1
  {
    hide CompareID;
    if a != [] && b != [] {
      IDOrder(a[0], b[0]);
      IDsOrder(a[1..], b[1..]);
      assert a == [a[0]] + a[1..] && b == [b[0]] + b[1..];
    }
  }

  lemma {:induction false} IDsTransitive(a: seq<string>, b: seq<string>, c: seq<string>)
    requires CompareIDs(a, b) <= 0 && CompareIDs(b, c) <= 0
    ensures CompareIDs(a, c) <= 0
    ensures CompareIDs(a, c) == 0 ==> a == b == c
  {
    hide CompareID;
    IDsOrder(a, b);
    IDsOrder(b, c);
    IDsOrder(a, c);
    if a != [] && b != [] && c != [] {
      IDOrder(a[0], b[0]);
      IDOrder(b[0], c[0]);
      IDTransitive(a[0], b[0], c[0]);
      if a[0] == b[0] == c[0] {
        IDsTransitive(a[1..], b[1..], c[1..]);
        assert a == [a[0]] + a[1..] && b == [b[0]] + b[1..] && c == [c[0]] + c[1..];
      }
    }
  }

  // ---------- Versions ----------

  datatype Parts = Parts(major: int, minor: int, patch: int, pre: string)

  function DigitPrefix(s: string): (r: string)
    ensures Digits(r) && |r| <= |s| && r == s[..|r|]
  {
    if s != "" && IsDigit(s[0]) then [s[0]] + DigitPrefix(s[1..]) else ""
  }

  /** One `%d` of the scan: the number, and the text after it; a number that does not fit fails. */
  function ScanNumber(s: string): Option<(int, string)> {
    var d := DigitPrefix(s);
    if d == "" || DigitsValue(d) >= INT64_LIMIT then None else Some((DigitsValue(d), s[|d|..]))
  }

  /** The numbers of a core: scanning stops where the text stops matching, and later numbers stay zero. */
  function ScanCore(s: string): (int, int, int) {
    var a := ScanNumber(s);
    if a.None? then (0, 0, 0)
    else if a.value.1 == "" || a.value.1[0] != '.' then (a.value.0, 0, 0)
    else
      var b := ScanNumber(a.value.1[1..]);
      if b.None? then (a.value.0, 0, 0)
      else if b.value.1 == "" || b.value.1[0] != '.' then (a.value.0, b.value.0, 0)
      else
        var c := ScanNumber(b.value.1[1..]);
        if c.None? then (a.value.0, b.value.0, 0) else (a.value.0, b.value.0, c.value.0)
  }

  /** A version without its build metadata. */
  function Main(v: string): string {
    BeforeFirst(v, '+')
  }

  function CoreText(v: string): string {
    BeforeFirst(Main(v), '-')
  }

  function PreText(v: string): string {
    AfterFirst(Main(v), '-')
  }

  function SemverParts(v: string): Parts {
    var (a, b, c) := ScanCore(CoreText(v));
    Parts(a, b, c, PreText(v))
  }

  function ComparePre(a: string, b: string): int {
    if a == "" && b != "" then 1
    else if a != "" && b == "" then -1
    else CompareIDs(Split(a, '.'), Split(b, '.'))
  }

  function CompareParts(p: Parts, q: Parts): int {
    if p.major != q.major then CompareInt(p.major, q.major)
    else if p.minor != q.minor then CompareInt(p.minor, q.minor)
    else if p.patch != q.patch then CompareInt(p.patch, q.patch)
    else ComparePre(p.pre, q.pre)
  }

  function CompareSemver(a: string, b: string): int {
    CompareParts(SemverParts(a), SemverParts(b))
  }

  method CompareVersions(a: string, b: string) returns (r: int)
    ensures r == CompareSemver(a, b)
  {
    hide SemverParts, CompareIDs, Split;
    var (p, q) := (SemverParts(a), SemverParts(b));
    var pa, pb := [p.major, p.minor, p.patch], [q.major, q.minor, q.patch];
    var i := 0;
    while i < 3
      invariant 0 <= i <= 3 && pa[..i] == pb[..i]
    {
      if pa[i] < pb[i] {
        assert pa[..i] == pb[..i];
        OrderDecidedAt(p, q, i);
        return -1;
      }
      if pa[i] > pb[i] {
        OrderDecidedAt(p, q, i);
        return 1;
      }
      i := i + 1;
    }
    assert pa[..3][0] == pb[..3][0] && pa[..3][1] == pb[..3][1] && pa[..3][2] == pb[..3][2];
    if p.pre == "" && q.pre != "" {
      return 1;
    }
    if p.pre != "" && q.pre == "" {
      return -1;
    }
    r := ComparePrerelease(p.pre, q.pre);
  }

  lemma OrderDecidedAt(p: Parts, q: Parts, i: nat)
    requires i < 3
    requires [p.major, p.minor, p.patch][..i] == [q.major, q.minor, q.patch][..i]
    requires [p.major, p.minor, p.patch][i] != [q.major, q.minor, q.patch][i]
    ensures CompareParts(p, q) == CompareInt([p.major, p.minor, p.patch][i], [q.major, q.minor, q.patch][i])
  {
    var (s, t) := ([p.major, p.minor, p.patch], [q.major, q.minor, q.patch]);
    assert i > 0 ==> s[..i][0] == t[..i][0];
    assert i > 1 ==> s[..i][1] == t[..i][1];
  }

  lemma PartsOrder(p: Parts, q: Parts)
    ensures CompareParts(p, q) == 0 <==> p == q
    ensures CompareParts(p, q) == -CompareParts(q, p)
    ensures -1 <= CompareParts(p, q) <= 1
  {
    hide CompareIDs;
    IDsOrder(Split(p.pre, '.'), Split(q.pre, '.'));
    SplitInjective(p.pre, q.pre, '.');
  }

  /** A split text can be told from its parts. */
  lemma SplitInjective(s: string, t: string, c: char)
    ensures Split(s, c) == Split(t, c) ==> s == t
  {
    JoinSplit(s, c);
    JoinSplit(t, c);
  }

  lemma PartsTransitive(p: Parts, q: Parts, r: Parts)
    requires CompareParts(p, q) <= 0 && CompareParts(q, r) <= 0
    ensures CompareParts(p, r) <= 0
    ensures CompareParts(p, r) == 0 ==> p == q == r
  {
    hide CompareIDs, Split;
    PartsOrder(p, q);
    PartsOrder(q, r);
    PartsOrder(p, r);
    var (a, b, c) := (Split(p.pre, '.'), Split(q.pre, '.'), Split(r.pre, '.'));
    if CompareIDs(a, b) <= 0 && CompareIDs(b, c) <= 0 {
      IDsTransitive(a, b, c);
      SplitInjective(p.pre, q.pre, '.');
      SplitInjective(q.pre, r.pre, '.');
    }
  }

  /** For all texts, the comparison is a total preorder: antisymmetric in sign and transitive. */
  lemma SemverTotalPreorder(a: string, b: string, c: string)
    ensures CompareSemver(a, b) == -CompareSemver(b, a)
    ensures CompareSemver(a, b) == 0 <==> SemverParts(a) == SemverParts(b)
    ensures CompareSemver(a, b) <= 0 && CompareSemver(b, c) <= 0 ==> CompareSemver(a, c) <= 0
    ensures CompareSemver(a, b) < 0 && CompareSemver(b, c) <= 0 ==> CompareSemver(a, c) < 0
    ensures CompareSemver(a, b) <= 0 && CompareSemver(b, c) < 0 ==> CompareSemver(a, c) < 0
  {
    hide CompareParts, SemverParts;
    var (p, q, r) := (SemverParts(a), SemverParts(b), SemverParts(c));
    PartsOrder(p, q);
    PartsOrder(q, r);
    PartsOrder(p, r);
    if CompareParts(p, q) <= 0 && CompareParts(q, r) <= 0 {
      PartsTransitive(p, q, r);
    }
  }
}
