/** The precedence of section 11 of SemVer 2.0.0, when the comparison agrees with it,
    and the range of versions a pack declares itself compatible with. */
module SemverPrecedence {
  import opened Basics
  import opened Text
  import opened StringOrder
  import opened Semver

  // ---------- Valid versions ----------

  predicate IdentifierText(s: string) {
    s != "" && forall c :: c in s ==> IsDigit(c) || 'A' <= c <= 'Z' || 'a' <= c <= 'z' || c == '.' || c == '-'
  }

  /** What the code's regular expression matches. */
  predicate MatchesSemver(v: string) {
    && ('+' in v ==> IdentifierText(AfterFirst(v, '+')))
    && ('-' in Main(v) ==> IdentifierText(PreText(v)))
    && |Split(CoreText(v), '.')| == 3
    && forall i :: 0 <= i < 3 ==> NumericText(Split(CoreText(v), '.')[i])
  }

  predicate ValidIdentifier(id: string) {
    id != "" && (Digits(id) ==> NumericText(id))
  }

  /** A version that also keeps the standard's rules on pre-release identifiers. */
  predicate ValidSemver(v: string) {
    && MatchesSemver(v)
    && (PreText(v) != "" ==> forall i :: 0 <= i < |Split(PreText(v), '.')| ==>
          ValidIdentifier(Split(PreText(v), '.')[i]))
  }

  // ---------- The standard's order ----------

  datatype Identifier = Numeric(n: nat) | Alphanumeric(s: string)

  /** A version as the standard reads it: three numbers and the pre-release identifiers, none for a release. */
  datatype Version = Version(core: seq<nat>, pre: seq<Identifier>)

  predicate Lower(x: Identifier, y: Identifier) {
    if x.Numeric? && y.Numeric? then x.n < y.n
    else if x.Alphanumeric? && y.Alphanumeric? then x.s != y.s && Le(x.s, y.s)
    else x.Numeric?
  }

  /** The first differing identifier decides; with none, the shorter list is lower. */
  ghost predicate LowerPre(x: seq<Identifier>, y: seq<Identifier>) {
    || (|x| < |y| && y[..|x|] == x)
    || exists i :: 0 <= i < |x| && i < |y| && x[..i] == y[..i] && Lower(x[i], y[i])
  }

  ghost predicate LowerCore(x: seq<nat>, y: seq<nat>) {
    exists i :: 0 <= i < |x| && i < |y| && x[..i] == y[..i] && x[i] < y[i]
  }

  ghost predicate Precedes(a: Version, b: Version) {
    || LowerCore(a.core, b.core)
    || (a.core == b.core && a.pre != [] && (b.pre == [] || LowerPre(a.pre, b.pre)))
  }

  function ReadIdentifier(id: string): Identifier {
    if id != "" && Digits(id) then Numeric(DigitsValue(id)) else Alphanumeric(id)
  }

  function ReadIdentifiers(ids: seq<string>): (r: seq<Identifier>)
    ensures |r| == |ids|
  {
    seq(|ids|, i requires 0 <= i < |ids| => ReadIdentifier(ids[i]))
  }

  function Read(v: string): Version
    requires ValidSemver(v)
  {
    var f := Split(CoreText(v), '.');
    Version([DigitsValue(f[0]), DigitsValue(f[1]), DigitsValue(f[2])],
            if PreText(v) == "" then [] else ReadIdentifiers(Split(PreText(v), '.')))
  }

  /** Every number in the version is below `limit`. */
  predicate Below(v: string, limit: int)
    requires ValidSemver(v)
  {
    && (forall i :: 0 <= i < 3 ==> Read(v).core[i] < limit)
    && (forall i :: 0 <= i < |Read(v).pre| && Read(v).pre[i].Numeric? ==> Read(v).pre[i].n < limit)
  }

  ghost function Precedence(a: Version, b: Version): int {
    if Precedes(a, b) then -1 else if Precedes(b, a) then 1 else 0
  }

  // ---------- Numbers ----------

  /** Digits without a leading zero are the decimal form of their value. */
  lemma {:induction false} NumericTextUnique(s: string)
    requires NumericText(s)
    ensures Decimal(DigitsValue(s)) == s
    ensures |s| > 1 ==> DigitsValue(s) >= 10
  {
    assert s[|s| - 1] in s;
    var front := s[..|s| - 1];
    assert s == front + [s[|s| - 1]];
    if |s| > 1 {
      assert front[0] == s[0] && s[0] in s;
      NumericTextUnique(front);
      LeadingDigit(front);
    }
  }

  lemma LeadingDigit(s: string)
    requires NumericText(s)
    ensures DigitsValue(s) >= 1 || s == "0"
  {
    assert s[|s| - 1] in s;
    if |s| == 1 {
      assert s == [s[0]];
    } else {
      assert s[0] in s && s[..|s| - 1][0] == s[0];
      LeadingDigit(s[..|s| - 1]);
    }
  }

  lemma {:induction false} DigitPrefixStops(d: string, rest: string)
    requires Digits(d) && (rest == "" || !IsDigit(rest[0]))
    ensures DigitPrefix(d + rest) == d
  {
    if d == "" {
      assert d + rest == rest;
    } else {
      assert d[0] in d;
      DigitPrefixStops(d[1..], rest);
      assert (d + rest)[1..] == d[1..] + rest;
      assert d == [d[0]] + d[1..];
    }
  }

  lemma {:induction false} ScanNumberReads(d: string, rest: string)
    requires d != "" && Digits(d) && (rest == "" || !IsDigit(rest[0])) && DigitsValue(d) < INT64_LIMIT
    ensures ScanNumber(d + rest) == Some((DigitsValue(d), rest))
  {
    hide DigitsValue;
    DigitPrefixStops(d, rest);
    assert (d + rest)[|d|..] == rest;
  }

  lemma SplitThree(s: string)
    requires |Split(s, '.')| == 3
    ensures var f := Split(s, '.'); s == f[0] + "." + (f[1] + "." + f[2])
  {
    CutShrinks(s, '.');
    var t := AfterFirst(s, '.');
    CutShrinks(t, '.');
    CutShrinks(AfterFirst(t, '.'), '.');
    assert Split(s, '.')[1..] == Split(t, '.');
    assert Split(t, '.')[1..] == Split(AfterFirst(t, '.'), '.');
  }

  predicate FittingNumber(d: string) {
    NumericText(d) && DigitsValue(d) < INT64_LIMIT
  }

  lemma DotThen(t: string)
    ensures ("." + t)[0] == '.' && ("." + t)[1..] == t
  {
  }

  lemma ScanThree(a: string, b: string, c: string)
    requires FittingNumber(a) && FittingNumber(b) && FittingNumber(c)
    ensures ScanCore(a + ("." + (b + ("." + c)))) == (DigitsValue(a), DigitsValue(b), DigitsValue(c))
  {
    var u := b + ("." + c);
    ScanNumberReads(a, "." + u);
    ScanNumberReads(b, "." + c);
    ScanNumberReads(c, "");
    hide DigitsValue, ScanNumber, Digits;
    DotThen(u);
    DotThen(c);
    assert c + "" == c;
  }

  /** Scanning a valid core whose numbers fit reads exactly its three numbers. */
  lemma ScanCoreReads(s: string, f: seq<string>)
    requires f == Split(s, '.') && |f| == 3
    requires FittingNumber(f[0]) && FittingNumber(f[1]) && FittingNumber(f[2])
    ensures ScanCore(s) == (DigitsValue(f[0]), DigitsValue(f[1]), DigitsValue(f[2]))
  {
    SplitThree(s);
    hide Split, DigitsValue, ScanCore, Digits;
    assert f[1] + "." + f[2] == f[1] + ("." + f[2]);
    assert s == f[0] + ("." + (f[1] + ("." + f[2])));
    ScanThree(f[0], f[1], f[2]);
  }

  // ---------- Agreement ----------

  predicate Small(id: string) {
    NumericText(id) ==> DigitsValue(id) < INT64_LIMIT
  }

  /** Identifiers compare as the standard says when their numbers fit. */
  lemma IDAgrees(a: string, b: string)
    requires ValidIdentifier(a) && ValidIdentifier(b) && Small(a) && Small(b)
    ensures CompareID(a, b) == if Lower(ReadIdentifier(a), ReadIdentifier(b)) then -1
                               else if Lower(ReadIdentifier(b), ReadIdentifier(a)) then 1 else 0
    ensures a == b <==> ReadIdentifier(a) == ReadIdentifier(b)
  {
    hide DigitsValue, WrappedValue, Decimal, Le;
    TextOrder(a, b);
    LeTotal(a, b);
    if NumericText(a) {
      WrappedOnce(a);
      NumericTextUnique(a);
    }
    if NumericText(b) {
      WrappedOnce(b);
      NumericTextUnique(b);
    }
  }

  lemma LowerStrict(x: Identifier, y: Identifier)
    ensures !(Lower(x, y) && Lower(y, x)) && !Lower(x, x)
    ensures x != y ==> Lower(x, y) || Lower(y, x)
  {
    if x.Alphanumeric? && y.Alphanumeric? {
      LeTotal(x.s, y.s);
      if Le(x.s, y.s) && Le(y.s, x.s) {
        LeAntisymmetric(x.s, y.s);
      }
    }
  }

  lemma LowerPreDrop(x: seq<Identifier>, y: seq<Identifier>)
    requires x != [] && y != [] && x[0] == y[0] && LowerPre(x, y)
    ensures LowerPre(x[1..], y[1..])
  {
    hide Lower;
    var (s, t) := (x[1..], y[1..]);
    LowerStrict(x[0], x[0]);
    if |x| < |y| && y[..|x|] == x {
      assert t[..|s|] == y[..|x|][1..];
    } else {
      var i :| 0 <= i < |x| && i < |y| && x[..i] == y[..i] && Lower(x[i], y[i]);
      assert s[..i - 1] == x[..i][1..] && t[..i - 1] == y[..i][1..];
      assert Lower(s[i - 1], t[i - 1]);
    }
  }

  lemma LowerPrePush(x: seq<Identifier>, y: seq<Identifier>)
    requires x != [] && y != [] && x[0] == y[0] && LowerPre(x[1..], y[1..])
    ensures LowerPre(x, y)
  {
    hide Lower;
    var (s, t) := (x[1..], y[1..]);
    assert x == [x[0]] + s && y == [y[0]] + t;
    if |s| < |t| && t[..|s|] == s {
      assert y[..|x|] == [y[0]] + t[..|s|];
    } else {
      var i :| 0 <= i < |s| && i < |t| && s[..i] == t[..i] && Lower(s[i], t[i]);
      assert x[..i + 1] == [x[0]] + s[..i] && y[..i + 1] == [y[0]] + t[..i];
      assert Lower(x[i + 1], y[i + 1]);
    }
  }

  /** With equal first identifiers the rest decides. */
  lemma {:induction false} LowerPreTail(x: seq<Identifier>, y: seq<Identifier>)
    requires x != [] && y != [] && x[0] == y[0]
    ensures LowerPre(x, y) <==> LowerPre(x[1..], y[1..])
  {
    hide LowerPre, Lower;
    if LowerPre(x, y) {
      LowerPreDrop(x, y);
    }
    if LowerPre(x[1..], y[1..]) {
      LowerPrePush(x, y);
    }
  }

  /** With different first identifiers these decide. */
  lemma LowerPreHead(x: seq<Identifier>, y: seq<Identifier>)
    requires x != [] && y != [] && x[0] != y[0]
    ensures LowerPre(x, y) <==> Lower(x[0], y[0])
  {
    hide Lower;
    if Lower(x[0], y[0]) {
      assert x[..0] == y[..0];
    }
    assert |x| <= |y| ==> y[..|x|][0] == y[0];
    assert forall i :: 0 < i <= |x| && i <= |y| ==> x[..i][0] == x[0] && y[..i][0] == y[0];
  }

  lemma {:induction false} IDsAgree(a: seq<string>, b: seq<string>)
    requires forall i :: 0 <= i < |a| ==> ValidIdentifier(a[i]) && Small(a[i])
    requires forall i :: 0 <= i < |b| ==> ValidIdentifier(b[i]) && Small(b[i])
    ensures CompareIDs(a, b) == if LowerPre(ReadIdentifiers(a), ReadIdentifiers(b)) then -1
                                else if LowerPre(ReadIdentifiers(b), ReadIdentifiers(a)) then 1 else 0
  {
    hide CompareID, Lower, ReadIdentifier, ValidIdentifier, Small, LowerPre;
    var (x, y) := (ReadIdentifiers(a), ReadIdentifiers(b));
    if a == [] || b == [] {
      EmptyPre(x, y);
    } else {
      IDAgrees(a[0], b[0]);
      LowerStrict(x[0], y[0]);
      if a[0] == b[0] {
        IDsAgree(a[1..], b[1..]);
        LowerPreTail(x, y);
        LowerPreTail(y, x);
        assert x[1..] == ReadIdentifiers(a[1..]) && y[1..] == ReadIdentifiers(b[1..]);
      } else {
        LowerPreHead(x, y);
        LowerPreHead(y, x);
      }
    }
  }

  lemma EmptyPre(x: seq<Identifier>, y: seq<Identifier>)
    requires x == [] || y == []
    ensures LowerPre(x, y) <==> x == [] && y != []
    ensures LowerPre(y, x) <==> y == [] && x != []
  {
    assert x[..0] == [] && y[..0] == [];
  }

  lemma CoreAgrees(x: seq<nat>, y: seq<nat>)
    requires |x| == |y| == 3
    ensures LowerCore(x, y) <==> x[0] < y[0] || (x[0] == y[0] && (x[1] < y[1] || (x[1] == y[1] && x[2] < y[2])))
    ensures x == y <==> x[0] == y[0] && x[1] == y[1] && x[2] == y[2]
  {
    if x[0] < y[0] {
      assert x[..0] == y[..0];
    } else if x[0] == y[0] && x[1] < y[1] {
      assert x[..1] == [x[0]] && y[..1] == [y[0]];
    } else if x[0] == y[0] && x[1] == y[1] && x[2] < y[2] {
      assert x[..2] == [x[0], x[1]] && y[..2] == [y[0], y[1]];
    }
    if LowerCore(x, y) {
      var i :| 0 <= i < 3 && x[..i] == y[..i] && x[i] < y[i];
      assert i > 0 ==> x[..i][0] == y[..i][0];
      assert i > 1 ==> x[..i][1] == y[..i][1];
    }
  }

  lemma PartsRead(v: string)
    requires ValidSemver(v) && Below(v, INT64_LIMIT)
    ensures var (p, m) := (SemverParts(v), Read(v));
            [p.major, p.minor, p.patch] == m.core && (p.pre == "" <==> m.pre == [])
    ensures PreText(v) != "" ==> forall i :: 0 <= i < |Split(PreText(v), '.')| ==>
              ValidIdentifier(Split(PreText(v), '.')[i]) && Small(Split(PreText(v), '.')[i])
  {
    hide DigitsValue, ScanCore, CoreText, PreText, Split;
    var f := Split(CoreText(v), '.');
    assert Read(v).core[0] == DigitsValue(f[0]) && Read(v).core[1] == DigitsValue(f[1])
          && Read(v).core[2] == DigitsValue(f[2]);
    ScanCoreReads(CoreText(v), f);
    if PreText(v) != "" {
      var ids := Split(PreText(v), '.');
      assert Read(v).pre == ReadIdentifiers(ids);
      forall i | 0 <= i < |ids| ensures ValidIdentifier(ids[i]) && Small(ids[i]) {
        assert Read(v).pre[i] == ReadIdentifier(ids[i]);
      }
    }
  }

  /** Valid versions whose numbers fit in 63 bits compare as section 11 of SemVer 2.0.0 prescribes. */
  lemma AgreesWithStandard(a: string, b: string)
    requires ValidSemver(a) && ValidSemver(b) && Below(a, INT64_LIMIT) && Below(b, INT64_LIMIT)
    ensures CompareSemver(a, b) == Precedence(Read(a), Read(b))
  {
    hide SemverParts, PreText, Split, LowerPre, LowerCore, CompareIDs, ValidIdentifier, Small, CoreText;
    PartsRead(a);
    PartsRead(b);
    var (m, n) := (Read(a), Read(b));
    CoreAgrees(m.core, n.core);
    CoreAgrees(n.core, m.core);
    PreOf(a);
    PreOf(b);
    if PreText(a) != "" && PreText(b) != "" {
      IDsAgree(Split(PreText(a), '.'), Split(PreText(b), '.'));
    } else if PreText(a) == "" && PreText(b) == "" {
      CompareIDsReflexive(Split("", '.'));
    }
    assert [SemverParts(a).major, SemverParts(a).minor, SemverParts(a).patch] == m.core;
    assert [SemverParts(b).major, SemverParts(b).minor, SemverParts(b).patch] == n.core;
  }

  lemma PreOf(v: string)
    requires ValidSemver(v)
    ensures SemverParts(v).pre == PreText(v)
    ensures Read(v).pre == if PreText(v) == "" then [] else ReadIdentifiers(Split(PreText(v), '.'))
  {
  }

  /** Versions whose core numbers fit in 63 bits compare equal iff they differ at most in build metadata. */
  lemma {:induction false} EqualIffSameMain(a: string, b: string)
    requires MatchesSemver(a) && forall i :: 0 <= i < 3 ==> FittingNumber(Split(CoreText(a), '.')[i])
    requires MatchesSemver(b) && forall i :: 0 <= i < 3 ==> FittingNumber(Split(CoreText(b), '.')[i])
    ensures CompareSemver(a, b) == 0 <==> Main(a) == Main(b)
  {
    hide Split, CoreText, PreText, Main, DigitsValue, ScanCore, CompareParts, Digits;
    PartsOrder(SemverParts(a), SemverParts(b));
    var f, g := Split(CoreText(a), '.'), Split(CoreText(b), '.');
    ScanCoreReads(CoreText(a), f);
    ScanCoreReads(CoreText(b), g);
    MainText(a);
    MainText(b);
    if SemverParts(a) == SemverParts(b) {
      forall i | 0 <= i < 3 ensures f[i] == g[i] {
        NumericTextUnique(f[i]);
        NumericTextUnique(g[i]);
      }
      assert f == g;
      JoinSplit(CoreText(a), '.');
      JoinSplit(CoreText(b), '.');
    } else if Main(a) == Main(b) {
      SameMain(a, b);
      assert false;
    }
  }

  lemma MainText(v: string)
    requires MatchesSemver(v)
    ensures Main(v) == CoreText(v) + if PreText(v) == "" then "" else "-" + PreText(v)
    ensures SemverParts(v).pre == PreText(v)
  {
    CutShrinks(Main(v), '-');
  }

  lemma SameMain(a: string, b: string)
    requires Main(a) == Main(b)
    ensures SemverParts(a) == SemverParts(b)
  {
  }

  // ---------- Where it stops agreeing ----------

  lemma {:induction false} DecimalNumeric(n: nat)
    ensures NumericText(Decimal(n)) && (n > 0 ==> Decimal(n)[0] != '0')
  {
    if n >= 10 {
      DecimalNumeric(n / 10);
    }
  }

  /** The version 0.0.0 with one numeric pre-release identifier. */
  function Prerelease(n: nat): string {
    "0.0.0" + "-" + Decimal(n)
  }

  lemma SplitZero()
    ensures Split("0.0.0", '.') == ["0", "0", "0"]
  {
    assert AfterFirst("0.0.0", '.') == "0.0" && BeforeFirst("0.0.0", '.') == "0";
    assert AfterFirst("0.0", '.') == "0" && BeforeFirst("0.0", '.') == "0";
    assert Split("0", '.') == ["0"];
    assert Split("0.0", '.') == ["0"] + Split("0", '.');
  }

  lemma PrereleaseText(n: nat)
    ensures var v := Prerelease(n);
            '+' !in v && '-' in Main(v) && CoreText(v) == "0.0.0" && PreText(v) == Decimal(n)
  {
    hide Decimal;
    var (v, d) := (Prerelease(n), Decimal(n));
    assert Digits(d);
    assert '+' !in "0.0.0" && '+' !in "-" && '+' !in d;
    CutShrinks(v, '+');
    CutUnique("0.0.0", d, '-');
    assert v[5] == '-';
  }

  lemma SplitDecimal(n: nat)
    ensures Split(Decimal(n), '.') == [Decimal(n)]
  {
    hide Decimal;
    assert Digits(Decimal(n));
  }

  lemma ReadPrerelease(n: nat)
    ensures ValidSemver(Prerelease(n))
    ensures Read(Prerelease(n)) == Version([0, 0, 0], [Numeric(n)])
    ensures SemverParts(Prerelease(n)) == Parts(0, 0, 0, Decimal(n))
  {
    hide CoreText, PreText, Main, Decimal, DigitsValue;
    hide Split, Prerelease, ScanCore, NumericText, ReadIdentifier, ValidIdentifier;
    PrereleaseText(n);
    ZeroCore();
    SplitDecimal(n);
    DecimalIdentifier(n);
    assert ReadIdentifiers([Decimal(n)]) == [Numeric(n)];
  }

  lemma ZeroCore()
    ensures Split("0.0.0", '.') == ["0", "0", "0"] && ScanCore("0.0.0") == (0, 0, 0)
    ensures NumericText("0") && DigitsValue("0") == 0
  {
    SplitZero();
    assert DigitsValue("0") == 0 && FittingNumber("0");
    ScanCoreReads("0.0.0", ["0", "0", "0"]);
  }

  lemma DecimalIdentifier(n: nat)
    ensures IdentifierText(Decimal(n)) && Decimal(n) != "" && ValidIdentifier(Decimal(n))
    ensures ReadIdentifier(Decimal(n)) == Numeric(n)
  {
    DecimalNumeric(n);
    DecimalValue(n);
    hide Decimal, DigitsValue;
    assert Digits(Decimal(n));
  }

  /** A pre-release number of 2^63 wraps around and is placed below 1. */
  lemma {:induction false} OverflowMisorders()
    ensures INT64_LIMIT == 9223372036854775808
    ensures CompareSemver(Prerelease(INT64_LIMIT), Prerelease(1)) == -1
    ensures ValidSemver(Prerelease(INT64_LIMIT)) && ValidSemver(Prerelease(1))
    ensures Precedence(Read(Prerelease(INT64_LIMIT)), Read(Prerelease(1))) == 1
  {
    ReadPrerelease(INT64_LIMIT);
    ReadPrerelease(1);
    OverflowIdentifier();
    SplitDecimal(INT64_LIMIT);
    SplitDecimal(1);
    hide Decimal, SemverParts, Read, Prerelease, CompareID, Lower;
    var (x, y) := (Read(Prerelease(INT64_LIMIT)), Read(Prerelease(1)));
    CoreAgrees(x.core, y.core);
    CoreAgrees(y.core, x.core);
    LowerPreHead(x.pre, y.pre);
    LowerPreHead(y.pre, x.pre);
  }

  lemma {:induction false} OverflowIdentifier()
    ensures CompareID(Decimal(INT64_LIMIT), Decimal(1)) == -1
    ensures Lower(Numeric(1), Numeric(INT64_LIMIT)) && !Lower(Numeric(INT64_LIMIT), Numeric(1))
  {
    hide Decimal, DigitsValue, WrappedValue, NumericText;
    DecimalNumeric(INT64_LIMIT);
    DecimalNumeric(1);
    DecimalValue(INT64_LIMIT);
    DecimalValue(1);
    WrappedOnce(Decimal(INT64_LIMIT));
    WrappedOnce(Decimal(1));
  }

  /** All valid versions with numbers below `limit` compare as the standard prescribes. */
  ghost predicate AgreesBelow(limit: int) {
    forall a, b :: ValidSemver(a) && ValidSemver(b) && Below(a, limit) && Below(b, limit) ==>
                     CompareSemver(a, b) == Precedence(Read(a), Read(b))
  }

  lemma BelowGrows(v: string, limit: int, more: int)
    requires ValidSemver(v) && Below(v, limit) && limit <= more
    ensures Below(v, more)
  {
    hide ValidSemver, Read;
  }

  lemma BelowOf(v: string, n: nat, limit: int)
    requires ValidSemver(v) && Read(v) == Version([0, 0, 0], [Numeric(n)]) && n < limit
    ensures Below(v, limit)
  {
    hide ValidSemver, Read;
  }

  lemma WitnessesBelow(limit: int)
    requires limit > INT64_LIMIT
    ensures ValidSemver(Prerelease(INT64_LIMIT)) && ValidSemver(Prerelease(1))
    ensures Below(Prerelease(INT64_LIMIT), limit) && Below(Prerelease(1), limit)
  {
    hide ValidSemver, Prerelease, Read, Below;
    ReadPrerelease(INT64_LIMIT);
    ReadPrerelease(1);
    BelowOf(Prerelease(INT64_LIMIT), INT64_LIMIT, limit);
    BelowOf(Prerelease(1), 1, limit);
  }

  lemma LimitIs()
    ensures INT64_LIMIT == 9223372036854775808
  {
  }

  /** The comparison meets the standard for numbers up to a limit exactly when the limit is at most 2^63. */
  lemma {:induction false} AgreesBelowIff(limit: int)
    ensures AgreesBelow(limit) <==> limit <= 9223372036854775808
  {
    hide CompareSemver, Read, Precedence, ValidSemver, Prerelease, Below, INT64_LIMIT;
    LimitIs();
    if limit <= INT64_LIMIT {
      forall a, b | ValidSemver(a) && ValidSemver(b) && Below(a, limit) && Below(b, limit)
        ensures CompareSemver(a, b) == Precedence(Read(a), Read(b))
      {
        BelowGrows(a, limit, INT64_LIMIT);
        BelowGrows(b, limit, INT64_LIMIT);
        AgreesWithStandard(a, b);
      }
    } else {
      WitnessesBelow(limit);
      OverflowMisorders();
    }
  }

  // ---------- Compatibility ----------

  /** The compatibility section of a manifest: absent strings read as empty. */
  datatype Compatibility = Compatibility(
    hasArchiveCenter: bool, hasSchema: bool, hasMinimum: bool,
    schemaName: string, schemaVersion: string, minimum: string, maximum: string)

  datatype Issue =
    | RequiredPropertyMissing | SchemaUnsupported | InvalidVersion
    | EmptyRange | CurrentInvalid | Incompatible

  /** Whether a manifest section is sound on its own. */
  predicate SoundSection(s: Compatibility) {
    && s.hasArchiveCenter && s.hasSchema && s.hasMinimum
    && s.schemaName == "canon-pack-manifest" && s.schemaVersion == "1.0.0"
    && MatchesSemver(s.minimum)
    && (s.maximum != "" ==> MatchesSemver(s.maximum) && CompareSemver(s.maximum, s.minimum) > 0)
  }

  /** The section accepts a version: in the half-open range from its minimum to its maximum. */
  predicate Accepts(s: Compatibility, current: string) {
    && SoundSection(s) && MatchesSemver(current)
    && CompareSemver(current, s.minimum) >= 0
    && (s.maximum != "" ==> CompareSemver(current, s.maximum) < 0)
  }

  /** The issues of the section on its own. */
  method SectionIssues(s: Compatibility) returns (issues: seq<Issue>)
    ensures issues == [] <==> SoundSection(s)
    ensures RequiredPropertyMissing in issues <==> !s.hasArchiveCenter || !s.hasSchema || !s.hasMinimum
    ensures SchemaUnsupported in issues <==> s.schemaName != "canon-pack-manifest" || s.schemaVersion != "1.0.0"
    ensures InvalidVersion in issues <==> !MatchesSemver(s.minimum) || (s.maximum != "" && !MatchesSemver(s.maximum))
    ensures EmptyRange in issues <==>
              && MatchesSemver(s.minimum) && s.maximum != "" && MatchesSemver(s.maximum)
              && CompareSemver(s.maximum, s.minimum) <= 0
    ensures CurrentInvalid !in issues && Incompatible !in issues
  {
    hide MatchesSemver, CompareSemver;
    var unsupported := s.schemaName != "canon-pack-manifest" || s.schemaVersion != "1.0.0";
    issues := if !s.hasArchiveCenter || !s.hasSchema then [RequiredPropertyMissing] else [];
    if unsupported {
      issues := issues + [SchemaUnsupported];
    }
    if !s.hasMinimum {
      issues := issues + [RequiredPropertyMissing];
    }
    issues := AddVersionIssues(s, issues);
  }

  method AddVersionIssues(s: Compatibility, before: seq<Issue>) returns (issues: seq<Issue>)
    requires forall x :: x in before ==> x.RequiredPropertyMissing? || x.SchemaUnsupported?
    ensures forall x :: x in before ==> x in issues
    ensures forall x :: x in issues && !x.InvalidVersion? && !x.EmptyRange? ==> x in before
    ensures InvalidVersion in issues <==> !MatchesSemver(s.minimum) || (s.maximum != "" && !MatchesSemver(s.maximum))
    ensures EmptyRange in issues <==>
              && MatchesSemver(s.minimum) && s.maximum != "" && MatchesSemver(s.maximum)
              && CompareSemver(s.maximum, s.minimum) <= 0
    ensures issues == before <==> InvalidVersion !in issues && EmptyRange !in issues
  {
    hide MatchesSemver, CompareSemver;
    issues := before;
    if !MatchesSemver(s.minimum) {
      issues := issues + [InvalidVersion];
    }
    if s.maximum != "" && !MatchesSemver(s.maximum) {
      issues := issues + [InvalidVersion];
    }
    if MatchesSemver(s.minimum) && s.maximum != "" && MatchesSemver(s.maximum) {
      var c := CompareVersions(s.maximum, s.minimum);
      if c <= 0 {
        issues := issues + [EmptyRange];
      }
    }
  }

  /** No issue iff the section accepts the running version; and when each issue is reported. */
  method ValidateCompatibility(s: Compatibility, current: string) returns (issues: seq<Issue>)
    ensures issues == [] <==> Accepts(s, current)
    ensures RequiredPropertyMissing in issues <==> !s.hasArchiveCenter || !s.hasSchema || !s.hasMinimum
    ensures SchemaUnsupported in issues <==> s.schemaName != "canon-pack-manifest" || s.schemaVersion != "1.0.0"
    ensures InvalidVersion in issues <==> !MatchesSemver(s.minimum) || (s.maximum != "" && !MatchesSemver(s.maximum))
    ensures EmptyRange in issues <==>
              && MatchesSemver(s.minimum) && s.maximum != "" && MatchesSemver(s.maximum)
              && CompareSemver(s.maximum, s.minimum) <= 0
    ensures CurrentInvalid in issues <==> !MatchesSemver(current)
    ensures Incompatible in issues <==>
              && MatchesSemver(current)
              && (CompareSemver(current, s.minimum) < 0
                  || (s.maximum != "" && CompareSemver(current, s.maximum) >= 0))
  {
    hide MatchesSemver, CompareSemver, SoundSection;
    issues := SectionIssues(s);
    if !MatchesSemver(current) {
      return issues + [CurrentInvalid];
    }
    var low := CompareVersions(current, s.minimum);
    var high := CompareVersions(current, s.maximum);
    if low < 0 || (s.maximum != "" && high >= 0) {
      issues := issues + [Incompatible];
    }
  }

  /** The accepted versions form an interval: any version between two accepted ones is accepted. */
  lemma AcceptedVersionsConvex(s: Compatibility, low: string, mid: string, high: string)
    requires Accepts(s, low) && Accepts(s, high) && MatchesSemver(mid)
    requires CompareSemver(low, mid) <= 0 && CompareSemver(mid, high) <= 0
    ensures Accepts(s, mid)
  {
    hide MatchesSemver, CompareSemver;
    SemverTotalPreorder(s.minimum, low, mid);
    SemverTotalPreorder(mid, high, s.maximum);
    SemverTotalPreorder(low, s.minimum, low);
    SemverTotalPreorder(mid, s.minimum, mid);
  }

  /** A sound section accepts its own minimum, so the interval is never empty, and never its maximum. */
  lemma MinimumAccepted(s: Compatibility)
    requires SoundSection(s)
    ensures Accepts(s, s.minimum)
    ensures s.maximum != "" ==> !Accepts(s, s.maximum)
  {
    hide MatchesSemver, CompareSemver;
    SemverTotalPreorder(s.minimum, s.maximum, s.minimum);
    SemverTotalPreorder(s.minimum, s.minimum, s.minimum);
    SemverTotalPreorder(s.maximum, s.maximum, s.maximum);
  }
}
