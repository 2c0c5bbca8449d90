/** Which texts the version pattern matches, as a grammar. */
module SemverGrammar {
  import opened Basics
  import opened Text
  import opened Semver
  import opened SemverPrecedence

  /** A version as it is written: three numbers, and what may follow a dash and a plus sign. */
  datatype Written = Written(major: string, minor: string, patch: string, pre: Option<string>, build: Option<string>)

  predicate Number(s: string) {
    s == "0" || (s != "" && s[0] in "123456789" && forall c :: c in s ==> c in "0123456789")
  }

  /** Letters, digits, dots and dashes, and at least one. */
  predicate Word(s: string) {
    s != "" && forall c :: c in s ==> '0' <= c <= '9' || 'A' <= c <= 'Z' || 'a' <= c <= 'z' || c in ".-"
  }

  predicate Proper(m: Written) {
    && Number(m.major) && Number(m.minor) && Number(m.patch)
    && (m.pre.Some? ==> Word(m.pre.value)) && (m.build.Some? ==> Word(m.build.value))
  }

  function Core(m: Written): string {
    m.major + "." + (m.minor + "." + m.patch)
  }

  function Optional(sign: char, s: Option<string>): string {
    if s.Some? then [sign] + s.value else ""
  }

  function VersionText(m: Written): string {
    Core(m) + Optional('-', m.pre) + Optional('+', m.build)
  }

  lemma NumberIff(s: string)
    ensures Number(s) <==> NumericText(s)
  {
    if s != "" {
      assert s[0] in s;
      assert |s| == 1 ==> s == [s[0]];
    }
  }

  lemma WordIff(s: string)
    ensures Word(s) <==> IdentifierText(s)
  {
  }

  function Behind(s: string, sign: char): Option<string> {
    if sign in s then Some(AfterFirst(s, sign)) else None
  }

  lemma CutText(s: string, sign: char)
    ensures s == BeforeFirst(s, sign) + Optional(sign, Behind(s, sign))
  {
    CutShrinks(s, sign);
    hide BeforeFirst, AfterFirst;
    if sign in s {
      var (a, b) := (BeforeFirst(s, sign), AfterFirst(s, sign));
      assert a + [sign] + b == a + ([sign] + b);
    } else {
      assert s + "" == s;
    }
  }

  /** A text is the core, a dash with the pre-release text, and a plus sign with the build text, where these occur. */
  lemma TextOfParts(v: string)
    ensures v == CoreText(v) + Optional('-', Behind(Main(v), '-')) + Optional('+', Behind(v, '+'))
  {
    hide BeforeFirst, AfterFirst, Optional, Behind;
    CutText(v, '+');
    CutText(Main(v), '-');
  }

  lemma {:induction false} ReadParts(v: string) returns (m: Written)
    requires MatchesSemver(v)
    ensures Proper(m) && VersionText(m) == v
  {
    hide Split, NumericText, IdentifierText, Number, Word, BeforeFirst, AfterFirst, CoreText, Main, Optional;
    var f := Split(CoreText(v), '.');
    SplitThree(CoreText(v));
    NumberIff(f[0]);
    NumberIff(f[1]);
    NumberIff(f[2]);
    WordIff(PreText(v));
    WordIff(AfterFirst(v, '+'));
    TextOfParts(v);
    m := Written(f[0], f[1], f[2], Behind(Main(v), '-'), Behind(v, '+'));
    assert CoreText(v) == Core(m);
  }

  lemma NumberHas(s: string)
    requires Number(s)
    ensures '.' !in s && '-' !in s && '+' !in s
  {
  }

  lemma WordHas(s: string)
    requires Word(s)
    ensures '+' !in s
  {
  }

  /** What is before the sign is found again, if it does not hold the sign. */
  lemma CutOptional(a: string, sign: char, s: Option<string>)
    requires sign !in a
    ensures BeforeFirst(a + Optional(sign, s), sign) == a
    ensures sign in a + Optional(sign, s) <==> s.Some?
    ensures s.Some? ==> AfterFirst(a + Optional(sign, s), sign) == s.value
  {
    if s.Some? {
      CutUnique(a, s.value, sign);
      assert a + Optional(sign, s) == a + [sign] + s.value;
    } else {
      CutShrinks(a, sign);
      assert a + "" == a;
    }
  }

  lemma SplitCore(m: Written)
    requires Proper(m)
    ensures Split(Core(m), '.') == [m.major, m.minor, m.patch]
    ensures '-' !in Core(m) && '+' !in Core(m)
  {
    hide Number, Word;
    NumberHas(m.major);
    NumberHas(m.minor);
    NumberHas(m.patch);
    SplitCons(m.minor, m.patch, '.');
    SplitCons(m.major, m.minor + "." + m.patch, '.');
    assert Core(m) == m.major + ['.'] + (m.minor + "." + m.patch);
    assert Split(m.patch, '.') == [m.patch];
  }

  lemma {:induction false} WrittenMatches(m: Written)
    requires Proper(m)
    ensures MatchesSemver(VersionText(m))
  {
    hide Split, NumericText, IdentifierText, Number, Word, BeforeFirst, AfterFirst;
    var v := VersionText(m);
    SplitCore(m);
    NumberIff(m.major);
    NumberIff(m.minor);
    NumberIff(m.patch);
    var main := Core(m) + Optional('-', m.pre);
    if m.pre.Some? {
      WordIff(m.pre.value);
      WordHas(m.pre.value);
    }
    if m.build.Some? {
      WordIff(m.build.value);
    }
    CutOptional(main, '+', m.build);
    CutOptional(Core(m), '-', m.pre);
    assert v == main + Optional('+', m.build);
  }

  /** A text is accepted as a version iff it is written as one. */
  lemma {:induction false} MatchesIff(v: string)
    ensures MatchesSemver(v) <==> exists m :: Proper(m) && VersionText(m) == v
  {
    hide MatchesSemver, Proper, VersionText;
    if MatchesSemver(v) {
      var m := ReadParts(v);
    }
    if m :| Proper(m) && VersionText(m) == v {
      WrittenMatches(m);
    }
  }
}
