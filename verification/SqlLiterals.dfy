/**
 * The splitter against an independent description of quoted text: a literal is a quote, characters other than quote and
 * backslash or backslash pairs, and a quote. Exactly the semicolons outside literals cut.
 */
module SqlLiterals {
  import opened Text
  import opened SqlSplitter
  import opened SqlPrinting

  // ---------- Literals ----------

  /** The inside of a literal: plain characters, and pairs of a backslash and any character. */
  predicate LiteralBody(b: string) {
    || b == ""
    || (b[0] != '\'' && b[0] != '\\' && LiteralBody(b[1..]))
    || (|b| >= 2 && b[0] == '\\' && LiteralBody(b[2..]))
  }

  /** A piece of SQL text: without quotes, or a literal given by what is inside. */
  datatype Segment = Bare(text: string) | Literal(body: string)

  predicate Proper(x: Segment) {
    match x
    case Bare(text) => '\'' !in text
    case Literal(body) => LiteralBody(body)
  }

  function SegmentText(x: Segment): string {
    match x
    case Bare(text) => text
    case Literal(body) => "'" + body + "'"
  }

  function Flatten(segments: seq<Segment>): string {
    if segments == [] then "" else SegmentText(segments[0]) + Flatten(segments[1..])
  }

  predicate AllProper(segments: seq<Segment>) {
    forall i :: 0 <= i < |segments| ==> Proper(segments[i])
  }

  /** The text is made of quote-free text and whole literals. */
  ghost predicate Closed(text: string) {
    exists segments :: AllProper(segments) && Flatten(segments) == text
  }

  lemma {:induction false} InsideLiteral(b: string)
    requires LiteralBody(b)
    ensures After(b, Quoted) == Quoted
    ensures forall m :: 0 <= m <= |b| ==> After(b[..m], Quoted) != Plain
  {
    if b != "" {
      var n := if b[0] == '\\' then 2 else 1;
      InsideLiteral(b[n..]);
      forall m | 0 <= m <= |b| ensures After(b[..m], Quoted) != Plain {
        if m >= n {
          assert b[..m][1..][n - 1..] == b[n..][..m - n];
          AfterTwo(b[..m]);
        } else if m == 1 {
          assert b[..1][1..] == "";
        }
      }
      AfterTwo(b);
      if |b| >= 2 {
        assert b[1..][1..] == b[2..];
      }
    }
  }

  lemma AfterTwo(b: string)
    ensures b != "" ==> After(b, Quoted) == After(b[1..], Advance(Quoted, b[0]))
    ensures |b| >= 2 && b[0] == '\\' ==> After(b, Quoted) == After(b[1..][1..], Quoted)
  {
  }

  lemma {:induction false} QuoteFree(s: string)
    requires '\'' !in s
    ensures After(s, Plain) == Plain
  {
    if s != "" {
      QuoteFree(s[1..]);
    }
  }

  lemma SegmentBalanced(x: Segment)
    requires Proper(x)
    ensures Balanced(SegmentText(x))
  {
    match x {
      case Bare(text) => QuoteFree(text);
      case Literal(body) =>
        InsideLiteral(body);
        OpenQuote(body);
        assert "'"[1..] == "";
        AfterConcat("'" + body, "'", Plain);
    }
  }

  lemma OpenQuote(b: string)
    ensures After("'" + b, Plain) == After(b, Quoted)
  {
    assert ("'" + b)[1..] == b;
  }

  lemma {:induction false} FlattenBalanced(segments: seq<Segment>)
    requires AllProper(segments)
    ensures Balanced(Flatten(segments))
  {
    if segments != [] {
      SegmentBalanced(segments[0]);
      FlattenBalanced(segments[1..]);
      AfterConcat(SegmentText(segments[0]), Flatten(segments[1..]), Plain);
    }
  }

  /** A text that leaves an open literal has its closing quote. */
  lemma {:induction false} ClosingQuote(u: string) returns (k: nat)
    requires After(u, Quoted) == Plain
    ensures k < |u| && u[k] == '\'' && LiteralBody(u[..k]) && After(u[k + 1..], Plain) == Plain
    decreases |u|
  {
    if u[0] == '\'' {
      return 0;
    }
    var n := if u[0] == '\\' then 2 else 1;
    assert u[0] == '\\' ==> |u| >= 2 && After(u, Quoted) == After(u[1..][1..], Quoted);
    assert n == 2 ==> u[1..][1..] == u[2..];
    var j := ClosingQuote(u[n..]);
    k := n + j;
    assert u[..k][n..] == u[n..][..j];
  }

  /** A closed text that is not empty begins with a quote-free character or a whole literal, and is closed behind it. */
  lemma FirstSegment(text: string) returns (first: Segment, n: nat)
    requires Balanced(text) && text != ""
    ensures Proper(first) && 0 < n <= |text| && SegmentText(first) == text[..n] && Balanced(text[n..])
  {
    if text[0] == '\'' {
      var k := ClosingQuote(text[1..]);
      first, n := Literal(text[1..][..k]), k + 2;
      hide LiteralBody, After;
      assert text[n..] == text[1..][k + 1..];
      assert text[..n] == "'" + text[1..][..k] + "'";
    } else {
      first, n := Bare(text[..1]), 1;
    }
  }

  lemma {:induction false} BalancedClosed(text: string) returns (segments: seq<Segment>)
    requires Balanced(text)
    ensures AllProper(segments) && Flatten(segments) == text
    decreases |text|
  {
    hide Balanced, Proper, SegmentText;
    if text == "" {
      return [];
    }
    var first, n := FirstSegment(text);
    var rest := BalancedClosed(text[n..]);
    segments := [first] + rest;
    assert segments[1..] == rest && text == text[..n] + text[n..];
  }

  /** The splitter's two flags are both down exactly behind quote-free text and whole literals. */
  lemma {:induction false} BalancedIff(text: string)
    ensures Balanced(text) <==> Closed(text)
  {
    if Balanced(text) {
      var segments := BalancedClosed(text);
    }
    if Closed(text) {
      var segments :| AllProper(segments) && Flatten(segments) == text;
      FlattenBalanced(segments);
    }
  }

  // ---------- The cuts ----------

  /** A semicolon outside literals. */
  ghost predicate Cuts(text: string, i: nat) {
    i < |text| && text[i] == ';' && Closed(text[..i])
  }

  function LengthOf(parts: seq<string>, n: nat): nat
    requires n <= |parts|
  {
    |Concat(parts[..n])|
  }

  /** One of the parts, but not the last, ends with character `i` of their concatenation. */
  predicate EndsPart(parts: seq<string>, i: nat) {
    exists n :: 0 < n < |parts| && LengthOf(parts, n) == i + 1
  }

  lemma LengthCons(p: string, rest: seq<string>, n: nat)
    requires n <= |rest|
    ensures LengthOf([p] + rest, n + 1) == |p| + LengthOf(rest, n)
    ensures LengthOf(rest, 0) == 0
  {
    assert ([p] + rest)[..n + 1] == [p] + rest[..n];
  }

  lemma EndsPartCons(p: string, rest: seq<string>, i: nat)
    requires rest != [] && p != ""
    ensures EndsPart([p] + rest, i) <==> |p| == i + 1 || (|p| <= i && EndsPart(rest, i - |p|))
  {
    hide LengthOf;
    var parts := [p] + rest;
    forall n | 0 <= n < |rest| ensures LengthOf(parts, n + 1) == |p| + LengthOf(rest, n) {
      LengthCons(p, rest, n);
    }
    LengthCons(p, rest, 0);
    if EndsPart(parts, i) {
      var n :| 0 < n < |parts| && LengthOf(parts, n) == i + 1;
      assert LengthOf(parts, n - 1 + 1) == |p| + LengthOf(rest, n - 1);
    }
    if |p| == i + 1 {
      assert LengthOf(parts, 0 + 1) == i + 1;
    } else if |p| <= i && EndsPart(rest, i - |p|) {
      var n :| 0 < n < |rest| && LengthOf(rest, n) == i - |p| + 1;
      assert LengthOf(parts, n + 1) == i + 1;
    }
  }

  lemma NoCutBefore(text: string, i: nat)
    requires i < FirstCut(text, Plain)
    ensures !(text[i] == ';' && Balanced(text[..i]))
  {
    assert text == text[..i] + text[i..];
    FirstCutConcat(text[..i], text[i..], Plain);
  }

  lemma {:induction false} PartsEnd(text: string, i: nat)
    ensures EndsPart(Pieces(text), i) <==> i < |text| && text[i] == ';' && Balanced(text[..i])
    decreases |text|
  {
    hide FirstCut, EndsPart, Pieces, Balanced;
    var k := FirstCut(text, Plain);
    PiecesNext(text);
    FirstCutIs(text, Plain);
    assert k < |text| ==> Balanced(text[..k]) by { BalancedIs(text[..k]); }
    if i < k {
      NoCutBefore(text, i);
    }
    if k == |text| {
      OnePart(text, i);
    } else {
      SomePiece(text[k + 1..]);
      EndsPartCons(text[..k + 1], Pieces(text[k + 1..]), i);
      if i > k {
        PartsEnd(text[k + 1..], i - k - 1);
        if i < |text| {
          BalancedBehind(text, k, i);
        }
      }
    }
  }

  lemma BalancedIs(s: string)
    ensures Balanced(s) <==> After(s, Plain) == Plain
  {
  }

  lemma OnePart(text: string, i: nat)
    ensures !EndsPart([text], i)
  {
  }

  lemma AfterSemicolon(rest: string)
    ensures After(";" + rest, Plain) == After(rest, Plain)
  {
    assert (";" + rest)[1..] == rest;
  }

  lemma TextAround(text: string, k: nat, i: nat)
    requires k < i <= |text| && text[k] == ';'
    ensures text[..i] == text[..k] + (";" + text[k + 1..][..i - k - 1])
  {
    assert text[..i] == text[..k] + [text[k]] + text[k + 1..i];
    assert text[k + 1..i] == text[k + 1..][..i - k - 1];
  }

  /** Behind a cut the state starts anew. */
  lemma BalancedBehind(text: string, k: nat, i: nat)
    requires k < i < |text| && text[k] == ';' && Balanced(text[..k])
    ensures Balanced(text[..i]) <==> Balanced(text[k + 1..][..i - k - 1])
  {
    hide After;
    var rest := text[k + 1..][..i - k - 1];
    TextAround(text, k, i);
    AfterConcat(text[..k], ";" + rest, Plain);
    AfterSemicolon(rest);
  }

  /** The splitter cuts behind a character iff it is a semicolon outside literals. */
  lemma {:induction false} CutsIff(text: string, i: nat)
    ensures EndsPart(Pieces(text), i) <==> Cuts(text, i)
  {
    hide Pieces, EndsPart, Balanced, Closed;
    PartsEnd(text, i);
    if i < |text| {
      BalancedIff(text[..i]);
    }
  }

  /** No literal is cut, whatever is inside and around it. */
  lemma {:induction false} LiteralUncut(a: string, body: string, c: string, i: nat)
    requires Closed(a) && LiteralBody(body) && |a| <= i < |a| + |body| + 2
    ensures !EndsPart(Pieces(a + SegmentText(Literal(body)) + c), i)
  {
    hide Pieces, EndsPart, Closed, After;
    var text := a + SegmentText(Literal(body)) + c;
    PartsEnd(text, i);
    BalancedIff(a);
    if |a| < i < |a| + |body| + 1 {
      var m := i - |a| - 1;
      assert text[..i] == a + ("'" + body[..m]);
      AfterConcat(a, "'" + body[..m], Plain);
      OpenQuote(body[..m]);
      InsideLiteral(body);
    }
  }

  /** A literal that is opened behind closed text and not closed leaves the text open. */
  lemma {:induction false} OpenLiteral(a: string, body: string)
    requires Closed(a) && LiteralBody(body)
    ensures !Closed(a + "'" + body)
  {
    hide Closed, After;
    BalancedIff(a);
    BalancedIff(a + "'" + body);
    assert a + "'" + body == a + ("'" + body);
    AfterConcat(a, "'" + body, Plain);
    OpenQuote(body);
    InsideLiteral(body);
  }

  // ---------- Lists of statements ----------

  /** Every semicolon is inside a literal. */
  ghost predicate QuotedSemicolons(s: string) {
    forall i :: 0 <= i < |s| ==> !Cuts(s, i)
  }

  lemma {:induction false} UncutIff(s: string)
    ensures Uncut(s) <==> QuotedSemicolons(s)
  {
    hide FirstCut, Closed, Balanced;
    var k := FirstCut(s, Plain);
    FirstCutIs(s, Plain);
    forall i | 0 <= i < |s| ensures Balanced(s[..i]) <==> Closed(s[..i]) {
      BalancedIff(s[..i]);
    }
    if k < |s| {
      BalancedIs(s[..k]);
      assert Cuts(s, k);
    } else {
      forall i | 0 <= i < |s| ensures !Cuts(s, i) {
        NoCutBefore(s, i);
      }
    }
  }

  /** A text whose semicolons are all inside literals is one statement, or none if it is blank. */
  lemma QuotedIsOne(segments: seq<Segment>)
    requires AllProper(segments)
    requires forall i :: 0 <= i < |segments| && segments[i].Bare? ==> ';' !in segments[i].text
    ensures Statements(Flatten(segments)) == if Trim(Flatten(segments)) == "" then [] else [Trim(Flatten(segments))]
  {
    hide Trim, Statements, Uncut;
    FlattenUncut(segments);
    StatementsOfOne(Flatten(segments));
  }

  lemma {:induction false} FlattenUncut(segments: seq<Segment>)
    requires AllProper(segments)
    requires forall i :: 0 <= i < |segments| && segments[i].Bare? ==> ';' !in segments[i].text
    ensures Uncut(Flatten(segments))
  {
    if segments != [] {
      var (x, rest) := (segments[0], segments[1..]);
      FlattenUncut(rest);
      SegmentBalanced(x);
      FirstCutConcat(SegmentText(x), Flatten(rest), Plain);
      match x {
        case Bare(text) =>
          assert Proper(segments[0]);
          PlainWord(text);
        case Literal(body) =>
          NoCutInside(body);
          OpenQuoteCut(body);
          InsideLiteral(body);
          OpenQuote(body);
          FirstCutConcat("'" + body, "'", Plain);
          assert "'"[1..] == "";
      }
    }
  }

  lemma OpenQuoteCut(b: string)
    ensures FirstCut("'" + b, Plain) == 1 + FirstCut(b, Quoted)
  {
    assert ("'" + b)[1..] == b;
  }

  lemma {:induction false} NoCutInside(b: string)
    requires LiteralBody(b)
    ensures FirstCut(b, Quoted) == |b|
  {
    if b != "" {
      if b[0] == '\\' {
        NoCutInside(b[2..]);
        assert b[1..][1..] == b[2..];
      } else {
        NoCutInside(b[1..]);
      }
    }
  }

  // ---------- Lines ----------

  /** Only white space stands before two dashes. */
  predicate CommentLine(line: string) {
    exists k :: 0 <= k <= |line| && Blank(line[..k]) && "--" <= line[k..]
  }

  predicate SkippedLine(line: string) {
    Blank(line) || CommentLine(line)
  }

  lemma TrimLeftIs(line: string)
    ensures var r := TrimLeft(line);
            && |r| <= |line| && r == line[|line| - |r|..] && Blank(line[..|line| - |r|])
            && (r == "" || !IsSpace(r[0]))
  {
    hide IsSpace;
    TrimLeftSuffix(line);
  }

  /** There is one first character that is no white space. */
  lemma FirstVisible(line: string, k: nat, m: nat)
    requires k < |line| && Blank(line[..k]) && !IsSpace(line[k])
    requires m < |line| && Blank(line[..m]) && !IsSpace(line[m])
    ensures k == m
  {
    hide IsSpace;
    assert forall i :: 0 <= i < k ==> line[i] in line[..k];
    assert forall i :: 0 <= i < m ==> line[i] in line[..m];
  }

  lemma {:induction false} KeptLine(line: string)
    ensures Kept(line) <==> !SkippedLine(line)
  {
    hide Trim, IsSpace, Kept;
    KeptIff(line);
    TrimLeftIs(line);
    var r := TrimLeft(line);
    var m := |line| - |r|;
    assert r == "" ==> line[..m] == line;
    assert r != "" ==> line[m] in line && line[m] == r[0];
    if CommentLine(line) {
      var k :| 0 <= k <= |line| && Blank(line[..k]) && "--" <= line[k..];
      Dashes(line[k..]);
      DashIsNotSpace();
      assert line[k] in line;
      FirstVisible(line, k, m);
    }
    if "--" <= r {
      assert CommentLine(line);
    }
  }

  /** Without its byte-order mark, the line is neither blank nor a comment, and it has none. */
  predicate PlainLine(line: string) {
    !('\U{feff}' in line[..if line == "" then 0 else 1]) && !SkippedLine(line)
  }

  lemma IntactIff(line: string)
    ensures Intact(line) <==> PlainLine(line)
  {
    hide Kept, SkippedLine;
    KeptLine(line);
  }

  lemma {:induction false} CleanLinesConcat(a: seq<string>, b: seq<string>)
    ensures CleanLines(a + b) == CleanLines(a) + CleanLines(b)
  {
    hide Kept, StripBom;
    if b == [] {
      assert a + b == a;
    } else {
      assert (a + b)[..|a + b| - 1] == a + b[..|b| - 1];
      CleanLinesConcat(a, b[..|b| - 1]);
    }
  }

  lemma CleanedLines(lines: seq<string>)
    requires forall l :: l in lines ==> '\n' !in l
    ensures Cleaned(Join(lines, '\n')) == Join(CleanLines(lines), '\n')
  {
    hide CleanLines;
    if lines == [] {
      CleanedNothing();
      assert CleanLines([]) == [] by { NoLines(); }
    } else {
      SplitJoin(lines, '\n');
    }
  }

  lemma NoLines()
    ensures CleanLines([]) == []
  {
  }

  lemma OneLine(line: string)
    ensures CleanLines([line]) == if Kept(StripBom(line)) then [StripBom(line)] else []
  {
    hide Kept, StripBom;
    assert [line][..0] == [];
  }

  /** Blank lines and comment lines make no difference wherever they stand, with or without a byte-order mark. */
  lemma {:induction false} SkippedLinesIgnored(before: seq<string>, line: string, after: seq<string>)
    requires forall l :: l in before + [line] + after ==> '\n' !in l
    requires SkippedLine(if line != "" && line[0] == '\U{feff}' then line[1..] else line)
    ensures SplitSQL(Join(before + [line] + after, '\n')) == SplitSQL(Join(before + after, '\n'))
  {
    hide Kept, Statements, Cleaned, Join, SkippedLine;
    KeptLine(StripBom(line));
    OneLine(line);
    CleanLinesConcat(before + [line], after);
    CleanLinesConcat(before, [line]);
    CleanLinesConcat(before, after);
    assert CleanLines(before) + [] == CleanLines(before);
    CleanedLines(before + [line] + after);
    CleanedLines(before + after);
  }

  /** A byte-order mark at the start of a line makes no difference. */
  lemma {:induction false} MarkIgnored(before: seq<string>, line: string, after: seq<string>)
    requires forall l :: l in before + [line] + after ==> '\n' !in l
    requires line == "" || line[0] != '\U{feff}'
    ensures SplitSQL(Join(before + ["\U{feff}" + line] + after, '\n')) == SplitSQL(Join(before + [line] + after, '\n'))
  {
    hide Kept, Statements, Cleaned, Join;
    var marked := "\U{feff}" + line;
    assert marked[1..] == line;
    OneLine(line);
    OneLine(marked);
    CleanLinesConcat(before + [line], after);
    CleanLinesConcat(before, [line]);
    CleanLinesConcat(before + [marked], after);
    CleanLinesConcat(before, [marked]);
    CleanedLines(before + [line] + after);
    forall l | l in before + [marked] + after ensures '\n' !in l {
      if l == marked {
        assert line in before + [line] + after;
      } else {
        assert l in before + [line] + after;
      }
    }
    CleanedLines(before + [marked] + after);
  }

  // ---------- Splitting inverts printing ----------

  /**
   * A list as the splitter returns it: statements that are trimmed and not empty, with semicolons only inside literals;
   * in all but the last every literal is closed.
   */
  ghost predicate StatementList(stmts: seq<string>) {
    && (forall i :: 0 <= i < |stmts| ==> stmts[i] != "" && Trimmed(stmts[i]) && QuotedSemicolons(stmts[i]))
    && forall i :: 0 <= i < |stmts| - 1 ==> Closed(stmts[i])
  }

  lemma {:induction false} WellFormedIff(stmts: seq<string>)
    ensures WellFormed(stmts) <==> StatementList(stmts)
  {
    hide Uncut, Balanced, Closed, QuotedSemicolons, Trimmed;
    forall i | 0 <= i < |stmts|
      ensures Uncut(stmts[i]) <==> QuotedSemicolons(stmts[i])
      ensures Balanced(stmts[i]) <==> Closed(stmts[i])
    {
      UncutIff(stmts[i]);
      BalancedIff(stmts[i]);
    }
  }

  /** Every line of every statement stands in a file for itself. */
  predicate PlainLines(stmts: seq<string>) {
    forall i :: 0 <= i < |stmts| ==>
      forall j :: 0 <= j < |Split(stmts[i], '\n')| ==> PlainLine(Split(stmts[i], '\n')[j])
  }

  lemma {:induction false} AllLinesIntactIff(stmts: seq<string>)
    ensures AllLinesIntact(stmts) <==> PlainLines(stmts)
  {
    hide Split, Intact, PlainLine;
    forall line ensures Intact(line) <==> PlainLine(line) {
      IntactIff(line);
    }
  }

  /** Exactly which lists of statements come back when they are joined and split: in terms of literals and lines. */
  lemma {:induction false} ReadsBackIff(stmts: seq<string>)
    ensures SplitSQL(Print(stmts)) == stmts <==> StatementList(stmts) && PlainLines(stmts)
    ensures StatementList(SplitSQL(Print(stmts)))
  {
    hide SplitSQL, WellFormed, AllLinesIntact, StatementList, PlainLines, Print;
    SplitInvertsPrintIff(stmts);
    WellFormedIff(stmts);
    AllLinesIntactIff(stmts);
    assert StatementList(SplitSQL(Print(stmts))) by { SplitWellFormed(Print(stmts)); }
  }

  lemma SplitWellFormed(sqlText: string)
    ensures StatementList(SplitSQL(sqlText))
  {
    hide Statements, StatementList, WellFormed;
    StatementsWellFormed(Cleaned(sqlText));
    WellFormedIff(SplitSQL(sqlText));
  }
}
