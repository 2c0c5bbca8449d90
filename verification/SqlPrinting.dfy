/** The inverse of the statement splitter: exactly which lists of statements survive printing and splitting again. */
module SqlPrinting {
  import opened Text
  import opened SqlSplitter

  // ---------- Printing and splitting again ----------

  /** `strings.Join` with a semicolon and a line break. */
  function Print(stmts: seq<string>): string {
    if stmts == [] then "" else if |stmts| == 1 then stmts[0] else stmts[0] + ";\n" + Print(stmts[1..])
  }

  lemma TrimLeading(c: char, s: string)
    requires IsSpace(c)
    ensures Trim([c] + s) == Trim(s)
  {
    assert ([c] + s)[1..] == s;
  }

  /** A leading line break makes no difference. */
  lemma StatementsAfterBreak(text: string)
    ensures Statements("\n" + text) == Statements(text)
  {
    hide Trim;
    var t := "\n" + text;
    assert t[1..] == text && IsSpace('\n');
    var k := FirstCut(text, Plain);
    assert FirstCut(t, Plain) == k + 1;
    assert t[..k + 1] == ['\n'] + text[..k];
    TrimLeading('\n', text[..k]);
    if k < |text| {
      assert t[k + 2..] == text[k + 1..];
    }
  }

  lemma StatementsCut(s: string, rest: string)
    requires Uncut(s) && Balanced(s)
    ensures Statements(s + ";" + rest) == NonEmpty(Trim(s)) + Statements(rest)
  {
    hide Trim;
    var t := s + ";" + rest;
    assert t == s + (";" + rest);
    FirstCutConcat(s, ";" + rest, Plain);
    assert t[..|s|] == s && t[|s| + 1..] == rest;
  }

  lemma StatementsCons(s: string, rest: string)
    requires Uncut(s) && Balanced(s)
    ensures Statements(s + ";\n" + rest) == NonEmpty(Trim(s)) + Statements(rest)
  {
    hide Trim, Statements, Uncut, Balanced;
    StatementsCut(s, "\n" + rest);
    StatementsAfterBreak(rest);
    assert s + ";\n" + rest == s + ";" + ("\n" + rest);
  }

  /** Printed statements read back as they are iff the list is well-formed. */
  lemma {:induction false} StatementsOfPrintIff(stmts: seq<string>)
    ensures Statements(Print(stmts)) == stmts <==> WellFormed(stmts)
  {
    hide WellFormed, Statements, Trim;
    if Statements(Print(stmts)) == stmts {
      StatementsWellFormed(Print(stmts));
    }
    if WellFormed(stmts) {
      PrintReads(stmts);
    }
  }

  lemma {:induction false} PrintReads(stmts: seq<string>)
    requires WellFormed(stmts)
    ensures Statements(Print(stmts)) == stmts
  {
    hide Trim, Trimmed, Uncut, Balanced, Statements;
    if stmts == [] {
      StatementsOfNothing();
    } else {
      TrimmedFixed(stmts[0]);
      if |stmts| == 1 {
        StatementsOfOne(stmts[0]);
        assert [stmts[0]] == stmts;
      } else {
        WellFormedTail(stmts);
        StatementsCons(stmts[0], Print(stmts[1..]));
        PrintReads(stmts[1..]);
      }
    }
  }

  lemma WellFormedTail(stmts: seq<string>)
    requires |stmts| > 1 && WellFormed(stmts)
    ensures WellFormed(stmts[1..]) && Balanced(stmts[0])
  {
    hide Trimmed, Uncut, Balanced;
    assert forall i :: 0 <= i < |stmts[1..]| ==> stmts[1..][i] == stmts[i + 1];
  }

  // ---------- The lines of printed statements ----------

  lemma {:induction false} SplitConcat(a: string, r: string)
    ensures Split(a + "\n" + r, '\n') == Split(a, '\n') + Split(r, '\n')
    decreases |a|
  {
    CutShrinks(a, '\n');
    if '\n' in a {
      var first, rest := BeforeFirst(a, '\n'), AfterFirst(a, '\n');
      SplitConcat(rest, r);
      SplitCons(first, rest + "\n" + r, '\n');
      assert a + "\n" + r == first + ['\n'] + (rest + "\n" + r);
    } else {
      SplitCons(a, r, '\n');
    }
  }

  lemma Dashes(s: string)
    ensures "--" <= s <==> |s| >= 2 && s[0] == '-' && s[1] == '-'
  {
  }

  /** A kept line is kept with its semicolon. */
  lemma {:induction false} IntactWithSemicolon(line: string)
    requires Intact(line)
    ensures Intact(line + ";")
  {
    hide IsSpace;
    KeptIff(line);
    KeptIff(line + ";");
    assert TrimLeft("") == "";
    TrimLeftThenMore(line);
    Dashes(TrimLeft(line));
    Dashes(TrimLeft(line) + ";");
  }

  lemma {:induction false} TrimLeftThenMore(line: string)
    requires TrimLeft(line) != ""
    ensures TrimLeft(line + ";") == TrimLeft(line) + ";"
  {
    hide IsSpace;
    if line != "" && IsSpace(line[0]) {
      assert (line + ";")[1..] == line[1..] + ";";
      TrimLeftThenMore(line[1..]);
    }
  }

  lemma BlankTail(t: string, k: nat)
    requires k <= |t| && Blank(t[k..])
    ensures forall i :: k <= i < |t| ==> IsSpace(t[i])
  {
    hide IsSpace;
    forall i | k <= i < |t| ensures IsSpace(t[i]) {
      assert t[i] == t[k..][i - k];
    }
  }

  /** Whether a line is kept shows after its leading white space. */
  lemma KeptIff(line: string)
    ensures Kept(line) <==> TrimLeft(line) != "" && !("--" <= TrimLeft(line))
  {
    hide IsSpace;
    TrimLeftSuffix(line);
    TrimRightPrefix(TrimLeft(line));
    BlankTail(TrimLeft(line), |Trim(line)|);
    Dashes(TrimLeft(line));
    Dashes(Trim(line));
    DashIsNotSpace();
  }

  lemma DashIsNotSpace()
    ensures !IsSpace('-')
  {
  }

  /** With a semicolon behind the text its lines stay intact. */
  lemma {:induction false} LinesWithSemicolon(s: string)
    requires AllIntact(Split(s, '\n'))
    ensures AllIntact(Split(s + ";", '\n'))
    decreases |s|
  {
    hide Intact;
    CutShrinks(s, '\n');
    if '\n' in s {
      var first, rest := BeforeFirst(s, '\n'), AfterFirst(s, '\n');
      SplitCons(first, rest + ";", '\n');
      assert s + ";" == first + ['\n'] + (rest + ";");
      assert Split(s, '\n') == [first] + Split(rest, '\n');
      AllIntactConcat([first], Split(rest, '\n'));
      LinesWithSemicolon(rest);
      AllIntactConcat([first], Split(rest + ";", '\n'));
    } else {
      assert Split(s, '\n')[0] == s;
      IntactWithSemicolon(s);
      assert Split(s + ";", '\n') == [s + ";"];
    }
  }

  lemma AllIntactConcat(a: seq<string>, b: seq<string>)
    ensures AllIntact(a + b) <==> AllIntact(a) && AllIntact(b)
  {
    hide Intact;
    if AllIntact(a + b) {
      assert forall i :: 0 <= i < |a| ==> a[i] == (a + b)[i];
      assert forall i :: 0 <= i < |b| ==> b[i] == (a + b)[|a| + i];
    }
  }

  predicate AllLinesIntact(stmts: seq<string>) {
    forall i :: 0 <= i < |stmts| ==> AllIntact(Split(stmts[i], '\n'))
  }

  lemma {:induction false} PrintedLinesIntact(stmts: seq<string>)
    requires AllLinesIntact(stmts) && stmts != []
    ensures AllIntact(Split(Print(stmts), '\n'))
  {
    hide AllIntact, Split;
    assert AllIntact(Split(stmts[0], '\n'));
    if |stmts| > 1 {
      PrintedLinesIntact(stmts[1..]);
      LinesWithSemicolon(stmts[0]);
      SplitConcat(stmts[0] + ";", Print(stmts[1..]));
      assert stmts[0] + ";\n" + Print(stmts[1..]) == stmts[0] + ";" + "\n" + Print(stmts[1..]);
      AllIntactConcat(Split(stmts[0] + ";", '\n'), Split(Print(stmts[1..]), '\n'));
    }
  }

  lemma {:induction false} IntactListsInvert(stmts: seq<string>)
    requires AllLinesIntact(stmts) && WellFormed(stmts)
    ensures SplitSQL(Print(stmts)) == stmts
  {
    hide Cleaned, Statements, WellFormed, Split, AllIntact;
    if stmts != [] {
      PrintedLinesIntact(stmts);
    }
    CleanedIntact(Print(stmts));
    StatementsOfPrintIff(stmts);
  }

  // ---------- Counting visible characters ----------

  function Visible(s: string): nat {
    if s == "" then 0 else (if IsSpace(s[0]) then 0 else 1) + Visible(s[1..])
  }

  function TotalVisible(parts: seq<string>): nat {
    if parts == [] then 0 else Visible(parts[0]) + TotalVisible(parts[1..])
  }

  lemma {:induction false} VisibleConcat(a: string, b: string)
    ensures Visible(a + b) == Visible(a) + Visible(b)
  {
    hide IsSpace;
    if a == "" {
      assert a + b == b;
    } else {
      assert (a + b)[1..] == a[1..] + b;
      VisibleConcat(a[1..], b);
    }
  }

  lemma {:induction false} BlankInvisible(s: string)
    requires Blank(s)
    ensures Visible(s) == 0
  {
    hide IsSpace;
    if s != "" {
      assert s[0] in s && forall c :: c in s[1..] ==> c in s;
      BlankInvisible(s[1..]);
    }
  }

  lemma VisibleTrim(s: string)
    ensures Visible(Trim(s)) == Visible(s)
  {
    hide Trim, Blank, Visible;
    var front, back := TrimParts(s);
    BlankInvisible(front);
    BlankInvisible(back);
    VisibleConcat(front + Trim(s), back);
    VisibleConcat(front, Trim(s));
  }

  lemma {:induction false} TotalConcat(a: seq<string>, b: seq<string>)
    ensures TotalVisible(a + b) == TotalVisible(a) + TotalVisible(b)
  {
    hide Visible;
    if a == [] {
      assert a + b == b;
    } else {
      assert (a + b)[1..] == a[1..] + b;
      TotalConcat(a[1..], b);
    }
  }

  lemma SpaceAndSemicolon()
    ensures Visible("\n") == 0 && Visible(";") == 1 && Visible(";\n") == 1
  {
    assert ";\n"[1..] == "\n" && "\n"[1..] == "";
  }

  lemma {:induction false} JoinVisible(lines: seq<string>)
    ensures Visible(Join(lines, '\n')) == TotalVisible(lines)
  {
    hide Visible;
    if |lines| == 1 {
      assert lines[1..] == [];
    } else if lines != [] {
      JoinVisible(lines[1..]);
      SpaceAndSemicolon();
      VisibleConcat(lines[0] + "\n", Join(lines[1..], '\n'));
      VisibleConcat(lines[0], "\n");
    } else {
      NothingVisible();
    }
  }

  lemma NothingVisible()
    ensures Visible("") == 0
  {
  }

  lemma {:induction false} PrintVisible(stmts: seq<string>)
    ensures Visible(Print(stmts)) == TotalVisible(stmts) + if stmts == [] then 0 else |stmts| - 1
  {
    hide Visible;
    if |stmts| == 1 {
      assert stmts[1..] == [];
    } else if stmts != [] {
      PrintVisible(stmts[1..]);
      SpaceAndSemicolon();
      VisibleConcat(stmts[0] + ";\n", Print(stmts[1..]));
      VisibleConcat(stmts[0], ";\n");
    } else {
      NothingVisible();
    }
  }

  lemma CutVisible(text: string, k: nat)
    requires k < |text| && text[k] == ';'
    ensures Visible(text) == Visible(text[..k]) + 1 + Visible(text[k + 1..])
  {
    hide Visible;
    SpaceAndSemicolon();
    assert text == text[..k] + ";" + text[k + 1..];
    VisibleConcat(text[..k] + ";", text[k + 1..]);
    VisibleConcat(text[..k], ";");
  }

  /** Splitting loses one visible character per cut, and no statement is without its piece. */
  lemma {:induction false} StatementsVisible(text: string)
    ensures TotalVisible(Statements(text)) + |Pieces(text)| - 1 == Visible(text)
    ensures |Statements(text)| <= |Pieces(text)|
    decreases |text|
  {
    hide Trim, Visible, FirstCut, Statements, Pieces, TotalVisible, NonEmpty;
    var k := FirstCut(text, Plain);
    var s := Trim(text[..k]);
    StatementsNext(text);
    PiecesNext(text);
    VisibleTrim(text[..k]);
    NonEmptyVisible(s);
    if k == |text| {
      assert text[..k] == text && NonEmpty(s) + [] == NonEmpty(s);
    } else {
      FirstCutIs(text, Plain);
      StatementsVisible(text[k + 1..]);
      TotalConcat(NonEmpty(s), Statements(text[k + 1..]));
      CutVisible(text, k);
    }
  }

  lemma NonEmptyVisible(s: string)
    ensures TotalVisible(NonEmpty(s)) == Visible(s) && |NonEmpty(s)| <= 1
  {
    assert s != "" ==> NonEmpty(s)[1..] == [];
  }

  // ---------- What cleaning takes away ----------

  /** Cleaning takes nothing visible from the line. */
  predicate Harmless(line: string) {
    StripBom(line) == line && !("--" <= Trim(line))
  }

  predicate AllHarmless(lines: seq<string>) {
    forall i :: 0 <= i < |lines| ==> Harmless(lines[i])
  }

  lemma BomIsVisible(s: string)
    requires s != "" && s[0] == BOM
    ensures Visible(s) == 1 + Visible(s[1..])
  {
    assert !IsSpace(BOM);
  }

  lemma CommentVisible(s: string)
    requires "--" <= s
    ensures Visible(s) >= 2
  {
    hide Visible;
    assert s == "--" + s[2..];
    VisibleConcat("--", s[2..]);
    assert Visible("--") == 2 by { DashesVisible(); }
  }

  lemma DashesVisible()
    ensures Visible("--") == 2
  {
    assert "--"[1..] == "-" && "-"[1..] == "";
  }

  /** What cleaning keeps of one line. */
  lemma LineVisible(line: string)
    ensures var kept := if Kept(StripBom(line)) then Visible(StripBom(line)) else 0;
            kept <= Visible(line) && (kept == Visible(line) ==> Harmless(line))
  {
    hide Trim, Visible, BOM;
    if line != "" && line[0] == BOM {
      BomIsVisible(line);
    } else if "--" <= Trim(line) {
      VisibleTrim(line);
      CommentVisible(Trim(line));
    }
  }

  lemma {:induction false} CleanLinesVisible(lines: seq<string>)
    ensures TotalVisible(CleanLines(lines)) <= TotalVisible(lines)
    ensures TotalVisible(CleanLines(lines)) == TotalVisible(lines) ==> AllHarmless(lines)
  {
    hide Visible, StripBom, Kept, Harmless;
    if lines != [] {
      var front, line := lines[..|lines| - 1], lines[|lines| - 1];
      CleanLinesVisible(front);
      LineVisible(line);
      assert lines == front + [line];
      TotalConcat(front, [line]);
      var kept: seq<string> := if Kept(StripBom(line)) then [StripBom(line)] else [];
      TotalConcat(CleanLines(front), kept);
      OneVisible(line);
      OneVisible(StripBom(line));
    }
  }

  lemma OneVisible(s: string)
    ensures TotalVisible([s]) == Visible(s)
  {
    assert [s][1..] == [];
  }

  /** Statements that come back had no visible character taken from any of their printed lines. */
  lemma {:induction false} ReturningIsHarmless(stmts: seq<string>)
    requires SplitSQL(Print(stmts)) == stmts
    ensures AllHarmless(Split(Print(stmts), '\n'))
  {
    hide Statements, Split, Visible, TotalVisible, AllHarmless, Pieces, Print, CleanLines;
    var text := Print(stmts);
    var lines := Split(text, '\n');
    JoinSplit(text, '\n');
    JoinVisible(lines);
    JoinVisible(CleanLines(lines));
    CleanLinesVisible(lines);
    StatementsVisible(Cleaned(text));
    PrintVisible(stmts);
    SomePiece(Cleaned(text));
  }

  // ---------- From printed lines to statement lines ----------

  lemma AllHarmlessConcat(a: seq<string>, b: seq<string>)
    ensures AllHarmless(a + b) <==> AllHarmless(a) && AllHarmless(b)
  {
    hide Harmless;
    if AllHarmless(a + b) {
      assert forall i :: 0 <= i < |a| ==> a[i] == (a + b)[i];
      assert forall i :: 0 <= i < |b| ==> b[i] == (a + b)[|a| + i];
    }
  }

  lemma HarmlessWithoutSemicolon(line: string)
    requires Harmless(line + ";")
    ensures Harmless(line)
  {
    hide IsSpace;
    CommentIff(line);
    CommentIff(line + ";");
    if TrimLeft(line) != "" {
      TrimLeftThenMore(line);
      Dashes(TrimLeft(line));
      Dashes(TrimLeft(line) + ";");
    }
  }

  lemma CommentIff(line: string)
    ensures "--" <= Trim(line) <==> "--" <= TrimLeft(line)
  {
    hide IsSpace;
    TrimLeftSuffix(line);
    TrimRightPrefix(TrimLeft(line));
    BlankTail(TrimLeft(line), |Trim(line)|);
    Dashes(TrimLeft(line));
    Dashes(Trim(line));
    DashIsNotSpace();
  }

  lemma {:induction false} LinesWithoutSemicolon(s: string)
    requires AllHarmless(Split(s + ";", '\n'))
    ensures AllHarmless(Split(s, '\n'))
    decreases |s|
  {
    hide Harmless;
    CutShrinks(s, '\n');
    if '\n' in s {
      var first, rest := BeforeFirst(s, '\n'), AfterFirst(s, '\n');
      SplitCons(first, rest + ";", '\n');
      assert s + ";" == first + ['\n'] + (rest + ";");
      assert Split(s, '\n') == [first] + Split(rest, '\n');
      AllHarmlessConcat([first], Split(rest + ";", '\n'));
      LinesWithoutSemicolon(rest);
      AllHarmlessConcat([first], Split(rest, '\n'));
    } else {
      assert Split(s + ";", '\n') == [s + ";"] && [s + ";"][0] == s + ";";
      HarmlessWithoutSemicolon(s);
      assert Split(s, '\n') == [s];
    }
  }

  lemma {:induction false} StatementLinesHarmless(stmts: seq<string>, i: nat)
    requires i < |stmts| && AllHarmless(Split(Print(stmts), '\n'))
    ensures AllHarmless(Split(stmts[i], '\n'))
  {
    hide AllHarmless, Split;
    if |stmts| > 1 {
      SplitConcat(stmts[0] + ";", Print(stmts[1..]));
      assert stmts[0] + ";\n" + Print(stmts[1..]) == stmts[0] + ";" + "\n" + Print(stmts[1..]);
      AllHarmlessConcat(Split(stmts[0] + ";", '\n'), Split(Print(stmts[1..]), '\n'));
      if i == 0 {
        LinesWithoutSemicolon(stmts[0]);
      } else {
        StatementLinesHarmless(stmts[1..], i - 1);
      }
    }
  }

  // ---------- Lines of a statement are lines of the cleaned text ----------

  /** A line of a text, with what stands before and behind it. */
  lemma {:induction false} LineAt(s: string, i: nat) returns (p: string, q: string)
    requires i < |Split(s, '\n')|
    ensures s == p + Split(s, '\n')[i] + q
    ensures p == "" || p[|p| - 1] == '\n'
    ensures q == "" || q[0] == '\n'
    decreases |s|
  {
    hide Split, BeforeFirst, AfterFirst;
    SplitNext(s, '\n');
    if '\n' in s {
      var first, rest := BeforeFirst(s, '\n'), AfterFirst(s, '\n');
      if i == 0 {
        p, q := "", "\n" + rest;
      } else {
        var inner;
        inner, q := LineAt(rest, i - 1);
        p := first + "\n" + inner;
        assert first + "\n" + (inner + Split(rest, '\n')[i - 1] + q) == p + Split(rest, '\n')[i - 1] + q;
        assert inner == "" ==> p[|p| - 1] == '\n';
      }
    } else {
      p, q := "", "";
    }
  }

  /** Every statement stands in the text it comes from. */
  lemma {:induction false} StatementWithin(text: string, i: nat) returns (x: string, y: string)
    requires i < |Statements(text)|
    ensures text == x + Statements(text)[i] + y
    decreases |text|
  {
    hide Statements, Trim, FirstCut, Blank;
    var k := FirstCut(text, Plain);
    var s := Trim(text[..k]);
    StatementsNext(text);
    if i < |NonEmpty(s)| {
      var front, back := TrimParts(text[..k]);
      x, y := front, back + text[k..];
      Around(text, k, front, s, back);
    } else {
      x, y := StatementWithin(text[k + 1..], i - |NonEmpty(s)|);
      Behind(text, k + 1, x, Statements(text)[i], y);
      x := text[..k + 1] + x;
    }
  }

  lemma Around(text: string, k: nat, front: string, s: string, back: string)
    requires k <= |text| && text[..k] == front + s + back
    ensures text == front + s + (back + text[k..])
  {
    assert text == text[..k] + text[k..];
  }

  lemma Behind(text: string, k: nat, x: string, s: string, y: string)
    requires k <= |text| && text[k..] == x + s + y
    ensures text == text[..k] + x + s + y
  {
    assert text == text[..k] + text[k..];
  }

  predicate AllKept(lines: seq<string>) {
    forall i :: 0 <= i < |lines| ==> Kept(lines[i]) && '\n' !in lines[i]
  }

  lemma {:induction false} CleanLinesKept(lines: seq<string>)
    requires forall l :: l in lines ==> '\n' !in l
    ensures AllKept(CleanLines(lines))
  {
    hide Kept;
    if lines != [] {
      var last := lines[|lines| - 1];
      assert last in lines && forall l :: l in lines[..|lines| - 1] ==> l in lines;
      CleanLinesKept(lines[..|lines| - 1]);
    }
  }

  /** A full line of a cleaned text is not blank. */
  lemma FullLineKept(sqlText: string, a: string, line: string, b: string)
    requires Cleaned(sqlText) == a + "\n" + line + "\n" + b && '\n' !in line
    ensures Kept(line)
  {
    hide Kept, CleanLines;
    var lines := CleanLines(Split(sqlText, '\n'));
    JoinSplit(sqlText, '\n');
    CleanLinesKept(Split(sqlText, '\n'));
    EmptyJoin();
    SplitJoin(lines, '\n');
    SplitConcat(a, line + "\n" + b);
    SplitConcat(line, b);
    NoBreak(line);
    assert a + "\n" + line + "\n" + b == a + "\n" + (line + "\n" + b);
    assert lines == Split(a, '\n') + ([line] + Split(b, '\n'));
    assert lines[|Split(a, '\n')|] == line;
  }

  lemma EmptyJoin()
    ensures Join([], '\n') == ""
  {
  }

  /** No line of a statement is blank: inner lines are lines of the cleaned text, and outer ones are trimmed. */
  lemma NoBlankLine(sqlText: string, i: nat, j: nat)
    requires i < |SplitSQL(sqlText)| && j < |Split(SplitSQL(sqlText)[i], '\n')|
    ensures Trim(Split(SplitSQL(sqlText)[i], '\n')[j]) != ""
  {
    hide Statements, Split, Cleaned, WellFormed, Uncut, Balanced, Trim;
    var s := SplitSQL(sqlText)[i];
    var line := Split(s, '\n')[j];
    var p, q := LineAt(s, j);
    JoinSplit(s, '\n');
    StatementsWellFormed(Cleaned(sqlText));
    assert s != "" && Trimmed(s) by { WellFormedAt(SplitSQL(sqlText), i); }
    if p == "" || q == "" {
      OuterLine(s, p, line, q);
    } else {
      var x, y := StatementWithin(Cleaned(sqlText), i);
      var a, b := x + p[..|p| - 1], q[1..] + y;
      assert Cleaned(sqlText) == a + "\n" + line + "\n" + b by {
        assert p == p[..|p| - 1] + "\n" && q == "\n" + q[1..];
        assert x + (p + line + q) + y == x + p[..|p| - 1] + "\n" + line + "\n" + (q[1..] + y);
      }
      FullLineKept(sqlText, a, line, b);
    }
  }

  lemma WellFormedAt(stmts: seq<string>, i: nat)
    requires WellFormed(stmts) && i < |stmts|
    ensures stmts[i] != "" && Trimmed(stmts[i])
  {
    hide Trimmed;
  }

  lemma OuterLine(s: string, p: string, line: string, q: string)
    requires s != "" && Trimmed(s) && s == p + line + q && (p == "" || q == "")
    requires p == "" || p[|p| - 1] == '\n'
    requires q == "" || q[0] == '\n'
    ensures Trim(line) != ""
  {
    hide IsSpace;
    assert IsSpace('\n') by { BreakIsSpace(); }
    var front, back := TrimParts(line);
    hide Trim;
    assert Trim(line) == "" ==> line == front + back;
    assert Trim(line) == "" ==> Blank(line);
    assert p == "" && line != "" ==> s[0] == line[0];
    assert q == "" && line != "" ==> s[|s| - 1] == line[|line| - 1];
  }

  lemma BreakIsSpace()
    ensures IsSpace('\n')
  {
  }

  lemma {:induction false} ReturningIsIntact(stmts: seq<string>)
    requires SplitSQL(Print(stmts)) == stmts
    ensures AllLinesIntact(stmts)
  {
    hide SplitSQL, Print, Split, Trim, StripBom, AllHarmless;
    ReturningIsHarmless(stmts);
    forall i | 0 <= i < |stmts| ensures AllIntact(Split(stmts[i], '\n')) {
      StatementLinesHarmless(stmts, i);
      var lines := Split(stmts[i], '\n');
      forall j | 0 <= j < |lines| ensures Intact(lines[j]) {
        HarmlessAt(lines, j);
        NoBlankLine(Print(stmts), i, j);
      }
    }
  }

  lemma HarmlessAt(lines: seq<string>, j: nat)
    requires AllHarmless(lines) && j < |lines|
    ensures Harmless(lines[j])
  {
    hide Harmless;
  }

  /**
   * Splitting inverts printing exactly: a list of statements comes back iff each is trimmed, not empty and free of
   * unquoted semicolons, all but the last close their quotes, and no line is blank, a comment, or starts with a
   * byte-order mark.
   */
  lemma {:induction false} SplitInvertsPrintIff(stmts: seq<string>)
    ensures SplitSQL(Print(stmts)) == stmts <==> WellFormed(stmts) && AllLinesIntact(stmts)
  {
    hide Statements, WellFormed, AllLinesIntact, Print, Cleaned;
    if SplitSQL(Print(stmts)) == stmts {
      StatementsWellFormed(Cleaned(Print(stmts)));
      ReturningIsIntact(stmts);
    }
    if WellFormed(stmts) && AllLinesIntact(stmts) {
      IntactListsInvert(stmts);
    }
  }

  /** The statements of any text survive printing and splitting again iff all their lines are intact. */
  lemma {:induction false} SplitAgainIff(sqlText: string)
    ensures var stmts := SplitSQL(sqlText); SplitSQL(Print(stmts)) == stmts <==> AllLinesIntact(stmts)
  {
    hide Statements, WellFormed, AllLinesIntact, Print, Cleaned;
    StatementsWellFormed(Cleaned(sqlText));
    SplitInvertsPrintIff(SplitSQL(sqlText));
  }

  // ---------- A comment behind a semicolon ----------

  lemma CleanedOf(line: string)
    requires '\n' !in line && Intact(line)
    ensures Cleaned(line) == line
  {
    hide StripBom, Kept;
    assert Split(line, '\n') == [line];
    CleanedIntact(line);
  }

  /** A text without quotes and semicolons is uncut and balanced. */
  lemma {:induction false} PlainWord(s: string)
    requires ';' !in s && '\'' !in s
    ensures Uncut(s) && Balanced(s)
  {
    if s != "" {
      PlainWord(s[1..]);
    }
  }

  lemma ShortStatements()
    ensures Statements("--b") == ["--b"] && Statements("a;") == ["a"] && Statements("a;--b") == ["a", "--b"]
  {
    hide Trim, Statements, Uncut, Balanced;
    assert Trimmed("a") && Trimmed("--b");
    TrimmedFixed("a");
    TrimmedFixed("--b");
    PlainWord("a");
    PlainWord("--b");
    StatementsOfOne("--b");
    StatementsOfNothing();
    StatementsCut("a", "");
    assert "a" + ";" + "" == "a;";
    StatementsCut("a", "--b");
    assert "a" + ";" + "--b" == "a;--b";
  }

  /** A comment that follows a semicolon on its line becomes a statement, and is lost when printed and split again. */
  lemma {:induction false} CommentBehindSemicolon()
    ensures SplitSQL("a;--b") == ["a", "--b"]
    ensures SplitSQL(Print(["a", "--b"])) == ["a"]
  {
    hide Statements, Split, Trim;
    ShortStatements();
    assert Trimmed("a;--b") && Trimmed("--b") && Trimmed("a;");
    TrimmedFixed("a;--b");
    TrimmedFixed("--b");
    TrimmedFixed("a;");
    CleanedOf("a;--b");
    assert Print(["a", "--b"]) == "a" + ";\n" + "--b" == "a;" + ['\n'] + "--b";
    SplitCons("a;", "--b", '\n');
    NoBreak("--b");
    var lines := ["a;", "--b"];
    assert [lines[0]] + [lines[1]] == lines && lines[..1] == ["a;"] && ["a;"][..0] == [];
    assert CleanLines(lines) == ["a;"];
  }

  lemma NoBreak(s: string)
    requires '\n' !in s
    ensures Split(s, '\n') == [s]
  {
  }
}
