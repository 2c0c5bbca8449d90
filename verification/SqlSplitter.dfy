/** The splitter of migration files into SQL statements. */
module SqlSplitter {
  import opened Text

  // ---------- The lexer ----------

  /** Outside quotes, inside single quotes, and after a backslash inside quotes. */
  datatype Lex = Plain | Quoted | Escaped

  function Advance(l: Lex, c: char): Lex {
    match l
    case Escaped => Quoted
    case Quoted => if c == '\\' then Escaped else if c == '\'' then Plain else Quoted
    case Plain => if c == '\'' then Quoted else Plain
  }

  function After(text: string, l: Lex): Lex {
    if text == "" then l else After(text[1..], Advance(l, text[0]))
  }

  /** The index of the first semicolon outside quotes, or the length of the text. */
  function FirstCut(text: string, l: Lex): (k: nat)
    ensures k <= |text|
  {
    if text == "" || (l == Plain && text[0] == ';') then 0 else 1 + FirstCut(text[1..], Advance(l, text[0]))
  }

  /** There is no semicolon outside quotes. */
  predicate Uncut(text: string) {
    FirstCut(text, Plain) == |text|
  }

  /** Every quote is closed. */
  predicate Balanced(text: string) {
    After(text, Plain) == Plain
  }

  lemma {:induction false} AfterConcat(a: string, b: string, l: Lex)
    ensures After(a + b, l) == After(b, After(a, l))
  {
    if a == "" {
      assert a + b == b;
    } else {
      assert (a + b)[1..] == a[1..] + b;
      AfterConcat(a[1..], b, Advance(l, a[0]));
    }
  }

  lemma {:induction false} FirstCutConcat(a: string, b: string, l: Lex)
    ensures FirstCut(a + b, l) ==
              if FirstCut(a, l) < |a| then FirstCut(a, l) else |a| + FirstCut(b, After(a, l))
  {
    if a == "" {
      assert a + b == b;
    } else {
      assert (a + b)[1..] == a[1..] + b;
      FirstCutConcat(a[1..], b, Advance(l, a[0]));
    }
  }

  lemma {:induction false} FirstCutIs(text: string, l: Lex)
    ensures var k := FirstCut(text, l);
            && FirstCut(text[..k], l) == k
            && (k < |text| ==> text[k] == ';' && After(text[..k], l) == Plain)
    decreases |text|
  {
    if text == "" || (l == Plain && text[0] == ';') {
      assert text[..0] == "";
    } else {
      var k := FirstCut(text, l);
      FirstCutIs(text[1..], Advance(l, text[0]));
      assert text[..k][1..] == text[1..][..k - 1];
    }
  }

  /** White space changes neither the state outside quotes nor the cuts. */
  lemma {:induction false} BlankIsPlain(s: string)
    requires Blank(s)
    ensures After(s, Plain) == Plain && Uncut(s)
  {
    if s != "" {
      assert s[0] in s && IsSpace(s[0]);
      BlankIsPlain(s[1..]);
    }
  }

  // ---------- Statements ----------

  function NonEmpty(s: string): seq<string> {
    if s == "" then [] else [s]
  }

  /** The trimmed, non-empty texts between the unquoted semicolons. */
  function Statements(text: string): seq<string>
    decreases |text|
  {
    var k := FirstCut(text, Plain);
    NonEmpty(Trim(text[..k])) + if k == |text| then [] else Statements(text[k + 1..])
  }

  /** The untrimmed pieces, each but the last with its semicolon. */
  function Pieces(text: string): seq<string>
    decreases |text|
  {
    var k := FirstCut(text, Plain);
    if k == |text| then [text] else [text[..k + 1]] + Pieces(text[k + 1..])
  }

  function Concat(parts: seq<string>): string {
    if parts == [] then "" else parts[0] + Concat(parts[1..])
  }

  /** The pieces are the text, in order and without loss. */
  lemma {:induction false} PiecesConcat(text: string)
    ensures Concat(Pieces(text)) == text
    decreases |text|
  {
    var k := FirstCut(text, Plain);
    if k == |text| {
      assert Pieces(text)[1..] == [];
    } else {
      PiecesConcat(text[k + 1..]);
      assert Pieces(text)[1..] == Pieces(text[k + 1..]);
    }
  }

  /** `strings.TrimSuffix` with a semicolon. */
  function Chop(piece: string): string {
    if piece != "" && piece[|piece| - 1] == ';' then piece[..|piece| - 1] else piece
  }

  function Collect(pieces: seq<string>): seq<string> {
    if pieces == [] then []
    else if |pieces| == 1 then NonEmpty(Trim(pieces[0]))
    else NonEmpty(Trim(Chop(pieces[0]))) + Collect(pieces[1..])
  }

  lemma StatementsNext(text: string)
    ensures var k := FirstCut(text, Plain);
            Statements(text) == NonEmpty(Trim(text[..k])) + if k == |text| then [] else Statements(text[k + 1..])
  {
    hide Trim, FirstCut;
  }

  lemma PiecesNext(text: string)
    ensures var k := FirstCut(text, Plain);
            Pieces(text) == if k == |text| then [text] else [text[..k + 1]] + Pieces(text[k + 1..])
  {
    hide FirstCut;
  }

  /** The statements are the pieces, less their semicolons, trimmed, and without the empty ones. */
  lemma {:induction false} StatementsOfPieces(text: string)
    ensures Statements(text) == Collect(Pieces(text))
    decreases |text|
  {
    hide Trim, Statements, Pieces, FirstCut;
    var k := FirstCut(text, Plain);
    StatementsNext(text);
    PiecesNext(text);
    if k == |text| {
      assert text[..k] == text;
    } else {
      CutPiece(text);
      StatementsOfPieces(text[k + 1..]);
      SomePiece(text[k + 1..]);
      assert Pieces(text)[1..] == Pieces(text[k + 1..]);
    }
  }

  lemma CutPiece(text: string)
    requires FirstCut(text, Plain) < |text|
    ensures var k := FirstCut(text, Plain); Chop(text[..k + 1]) == text[..k]
  {
    hide FirstCut;
    FirstCutIs(text, Plain);
  }

  lemma SomePiece(text: string)
    ensures Pieces(text) != []
  {
  }

  lemma Glue(s: string, left: string, middle: string)
    requires |left| <= |s| && left == s[|s| - |left|..]
    requires |middle| <= |left| && middle == left[..|middle|]
    ensures s == s[..|s| - |left|] + middle + left[|middle|..]
  {
    assert left == middle + left[|middle|..];
  }

  lemma TrimParts(s: string) returns (front: string, back: string)
    ensures s == front + Trim(s) + back && Blank(front) && Blank(back)
  {
    hide IsSpace, TrimLeft, TrimRight, Blank;
    var left := TrimLeft(s);
    TrimLeftSuffix(s);
    TrimRightPrefix(left);
    assert Trim(s) == TrimRight(left);
    front, back := s[..|s| - |left|], left[|Trim(s)|..];
    Glue(s, left, Trim(s));
  }

  /** Trimming a text without unquoted semicolons leaves none, and closes as many quotes. */
  lemma {:induction false} TrimKeepsLex(s: string)
    ensures Uncut(s) ==> Uncut(Trim(s))
    ensures Balanced(s) ==> Balanced(Trim(s))
  {
    hide Trim, Blank;
    var front, back := TrimParts(s);
    BlankIsPlain(front);
    var rest := Trim(s) + back;
    assert s == front + rest;
    FirstCutConcat(front, rest, Plain);
    AfterConcat(front, rest, Plain);
    FirstCutConcat(Trim(s), back, Plain);
    AfterConcat(Trim(s), back, Plain);
    if Balanced(s) && After(Trim(s), Plain) != Plain {
      BlankKeepsQuoted(back, After(Trim(s), Plain));
    }
  }

  lemma {:induction false} BlankKeepsQuoted(s: string, l: Lex)
    requires Blank(s) && l != Plain
    ensures After(s, l) != Plain
  {
    if s != "" {
      assert s[0] in s && IsSpace(s[0]);
      BlankKeepsQuoted(s[1..], Advance(l, s[0]));
    }
  }

  /** What every list of statements satisfies: trimmed, not empty, uncut, and closed in quotes except for the last. */
  predicate WellFormed(stmts: seq<string>) {
    && (forall i :: 0 <= i < |stmts| ==> stmts[i] != "" && Trimmed(stmts[i]) && Uncut(stmts[i]))
    && forall i :: 0 <= i < |stmts| - 1 ==> Balanced(stmts[i])
  }

  lemma WellFormedCons(s: string, stmts: seq<string>)
    requires s != "" && Trimmed(s) && Uncut(s) && (stmts != [] ==> Balanced(s)) && WellFormed(stmts)
    ensures WellFormed([s] + stmts)
  {
    hide Trimmed, Uncut, Balanced;
    var all := [s] + stmts;
    forall i | 0 <= i < |all| ensures all[i] != "" && Trimmed(all[i]) && Uncut(all[i]) {
      if i > 0 {
        assert all[i] == stmts[i - 1];
      }
    }
    forall i | 0 <= i < |all| - 1 ensures Balanced(all[i]) {
      if i > 0 {
        assert all[i] == stmts[i - 1];
      }
    }
  }

  /** No statement of any text contains an unquoted semicolon, is empty, or has white space around it. */
  lemma {:induction false} StatementsWellFormed(text: string)
    ensures WellFormed(Statements(text))
    decreases |text|
  {
    hide Trim, Trimmed, Uncut, WellFormed;
    var k := FirstCut(text, Plain);
    var s := Trim(text[..k]);
    FirstCutIs(text, Plain);
    assert Uncut(text[..k]) by { UncutIs(text[..k]); }
    TrimKeepsLex(text[..k]);
    TrimIsTrimmed(text[..k]);
    assert WellFormed([]) by { NothingWellFormed(); }
    if k == |text| {
      assert NonEmpty(s) + [] == NonEmpty(s);
      if s != "" {
        WellFormedCons(s, []);
        assert [s] + [] == [s];
      }
    } else {
      StatementsWellFormed(text[k + 1..]);
      if s != "" {
        WellFormedCons(s, Statements(text[k + 1..]));
      } else {
        assert [] + Statements(text[k + 1..]) == Statements(text[k + 1..]);
      }
    }
  }

  lemma UncutIs(s: string)
    ensures Uncut(s) <==> FirstCut(s, Plain) == |s|
  {
  }

  lemma NothingWellFormed()
    ensures WellFormed([])
  {
  }

  lemma StatementsOfOne(s: string)
    requires Uncut(s)
    ensures Statements(s) == NonEmpty(Trim(s))
  {
    hide Trim;
    assert s[..|s|] == s;
  }

  lemma StatementsOfNothing()
    ensures Statements("") == []
  {
  }

  // ---------- Cleaning lines ----------

  const BOM := '\U{feff}'

  /** `strings.TrimPrefix` with a byte-order mark. */
  function StripBom(line: string): string {
    if line != "" && line[0] == BOM then line[1..] else line
  }

  /** A line is kept unless it is blank or a comment. */
  predicate Kept(line: string) {
    Trim(line) != "" && !("--" <= Trim(line))
  }

  function CleanLines(lines: seq<string>): seq<string> {
    if lines == [] then []
    else
      var line := StripBom(lines[|lines| - 1]);
      CleanLines(lines[..|lines| - 1]) + if Kept(line) then [line] else []
  }

  function Cleaned(sqlText: string): string {
    Join(CleanLines(Split(sqlText, '\n')), '\n')
  }

  /** `splitSQLStatements`. */
  function SplitSQL(sqlText: string): seq<string> {
    Statements(Cleaned(sqlText))
  }

  /** A line that cleaning leaves as it is. */
  predicate Intact(line: string) {
    StripBom(line) == line && Kept(line)
  }

  predicate AllIntact(lines: seq<string>) {
    forall i :: 0 <= i < |lines| ==> Intact(lines[i])
  }

  lemma {:induction false} CleanLinesIntact(lines: seq<string>)
    requires AllIntact(lines)
    ensures CleanLines(lines) == lines
  {
    hide StripBom, Kept;
    if lines != [] {
      CleanLinesIntact(lines[..|lines| - 1]);
      assert Intact(lines[|lines| - 1]);
    }
  }

  lemma CleanedIntact(sqlText: string)
    requires sqlText == "" || AllIntact(Split(sqlText, '\n'))
    ensures Cleaned(sqlText) == sqlText
  {
    hide AllIntact, Kept, StripBom;
    JoinSplit(sqlText, '\n');
    if sqlText == "" {
      CleanedNothing();
    } else {
      CleanLinesIntact(Split(sqlText, '\n'));
    }
  }

  lemma CleanedNothing()
    ensures Cleaned("") == ""
  {
    assert Split("", '\n') == [""];
    assert [""][..0] == [];
    assert CleanLines([""]) == [];
  }
}
