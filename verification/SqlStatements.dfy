/** The splitter itself: the loop over the lines and the loop over the characters. */
module SqlStatements {
  import opened Text
  import opened SqlSplitter
  import opened SqlLiterals

  method SplitSQLStatements(sqlText: string) returns (out: seq<string>)
    ensures out == SplitSQL(sqlText) && StatementList(out)
  {
    hide Trim, Kept, StatementList, StripBom, Split, Uncut;
    var lines := Split(sqlText, '\n');
    var cleaned: seq<string> := [];
    for i := 0 to |lines|
      invariant cleaned == CleanLines(lines[..i])
    {
      var line := StripBom(lines[i]);
      assert lines[..i + 1][..i] == lines[..i];
      if !Kept(line) {
        continue;
      }
      cleaned := cleaned + [line];
    }
    assert lines[..|lines|] == lines;
    out := SplitCleaned(Join(cleaned, '\n'));
    SplitWellFormed(sqlText);
  }

  /** The state that the two flags of the loop encode. */
  function LexOf(inSingleQuote: bool, escaped: bool): Lex {
    if escaped then Escaped else if inSingleQuote then Quoted else Plain
  }

  lemma LexStep(text: string, i: nat, l: Lex)
    requires i < |text|
    ensures FirstCut(text[i..], l) ==
              if l == Plain && text[i] == ';' then 0 else 1 + FirstCut(text[i + 1..], Advance(l, text[i]))
  {
    assert text[i..][1..] == text[i + 1..];
  }

  lemma CutStep(text: string, start: nat, i: nat)
    requires start <= i < |text| && FirstCut(text[start..], Plain) == i - start
    ensures Statements(text[start..]) == NonEmpty(Trim(text[start..i])) + Statements(text[i + 1..])
  {
    hide Trim, Statements, FirstCut;
    StatementsNext(text[start..]);
    assert text[start..][..i - start] == text[start..i];
    assert text[start..][i - start + 1..] == text[i + 1..];
  }

  /**
   * The loop over the characters. The text falls into parts behind exactly the semicolons outside literals; the
   * statements are the parts without these semicolons, trimmed, and without the empty ones.
   */
  method SplitCleaned(text: string) returns (out: seq<string>)
    ensures out == Statements(text)
    ensures Concat(Pieces(text)) == text && forall i: nat :: EndsPart(Pieces(text), i) <==> Cuts(text, i)
    ensures out == Collect(Pieces(text))
  {
    hide Trim, Statements, FirstCut, Uncut, Pieces, Collect, Concat, EndsPart, Cuts;
    PiecesConcat(text);
    StatementsOfPieces(text);
    forall i: nat ensures EndsPart(Pieces(text), i) <==> Cuts(text, i) {
      CutsIff(text, i);
    }
    out := [];
    var current := "";
    var inSingleQuote, escaped := false, false;
    ghost var start := 0;
    assert text[0..] == text;
    for i := 0 to |text|
      invariant start <= i && current == text[start..i] && (escaped ==> inSingleQuote)
      invariant Statements(text) == out + Statements(text[start..])
      invariant FirstCut(text[start..], Plain) == i - start + FirstCut(text[i..], LexOf(inSingleQuote, escaped))
    {
      var r := text[i];
      LexStep(text, i, LexOf(inSingleQuote, escaped));
      current := current + [r];
      if escaped {
        escaped := false;
        continue;
      }
      if r == '\\' && inSingleQuote {
        escaped := true;
        continue;
      }
      if r == '\'' {
        inSingleQuote := !inSingleQuote;
        continue;
      }
      if r == ';' && !inSingleQuote {
        var stmt := Trim(Chop(current));
        CutStep(text, start, i);
        assert Chop(current) == text[start..i];
        if stmt != "" {
          out := out + [stmt];
        }
        current := "";
        start := i + 1;
      }
    }
    LexEnd(text, LexOf(inSingleQuote, escaped));
    UncutIs(text[start..]);
    StatementsOfOne(text[start..]);
    assert current == text[start..];
    var stmt := Trim(current);
    assert out + NonEmpty(stmt) == if stmt == "" then out else out + [stmt];
    if stmt != "" {
      out := out + [stmt];
    }
  }

  lemma LexEnd(text: string, l: Lex)
    ensures FirstCut(text[|text|..], l) == 0
  {
  }
}
