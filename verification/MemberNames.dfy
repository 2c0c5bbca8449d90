/** Which archive member names the canon-pack preview accepts. Names are byte strings, one character a byte. */
module MemberNames {
  import opened Text

  /** `path.Clean` on the elements read so far (`out`) and still to read. */
  function CleanParts(parts: seq<string>, rooted: bool, out: seq<string>): seq<string>
    decreases parts
  {
    if parts == [] then out
    else
      var p, rest := parts[0], parts[1..];
      if p == "" || p == "." then CleanParts(rest, rooted, out)
      else if p != ".." then CleanParts(rest, rooted, out + [p])
      else if out != [] && out[|out| - 1] != ".." then CleanParts(rest, rooted, out[..|out| - 1])
      else if rooted then CleanParts(rest, rooted, out)
      else CleanParts(rest, rooted, out + [p])
  }

  /** `path.Clean`. */
  function Clean(p: string): string {
    var rooted := p != "" && p[0] == '/';
    var cleaned := Join(CleanParts(Split(p, '/'), rooted, []), '/');
    if rooted then "/" + cleaned else if cleaned == "" then "." else cleaned
  }

  /** `needle` occurs in `s`. */
  predicate Contains(s: string, needle: string) {
    exists i :: 0 <= i <= |s| && OccursAt(s, needle, i)
  }

  predicate OccursAt(s: string, needle: string, i: nat) {
    i + |needle| <= |s| && s[i..i + |needle|] == needle
  }

  /** `safeMemberName`. */
  predicate SafeMemberName(name: string) {
    && name != "" && '\0' !in name && '\\' !in name && name[0] != '/'
    && !(|name| >= 2 && name[1] == ':')
    && Clean(name) == name && !("../" <= name) && name != ".." && !Contains(name, "//")
  }

  // ---------- Names that cleaning leaves alone ----------

  /** From `out` on, every element is pushed: none is empty or a dot, and a double dot only follows double dots. */
  predicate AllPushed(parts: seq<string>, out: seq<string>) {
    forall i :: 0 <= i < |parts| ==>
      && parts[i] != "" && parts[i] != "."
      && (parts[i] == ".." ==> (forall j :: 0 <= j < i ==> parts[j] == "..") && (out == [] || out[|out| - 1] == ".."))
  }

  lemma {:induction false} CleanPartsShort(parts: seq<string>, out: seq<string>)
    ensures |CleanParts(parts, false, out)| <= |out| + |parts|
    ensures |CleanParts(parts, false, out)| == |out| + |parts| ==> AllPushed(parts, out)
    ensures forall p :: p in CleanParts(parts, false, out) ==> p in out || p in parts
    decreases parts
  {
    if parts != [] {
      var p, rest := parts[0], parts[1..];
      if p != "" && p != "." {
        if p == ".." && out != [] && out[|out| - 1] != ".." {
          CleanPartsShort(rest, out[..|out| - 1]);
        } else {
          CleanPartsShort(rest, out + [p]);
        }
      } else {
        CleanPartsShort(rest, out);
      }
    }
  }

  lemma {:induction false} CleanPartsKeeps(parts: seq<string>, out: seq<string>)
    requires forall p :: p in parts ==> p != "" && p != "." && p != ".."
    ensures CleanParts(parts, false, out) == out + parts
    decreases parts
  {
    if parts != [] {
      assert parts[0] in parts && forall p :: p in parts[1..] ==> p in parts;
      CleanPartsKeeps(parts[1..], out + [parts[0]]);
    }
  }

  /** Every element of a slash path is a plain name: neither empty nor `.` nor `..`. */
  predicate PlainElements(name: string) {
    forall p :: p in Split(name, '/') ==> p != "" && p != "." && p != ".."
  }

  lemma StartsUp(name: string)
    requires Split(name, '/')[0] == ".."
    ensures name == ".." || "../" <= name
  {
    CutShrinks(name, '/');
  }

  lemma CleanFixed(name: string)
    requires name != "" && name[0] != '/' && Clean(name) == name && name != "." && !("../" <= name) && name != ".."
    ensures PlainElements(name)
  {
    hide Split, Join, CleanParts;
    var parts := Split(name, '/');
    var out := CleanParts(parts, false, []);
    JoinSplit(name, '/');
    CleanPartsShort(parts, []);
    EmptyJoin();
    SplitJoin(out, '/');
    assert out == parts;
    if parts[0] == ".." {
      StartsUp(name);
    }
  }

  lemma EmptyJoin()
    ensures Join([], '/') == ""
  {
  }

  lemma FirstElement(name: string)
    requires name != ""
    ensures name[0] == '/' ==> Split(name, '/')[0] == ""
    ensures name == ".." || "../" <= name ==> Split(name, '/')[0] == ".."
  {
    CutShrinks(name, '/');
    if "../" <= name {
      CutUnique("..", name[3..], '/');
      assert name == ".." + ['/'] + name[3..];
      assert name[2] == '/';
    }
  }

  lemma {:induction false} DoubleSlash(s: string)
    requires Contains(s, "//")
    ensures "" in Split(s, '/')
    decreases |s|
  {
    var i: nat :| i <= |s| && OccursAt(s, "//", i);
    assert |"//"| == 2;
    assert s[i] == s[i..i + 2][0] && s[i + 1] == s[i..i + 2][1];
    CutShrinks(s, '/');
    var k := |BeforeFirst(s, '/')|;
    var rest := AfterFirst(s, '/');
    assert s[k] == '/' && rest == s[k + 1..];
    assert forall j :: 0 <= j < k ==> s[j] == BeforeFirst(s, '/')[j] != '/';
    if i <= k {
      assert rest[0] == '/';
      FirstElement(rest);
    } else {
      assert OccursAt(rest, "//", i - k - 1) by {
        assert rest[i - k - 1..i - k + 1] == s[i..i + 2];
      }
      DoubleSlash(rest);
    }
  }

  /**
   * A member name is accepted iff it is `.`, or a relative slash path of plain elements without NUL, backslash
   * or a drive letter: no accepted name leads upwards or is written in two ways.
   */
  lemma {:induction false} SafeMemberNameIff(name: string)
    ensures SafeMemberName(name) <==>
              && '\0' !in name && '\\' !in name && !(|name| >= 2 && name[1] == ':')
              && (name == "." || PlainElements(name))
  {
    hide Split, Contains;
    if SafeMemberName(name) && name != "." {
      CleanFixed(name);
    }
    if name == "." {
      DotIsSafe();
    } else if PlainElements(name) {
      EmptyHasEmptyElement();
      assert "" !in Split(name, '/') && ".." !in Split(name, '/') && Split(name, '/')[0] in Split(name, '/');
      FirstElement(name);
      JoinSplit(name, '/');
      CleanPartsKeeps(Split(name, '/'), []);
      assert [] + Split(name, '/') == Split(name, '/');
      if Contains(name, "//") {
        DoubleSlash(name);
      }
    }
  }

  lemma DotIsSafe()
    ensures SafeMemberName(".")
  {
    CutShrinks(".", '/');
    assert Split(".", '/') == ["."];
  }

  lemma EmptyHasEmptyElement()
    ensures Split("", '/') == [""]
  {
  }
}
