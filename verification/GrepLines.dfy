/**
  Line selection in grep: where on a line the pattern is tried, which lines are
  selected, and what is printed of a selected line.
 */
module GrepLines {
  import opened GrepChars
  import opened GrepLang
  import opened GrepMatch
  import opened GrepGroups
  import opened GrepTextbook
  import opened GrepPossessive

  /** `fixed` is -F, `whole` is -x. */
  datatype Search = Search(needle: Pattern, fixed: bool, whole: bool, mode: Mode) {

    ghost predicate Usable() {
      fixed || Legal(needle, 0, true, 0)
    }

    /** A fixed needle, or one in which only closing parentheses follow a group with a quantifier. */
    predicate Exact() {
      fixed || Safe(needle, 0, true, 0)
    }

    /** The needle stands literally at `j`. */
    predicate Literal(line: string, j: nat) {
      j + |needle| <= |line| && forall i :: 0 <= i < |needle| ==> SameChar(needle[i], line[j + i], mode)
    }

    /** Without -i the needle itself is there; with -i its characters are, in either case. */
    lemma LiteralIs(line: string, j: nat)
      requires j + |needle| <= |line|
      ensures !mode.ignoreCase ==> (Literal(line, j) <==> line[j..j + |needle|] == needle)
      ensures Literal(line, j) <==> forall i :: 0 <= i < |needle| ==> Alike(needle[i], line[j + i], mode.ignoreCase)
    {
      hide SameChar, Capital;
      forall i | 0 <= i < |needle|
        ensures SameChar(needle[i], line[j + i], mode) <==> Alike(needle[i], line[j + i], mode.ignoreCase)
      {
        SameIff(needle[i], line[j + i], mode);
      }
      if !mode.ignoreCase && Literal(line, j) {
        forall i | 0 <= i < |needle| ensures line[j..j + |needle|][i] == needle[i] {
          assert Alike(needle[i], line[j + i], false);
        }
      }
      if line[j..j + |needle|] == needle {
        forall i | 0 <= i < |needle| ensures needle[i] == line[j + i] { assert needle[i] == line[j..j + |needle|][i]; }
      }
    }

    /** line[j..e] is in the language of the needle. */
    ghost predicate Covers(line: string, j: nat, e: nat) {
      if fixed then Literal(line, j) && e == j + |needle| else Denotes(PiecesOf(needle), line, mode, j, e)
    }

    /** The lines that a search asks for: those with a stretch in the language, or with -x those that
        are in it as a whole. */
    ghost predicate Wanted(line: string) {
      if whole then Covers(line, 0, |line|) else exists j: nat, e: nat :: Covers(line, j, e)
    }

    /** line[j..e] is a match in which every group of the needle takes as much as it can. */
    ghost predicate Grants(line: string, j: nat, e: nat) {
      if fixed then Covers(line, j, e) else Route(Text(line, mode), PartsOf(needle), j, e)
    }

    /** The lines that the program selects, for every needle. */
    ghost predicate Granted(line: string) {
      if whole then Grants(line, 0, |line|) else exists j: nat, e: nat :: Grants(line, j, e)
    }

    /** The matches at `j`, most preferred first. */
    ghost function Ends(line: string, j: nat): (ends: seq<Hit>)
      ensures ends != [] ==> j <= ends[0].end <= |line|
    {
      if fixed then if Literal(line, j) then [Hit(j + |needle|, Accept)] else []
      else
        var all := Text(line, mode).All(Parse(needle, 0, true, 0), j);
        assert all != [] ==> all[0] in all;
        all
    }

    /** How the program selects: the needle matches somewhere, or with -x the preferred match at the
        start covers the line. */
    ghost predicate Selects(line: string) {
      if whole then Ends(line, 0) != [] && Ends(line, 0)[0].end == |line|
      else exists j: nat :: j <= |line| && Ends(line, j) != []
    }

    /** What the program selects is wanted; all that is wanted is selected by an exact search. */
    lemma SelectsWanted(line: string)
      ensures Selects(line) ==> Wanted(line)
      ensures Exact() ==> (Selects(line) <==> Wanted(line))
    {
      hide Denotes, Text.All, Literal, Parse, Safe, PiecesOf;
      if Selects(line) {
        if whole {
          EndsCover(line, 0);
        } else {
          var j: nat :| j <= |line| && Ends(line, j) != [];
          EndsCover(line, j);
        }
      }
      if Exact() && Wanted(line) {
        if whole {
          CoverEnds(line, 0, |line|);
        } else {
          var j: nat, e: nat :| Covers(line, j, e);
          CoverEnds(line, j, e);
        }
      }
    }

    lemma SelectsGranted(line: string)
      ensures Selects(line) <==> Granted(line)
    {
      hide Text.All, Literal, Parse, Route, Layout;
      forall j: nat, e: nat | Grants(line, j, e)
        ensures j <= |line| && Ends(line, j) != [] && e <= Ends(line, j)[0].end
      {
        EndsGrant(line, j);
      }
      if whole { EndsGrant(line, 0); }
      if j: nat :| j <= |line| && Ends(line, j) != [] { EndsGrant(line, j); }
    }

    /** The preferred match is the longest that is granted. */
    lemma EndsGrant(line: string, j: nat)
      ensures Ends(line, j) != [] ==> Grants(line, j, Ends(line, j)[0].end)
      ensures forall e: nat :: Grants(line, j, e) ==> j <= |line| && Ends(line, j) != [] && e <= Ends(line, j)[0].end
    {
      hide Text.All, Parse, Route, Layout, Finds;
      if !fixed {
        var t := Text(line, mode);
        SearchFinds(t, needle, 0, true, 0, j);
        FindsMeans(t, PartsOf(needle), t.All(Parse(needle, 0, true, 0), j), j);
      }
    }

    lemma EndsCover(line: string, j: nat)
      requires Ends(line, j) != []
      ensures Covers(line, j, Ends(line, j)[0].end)
    {
      hide Denotes, Text.All, Literal, Parse, Safe, PiecesOf;
      if !fixed { Decided(Text(line, mode), needle, j); }
    }

    /** No stretch goes further than the preferred match. */
    lemma CoverEnds(line: string, j: nat, e: nat)
      requires Exact() && Covers(line, j, e)
      ensures j <= |line| && Ends(line, j) != [] && e <= Ends(line, j)[0].end
    {
      hide Text.All, Parse, Safe, PiecesOf, InLang;
      if !fixed { Decided(Text(line, mode), needle, j); }
    }

    /** `subsearch_matches`. */
    method Matches(text: string, j: nat) returns (ok: bool, len: nat)
      requires Usable() && 0 < |text| && j < |text|
      ensures var ends := Ends(text[..|text| - 1], j);
              ok == (ends != []) && (ok ==> j + len == ends[0].end)
    {
      ghost var line := text[..|text| - 1];
      if fixed {
        ok, len := true, 0;
        while len < |needle|
          invariant len <= |needle| && j + len <= |line|
          invariant forall i :: 0 <= i < len ==> SameChar(needle[i], line[j + i], mode)
        {
          if j + len >= |text| - 1 || !SameChar(needle[len], text[j + len], mode) {
            ok := false;
            return;
          }
          len := len + 1;
        }
        return;
      }
      var out;
      ok, len, out := RegexMatches(text, needle, mode, j, 0, false, 0);
    }

    static lemma Stitched(text: string, line: string, a: nat, b: nat, c: nat)
      requires line <= text && a <= b <= c <= |line|
      ensures line[..a] + text[a..b] + text[b..c] == line[..c]
    {
    }

    /** The scan of the -v branch: does any start match? */
    method Rejects(text: string) returns (matched: bool)
      requires Usable() && 0 < |text|
      ensures matched <==> Granted(text[..|text| - 1])
      ensures matched ==> Wanted(text[..|text| - 1])
      ensures Exact() ==> (matched <==> Wanted(text[..|text| - 1]))
    {
      hide Wanted, Granted, Exact, Text.All, Parse;
      ghost var line := text[..|text| - 1];
      SelectsWanted(line);
      SelectsGranted(line);
      var j := 0;
      while j < |text|
        invariant j <= |text| && (whole ==> j == 0)
        invariant forall i: nat :: i < j ==> Ends(line, i) == []
      {
        var ok, len := Matches(text, j);
        if ok {
          return !(whole && len != |text| - 1);
        }
        if whole { return false; }
        j := j + 1;
      }
      return false;
    }

    /** The scan of the normal branch, without colour: a selected line is put out piece by
        piece as matches are found, and the pieces are the line. */
    method PrintSelected(text: string) returns (matched: bool, out: string)
      requires Usable() && 0 < |text|
      ensures matched <==> Granted(text[..|text| - 1])
      ensures matched ==> Wanted(text[..|text| - 1])
      ensures Exact() ==> (matched <==> Wanted(text[..|text| - 1]))
      ensures out == if matched then text[..|text| - 1] + "\n" else ""
    {
      hide Wanted, Granted, Exact, Text.All, Parse;
      ghost var line := text[..|text| - 1];
      SelectsWanted(line);
      SelectsGranted(line);
      var j, lastMatch := 0, 0;
      matched, out := false, "";
      while j < |text|
        invariant 0 <= lastMatch <= j <= |text| && lastMatch <= |line|
        invariant whole ==> j == 0 && !matched
        invariant if matched then Selects(line) else forall i: nat :: i < j ==> Ends(line, i) == []
        invariant out == line[..lastMatch]
        invariant !matched ==> lastMatch == 0
        decreases |text| - j
      {
        var ok, len := Matches(text, j);
        if ok {
          if whole && len != |text| - 1 { break; }
          matched := true;
          out := out + text[lastMatch..j] + text[j..j + len];
          Stitched(text, line, lastMatch, j, j + len);
          lastMatch := j + len;
          j := lastMatch + if len == 0 then 1 else 0;
        } else {
          j := j + 1;
        }
        if whole { break; }
      }
      if matched {
        assert out + text[lastMatch..|text| - 1] == line;
        out := out + text[lastMatch..|text| - 1] + "\n";
      }
    }
  }
}
