/** What a dump of hexify looks like, character by character, and what the decoder makes of other input. */
module HexifyDump {
  import opened Common
  import opened Hexify

  // ----- digits -----

  const LOWER := "0123456789abcdef"
  const UPPER := "0123456789ABCDEF"

  /** The digits that are read, and what they are worth; those that are written are the small ones. */
  lemma DigitsAre(c: char, d: nat)
    requires d < 16
    ensures FromDigit(c) == Some(d) <==> c == LOWER[d] || c == UPPER[d]
    ensures Digit(d) == LOWER[d]
  {
  }

  // ----- one line -----

  /** Where byte `i` stands in the hexadecimal columns: pairs of bytes with a space behind each pair. */
  function Column(i: nat): nat { 5 * (i / 2) + 2 * (i % 2) }

  /** The text column: a printable byte is itself. */
  function TextOf(b: Byte): char {
    if ' ' as int <= b <= '~' as int then b as char else '.'
  }

  predicate Printable(c: char) { ' ' <= c <= '~' }

  predicate AllPrintable(s: string) {
    forall i :: 0 <= i < |s| ==> Printable(s[i])
  }

  lemma {:induction false} AreaLength(w: nat, c: seq<Byte>, i: nat)
    requires i <= w && i % 2 == 0
    ensures |HexArea(w, c, i)| == Column(w) - Column(i)
    decreases w - i
  {
    hide Two;
    if i < w { CellIs(c, i); }
    if i + 1 < w {
      CellIs(c, i + 1);
      AreaLength(w, c, i + 2);
    }
  }

  lemma CellIs(c: seq<Byte>, i: nat)
    ensures |Cell(c, i)| == 2 && AllPrintable(Cell(c, i))
    ensures i < |c| ==> Cell(c, i)[0] == LOWER[c[i] / 16] && Cell(c, i)[1] == LOWER[c[i] % 16]
    ensures i >= |c| ==> Cell(c, i) == "  "
  {
    if i < |c| {
      DigitsAre('0', c[i] / 16);
      DigitsAre('0', c[i] % 16);
    }
  }

  lemma ColumnStep(i: nat)
    requires i % 2 == 0
    ensures Column(i + 1) == Column(i) + 2 && Column(i + 2) == Column(i) + 5
  {
  }

  lemma AreaStep(w: nat, c: seq<Byte>, i: nat)
    requires i < w
    ensures HexArea(w, c, i) == if i + 1 == w then Cell(c, i) else Cell(c, i) + Cell(c, i + 1) + " " + HexArea(w, c, i + 2)
  {
    hide Cell;
  }

  lemma {:induction false} AreaAt(w: nat, c: seq<Byte>, i: nat, k: nat)
    requires i <= k < w && i % 2 == 0
    ensures var at := Column(k) - Column(i);
            && 0 <= at && at + 2 <= |HexArea(w, c, i)| && HexArea(w, c, i)[at..at + 2] == Cell(c, k)
            && (k % 2 == 1 ==> at + 2 < |HexArea(w, c, i)| && HexArea(w, c, i)[at + 2] == ' ')
    decreases w - i
  {
    hide Cell, HexArea, Column, AllPrintable;
    AreaStep(w, c, i);
    ColumnStep(i);
    var h := HexArea(w, c, i);
    CellIs(c, i);
    if i + 1 == w {
      assert h[0..2] == h;
    } else {
      CellIs(c, i + 1);
      var rest := HexArea(w, c, i + 2);
      if k == i {
        assert h[0..2] == Cell(c, i);
      } else if k == i + 1 {
        assert h[2..4] == Cell(c, i + 1) && h[4] == ' ';
      } else {
        AreaAt(w, c, i + 2, k);
        var at := Column(k) - Column(i + 2);
        assert h[at + 5..at + 7] == rest[at..at + 2];
        if k % 2 == 1 { assert h[at + 7] == rest[at + 2]; }
      }
    }
  }

  lemma {:induction false} AreaPrintable(w: nat, c: seq<Byte>, i: nat)
    ensures AllPrintable(HexArea(w, c, i))
    decreases w - i
  {
    hide Cell;
    if i < w {
      CellIs(c, i);
      CellIs(c, i + 1);
      AreaPrintable(w, c, i + 2);
    }
  }

  lemma {:induction false} PadDigits(n: nat, k: nat)
    ensures forall x :: 0 <= x < |HexPad(n, k)| ==> HexPad(n, k)[x] in LOWER && Printable(HexPad(n, k)[x])
    decreases n, k
  {
    hide Digit;
    if n != 0 || k != 0 {
      PadDigits(n / 16, if k == 0 then 0 else k - 1);
      DigitsAre('0', n % 16);
    }
  }

  lemma TextAt(w: nat, c: seq<Byte>, i: nat)
    requires i < w
    ensures Ascii(w, c)[i] == (if i < |c| then TextOf(c[i]) else ' ') && Printable(Ascii(w, c)[i])
  {
  }

  /** A line without its end. */
  function Row(w: nat, sizer: nat, c: seq<Byte>): string {
    Head(sizer) + (HexArea(w, c, 0) + (" " + Ascii(w, c)))
  }

  lemma RowIs(w: nat, sizer: nat, c: seq<Byte>)
    ensures Line(w, sizer, c) == Row(w, sizer, c) + "\n" && AllPrintable(Row(w, sizer, c))
  {
    hide Head, HexArea, Ascii;
    assert Line(w, sizer, c) == Row(w, sizer, c) + "\n";
    AreaPrintable(w, c, 0);
    HeadPrintable(sizer);
    AsciiLength(w, c);
    forall i | 0 <= i < w ensures Printable(Ascii(w, c)[i]) { TextAt(w, c, i); }
  }

  lemma AsciiLength(w: nat, c: seq<Byte>)
    ensures |Ascii(w, c)| == w
  {
  }

  lemma HeadPrintable(sizer: nat)
    ensures AllPrintable(Head(sizer))
  {
    hide HexPad;
    PadDigits(sizer, 8);
  }

  /** The row of the line that starts at `sizer` and holds the bytes `c`: the offset in at least eight digits, a
      colon and a space, the bytes in hexadecimal, and `w` characters of text at its end. */
  ghost predicate Shows(row: string, w: nat, sizer: nat, c: seq<Byte>) {
    var h := |row| - w - 1 - Column(w);
    && h >= 10 && HexValue(row[..h - 2]) == Some(sizer) && (forall x :: 0 <= x < h - 2 ==> row[x] in LOWER)
    && (sizer < WORD ==> h == 10) && row[h - 2..h] == ": "
    && AllPrintable(row) && row[h + Column(w)] == ' '
    && forall i: nat :: i < w ==> ShowsByte(row, w, h, c, i)
  }

  ghost predicate ShowsByte(row: string, w: nat, h: nat, c: seq<Byte>, i: nat)
    requires h + Column(w) + 1 + w == |row| && i < w
  {
    var at := h + Column(i);
    && at + 2 <= |row| && (i % 2 == 1 ==> at + 2 < |row| && row[at + 2] == ' ')
    && if i < |c| then row[at] == LOWER[c[i] / 16] && row[at + 1] == LOWER[c[i] % 16] && row[|row| - w + i] == TextOf(c[i])
       else row[at] == row[at + 1] == row[|row| - w + i] == ' '
  }

  lemma RowShows(w: nat, sizer: nat, c: seq<Byte>)
    ensures Shows(Row(w, sizer, c), w, sizer, c)
  {
    hide Head, HexArea, Ascii, HexValue, Column, AllPrintable, ShowsByte;
    var row, head, area := Row(w, sizer, c), Head(sizer), HexArea(w, c, 0);
    HeadIs(sizer);
    RowIs(w, sizer, c);
    AreaLength(w, c, 0);
    ColumnZero();
    AsciiLength(w, c);
    var h := |head|;
    assert row[..h - 2] == head[..h - 2] && row[h - 2..h] == head[h - 2..];
    forall i: nat | i < w ensures ShowsByte(row, w, h, c, i) { ByteShown(w, sizer, c, i); }
  }

  lemma ByteShown(w: nat, sizer: nat, c: seq<Byte>, i: nat)
    requires i < w
    ensures |Row(w, sizer, c)| == |Head(sizer)| + Column(w) + 1 + w
    ensures ShowsByte(Row(w, sizer, c), w, |Head(sizer)|, c, i)
  {
    hide Head, HexArea, Ascii, Column, Cell, TextOf;
    AreaLength(w, c, 0);
    ColumnZero();
    AsciiLength(w, c);
    AreaAt(w, c, 0, i);
    TextAt(w, c, i);
    CellIs(c, i);
    RowAt(w, sizer, c, Column(i), i);
  }

  lemma RowAt(w: nat, sizer: nat, c: seq<Byte>, at: nat, i: nat)
    requires at + 2 <= |HexArea(w, c, 0)| && i < |Ascii(w, c)| == w
    ensures var (row, h, cell) := (Row(w, sizer, c), |Head(sizer)|, HexArea(w, c, 0)[at..at + 2]);
            && h + at + 2 < |row| && row[h + at] == cell[0] && row[h + at + 1] == cell[1]
            && (at + 2 < |HexArea(w, c, 0)| ==> row[h + at + 2] == HexArea(w, c, 0)[at + 2])
            && |row| >= w && row[|row| - w + i] == Ascii(w, c)[i]
  {
    hide Head, HexArea, Ascii;
  }

  lemma ColumnZero()
    ensures Column(0) == 0
  {
  }

  lemma HeadIs(sizer: nat)
    ensures var (head, h) := (Head(sizer), |Head(sizer)|);
            h >= 10 && (sizer < WORD ==> h == 10) && HexValue(head[..h - 2]) == Some(sizer) && head[h - 2..] == ": "
    ensures forall x :: 0 <= x < |Head(sizer)| - 2 ==> Head(sizer)[x] in LOWER
  {
    hide HexPad, HexValue;
    Pow16Eight();
    HexPadLength(sizer, 8);
    HexPadBack(sizer, 8);
    PadDigits(sizer, 8);
    assert Head(sizer)[..|Head(sizer)| - 2] == HexPad(sizer, 8);
  }

  // ----- the whole dump -----

  /** The lines of a text, each without the newline that ends it. */
  function Lines(s: string): seq<string> {
    if s == "" then []
    else if s[0] == '\n' then [""] + Lines(s[1..])
    else
      var more := Lines(s[1..]);
      if more == [] then [s[..1]] else [s[..1] + more[0]] + more[1..]
  }

  lemma {:induction false} LinesStep(row: string, s: string)
    requires AllPrintable(row)
    ensures Lines(row + "\n" + s) == [row] + Lines(s)
  {
    var t := row + "\n" + s;
    if row == "" {
      assert t[1..] == s;
    } else {
      LinesStep(row[1..], s);
      assert t[1..] == row[1..] + "\n" + s && t[..1] == row[..1] && row[..1] + row[1..] == row;
      assert Printable(row[0]);
    }
  }

  /** Line by line: the first shows the first `w` bytes, or all if there are no more, and so on. */
  ghost predicate ShowsAll(ls: seq<string>, w: nat, sizer: nat, data: seq<Byte>)
    requires w > 0
    decreases |data|
  {
    if data == [] then ls == []
    else if |data| <= w then |ls| == 1 && Shows(ls[0], w, sizer, data)
    else ls != [] && Shows(ls[0], w, sizer, data[..w]) && ShowsAll(ls[1..], w, sizer + w, data[w..])
  }

  /** Every line of a dump shows its bytes and ends in the one newline it has. */
  lemma {:induction false} DumpShows(data: seq<Byte>, w: nat, sizer: nat)
    requires w > 0
    ensures ShowsAll(Lines(Encoded(data, w, sizer)), w, sizer, data)
    ensures data != [] ==> var s := Encoded(data, w, sizer); s != "" && s[|s| - 1] == '\n'
    decreases |data|
  {
    hide Line, Lines, Row, Encoded, Shows;
    EncodedCases(data, w, sizer);
    NoLines();
    if data != [] {
      var c, rest := if |data| <= w then data else data[..w], if |data| <= w then [] else data[w..];
      var more := Encoded(rest, w, sizer + w);
      EncodedCases(rest, w, sizer + w);
      DumpShows(rest, w, sizer + w);
      RowIs(w, sizer, c);
      RowShows(w, sizer, c);
      LinesStep(Row(w, sizer, c), more);
      assert Encoded(data, w, sizer) == Row(w, sizer, c) + "\n" + more;
    }
  }

  lemma NoLines()
    ensures Lines("") == []
  {
  }

  /** The row that shows byte `n`, which is byte `i` of line `k`. */
  lemma {:induction false} RowOf(ls: seq<string>, data: seq<Byte>, w: nat, sizer: nat, k: nat, i: nat, n: nat)
    returns (c: seq<Byte>)
    requires n == k * w + i && i < w && n < |data| && ShowsAll(ls, w, sizer, data)
    ensures k < |ls| && Shows(ls[k], w, sizer + n - i, c)
    ensures i < |c| && c[i] == data[n]
    decreases k
  {
    hide Shows;
    Multiple(k, w);
    if k == 0 {
      c := if |data| <= w then data else data[..w];
    } else {
      c := RowOf(ls[1..], data[w..], w, sizer + w, k - 1, i, n - w);
    }
  }

  lemma Multiple(k: nat, w: nat)
    ensures if k == 0 then k * w == 0 else k * w == (k - 1) * w + w && (k - 1) * w >= 0
  {
  }

  /** Byte by byte: byte i of line k stands behind the offset of that line, in hexadecimal and as text, at its
      places. */
  lemma DumpAt(data: seq<Byte>, w: nat, k: nat, i: nat, n: nat)
    requires n == k * w + i && i < w && n < |data|
    ensures var ls := Lines(Encoded(data, w, 0));
            && k < |ls| && |ls[k]| >= w + 11 + Column(w)
            && var (row, h) := (ls[k], |ls[k]| - w - 1 - Column(w));
            && HexValue(row[..h - 2]) == Some(n - i)
            && h + Column(i) + 2 <= |row|
            && row[h + Column(i)] == LOWER[data[n] / 16] && row[h + Column(i) + 1] == LOWER[data[n] % 16]
            && row[|row| - w + i] == TextOf(data[n])
  {
    hide Lines, Encoded, Column, TextOf, HexValue, AllPrintable, ShowsAll;
    var ls := Lines(Encoded(data, w, 0));
    DumpShows(data, w, 0);
    var c := RowOf(ls, data, w, 0, k, i, n);
    var row := ls[k];
    assert ShowsByte(row, w, |row| - w - 1 - Column(w), c, i);
  }

  // ----- other input -----

  /** A byte as it is typed in column `i`: a space behind each pair. */
  function Key(b: Byte, i: nat): string { Two(b) + if i % 2 == 1 then " " else "" }

  /** Bytes as they are typed from column `i` on. */
  function Typed(c: seq<Byte>, i: nat): string
    decreases |c| - i
  {
    if i >= |c| then "" else Key(c[i], i) + Typed(c, i + 1)
  }

  lemma TypedStep(c: seq<Byte>, i: nat, t: string)
    ensures i >= |c| ==> Typed(c, i) == "" && Typed(c, i) + t == t
    ensures i < |c| ==> Typed(c, i) + t == Key(c[i], i) + (Typed(c, i + 1) + t)
  {
    hide Key;
    if i < |c| {
      var a, b := Key(c[i], i), Typed(c, i + 1);
      assert a + b + t == a + (b + t);
    }
  }

  lemma KeyBack(b: Byte, rest: string, tmp: string, i: nat, w: nat) returns (tmp': string)
    requires |tmp| == 2 && i + 1 < w
    ensures |tmp'| == 2
    ensures Cells(Key(b, i) + rest, tmp, i, i % 2, w) == Before(b, Cells(rest, tmp', i + 1, (i + 1) % 2, w))
  {
    hide Cells, Two;
    TwoLength(b);
    var gap := if i % 2 == 1 then " " else "";
    assert Key(b, i) + rest == Two(b) + (gap + rest);
    CellStep(b, gap + rest, tmp, i, i % 2, w);
    if i % 2 == 1 {
      SpaceStep(rest, Two(b), i + 1, 2, w);
      tmp' := " " + Two(b)[1..];
    } else {
      assert gap + rest == rest;
      tmp' := Two(b);
    }
  }

  /** Bytes that are typed are decoded, up to a place in their row, and nothing else is. */
  lemma {:induction false} TypedBack(w: nat, c: seq<Byte>, i: nat, t: string, tmp: string) returns (tmp': string)
    requires |tmp| == 2 && i <= |c| < w
    ensures |tmp'| == 2
    ensures var row := Cells(Typed(c, i) + t, tmp, i, i % 2, w);
            var rest := Cells(t, tmp', |c|, |c| % 2, w);
            row == rest.(out := c[i..] + rest.out)
    decreases |c| - i
  {
    hide Cells, Typed, Key;
    TypedStep(c, i, t);
    if i == |c| {
      tmp' := tmp;
      var row := Cells(t, tmp, i, i % 2, w);
      assert c[i..] + row.out == row.out;
    } else {
      var next := KeyBack(c[i], Typed(c, i + 1) + t, tmp, i, w);
      tmp' := TypedBack(w, c, i + 1, t, next);
      var rest := Cells(t, tmp', |c|, |c| % 2, w);
      assert c[i..] + rest.out == [c[i]] + (c[i + 1..] + rest.out);
    }
  }

  /** How a row of bytes ends in front of its width: at two blanks with status 0, at a pair that is no number
      with status 1, and without the space behind a pair with status 1. */
  lemma RowEnds(t: string, tmp: string, i: nat, j: nat, w: nat)
    requires |tmp| == 2 && |t| >= 2 && i < w && j <= 2
    ensures j < 2 && t[..2] == "  " ==> Cells(t, tmp, i, j, w) == Done([], 0)
    ensures j < 2 && t[..2] != "  " && HexValue(t[..2]).None? ==> Cells(t, tmp, i, j, w) == Done([], 1)
    ensures j == 2 && t[0] != ' ' ==> Cells(t, tmp, i, j, w) == Done([], 1)
  {
    hide HexValue;
    Reads(t[..2], t[2..], tmp);
    assert t[..2] + t[2..] == t && t[..2] + tmp[2..] == t[..2];
  }

  /** The decoder on a line that breaks off: the bytes in front of the break are written. */
  lemma BrokenLine(w: nat, sizer: nat, c: seq<Byte>, t: string, junk: nat -> Fresh, line: nat)
    requires |c| < w && sizer < WORD && |t| >= 2 && (t[..2] == "  " || HexValue(t[..2]).None?)
    ensures Decoded(Head(sizer) + (Typed(c, 0) + t), false, sizer, w, junk, line) ==
            Result(c, if t[..2] == "  " then 0 else 1)
  {
    hide Cells, HexValue, Head, Fill, Drop, Typed;
    HeadBack(sizer, Typed(c, 0) + t, junk(line));
    var tmp := TypedBack(w, c, 0, t, ": ");
    RowEnds(t, tmp, |c|, |c| % 2, w);
    assert c[0..] + [] == c;
  }

  /** The decoder on a line with another offset, or without its colon. */
  lemma BadHead(s: string, eoffset: nat, w: nat, junk: nat -> Fresh, line: nat)
    requires |s| >= 10 && w > 0 && (HexValue(s[..8]) != Some(eoffset) || s[8..10] != ": ")
    ensures Decoded(s, false, eoffset, w, junk, line) == Result([], 1)
  {
    hide Cells, HexValue;
    var j := junk(line);
    Reads(s[..8], s[8..], j.offset);
    assert s[..8] + s[8..] == s && s[..8] + j.offset[8..] == s[..8];
    Reads(s[8..10], s[10..], j.tmp);
    assert s[8..10] + s[10..] == s[8..] && s[8..10] + j.tmp[2..] == s[8..10];
  }

  /** A whole line: the width plus two characters behind the last space are passed over, whatever they are. */
  lemma AnyText(w: nat, sizer: nat, c: seq<Byte>, x: string, r: string, junk: nat -> Fresh, line: nat)
    requires |c| == w > 0 && sizer < WORD && |x| == w + 2
    ensures Decoded(Head(sizer) + (Typed(c, 0) + ((if w % 2 == 1 then " " else "") + (x + r))), false, sizer, w, junk, line) ==
            After(c, Decoded(r, false, sizer + w, w, junk, line + 1))
  {
    hide Cells, HexValue, Head, Typed, Fill;
    var gap := if w % 2 == 1 then " " else "";
    var t := Typed(c, 0) + (gap + (x + r));
    HeadBack(sizer, t, junk(line));
    WholeRow(w, c, x + r, ": ");
    assert Drop(x + r, 1) == x[1..] + r && Drop(x[1..] + r, w + 1) == r;
  }

  lemma WholeRow(w: nat, c: seq<Byte>, y: string, tmp: string)
    requires |c| == w > 0 && |tmp| == 2
    ensures Cells(Typed(c, 0) + ((if w % 2 == 1 then " " else "") + y), tmp, 0, 0, w) == More(c, y)
  {
    hide Cells, Two;
    var n, b := w - 1, c[w - 1];
    var t := Two(b) + (" " + y);
    TypedSnoc(c, 0, y);
    var tmp' := TypedBack(w, c[..n], 0, t, tmp);
    TwoLength(b);
    CellStep(b, " " + y, tmp', n, n % 2, w);
    SpaceStep(y, Two(b), w, n % 2 + 1, w);
    assert c[..n][0..] + ([b] + []) == c;
  }

  /** The last byte comes off; with it the space that ends the row. */
  lemma {:induction false} TypedSnoc(c: seq<Byte>, i: nat, y: string)
    requires i < |c|
    ensures var n := |c| - 1;
            Typed(c, i) + ((if |c| % 2 == 1 then " " else "") + y) == Typed(c[..n], i) + (Two(c[n]) + (" " + y))
    decreases |c| - i
  {
    hide Two, Typed, Key;
    var n, t := |c| - 1, (if |c| % 2 == 1 then " " else "") + y;
    TypedStep(c, i, t);
    TypedStep(c[..n], i, Two(c[n]) + (" " + y));
    if i == n {
      TypedStep(c, i + 1, t);
      LastKey(c[n], n, y);
    } else {
      TypedSnoc(c, i + 1, y);
    }
  }

  lemma LastKey(b: Byte, n: nat, y: string)
    ensures Key(b, n) + ((if (n + 1) % 2 == 1 then " " else "") + y) == Two(b) + (" " + y)
  {
    hide Two;
    if n % 2 == 1 {
      assert "" + y == y;
      assert Two(b) + " " + y == Two(b) + (" " + y);
    } else {
      assert Two(b) + "" == Two(b);
    }
  }
}
