/**
  hexify: the dump a byte string is printed as, what the decoder emits for any input, and when
  the second undoes the first.
 */
module Hexify {
  import opened Common

  type Byte = x: int | 0 <= x < 256

  // ----- numbers in hexadecimal -----

  function FromDigit(c: char): Option<nat> {
    if '0' <= c <= '9' then Some((c - '0') as int)
    else if 'A' <= c <= 'F' then Some((c - 'A') as int + 10)
    else if 'a' <= c <= 'f' then Some((c - 'a') as int + 10)
    else None
  }

  /** `%0kx`: at least `k` digits. */
  function HexPad(n: nat, k: nat): string
    decreases n, k
  {
    if n == 0 && k == 0 then "" else HexPad(n / 16, if k == 0 then 0 else k - 1) + [Digit(n % 16)]
  }

  /** `%02x` of a byte. */
  function Two(b: Byte): string {
    [Digit(b / 16), Digit(b % 16)]
  }

  function HexValue(s: string): Option<nat> {
    if s == "" then Some(0)
    else
      var high, low := HexValue(s[..|s| - 1]), FromDigit(s[|s| - 1]);
      if high.None? || low.None? then None else Some(16 * high.value + low.value)
  }

  function Pow16(k: nat): nat { if k == 0 then 1 else 16 * Pow16(k - 1) }

  const WORD := 0x1_0000_0000

  lemma DigitBack(d: int)
    requires 0 <= d < 16
    ensures FromDigit(Digit(d)) == Some(d)
    ensures Digit(d) != ' ' && Digit(d) != ':'
  {
  }

  lemma TwoBack(b: Byte)
    ensures HexValue(Two(b)) == Some(b) && Two(b) != "  "
  {
    DigitBack(b / 16);
    DigitBack(b % 16);
    var s := Two(b);
    assert s[..1] == [Digit(b / 16)] && s[..1][..0] == "";
    assert HexValue(s[..1]) == Some(b / 16);
  }

  lemma HexValueSnoc(s: string, d: int)
    requires 0 <= d < 16 && HexValue(s).Some?
    ensures HexValue(s + [Digit(d)]) == Some(16 * HexValue(s).value + d)
  {
    hide Digit, FromDigit;
    DigitBack(d);
    var t := s + [Digit(d)];
    assert t[..|t| - 1] == s;
  }

  lemma {:induction false} HexPadBack(n: nat, k: nat)
    ensures HexValue(HexPad(n, k)) == Some(n)
    decreases n, k
  {
    hide Digit, FromDigit, HexValue;
    if n == 0 && k == 0 {
      Empty();
    } else {
      var m := if k == 0 then 0 else k - 1;
      HexPadBack(n / 16, m);
      HexValueSnoc(HexPad(n / 16, m), n % 16);
    }
  }

  lemma Empty()
    ensures HexValue("") == Some(0)
  {
  }

  lemma {:induction false} HexPadLength(n: nat, k: nat)
    ensures if n < Pow16(k) then |HexPad(n, k)| == k else |HexPad(n, k)| > k
    decreases n, k
  {
    if n != 0 || k != 0 {
      var m := if k == 0 then 0 else k - 1;
      HexPadLength(n / 16, m);
      assert k > 0 ==> (n < 16 * Pow16(m) <==> n / 16 < Pow16(m));
    }
  }

  lemma {:induction false} HexPadHex(n: nat, k: nat)
    ensures forall i :: 0 <= i < |HexPad(n, k)| ==> FromDigit(HexPad(n, k)[i]).Some?
    decreases n, k
  {
    if n != 0 || k != 0 {
      HexPadHex(n / 16, if k == 0 then 0 else k - 1);
      DigitBack(n % 16);
    }
  }

  lemma {:induction false} HexValueBound(s: string)
    ensures HexValue(s).Some? ==> HexValue(s).value < Pow16(|s|)
  {
    if s != "" { HexValueBound(s[..|s| - 1]); }
  }

  lemma Pow16Eight()
    ensures Pow16(8) == WORD
  {
    assert Pow16(3) == 4096;
    assert Pow16(6) == 16777216;
  }

  /** A string with a character that is no digit is refused. */
  lemma {:induction false} HexValueNone(s: string, i: nat)
    requires i < |s| && FromDigit(s[i]).None?
    ensures HexValue(s).None?
  {
    if i < |s| - 1 { HexValueNone(s[..|s| - 1], i); }
  }

  // ----- the dump -----

  function Cell(c: seq<Byte>, i: nat): string {
    if i < |c| then Two(c[i]) else "  "
  }

  /** The hexadecimal columns from `i` on: pairs followed by a space, and a lone last byte with none. */
  function HexArea(w: nat, c: seq<Byte>, i: nat): string
    decreases w - i
  {
    if i >= w then ""
    else if i + 1 == w then Cell(c, i)
    else Cell(c, i) + Cell(c, i + 1) + " " + HexArea(w, c, i + 2)
  }

  function AsciiCell(c: seq<Byte>, i: nat): char {
    if i >= |c| then ' ' else if 0x20 <= c[i] <= 0x7E then c[i] as char else '.'
  }

  function Ascii(w: nat, c: seq<Byte>): string {
    seq(w, i requires 0 <= i < w => AsciiCell(c, i))
  }

  function Head(sizer: nat): string { HexPad(sizer, 8) + ": " }

  function Line(w: nat, sizer: nat, c: seq<Byte>): string {
    Head(sizer) + (HexArea(w, c, 0) + (" " + (Ascii(w, c) + "\n")))
  }

  function Encoded(data: seq<Byte>, w: nat, sizer: nat): string
    requires w > 0
    decreases |data|
  {
    if data == [] then ""
    else if |data| <= w then Line(w, sizer, data)
    else Line(w, sizer, data[..w]) + Encoded(data[w..], w, sizer + w)
  }

  // ----- the decoder, on any input -----

  function Min(a: nat, b: nat): nat { if a < b then a else b }

  /** A buffer after `fread` asked for `n` characters: what was left over stays. */
  function Fill(buf: string, s: string, n: nat): (r: string)
    requires n <= |buf|
    ensures |r| == |buf|
  {
    s[..Min(n, |s|)] + buf[Min(n, |s|)..]
  }

  function Drop(s: string, n: nat): string { s[Min(n, |s|)..] }

  /** How the row of bytes ended: by a return with an exit status, or with more input to read. */
  datatype Row = Done(out: seq<Byte>, status: nat) | More(out: seq<Byte>, rest: string)

  function Before(b: Byte, r: Row): Row {
    r.(out := [b] + r.out)
  }

  /** The loop over the bytes of a line; `j` is the place within a pair. */
  function Cells(s: string, tmp: string, i: nat, j: nat, w: nat): Row
    requires |tmp| == 2 && i <= w && j <= 2
    decreases w - i, j
  {
    if i < w && j < 2 then
      var t := Fill(tmp, s, 2);
      if t == "  " then Done([], 0)
      else if HexValue(t).None? then Done([], 1)
      else
        HexValueBound(t);
        assert Pow16(2) == 256;
        Before(HexValue(t).value, Cells(Drop(s, 2), t, i + 1, j + 1, w))
    else
      var t := Fill(tmp, s, 1);
      if t[0] != ' ' then Done([], 1)
      else if i < w then Cells(Drop(s, 1), t, i, 0, w)
      else More([], Drop(s, 1))
  }

  /** What the two buffers of a line hold before anything is read into them. */
  datatype Junk = Junk(offset: string, tmp: string) {
    predicate Valid() { |offset| == 8 && |tmp| == 2 }
  }

  type Fresh = j: Junk | j.Valid() witness Junk("00000000", "00")

  datatype Result = Result(out: seq<Byte>, status: nat)

  function After(out: seq<Byte>, r: Result): Result {
    r.(out := out + r.out)
  }

  /** The loop over the lines. */
  function Decoded(s: string, eof: bool, eoffset: nat, w: nat, junk: nat -> Fresh, line: nat): Result
    requires w > 0
    decreases |s|, !eof
  {
    if eof then Result([], 0)
    else
      var offset, tmp := Fill(junk(line).offset, s, 8), Fill(junk(line).tmp, Drop(s, 8), 2);
      if HexValue(offset) != Some(eoffset) || tmp != ": " then Result([], 1)
      else
        var row := Cells(Drop(Drop(s, 8), 2), tmp, 0, 0, w);
        CellsShrink(Drop(Drop(s, 8), 2), tmp, 0, 0, w);
        if row.Done? then Result(row.out, row.status)
        else
          var last := Drop(row.rest, 1);
          After(row.out, Decoded(Drop(last, w + 1), |last| < w + 1, eoffset + w, w, junk, line + 1))
  }

  lemma {:induction false} CellsShrink(s: string, tmp: string, i: nat, j: nat, w: nat)
    requires |tmp| == 2 && i <= w && j <= 2
    ensures Cells(s, tmp, i, j, w).More? ==> |Cells(s, tmp, i, j, w).rest| <= |s|
    decreases w - i, j
  {
    if i < w && j < 2 {
      CellsShrink(Drop(s, 2), Fill(tmp, s, 2), i + 1, j + 1, w);
    } else if i < w {
      CellsShrink(Drop(s, 1), Fill(tmp, s, 1), i, 0, w);
    }
  }

  // ----- decoding the dump -----

  lemma Reads(a: string, b: string, buf: string)
    requires |a| <= |buf|
    ensures Fill(buf, a + b, |a|) == a + buf[|a|..]
    ensures Drop(a + b, |a|) == b
  {
  }

  lemma CellStep(b: Byte, t: string, tmp: string, i: nat, j: nat, w: nat)
    requires |tmp| == 2 && i < w && j < 2
    ensures Cells(Two(b) + t, tmp, i, j, w) == Before(b, Cells(t, Two(b), i + 1, j + 1, w))
  {
    hide Two, HexValue;
    assert |Two(b)| == 2 by { TwoLength(b); }
    Reads(Two(b), t, tmp);
    assert Two(b) + tmp[2..] == Two(b);
    TwoBack(b);
  }

  lemma TwoLength(b: Byte)
    ensures |Two(b)| == 2
  {
  }

  lemma BlankStep(t: string, tmp: string, i: nat, j: nat, w: nat)
    requires |tmp| == 2 && i < w && j < 2
    ensures Cells("  " + t, tmp, i, j, w) == Done([], 0)
  {
    Reads("  ", t, tmp);
  }

  lemma SpaceStep(t: string, tmp: string, i: nat, j: nat, w: nat)
    requires |tmp| == 2 && j <= 2 && (i == w || (i < w && j == 2))
    ensures Cells(" " + t, tmp, i, j, w) == if i < w then Cells(t, " " + tmp[1..], i, 0, w) else More([], t)
  {
    Reads(" ", t, tmp);
  }

  /** What is left of a line once its columns are read: an odd width takes the separator with them. */
  function Left(w: nat, t: string): string { if w % 2 == 0 then " " + t else t }

  /** The columns give back the bytes, up to the first blank. */
  lemma {:induction false} CellsBack(w: nat, c: seq<Byte>, i: nat, t: string, tmp: string)
    requires |tmp| == 2 && i <= |c| <= w && i < w && i % 2 == 0
    ensures Cells(HexArea(w, c, i) + (" " + t), tmp, i, 0, w) ==
            if |c| < w then Done(c[i..], 0) else More(c[i..], Left(w, t))
    decreases w - i
  {
    hide Cells, Two;
    var tail := " " + t;
    if i == |c| {
      Blank(w, c, i, tail);
      BlankStep((HexArea(w, c, i) + tail)[2..], tmp, i, 0, w);
    } else if i + 1 == w {
      CellStep(c[i], tail, tmp, i, 0, w);
      TwoLength(c[i]);
      SpaceStep(t, Two(c[i]), i + 1, 1, w);
      assert c[i..] == [c[i]] + [];
    } else {
      PairBack(w, c, i, t, tmp);
    }
  }

  lemma Blank(w: nat, c: seq<Byte>, i: nat, tail: string)
    requires |c| <= i < w
    ensures |HexArea(w, c, i)| >= 2 && HexArea(w, c, i) + tail == "  " + (HexArea(w, c, i) + tail)[2..]
  {
  }

  lemma PairArea(w: nat, c: seq<Byte>, i: nat, tail: string)
    requires i < |c| <= w && i + 1 < w
    ensures HexArea(w, c, i) + tail == Two(c[i]) + (Cell(c, i + 1) + (" " + (HexArea(w, c, i + 2) + tail)))
  {
    hide Two;
    var h := HexArea(w, c, i + 2);
    assert HexArea(w, c, i) == Two(c[i]) + Cell(c, i + 1) + " " + h;
    assert Two(c[i]) + Cell(c, i + 1) + " " + h + tail == Two(c[i]) + (Cell(c, i + 1) + (" " + (h + tail)));
  }

  lemma PairBack(w: nat, c: seq<Byte>, i: nat, t: string, tmp: string)
    requires |tmp| == 2 && i < |c| <= w && i + 1 < w && i % 2 == 0
    ensures Cells(HexArea(w, c, i) + (" " + t), tmp, i, 0, w) ==
            if |c| < w then Done(c[i..], 0) else More(c[i..], Left(w, t))
    decreases w - i, 0
  {
    hide Cells, Two, HexArea;
    var tail := " " + t;
    var after := " " + (HexArea(w, c, i + 2) + tail);
    PairArea(w, c, i, tail);
    TwoLength(c[i]);
    CellStep(c[i], Cell(c, i + 1) + after, tmp, i, 0, w);
    if i + 1 == |c| {
      BlankStep(after, Two(c[i]), i + 1, 1, w);
      assert c[i..] == [c[i]] + [];
    } else {
      var u := Two(c[i + 1]);
      TwoLength(c[i + 1]);
      CellStep(c[i + 1], after, Two(c[i]), i + 1, 1, w);
      SpaceStep(HexArea(w, c, i + 2) + tail, u, i + 2, 2, w);
      if i + 2 < w {
        CellsBack(w, c, i + 2, t, " " + u[1..]);
      } else {
        AreaEnd(w, c, i + 2, tail);
      }
      assert c[i..] == [c[i]] + ([c[i + 1]] + c[i + 2..]);
    }
  }

  lemma AreaEnd(w: nat, c: seq<Byte>, i: nat, tail: string)
    requires i == w
    ensures HexArea(w, c, i) + tail == tail
  {
  }

  /** The offset and the colon of a line, whatever the buffers held. */
  lemma HeadBack(sizer: nat, t: string, j: Fresh)
    requires sizer < WORD
    ensures HexValue(Fill(j.offset, Head(sizer) + t, 8)) == Some(sizer)
    ensures Fill(j.tmp, Drop(Head(sizer) + t, 8), 2) == ": "
    ensures Drop(Drop(Head(sizer) + t, 8), 2) == t
  {
    hide HexValue, HexPad;
    Pow16Eight();
    HexPadLength(sizer, 8);
    HexPadBack(sizer, 8);
    var h := HexPad(sizer, 8);
    assert Head(sizer) + t == h + (": " + t);
    Reads(h, ": " + t, j.offset);
    assert h + j.offset[8..] == h;
    Reads(": ", t, j.tmp);
  }

  /** An offset of nine digits or more is never the one expected. */
  lemma HeadTooLong(sizer: nat, t: string, j: Fresh)
    requires sizer >= WORD
    ensures HexValue(Fill(j.offset, Head(sizer) + t, 8)) != Some(sizer)
  {
    hide HexValue, HexPad;
    Pow16Eight();
    HexPadLength(sizer, 8);
    HexValueBound(Fill(j.offset, Head(sizer) + t, 8));
  }

  /** A line whose first character is gone has the colon among its offset digits. */
  lemma HeadShifted(sizer: nat, t: string, j: Fresh)
    requires sizer < WORD
    ensures HexValue(Fill(j.offset, Drop(Head(sizer) + t, 1), 8)).None?
  {
    hide HexValue, HexPad;
    Pow16Eight();
    HexPadLength(sizer, 8);
    var s := Drop(Head(sizer) + t, 1);
    assert s[7] == ':';
    HexValueNone(Fill(j.offset, s, 8), 7);
  }

  /** Past the last line nothing more is emitted, whatever the buffers held, and the exit status is 1. */
  lemma EndBack(eoffset: nat, w: nat, junk: nat -> Fresh, line: nat)
    requires w > 0
    ensures Decoded("", false, eoffset, w, junk, line) == Result([], 1)
  {
    assert Fill(": ", "", 2) == ": ";
    HexValueNone(": ", 0);
  }

  /** What follows a line: an odd width has eaten one character of it. */
  function Following(r: string, eoffset: nat, w: nat, junk: nat -> Fresh, line: nat): Result
    requires w > 0
  {
    if w % 2 == 0 then Decoded(r, false, eoffset, w, junk, line)
    else Decoded(Drop(r, 1), r == "", eoffset, w, junk, line)
  }

  lemma LineTail(w: nat, c: seq<Byte>, r: string)
    requires w > 0
    ensures var last := Drop(Left(w, Ascii(w, c) + "\n" + r), 1);
            if w % 2 == 0 then |last| >= w + 1 && Drop(last, w + 1) == r
            else (|last| < w + 1 <==> r == "") && Drop(last, w + 1) == Drop(r, 1)
  {
    hide AsciiCell;
    var a := Ascii(w, c) + "\n";
    assert |a| == w + 1;
    if w % 2 == 0 {
      assert Drop(" " + (a + r), 1) == a + r;
      assert Drop(a + r, w + 1) == r;
    } else {
      var last := Drop(a + r, 1);
      assert |last| == w + |r|;
      if r == "" {
        assert Drop(last, w + 1) == "" == Drop(r, 1);
      } else {
        assert Drop(last, w + 1) == Drop(r, 1);
      }
    }
  }

  /** One line of the dump. */
  lemma LineBack(w: nat, sizer: nat, c: seq<Byte>, r: string, junk: nat -> Fresh, line: nat)
    requires 0 < |c| <= w && sizer < WORD
    ensures Decoded(Line(w, sizer, c) + r, false, sizer, w, junk, line) ==
            if |c| < w then Result(c, 0) else After(c, Following(r, sizer + w, w, junk, line + 1))
  {
    hide Cells, HexArea, HexValue, Head, Ascii, Fill, Drop;
    var t := Ascii(w, c) + "\n" + r;
    var cells := HexArea(w, c, 0) + (" " + t);
    assert Line(w, sizer, c) + r == Head(sizer) + cells by { LineSplit(w, sizer, c, r); }
    HeadBack(sizer, cells, junk(line));
    CellsBack(w, c, 0, t, ": ");
    assert c[0..] == c;
    LineTail(w, c, r);
  }

  lemma LineSplit(w: nat, sizer: nat, c: seq<Byte>, r: string)
    ensures Line(w, sizer, c) + r == Head(sizer) + (HexArea(w, c, 0) + (" " + (Ascii(w, c) + "\n" + r)))
  {
    hide HexArea, Head, Ascii;
    var h, a, b := Head(sizer), HexArea(w, c, 0), Ascii(w, c);
    assert h + (a + (" " + (b + "\n"))) + r == h + (a + (" " + (b + "\n" + r)));
  }

  // ----- the whole dump -----

  /** The offset printed on the last line of `n` bytes. */
  function LastOffset(n: nat, w: nat): nat
    requires w > 0
  {
    if n <= w then 0 else w + LastOffset(n - w, w)
  }

  lemma {:induction false} LastOffsetIs(n: nat, w: nat)
    requires n > 0 && w > 0
    ensures LastOffset(n, w) == (n - 1) / w * w
  {
    if n > w {
      LastOffsetIs(n - w, w);
      LessOne(n - 1, w);
      assert ((n - 1) / w - 1) * w + w == (n - 1) / w * w;
    }
  }

  lemma LessOne(m: nat, w: nat)
    requires 0 < w <= m
    ensures (m - w) / w == m / w - 1 && (m - w) % w == m % w
  {
    assert m == (m / w) * w + m % w;
    assert m - w == (m / w - 1) * w + m % w;
    DivUnique(m - w, w, m / w - 1, m % w);
  }

  lemma DivUnique(a: nat, w: nat, q: nat, r: nat)
    requires w > 0 && r < w && a == q * w + r
    ensures a / w == q && a % w == r
  {
    QuotientUnique(a / w, a % w, q, r, w);
  }

  lemma QuotientUnique(q: int, r: int, p: int, s: int, w: int)
    requires q * w + r == p * w + s && 0 <= r < w && 0 <= s < w
    ensures q == p && r == s
  {
    if q > p { AtLeast(q - p, w); }
    if p > q { AtLeast(p - q, w); }
  }

  lemma AtLeast(d: int, w: int)
    requires d >= 1 && w > 0
    ensures d * w >= w
  {
  }

  /** `n` bytes fill their last line. */
  predicate Whole(n: nat, w: nat)
    requires w > 0
  {
    n == 0 || (n >= w && Whole(n - w, w))
  }

  lemma {:induction false} WholeIs(n: nat, w: nat)
    requires w > 0
    ensures Whole(n, w) <==> n % w == 0
  {
    if n >= w {
      WholeIs(n - w, w);
      LessOne(n, w);
    } else {
      DivUnique(n, w, 0, n);
    }
  }

  /** What a dump of even width is decoded to. */
  ghost predicate EvenResult(data: seq<Byte>, w: nat, sizer: nat, r: Result)
    requires w > 0
  {
    if data == [] || sizer + LastOffset(|data|, w) < WORD
    then r == Result(data, if Whole(|data|, w) then 1 else 0)
    else |r.out| < |data| && r.out == data[..|r.out|] && r.status == 1
  }

  lemma EvenLonger(data: seq<Byte>, w: nat, sizer: nat, r: Result)
    requires |data| > w > 0 && EvenResult(data[w..], w, sizer + w, r)
    ensures EvenResult(data, w, sizer, After(data[..w], r))
  {
    var n, rest := |r.out|, data[w..];
    assert data[..w] + rest == data;
    if n < |rest| { assert data[..w] + rest[..n] == data[..w + n]; }
  }

  /** An even width: everything comes back exactly when no offset outgrows its eight digits. */
  lemma {:induction false} EvenBack(data: seq<Byte>, w: nat, sizer: nat, junk: nat -> Fresh, line: nat)
    requires w > 0 && w % 2 == 0
    requires data != [] ==> sizer < WORD
    ensures EvenResult(data, w, sizer, Decoded(Encoded(data, w, sizer), false, sizer, w, junk, line))
    decreases |data|
  {
    hide Decoded, Line, After;
    if data == [] {
      EndBack(sizer, w, junk, line);
    } else if |data| <= w {
      EvenLast(data, w, sizer, junk, line);
    } else {
      EvenFirst(data, w, sizer, junk, line);
    }
  }

  lemma EvenLast(data: seq<Byte>, w: nat, sizer: nat, junk: nat -> Fresh, line: nat)
    requires w % 2 == 0 && 0 < |data| <= w && sizer < WORD
    ensures EvenResult(data, w, sizer, Decoded(Encoded(data, w, sizer), false, sizer, w, junk, line))
  {
    hide Decoded, Line, Encoded;
    EncodedCases(data, w, sizer);
    assert Line(w, sizer, data) + "" == Line(w, sizer, data);
    LineBack(w, sizer, data, "", junk, line);
    EndBack(sizer + w, w, junk, line + 1);
    assert data + [] == data;
    assert Whole(0, w);
  }

  lemma EvenFirst(data: seq<Byte>, w: nat, sizer: nat, junk: nat -> Fresh, line: nat)
    requires w > 0 && w % 2 == 0 && |data| > w && sizer < WORD
    ensures EvenResult(data, w, sizer, Decoded(Encoded(data, w, sizer), false, sizer, w, junk, line))
    decreases |data|, 0
  {
    hide Decoded, Line, After, EvenResult;
    var rest := data[w..];
    var r := Decoded(Encoded(rest, w, sizer + w), false, sizer + w, w, junk, line + 1);
    LineBack(w, sizer, data[..w], Encoded(rest, w, sizer + w), junk, line);
    if sizer + w < WORD {
      EvenBack(rest, w, sizer + w, junk, line + 1);
    } else {
      TooLong(rest, w, sizer + w, junk, line + 1);
      NoneLeft(rest, w, sizer + w);
    }
    EvenLonger(data, w, sizer, r);
  }

  lemma NoneLeft(data: seq<Byte>, w: nat, sizer: nat)
    requires w > 0 && data != [] && sizer >= WORD
    ensures EvenResult(data, w, sizer, Result([], 1))
  {
    assert data[..0] == [];
  }

  lemma TooLong(data: seq<Byte>, w: nat, sizer: nat, junk: nat -> Fresh, line: nat)
    requires w > 0 && data != [] && sizer >= WORD
    ensures Decoded(Encoded(data, w, sizer), false, sizer, w, junk, line) == Result([], 1)
  {
    hide Cells, HexValue, Head, Fill, Drop, HexArea, Ascii;
    var t := Opening(data, w, sizer);
    HeadTooLong(sizer, t, junk(line));
  }

  /** A dump opens with the offset of its first line. */
  lemma Opening(data: seq<Byte>, w: nat, sizer: nat) returns (t: string)
    requires w > 0 && data != []
    ensures Encoded(data, w, sizer) == Head(sizer) + t
  {
    hide HexArea, Head, Ascii;
    var c, r := if |data| <= w then data else data[..w], if |data| <= w then "" else Encoded(data[w..], w, sizer + w);
    LineSplit(w, sizer, c, r);
    assert Line(w, sizer, c) + "" == Line(w, sizer, c);
    t := HexArea(w, c, 0) + (" " + (Ascii(w, c) + "\n" + r));
  }

  /** An odd width: the decoder loses its place in the second line. */
  lemma OddBack(data: seq<Byte>, w: nat, junk: nat -> Fresh)
    requires 0 < w <= 256 && w % 2 == 1
    ensures Decoded(Encoded(data, w, 0), false, 0, w, junk, 1) ==
            if |data| <= w then Result(data, if data == [] then 1 else 0) else Result(data[..w], 1)
  {
    hide Decoded, Line, Encoded, After, Following, Drop;
    if data == [] {
      assert Encoded(data, w, 0) == "" by { EncodedCases(data, w, 0); }
      EndBack(0, w, junk, 1);
    } else if |data| <= w {
      EncodedCases(data, w, 0);
      assert Line(w, 0, data) + "" == Line(w, 0, data);
      LineBack(w, 0, data, "", junk, 1);
      Ended("", w, w, junk, 2);
      AfterNone(data, w, junk);
    } else {
      EncodedCases(data, w, 0);
      LineBack(w, 0, data[..w], Encoded(data[w..], w, w), junk, 1);
      Shifted(data[w..], w, w, junk, 2);
      AfterNone(data[..w], w, junk);
    }
  }

  lemma EncodedCases(data: seq<Byte>, w: nat, sizer: nat)
    requires w > 0
    ensures data == [] ==> Encoded(data, w, sizer) == ""
    ensures 0 < |data| <= w ==> Encoded(data, w, sizer) == Line(w, sizer, data)
    ensures |data| > w ==> Encoded(data, w, sizer) == Line(w, sizer, data[..w]) + Encoded(data[w..], w, sizer + w)
  {
    hide Line;
  }

  lemma AfterNone(out: seq<Byte>, w: nat, junk: nat -> Fresh)
    requires w > 0
    ensures forall status: nat :: After(out, Result([], status)) == Result(out, status)
    ensures w % 2 == 1 ==> Following("", w, w, junk, 2) == Result([], 0)
  {
    assert out + [] == out;
    if w % 2 == 1 { Ended(Drop("", 1), w, w, junk, 2); }
  }

  lemma Ended(s: string, eoffset: nat, w: nat, junk: nat -> Fresh, line: nat)
    requires w > 0
    ensures Decoded(s, true, eoffset, w, junk, line) == Result([], 0)
    ensures Drop("", 1) == ""
  {
  }

  lemma Shifted(data: seq<Byte>, w: nat, sizer: nat, junk: nat -> Fresh, line: nat)
    requires w > 0 && w % 2 == 1 && data != [] && sizer < WORD
    ensures Following(Encoded(data, w, sizer), sizer, w, junk, line) == Result([], 1)
  {
    hide Cells, HexValue, HexPad, Fill, Drop, HexArea, Ascii;
    var t := Opening(data, w, sizer);
    assert |Head(sizer)| > 0;
    HeadShifted(sizer, t, junk(line));
  }

  /** Decoding a dump gives back the bytes exactly when it fits one line, or the width is even and
      the last offset has eight digits. */
  lemma RoundTripIff(data: seq<Byte>, w: nat, junk: nat -> Fresh)
    requires 0 < w <= 256
    ensures Decoded(Encoded(data, w, 0), false, 0, w, junk, 1).out == data <==>
            |data| <= w || (w % 2 == 0 && (|data| - 1) / w * w < WORD)
  {
    hide Decoded, Encoded;
    if w % 2 == 0 {
      EvenBack(data, w, 0, junk, 1);
    } else {
      OddBack(data, w, junk);
    }
    if data != [] { LastOffsetIs(|data|, w); }
  }

  /** The exit status is 0 exactly when the bytes came back and the reader met the end inside a line:
      a dump of whole lines of even width is decoded in full and still reported as a failure. */
  lemma StatusIff(data: seq<Byte>, w: nat, junk: nat -> Fresh)
    requires 0 < w <= 256
    ensures var r := Decoded(Encoded(data, w, 0), false, 0, w, junk, 1);
            r.status == 0 <==> r.out == data && data != [] && (|data| % w != 0 || w % 2 == 1)
  {
    hide Decoded, Encoded;
    WholeIs(|data|, w);
    if w % 2 == 0 {
      EvenBack(data, w, 0, junk, 1);
    } else {
      OddBack(data, w, junk);
    }
  }

  /** Any byte string shorter than four gigabytes survives at an even width. */
  lemma RoundTrip(data: seq<Byte>, w: nat, junk: nat -> Fresh)
    requires 0 < w <= 256 && w % 2 == 0 && |data| < WORD
    ensures Decoded(Encoded(data, w, 0), false, 0, w, junk, 1).out == data
  {
    hide Decoded, Encoded;
    EvenBack(data, w, 0, junk, 1);
    if data != [] { LastOffsetUnder(|data|, w); }
  }

  lemma {:induction false} LastOffsetUnder(n: nat, w: nat)
    requires n > 0 && w > 0
    ensures LastOffset(n, w) < n
  {
    if n > w { LastOffsetUnder(n - w, w); }
  }
}
