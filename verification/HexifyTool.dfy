/** hexify as it runs: streams, buffers and loops. */
module HexifyTool {
  import opened Common
  import opened Hexify

  /** A `FILE` open for reading. */
  class Stream<T> {
    var rest: seq<T>
    var eof: bool

    ghost predicate Valid()
      reads this
    {
      eof ==> rest == []
    }

    constructor (data: seq<T>)
      ensures Valid() && rest == data && !eof
    {
      rest, eof := data, false;
    }

    /** `fread(buf + at, 1, n, f)`: only a short read raises the end-of-file mark. */
    method Read(buf: array<T>, at: nat, n: nat) returns (r: nat)
      requires Valid() && at + n <= buf.Length
      modifies this, buf
      ensures Valid()
      ensures r == if n < |old(rest)| then n else |old(rest)|
      ensures rest == old(rest)[r..] && (n > 0 ==> eof == (r < n))
      ensures buf[..at] == old(buf[..at]) && buf[at..at + r] == old(rest)[..r] && buf[at + r..] == old(buf[at + r..])
    {
      r := 0;
      while r < n && r < |rest|
        invariant 0 <= r <= n && r <= |rest|
        invariant buf[..at] == old(buf[..at]) && buf[at + r..] == old(buf[at + r..])
        invariant buf[at..at + r] == rest[..r]
        modifies buf
      {
        buf[at + r] := rest[r];
        r := r + 1;
      }
      rest := rest[r..];
      if r < n { eof := true; }
    }
  }

  // ----- encoding -----

  lemma PairStep(w: nat, c: seq<Byte>, i: nat, out: string)
    requires i + 1 < w
    ensures out + HexArea(w, c, i) == out + Cell(c, i) + Cell(c, i + 1) + " " + HexArea(w, c, i + 2)
  {
    hide Cell;
  }

  /** The first loop of `print_line`. */
  method HexColumns(buf: array<Byte>, width: nat, offset: nat) returns (out: string)
    requires offset <= width == buf.Length
    ensures out == HexArea(width, buf[..offset], 0)
  {
    hide Two;
    ghost var c := buf[..offset];
    out := "";
    var i := 0;
    while i < width
      invariant 0 <= i <= width
      invariant out + HexArea(width, c, i) == HexArea(width, c, 0)
    {
      ghost var was := out;
      out := out + (if i >= offset then "  " else Two(buf[i]));
      assert out == was + Cell(c, i);
      i := i + 1;
      if i == width { return; }
      PairStep(width, c, i - 1, was);
      out := out + (if i >= offset then "  " else Two(buf[i])) + " ";
      assert out == was + Cell(c, i - 1) + Cell(c, i) + " ";
      i := i + 1;
    }
    AreaEnd(width, c, i, "");
  }

  /** The second loop of `print_line`. */
  method AsciiColumns(buf: array<Byte>, width: nat, offset: nat) returns (out: string)
    requires offset <= width == buf.Length
    ensures out == Ascii(width, buf[..offset])
  {
    out := "";
    var i := 0;
    while i < width
      invariant 0 <= i <= width
      invariant out == Ascii(width, buf[..offset])[..i]
    {
      if i >= offset {
        out := out + " ";
      } else if 0x20 <= buf[i] <= 0x7E {
        out := out + [buf[i] as char];
      } else {
        out := out + ".";
      }
      i := i + 1;
    }
  }

  /** `print_line`. */
  method PrintLine(buf: array<Byte>, width: nat, sizer: nat, offset: nat) returns (out: string)
    requires offset <= width == buf.Length
    ensures out == Line(width, sizer, buf[..offset])
  {
    var columns := HexColumns(buf, width, offset);
    var text := AsciiColumns(buf, width, offset);
    out := Head(sizer) + (columns + (" " + (text + "\n")));
  }

  /** Converting to hexadecimal: the file is printed line by line. */
  method Encode(f: Stream<Byte>, width: nat) returns (out: string)
    requires f.Valid() && width > 0 && !f.eof
    modifies f
    ensures out == Encoded(old(f.rest), width, 0) && f.rest == []
  {
    hide Line;
    ghost var data := f.rest;
    var sizer, offset := 0, 0;
    var buf := new Byte[width](_ => 0);
    out := "";
    assert buf[..offset] + f.rest == data;
    while !f.eof
      invariant f.Valid() && offset < width && (offset > 0 ==> f.eof)
      invariant out + Encoded(buf[..offset] + f.rest, width, sizer) == Encoded(data, width, 0)
      decreases |f.rest|, !f.eof
    {
      ghost var left := f.rest;
      assert buf[..offset] + left == left;
      var r := f.Read(buf, offset, width - offset);
      offset := offset + r;
      assert buf[..offset] == left[..offset];
      assert buf[..offset] + f.rest == left;
      if offset == width {
        var line := PrintLine(buf, width, sizer, offset);
        EncodedStep(left, width, sizer);
        assert out + line + Encoded(left[width..], width, sizer + width) == out + (line + Encoded(left[width..], width, sizer + width));
        out := out + line;
        offset := 0;
        sizer := sizer + width;
        assert buf[..offset] + f.rest == left[width..];
      }
    }
    assert buf[..offset] + f.rest == buf[..offset];
    EncodedCases(buf[..offset], width, sizer);
    if offset != 0 {
      var line := PrintLine(buf, width, sizer, offset);
      out := out + line;
    }
  }

  /** A full line first, also when nothing follows it. */
  lemma EncodedStep(data: seq<Byte>, w: nat, sizer: nat)
    requires |data| >= w > 0
    ensures Encoded(data, w, sizer) == Line(w, sizer, data[..w]) + Encoded(data[w..], w, sizer + w)
  {
    hide Line;
    if |data| == w { assert data[..w] == data; }
  }

  // ----- decoding -----

  /** `stoih`. */
  method Stoih(c: array<char>, w: nat) returns (bad: bool, value: nat)
    requires w <= c.Length
    ensures bad <==> HexValue(c[..w]).None?
    ensures value == if bad then 0 else HexValue(c[..w]).value
  {
    hide FromDigit;
    value := 0;
    var i := 0;
    while i < w
      invariant 0 <= i <= w && HexValue(c[..i]) == Some(value)
    {
      value := value * 16;
      assert c[..i + 1][..i] == c[..i];
      var d := FromDigit(c[i]);
      if d.None? {
        HexValueNone(c[..w], i);
        return true, 0;
      }
      value := value + d.value;
      i := i + 1;
    }
    bad := false;
  }

  /** A read at the front of a buffer, as `Fill` and `Drop` put it. */
  method ReadFront(f: Stream<char>, buf: array<char>, n: nat)
    requires f.Valid() && 0 < n <= buf.Length
    modifies f, buf
    ensures buf[..] == Fill(old(buf[..]), old(f.rest), n) && f.rest == Drop(old(f.rest), n)
    ensures f.Valid() && (f.eof <==> |old(f.rest)| < n)
  {
    var r := f.Read(buf, 0, n);
    assert buf[..] == buf[..r] + buf[r..];
  }

  /** One byte of a line: what the loop over the bytes has still to do shrinks by it. */
  method ReadCell(f: Stream<char>, tmp: array<char>, ghost i: nat, ghost j: nat, ghost w: nat)
    returns (stop: bool, status: nat, value: Byte)
    requires f.Valid() && tmp.Length == 2 && i < w && j < 2
    modifies f, tmp
    ensures f.Valid()
    ensures Cells(old(f.rest), old(tmp[..]), i, j, w) ==
            if stop then Done([], status) else Before(value, Cells(f.rest, tmp[..], i + 1, j + 1, w))
  {
    hide HexValue;
    ReadFront(f, tmp, 2);
    if tmp[0] == ' ' && tmp[1] == ' ' {
      assert tmp[..] == "  ";
      return true, 0, 0;
    }
    var bad, v := Stoih(tmp, 2);
    assert tmp[..2] == tmp[..];
    if bad { return true, 1, 0; }
    HexValueBound(tmp[..]);
    assert Pow16(2) == 256;
    return false, 0, v;
  }

  /** The space behind a pair. */
  method ReadSpace(f: Stream<char>, tmp: array<char>, ghost i: nat, ghost j: nat, ghost w: nat) returns (bad: bool)
    requires f.Valid() && tmp.Length == 2 && j <= 2 && (i == w || (i < w && j == 2))
    modifies f, tmp
    ensures f.Valid()
    ensures Cells(old(f.rest), old(tmp[..]), i, j, w) ==
            if bad then Done([], 1) else if i < w then Cells(f.rest, tmp[..], i, 0, w) else More([], f.rest)
  {
    ReadFront(f, tmp, 1);
    bad := tmp[0] != ' ';
  }

  function Ahead(out: seq<Byte>, r: Row): Row {
    r.(out := out + r.out)
  }

  lemma AheadMore(out: seq<Byte>, b: Byte, r: Row)
    ensures Ahead(out, Before(b, r)) == Ahead(out + [b], r)
    ensures forall status: nat :: Ahead(out, Done([], status)) == Done(out, status)
    ensures forall t: string :: Ahead(out, More([], t)) == More(out, t)
    ensures Ahead([], r) == r
  {
    assert out + ([b] + r.out) == out + [b] + r.out;
    assert [] + r.out == r.out && out + [] == out;
  }

  /** The loop over the bytes of a line. */
  method DecodeRow(f: Stream<char>, tmp: array<char>, width: nat) returns (row: Row)
    requires f.Valid() && width > 0 && tmp.Length == 2
    modifies f, tmp
    ensures f.Valid()
    ensures row == Cells(old(f.rest), old(tmp[..]), 0, 0, width)
    ensures row.More? ==> f.rest == row.rest
  {
    hide Cells, Ahead, Before;
    var out: seq<Byte> := [];
    var i := 0;
    ghost var all := Cells(f.rest, tmp[..], 0, 0, width);
    AheadMore(out, 0, all);
    while i < width
      invariant f.Valid() && 0 <= i <= width
      invariant i < width ==> all == Ahead(out, Cells(f.rest, tmp[..], i, 0, width))
      invariant i == width ==> all == More(out, f.rest)
      decreases width - i
    {
      var j := 0;
      ghost var was := i;
      while i < width && j < 2
        invariant f.Valid() && was <= i <= width && j <= 2 && i == was + j
        invariant all == Ahead(out, Cells(f.rest, tmp[..], i, j, width))
        decreases width - i
      {
        var stop, status, value := ReadCell(f, tmp, i, j, width);
        AheadMore(out, value, Cells(f.rest, tmp[..], i + 1, j + 1, width));
        if stop { return Done(out, status); }
        out := out + [value];
        i, j := i + 1, j + 1;
      }
      var bad := ReadSpace(f, tmp, i, j, width);
      AheadMore(out, 0, all);
      if bad { return Done(out, 1); }
    }
    row := More(out, f.rest);
  }

  /** Converting back: what reaches the output, and the exit status. */
  method Decode(f: Stream<char>, width: nat, junk: nat -> Fresh) returns (out: seq<Byte>, status: nat)
    requires f.Valid() && width > 0 && !f.eof
    modifies f
    ensures Result(out, status) == Decoded(old(f.rest), false, 0, width, junk, 1)
  {
    hide Cells, HexValue, Fill, Drop, After;
    ghost var all := Decoded(f.rest, false, 0, width, junk, 1);
    out := [];
    var eoffset, lineno := 0, 1;
    AfterMore(out, [], all);
    while !f.eof
      invariant f.Valid()
      invariant all == After(out, Decoded(f.rest, f.eof, eoffset, width, junk, lineno))
      decreases |f.rest|, !f.eof
    {
      ghost var here := Decoded(f.rest, f.eof, eoffset, width, junk, lineno);
      var row := DecodeLine(f, width, junk(lineno), eoffset, junk, lineno);
      ghost var next := Decoded(f.rest, f.eof, eoffset + width, width, junk, lineno + 1);
      AfterMore(out, row.out, if row.More? then next else Result([], row.status));
      out := out + row.out;
      if row.Done? { return out, row.status; }
      lineno := lineno + 1;
      eoffset := eoffset + width;
    }
    AfterMore(out, [], Result([], 0));
    status := 0;
  }

  lemma AfterMore(a: seq<Byte>, b: seq<Byte>, r: Result)
    ensures After(a, After(b, r)) == After(a + b, r)
    ensures After([], r) == r
    ensures r.out == [] ==> After(a + b, r) == Result(a + b, r.status)
  {
    assert a + (b + r.out) == a + b + r.out;
    assert [] + r.out == r.out;
  }

  /** The offset and the colon. */
  method ReadHead(f: Stream<char>, j: Fresh, eoffset: nat) returns (bad: bool, tmp: array<char>)
    requires f.Valid()
    modifies f
    ensures f.Valid() && fresh(tmp) && tmp.Length == 2
    ensures bad <==> || HexValue(Fill(j.offset, old(f.rest), 8)) != Some(eoffset)
                     || Fill(j.tmp, Drop(old(f.rest), 8), 2) != ": "
    ensures !bad ==> tmp[..] == ": " && f.rest == Drop(Drop(old(f.rest), 8), 2)
  {
    hide HexValue, Fill, Drop;
    var offset := new char[8](k requires 0 <= k < 8 => j.offset[k]);
    assert offset[..] == j.offset;
    tmp := new char[2](k requires 0 <= k < 2 => j.tmp[k]);
    assert tmp[..] == j.tmp;
    ReadFront(f, offset, 8);
    var wrong, value := Stoih(offset, 8);
    assert offset[..8] == offset[..];
    if wrong || value != eoffset { return true, tmp; }
    ReadFront(f, tmp, 2);
    bad := tmp[0] != ':' || tmp[1] != ' ';
    if !bad { assert tmp[..] == ": "; }
  }

  lemma DropShrinks(s: string, n: nat)
    ensures |Drop(s, n)| == if n < |s| then |s| - n else 0
  {
  }

  /** What `Decoded` does once the row of a line has been read. */
  lemma DecodedRow(s: string, eoffset: nat, w: nat, junk: nat -> Fresh, line: nat, row: Row)
    requires w > 0 && HexValue(Fill(junk(line).offset, s, 8)) == Some(eoffset)
    requires Fill(junk(line).tmp, Drop(s, 8), 2) == ": "
    requires row == Cells(Drop(Drop(s, 8), 2), ": ", 0, 0, w)
    ensures row.Done? ==> Decoded(s, false, eoffset, w, junk, line) == Result(row.out, row.status)
    ensures row.More? ==>
              var last := Drop(row.rest, 1);
              && |row.rest| <= |s|
              && Decoded(s, false, eoffset, w, junk, line) ==
                 After(row.out, Decoded(Drop(last, w + 1), |last| < w + 1, eoffset + w, w, junk, line + 1))
  {
    hide HexValue, Cells, Fill, Drop;
    CellsShrink(Drop(Drop(s, 8), 2), ": ", 0, 0, w);
    DropShrinks(s, 8);
    DropShrinks(Drop(s, 8), 2);
  }

  /** One turn of the loop over the lines. */
  method DecodeLine(f: Stream<char>, width: nat, j: Fresh, eoffset: nat, ghost junk: nat -> Fresh, ghost line: nat)
    returns (row: Row)
    requires f.Valid() && width > 0 && !f.eof && j == junk(line)
    modifies f
    ensures f.Valid() && (row.More? ==> |f.rest| < |old(f.rest)| || (f.eof && |f.rest| <= |old(f.rest)|))
    ensures Decoded(old(f.rest), false, eoffset, width, junk, line) ==
            After(row.out, if row.Done? then Result([], row.status)
                           else Decoded(f.rest, f.eof, eoffset + width, width, junk, line + 1))
  {
    hide HexValue, Cells, Fill, Drop;
    var bad, tmp := ReadHead(f, j, eoffset);
    if bad { return Done([], 1); }
    row := DecodeRow(f, tmp, width);
    DecodedRow(old(f.rest), eoffset, width, junk, line, row);
    if row.Done? { return; }
    DropShrinks(row.rest, 1);
    DropShrinks(Drop(row.rest, 1), width + 1);
    ReadFront(f, tmp, 1);
    var text := new char[width + 2];
    ReadFront(f, text, width + 1);
  }
}
