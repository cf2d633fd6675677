/**
  julia: an image drawn by progressive refinement, four coarse passes that skip the samples
  already taken, then every row from the middle outwards.
 */
module Julia {
  import opened Common

  type Color = int
  /** The pass before the first line has this resolution. */
  const FINEST := 8
  const START_POINT := -4

  function Resolution(n: int): int
    requires START_POINT <= n < 0
  {
    if n == -4 then 64 else if n == -3 then 32 else if n == -2 then 16 else FINEST
  }

  /** The corner of the block of side `r` that holds `p`. */
  function Snap(p: nat, r: int): (s: nat)
    requires r > 0
  {
    p / r * r
  }

  lemma SnapIn(p: nat, i: nat, r: int)
    requires r > 0 && i * r <= p < i * r + r
    ensures Snap(p, r) == i * r
  {
    var q := p / r;
    assert p == q * r + p % r;
    if q < i { Grows(q + 1, i, r); }
    if i < q { Grows(i + 1, q, r); }
  }

  // ----- the order of the rows -----

  /** The row drawn as the `n`-th line. */
  function Row(height: nat, n: nat): int {
    if n % 2 == 1 then height / 2 + n / 2 else height / 2 - n / 2 - 1
  }

  /** The line that draws row `y`. */
  function When(height: nat, y: int): int {
    if y >= height / 2 then 2 * (y - height / 2) + 1 else 2 * (height / 2 - 1 - y)
  }

  function Rows(height: nat, n: nat): (r: seq<int>)
    ensures |r| == n
  {
    seq(n, k requires 0 <= k < n => Row(height, k))
  }

  /** The two are inverse to each other. */
  lemma RowWhen(height: nat, y: int, n: nat)
    ensures When(height, Row(height, n)) == n
    ensures When(height, y) >= 0 ==> Row(height, When(height, y)) == y
  {
  }

  /** How far a row is from the middle of the image. */
  function Distance(height: nat, y: int): int {
    if y >= height / 2 then y - height / 2 else height / 2 - 1 - y
  }

  /** The lines go from the middle outwards. */
  lemma Outwards(height: nat, m: nat, n: nat)
    requires m <= n
    ensures Distance(height, Row(height, m)) <= Distance(height, Row(height, n))
    ensures 0 <= Distance(height, Row(height, m))
  {
  }

  lemma RowsDistinct(height: nat, m: nat, n: nat)
    requires Row(height, m) == Row(height, n)
    ensures m == n
  {
    RowWhen(height, 0, m);
    RowWhen(height, 0, n);
  }

  /** Which rows are drawn: all of them for an even height, and all but the last for an odd one. */
  lemma RowDrawn(height: nat, y: int)
    ensures y in Rows(height, height) <==> -(height % 2) <= y < height - height % 2
  {
    if -(height % 2) <= y < height - height % 2 {
      var n := When(height, y);
      RowWhen(height, y, 0);
      assert 0 <= n < height;
      assert Rows(height, height)[n] == y;
    }
    if y in Rows(height, height) {
      var n :| 0 <= n < height && Rows(height, height)[n] == y;
    }
  }

  /** Every row of the image is drawn, once and no other, exactly when the height is even. */
  lemma RowsOnceIff(height: nat)
    ensures multiset(Rows(height, height)) == multiset(seq(height, (y: int) => y)) <==> height % 2 == 0
  {
    var all := seq(height, (y: int) => y);
    var rows := Rows(height, height);
    if height % 2 == 1 {
      RowDrawn(height, -1);
      assert -1 in multiset(rows);
      assert -1 !in all;
    } else {
      forall y ensures multiset(rows)[y] == multiset(all)[y] {
        RowDrawn(height, y);
        forall i, j | 0 <= i < j < height ensures rows[i] != rows[j] {
          if rows[i] == rows[j] { RowsDistinct(height, i, j); }
        }
        Once(rows, y);
        Once(all, y);
        if 0 <= y < height { assert all[y] == y; }
      }
    }
  }

  lemma {:induction false} Once(s: seq<int>, y: int)
    requires forall i, j :: 0 <= i < j < |s| ==> s[i] != s[j]
    ensures multiset(s)[y] == if y in s then 1 else 0
  {
    if s != [] {
      var t := s[..|s| - 1];
      assert s == t + [s[|s| - 1]];
      Once(t, y);
    }
  }

  // ----- the program -----

  class Window {
    const width: nat
    const height: nat
    const f: (nat, nat) -> Color
    /** The text `draw_label` blends into the image, pixel by pixel; it shows the time, so it varies with
        the step. */
    const text: (int, nat, nat, Color) -> Color
    const pixels: array2<Color>
    var stepRes: int
    var stepN: int
    var stepY: int
    var stepI: int
    var processing: bool
    /** The rows drawn as lines, in order. */
    var lines: seq<int>

    constructor (width: nat, height: nat, f: (nat, nat) -> Color, text: (int, nat, nat, Color) -> Color)
      ensures this.width == width && this.height == height && this.f == f && this.text == text
      ensures Sized() && fresh(pixels)
    {
      this.width, this.height, this.f, this.text := width, height, f, text;
      pixels := new Color[width, height]((_, _) => 0);
      stepRes, stepN, stepY, stepI, processing, lines := 64, START_POINT, 0, 0, false, [];
    }

    ghost predicate Sized() {
      pixels.Length0 == width && pixels.Length1 == height
    }

    /** The sample that stands for a pixel at resolution `r`. */
    function Sample(x: nat, y: nat, r: int): Color
      requires r > 0
    {
      f(Snap(x, r), Snap(y, r))
    }

    function Over(n: int, x: nat, y: nat, c: Color): Color {
      text(n, x, y, c)
    }

    ghost predicate OnGrid()
      reads this
    {
      START_POINT <= stepN < 0 && stepRes == Resolution(stepN) && 0 <= stepI && stepY == stepI * stepRes
    }

    /** A coarse pass: the rows above `stepY` are at this resolution, those below at the last one. */
    ghost predicate Coarse()
      reads this, pixels
    {
      && Sized() && OnGrid() && stepY <= height + stepRes && lines == []
      && forall x, y :: 0 <= x < width && 0 <= y < height && (y < stepY || stepN != START_POINT) ==>
           pixels[x, y] == Sample(x, y, if y < stepY then stepRes else 2 * stepRes)
    }

    /** The line phase: drawn rows are exact, the others still as the last pass and the label left them. */
    ghost predicate Fine()
      reads this, pixels
    {
      && Sized()
      && 0 <= stepN <= height && lines == Rows(height, stepN)
      && forall x, y :: 0 <= x < width && 0 <= y < height ==> pixels[x, y] == Drawn(x, y, stepN)
    }

    ghost function Drawn(x: nat, y: nat, n: nat): Color {
      if y in Rows(height, n) then f(x, y) else Over(0, x, y, Sample(x, y, FINEST))
    }

    /** The image once processing has stopped, under the final label. */
    ghost predicate Finished()
      reads this, pixels
    {
      && Sized()
      && !processing && lines == Rows(height, height)
      && forall x, y :: 0 <= x < width && 0 <= y < height ==>
           pixels[x, y] == Over(height, x, y, Drawn(x, y, height))
    }

    /** One sample fills its block, clipped to the image. */
    method FillBlock(x: nat, y: nat, r: nat, c: Color)
      requires Sized()
      modifies pixels
      ensures forall px, py :: 0 <= px < width && 0 <= py < height ==>
                pixels[px, py] == if x <= px < x + r && y <= py < y + r then c else old(pixels[px, py])
    {
      var dy := 0;
      while dy < r && dy + y < height
        invariant 0 <= dy <= r && (dy > 0 ==> dy + y <= height)
        invariant forall px, py :: 0 <= px < width && 0 <= py < height ==>
                    pixels[px, py] == if x <= px < x + r && y <= py < y + dy then c else old(pixels[px, py])
      {
        var dx := 0;
        while dx < r && dx + x < width
          invariant 0 <= dx <= r && (dx > 0 ==> dx + x <= width)
          invariant forall px, py :: 0 <= px < width && 0 <= py < height ==>
                      pixels[px, py] ==
                      if (x <= px < x + r && y <= py < y + dy) || (x <= px < x + dx && py == y + dy)
                      then c else old(pixels[px, py])
        {
          pixels[x + dx, y + dy] := c;
          dx := dx + 1;
        }
        dy := dy + 1;
      }
    }

    /** `do_line`; a row above the image is in the window's title bar. */
    method DoLine(j: int)
      requires Sized() && j < height
      modifies pixels, `lines
      ensures lines == old(lines) + [j]
      ensures forall px, py :: 0 <= px < width && 0 <= py < height ==>
                pixels[px, py] == if py == j then f(px, py) else old(pixels[px, py])
    {
      var i := 0;
      while 0 <= j && i < width
        invariant 0 <= i <= width
        invariant forall px, py :: 0 <= px < width && 0 <= py < height ==>
                    pixels[px, py] == if px < i && py == j then f(px, py) else old(pixels[px, py])
        modifies pixels
      {
        pixels[i, j] := f(i, j);
        i := i + 1;
      }
      lines := lines + [j];
    }

    method DrawLabel()
      requires Sized()
      modifies pixels
      ensures forall px, py :: 0 <= px < width && 0 <= py < height ==>
                pixels[px, py] == Over(stepN, px, py, old(pixels[px, py]))
    {
      var n := stepN;
      forall px, py | 0 <= px < width && 0 <= py < height {
        pixels[px, py] := Over(n, px, py, pixels[px, py]);
      }
    }

    /** The samples of one row of blocks. */
    method PaintRow()
      requires Coarse() && stepY <= height
      modifies pixels
      ensures forall x, y :: 0 <= x < width && 0 <= y < height ==>
                pixels[x, y] == if stepY <= y < stepY + stepRes then Sample(x, y, stepRes) else old(pixels[x, y])
    {
      hide Snap;
      var x, i := 0, 0;
      while x < width
        invariant 0 <= i && x == i * stepRes
        invariant forall px, py :: 0 <= px < width && 0 <= py < height ==>
                    pixels[px, py] ==
                    if px < x && stepY <= py < stepY + stepRes then Sample(px, py, stepRes) else old(pixels[px, py])
      {
        BlockSample(x, i);
        if stepN != START_POINT && stepI % 2 == 0 && i % 2 == 0 {
          AlreadySampled(x, i);
        } else {
          FillBlock(x, stepY, stepRes, f(x, stepY));
        }
        x, i := x + stepRes, i + 1;
      }
    }

    /** Every pixel of the block is sampled at its corner. */
    lemma BlockSample(x: nat, i: nat)
      requires OnGrid() && x == i * stepRes
      ensures forall px, py :: x <= px < x + stepRes && stepY <= py < stepY + stepRes ==>
                Sample(px, py, stepRes) == f(x, stepY)
    {
      hide Snap;
      forall px: nat, py: nat | x <= px < x + stepRes && stepY <= py < stepY + stepRes
        ensures Sample(px, py, stepRes) == f(x, stepY)
      {
        SnapIn(px, i, stepRes);
        SnapIn(py, stepI, stepRes);
      }
    }

    /** A skipped block already holds the sample of its corner: the last pass took it. */
    lemma AlreadySampled(x: nat, i: nat)
      requires OnGrid() && stepN != START_POINT && x == i * stepRes && i % 2 == 0 && stepI % 2 == 0
      ensures forall px, py :: x <= px < x + stepRes && stepY <= py < stepY + stepRes ==>
                Sample(px, py, 2 * stepRes) == f(x, stepY)
    {
      hide Snap;
      Halves(i, stepRes);
      Halves(stepI, stepRes);
      forall px: nat, py: nat | x <= px < x + stepRes && stepY <= py < stepY + stepRes
        ensures Sample(px, py, 2 * stepRes) == f(x, stepY)
      {
        SnapIn(px, i / 2, 2 * stepRes);
        SnapIn(py, stepI / 2, 2 * stepRes);
      }
    }

    /** The end of a coarse pass. */
    method NextPass()
      requires Coarse() && stepY > height
      modifies `stepRes, `stepY, `stepI, `stepN
      ensures stepN == old(stepN) + 1 && stepY == 0
      ensures stepN < 0 ==> Coarse()
      ensures stepN == 0 ==> forall x, y :: 0 <= x < width && 0 <= y < height ==> pixels[x, y] == Sample(x, y, FINEST)
    {
      hide Snap;
      stepRes, stepY, stepI, stepN := stepRes / 2, 0, 0, stepN + 1;
    }

    /** A coarse step paints one row of blocks. */
    method CoarseStep()
      requires Coarse() && stepY <= height
      modifies pixels, `stepI, `stepY
      ensures Coarse() && stepY == old(stepY) + stepRes
    {
      hide Snap, Sample;
      PaintRow();
      stepI := stepI + 1;
      stepY := stepY + stepRes;
    }

    /** A fine step draws one line. */
    method FineStep()
      requires Fine() && stepN < height
      modifies pixels, `lines, `stepN
      ensures Fine() && stepN == old(stepN) + 1
    {
      hide Snap, Sample, Over;
      assert forall y :: y in Rows(height, stepN + 1) <==> y in Rows(height, stepN) || y == Row(height, stepN) by {
        RowsStep(height, stepN);
      }
      if stepN % 2 == 1 {
        DoLine(height / 2 + stepN / 2);
      } else {
        DoLine(height / 2 - stepN / 2 - 1);
      }
      stepN := stepN + 1;
      RowsStep(height, stepN - 1);
    }

    /** `step_once`: from a coarse state or a fine one to the next, until the image is finished. */
    method StepOnce()
      requires processing && (if stepN < 0 then Coarse() else stepN > 0 && Fine())
      modifies this, pixels
      ensures if !processing then Finished() else if stepN < 0 then Coarse() else stepN > 0 && Fine()
      ensures processing ==>
                stepN > old(stepN) || (stepN == old(stepN) < 0 && old(stepY) < stepY <= height + 64)
      ensures stepN <= height
    {
      hide Snap, Sample, Over;
      if stepN < 0 && stepY > height {
        NextPass();
        RowsStep(height, 0);
      }
      if stepN >= height {
        processing := false;
        DrawLabel();
        return;
      }
      if stepN == 0 {
        DrawLabel();
      }
      if stepN < 0 {
        CoarseStep();
      } else {
        FineStep();
      }
    }

    /** `start_processing`: the counters, and one step. */
    method StartProcessing()
      requires Sized()
      modifies this, pixels
      ensures if !processing then Finished() else if stepN < 0 then Coarse() else stepN > 0 && Fine()
      ensures stepN <= height
    {
      stepN, stepY, stepI, stepRes := START_POINT, 0, 0, 64;
      processing, lines := true, [];
      forall px, py | 0 <= px < width && 0 <= py < height {
        pixels[px, py] := 0;
      }
      StepOnce();
    }

    /** The main loop steps for as long as there is processing to do.  Every row is exact for an even
        height; for an odd one the last row is left as the coarse passes and the first label made it. */
    method Render()
      requires Sized()
      modifies this, pixels
      ensures Finished()
      ensures forall x, y :: 0 <= x < width && 0 <= y < height ==>
                pixels[x, y] == Over(height, x, y, if y < height - height % 2 then f(x, y)
                                                   else Over(0, x, y, Sample(x, y, FINEST)))
    {
      hide Coarse, Snap, Sample, Over;
      StartProcessing();
      while processing
        invariant if !processing then Finished() else if stepN < 0 then Coarse() else stepN > 0 && Fine()
        invariant stepN <= height
        decreases processing, height - stepN, height + 64 - stepY
      {
        StepOnce();
      }
      forall y | 0 <= y < height ensures y in Rows(height, height) <==> y < height - height % 2 {
        RowDrawn(height, y);
      }
    }
  }

  lemma RowsStep(height: nat, n: nat)
    ensures Rows(height, n + 1) == Rows(height, n) + [Row(height, n)]
    ensures Rows(height, 0) == []
  {
  }

  lemma Halves(i: nat, r: int)
    requires i % 2 == 0
    ensures (i / 2) * (2 * r) == i * r
  {
    var k := i / 2;
    assert i == 2 * k;
    assert k * (2 * r) == (2 * k) * r;
  }
}
