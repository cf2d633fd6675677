/**
  The crc32 tool.  An unsigned integer is its vector of bits, least significant first, so
  that shifts, masks and exclusive-or are what they are in C for a fixed width.
 */
module Crc32 {

  type Bits = seq<bool>

  const WIDTH := 32

  function Zeros(n: nat): (z: Bits)
    ensures |z| == n && forall i :: 0 <= i < n ==> !z[i]
  {
    seq(n, _ => false)
  }

  function Xor(a: Bits, b: Bits): (c: Bits)
    requires |a| == |b|
    ensures |c| == |a| && forall i :: 0 <= i < |a| ==> c[i] == (a[i] != b[i])
  {
    seq(|a|, i requires 0 <= i < |a| => a[i] != b[i])
  }

  /** Zero extension. */
  function Widen(a: Bits, w: nat): (b: Bits)
    requires |a| <= w
    ensures |b| == w
  {
    a + Zeros(w - |a|)
  }

  function Reversed(a: Bits): (r: Bits)
    ensures |r| == |a| && forall i :: 0 <= i < |a| ==> r[i] == a[|a| - 1 - i]
  {
    seq(|a|, i requires 0 <= i < |a| => a[|a| - 1 - i])
  }

  // ----- one division step, the bit-at-a-time checksum -----

  /** (c >> 1) ^ (c & 1 ? p : 0) */
  function Step(p: Bits, c: Bits): (r: Bits)
    requires |p| == |c| > 0
    ensures |r| == |c|
  {
    Xor(c[1..] + [false], if c[0] then p else Zeros(|c|))
  }

  function Steps(p: Bits, c: Bits, n: nat): (r: Bits)
    requires |p| == |c| > 0
    ensures |r| == |c|
    decreases n
  {
    if n == 0 then c else Steps(p, Step(p, c), n - 1)
  }

  /** Divide bit by bit: each message bit enters at the low end of the register. */
  function Feed(p: Bits, c: Bits, msg: Bits): (r: Bits)
    requires |p| == |c| > 0
    ensures |r| == |c|
    decreases |msg|
  {
    if msg == [] then c else Feed(p, Step(p, Xor(c, Widen(msg[..1], |c|))), msg[1..])
  }

  // ----- linearity -----

  lemma StepAt(p: Bits, c: Bits, i: nat)
    requires |p| == |c| > i
    ensures Step(p, c)[i] == ((i + 1 < |c| && c[i + 1]) != (c[0] && p[i]))
  {
    hide Xor, Zeros;
  }

  lemma StepXor(p: Bits, a: Bits, b: Bits)
    requires |p| == |a| == |b| > 0
    ensures Step(p, Xor(a, b)) == Xor(Step(p, a), Step(p, b))
  {
    hide Step, Xor;
    forall i: nat | i < |p| ensures Step(p, Xor(a, b))[i] == Xor(Step(p, a), Step(p, b))[i] {
      StepAt(p, Xor(a, b), i);
      StepAt(p, a, i);
      StepAt(p, b, i);
    }
  }

  lemma {:induction false} StepsXor(p: Bits, a: Bits, b: Bits, n: nat)
    requires |p| == |a| == |b| > 0
    ensures Steps(p, Xor(a, b), n) == Xor(Steps(p, a, n), Steps(p, b, n))
    decreases n
  {
    hide Step, Xor;
    if n > 0 {
      StepXor(p, a, b);
      StepsXor(p, Step(p, a), Step(p, b), n - 1);
    }
  }

  lemma {:induction false} StepsAdd(p: Bits, c: Bits, m: nat, n: nat)
    requires |p| == |c| > 0
    ensures Steps(p, c, m + n) == Steps(p, Steps(p, c, m), n)
    decreases m
  {
    hide Step;
    if m > 0 { StepsAdd(p, Step(p, c), m - 1, n); }
  }

  /** A register whose low bit is clear is just shifted. */
  lemma StepShifts(p: Bits, c: Bits)
    requires |p| == |c| > 0 && !c[0]
    ensures Step(p, c) == c[1..] + [false]
  {
    hide Step;
    forall i: nat | i < |c| ensures Step(p, c)[i] == (c[1..] + [false])[i] {
      StepAt(p, c, i);
    }
  }

  lemma {:induction false} StepsShift(p: Bits, c: Bits, n: nat)
    requires |p| == |c| > 0 && n <= |c| && forall i :: 0 <= i < n ==> !c[i]
    ensures Steps(p, c, n) == c[n..] + Zeros(n)
    decreases n
  {
    hide Step, Zeros;
    if n == 0 {
      assert c[0..] + Zeros(0) == c;
    } else {
      StepShifts(p, c);
      StepsShift(p, c[1..] + [false], n - 1);
      ShiftMore(c, n);
    }
  }

  lemma ShiftMore(c: Bits, n: nat)
    requires 0 < n <= |c|
    ensures (c[1..] + [false])[n - 1..] + Zeros(n - 1) == c[n..] + Zeros(n)
  {
    hide Zeros;
  }

  /** Feeding up to a register's width of bits is one exclusive-or and that many steps. */
  lemma {:induction false} FeedWord(p: Bits, c: Bits, msg: Bits)
    requires |p| == |c| > 0 && |msg| <= |c|
    ensures Feed(p, c, msg) == Steps(p, Xor(c, Widen(msg, |c|)), |msg|)
    decreases |msg|
  {
    hide Step, Xor, Zeros;
    var w := |c|;
    if msg == [] {
      assert Xor(c, Widen(msg, w)) == c;
    } else {
      var first, rest := Widen(msg[..1], w), [false] + Widen(msg[1..], w - 1);
      assert Xor(c, Widen(msg, w)) == Xor(Xor(c, first), rest);
      StepXor(p, Xor(c, first), rest);
      StepShifts(p, rest);
      assert rest[1..] + [false] == Widen(msg[1..], w);
      FeedWord(p, Step(p, Xor(c, first)), msg[1..]);
    }
  }

  lemma {:induction false} FeedAdd(p: Bits, c: Bits, m: Bits, n: Bits)
    requires |p| == |c| > 0
    ensures Feed(p, c, m + n) == Feed(p, Feed(p, c, m), n)
    decreases |m|
  {
    hide Step, Xor, Widen;
    if m == [] {
      assert m + n == n;
    } else {
      assert (m + n)[1..] == m[1..] + n && (m + n)[..1] == m[..1];
      FeedAdd(p, Step(p, Xor(c, Widen(m[..1], |c|))), m[1..], n);
    }
  }

  // ----- numbers -----

  function Pow2(e: nat): (n: nat)
    ensures n > 0
  {
    if e == 0 then 1 else 2 * Pow2(e - 1)
  }

  /** The low `w` bits of n. */
  function FromNat(n: nat, w: nat): (b: Bits)
    ensures |b| == w
  {
    if w == 0 then [] else [n % 2 == 1] + FromNat(n / 2, w - 1)
  }

  function Value(b: Bits): (n: nat)
    ensures n < Pow2(|b|)
  {
    if b == [] then 0 else (if b[0] then 1 else 0) + 2 * Value(b[1..])
  }

  lemma {:induction false} ValueBits(b: Bits)
    ensures FromNat(Value(b), |b|) == b
  {
    if b != [] {
      ValueBits(b[1..]);
      assert Value(b) / 2 == Value(b[1..]) && Value(b) % 2 == if b[0] then 1 else 0;
    }
  }

  lemma {:induction false} FromZero(w: nat)
    ensures FromNat(0, w) == Zeros(w)
  {
    if w > 0 { FromZero(w - 1); }
  }

  /** A small number has clear high bits. */
  lemma {:induction false} FromSmall(n: nat, v: nat, w: nat)
    requires n < Pow2(v) && v <= w
    ensures FromNat(n, w) == Widen(FromNat(n, v), w)
  {
    if v == 0 {
      FromZero(w);
      assert [] + Zeros(w) == Zeros(w);
    } else {
      FromSmall(n / 2, v - 1, w - 1);
    }
  }

  /** Adding a power of two to a multiple of its double sets one bit. */
  lemma {:induction false} SetBit(e: nat, q: nat, w: nat)
    ensures FromNat(Pow2(e) + q * Pow2(e + 1), w) == Xor(FromNat(Pow2(e), w), FromNat(q * Pow2(e + 1), w))
    decreases w
  {
    if w > 0 {
      var i, j := Pow2(e), q * Pow2(e + 1);
      if e == 0 {
        FromZero(w - 1);
        assert j == 2 * q;
        assert (i + j) / 2 == q && j / 2 == q;
        assert Xor(Zeros(w - 1), FromNat(q, w - 1)) == FromNat(q, w - 1);
      } else {
        Halves(e, q);
        SetBit(e - 1, q, w - 1);
      }
    }
  }

  lemma Halves(e: nat, q: nat)
    requires e > 0
    ensures Pow2(e) % 2 == 0 && Pow2(e) / 2 == Pow2(e - 1)
    ensures (q * Pow2(e + 1)) % 2 == 0 && (q * Pow2(e + 1)) / 2 == q * Pow2(e)
    ensures (Pow2(e) + q * Pow2(e + 1)) % 2 == 0
    ensures (Pow2(e) + q * Pow2(e + 1)) / 2 == Pow2(e - 1) + q * Pow2(e)
  {
    var x, y := q * Pow2(e), Pow2(e - 1);
    assert q * Pow2(e + 1) == 2 * x by { MulDouble(q, Pow2(e)); }
    hide Pow2;
    EvenHalf(x, y);
  }

  lemma EvenHalf(x: nat, y: nat)
    ensures (2 * x) % 2 == 0 && (2 * x) / 2 == x && (2 * y) % 2 == 0 && (2 * y) / 2 == y
    ensures (2 * y + 2 * x) % 2 == 0 && (2 * y + 2 * x) / 2 == y + x
  {
  }

  /** Division steps on a power of two: shift it down to one first. */
  lemma {:induction false} StepsPow(p: Bits, e: nat, n: nat)
    requires |p| > e && e <= n
    ensures Steps(p, FromNat(Pow2(e), |p|), n) == Steps(p, FromNat(1, |p|), n - e)
    decreases e
  {
    if e > 0 {
      var w := |p|;
      Halves(e, 0);
      PowSmall(e - 1, w - 1);
      FromSmall(Pow2(e - 1), w - 1, w);
      StepShifts(p, FromNat(Pow2(e), w));
      assert FromNat(Pow2(e), w)[1..] + [false] == FromNat(Pow2(e - 1), w);
      StepsPow(p, e - 1, n - 1);
    }
  }

  lemma {:induction false} PowSmall(e: nat, w: nat)
    requires e < w
    ensures Pow2(e) < Pow2(w)
    decreases w
  {
    if e + 1 < w { PowSmall(e, w - 1); }
  }

  // ----- the lookup table -----

  type Word = b: Bits | |b| == WIDTH witness Zeros(WIDTH)

  type Byte = b: Bits | |b| == 8 witness Zeros(8)

  /** Eight division steps of the number n. */
  ghost function Entry(p: Word, n: nat): Word {
    Steps(p, FromNat(n, WIDTH), 8)
  }

  /** An entry of the table is the sum of two earlier ones. */
  lemma EntrySum(p: Word, e: nat, q: nat)
    requires e < 8
    ensures Entry(p, Pow2(e) + q * Pow2(e + 1)) == Xor(Steps(p, FromNat(1, WIDTH), 8 - e), Entry(p, q * Pow2(e + 1)))
  {
    hide FromNat, Steps, Pow2;
    SetBit(e, q, WIDTH);
    StepsXor(p, FromNat(Pow2(e), WIDTH), FromNat(q * Pow2(e + 1), WIDTH), 8);
    StepsPow(p, e, 8);
  }

  /** The x-th multiple of 2^e. */
  function Times(e: nat, x: nat): nat {
    x * Pow2(e)
  }

  lemma {:induction false} MulMore(a: nat, b: nat, m: nat)
    requires a < b
    ensures a * m + m <= b * m
    decreases b
  {
    if a + 1 < b { MulMore(a, b - 1, m); }
  }

  lemma MulOrder(a: nat, b: nat, m: nat)
    requires m > 0
    ensures a < b <==> a * m < b * m
  {
    if a < b { MulMore(a, b, m); }
    if b < a { MulMore(b, a, m); }
  }

  /** Below 256 lie the first 2^(8-e) multiples; even ones are multiples of the next power. */
  lemma TimesFacts(e: nat, x: nat, y: nat)
    requires e < 8
    ensures Times(e, x) < 256 <==> x < Pow2(8 - e)
    ensures Times(e, x) == Times(e, y) <==> x == y
    ensures Times(e, 2 * x) == Times(e + 1, x)
    ensures Times(e, 2 * x + 1) == Pow2(e) + x * Pow2(e + 1)
    ensures Times(e, 2 * (x + 1)) == Times(e, 2 * x) + 2 * Pow2(e)
  {
    hide Pow2;
    Powers(e);
    MulOrder(x, Pow2(8 - e), Pow2(e));
    MulOrder(x, y, Pow2(e));
    MulOrder(y, x, Pow2(e));
    MulDouble(x, Pow2(e));
  }

  lemma MulDouble(x: nat, m: nat)
    ensures (2 * x) * m == x * (2 * m) && (2 * x + 1) * m == m + x * (2 * m)
    ensures (2 * (x + 1)) * m == (2 * x) * m + 2 * m
  {
  }

  lemma Powers(e: nat)
    requires e <= 8
    ensures Pow2(e + 1) == 2 * Pow2(e) && Pow2(8 - e) * Pow2(e) == 256
    ensures e < 8 ==> Pow2(8 - e) == 2 * Pow2(7 - e)
    ensures Pow2(0) == 1 && Pow2(7) == 128 && Pow2(8) == 256
  {
    assert Pow2(0) == 1 && Pow2(1) == 2 && Pow2(2) == 4 && Pow2(3) == 8;
    assert Pow2(4) == 16 && Pow2(5) == 32 && Pow2(6) == 64 && Pow2(7) == 128 && Pow2(8) == 256;
  }

  /** The multiples of 2^e are filled in. */
  ghost predicate Filled(p: Word, tab: seq<Word>, e: nat)
    requires |tab| == 256
  {
    forall x: nat :: Times(e, x) < 256 ==> tab[Times(e, x)] == Entry(p, Times(e, x))
  }

  /** The even multiples of 2^e are filled in, and the first `q` odd ones. */
  ghost predicate PartFilled(p: Word, tab: seq<Word>, e: nat, q: nat)
    requires |tab| == 256
  {
    forall x: nat :: Times(e, x) < 256 && (x % 2 == 0 || x < 2 * q) ==> tab[Times(e, x)] == Entry(p, Times(e, x))
  }

  lemma PartFilledStart(p: Word, tab: seq<Word>, e: nat)
    requires |tab| == 256 && e < 8 && Filled(p, tab, e + 1)
    ensures PartFilled(p, tab, e, 0)
  {
    hide Times, Entry;
    forall x: nat | Times(e, x) < 256 && x % 2 == 0 ensures tab[Times(e, x)] == Entry(p, Times(e, x)) {
      TimesFacts(e, x / 2, 0);
      assert 2 * (x / 2) == x;
    }
  }

  lemma PartFilledStep(p: Word, tab: seq<Word>, e: nat, q: nat, c: Word)
    requires |tab| == 256 && e < 8 && PartFilled(p, tab, e, q) && Times(e, 2 * q) < 256
    requires c == Steps(p, FromNat(1, WIDTH), 8 - e)
    ensures Times(e, 2 * q + 1) < 256
    ensures PartFilled(p, tab[Times(e, 2 * q + 1) := Xor(c, tab[Times(e, 2 * q)])], e, q + 1)
  {
    hide Times, Entry, Steps, FromNat, Pow2, Xor;
    EntryOdd(p, e, q);
    var tab' := tab[Times(e, 2 * q + 1) := Xor(c, tab[Times(e, 2 * q)])];
    forall x: nat | Times(e, x) < 256 && (x % 2 == 0 || x < 2 * (q + 1))
      ensures tab'[Times(e, x)] == Entry(p, Times(e, x))
    {
      if x != 2 * q + 1 {
        assert x % 2 == 0 || x < 2 * q;
        TimesFacts(e, x, 2 * q + 1);
      }
    }
  }

  /** An odd multiple's entry from the even multiple below it. */
  lemma EntryOdd(p: Word, e: nat, q: nat)
    requires e < 8
    ensures Entry(p, Times(e, 2 * q + 1)) == Xor(Steps(p, FromNat(1, WIDTH), 8 - e), Entry(p, Times(e, 2 * q)))
    ensures Times(e, 2 * q) < 256 ==> Times(e, 2 * q + 1) < 256
  {
    hide Times, Entry, Steps, FromNat, Pow2, Xor;
    Powers(e);
    TimesFacts(e, 2 * q, 0);
    TimesFacts(e, 2 * q + 1, 0);
    TimesFacts(e, q, 0);
    EntrySum(p, e, q);
    EvenTimes(e, q);
  }

  lemma EvenTimes(e: nat, q: nat)
    ensures q * Pow2(e + 1) == Times(e, 2 * q)
  {
  }

  lemma PartFilledEnd(p: Word, tab: seq<Word>, e: nat, q: nat)
    requires |tab| == 256 && e < 8 && PartFilled(p, tab, e, q) && Times(e, 2 * q) >= 256
    ensures Filled(p, tab, e)
  {
    hide Times, Entry, Pow2;
    TimesFacts(e, 2 * q, 0);
    forall x: nat | Times(e, x) < 256 ensures x < 2 * q {
      TimesFacts(e, x, 0);
    }
  }

  /** The inner loop: every odd multiple of i = 2^e from the even multiple below it. */
  method FillOdd(p: Word, tab: array<Word>, c: Word, i: nat, ghost e: nat)
    requires tab.Length == 256 && e < 8 && i == Pow2(e)
    requires c == Steps(p, FromNat(1, WIDTH), 8 - e)
    requires Filled(p, tab[..], e + 1)
    modifies tab
    ensures Filled(p, tab[..], e)
  {
    hide FromNat, Steps, Pow2, Filled, PartFilled, Times;
    PartFilledStart(p, tab[..], e);
    TimesFacts(e, 0, 0);
    TimesZero(e);
    var j := 0;
    ghost var q := 0;
    while j < 256
      invariant 0 <= j && 0 <= q && j == Times(e, 2 * q)
      invariant PartFilled(p, tab[..], e, q)
      decreases 256 - j
    {
      PartFilledStep(p, tab[..], e, q, c);
      TimesFacts(e, q, 0);
      EvenTimes(e, q);
      ghost var was := tab[..];
      tab[i + j] := Xor(c, tab[j]);
      assert tab[..] == was[i + j := Xor(c, was[j])];
      j := j + 2 * i;
      q := q + 1;
    }
    PartFilledEnd(p, tab[..], e, q);
  }

  lemma TimesZero(e: nat)
    ensures Times(e, 0) == 0
  {
  }

  /** The table generation in `main`: entry n is eight division steps of n. */
  method BuildTable(p: Word) returns (tab: array<Word>)
    ensures tab.Length == 256 && fresh(tab)
    ensures forall n: nat :: n < 256 ==> tab[n] == Entry(p, n)
  {
    hide FromNat, Steps, Pow2, Entry, Filled;
    tab := new Word[256](_ => Zeros(WIDTH));
    Empty(p, tab[..]);
    Powers(7);
    StepsOne(p, 0);
    var c: Word := FromNat(1, WIDTH);
    var i := 128;
    ghost var e := 8;
    while i > 0
      invariant 0 <= e <= 8 && tab.Length == 256 && fresh(tab)
      invariant i == if e == 0 then 0 else Pow2(e - 1)
      invariant c == Steps(p, FromNat(1, WIDTH), 8 - e)
      invariant Filled(p, tab[..], e)
      decreases i
    {
      e := e - 1;
      if e > 0 { Powers(e - 1); }
      Powers(0);
      StepsOne(p, 7 - e);
      c := Step(p, c);
      FillOdd(p, tab, c, i, e);
      i := i / 2;
    }
    Full(p, tab[..]);
  }

  lemma Empty(p: Word, tab: seq<Word>)
    requires |tab| == 256 && tab[0] == Zeros(WIDTH)
    ensures Filled(p, tab, 8)
  {
    hide Entry, Pow2;
    EntryZero(p);
    Powers(8);
    forall x: nat | Times(8, x) < 256 ensures Times(8, x) == 0 {
      MulOrder(x, 1, Pow2(8));
    }
  }

  lemma Full(p: Word, tab: seq<Word>)
    requires |tab| == 256 && Filled(p, tab, 0)
    ensures forall n: nat :: n < 256 ==> tab[n] == Entry(p, n)
  {
    hide Entry;
    forall n: nat | n < 256 ensures tab[n] == Entry(p, n) {
      assert Times(0, n) == n;
    }
  }

  lemma EntryZero(p: Word)
    ensures Entry(p, 0) == Zeros(WIDTH)
  {
    hide FromNat, Steps;
    FromZero(WIDTH);
    var z: Bits := Zeros(WIDTH);
    StepsShift(p, z, 8);
    assert z[8..] + Zeros(8) == z;
  }

  lemma StepsOne(p: Word, n: nat)
    ensures Steps(p, FromNat(1, WIDTH), 0) == FromNat(1, WIDTH)
    ensures Steps(p, FromNat(1, WIDTH), n + 1) == Step(p, Steps(p, FromNat(1, WIDTH), n))
  {
    hide FromNat;
    StepsAdd(p, FromNat(1, WIDTH), n, 1);
  }

  // ----- the checksum -----

  /** The table-driven update (crc >> 8) ^ crctab[(crc ^ b) & 0xFF] is the bit-at-a-time one. */
  method Update(p: Word, tab: array<Word>, c: Word, b: Byte) returns (r: Word)
    requires tab.Length == 256 && forall n: nat :: n < 256 ==> tab[n] == Entry(p, n)
    ensures r == Feed(p, c, b)
  {
    var ind := Value(Xor(c, Widen(b, WIDTH))[..8]);
    TableUpdate(p, c, b);
    Powers(7);
    assert Pow2(8) == 256;
    r := Xor(c[8..] + Zeros(8), tab[ind]);
  }

  lemma TableUpdate(p: Word, c: Word, b: Byte)
    ensures Feed(p, c, b) == Xor(c[8..] + Zeros(8), Entry(p, Value(Xor(c, Widen(b, WIDTH))[..8])))
  {
    hide Steps, FromNat, Value, Feed, Xor, Zeros;
    var x := Xor(c, Widen(b, WIDTH));
    var low, high := Widen(x[..8], WIDTH), Zeros(8) + c[8..];
    assert x == Xor(high, low);
    FeedWord(p, c, b);
    StepsXor(p, high, low, 8);
    StepsShift(p, high, 8);
    assert high[8..] == c[8..];
    ValueBits(x[..8]);
    FromSmall(Value(x[..8]), 8, WIDTH);
  }
}
