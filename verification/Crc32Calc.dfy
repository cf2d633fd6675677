/**
  The checksum of a file in the crc32 tool: how `calculate` runs the table over the input,
  which errors it detects, and that its cksum mode is polynomial long division.
 */
module Crc32Calc {
  import opened Crc32

  /** The options: -r, -R, -i, -x and -e. */
  datatype Settings = Settings(reflectInput: bool, reflectOutput: bool, initial: Word, finalXor: Word, extend: bool)

  function InByte(s: Settings, b: Byte): Byte {
    if s.reflectInput then b else Reversed(b)
  }

  /** The bits of the message in the order in which they are divided. */
  function Flat(s: Settings, msg: seq<Byte>): Bits {
    if msg == [] then [] else InByte(s, msg[0]) + Flat(s, msg[1..])
  }

  /** The octets of a length, least significant first; none for zero. */
  function LengthBytes(n: nat): seq<Byte> {
    if n == 0 then [] else [FromNat(n, 8)] + LengthBytes(n / 256)
  }

  /** The number that octets stand for, least significant first. */
  function Octets(bs: seq<Byte>): nat {
    if bs == [] then 0 else Value(bs[0]) + 256 * Octets(bs[1..])
  }

  function Halved(n: nat, w: nat): nat {
    if w == 0 then n else Halved(n / 2, w - 1)
  }

  lemma {:induction false} LowBits(n: nat, w: nat)
    ensures n == Value(FromNat(n, w)) + Pow2(w) * Halved(n, w)
  {
    hide Value, FromNat, Pow2;
    if w == 0 {
      NoBits(n);
    } else {
      LowBits(n / 2, w - 1);
      LowBit(n, w);
      MulTwice(Pow2(w - 1), Halved(n / 2, w - 1));
    }
  }

  lemma NoBits(n: nat)
    ensures Value(FromNat(n, 0)) == 0 && Pow2(0) == 1
  {
  }

  lemma LowBit(n: nat, w: nat)
    requires w > 0
    ensures Value(FromNat(n, w)) == n % 2 + 2 * Value(FromNat(n / 2, w - 1)) && Pow2(w) == 2 * Pow2(w - 1)
  {
    assert FromNat(n, w)[1..] == FromNat(n / 2, w - 1);
  }

  lemma MulTwice(a: nat, h: nat)
    ensures 2 * (a * h) == (2 * a) * h
  {
  }

  lemma Eighth(n: nat)
    ensures n == Value(FromNat(n, 8)) + 256 * (n / 256)
  {
    hide Value, FromNat;
    LowBits(n, 8);
    assert Halved(n, 8) == Halved(n / 256, 0) by { assert n / 2 / 2 / 2 / 2 / 2 / 2 / 2 / 2 == n / 256; HalvedEight(n); }
    Powers(8);
  }

  lemma HalvedEight(n: nat)
    ensures Halved(n, 8) == n / 2 / 2 / 2 / 2 / 2 / 2 / 2 / 2
  {
    var a, b, c, d := n / 2, n / 2 / 2, n / 2 / 2 / 2, n / 2 / 2 / 2 / 2;
    assert Halved(n, 8) == Halved(a, 7) == Halved(b, 6) == Halved(c, 5) == Halved(d, 4);
    assert Halved(d, 4) == Halved(d / 2, 3) == Halved(d / 2 / 2, 2);
  }

  /** They are the shortest octets for the length. */
  lemma {:induction false} LengthBytesValue(n: nat)
    ensures Octets(LengthBytes(n)) == n
    ensures n > 0 ==> LengthBytes(n)[|LengthBytes(n)| - 1] != Zeros(8)
  {
    hide Value, FromNat;
    if n > 0 {
      Eighth(n);
      LengthBytesValue(n / 256);
      if n < 256 { ZeroOctet(n); }
    }
  }

  lemma ZeroOctet(n: nat)
    requires 0 < n < 256
    ensures FromNat(n, 8) != Zeros(8) && LengthBytes(n / 256) == []
  {
    hide Value;
    Eighth(n);
    FromZero(8);
    if FromNat(n, 8) == Zeros(8) { Eighth(0); }
  }

  function Extension(s: Settings, n: nat): seq<Byte> {
    if s.extend then LengthBytes(n) else []
  }

  function Finish(s: Settings, c: Word): Word {
    var x := Xor(c, s.finalXor);
    if s.reflectOutput then x else Reversed(x)
  }

  /** The checksum of a message, bit at a time; `poly` is as given on the command line. */
  function Checksum(poly: Word, s: Settings, msg: seq<Byte>): Word {
    Finish(s, Feed(Reversed(poly), s.initial, Flat(s, msg + Extension(s, |msg|))))
  }

  lemma {:induction false} FlatAdd(s: Settings, m: seq<Byte>, n: seq<Byte>)
    ensures Flat(s, m + n) == Flat(s, m) + Flat(s, n)
  {
    hide InByte;
    if m == [] {
      assert m + n == n;
    } else {
      assert (m + n)[1..] == m[1..] + n;
      FlatAdd(s, m[1..], n);
    }
  }

  lemma FlatOne(s: Settings, b: Byte)
    ensures Flat(s, [b]) == InByte(s, b)
  {
    assert [b][1..] == [];
  }

  // ----- the program -----

  /** `reflectn` */
  method ReflectN(from: Word, n: nat) returns (to: Word)
    requires n <= WIDTH
    ensures to == Widen(Reversed(from[..n]), WIDTH)
  {
    to := Zeros(WIDTH);
    var f: Word := from;
    var i := 0;
    assert Reversed(from[..0]) == [];
    while i < n
      invariant 0 <= i <= n
      invariant f == from[i..] + Zeros(i)
      invariant to == Widen(Reversed(from[..i]), WIDTH)
    {
      assert f[0] == from[i];
      assert Reversed(from[..i + 1]) == [from[i]] + Reversed(from[..i]);
      to := [f[0]] + to[..WIDTH - 1];
      f := f[1..] + [false];
      i := i + 1;
    }
  }

  /** What `fread` can deliver: bytes, or nothing and an error. */
  datatype Chunk = Data(bytes: seq<Byte>) | ReadError

  ghost function Content(chunks: seq<Chunk>): seq<Byte> {
    if chunks == [] then []
    else Content(chunks[..|chunks| - 1]) + var c := chunks[|chunks| - 1]; if c.Data? then c.bytes else []
  }

  class Tool {
    const poly: Word
    const s: Settings
    const p: Word
    const crctab: array<Word>

    ghost predicate Ready()
      reads this, crctab
    {
      p == Reversed(poly) && crctab.Length == 256 && forall n: nat :: n < 256 ==> crctab[n] == Entry(p, n)
    }

    constructor (poly: Word, s: Settings)
      ensures Ready() && this.poly == poly && this.s == s
    {
      this.poly, this.s := poly, s;
      var r := ReflectN(poly, WIDTH);
      assert poly[..WIDTH] == poly && r == Reversed(poly);
      this.p := r;
      var t := BuildTable(r);
      this.crctab := t;
    }

    /** The body of both loops of `calculate`. */
    method Add(c: Word, b: Byte) returns (r: Word)
      requires Ready()
      ensures r == Feed(p, c, InByte(s, b))
    {
      var b' := b;
      if !s.reflectInput {
        var wide := ReflectN(Widen(b, WIDTH), 8);
        assert Widen(b, WIDTH)[..8] == b;
        b' := wide[..8];
        assert b' == Reversed(b);
      }
      r := Update(p, crctab, c, b');
    }

    /** The loop of `calculate` over one buffer. */
    method AddChunk(c: Word, buf: seq<Byte>) returns (r: Word)
      requires Ready()
      ensures r == Feed(p, c, Flat(s, buf))
    {
      hide Feed, Flat, InByte;
      r := c;
      NoMore(p, s, c);
      var i := 0;
      while i < |buf|
        invariant 0 <= i <= |buf|
        invariant r == Feed(p, c, Flat(s, buf[..i]))
      {
        OneMore(p, s, c, buf[..i], buf[i]);
        assert buf[..i + 1] == buf[..i] + [buf[i]];
        r := Add(r, buf[i]);
        i := i + 1;
      }
      assert buf[..i] == buf;
    }

    /** The loop of `calculate` over the octets of the length. */
    method AddLength(c: Word, size: nat) returns (r: Word)
      requires Ready()
      ensures r == Feed(p, c, Flat(s, LengthBytes(size)))
    {
      hide Feed, Flat, InByte, FromNat;
      r := c;
      NoMore(p, s, c);
      var n := size;
      ghost var done: seq<Byte> := [];
      while n > 0
        invariant done + LengthBytes(n) == LengthBytes(size)
        invariant r == Feed(p, c, Flat(s, done))
      {
        OneMore(p, s, c, done, FromNat(n, 8));
        r := Add(r, FromNat(n, 8));
        done := done + [FromNat(n, 8)];
        n := n / 256;
      }
      assert done + [] == done;
    }

    /** `calculate`: whatever the chunks, the result is the checksum of their concatenation. */
    method Calculate(chunks: seq<Chunk>) returns (ok: bool, crc: Word, size: nat)
      requires Ready()
      ensures ok <==> forall i :: 0 <= i < |chunks| ==> chunks[i].Data?
      ensures ok ==> crc == Checksum(poly, s, Content(chunks)) && size == |Content(chunks)|
    {
      hide Feed, Flat, LengthBytes;
      crc, size := s.initial, 0;
      NoMore(p, s, crc);
      var k := 0;
      while k < |chunks|
        invariant 0 <= k <= |chunks|
        invariant forall i :: 0 <= i < k ==> chunks[i].Data?
        invariant size == |Content(chunks[..k])|
        invariant crc == Feed(p, s.initial, Flat(s, Content(chunks[..k])))
      {
        if chunks[k].ReadError? { return false, crc, size; }
        assert chunks[..k + 1][..k] == chunks[..k];
        More(p, s, s.initial, Content(chunks[..k]), chunks[k].bytes);
        crc := AddChunk(crc, chunks[k].bytes);
        size := size + |chunks[k].bytes|;
        k := k + 1;
      }
      assert chunks[..k] == chunks;
      if s.extend {
        More(p, s, s.initial, Content(chunks), LengthBytes(size));
        crc := AddLength(crc, size);
      } else {
        assert Content(chunks) + [] == Content(chunks);
      }
      crc := Xor(crc, s.finalXor);
      if !s.reflectOutput {
        assert crc[..WIDTH] == crc;
        crc := ReflectN(crc, WIDTH);
      }
      ok := true;
    }
  }

  lemma NoMore(p: Word, s: Settings, c: Word)
    ensures Feed(p, c, Flat(s, [])) == c
  {
  }

  lemma More(p: Word, s: Settings, c: Word, m: seq<Byte>, n: seq<Byte>)
    ensures Feed(p, c, Flat(s, m + n)) == Feed(p, Feed(p, c, Flat(s, m)), Flat(s, n))
  {
    hide Feed, Flat;
    FlatAdd(s, m, n);
    FeedAdd(p, c, Flat(s, m), Flat(s, n));
  }

  lemma OneMore(p: Word, s: Settings, c: Word, msg: seq<Byte>, b: Byte)
    ensures Feed(p, c, Flat(s, msg + [b])) == Feed(p, Feed(p, c, Flat(s, msg)), InByte(s, b))
  {
    hide Feed, Flat;
    More(p, s, c, msg, [b]);
    FlatOne(s, b);
  }

  // ----- which errors the checksum detects -----

  /** With the low bit of the polynomial set, a step loses nothing. */
  lemma StepInjective(p: Bits, a: Bits, b: Bits)
    requires |p| == |a| == |b| > 0 && p[|p| - 1] && Step(p, a) == Step(p, b)
    ensures a == b
  {
    var w := |p|;
    var sa, sb := Step(p, a), Step(p, b);
    assert sa[w - 1] == a[0] && sb[w - 1] == b[0];
    forall i | 0 < i < w ensures a[i] == b[i] {
      assert sa[i - 1] == sb[i - 1];
    }
  }

  lemma {:induction false} StepsInjective(p: Bits, a: Bits, b: Bits, n: nat)
    requires |p| == |a| == |b| > 0 && p[|p| - 1]
    ensures Steps(p, a, n) == Steps(p, b, n) ==> a == b
    decreases n
  {
    hide Step;
    if n > 0 {
      StepsInjective(p, Step(p, a), Step(p, b), n - 1);
      if Step(p, a) == Step(p, b) { StepInjective(p, a, b); }
    }
  }

  lemma XorInjective(a: Bits, b: Bits, c: Bits)
    requires |a| == |b| == |c| && Xor(a, c) == Xor(b, c)
    ensures a == b
  {
    forall i | 0 <= i < |a| ensures a[i] == b[i] {
      assert Xor(a, c)[i] == Xor(b, c)[i];
    }
  }

  /** The same bits keep different registers apart. */
  lemma {:induction false} FeedInjective(p: Bits, a: Bits, b: Bits, msg: Bits)
    requires |p| == |a| == |b| > 0 && p[|p| - 1]
    ensures Feed(p, a, msg) == Feed(p, b, msg) ==> a == b
    decreases |msg|
  {
    hide Step, Xor;
    if msg != [] && Feed(p, a, msg) == Feed(p, b, msg) {
      var x := Widen(msg[..1], |p|);
      FeedInjective(p, Step(p, Xor(a, x)), Step(p, Xor(b, x)), msg[1..]);
      StepInjective(p, Xor(a, x), Xor(b, x));
      XorInjective(a, b, x);
    }
  }

  /** Up to a register's width of different bits lead to different registers. */
  lemma BurstInjective(p: Bits, c: Bits, m: Bits, n: Bits)
    requires |p| == |c| > 0 && p[|p| - 1] && |m| == |n| <= |c| && Feed(p, c, m) == Feed(p, c, n)
    ensures m == n
  {
    hide Feed, Steps;
    var x, y := Widen(m, |c|), Widen(n, |c|);
    FeedWord(p, c, m);
    FeedWord(p, c, n);
    StepsInjective(p, Xor(c, x), Xor(c, y), |m|);
    forall i | 0 <= i < |m| ensures m[i] == n[i] {
      assert Xor(c, x)[i] == Xor(c, y)[i] && x[i] == m[i] && y[i] == n[i];
    }
  }

  lemma {:induction false} FlatInjective(s: Settings, m: seq<Byte>, n: seq<Byte>)
    requires |m| == |n| && Flat(s, m) == Flat(s, n)
    ensures m == n
  {
    if m != [] {
      var x, y := InByte(s, m[0]), InByte(s, n[0]);
      assert Flat(s, m)[..8] == x && Flat(s, n)[..8] == y;
      assert Flat(s, m)[8..] == Flat(s, m[1..]) && Flat(s, n)[8..] == Flat(s, n[1..]);
      FlatInjective(s, m[1..], n[1..]);
      InByteTwice(s, m[0]);
      InByteTwice(s, n[0]);
    }
  }

  lemma InByteTwice(s: Settings, b: Byte)
    ensures InByte(s, InByte(s, b)) == b
  {
  }

  lemma {:induction false} FlatSize(s: Settings, m: seq<Byte>)
    ensures |Flat(s, m)| == 8 * |m|
  {
    if m != [] { FlatSize(s, m[1..]); }
  }

  lemma FinishInjective(s: Settings, a: Word, b: Word)
    requires Finish(s, a) == Finish(s, b)
    ensures a == b
  {
    var x, y := Xor(a, s.finalXor), Xor(b, s.finalXor);
    assert x == y by {
      if !s.reflectOutput {
        forall i | 0 <= i < WIDTH ensures x[i] == y[i] {
          assert Reversed(x)[WIDTH - 1 - i] == Reversed(y)[WIDTH - 1 - i];
        }
      }
    }
    XorInjective(a, b, s.finalXor);
  }

  /** The register after three parts of a message, the last with the length octets. */
  lemma ThreeParts(p: Word, s: Settings, u: seq<Byte>, v: seq<Byte>, w: seq<Byte>)
    ensures Feed(p, s.initial, Flat(s, u + v + w)) ==
            Feed(p, Feed(p, Feed(p, s.initial, Flat(s, u)), Flat(s, v)), Flat(s, w))
  {
    hide Feed, Flat;
    More(p, s, s.initial, u + v, w);
    More(p, s, s.initial, u, v);
  }

  /** a and b agree except perhaps in the four bytes from k on. */
  predicate SameOutside(a: seq<Byte>, b: seq<Byte>, k: nat) {
    |a| == |b| && forall i :: 0 <= i < |a| && !(k <= i < k + 4) ==> a[i] == b[i]
  }

  /** A change within four consecutive bytes changes the checksum. */
  lemma BurstDetected(poly: Word, s: Settings, a: seq<Byte>, b: seq<Byte>, k: nat)
    requires poly[0] && SameOutside(a, b, k)
    ensures Checksum(poly, s, a) == Checksum(poly, s, b) ==> a == b
  {
    hide Feed, Flat, Finish, LengthBytes;
    if Checksum(poly, s, a) != Checksum(poly, s, b) { return; }
    var p: Word, n := Reversed(poly), |a|;
    var x, y := if k < n then k else n, if k + 4 < n then k + 4 else n;
    var u, w := a[..x], a[y..] + Extension(s, n);
    assert b[..x] == u && b[y..] == a[y..];
    assert a + Extension(s, n) == u + a[x..y] + w;
    assert b + Extension(s, n) == u + b[x..y] + w;
    FinishInjective(s, Feed(p, s.initial, Flat(s, a + Extension(s, n))), Feed(p, s.initial, Flat(s, b + Extension(s, n))));
    SameMiddle(p, s, u, a[x..y], b[x..y], w);
    assert a == u + a[x..y] + a[y..] && b == u + b[x..y] + b[y..];
  }

  lemma SameMiddle(p: Word, s: Settings, u: seq<Byte>, v: seq<Byte>, v': seq<Byte>, w: seq<Byte>)
    requires p[WIDTH - 1] && |v| == |v'| <= 4
    ensures Feed(p, s.initial, Flat(s, u + v + w)) == Feed(p, s.initial, Flat(s, u + v' + w)) ==> v == v'
  {
    hide Feed, Flat;
    if Feed(p, s.initial, Flat(s, u + v + w)) != Feed(p, s.initial, Flat(s, u + v' + w)) { return; }
    var c := Feed(p, s.initial, Flat(s, u));
    ThreeParts(p, s, u, v, w);
    ThreeParts(p, s, u, v', w);
    FeedInjective(p, Feed(p, c, Flat(s, v)), Feed(p, c, Flat(s, v')), Flat(s, w));
    FlatSize(s, v);
    FlatSize(s, v');
    BurstInjective(p, c, Flat(s, v), Flat(s, v'));
    FlatInjective(s, v, v');
  }

  /** Four message bytes that put a given word into the register. */
  function WordBytes(s: Settings, x: Word): seq<Byte> {
    [InByte(s, x[..8]), InByte(s, x[8..16]), InByte(s, x[16..24]), InByte(s, x[24..])]
  }

  lemma FlatWord(s: Settings, x: Word)
    ensures Flat(s, WordBytes(s, x)) == x
  {
    hide InByte;
    var b := WordBytes(s, x);
    FlatFour(s, b);
    InByteTwice(s, x[..8]);
    InByteTwice(s, x[8..16]);
    InByteTwice(s, x[16..24]);
    InByteTwice(s, x[24..]);
    assert x == x[..8] + x[8..16] + x[16..24] + x[24..];
  }

  lemma FlatFour(s: Settings, b: seq<Byte>)
    requires |b| == 4
    ensures Flat(s, b) == InByte(s, b[0]) + InByte(s, b[1]) + InByte(s, b[2]) + InByte(s, b[3])
  {
    hide Flat, InByte;
    assert b == [b[0]] + [b[1]] + [b[2]] + [b[3]];
    FlatOne(s, b[0]);
    FlatOne(s, b[1]);
    FlatOne(s, b[2]);
    FlatOne(s, b[3]);
    FlatAdd(s, [b[0]] + [b[1]] + [b[2]], [b[3]]);
    FlatAdd(s, [b[0]] + [b[1]], [b[2]]);
    FlatAdd(s, [b[0]], [b[1]]);
  }

  /** With the low bit clear, some non-zero word is divided away to nothing. */
  lemma Lost(p: Word)
    requires !p[WIDTH - 1]
    ensures var x: Word := [true] + p[..WIDTH - 1];
            Steps(p, x, WIDTH) == Steps(p, Zeros(WIDTH), WIDTH)
  {
    var x: Word := [true] + p[..WIDTH - 1];
    assert Step(p, x) == Zeros(WIDTH);
    assert Step(p, Zeros(WIDTH)) == Zeros(WIDTH);
    StepsAdd(p, x, 1, WIDTH - 1);
    StepsAdd(p, Zeros(WIDTH), 1, WIDTH - 1);
  }

  /** Then two messages that differ in four consecutive bytes collide, wherever those are. */
  lemma BurstMissed(poly: Word, s: Settings, pre: seq<Byte>, post: seq<Byte>) returns (v: seq<Byte>, v': seq<Byte>)
    requires !poly[0]
    ensures |v| == |v'| == 4 && v != v'
    ensures Checksum(poly, s, pre + v + post) == Checksum(poly, s, pre + v' + post)
  {
    hide Feed, Flat, Steps, LengthBytes, WordBytes, Reversed, Xor, Zeros;
    var p: Word := Reversed(poly);
    var c: Word := Feed(p, s.initial, Flat(s, pre));
    var x: Word := [true] + p[..WIDTH - 1];
    var d: Word := Xor(c, x);
    v, v' := WordBytes(s, c), WordBytes(s, d);
    FlatWord(s, c);
    FlatWord(s, d);
    assert c[0] != d[0];
    Lost(p);
    FeedWhole(p, c, c);
    FeedWhole(p, c, d);
    assert Xor(c, c) == Zeros(WIDTH) && Xor(c, d) == x;
    WordBytesSize(s, c);
    WordBytesSize(s, d);
    var w := post + Extension(s, |pre + v + post|);
    ThreeParts(p, s, pre, v, w);
    ThreeParts(p, s, pre, v', w);
    assert pre + v + post + Extension(s, |pre + v + post|) == pre + v + w;
    assert pre + v' + post + Extension(s, |pre + v + post|) == pre + v' + w;
  }

  lemma WordBytesSize(s: Settings, x: Word)
    ensures |WordBytes(s, x)| == 4
  {
  }

  lemma FeedWhole(p: Word, c: Word, m: Word)
    ensures Feed(p, c, m) == Steps(p, Xor(c, m), WIDTH)
  {
    hide Feed, Steps;
    FeedWord(p, c, m);
    assert Widen(m, WIDTH) == m;
  }

  ghost predicate DetectsBursts(poly: Word, s: Settings) {
    forall a: seq<Byte>, b: seq<Byte>, k: nat ::
      SameOutside(a, b, k) && Checksum(poly, s, a) == Checksum(poly, s, b) ==> a == b
  }

  /** All bursts of up to four bytes are detected exactly when the polynomial is odd. */
  lemma DetectsBurstsIff(poly: Word, s: Settings)
    ensures DetectsBursts(poly, s) <==> poly[0]
  {
    hide Checksum;
    if poly[0] {
      forall a: seq<Byte>, b: seq<Byte>, k: nat | SameOutside(a, b, k) && Checksum(poly, s, a) == Checksum(poly, s, b)
        ensures a == b
      {
        BurstDetected(poly, s, a, b, k);
      }
    } else {
      var v, v' := BurstMissed(poly, s, [], []);
      assert [] + v + [] == v && [] + v' + [] == v';
      assert SameOutside(v, v', 0);
    }
  }

  // ----- the mirrored register, and long division -----

  /** (r << 1) ^ (top bit of r ? g : 0) */
  function StepUp(g: Bits, r: Bits): (r': Bits)
    requires |g| == |r| > 0
    ensures |r'| == |r|
  {
    var w := |r|;
    Xor([false] + r[..w - 1], if r[w - 1] then g else Zeros(w))
  }

  /** The checksum register that shifts up: message bits enter at the high end. */
  function FeedUp(g: Bits, r: Bits, msg: Bits): (r': Bits)
    requires |g| == |r| > 0
    ensures |r'| == |r|
    decreases |msg|
  {
    if msg == [] then r else FeedUp(g, StepUp(g, Xor(r, Zeros(|r| - 1) + msg[..1])), msg[1..])
  }

  /** Schoolbook division of the polynomial whose coefficients are `msg`, highest first, by
      x^w + g: bring down one coefficient at a time; what is left is the remainder. */
  function Divide(g: Bits, r: Bits, msg: Bits): (r': Bits)
    requires |g| == |r| > 0
    ensures |r'| == |r|
    decreases |msg|
  {
    if msg == [] then r else Divide(g, Next(g, r, msg[..1]), msg[1..])
  }

  /** The register after one more coefficient is brought down. */
  function Next(g: Bits, r: Bits, b: Bits): (r': Bits)
    requires |g| == |r| > 0 && |b| == 1
    ensures |r'| == |r|
  {
    Xor(b + r[..|r| - 1], if r[|r| - 1] then g else Zeros(|r|))
  }

  /** The product of two polynomials over GF(2), coefficients highest first. */
  function Product(d: Bits, q: Bits): (m: Bits)
    requires |d| > 0
    ensures |m| == |q| + |d| - 1
  {
    if q == [] then Zeros(|d| - 1)
    else Xor(if q[0] then d + Zeros(|q| - 1) else Zeros(|q| + |d| - 1), [false] + Product(d, q[1..]))
  }

  function Quotient(g: Bits, r: Bits, msg: Bits): (q: Bits)
    requires |g| == |r| > 0
    ensures |q| == |msg|
    decreases |msg|
  {
    if msg == [] then [] else [r[|r| - 1]] + Quotient(g, Next(g, r, msg[..1]), msg[1..])
  }

  lemma XorAssoc(a: Bits, b: Bits, c: Bits)
    requires |a| == |b| == |c|
    ensures Xor(Xor(a, b), c) == Xor(a, Xor(b, c))
  {
    hide Xor;
  }

  lemma XorTail(a: Bits, b: Bits)
    requires |a| == |b|
    ensures Xor([false] + a, [false] + b) == [false] + Xor(a, b)
  {
    hide Xor;
  }

  /** The multiple of the divisor that cancels the leading coefficient `top`. */
  function Lead(g: Bits, top: bool, n: nat): (l: Bits)
    ensures |l| == |g| + 1 + n
  {
    if top then [true] + Reversed(g) + Zeros(n) else Zeros(|g| + 1 + n)
  }

  /** Division with remainder: what is divided is the quotient times the divisor x^w + g plus
      a remainder of degree below w. */
  lemma {:induction false} DivideIsDivision(g: Bits, r: Bits, msg: Bits)
    requires |g| == |r| > 0
    ensures Reversed(r) + msg ==
            Xor(Product([true] + Reversed(g), Quotient(g, r, msg)), Zeros(|msg|) + Reversed(Divide(g, r, msg)))
    decreases |msg|
  {
    hide Xor, Zeros, Reversed, Next, Product, Lead;
    var d := [true] + Reversed(g);
    if msg == [] {
      DivideNothing(d, Reversed(r));
    } else {
      var r', rest := Next(g, r, msg[..1]), msg[1..];
      var q, e := Quotient(g, r', rest), Reversed(Divide(g, r', rest));
      DivideIsDivision(g, r', rest);
      CancelLead(g, r, msg);
      ProductStep(g, r[|r| - 1], q);
      XorTail(Product(d, q), Zeros(|rest|) + e);
      ZerosStep(|msg|, e);
      XorAssoc(Lead(g, r[|r| - 1], |rest|), [false] + Product(d, q), [false] + (Zeros(|rest|) + e));
    }
  }

  lemma DivideNothing(d: Bits, r: Bits)
    requires |d| == |r| + 1
    ensures r + [] == Xor(Product(d, []), Zeros(0) + r)
  {
  }

  lemma ZerosStep(n: nat, e: Bits)
    requires n > 0
    ensures [false] + (Zeros(n - 1) + e) == Zeros(n) + e
  {
  }

  lemma ProductStep(g: Bits, top: bool, q: Bits)
    ensures Product([true] + Reversed(g), [top] + q) ==
            Xor(Lead(g, top, |q|), [false] + Product([true] + Reversed(g), q))
  {
    hide Xor, Zeros, Reversed, Product, Lead;
    LeadIs(g, top, |q|);
    ProductCons([true] + Reversed(g), top, q, Lead(g, top, |q|));
  }

  lemma LeadIs(g: Bits, top: bool, n: nat)
    ensures var d := [true] + Reversed(g); Lead(g, top, n) == if top then d + Zeros(n) else Zeros(n + |d|)
  {
    hide Zeros, Reversed;
  }

  lemma ProductCons(d: Bits, top: bool, q: Bits, lead: Bits)
    requires |d| > 0 && lead == if top then d + Zeros(|q|) else Zeros(|q| + |d|)
    ensures |lead| == |q| + |d| && Product(d, [top] + q) == Xor(lead, [false] + Product(d, q))
  {
    hide Xor, Zeros, Product;
    var m := [top] + q;
    assert m[0] == top && m[1..] == q;
    ProductUnfold(d, m);
  }

  lemma ProductUnfold(d: Bits, m: Bits)
    requires |d| > 0 && m != []
    ensures Product(d, m) ==
            Xor(if m[0] then d + Zeros(|m| - 1) else Zeros(|m| + |d| - 1), [false] + Product(d, m[1..]))
  {
    hide Xor, Zeros;
  }

  lemma LeadAt(g: Bits, top: bool, n: nat, i: nat)
    requires i < |g| + 1 + n
    ensures Lead(g, top, n)[i] == (top && (i == 0 || (i <= |g| && g[|g| - i])))
  {
    hide Zeros, Reversed;
  }

  lemma NextAt(g: Bits, r: Bits, b: Bits, x: nat)
    requires |g| == |r| > x && |b| == 1
    ensures Next(g, r, b)[x] == ((if x == 0 then b[0] else r[x - 1]) != (r[|r| - 1] && g[x]))
  {
    hide Xor, Zeros;
  }

  /** Subtracting that multiple leaves the next register and the coefficients still to come. */
  lemma CancelLead(g: Bits, r: Bits, msg: Bits)
    requires |g| == |r| > 0 && msg != []
    ensures Reversed(r) + msg ==
            Xor(Lead(g, r[|r| - 1], |msg| - 1), [false] + (Reversed(Next(g, r, msg[..1])) + msg[1..]))
  {
    hide Xor, Zeros, Reversed, Next, Lead;
    var w, next := |r|, Next(g, r, msg[..1]);
    var all, lead, tail := Reversed(r) + msg, Lead(g, r[|r| - 1], |msg| - 1), [false] + (Reversed(next) + msg[1..]);
    forall i: nat | i < w + |msg| ensures all[i] == (lead[i] != tail[i]) {
      LeadAt(g, r[w - 1], |msg| - 1, i);
      if 0 < i <= w {
        assert tail[i] == next[w - i];
        NextAt(g, r, msg[..1], w - i);
      }
    }
  }

  lemma StepUpAt(g: Bits, r: Bits, i: nat)
    requires |g| == |r| > i
    ensures StepUp(g, r)[i] == ((i > 0 && r[i - 1]) != (r[|r| - 1] && g[i]))
  {
    hide Xor, Zeros;
  }

  lemma StepMirror(g: Bits, c: Bits)
    requires |g| == |c| > 0
    ensures Reversed(Step(Reversed(g), c)) == StepUp(g, Reversed(c))
  {
    hide Step, StepUp, Reversed;
    forall i: nat | i < |c| ensures Reversed(Step(Reversed(g), c))[i] == StepUp(g, Reversed(c))[i] {
      StepAt(Reversed(g), c, |c| - 1 - i);
      StepUpAt(g, Reversed(c), i);
    }
  }

  lemma InputMirror(c: Bits, m: Bits)
    requires |m| == 1 && |c| > 0
    ensures Reversed(Xor(c, Widen(m, |c|))) == Xor(Reversed(c), Zeros(|c| - 1) + m)
  {
    hide Reversed, Xor, Zeros;
  }

  /** The reflected engine is the mirror image of the one that shifts up. */
  lemma {:induction false} Mirror(g: Bits, c: Bits, msg: Bits)
    requires |g| == |c| > 0
    ensures Reversed(Feed(Reversed(g), c, msg)) == FeedUp(g, Reversed(c), msg)
    decreases |msg|
  {
    hide Step, StepUp, Reversed, Xor, Widen, Zeros;
    if msg != [] {
      var x := Xor(c, Widen(msg[..1], |c|));
      InputMirror(c, msg[..1]);
      StepMirror(g, x);
      Mirror(g, Step(Reversed(g), x), msg[1..]);
    }
  }

  // Dividing zeros only: the register is stepped.

  function StepsUp(g: Bits, r: Bits, n: nat): (r': Bits)
    requires |g| == |r| > 0
    ensures |r'| == |r|
    decreases n
  {
    if n == 0 then r else StepsUp(g, StepUp(g, r), n - 1)
  }

  lemma StepUpXor(g: Bits, a: Bits, b: Bits)
    requires |g| == |a| == |b| > 0
    ensures StepUp(g, Xor(a, b)) == Xor(StepUp(g, a), StepUp(g, b))
  {
    hide StepUp, Xor;
    forall i: nat | i < |g| ensures StepUp(g, Xor(a, b))[i] == Xor(StepUp(g, a), StepUp(g, b))[i] {
      StepUpAt(g, Xor(a, b), i);
      StepUpAt(g, a, i);
      StepUpAt(g, b, i);
    }
  }

  lemma {:induction false} StepsUpXor(g: Bits, a: Bits, b: Bits, n: nat)
    requires |g| == |a| == |b| > 0
    ensures StepsUp(g, Xor(a, b), n) == Xor(StepsUp(g, a, n), StepsUp(g, b, n))
    decreases n
  {
    hide StepUp, Xor;
    if n > 0 {
      StepUpXor(g, a, b);
      StepsUpXor(g, StepUp(g, a), StepUp(g, b), n - 1);
    }
  }

  lemma {:induction false} StepsUpLast(g: Bits, r: Bits, n: nat)
    requires |g| == |r| > 0
    ensures StepsUp(g, r, n + 1) == StepUp(g, StepsUp(g, r, n))
    decreases n
  {
    hide StepUp;
    if n > 0 { StepsUpLast(g, StepUp(g, r), n - 1); }
  }

  lemma {:induction false} DivideZeros(g: Bits, r: Bits, n: nat)
    requires |g| == |r| > 0
    ensures Divide(g, r, Zeros(n)) == StepsUp(g, r, n)
    decreases n
  {
    if n > 0 {
      assert Zeros(n)[..1] == [false] && Zeros(n)[1..] == Zeros(n - 1);
      assert Next(g, r, [false]) == StepUp(g, r);
      DivideZeros(g, StepUp(g, r), n - 1);
    }
  }

  /** The bit b at position i of a register of width w. */
  function At(b: Bits, i: nat, w: nat): (r: Bits)
    requires |b| == 1 && i < w
    ensures |r| == w
  {
    Zeros(i) + b + Zeros(w - 1 - i)
  }

  lemma {:induction false} RaiseBit(g: Bits, b: Bits, i: nat)
    requires |b| == 1 && i < |g|
    ensures StepsUp(g, At(b, 0, |g|), i) == At(b, i, |g|)
    decreases i
  {
    hide StepUp, At;
    if i > 0 {
      StepsUpLast(g, At(b, 0, |g|), i - 1);
      RaiseBit(g, b, i - 1);
      RaiseOnce(g, b, i);
    }
  }

  lemma RaiseOnce(g: Bits, b: Bits, i: nat)
    requires |b| == 1 && 0 < i < |g|
    ensures StepUp(g, At(b, i - 1, |g|)) == At(b, i, |g|)
  {
    hide StepUp, Zeros;
    forall x: nat | x < |g| ensures StepUp(g, At(b, i - 1, |g|))[x] == At(b, i, |g|)[x] {
      StepUpAt(g, At(b, i - 1, |g|), x);
    }
  }

  lemma NextIsStep(g: Bits, r: Bits, b: Bits)
    requires |g| == |r| > 0 && |b| == 1
    ensures Next(g, r, b) == Xor(StepUp(g, r), At(b, 0, |r|))
    ensures At(b, |r| - 1, |r|) == Zeros(|r| - 1) + b
  {
    hide StepUp, Xor, Zeros;
    forall i: nat | i < |r| ensures Next(g, r, b)[i] == Xor(StepUp(g, r), At(b, 0, |r|))[i] {
      StepUpAt(g, r, i);
    }
  }

  /** Bringing down b first and w zeros later is entering b at the high end. */
  lemma BringDown(g: Bits, r: Bits, b: Bits)
    requires |g| == |r| > 0 && |b| == 1
    ensures StepsUp(g, Next(g, r, b), |r|) == StepUp(g, Xor(StepsUp(g, r, |r|), Zeros(|r| - 1) + b))
  {
    hide StepsUp, StepUp, Next, At, Xor, Zeros;
    var w := |r|;
    var low, high := At(b, 0, w), At(b, w - 1, w);
    NextIsStep(g, r, b);
    StepsUpXor(g, StepUp(g, r), low, w);
    StepsUpShiftFirst(g, r, w);
    RaiseBit(g, b, w - 1);
    StepsUpLast(g, low, w - 1);
    StepUpXor(g, StepsUp(g, r, w), high);
  }

  lemma StepsUpShiftFirst(g: Bits, r: Bits, n: nat)
    requires |g| == |r| > 0
    ensures StepsUp(g, StepUp(g, r), n) == StepUp(g, StepsUp(g, r, n))
  {
    StepsUpLast(g, r, n);
  }

  /** Dividing a message followed by w zeros is running the register over the message. */
  lemma {:induction false} DivideAugmented(g: Bits, r: Bits, msg: Bits)
    requires |g| == |r| > 0
    ensures Divide(g, r, msg + Zeros(|r|)) == FeedUp(g, StepsUp(g, r, |r|), msg)
    decreases |msg|
  {
    hide StepsUp, StepUp, Next, Xor, Zeros;
    var w := |r|;
    if msg == [] {
      assert msg + Zeros(w) == Zeros(w);
      DivideZeros(g, r, w);
    } else {
      assert (msg + Zeros(w))[..1] == msg[..1] && (msg + Zeros(w))[1..] == msg[1..] + Zeros(w);
      BringDown(g, r, msg[..1]);
      DivideAugmented(g, Next(g, r, msg[..1]), msg[1..]);
    }
  }

  lemma {:induction false} StepsUpZero(g: Bits, n: nat)
    requires |g| > 0
    ensures StepsUp(g, Zeros(|g|), n) == Zeros(|g|)
    decreases n
  {
    hide StepUp;
    if n > 0 {
      forall i: nat | i < |g| ensures !StepUp(g, Zeros(|g|))[i] { StepUpAt(g, Zeros(|g|), i); }
      assert StepUp(g, Zeros(|g|)) == Zeros(|g|);
      StepsUpZero(g, n - 1);
    }
  }

  // ----- every setting -----

  lemma NextXor(g: Bits, a: Bits, b: Bits, x: Bits, y: Bits)
    requires |g| == |a| == |b| > 0 && |x| == |y| == 1
    ensures Next(g, Xor(a, b), Xor(x, y)) == Xor(Next(g, a, x), Next(g, b, y))
  {
    hide Next, Xor;
    forall i: nat | i < |g| ensures Next(g, Xor(a, b), Xor(x, y))[i] == Xor(Next(g, a, x), Next(g, b, y))[i] {
      NextAt(g, Xor(a, b), Xor(x, y), i);
      NextAt(g, a, x, i);
      NextAt(g, b, y, i);
    }
  }

  /** The remainder of a sum is the sum of the remainders. */
  lemma {:induction false} DivideXor(g: Bits, a: Bits, b: Bits, m: Bits, n: Bits)
    requires |g| == |a| == |b| > 0 && |m| == |n|
    ensures Divide(g, Xor(a, b), Xor(m, n)) == Xor(Divide(g, a, m), Divide(g, b, n))
    decreases |m|
  {
    hide Next, Xor;
    if m != [] {
      assert Xor(m, n)[..1] == Xor(m[..1], n[..1]) && Xor(m, n)[1..] == Xor(m[1..], n[1..]);
      NextXor(g, a, b, m[..1], n[..1]);
      DivideXor(g, Next(g, a, m[..1]), Next(g, b, n[..1]), m[1..], n[1..]);
    }
  }

  lemma {:induction false} DivideAdd(g: Bits, r: Bits, m: Bits, n: Bits)
    requires |g| == |r| > 0
    ensures Divide(g, r, m + n) == Divide(g, Divide(g, r, m), n)
    decreases |m|
  {
    hide Next;
    if m == [] {
      assert m + n == n;
    } else {
      assert (m + n)[..1] == m[..1] && (m + n)[1..] == m[1..] + n;
      DivideAdd(g, Next(g, r, m[..1]), m[1..], n);
    }
  }

  /** A polynomial of degree below w is its own remainder. */
  lemma {:induction false} DivideShort(g: Bits, m: Bits)
    requires |m| <= |g| && |g| > 0
    ensures Divide(g, Zeros(|g|), m) == Widen(Reversed(m), |g|)
    decreases |m|
  {
    hide Next, Widen, Reversed, Zeros;
    var w := |g|;
    if m == [] {
      ShortStart(w);
    } else {
      var k := |m| - 1;
      var r := Widen(Reversed(m[..k]), w);
      DivideShort(g, m[..k]);
      assert m == m[..k] + m[k..];
      DivideAdd(g, Zeros(w), m[..k], m[k..]);
      assert m[k..][..1] == m[k..];
      DivideOne(g, r, m[k..]);
      ShortStep(g, m);
    }
  }

  lemma DivideOne(g: Bits, r: Bits, b: Bits)
    requires |g| == |r| > 0 && |b| == 1
    ensures Divide(g, r, b) == Next(g, r, b)
  {
    hide Next;
    assert b[..1] == b && b[1..] == [];
  }

  lemma ShortStart(w: nat)
    ensures Widen(Reversed([]), w) == Zeros(w)
  {
  }

  lemma ShortStep(g: Bits, m: Bits)
    requires 0 < |m| <= |g|
    ensures var k := |m| - 1; Next(g, Widen(Reversed(m[..k]), |g|), m[k..]) == Widen(Reversed(m), |g|)
  {
    hide Next;
    var k, w := |m| - 1, |g|;
    var r := Widen(Reversed(m[..k]), w);
    forall i: nat | i < w ensures Next(g, r, m[k..])[i] == Widen(Reversed(m), w)[i] {
      NextAt(g, r, m[k..], i);
    }
  }

  lemma {:induction false} FeedUpXor(g: Bits, a: Bits, r: Bits, msg: Bits)
    requires |g| == |a| == |r| > 0
    ensures FeedUp(g, Xor(a, r), msg) == Xor(FeedUp(g, a, msg), StepsUp(g, r, |msg|))
    decreases |msg|
  {
    hide StepUp, Xor, Zeros;
    if msg != [] {
      var x := Zeros(|g| - 1) + msg[..1];
      assert Xor(Xor(a, r), x) == Xor(Xor(a, x), r);
      StepUpXor(g, Xor(a, x), r);
      FeedUpXor(g, StepUp(g, Xor(a, x)), StepUp(g, r), msg[1..]);
    }
  }

  lemma XorZeros(r: Bits)
    ensures Xor(Zeros(|r|), r) == r && Widen(Reversed(Reversed(r)), |r|) == r
  {
  }

  lemma DivideInitial(g: Bits, r: Bits, n: nat)
    requires |g| == |r| > 0
    ensures Divide(g, Zeros(|r|), Reversed(r) + Zeros(n)) == StepsUp(g, r, n)
  {
    hide *;
    XorZeros(r);
    DivideShort(g, Reversed(r));
    DivideAdd(g, Zeros(|r|), Reversed(r), Zeros(n));
    DivideZeros(g, r, n);
  }

  /** An initial value of the register is added to the leading coefficients of the message. */
  lemma FeedUpInitial(g: Bits, r: Bits, msg: Bits)
    requires |g| == |r| > 0
    ensures FeedUp(g, r, msg) == Divide(g, Zeros(|r|), Xor(msg + Zeros(|r|), Reversed(r) + Zeros(|msg|)))
  {
    hide *;
    var z := Zeros(|r|);
    XorZeros(z);
    XorZeros(r);
    DivideXor(g, z, z, msg + z, Reversed(r) + Zeros(|msg|));
    DivideAugmented(g, z, msg);
    StepsUpZero(g, |r|);
    DivideInitial(g, r, |msg|);
    FeedUpXor(g, z, r, msg);
  }

  // ----- the order of the bits -----

  /** The bits of a message, most significant bit of every octet first... */
  function HighFirst(msg: seq<Byte>): Bits {
    if msg == [] then [] else Reversed(msg[0]) + HighFirst(msg[1..])
  }

  /** ...and least significant bit first. */
  function LowFirst(msg: seq<Byte>): Bits {
    if msg == [] then [] else msg[0] + LowFirst(msg[1..])
  }

  lemma {:induction false} FlatIs(s: Settings, msg: seq<Byte>)
    ensures Flat(s, msg) == if s.reflectInput then LowFirst(msg) else HighFirst(msg)
  {
    if msg != [] { FlatIs(s, msg[1..]); }
  }

  /** Bit by bit: octets in order, and the bits of each from the one end or the other. */
  lemma {:induction false} FlatAt(s: Settings, msg: seq<Byte>, i: nat, k: nat)
    requires i < |msg| && k < 8
    ensures |Flat(s, msg)| == 8 * |msg|
    ensures Flat(s, msg)[8 * i + k] == if s.reflectInput then msg[i][k] else msg[i][7 - k]
    decreases i
  {
    FlatSize(s, msg);
    FlatStep(s, msg);
    hide Flat, Reversed, InByte;
    if i == 0 {
      InByteAt(s, msg[0], k);
    } else {
      FlatAt(s, msg[1..], i - 1, k);
      assert msg[1..][i - 1] == msg[i];
    }
  }

  lemma FlatStep(s: Settings, msg: seq<Byte>)
    requires msg != []
    ensures Flat(s, msg) == InByte(s, msg[0]) + Flat(s, msg[1..])
  {
  }

  lemma InByteAt(s: Settings, b: Byte, k: nat)
    requires k < 8
    ensures InByte(s, b)[k] == if s.reflectInput then b[k] else b[7 - k]
  {
  }

  /** The checksum as a remainder, whatever the settings.  The message, its bits in the chosen order, is
      followed by w zeros; the initial value, low bit first, is added to its leading coefficients; and the
      remainder by x^w + g is added to the final value, the one or the other reversed. */
  lemma ChecksumIsRemainder(g: Word, s: Settings, msg: seq<Byte>)
    ensures var all := msg + if s.extend then LengthBytes(|msg|) else [];
            var m := if s.reflectInput then LowFirst(all) else HighFirst(all);
            var rem := Divide(g, Zeros(WIDTH), Xor(m + Zeros(WIDTH), s.initial + Zeros(|m|)));
            Checksum(g, s, msg) ==
            if s.reflectOutput then Xor(Reversed(rem), s.finalXor) else Xor(rem, Reversed(s.finalXor))
  {
    hide Feed, FeedUp, Divide, Flat, LowFirst, HighFirst, LengthBytes, Reversed, Xor, Zeros;
    var m := Flat(s, msg + Extension(s, |msg|));
    var c := Feed(Reversed(g), s.initial, m);
    FlatIs(s, msg + Extension(s, |msg|));
    Mirror(g, s.initial, m);
    FeedUpInitial(g, Reversed(s.initial), m);
    assert Reversed(Reversed(s.initial)) == s.initial && Reversed(Reversed(c)) == c;
    assert Reversed(Xor(c, s.finalXor)) == Xor(Reversed(c), Reversed(s.finalXor));
  }

  // ----- the program's own settings, and cksum -----

  function Ones(): Word {
    seq(WIDTH, _ => true)
  }

  /** The settings of a plain crc32, and of -c, which only has another polynomial. */
  const PLAIN := Settings(true, true, Ones(), Ones(), false)

  /** The settings of -P, and of a program called cksum. */
  const CKSUM := Settings(false, false, Zeros(WIDTH), Ones(), true)

  /** The CRC of section 8 of RFC 1952: the message, low bits first and its first 32 bits complemented,
      times x^32, divided by x^32 + g; the remainder complemented and reversed. */
  function GzipCrc(g: Word, msg: seq<Byte>): Word {
    var m := LowFirst(msg);
    Reversed(Xor(Divide(g, Zeros(WIDTH), Xor(m + Zeros(WIDTH), Ones() + Zeros(|m|))), Ones()))
  }

  /** The cksum utility of POSIX.1-2017: the file's bits and the octets of its length, times
      x^32, divided by x^32 + g; the complement of the remainder. */
  function PosixCksum(g: Word, msg: seq<Byte>): Word {
    Xor(Divide(g, Zeros(WIDTH), HighFirst(msg + LengthBytes(|msg|)) + Zeros(WIDTH)), Ones())
  }

  /** Without options the program computes the CRC of RFC 1952, for every polynomial and file. */
  lemma PlainMode(g: Word, msg: seq<Byte>)
    ensures Checksum(g, PLAIN, msg) == GzipCrc(g, msg)
  {
    hide Divide, LowFirst, HighFirst, LengthBytes, Reversed, Xor, Zeros, Checksum;
    ChecksumIsRemainder(g, PLAIN, msg);
    assert msg + [] == msg;
    var m := LowFirst(msg);
    var rem := Divide(g, Zeros(WIDTH), Xor(m + Zeros(WIDTH), Ones() + Zeros(|m|)));
    assert Xor(Reversed(rem), Ones()) == Reversed(Xor(rem, Ones()));
  }

  /** The -P mode computes the POSIX cksum of every file, for every polynomial. */
  lemma CksumMode(g: Word, msg: seq<Byte>)
    ensures Checksum(g, CKSUM, msg) == PosixCksum(g, msg)
  {
    hide Divide, LowFirst, HighFirst, LengthBytes, Reversed, Xor, Zeros, Checksum;
    var m := HighFirst(msg + LengthBytes(|msg|));
    ChecksumIsRemainder(g, CKSUM, msg);
    assert Xor(m + Zeros(WIDTH), Zeros(WIDTH) + Zeros(|m|)) == m + Zeros(WIDTH);
    assert Reversed(Ones()) == Ones();
  }
}
