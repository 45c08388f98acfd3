/**
 The streaming MD5 of func_libs/fx_md5.h on a little-endian host: the rounds in their two forms,
 the buffering of partial blocks, and the padding.

 What is not about single rounds is proved for any round function, as `Cores`. A context has
 absorbed a message when it holds the state after the whole blocks of it and the bytes that follow
 them; the updates are proved to go on absorbing, in whatever pieces the message comes.
 */
module Md5 {
  import opened Arithmetic

  type byte = b: int | 0 <= b < 256

  // ----- the rounds -----

  /** The registers a, b, c, d. */
  datatype Registers = Registers(a: bv32, b: bv32, c: bv32, d: bv32)

  /** S[i >> 4][i & 3] */
  function ShiftOf(i: nat): (t: bv32)
    requires i < 64
    ensures 4 <= t <= 23
  {
    var j := i % 4;
    if i < 16 then if j == 0 then 7 else if j == 1 then 12 else if j == 2 then 17 else 22
    else if i < 32 then if j == 0 then 5 else if j == 1 then 9 else if j == 2 then 14 else 20
    else if i < 48 then if j == 0 then 4 else if j == 1 then 11 else if j == 2 then 16 else 23
    else if j == 0 then 6 else if j == 1 then 10 else if j == 2 then 15 else 21
  }

  /** One of four in a row. */
  function OneOf(j: nat, a: bv32, b: bv32, c: bv32, d: bv32): bv32 {
    if j == 0 then a else if j == 1 then b else if j == 2 then c else d
  }

  /** T[i] */
  function Sine(i: nat): bv32
    requires i < 64
  {
    var k, j := i / 4, i % 4;
    if i < 16 then
      if k == 0 then OneOf(j, 0xd76aa478, 0xe8c7b756, 0x242070db, 0xc1bdceee)
      else if k == 1 then OneOf(j, 0xf57c0faf, 0x4787c62a, 0xa8304613, 0xfd469501)
      else if k == 2 then OneOf(j, 0x698098d8, 0x8b44f7af, 0xffff5bb1, 0x895cd7be)
      else OneOf(j, 0x6b901122, 0xfd987193, 0xa679438e, 0x49b40821)
    else if i < 32 then
      if k == 4 then OneOf(j, 0xf61e2562, 0xc040b340, 0x265e5a51, 0xe9b6c7aa)
      else if k == 5 then OneOf(j, 0xd62f105d, 0x02441453, 0xd8a1e681, 0xe7d3fbc8)
      else if k == 6 then OneOf(j, 0x21e1cde6, 0xc33707d6, 0xf4d50d87, 0x455a14ed)
      else OneOf(j, 0xa9e3e905, 0xfcefa3f8, 0x676f02d9, 0x8d2a4c8a)
    else if i < 48 then
      if k == 8 then OneOf(j, 0xfffa3942, 0x8771f681, 0x6d9d6122, 0xfde5380c)
      else if k == 9 then OneOf(j, 0xa4beea44, 0x4bdecfa9, 0xf6bb4b60, 0xbebfbc70)
      else if k == 10 then OneOf(j, 0x289b7ec6, 0xeaa127fa, 0xd4ef3085, 0x04881d05)
      else OneOf(j, 0xd9d4d039, 0xe6db99e5, 0x1fa27cf8, 0xc4ac5665)
    else
      if k == 12 then OneOf(j, 0xf4292244, 0x432aff97, 0xab9423a7, 0xfc93a039)
      else if k == 13 then OneOf(j, 0x655b59c3, 0x8f0ccc92, 0xffeff47d, 0x85845dd1)
      else if k == 14 then OneOf(j, 0x6fa87e4f, 0xfe2ce6e0, 0xa3014314, 0x4e0811a1)
      else OneOf(j, 0xf7537e82, 0xbd3af235, 0x2ad7d2bb, 0xeb86d391)
  }

  /** The word of the block that round i uses. */
  function WordOf(i: nat): (k: nat)
    requires i < 64
    ensures k < 16
  {
    if i < 16 then i % 16 else if i < 32 then (1 + 5 * i) % 16 else if i < 48 then (5 + 3 * i) % 16 else 7 * i % 16
  }

  function Mix(i: nat, b: bv32, c: bv32, d: bv32): bv32 {
    if i < 16 then d ^ (b & (c ^ d))
    else if i < 32 then (d & b) | (!d & c)
    else if i < 48 then b ^ c ^ d
    else c ^ (b | !d)
  }

  /** x << t | x >> (32 - t) */
  function Rotate(x: bv32, t: bv32): bv32
    requires t <= 32
  {
    (x << t) | (x >> (32 - t))
  }

  /** CORE: the new value of a. */
  function Core(i: nat, a: bv32, b: bv32, c: bv32, d: bv32, x: seq<bv32>): bv32
    requires i < 64 && |x| == 16
  {
    b + Rotate(a + Sine(i) + (Mix(i, b, c, d) + x[WordOf(i)]), ShiftOf(i))
  }

  /** A round: its number and the registers give the new value of the first of them. */
  type Round = (int, bv32, bv32, bv32, bv32) -> bv32

  /** The rounds of a block. */
  function CoreOf(x: seq<bv32>): Round {
    (i, a, b, c, d) => if 0 <= i < 64 && |x| == 16 then Core(i, a, b, c, d, x) else a
  }

  /** The first n rounds with the registers changing their names after each. */
  function Rounds(r: Registers, core: Round, n: nat): Registers {
    if n == 0 then r
    else
      var s := Rounds(r, core, n - 1);
      Registers(s.d, core(n - 1, s.a, s.b, s.c, s.d), s.b, s.c)
  }

  const ROUNDS: nat := 64

  function Sum(r: Registers, s: Registers): Registers {
    Registers(r.a + s.a, r.b + s.b, r.c + s.c, r.d + s.d)
  }

  /** The rounds for the words of a block. What is not about single rounds holds for any of these;
      MD5 has CoreOf. */
  type Cores = seq<bv32> -> Round

  /** One block: the rounds, and the sum with the old state. */
  function Compress(cores: Cores, r: Registers, x: seq<bv32>): Registers {
    Sum(r, Rounds(r, cores(x), ROUNDS))
  }

  /** CORE2: four rounds in which the registers keep their names. */
  method Core2(i: nat, r: Registers, core: Round, ghost r0: Registers) returns (s: Registers)
    requires r == Rounds(r0, core, i)
    ensures s == Rounds(r0, core, i + 4)
  {
    var a, b, c, d := r.a, r.b, r.c, r.d;
    a := core(i, a, b, c, d);
    assert Rounds(r0, core, i + 1) == Registers(d, a, b, c);
    d := core(i + 1, d, a, b, c);
    assert Rounds(r0, core, i + 2) == Registers(c, d, a, b);
    c := core(i + 2, c, d, a, b);
    assert Rounds(r0, core, i + 3) == Registers(b, c, d, a);
    b := core(i + 3, b, c, d, a);
    s := Registers(a, b, c, d);
  }

  /** CORE4 */
  method Core4(i: nat, r: Registers, core: Round, ghost r0: Registers) returns (s: Registers)
    requires r == Rounds(r0, core, i)
    ensures s == Rounds(r0, core, i + 16)
  {
    s := Core2(i, r, core, r0);
    s := Core2(i + 4, s, core, r0);
    s := Core2(i + 8, s, core, r0);
    s := Core2(i + 12, s, core, r0);
  }

  /** The unrolled rounds. */
  method Unrolled(r: Registers, core: Round) returns (s: Registers)
    ensures s == Rounds(r, core, ROUNDS)
  {
    assert r == Rounds(r, core, 0);
    hide Rounds;
    s := Core4(0, r, core, r);
    s := Core4(16, s, core, r);
    s := Core4(32, s, core, r);
    s := Core4(48, s, core, r);
  }

  /** The body of the loop of body(), as it is compiled. */
  method CompressUnrolled(cores: Cores, r: Registers, x: seq<bv32>) returns (s: Registers)
    ensures s == Compress(cores, r, x)
  {
    s := Unrolled(r, cores(x));
    s := Sum(r, s);
  }

  /** With CONFIG_SMALL: the loop that rotates the registers. */
  method Rotating(r: Registers, core: Round) returns (s: Registers)
    ensures s == Rounds(r, core, ROUNDS)
  {
    var a, b, c, d := r.a, r.b, r.c, r.d;
    var i := 0;
    while i < ROUNDS
      invariant 0 <= i <= ROUNDS && Registers(a, b, c, d) == Rounds(r, core, i)
    {
      a := core(i, a, b, c, d);
      var t := d;
      d := c;
      c := b;
      b := a;
      a := t;
      i := i + 1;
    }
    s := Registers(a, b, c, d);
  }

  method CompressSmall(cores: Cores, r: Registers, x: seq<bv32>) returns (s: Registers)
    ensures s == Compress(cores, r, x)
  {
    s := Rotating(r, cores(x));
    s := Sum(r, s);
  }

  // ----- the rounds are those of RFC 1321, section 3.4 -----

  /** F and G choose, bit by bit, between two words: by the bits of the first, or of the last. */
  function F(x: bv32, y: bv32, z: bv32): bv32 {
    (x & y) | (!x & z)
  }

  function G(x: bv32, y: bv32, z: bv32): bv32 {
    F(z, x, y)
  }

  function H(x: bv32, y: bv32, z: bv32): bv32 {
    x ^ y ^ z
  }

  function I(x: bv32, y: bv32, z: bv32): bv32 {
    y ^ (x | !z)
  }

  lemma ChoiceIsF(b: bv32, c: bv32, d: bv32)
    ensures d ^ (b & (c ^ d)) == F(b, c, d)
  {
  }

  /** F takes the bits of y where those of x are set, and the bits of z elsewhere. */
  lemma Choice(x: bv32, y: bv32, z: bv32)
    ensures F(x, y, z) & x == y & x && F(x, y, z) & !x == z & !x
  {
  }

  lemma MixIsRfc(i: nat, b: bv32, c: bv32, d: bv32)
    requires i < 64
    ensures Mix(i, b, c, d) ==
            if i < 16 then F(b, c, d) else if i < 32 then G(b, c, d) else if i < 48 then H(b, c, d) else I(b, c, d)
  {
    ChoiceIsF(b, c, d);
  }

  /** Each group of rounds goes through the 16 words of the block in steps of 1, 5, 3 and 7, from the
      words 0, 1, 5 and 0 on. */
  lemma WordsInSteps(i: nat)
    requires i < 64
    ensures i % 16 == 0 ==> WordOf(i) == if i == 16 then 1 else if i == 32 then 5 else 0
    ensures i % 16 != 0 ==>
              WordOf(i) == (WordOf(i - 1) + if i < 16 then 1 else if i < 32 then 5 else if i < 48 then 3 else 7) % 16
  {
    if i % 16 != 0 {
      StepModulo(i - 1, 1);
      StepModulo(1 + 5 * (i - 1), 5);
      StepModulo(5 + 3 * (i - 1), 3);
      StepModulo(7 * (i - 1), 7);
    }
  }

  lemma StepModulo(x: int, a: int)
    ensures (x + a) % 16 == (x % 16 + a) % 16
  {
  }

  /** ... and meets each word once. */
  lemma WordsOnce(i: nat, j: nat)
    requires i < j < 64 && i / 16 == j / 16
    ensures WordOf(i) != WordOf(j)
  {
    var d := j - i;
    assert 0 < d < 16;
    if i < 16 {
      assert WordOf(j) - WordOf(i) == d;
    } else if i < 32 {
      StepOnce(1 + 5 * i, 5, d);
    } else if i < 48 {
      StepOnce(5 + 3 * i, 3, d);
    } else {
      StepOnce(7 * i, 7, d);
    }
  }

  lemma StepOnce(x: int, a: int, d: int)
    requires 0 < d < 16 && (a == 3 || a == 5 || a == 7)
    ensures (x + a * d) % 16 != x % 16
  {
    assert (x + a * d) % 16 == (x % 16 + a * d) % 16 by { StepModulo(x, a * d); }
  }

  // ----- rotations as numbers -----

  function Power(t: bv32): (p: int)
    ensures p > 0
    decreases t
  {
    if t == 0 then 1 else 2 * Power(t - 1)
  }

  lemma RotateOne(x: bv32)
    ensures Rotate(x, 1) as int == if x as int >= 0x8000_0000 then 2 * (x as int) - 0xFFFF_FFFF else 2 * (x as int)
  {
    hide *;
    RotateOneUp(x);
    OneUpNumber(x);
  }

  lemma OneUpNumber(x: bv32)
    ensures OneUp(x) as int == if x as int >= 0x8000_0000 then 2 * (x as int) - 0xFFFF_FFFF else 2 * (x as int)
  {
    OrIsSum(x);
    LowBits(x);
  }

  lemma OrIsSum(x: bv32)
    ensures ((x << 1) | (x >> 31)) as int == (x << 1) as int + (x >> 31) as int
  {
  }

  lemma LowBits(x: bv32)
    ensures (x << 1) as int == 2 * (x as int - (x >> 31) as int * 0x8000_0000)
    ensures (x >> 31) as int == if x as int >= 0x8000_0000 then 1 else 0
  {
    assert (x & 0x7fff_ffff) as int == x as int - (x >> 31) as int * 0x8000_0000;
    assert (x << 1) as int == 2 * ((x & 0x7fff_ffff) as int);
    TopBit(x);
  }

  lemma TopBit(x: bv32)
    ensures (x >> 31) as int == x as int / 0x8000_0000
  {
  }

  function OneUp(y: bv32): bv32 {
    (y << 1) | (y >> 31)
  }

  function NextShift(x: bv32, t: bv32): bv32
    requires t < 32
  {
    (x << (t + 1)) | (x >> (31 - t))
  }

  lemma RotateNext(x: bv32, t: bv32)
    requires t < 32
    ensures Rotate(x, t + 1) == NextShift(x, t)
  {
    assert 32 - (t + 1) == 31 - t;
  }

  lemma ShiftIsOneUp(x: bv32, t: bv32)
    requires t < 32
    ensures NextShift(x, t) == OneUp(Rotate(x, t))
  {
  }

  lemma RotateOneUp(y: bv32)
    ensures Rotate(y, 1) == OneUp(y)
  {
  }

  lemma RotateMore(x: bv32, t: bv32)
    requires t < 32
    ensures Rotate(x, t + 1) == Rotate(Rotate(x, t), 1)
  {
    hide *;
    RotateNext(x, t);
    ShiftIsOneUp(x, t);
    RotateOneUp(Rotate(x, t));
  }

  lemma RotateNone(x: bv32)
    ensures Rotate(x, 0) == x
  {
  }

  lemma PowerDown(t: bv32)
    requires 0 < t <= 32
    ensures Power(t) == 2 * Power(t - 1) && Power(32 - (t - 1)) == 2 * Power(32 - t)
  {
    assert 32 - (t - 1) == (32 - t) + 1;
    assert ((32 - t) + 1) - 1 == 32 - t;
  }

  lemma {:induction false} PowersFill(t: bv32)
    requires t <= 32
    ensures Power(t) * Power(32 - t) == 0x1_0000_0000
    decreases t
  {
    if t == 0 {
      PowerEnds();
      hide Power;
    } else {
      PowersFill(t - 1);
      PowerDown(t);
      hide Power;
      TwiceMoved(Power(t - 1), Power(32 - t));
    }
  }

  lemma TwiceMoved(p: int, q: int)
    ensures (2 * p) * q == p * (2 * q)
  {
  }

  lemma PowerByte(t: bv32)
    requires t <= 24
    ensures Power(t + 8) == 0x100 * Power(t)
  {
    assert Power(t + 2) == 4 * Power(t);
    assert Power(t + 4) == 16 * Power(t) by { assert Power(t + 4) == 4 * Power(t + 2); }
    assert Power(t + 6) == 64 * Power(t) by { assert Power(t + 6) == 4 * Power(t + 4); }
    assert Power(t + 8) == 4 * Power(t + 6);
  }

  lemma PowerEnds()
    ensures Power(0) == 1 && Power(32) == 0x1_0000_0000
  {
    PowerByte(0);
    PowerByte(8);
    PowerByte(16);
    PowerByte(24);
  }

  lemma NextNumber(x: bv32, u: bv32)
    requires u < 32
    ensures var r := Rotate(x, u) as int;
            Rotate(x, u + 1) as int == if r >= 0x8000_0000 then 2 * r - 0xFFFF_FFFF else 2 * r
  {
    hide Rotate;
    RotateMore(x, u);
    RotateOne(Rotate(x, u));
  }

  lemma PowersAround(u: bv32)
    requires u < 32
    ensures Power(32 - u) == 2 * Power(31 - u) && Power(u) * (2 * Power(31 - u)) == 0x1_0000_0000
  {
    PowerDown(u + 1);
    assert (u + 1) - 1 == u && 32 - (u + 1) == 31 - u;
    hide Power;
    PowersFill(u);
  }

  lemma PartsStep(x: bv32, u: bv32, h': int, l': int) returns (h: int, l: int)
    requires u < 32 && x as int == h' * Power(32 - u) + l' && 0 <= l' < Power(32 - u) && 0 <= h' < Power(u)
    requires Rotate(x, u) as int == l' * Power(u) + h'
    ensures x as int == h * Power(31 - u) + l && 0 <= l < Power(31 - u) && 0 <= h < 2 * Power(u)
    ensures Rotate(x, u + 1) as int == l * (2 * Power(u)) + h
  {
    hide Rotate, Power;
    PowersAround(u);
    NextNumber(x, u);
    h, l := OneMoreBit(x as int, Rotate(x, u) as int, h', l', Power(u), Power(31 - u));
  }

  /** The t high bits h and the others l change places. */
  lemma {:induction false} RotateParts(x: bv32, t: bv32) returns (h: int, l: int)
    requires t <= 32
    ensures x as int == h * Power(32 - t) + l && 0 <= l < Power(32 - t) && 0 <= h < Power(t)
    ensures Rotate(x, t) as int == l * Power(t) + h
    decreases t
  {
    if t == 0 {
      RotateNone(x);
      PowerEnds();
      hide Rotate, Power;
      assert 32 - t == 32;
      h, l := 0, x as int;
    } else {
      var u := t - 1;
      assert u + 1 == t && 31 - u == 32 - t;
      h, l := RotateParts(x, u);
      PowerDown(t);
      hide Rotate, Power;
      h, l := PartsStep(x, u, h, l);
    }
  }

  lemma OneMoreBit(v: int, r: int, h: int, l: int, p: int, q: int) returns (h': int, l': int)
    requires p > 0 && q > 0 && p * (2 * q) == 0x1_0000_0000
    requires v == h * (2 * q) + l && 0 <= l < 2 * q && 0 <= h < p && r == l * p + h
    ensures v == h' * q + l' && 0 <= l' < q && 0 <= h' < 2 * p
    ensures (if r >= 0x8000_0000 then 2 * r - 0xFFFF_FFFF else 2 * r) == l' * (2 * p) + h'
  {
    var b := if l >= q then 1 else 0;
    h', l' := 2 * h + b, l - b * q;
    assert p * q == 0x8000_0000 by { TwiceMoved(p, q); MulAssoc(2, p, q); }
    if b == 1 {
      MulDist(l - q, q, p);
      MulMonotone(0, l - q, p);
      assert q * p == p * q;
    } else {
      MulMonotone(l + 1, q, p);
      MulDist(l, 1, p);
      assert q * p == p * q;
    }
    assert l' * (2 * p) == 2 * (l' * p);
    assert (2 * h + b) * q == h * (2 * q) + b * q;
  }

  /** A rotation multiplies by a power of two modulo 2^32 and adds what has been pushed out. */
  lemma RotateIsNumber(x: bv32, t: bv32)
    requires t <= 32
    ensures Rotate(x, t) as int == (x as int * Power(t)) % 0x1_0000_0000 + x as int / Power(32 - t)
  {
    var h, l := RotateParts(x, t);
    PowersFill(t);
    PartsArith(x as int, h, l, Power(t), Power(32 - t));
  }

  lemma PartsArith(v: int, h: int, l: int, p: int, q: int)
    requires p > 0 && q > 0 && p * q == 0x1_0000_0000 && v == h * q + l && 0 <= l < q
    ensures l * p + h == (v * p) % 0x1_0000_0000 + v / q
  {
    DivModUnique(v, q, h, l);
    MulDist(h * q, l, p);
    assert (h * q) * p == h * 0x1_0000_0000 by { MulAssoc(h, q, p); assert q * p == p * q; }
    MulMonotone(0, l, p);
    MulMonotone(l + 1, q, p);
    MulDist(l, 1, p);
    assert q * p == p * q;
    DivModUnique(v * p, 0x1_0000_0000, h, l * p);
  }

  // ----- blocks -----

  function WordNumber(m: seq<byte>, k: nat): (w: int)
    requires 4 * k + 4 <= |m|
    ensures 0 <= w < 0x1_0000_0000
  {
    m[4 * k] as int + 0x100 * (m[4 * k + 1] as int) + 0x1_0000 * (m[4 * k + 2] as int) + 0x100_0000 * (m[4 * k + 3] as int)
  }

  /** The k-th 32-bit word of some bytes, as a little-endian host reads it. */
  function WordAt(m: seq<byte>, k: nat): bv32
    requires 4 * k + 4 <= |m|
  {
    WordNumber(m, k) as bv32
  }

  function WordsOf(block: seq<byte>): seq<bv32>
    requires |block| == 64
  {
    seq(16, k requires 0 <= k < 16 => WordAt(block, k))
  }

  function Absorb(cores: Cores, r: Registers, block: seq<byte>): Registers
    requires |block| == 64
  {
    Compress(cores, r, WordsOf(block))
  }

  function InitialRegisters(): Registers {
    Registers(0x67452301, 0xefcdab89, 0x98badcfe, 0x10325476)
  }

  /** The state after the first n blocks of a message. */
  function Folded(cores: Cores, m: seq<byte>, n: nat): Registers
    requires 64 * n <= |m|
  {
    if n == 0 then InitialRegisters() else Absorb(cores, Folded(cores, m, n - 1), m[64 * (n - 1)..64 * n])
  }

  /** What follows a block does not matter to the state after it. */
  lemma {:induction false} FoldedPrefix(cores: Cores, m: seq<byte>, m': seq<byte>, n: nat)
    requires 64 * n <= |m| <= |m'| && m == m'[..|m|]
    ensures Folded(cores, m, n) == Folded(cores, m', n)
  {
    if n > 0 {
      FoldedPrefix(cores, m, m', n - 1);
      SlicePrefix(m, m', 64 * (n - 1), 64 * n);
    }
  }

  /** The states after all the numbers of blocks of a message. */
  ghost predicate AreStates(states: seq<Registers>, cores: Cores, m: seq<byte>) {
    |states| == |m| / 64 + 1 && forall n {:trigger Folded(cores, m, n)} | 0 <= n < |states| :: states[n] == Folded(cores, m, n)
  }

  lemma StatesOf(cores: Cores, m: seq<byte>) returns (states: seq<Registers>)
    ensures AreStates(states, cores, m)
  {
    states := seq(|m| / 64 + 1, n requires 0 <= n < |m| / 64 + 1 => Folded(cores, m, n));
  }

  lemma StateAt(states: seq<Registers>, cores: Cores, m: seq<byte>, n: nat)
    requires AreStates(states, cores, m) && 64 * n <= |m|
    ensures n < |states| && states[n] == Folded(cores, m, n)
  {
  }

  lemma NextState(states: seq<Registers>, cores: Cores, m: seq<byte>, n: nat)
    requires AreStates(states, cores, m) && 64 * n + 64 <= |m|
    ensures n + 1 < |states| && states[n + 1] == Compress(cores, states[n], WordsOf(m[64 * n..64 * n + 64]))
  {
    assert states[n] == Folded(cores, m, n);
    assert states[n + 1] == Folded(cores, m, n + 1);
  }

  lemma SlicePrefix(m: seq<byte>, m': seq<byte>, lo: int, hi: int)
    requires 0 <= lo <= hi <= |m| <= |m'| && m == m'[..|m|]
    ensures m[lo..hi] == m'[lo..hi]
  {
  }

  // ----- the context -----

  class Context {
    const cores: Cores
    const block: array<byte>
    var len: int
    var abcd: Registers

    constructor (cores: Cores)
      ensures this.cores == cores && fresh(block) && Absorbed([])
    {
      this.cores := cores;
      len := 0;
      block := new byte[64];
      abcd := InitialRegisters();
      new;
      hide Compress, WordsOf, InitialRegisters;
      StateOf([]);
    }

    /** The context has taken in the message m: the state is that after its whole blocks, and the
        rest of it is kept in the block. */
    ghost predicate Absorbed(m: seq<byte>)
      reads this, block
    {
      && block.Length == 64
      && len == |m| % 0x1_0000_0000_0000_0000
      && (exists states :: AreStates(states, cores, m) && abcd == states[|m| / 64])
      && block[..|m| % 64] == m[|m| / 64 * 64..]
    }

    lemma StateOf(m: seq<byte>)
      requires block.Length == 64
      ensures Absorbed(m) <==>
              && len == |m| % 0x1_0000_0000_0000_0000
              && abcd == Folded(cores, m, |m| / 64)
              && block[..|m| % 64] == m[|m| / 64 * 64..]
    {
      ghost var states := StatesOf(cores, m);
      StateAt(states, cores, m, |m| / 64);
      if Absorbed(m) {
        var states' :| AreStates(states', cores, m) && abcd == states'[|m| / 64];
        StateAt(states', cores, m, |m| / 64);
      }
    }

    /** fx_md5_init */
    method Init()
      requires block.Length == 64
      modifies this`len, this`abcd
      ensures Absorbed([])
    {
      hide Compress, WordsOf, InitialRegisters;
      len := 0;
      abcd := InitialRegisters();
      StateOf([]);
    }

    /** memcpy into the block */
    method CopyIn(at: int, src: seq<byte>, from: int, cnt: int)
      requires block.Length == 64 && 0 <= at <= at + cnt <= 64 && 0 <= from <= from + cnt <= |src|
      modifies block
      ensures block[..at + cnt] == old(block[..at]) + src[from..from + cnt]
    {
      ghost var s := block[..];
      var i := 0;
      while i < cnt
        invariant 0 <= i <= cnt
        invariant forall k {:trigger block[k]} | 0 <= k < at + i :: block[k] == if k < at then s[k] else src[from + (k - at)]
      {
        block[at + i] := src[from + i];
        i := i + 1;
      }
    }

    /** Before block n of the message `all`, whose states are `states`. */
    ghost predicate AtBlock(all: seq<byte>, states: seq<Registers>, n: nat)
      reads this
    {
      AreStates(states, cores, all) && n < |states| && abcd == states[n]
    }

    /** body() for one block, the bytes of the message from 64 * n on */
    method Body(bytes: seq<byte>, ghost all: seq<byte>, ghost states: seq<Registers>, ghost n: nat)
      requires 64 * n + 64 <= |all| && bytes == all[64 * n..64 * n + 64] && AtBlock(all, states, n)
      modifies this`abcd
      ensures AtBlock(all, states, n + 1)
    {
      abcd := CompressUnrolled(cores, abcd, WordsOf(bytes));
      NextState(states, cores, all, n);
    }

    /** A block of src, through the block of the context or from where it is. */
    method OneBlock(src: seq<byte>, at: int, copy: bool, ghost all: seq<byte>, ghost states: seq<Registers>, ghost n: nat)
      requires block.Length == 64 && 0 <= at <= at + 64 <= |src|
      requires 64 * n + 64 <= |all| && src[at..at + 64] == all[64 * n..64 * n + 64] && AtBlock(all, states, n)
      modifies this`abcd, block
      ensures AtBlock(all, states, n + 1)
    {
      var bytes := src[at..at + 64];
      if copy {
        CopyIn(0, src, at, 64);
        bytes := block[..64];
      }
      Body(bytes, all, states, n);
    }

    /** The whole blocks of src: one by one through the block, or all at once from where they are. */
    method Blocks(src: seq<byte>, from: int, nblocks: nat, copy: bool, ghost all: seq<byte>, ghost states: seq<Registers>, ghost n: nat)
      returns (ghost k: nat)
      requires block.Length == 64 && 0 <= from && from + 64 * nblocks <= |src|
      requires 64 * n + (|src| - from) == |all| && src[from..] == all[64 * n..] && AtBlock(all, states, n)
      modifies this`abcd, block
      ensures k == n + nblocks && AtBlock(all, states, k)
    {
      var i := 0;
      k := n;
      while i < nblocks
        invariant 0 <= i <= nblocks && k == n + i && AtBlock(all, states, k)
      {
        SameSlice(src, all, from, 64 * n, from + 64 * i, 64 * k, 64);
        OneBlock(src, from + 64 * i, copy, all, states, k);
        i, k := i + 1, k + 1;
      }
    }

    /** The end of fx_md5_update: from index `from` on, where a block begins. */
    method Rest(src: seq<byte>, from: int, address: int, ghost all: seq<byte>, ghost states: seq<Registers>, ghost n: nat)
      requires block.Length == 64 && 0 <= from <= |src|
      requires 64 * n + (|src| - from) == |all| && src[from..] == all[64 * n..] && AtBlock(all, states, n)
      requires len == |all| % 0x1_0000_0000_0000_0000
      modifies this`abcd, block
      ensures Absorbed(all)
    {
      var left := |src| - from;
      var nblocks := left / 64;
      ghost var k := Blocks(src, from, nblocks, (address + from) % 4 != 0, all, states, n);
      var tail := left % 64;
      SameSlice(src, all, from, 64 * n, from + 64 * nblocks, 64 * k, tail);
      CopyIn(0, src, from + 64 * nblocks, tail);
      WholeBlocks(|all|, k, tail);
    }

    /** The start of fx_md5_update, when the block holds j bytes: at most as many as it lacks. */
    method Partial(j: int, src: seq<byte>, ghost m: seq<byte>, ghost all: seq<byte>, ghost states: seq<Registers>, ghost n: nat)
      returns (cnt: int)
      requires block.Length == 64 && n == |m| / 64 && 0 < j == |m| % 64 && all == m + src
      requires block[..j] == m[64 * n..] && AtBlock(all, states, n)
      modifies this`abcd, block
      ensures 0 <= cnt <= |src|
      ensures j + cnt < 64 ==> cnt == |src| && block[..j + cnt] == all[64 * n..] && AtBlock(all, states, n)
      ensures j + cnt >= 64 ==> j + cnt == 64 && AtBlock(all, states, n + 1)
    {
      cnt := if |src| <= 64 - j then |src| else 64 - j;
      CopyIn(j, src, 0, cnt);
      FillBlock(m, src, all, n, j, cnt);
      if j + cnt == 64 {
        Body(block[..64], all, states, n);
      }
    }

    /** fx_md5_update: whatever it is split into, the message m that has been taken in goes on with src.
        `address` is that of src, which decides whether its blocks are copied. */
    method Update(src: seq<byte>, address: int, ghost m: seq<byte>)
      requires Absorbed(m) && |src| < 0x8000_0000
      modifies this`len, this`abcd, block
      ensures Absorbed(m + src)
    {
      ghost var all, n := m + src, |m| / 64;
      ghost var states := StatesOf(cores, all);
      Modulo64(|m|, |src|);
      StateOf(m);
      FoldedPrefix(cores, m, all, n);
      StateAt(states, cores, all, n);
      var j := len % 64;
      len := (len + |src|) % 0x1_0000_0000_0000_0000;
      Continue(j, src, address, m, all, states, n);
    }

    /** fx_md5_update, once the length has been added */
    method Continue(j: int, src: seq<byte>, address: int, ghost m: seq<byte>, ghost all: seq<byte>, ghost states: seq<Registers>, ghost n: nat)
      requires block.Length == 64 && n == |m| / 64 && j == |m| % 64 && all == m + src
      requires block[..j] == m[64 * n..] && AtBlock(all, states, n)
      requires len == |all| % 0x1_0000_0000_0000_0000
      modifies this`abcd, block
      ensures Absorbed(all)
    {
      WholeBlocks(|m|, n, j);
      if j == 0 {
        Rest(src, 0, address, all, states, n);
        return;
      }
      var cnt := Partial(j, src, m, all, states, n);
      if j + cnt < 64 {
        WholeBlocks(|all|, n, j + cnt);
        return;
      }
      assert src[cnt..] == all[64 * (n + 1)..];
      Rest(src, cnt, address, all, states, n + 1);
    }

    /** The loop of fx_md5_final: zeros, one at a time. */
    method PadZeros(address: int, ghost m: seq<byte>, ghost p0: seq<byte>)
      requires p0 == m + [0x80] && Absorbed(p0)
      modifies this`len, this`abcd, block
      ensures Absorbed(p0 + Zeros(ZerosNeeded(|m|)))
    {
      ghost var z, p := 0, p0;
      assert p0 + Zeros(0) == p0;
      while len % 64 != 56
        invariant 0 <= z <= ZerosNeeded(|m|) && p == p0 + Zeros(z) && Absorbed(p)
        decreases ZerosNeeded(|m|) - z
      {
        MoreZeros(|m|, z);
        Update([0], address, p);
        ZerosStep(p0, z);
        p, z := p + [0], z + 1;
      }
      MoreZeros(|m|, z);
    }

    /** fx_md5_final: the message is padded to whole blocks, and the digest is that of the padded
        message. The addresses are those of the bytes that are appended. */
    method Final(addresses: (int, int, int), ghost m: seq<byte>) returns (dst: seq<byte>)
      requires Absorbed(m)
      modifies this`len, this`abcd, block
      ensures Absorbed(Padded(m)) && dst == Digest(cores, m)
    {
      var finalcount := Swap64(8 * len % 0x1_0000_0000_0000_0000);
      assert finalcount == SwappedCount(m) by { BitCount(|m|); }
      ghost var p := m + [0x80];
      Update([0x80], addresses.0, m);
      PadZeros(addresses.1, m, p);
      Update(Bytes8(finalcount), addresses.2, p + Zeros(ZerosNeeded(|m|)));
      StateOf(Padded(m));
      dst := RegisterBytes(abcd);
    }
  }

  lemma SubSlice(s: seq<byte>, i: int, p: int, len: int)
    requires 0 <= i <= p <= p + len <= |s|
    ensures s[p..p + len] == s[i..][p - i..p - i + len]
  {
  }

  lemma SameSlice(s: seq<byte>, t: seq<byte>, i: int, j: int, p: int, q: int, len: int)
    requires 0 <= i <= |s| && 0 <= j <= |t| && s[i..] == t[j..] && p - i == q - j >= 0 && 0 <= len && p + len <= |s|
    ensures q + len <= |t| && s[p..p + len] == t[q..q + len]
  {
    assert |s[i..]| == |t[j..]|;
    SubSlice(s, i, p, len);
    SubSlice(t, j, q, len);
  }

  lemma WholeBlocks(size: int, n: int, tail: int)
    requires 0 <= tail < 64 && size == 64 * n + tail
    ensures size / 64 == n && size % 64 == tail
  {
  }

  lemma Modulo64(size: int, more: int)
    requires 0 <= size && 0 <= more
    ensures (size % 0x1_0000_0000_0000_0000) % 64 == size % 64
    ensures (size % 0x1_0000_0000_0000_0000 + more) % 0x1_0000_0000_0000_0000 == (size + more) % 0x1_0000_0000_0000_0000
  {
    var q, r := size / 0x1_0000_0000_0000_0000, size % 0x1_0000_0000_0000_0000;
    var k, l := r / 64, r % 64;
    DivModUnique(size, 64, q * 0x400_0000_0000_0000 + k, l);
    var q', r' := (r + more) / 0x1_0000_0000_0000_0000, (r + more) % 0x1_0000_0000_0000_0000;
    DivModUnique(size + more, 0x1_0000_0000_0000_0000, q + q', r');
  }

  /** The bytes that go on with a partial block. */
  lemma FillBlock(m: seq<byte>, src: seq<byte>, all: seq<byte>, n: int, j: int, cnt: int)
    requires n == |m| / 64 && j == |m| % 64 && 0 <= cnt <= |src| && j + cnt <= 64 && all == m + src
    ensures m[64 * n..] + src[..cnt] == all[64 * n..64 * n + (j + cnt)]
  {
  }

  // ----- padding -----

  function Zeros(n: nat): (z: seq<byte>)
    ensures |z| == n
  {
    seq(n, _ => 0)
  }

  lemma ZerosStep(p: seq<byte>, z: nat)
    ensures p + Zeros(z) + [0] == p + Zeros(z + 1)
  {
  }

  /** How many zeros bring size + 1 bytes to 56 modulo 64. */
  function ZerosNeeded(size: nat): (z: nat)
    ensures z < 64
  {
    (55 - size) % 64
  }

  lemma MoreZeros(size: nat, z: nat)
    requires z <= ZerosNeeded(size)
    ensures (size + 1 + z) % 0x1_0000_0000_0000_0000 % 64 == 56 <==> z == ZerosNeeded(size)
  {
    Modulo64(size + 1 + z, 0);
    ZerosLeft(size, size / 64, size % 64, z, ZerosNeeded(size));
  }

  lemma ZerosLeft(size: int, k: int, s: int, z: int, needed: int)
    requires size == 64 * k + s && 0 <= s < 64 && 0 <= z <= needed && needed == (55 - size) % 64
    ensures (size + 1 + z) % 64 == 56 <==> z == needed
  {
    if s <= 55 {
      DivModUnique(55 - size, 64, -k, 55 - s);
    } else {
      DivModUnique(55 - size, 64, -k - 1, 119 - s);
    }
    if s + 1 + z < 64 {
      DivModUnique(size + 1 + z, 64, k, s + 1 + z);
    } else {
      DivModUnique(size + 1 + z, 64, k + 1, s + 1 + z - 64);
    }
  }

  lemma BitCount(size: nat)
    ensures 8 * (size % 0x1_0000_0000_0000_0000) % 0x1_0000_0000_0000_0000 == 8 * size % 0x1_0000_0000_0000_0000
  {
    var m := 0x1_0000_0000_0000_0000;
    BitCountBelow(8 * (size % m), 8 * size, 8 * (size / m), m);
  }

  lemma BitCountBelow(x: int, y: int, k: int, m: int)
    requires m > 0 && y == k * m + x
    ensures x % m == y % m
  {
    MulDist(x / m, k, m);
    DivModUnique(y, m, x / m + k, x % m);
  }

  /** A number of 16, 32 or 64 bits in the memory of a little-endian host. */
  function Bytes2(x: int): (s: seq<byte>)
    requires 0 <= x < 0x1_0000
    ensures |s| == 2
  {
    [x % 0x100, x / 0x100]
  }

  function Bytes4(x: int): (s: seq<byte>)
    requires 0 <= x < 0x1_0000_0000
    ensures |s| == 4
  {
    Bytes2(x % 0x1_0000) + Bytes2(x / 0x1_0000)
  }

  function Bytes8(x: int): (s: seq<byte>)
    requires 0 <= x < 0x1_0000_0000_0000_0000
    ensures |s| == 8
  {
    Bytes4(x % 0x1_0000_0000) + Bytes4(x / 0x1_0000_0000)
  }

  /** FX_BSWAP16C */
  function Swap16(x: int): (y: int)
    requires 0 <= x < 0x1_0000
    ensures 0 <= y < 0x1_0000
  {
    x % 0x100 * 0x100 + x / 0x100
  }

  /** FX_BSWAP32C */
  function Swap32(x: int): (y: int)
    requires 0 <= x < 0x1_0000_0000
    ensures 0 <= y < 0x1_0000_0000
  {
    Swap16(x % 0x1_0000) * 0x1_0000 + Swap16(x / 0x1_0000)
  }

  /** fx_bswap64, which is fx_le2ne64 where FX_HAVE_BIGENDIAN is set, as it is in fx_bswap.h */
  function Swap64(x: int): (y: int)
    requires 0 <= x < 0x1_0000_0000_0000_0000
    ensures 0 <= y < 0x1_0000_0000_0000_0000
  {
    Swap32(x % 0x1_0000_0000) * 0x1_0000_0000 + Swap32(x / 0x1_0000_0000)
  }

  function Backwards(s: seq<byte>): seq<byte> {
    seq(|s|, i requires 0 <= i < |s| => s[|s| - 1 - i])
  }

  lemma Swap16Backwards(x: int)
    requires 0 <= x < 0x1_0000
    ensures Bytes2(Swap16(x)) == Backwards(Bytes2(x))
  {
  }

  lemma Swap32Backwards(x: int)
    requires 0 <= x < 0x1_0000_0000
    ensures Bytes4(Swap32(x)) == Backwards(Bytes4(x))
  {
    var hi, lo := x / 0x1_0000, x % 0x1_0000;
    Swap16Backwards(lo);
    Swap16Backwards(hi);
    Quarters(Swap32(x), Swap16(lo), Swap16(hi));
    hide Swap16, Bytes2, Backwards;
    BackwardsConcat(Bytes2(lo), Bytes2(hi));
  }

  lemma Quarters(x: int, hi: int, lo: int)
    requires 0 <= lo < 0x1_0000 && 0 <= hi < 0x1_0000 && x == hi * 0x1_0000 + lo
    ensures 0 <= x < 0x1_0000_0000 && Bytes4(x) == Bytes2(lo) + Bytes2(hi)
  {
    assert x % 0x1_0000 == lo && x / 0x1_0000 == hi;
  }

  lemma BackwardsConcat(s: seq<byte>, t: seq<byte>)
    ensures Backwards(s + t) == Backwards(t) + Backwards(s)
  {
  }

  lemma Halves(x: int, hi: int, lo: int)
    requires 0 <= lo < 0x1_0000_0000 && 0 <= hi < 0x1_0000_0000 && x == hi * 0x1_0000_0000 + lo
    ensures 0 <= x < 0x1_0000_0000_0000_0000 && Bytes8(x) == Bytes4(lo) + Bytes4(hi)
  {
    assert x % 0x1_0000_0000 == lo && x / 0x1_0000_0000 == hi;
  }

  lemma SwapHalves(x: int, hi: int, lo: int)
    requires 0 <= lo < 0x1_0000_0000 && 0 <= hi < 0x1_0000_0000 && x == hi * 0x1_0000_0000 + lo
    ensures 0 <= x < 0x1_0000_0000_0000_0000 && Swap64(x) == Swap32(lo) * 0x1_0000_0000 + Swap32(hi)
  {
    assert x % 0x1_0000_0000 == lo && x / 0x1_0000_0000 == hi;
  }

  /** The swap turns the eight bytes round. */
  lemma Swap64Backwards(x: int)
    requires 0 <= x < 0x1_0000_0000_0000_0000
    ensures Bytes8(Swap64(x)) == Backwards(Bytes8(x))
  {
    TurnRound(x, x / 0x1_0000_0000, x % 0x1_0000_0000);
  }

  lemma TurnRound(x: int, hi: int, lo: int)
    requires 0 <= lo < 0x1_0000_0000 && 0 <= hi < 0x1_0000_0000 && x == hi * 0x1_0000_0000 + lo
    ensures 0 <= x < 0x1_0000_0000_0000_0000 && Bytes8(Swap64(x)) == Backwards(Bytes8(x))
  {
    Halves(x, hi, lo);
    SwapHalves(x, hi, lo);
    Halves(Swap64(x), Swap32(lo), Swap32(hi));
    Swap32Backwards(lo);
    Swap32Backwards(hi);
    BackwardsConcat(Bytes4(lo), Bytes4(hi));
  }

  /** The number of bits of the message modulo 2^64 */
  function Bits(m: seq<byte>): (x: int)
    ensures 0 <= x < 0x1_0000_0000_0000_0000
  {
    8 * |m| % 0x1_0000_0000_0000_0000
  }

  function SwappedCount(m: seq<byte>): (x: int)
    ensures 0 <= x < 0x1_0000_0000_0000_0000
  {
    Swap64(Bits(m))
  }

  /** The message as fx_md5_final extends it. */
  function Padded(m: seq<byte>): (p: seq<byte>)
    ensures |p| == |m| + 9 + ZerosNeeded(|m|)
  {
    m + [0x80] + Zeros(ZerosNeeded(|m|)) + Bytes8(SwappedCount(m))
  }

  /** The padded message of RFC 1321, sections 3.1 and 3.2: the bit count with its low-order byte first. */
  function RfcPadded(m: seq<byte>): seq<byte> {
    m + [0x80] + Zeros(ZerosNeeded(|m|)) + Bytes8(Bits(m))
  }

  /** The padded message consists of whole blocks, and less than one and a bit block has been added. */
  lemma PaddedWhole(m: seq<byte>)
    ensures |Padded(m)| % 64 == 0 && |m| + 9 <= |Padded(m)| < |m| + 73
  {
    ZerosFit(|m|, ZerosNeeded(|m|));
  }

  lemma ZerosFit(size: int, z: int)
    requires z == (55 - size) % 64
    ensures (size + 9 + z) % 64 == 0
  {
  }

  /** The count goes in backwards. So the padding is that of RFC 1321 only for messages whose bit count
      reads the same from both ends, byte by byte. */
  lemma PaddingConforms(m: seq<byte>)
    ensures Padded(m) == RfcPadded(m) <==> Backwards(Bytes8(Bits(m))) == Bytes8(Bits(m))
  {
    Swap64Backwards(Bits(m));
    var p := m + [0x80] + Zeros(ZerosNeeded(|m|));
    assert (p + Bytes8(SwappedCount(m)))[|p|..] == Bytes8(SwappedCount(m));
    assert (p + Bytes8(Bits(m)))[|p|..] == Bytes8(Bits(m));
  }

  /** A count below 2^32 has four bytes that are 0. */
  lemma SmallCount(x: int)
    requires 0 <= x < 0x1_0000_0000
    ensures Bytes8(x) == Bytes4(x) + [0, 0, 0, 0]
  {
  }

  lemma SmallPalindrome(x: int)
    requires 0 <= x < 0x1_0000_0000
    ensures Backwards(Bytes8(x)) == Bytes8(x) <==> x == 0
  {
    SmallCount(x);
    var b, s := Bytes4(x), Bytes8(x);
    assert s[4] == s[5] == s[6] == s[7] == 0;
    if Backwards(s) == s {
      assert s[0] == Backwards(s)[0] && s[1] == Backwards(s)[1] && s[2] == Backwards(s)[2] && s[3] == Backwards(s)[3];
      assert b[0] == b[1] == b[2] == b[3] == 0;
      ZeroBytes(x);
    }
  }

  lemma ZeroBytes(x: int)
    requires 0 <= x < 0x1_0000_0000 && Bytes4(x)[0] == 0 && Bytes4(x)[1] == 0 && Bytes4(x)[2] == 0 && Bytes4(x)[3] == 0
    ensures x == 0
  {
    assert Bytes4(x)[..2] == Bytes2(x % 0x1_0000) && Bytes4(x)[2..] == Bytes2(x / 0x1_0000);
  }

  /** Of the messages below 512 megabytes that is only the empty one. */
  lemma OnlyEmptyConforms(m: seq<byte>)
    requires |m| < 0x2000_0000
    ensures Padded(m) == RfcPadded(m) <==> m == []
  {
    PaddingConforms(m);
    SmallBits(|m|);
    SmallPalindrome(Bits(m));
  }

  lemma SmallBits(size: int)
    requires 0 <= size < 0x2000_0000
    ensures 8 * size % 0x1_0000_0000_0000_0000 == 8 * size
  {
  }

  /** AV_WL32 of the registers, from a to d */
  function RegisterBytes(r: Registers): seq<byte> {
    Bytes4(r.a as int) + Bytes4(r.b as int) + Bytes4(r.c as int) + Bytes4(r.d as int)
  }

  function Digest(cores: Cores, m: seq<byte>): seq<byte> {
    RegisterBytes(Folded(cores, Padded(m), |Padded(m)| / 64))
  }

  // ----- the digest of the empty message, from section A.5 of RFC 1321 -----

  /** Reading a word gives back the number whose bytes it consists of. */
  lemma WordOfBytes(m: seq<byte>, k: nat, x: bv32)
    requires 4 * k + 4 <= |m| && m[4 * k..4 * k + 4] == Bytes4(x as int)
    ensures WordAt(m, k) == x
  {
    NumberOfBytes(m, k, x as int);
    hide WordNumber, Bytes4;
    assert (x as int) as bv32 == x;
  }

  lemma NumberOfBytes(m: seq<byte>, k: nat, v: int)
    requires 0 <= v < 0x1_0000_0000 && 4 * k + 4 <= |m| && m[4 * k..4 * k + 4] == Bytes4(v)
    ensures WordNumber(m, k) == v
  {
    var s := m[4 * k..4 * k + 4];
    assert s[0] == m[4 * k] && s[1] == m[4 * k + 1] && s[2] == m[4 * k + 2] && s[3] == m[4 * k + 3];
    FourBytes(v);
  }

  lemma FourBytes(v: int)
    requires 0 <= v < 0x1_0000_0000
    ensures var s := Bytes4(v);
            s[0] as int + 0x100 * (s[1] as int) + 0x1_0000 * (s[2] as int) + 0x100_0000 * (s[3] as int) == v
  {
    var lo, hi := v % 0x1_0000, v / 0x1_0000;
    assert Bytes4(v) == [lo % 0x100, lo / 0x100, hi % 0x100, hi / 0x100];
  }

  /** The words of the only block of the padded empty message. */
  ghost predicate IsEmptyBlock(x: seq<bv32>) {
    |x| == 16 && x[0] == 0x80 && forall k | 0 < k < 16 :: x[k] == 0
  }

  lemma RfcOfNothing()
    ensures RfcPadded([]) == [] + [0x80] + Zeros(55) + Bytes8(0)
  {
    assert ZerosNeeded(0) == 55 && Bits([]) == 0;
    hide Bytes8, Zeros, ZerosNeeded, Bits;
  }

  lemma NoCount()
    ensures Bytes8(0) == Zeros(8)
  {
    SmallCount(0);
    hide Bytes8;
    assert Bytes4(0) == [0, 0, 0, 0];
  }

  lemma EmptyPadding()
    ensures Padded([]) == [0x80] + Zeros(63)
  {
    hide *;
    OnlyEmptyConforms([]);
    RfcOfNothing();
    NoCount();
    ZerosJoin(55, 8);
  }

  lemma ZerosJoin(a: nat, b: nat)
    ensures [] + [0x80] + Zeros(a) + Zeros(b) == [0x80] + Zeros(a + b)
  {
  }

  lemma EmptyBlock()
    ensures |Padded([])| == 64 && IsEmptyBlock(WordsOf(Padded([])[0..64]))
  {
    var p := Padded([]);
    EmptyPadding();
    hide Padded;
    assert p[0] == 0x80 && forall k | 0 < k < 64 :: p[k] == 0;
    assert p[0..64] == p;
    assert WordNumber(p, 0) == 0x80;
    forall k | 0 < k < 16
      ensures WordNumber(p, k) == 0
    {
      assert p[4 * k] == p[4 * k + 1] == p[4 * k + 2] == p[4 * k + 3] == 0;
    }
    hide WordNumber;
  }

  /** The registers after n rounds. */
  ghost predicate After(x: seq<bv32>, n: nat, r: Registers) {
    Rounds(InitialRegisters(), CoreOf(x), n) == r
  }

  lemma NextRound(x: seq<bv32>, n: nat, r: Registers, v: bv32)
    requires IsEmptyBlock(x) && n < 64 && After(x, n, r) && Core(n, r.a, r.b, r.c, r.d, x) == v
    ensures After(x, n + 1, Registers(r.d, v, r.b, r.c))
  {
    hide Core;
  }

  lemma EmptyRounds0(x: seq<bv32>)
    requires IsEmptyBlock(x)
    ensures After(x, 4, Registers(0xa5202774, 0x1b163203, 0xe7f06b23, 0xf59592dd))
  {
    assert After(x, 0, Registers(0x67452301, 0xefcdab89, 0x98badcfe, 0x10325476));
    hide After;
    NextRound(x, 0, Registers(0x67452301, 0xefcdab89, 0x98badcfe, 0x10325476), 0xa5202774);
    NextRound(x, 1, Registers(0x10325476, 0xa5202774, 0xefcdab89, 0x98badcfe), 0xf59592dd);
    NextRound(x, 2, Registers(0x98badcfe, 0xf59592dd, 0xa5202774, 0xefcdab89), 0xe7f06b23);
    NextRound(x, 3, Registers(0xefcdab89, 0xe7f06b23, 0xf59592dd, 0xa5202774), 0x1b163203);
  }

  lemma EmptyRounds4(x: seq<bv32>)
    requires IsEmptyBlock(x)
    ensures After(x, 8, Registers(0x32033344, 0x9bc13ce9, 0xf5b158db, 0x2f35d494))
  {
    hide After;
    EmptyRounds0(x);
    NextRound(x, 4, Registers(0xa5202774, 0x1b163203, 0xe7f06b23, 0xf59592dd), 0x32033344);
    NextRound(x, 5, Registers(0xf59592dd, 0x32033344, 0x1b163203, 0xe7f06b23), 0x2f35d494);
    NextRound(x, 6, Registers(0xe7f06b23, 0x2f35d494, 0x32033344, 0x1b163203), 0xf5b158db);
    NextRound(x, 7, Registers(0x1b163203, 0xf5b158db, 0x2f35d494, 0x32033344), 0x9bc13ce9);
  }

  lemma EmptyRounds8(x: seq<bv32>)
    requires IsEmptyBlock(x)
    ensures After(x, 12, Registers(0x3893b991, 0x70768a29, 0xe1ef0576, 0xfce4a312))
  {
    hide After;
    EmptyRounds4(x);
    NextRound(x, 8, Registers(0x32033344, 0x9bc13ce9, 0xf5b158db, 0x2f35d494), 0x3893b991);
    NextRound(x, 9, Registers(0x2f35d494, 0x3893b991, 0x9bc13ce9, 0xf5b158db), 0xfce4a312);
    NextRound(x, 10, Registers(0xf5b158db, 0xfce4a312, 0x3893b991, 0x9bc13ce9), 0xe1ef0576);
    NextRound(x, 11, Registers(0x9bc13ce9, 0xe1ef0576, 0xfce4a312, 0x3893b991), 0x70768a29);
  }

  lemma EmptyRounds12(x: seq<bv32>)
    requires IsEmptyBlock(x)
    ensures After(x, 16, Registers(0xf56c7cf1, 0xd6819c6a, 0x5aa53f75, 0x374943a7))
  {
    hide After;
    EmptyRounds8(x);
    NextRound(x, 12, Registers(0x3893b991, 0x70768a29, 0xe1ef0576, 0xfce4a312), 0xf56c7cf1);
    NextRound(x, 13, Registers(0xfce4a312, 0xf56c7cf1, 0x70768a29, 0xe1ef0576), 0x374943a7);
    NextRound(x, 14, Registers(0xe1ef0576, 0x374943a7, 0xf56c7cf1, 0x70768a29), 0x5aa53f75);
    NextRound(x, 15, Registers(0x70768a29, 0x5aa53f75, 0x374943a7, 0xf56c7cf1), 0xd6819c6a);
  }

  lemma EmptyRounds16(x: seq<bv32>)
    requires IsEmptyBlock(x)
    ensures After(x, 20, Registers(0x1c7d7513, 0xbd782e17, 0xc095f13a, 0x7bd57a3a))
  {
    hide After;
    EmptyRounds12(x);
    NextRound(x, 16, Registers(0xf56c7cf1, 0xd6819c6a, 0x5aa53f75, 0x374943a7), 0x1c7d7513);
    NextRound(x, 17, Registers(0x374943a7, 0x1c7d7513, 0xd6819c6a, 0x5aa53f75), 0x7bd57a3a);
    NextRound(x, 18, Registers(0x5aa53f75, 0x7bd57a3a, 0x1c7d7513, 0xd6819c6a), 0xc095f13a);
    NextRound(x, 19, Registers(0xd6819c6a, 0xc095f13a, 0x7bd57a3a, 0x1c7d7513), 0xbd782e17);
  }

  lemma EmptyRounds20(x: seq<bv32>)
    requires IsEmptyBlock(x)
    ensures After(x, 24, Registers(0x3d1e3e6c, 0xe422531a, 0xeb41643e, 0x68b7b3e3))
  {
    hide After;
    EmptyRounds16(x);
    NextRound(x, 20, Registers(0x1c7d7513, 0xbd782e17, 0xc095f13a, 0x7bd57a3a), 0x3d1e3e6c);
    NextRound(x, 21, Registers(0x7bd57a3a, 0x3d1e3e6c, 0xbd782e17, 0xc095f13a), 0x68b7b3e3);
    NextRound(x, 22, Registers(0xc095f13a, 0x68b7b3e3, 0x3d1e3e6c, 0xbd782e17), 0xeb41643e);
    NextRound(x, 23, Registers(0xbd782e17, 0xeb41643e, 0x68b7b3e3, 0x3d1e3e6c), 0xe422531a);
  }

  lemma EmptyRounds24(x: seq<bv32>)
    requires IsEmptyBlock(x)
    ensures After(x, 28, Registers(0x306ec122, 0xa0572807, 0xa3c663da, 0xd28c77c2))
  {
    hide After;
    EmptyRounds20(x);
    NextRound(x, 24, Registers(0x3d1e3e6c, 0xe422531a, 0xeb41643e, 0x68b7b3e3), 0x306ec122);
    NextRound(x, 25, Registers(0x68b7b3e3, 0x306ec122, 0xe422531a, 0xeb41643e), 0xd28c77c2);
    NextRound(x, 26, Registers(0xeb41643e, 0xd28c77c2, 0x306ec122, 0xe422531a), 0xa3c663da);
    NextRound(x, 27, Registers(0xe422531a, 0xa3c663da, 0xd28c77c2, 0x306ec122), 0xa0572807);
  }

  lemma EmptyRounds28(x: seq<bv32>)
    requires IsEmptyBlock(x)
    ensures After(x, 32, Registers(0x13707036, 0xa2205f1f, 0x1c31c384, 0xae7813db))
  {
    hide After;
    EmptyRounds24(x);
    NextRound(x, 28, Registers(0x306ec122, 0xa0572807, 0xa3c663da, 0xd28c77c2), 0x13707036);
    NextRound(x, 29, Registers(0xd28c77c2, 0x13707036, 0xa0572807, 0xa3c663da), 0xae7813db);
    NextRound(x, 30, Registers(0xa3c663da, 0xae7813db, 0x13707036, 0xa0572807), 0x1c31c384);
    NextRound(x, 31, Registers(0xa0572807, 0x1c31c384, 0xae7813db, 0x13707036), 0xa2205f1f);
  }

  lemma EmptyRounds32(x: seq<bv32>)
    requires IsEmptyBlock(x)
    ensures After(x, 36, Registers(0xdf63eaa1, 0x004b6669, 0x12f3e755, 0xc3689f5b))
  {
    hide After;
    EmptyRounds28(x);
    NextRound(x, 32, Registers(0x13707036, 0xa2205f1f, 0x1c31c384, 0xae7813db), 0xdf63eaa1);
    NextRound(x, 33, Registers(0xae7813db, 0xdf63eaa1, 0xa2205f1f, 0x1c31c384), 0xc3689f5b);
    NextRound(x, 34, Registers(0x1c31c384, 0xc3689f5b, 0xdf63eaa1, 0xa2205f1f), 0x12f3e755);
    NextRound(x, 35, Registers(0xa2205f1f, 0x12f3e755, 0xc3689f5b, 0xdf63eaa1), 0x004b6669);
  }

  lemma EmptyRounds36(x: seq<bv32>)
    requires IsEmptyBlock(x)
    ensures After(x, 40, Registers(0x5f7a9b2e, 0xc5dc8c15, 0x91ca4cb7, 0xabc34e16))
  {
    hide After;
    EmptyRounds32(x);
    NextRound(x, 36, Registers(0xdf63eaa1, 0x004b6669, 0x12f3e755, 0xc3689f5b), 0x5f7a9b2e);
    NextRound(x, 37, Registers(0xc3689f5b, 0x5f7a9b2e, 0x004b6669, 0x12f3e755), 0xabc34e16);
    NextRound(x, 38, Registers(0x12f3e755, 0xabc34e16, 0x5f7a9b2e, 0x004b6669), 0x91ca4cb7);
    NextRound(x, 39, Registers(0x004b6669, 0x91ca4cb7, 0xabc34e16, 0x5f7a9b2e), 0xc5dc8c15);
  }

  lemma EmptyRounds40(x: seq<bv32>)
    requires IsEmptyBlock(x)
    ensures After(x, 44, Registers(0x4497169d, 0x0fe32453, 0xfd95f243, 0x76fd93d4))
  {
    hide After;
    EmptyRounds36(x);
    NextRound(x, 40, Registers(0x5f7a9b2e, 0xc5dc8c15, 0x91ca4cb7, 0xabc34e16), 0x4497169d);
    NextRound(x, 41, Registers(0xabc34e16, 0x4497169d, 0xc5dc8c15, 0x91ca4cb7), 0x76fd93d4);
    NextRound(x, 42, Registers(0x91ca4cb7, 0x76fd93d4, 0x4497169d, 0xc5dc8c15), 0xfd95f243);
    NextRound(x, 43, Registers(0xc5dc8c15, 0xfd95f243, 0x76fd93d4, 0x4497169d), 0x0fe32453);
  }

  lemma EmptyRounds44(x: seq<bv32>)
    requires IsEmptyBlock(x)
    ensures After(x, 48, Registers(0x3f55edfd, 0xca7d2dbd, 0x68d84ea2, 0x22a31f54))
  {
    hide After;
    EmptyRounds40(x);
    NextRound(x, 44, Registers(0x4497169d, 0x0fe32453, 0xfd95f243, 0x76fd93d4), 0x3f55edfd);
    NextRound(x, 45, Registers(0x76fd93d4, 0x3f55edfd, 0x0fe32453, 0xfd95f243), 0x22a31f54);
    NextRound(x, 46, Registers(0xfd95f243, 0x22a31f54, 0x3f55edfd, 0x0fe32453), 0x68d84ea2);
    NextRound(x, 47, Registers(0x0fe32453, 0x68d84ea2, 0x22a31f54, 0x3f55edfd), 0xca7d2dbd);
  }

  lemma EmptyRounds48(x: seq<bv32>)
    requires IsEmptyBlock(x)
    ensures After(x, 52, Registers(0x93aa2577, 0x561e0689, 0xcd85b8cb, 0x1688dc85))
  {
    hide After;
    EmptyRounds44(x);
    NextRound(x, 48, Registers(0x3f55edfd, 0xca7d2dbd, 0x68d84ea2, 0x22a31f54), 0x93aa2577);
    NextRound(x, 49, Registers(0x22a31f54, 0x93aa2577, 0xca7d2dbd, 0x68d84ea2), 0x1688dc85);
    NextRound(x, 50, Registers(0x68d84ea2, 0x1688dc85, 0x93aa2577, 0xca7d2dbd), 0xcd85b8cb);
    NextRound(x, 51, Registers(0xca7d2dbd, 0xcd85b8cb, 0x1688dc85, 0x93aa2577), 0x561e0689);
  }

  lemma EmptyRounds52(x: seq<bv32>)
    requires IsEmptyBlock(x)
    ensures After(x, 56, Registers(0x5625a114, 0x1e77fa61, 0x392ad0d0, 0x3450f42b))
  {
    hide After;
    EmptyRounds48(x);
    NextRound(x, 52, Registers(0x93aa2577, 0x561e0689, 0xcd85b8cb, 0x1688dc85), 0x5625a114);
    NextRound(x, 53, Registers(0x1688dc85, 0x5625a114, 0x561e0689, 0xcd85b8cb), 0x3450f42b);
    NextRound(x, 54, Registers(0xcd85b8cb, 0x3450f42b, 0x5625a114, 0x561e0689), 0x392ad0d0);
    NextRound(x, 55, Registers(0x561e0689, 0x392ad0d0, 0x3450f42b, 0x5625a114), 0x1e77fa61);
  }

  lemma EmptyRounds56(x: seq<bv32>)
    requires IsEmptyBlock(x)
    ensures After(x, 60, Registers(0x474a9c8c, 0x30130182, 0x36594b14, 0xdfce00bc))
  {
    hide After;
    EmptyRounds52(x);
    NextRound(x, 56, Registers(0x5625a114, 0x1e77fa61, 0x392ad0d0, 0x3450f42b), 0x474a9c8c);
    NextRound(x, 57, Registers(0x3450f42b, 0x474a9c8c, 0x1e77fa61, 0x392ad0d0), 0xdfce00bc);
    NextRound(x, 58, Registers(0x392ad0d0, 0xdfce00bc, 0x474a9c8c, 0x1e77fa61), 0x36594b14);
    NextRound(x, 59, Registers(0x1e77fa61, 0x36594b14, 0xdfce00bc, 0x474a9c8c), 0x30130182);
  }

  lemma EmptyRounds60(x: seq<bv32>)
    requires IsEmptyBlock(x)
    ensures After(x, 64, Registers(0x7246fad3, 0x14e45506, 0xff4ea3eb, 0x6e10a476))
  {
    hide After;
    EmptyRounds56(x);
    NextRound(x, 60, Registers(0x474a9c8c, 0x30130182, 0x36594b14, 0xdfce00bc), 0x7246fad3);
    NextRound(x, 61, Registers(0xdfce00bc, 0x7246fad3, 0x30130182, 0x36594b14), 0x6e10a476);
    NextRound(x, 62, Registers(0x36594b14, 0x6e10a476, 0x7246fad3, 0x30130182), 0xff4ea3eb);
    NextRound(x, 63, Registers(0x30130182, 0xff4ea3eb, 0x6e10a476, 0x7246fad3), 0x14e45506);
  }

  lemma EmptyState()
    ensures |Padded([])| == 64
    ensures Folded(CoreOf, Padded([]), 1) == Registers(0xd98c1dd4, 0x04b2008f, 0x980980e9, 0x7e42f8ec)
  {
    EmptyBlock();
    var x := WordsOf(Padded([])[0..64]);
    EmptyRounds60(x);
    hide Rounds, Core, WordsOf, Padded, IsEmptyBlock;
    assert Folded(CoreOf, Padded([]), 0) == InitialRegisters();
  }

  /** The empty message, whose padding conforms, has the digest of RFC 1321. */
  lemma EmptyDigest()
    ensures Digest(CoreOf, []) == [
              0xd4, 0x1d, 0x8c, 0xd9, 0x8f, 0x00, 0xb2, 0x04,
              0xe9, 0x80, 0x09, 0x98, 0xec, 0xf8, 0x42, 0x7e
            ]
  {
    EmptyState();
    hide Folded, Padded;
  }

  // ----- messages in pieces -----

  /** The first n pieces, one behind the other. */
  function Joined(chunks: seq<seq<byte>>, n: nat): seq<byte>
    requires n <= |chunks|
  {
    if n == 0 then [] else Joined(chunks, n - 1) + chunks[n - 1]
  }

  /** Contexts that have taken in the same message are in the same state, however it came. */
  lemma SameMessageSameState(c: Context, d: Context, m: seq<byte>)
    requires c.Absorbed(m) && d.Absorbed(m) && c.cores == d.cores
    ensures c.len == d.len && c.abcd == d.abcd && c.block[..|m| % 64] == d.block[..|m| % 64]
  {
    c.StateOf(m);
    d.StateOf(m);
  }

  /** Any run of updates takes in the pieces one behind the other. */
  method UpdateAll(context: Context, chunks: seq<seq<byte>>, addresses: seq<int>, ghost m0: seq<byte>) returns (ghost m: seq<byte>)
    requires context.Absorbed(m0)
    requires |addresses| == |chunks| && forall i | 0 <= i < |chunks| :: |chunks[i]| < 0x8000_0000
    modifies context`len, context`abcd, context.block
    ensures m == m0 + Joined(chunks, |chunks|) && context.Absorbed(m)
  {
    m := m0;
    var i := 0;
    while i < |chunks|
      invariant 0 <= i <= |chunks| && m == m0 + Joined(chunks, i) && context.Absorbed(m)
    {
      context.Update(chunks[i], addresses[i], m);
      assert m0 + (Joined(chunks, i) + chunks[i]) == m + chunks[i];
      m := m + chunks[i];
      i := i + 1;
    }
  }

  /** fx_md5_init, any run of fx_md5_update, and fx_md5_final: the digest is that of the whole message. */
  method SumOfPieces(cores: Cores, chunks: seq<seq<byte>>, addresses: seq<int>, last: (int, int, int)) returns (dst: seq<byte>)
    requires |addresses| == |chunks| && forall i | 0 <= i < |chunks| :: |chunks[i]| < 0x8000_0000
    ensures dst == Digest(cores, Joined(chunks, |chunks|))
  {
    var context := new Context(cores);
    ghost var m := UpdateAll(context, chunks, addresses, []);
    assert [] + Joined(chunks, |chunks|) == Joined(chunks, |chunks|);
    dst := context.Final(last, m);
  }

  /** fx_md5_sum with any rounds */
  method SumOfOne(cores: Cores, src: seq<byte>, address: int, last: (int, int, int)) returns (dst: seq<byte>)
    requires |src| < 0x8000_0000
    ensures dst == Digest(cores, src)
  {
    var context := new Context(cores);
    ghost var start: seq<byte> := [];
    context.Update(src, address, start);
    assert start + src == src;
    dst := context.Final(last, src);
  }

  /** fx_md5_sum */
  method SumOf(src: seq<byte>, address: int, last: (int, int, int)) returns (dst: seq<byte>)
    requires |src| < 0x8000_0000
    ensures dst == Digest(CoreOf, src)
  {
    dst := SumOfOne(CoreOf, src, address, last);
  }
}
