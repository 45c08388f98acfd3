/**
 The 128-bit integers of func_libs/fx_integer.h: eight 16-bit limbs, least significant first,
 read as an unsigned number or in two's complement.  AVInteger is passed by value, so a limb
 array is a sequence here and every operation works on its own copy.

 Val and Signed are the two readings, B(i) and P2(i) the weights of limb i and bit i. The products
 and quotients that occur are dealt with in lemmas about plain integers.
 */
module Integer128 {
  import opened Arithmetic

  ghost predicate IsInteger(a: seq<int>) {
    |a| == 8 && Limbs(a)
  }

  ghost predicate Limbs(a: seq<int>) {
    forall i | 0 <= i < |a| :: 0 <= a[i] < 0x1_0000
  }

  /** The number that the limbs stand for. */
  ghost function Val(a: seq<int>): int {
    if a == [] then 0 else a[0] + 0x1_0000 * Val(a[1..])
  }

  /** 2^16 to the power n. */
  ghost function B(n: nat): int
    ensures B(n) > 0
  {
    if n == 0 then 1 else 0x1_0000 * B(n - 1)
  }

  /** The two's complement reading. */
  ghost function Signed(a: seq<int>): int {
    if Val(a) >= B(8) / 2 then Val(a) - B(8) else Val(a)
  }

  const ZERO: seq<int> := [0, 0, 0, 0, 0, 0, 0, 0]

  // ----- numbers and limbs -----

  lemma {:induction false} ValAppend(a: seq<int>, x: int)
    ensures Val(a + [x]) == Val(a) + x * B(|a|)
  {
    if a == [] {
      assert [] + [x] == [x] && [x][1..] == [];
    } else {
      ValAppend(a[1..], x);
      assert (a + [x])[1..] == a[1..] + [x];
      var v, b := Val(a[1..]), B(|a| - 1);
      assert 0x1_0000 * (v + x * b) == 0x1_0000 * v + x * (0x1_0000 * b);
    }
  }

  lemma {:induction false} ValConcat(a: seq<int>, b: seq<int>)
    ensures Val(a + b) == Val(a) + B(|a|) * Val(b)
  {
    if a == [] {
      assert a + b == b;
    } else {
      ValConcat(a[1..], b);
      assert (a + b)[1..] == a[1..] + b;
      var v, w, p := Val(a[1..]), Val(b), B(|a| - 1);
      assert 0x1_0000 * (v + p * w) == 0x1_0000 * v + (0x1_0000 * p) * w;
    }
  }

  lemma {:induction false} ValBounds(a: seq<int>)
    requires Limbs(a)
    ensures 0 <= Val(a) < B(|a|)
  {
    if a != [] {
      ValBounds(a[1..]);
      var v, p := Val(a[1..]), B(|a| - 1);
      assert v <= p - 1;
    }
  }

  lemma {:induction false} ValZeros(a: seq<int>)
    requires forall i | 0 <= i < |a| :: a[i] == 0
    ensures Val(a) == 0
  {
    if a != [] {
      ValZeros(a[1..]);
    }
  }

  /** One more limb of a prefix. */
  lemma ValTake(a: seq<int>, i: nat)
    requires i < |a|
    ensures Val(a[..i + 1]) == Val(a[..i]) + a[i] * B(i)
  {
    ValAppend(a[..i], a[i]);
    assert a[..i + 1] == a[..i] + [a[i]];
  }

  lemma ValSplit(a: seq<int>, i: nat)
    requires i <= |a|
    ensures Val(a) == Val(a[..i]) + B(i) * Val(a[i..])
  {
    hide Val, B;
    ValConcat(a[..i], a[i..]);
    assert a == a[..i] + a[i..];
  }

  lemma {:induction false} BSum(m: nat, n: nat)
    ensures B(m + n) == B(m) * B(n)
  {
    if m > 0 {
      BSum(m - 1, n);
      var x, y := B(m - 1), B(n);
      assert 0x1_0000 * (x * y) == (0x1_0000 * x) * y;
    }
  }

  /** One step of a limb loop: the low part of `c` is stored, the rest is carried on. */
  lemma CarryStep(lo: int, total: int, c: int, p: int)
    requires lo + c * p == total
    ensures lo + (c % 0x1_0000) * p + (c / 0x1_0000) * (0x1_0000 * p) == total
  {
    var q, r := c / 0x1_0000, c % 0x1_0000;
    assert c == q * 0x1_0000 + r;
    MulDist(q * 0x1_0000, r, p);
    assert (q * 0x1_0000) * p == q * (0x1_0000 * p);
  }

  // ----- addition and subtraction -----

  method Add(a: seq<int>, b: seq<int>) returns (r: seq<int>)
    requires IsInteger(a) && IsInteger(b)
    ensures IsInteger(r) && Val(r) == (Val(a) + Val(b)) % B(8)
  {
    var i, carry := 0, 0;
    r := a;
    while i < 8
      invariant 0 <= i <= 8 && IsInteger(r) && r[i..] == a[i..] && 0 <= carry < 2 * 0x1_0000
      invariant Val(r[..i]) + (carry / 0x1_0000) * B(i) == Val(a[..i]) + Val(b[..i])
    {
      AddStep(r, a, b, carry, i);
      carry := carry / 0x1_0000 + r[i] + b[i];
      r := r[i := carry % 0x1_0000];
      i := i + 1;
    }
    assert a[..8] == a && b[..8] == b;
    LoopEnd(r, carry / 0x1_0000, Val(a) + Val(b));
  }

  lemma AddStep(r: seq<int>, a: seq<int>, b: seq<int>, carry: int, i: nat)
    requires i < |a| == |b| == |r| && r[i..] == a[i..]
    requires Val(r[..i]) + (carry / 0x1_0000) * B(i) == Val(a[..i]) + Val(b[..i])
    ensures var c := carry / 0x1_0000 + r[i] + b[i];
            Val(r[i := c % 0x1_0000][..i + 1]) + (c / 0x1_0000) * B(i + 1) == Val(a[..i + 1]) + Val(b[..i + 1])
  {
    var was, c := carry / 0x1_0000, carry / 0x1_0000 + r[i] + b[i];
    assert r[i] == r[i..][0] == a[i..][0] == a[i];
    assert r[i := c % 0x1_0000][..i + 1] == r[..i] + [c % 0x1_0000];
    ValTake(a, i);
    ValTake(b, i);
    ValAppend(r[..i], c % 0x1_0000);
    MulDist(was + a[i], b[i], B(i));
    MulDist(was, a[i], B(i));
    CarryStep(Val(r[..i]), Val(r[..i]) + c * B(i), c, B(i));
  }

  /** What is carried out of the last limb is lost. */
  lemma LoopEnd(r: seq<int>, q: int, total: int)
    requires IsInteger(r) && Val(r[..8]) + q * B(8) == total
    ensures Val(r) == total % B(8)
  {
    assert r[..8] == r;
    ValBounds(r);
    DivModUnique(total, B(8), q, Val(r));
  }

  method Sub(a: seq<int>, b: seq<int>) returns (r: seq<int>)
    requires IsInteger(a) && IsInteger(b)
    ensures IsInteger(r) && Val(r) == (Val(a) - Val(b)) % B(8)
  {
    var i, carry := 0, 0;
    r := a;
    while i < 8
      invariant 0 <= i <= 8 && IsInteger(r) && r[i..] == a[i..] && -2 * 0x1_0000 < carry < 0x1_0000
      invariant Val(r[..i]) + (carry / 0x1_0000) * B(i) == Val(a[..i]) - Val(b[..i])
    {
      SubStep(r, a, b, carry, i);
      carry := carry / 0x1_0000 + r[i] - b[i];  // the shift of the C code rounds down, like `/` here
      r := r[i := carry % 0x1_0000];
      i := i + 1;
    }
    assert a[..8] == a && b[..8] == b;
    LoopEnd(r, carry / 0x1_0000, Val(a) - Val(b));
  }

  lemma SubStep(r: seq<int>, a: seq<int>, b: seq<int>, carry: int, i: nat)
    requires i < |a| == |b| == |r| && r[i..] == a[i..]
    requires Val(r[..i]) + (carry / 0x1_0000) * B(i) == Val(a[..i]) - Val(b[..i])
    ensures var c := carry / 0x1_0000 + r[i] - b[i];
            Val(r[i := c % 0x1_0000][..i + 1]) + (c / 0x1_0000) * B(i + 1) == Val(a[..i + 1]) - Val(b[..i + 1])
  {
    var was, c := carry / 0x1_0000, carry / 0x1_0000 + r[i] - b[i];
    assert r[i] == r[i..][0] == a[i..][0] == a[i];
    assert r[i := c % 0x1_0000][..i + 1] == r[..i] + [c % 0x1_0000];
    ValTake(a, i);
    ValTake(b, i);
    ValAppend(r[..i], c % 0x1_0000);
    MulDist(was + a[i], b[i], B(i));
    MulDist(was, a[i], B(i));
    CarryStep(Val(r[..i]), Val(r[..i]) + c * B(i), c, B(i));
  }

  // ----- the base 2 logarithm -----

  ghost function P2(n: nat): int
    ensures P2(n) > 0
  {
    if n == 0 then 1 else 2 * P2(n - 1)
  }

  lemma {:induction false} P2Sum(m: nat, n: nat)
    ensures P2(m + n) == P2(m) * P2(n)
  {
    if m > 0 {
      P2Sum(m - 1, n);
      assert 2 * (P2(m - 1) * P2(n)) == (2 * P2(m - 1)) * P2(n);
    }
  }

  lemma {:induction false} P2Monotone(m: nat, n: nat)
    requires m <= n
    ensures P2(m) <= P2(n)
  {
    if m < n {
      P2Monotone(m, n - 1);
    }
  }

  lemma P2Small()
    ensures P2(8) == 256 && P2(15) == 0x8000 && P2(16) == 0x1_0000
  {
    assert P2(4) == 16;
    P2Sum(4, 4);
    P2Sum(8, 7);
    P2Sum(8, 8);
    assert P2(7) == 2 * P2(6) == 4 * P2(5) == 8 * P2(4);
  }

  lemma {:induction false} LimbPower(n: nat)
    ensures B(n) == P2(16 * n)
  {
    if n > 0 {
      LimbPower(n - 1);
      P2Small();
      P2Sum(16, 16 * (n - 1));
    }
  }

  /** The entries of the table fx_log2_tab. */
  function Log2Tab(v: int): (n: int)
    requires 0 <= v < 256
    ensures n >= 0 && (v > 0 ==> P2(n) <= v < P2(n + 1)) && (v == 0 ==> n == 0)
  {
    if v < 2 then 0 else Log2Tab(v / 2) + 1
  }

  method Log2Of16Bits(x: int) returns (n: int)
    requires 0 < x < 0x1_0000
    ensures 0 <= n < 16 && P2(n) <= x < P2(n + 1)
  {
    var v := x;
    n := 0;
    if v / 256 != 0 {
      v := v / 256;
      n := n + 8;
    }
    var t := Log2Tab(v);
    P2Small();
    if n == 8 {
      P2Sum(8, t);
      P2Sum(8, t + 1);
    }
    n := n + t;
    if n >= 16 { P2Monotone(16, n); }
  }

  /** The index of the highest bit that is set; -1 (not 0) when there is none. */
  method Log2(a: seq<int>) returns (l: int)
    requires IsInteger(a)
    ensures Val(a) == 0 ==> l == -1
    ensures Val(a) > 0 ==> 0 <= l < 128 && P2(l) <= Val(a) < P2(l + 1)
    ensures Val(a) >= 0
  {
    var i := 7;
    while i >= 0
      invariant -1 <= i <= 7
      invariant forall k | i < k < 8 :: a[k] == 0
    {
      if a[i] != 0 {
        var t := Log2Of16Bits(a[i]);
        TopLimb(a, i, t);
        return t + 16 * i;
      }
      i := i - 1;
    }
    ValZeros(a);
    l := -1;
  }

  lemma TopLimbArith(lo: int, x: int, p: int, m: int, n: int)
    requires 0 <= lo < p && m <= x < n
    ensures m * p <= lo + x * p < n * p
  {
    MulMonotone(m, x, p);
    MulMonotone(x + 1, n, p);
    MulDist(x, 1, p);
  }

  lemma TopLimb(a: seq<int>, i: nat, t: nat)
    requires IsInteger(a) && i < 8 && forall k | i < k < 8 :: a[k] == 0
    requires P2(t) <= a[i] < P2(t + 1)
    ensures P2(t + 16 * i) <= Val(a) < P2(t + 16 * i + 1)
  {
    hide B, P2;
    assert Val(a) == Val(a[..i]) + a[i] * B(i) by {
      ValSplit(a, i + 1);
      ValZeros(a[i + 1..]);
      ValTake(a, i);
    }
    ValBounds(a[..i]);
    LimbPower(i);
    P2Sum(t, 16 * i);
    P2Sum(t + 1, 16 * i);
    TopLimbArith(Val(a[..i]), a[i], B(i), P2(t), P2(t + 1));
  }

  // ----- multiplication -----

  lemma NoHighPart(lo: int, p: int, hi: int)
    requires 0 <= lo && 0 < p && 0 <= hi && lo + p * hi < p
    ensures hi == 0
  {
    if hi >= 1 {
      MulAtLeast(hi, p);
    }
  }

  /** A number below B(n) uses n limbs only. */
  lemma HighZeros(a: seq<int>, n: nat)
    requires Limbs(a) && n <= |a| && Val(a) < B(n)
    ensures Val(a[..n]) == Val(a) && Val(a[n..]) == 0
    ensures forall i | n <= i < |a| :: a[i] == 0
  {
    ValSplit(a, n);
    ValBounds(a[..n]);
    ValBounds(a[n..]);
    NoHighPart(Val(a[..n]), B(n), Val(a[n..]));
    ZeroLimbs(a[n..]);
    assert forall i | n <= i < |a| :: a[i] == a[n..][i - n];
  }

  lemma {:induction false} ZeroLimbs(a: seq<int>)
    requires Limbs(a) && Val(a) == 0
    ensures forall i | 0 <= i < |a| :: a[i] == 0
  {
    if a != [] {
      ValBounds(a[1..]);
      ZeroLimbs(a[1..]);
      assert forall i | 1 <= i < |a| :: a[i] == a[1..][i - 1];
    }
  }

  /** How many limbs a number uses, as fx_mul_i computes it. */
  method UsedLimbs(a: seq<int>) returns (n: int)
    requires IsInteger(a)
    ensures 0 <= n <= 8 && Val(a) < B(n)
  {
    var l := Log2(a);
    n := (l + 16) / 16;
    LimbPower(n);
    if l >= 0 {
      P2Monotone(l + 1, 16 * n);
    }
  }

  method Mul(a: seq<int>, b: seq<int>) returns (out: seq<int>)
    requires IsInteger(a) && IsInteger(b)
    ensures IsInteger(out) && Val(out) == (Val(a) * Val(b)) % B(8)
  {
    var na := UsedLimbs(a);
    var nb := UsedLimbs(b);
    out := [0, 0, 0, 0, 0, 0, 0, 0];
    ValZeros(out);
    var i := 0;
    while i < na
      invariant 0 <= i <= na && IsInteger(out)
      invariant Val(out) == (Val(a[..i]) * Val(b)) % B(8)
    {
      if a[i] != 0 {
        out := MulRow(out, a, b, i, nb);
      } else {
        ValTake(a, i);
      }
      i := i + 1;
    }
    HighZeros(a, na);
  }

  /** The inner loop: adds a[i] * b, shifted by i limbs, to out. */
  method MulRow(out0: seq<int>, a: seq<int>, b: seq<int>, i: nat, nb: nat) returns (out: seq<int>)
    requires IsInteger(out0) && IsInteger(a) && IsInteger(b) && i < 8 && nb <= 8 && Val(b) < B(nb)
    requires Val(out0) == (Val(a[..i]) * Val(b)) % B(8)
    ensures IsInteger(out) && Val(out) == (Val(a[..i + 1]) * Val(b)) % B(8)
  {
    hide B;
    out := out0;
    var carry := 0;
    var j := i;
    assert b[..0] == [];
    while j < 8 && j - i <= nb
      invariant i <= j <= 8 && j - i <= nb + 1 && IsInteger(out) && out[j..] == out0[j..]
      invariant 0 <= carry < 0x1_0000_0000
      invariant Val(out[..j]) + (carry / 0x1_0000) * B(j) == Val(out0[..j]) + (a[i] * Val(b[..j - i])) * B(i)
    {
      ghost var lo, was := out[..j], carry / 0x1_0000;
      CarryFits(carry, out[j], a[i], b[j - i]);
      carry := carry / 0x1_0000 + out[j] + a[i] * b[j - i];
      out := out[j := carry % 0x1_0000];
      MulStep(lo, was, out0, a[i], b, i, j, carry);
      assert out[..j] == lo && out[..j + 1] == lo + [carry % 0x1_0000];
      j := j + 1;
    }
    RowTarget(a, Val(b), i);
    if j == 8 {
      RowWraps(8, out, carry / 0x1_0000, out0, a[i], b, i, Val(a[..i]) * Val(b));
    } else {
      PrefixBounds(a, i);
      RowFits(8, out, carry / 0x1_0000, out0, a[i], b, i, nb, Val(a[..i]), Val(a[..i]) * Val(b), (a[i] * Val(b)) * B(i));
    }
  }

  /** The accumulator stays an unsigned 32-bit number. */
  lemma CarryFits(carry: int, o: int, x: int, y: int)
    requires 0 <= carry < 0x1_0000_0000 && 0 <= o < 0x1_0000 && 0 <= x < 0x1_0000 && 0 <= y < 0x1_0000
    ensures 0 <= carry / 0x1_0000 + o + x * y < 0x1_0000_0000
  {
    MulMonotone(x, 0xFFFF, y);
    MulMonotone(0, x, y);
  }

  lemma MulStepArith(lo: int, was: int, v0: int, o: int, x: int, y: int, d: int, p: int, q: int, carry: int)
    requires lo + was * (q * p) == v0 + (x * d) * p && carry == was + o + x * y
    ensures lo + (carry % 0x1_0000) * (q * p) + (carry / 0x1_0000) * (0x1_0000 * (q * p))
            == v0 + o * (q * p) + (x * (d + q * y)) * p
  {
    var b := q * p;
    RowSplit(x, d, y, p, q);
    MulDist(was + o, x * y, b);
    MulDist(was, o, b);
    CarryStep(lo, lo + carry * b, carry, b);
  }

  lemma MulStep(lo: seq<int>, was: int, out0: seq<int>, x: int, b: seq<int>, i: nat, j: nat, carry: int)
    requires i <= j < |out0| && j - i < |b| && |lo| == j && carry == was + out0[j] + x * b[j - i]
    requires Val(lo) + was * B(j) == Val(out0[..j]) + (x * Val(b[..j - i])) * B(i)
    ensures Val(lo + [carry % 0x1_0000]) + (carry / 0x1_0000) * B(j + 1)
            == Val(out0[..j + 1]) + (x * Val(b[..j - i + 1])) * B(i)
  {
    assert B(j + 1) == 0x1_0000 * B(j);
    hide Val, B;
    ValTake(out0, j);
    assert Val(b[..j - i + 1]) == Val(b[..j - i]) + B(j - i) * b[j - i] by { ValTake(b, j - i); }
    ValAppend(lo, carry % 0x1_0000);
    BSum(j - i, i);
    MulStepArith(Val(lo), was, Val(out0[..j]), out0[j], x, b[j - i], Val(b[..j - i]), B(i), B(j - i), carry);
  }

  /** The product of a number below B(m) and one below B(n) is below B(m + n). */
  lemma ProductBound(x: int, y: int, m: nat, n: nat)
    requires 0 <= x < B(m) && 0 <= y < B(n)
    ensures 0 <= x * y < B(m + n)
  {
    BSum(m, n);
    MulMonotone(0, x, y);
    MulMonotone(x, B(m), y);
    assert B(m) * y < B(m) * B(n) by {
      MulMonotone(y + 1, B(n), B(m));
      MulDist(y, 1, B(m));
    }
  }

  /** A row, split where the limbs of b leave the 128 bits. */
  lemma RowSplit(x: int, d: int, e: int, p: int, r: int)
    ensures (x * (d + r * e)) * p == (x * d) * p + (x * e) * (r * p)
  {
    assert x * (d + r * e) == x * d + (x * e) * r by {
      MulDist(d, r * e, x);
      MulAssoc(x, e, r);
      MulAssoc(x, r, e);
    }
    MulDist(x * d, (x * e) * r, p);
    MulAssoc(x * e, r, p);
  }

  lemma RowAdds(s: int, va: int, x: int, p: int, vb: int)
    requires s == va * vb
    ensures (va + x * p) * vb == s + (x * vb) * p
  {
    MulDist(va, x * p, vb);
    assert (x * p) * vb == (x * vb) * p;
  }

  lemma WrapArith(v: int, q: int, m: int, s: int, a: int, k: int)
    requires m > 0 && 0 <= v < m && v + q * m == s % m + a
    ensures v == (s + (a + k * m)) % m
  {
    var t, r := s / m, s % m;
    assert s + (a + k * m) == (t + q + k) * m + v by {
      MulDist(t + q, k, m);
      MulDist(t, q, m);
    }
    DivModUnique(s + (a + k * m), m, t + q + k, v);
  }

  /** One more limb of a contributes one more row. */
  lemma RowTarget(a: seq<int>, vb: int, i: nat)
    requires i < |a|
    ensures Val(a[..i + 1]) * vb == Val(a[..i]) * vb + (a[i] * vb) * B(i)
  {
    ValTake(a, i);
    RowAdds(Val(a[..i]) * vb, Val(a[..i]), a[i], B(i), vb);
  }

  lemma PrefixBounds(a: seq<int>, i: nat)
    requires i < |a| && Limbs(a)
    ensures 0 <= Val(a[..i]) < B(i) && 0 <= Val(a[..i]) + a[i] * B(i) < B(i + 1)
  {
    ValBounds(a[..i]);
    ValBounds(a[..i + 1]);
    ValTake(a, i);
  }

  /** A row, split into what stays in n limbs and what does not. */
  lemma RowParts(n: nat, x: int, b: seq<int>, i: nat)
    requires |b| == n && i < n
    ensures (x * Val(b)) * B(i) == (x * Val(b[..n - i])) * B(i) + (x * Val(b[n - i..])) * B(n)
  {
    hide Val, B;
    ValSplit(b, n - i);
    BSum(n - i, i);
    RowSplit(x, Val(b[..n - i]), Val(b[n - i..]), B(i), B(n - i));
  }

  /** The row reaches the last limb: what is left over has the weight of the modulus. */
  lemma RowWraps(n: nat, out: seq<int>, q: int, out0: seq<int>, x: int, b: seq<int>, i: nat, s: int)
    requires |out| == |out0| == |b| == n && Limbs(out) && Limbs(b) && i < n
    requires Val(out[..n]) + q * B(n) == Val(out0[..n]) + (x * Val(b[..n - i])) * B(i)
    requires Val(out0) == s % B(n)
    ensures Val(out) == (s + (x * Val(b)) * B(i)) % B(n)
  {
    hide Val, B;
    assert out0[..n] == out0 && out[..n] == out;
    var d, e := Val(b[..n - i]), Val(b[n - i..]);
    RowParts(n, x, b, i);
    ValBounds(out);
    WrapArith(Val(out), q, B(n), s, (x * d) * B(i), x * e);
  }

  /** The row ends below the last limb: nothing is carried out. */
  lemma RowFits(n: nat, out: seq<int>, q: int, out0: seq<int>, x: int, b: seq<int>, i: nat, nb: nat,
                va: int, s: int, row: int)
    requires |out| == |out0| == |b| == n && Limbs(out) && Limbs(out0) && Limbs(b)
    requires Val(b) < B(nb) && q >= 0 && 0 <= va < B(i) && 0 <= va + x * B(i) < B(i + 1)
    requires i + nb + 1 < n && out[i + nb + 1..] == out0[i + nb + 1..]
    requires Val(out[..i + nb + 1]) + q * B(i + nb + 1) == Val(out0[..i + nb + 1]) + (x * Val(b[..nb + 1])) * B(i)
    requires s == va * Val(b) && Val(out0) == s % B(n) && row == (x * Val(b)) * B(i)
    ensures Val(out) == (s + row) % B(n)
  {
    hide B, Val;
    var j := i + nb + 1;
    ValBounds(b);
    assert s + row < B(j) && 0 <= s < B(j) by {
      ProductBound(va, Val(b), i, nb);
      ProductBound(va + x * B(i), Val(b), i + 1, nb);
      RowAdds(s, va, x, B(i), Val(b));
      BMonotone(i + nb, j);
    }
    BMonotone(j, n);
    DivModUnique(s, B(n), 0, s);
    assert Val(out0[..j]) == s && Val(out0[j..]) == 0 by { HighZeros(out0, j); }
    assert Val(b[..nb + 1]) == Val(b) by {
      BMonotone(nb, nb + 1);
      HighZeros(b, nb + 1);
    }
    ValBounds(out[..j]);
    assert q * B(j) == B(j) * q;
    NoHighPart(Val(out[..j]), B(j), q);
    ValSplit(out, j);
    assert Val(out) == s + row;
    DivModUnique(s + row, B(n), 0, s + row);
  }

  lemma {:induction false} BMonotone(m: nat, n: nat)
    requires m <= n
    ensures B(m) <= B(n)
  {
    if m < n {
      BMonotone(m, n - 1);
    }
  }

  // ----- comparison -----

  function Signed16(x: int): int {
    if x >= 0x8000 then x - 0x1_0000 else x
  }

  /** The low seven limbs count unsigned, the top one signed. */
  lemma SignedTop(a: seq<int>)
    requires IsInteger(a)
    ensures Signed(a) == Val(a[..7]) + Signed16(a[7]) * B(7) && 0 <= Val(a[..7]) < B(7)
    ensures a[7] >= 0x8000 <==> Signed(a) < 0
  {
    assert a[..8] == a;
    ValTake(a, 7);
    ValBounds(a[..7]);
    assert B(8) == 0x1_0000 * B(7);
    var p := B(7);
    if a[7] >= 0x8000 {
      MulMonotone(0x8000, a[7], p);
      MulDist(a[7], 0x1_0000, p);
      MulMonotone(Signed16(a[7]), -1, p);
    } else {
      MulMonotone(a[7] + 1, 0x8000, p);
      MulDist(a[7], 1, p);
      MulMonotone(0, a[7], p);
    }
  }

  lemma LimbDecides(a: seq<int>, b: seq<int>, i: nat)
    requires IsInteger(a) && IsInteger(b) && i < 7 && a[i + 1..] == b[i + 1..] && a[i] < b[i]
    ensures Signed(a) < Signed(b)
  {
    assert a[..7][..i + 1] == a[..i + 1] && b[..7][..i + 1] == b[..i + 1];
    assert a[..7][i + 1..] == a[i + 1..][..6 - i] && b[..7][i + 1..] == b[i + 1..][..6 - i];
    ValSplit(a[..7], i + 1);
    ValSplit(b[..7], i + 1);
    ValTake(a, i);
    ValTake(b, i);
    ValBounds(a[..i]);
    ValBounds(b[..i]);
    LexicographicLess(Val(a[..i]), Val(b[..i]), a[i], b[i], B(i));
    SignedTop(a);
    SignedTop(b);
    assert a[7] == a[i + 1..][6 - i] == b[i + 1..][6 - i] == b[7];
  }

  /** What fx_cmp_i makes of a difference of two limbs: its sign. */
  function SignOf(v: int): int {
    if v / 0x1_0000 == 0 then 1 else -1
  }

  method Cmp(a: seq<int>, b: seq<int>) returns (r: int)
    requires IsInteger(a) && IsInteger(b)
    ensures r == if Signed(a) < Signed(b) then -1 else if Signed(a) > Signed(b) then 1 else 0
  {
    var v := Signed16(a[7]) - Signed16(b[7]);
    if v != 0 {
      SignedTop(a);
      SignedTop(b);
      if v < 0 {
        LexicographicLess(Val(a[..7]), Val(b[..7]), Signed16(a[7]), Signed16(b[7]), B(7));
      } else {
        LexicographicLess(Val(b[..7]), Val(a[..7]), Signed16(b[7]), Signed16(a[7]), B(7));
      }
      return SignOf(v);
    }
    var i := 6;
    while i >= 0
      invariant -1 <= i <= 6 && a[i + 1..] == b[i + 1..]
    {
      var w := a[i] - b[i];
      if w != 0 {
        if w < 0 {
          LimbDecides(a, b, i);
        } else {
          LimbDecides(b, a, i);
        }
        return SignOf(w);
      }
      assert a[i..] == [a[i]] + a[i + 1..] && b[i..] == [b[i]] + b[i + 1..];
      i := i - 1;
    }
    assert a == a[0..] && b == b[0..];
    return 0;
  }

  // ----- shifts -----

  ghost function LimbAt(a: seq<int>, k: int): int {
    if 0 <= k < |a| then a[k] else 0
  }

  /** x / 2^s for any s, rounded down: a right shift for s >= 0, a left shift for s < 0. */
  ghost function Shifted(x: int, s: int): int {
    if s >= 0 then x / P2(s) else x * P2(-s)
  }

  method Shr(a: seq<int>, s: int) returns (out: seq<int>)
    requires IsInteger(a) && -0x8000_0000 <= s < 0x8000_0000
    ensures IsInteger(out) && Val(out) == Shifted(Val(a), s) % B(8)
  {
    ghost var x := Shifted(Val(a), s);
    out := [0, 0, 0, 0, 0, 0, 0, 0];
    assert B(0) == 1;
    var i := 0;
    while i < 8
      invariant 0 <= i <= 8 && IsInteger(out) && Val(out[..i]) == x % B(i)
    {
      var v := Window(a, (i + s / 16) % 0x1_0000_0000);  // the index is an unsigned int
      WindowLimbs(a, i + s / 16);
      ShiftedLimb(a, s, i, v);
      var limb := (v / Power(s % 16)) % 0x1_0000;
      ShrStep(out, i, limb, x);
      out := out[i := limb];
      i := i + 1;
    }
    assert out[..8] == out;
  }

  /** The two limbs at an unsigned 32-bit index, as far as they exist. */
  function Window(a: seq<int>, index: int): int
    requires |a| == 8 && 0 <= index < 0x1_0000_0000
  {
    var above := (index + 1) % 0x1_0000_0000;
    (if above < 8 then a[above] * 0x1_0000 else 0) + if index < 8 then a[index] else 0
  }

  lemma WindowLimbs(a: seq<int>, k: int)
    requires |a| == 8 && -0x8000_0000 <= k < 0x8000_0000
    ensures Window(a, k % 0x1_0000_0000) == LimbAt(a, k) + 0x1_0000 * LimbAt(a, k + 1)
  {
  }

  lemma ShrStep(out: seq<int>, i: nat, d: int, x: int)
    requires IsInteger(out) && i < 8 && Val(out[..i]) == x % B(i) && d == (x / B(i)) % 0x1_0000
    ensures IsInteger(out[i := d]) && Val(out[i := d][..i + 1]) == x % B(i + 1)
  {
    var r := out[i := d];
    assert r[..i] == out[..i];
    ValTake(r, i);
    DigitAppend(x, i);
  }

  /** 2^n for the shift of a 32-bit value by fewer than 16 bits. */
  function Power(n: int): int
    requires 0 <= n < 16
  {
    [1, 2, 4, 8, 16, 32, 64, 128, 256, 512, 1024, 2048, 4096, 8192, 0x4000, 0x8000][n]
  }

  lemma PowerOf(n: nat)
    requires n < 16
    ensures Power(n) == P2(n)
  {
    if n > 0 {
      PowerOf(n - 1);
    }
  }

  /** The low i + 1 limbs of a number, from its low i limbs and limb i. */
  lemma DigitAppend(x: int, i: nat)
    ensures x % B(i + 1) == x % B(i) + ((x / B(i)) % 0x1_0000) * B(i)
  {
    var p := B(i);
    var q := x / p;
    var h, d := q / 0x1_0000, q % 0x1_0000;
    assert x == q * p + x % p;
    assert q * p == h * (0x1_0000 * p) + d * p by {
      MulDist(h * 0x1_0000, d, p);
      assert (h * 0x1_0000) * p == h * (0x1_0000 * p);
    }
    LexicographicLess(x % p, 0, d, 0x1_0000, p);
    MulMonotone(0, d, p);
    DivModUnique(x, 0x1_0000 * p, h, x % p + d * p);
  }

  /** x shifted by whole limbs. */
  ghost function LimbShifted(x: int, k: int): int {
    if k >= 0 then x / B(k) else x * B(-k)
  }

  lemma RightByBoth(x: int, bq: int, p: int, bi: int)
    requires bq > 0 && p > 0 && bi > 0
    ensures bq * p > 0 && bq * bi > 0 && x / (bq * p) / bi == x / (bq * bi) / p
  {
    MulMonotone(1, bq, p);
    MulMonotone(1, bq, bi);
    DivDiv(x, bq * p, bi);
    DivDiv(x, bq * bi, p);
    MulAssoc(bq, p, bi);
  }

  /** Left by less than right: a right shift remains. */
  lemma LeftThenRight(x: int, m: int, p: int, bn: int, bk: int)
    requires p > 0 && bn > 0 && bk > 0 && m * p == bn
    ensures bk * bn > 0 && (x * m) / (bk * bn) == x / bk / p
  {
    MulMonotone(1, bk, bn);
    MulMonotone(1, bk, p);
    DivCancel(x * m, bk * bn, p);
    MulAssoc(x, m, p);
    MulAssoc(bk, bn, p);
    DivCancel(x, bk * p, bn);
    DivDiv(x, bk, p);
  }

  /** Left by more than right: a left shift remains. */
  lemma LeftRemains(x: int, m: int, p: int, bj: int, bi: int)
    requires p > 0 && bi > 0 && m * p == bj * bi
    ensures (x * m) / bi == (x * bj) / p
  {
    DivCancel(x * m, bi, p);
    MulAssoc(x, m, p);
    MulAssoc(x, bj, bi);
    DivCancel(x * bj, p, bi);
    assert bi * p == p * bi;
  }

  /** Limb i of the shifted number: first shift by whole limbs, then by the bits that remain. */
  lemma ShiftInTwoSteps(x: int, s: int, i: nat)
    ensures Shifted(x, s) / B(i) == LimbShifted(x, i + s / 16) / P2(s % 16)
  {
    var q, r := s / 16, s % 16;
    if s >= 0 {
      LimbPower(q);
      P2Sum(16 * q, r);
      BSum(q, i);
      RightByBoth(x, B(q), P2(r), B(i));
    } else {
      LeftShift(x, -q, r, i);
      assert -s == 16 * -q - r;
    }
  }

  lemma LeftShift(x: int, n: nat, r: nat, i: nat)
    requires r < 16 && n >= 1
    ensures (x * P2(16 * n - r)) / B(i) == LimbShifted(x, i - n) / P2(r)
  {
    LimbPower(n);
    P2Sum(16 * n - r, r);
    if i >= n {
      BSum(i - n, n);
      LeftThenRight(x, P2(16 * n - r), P2(r), B(n), B(i - n));
    } else {
      BSum(n - i, i);
      LeftRemains(x, P2(16 * n - r), P2(r), B(n - i), B(i));
    }
  }

  /** The two limbs at k, and the rest of the number above them. */
  lemma TwoLimbs(a: seq<int>, k: int) returns (w: int)
    requires IsInteger(a)
    ensures LimbShifted(Val(a), k) == LimbAt(a, k) + 0x1_0000 * LimbAt(a, k + 1) + 0x1_0000_0000 * w
  {
    ValBounds(a);
    if k >= 8 {
      BMonotone(8, k);
      DivModUnique(Val(a), B(k), 0, Val(a));
      w := 0;
    } else if k >= 0 {
      ValSplit(a, k);
      ValBounds(a[..k]);
      assert B(k) * Val(a[k..]) == Val(a[k..]) * B(k);
      DivModUnique(Val(a), B(k), Val(a[k..]), Val(a[..k]));
      assert a[k..][1..] == a[k + 1..];
      w := 0;
      if k < 7 {
        assert a[k + 1..][1..] == a[k + 2..];
        w := Val(a[k + 2..]);
      }
    } else if k == -1 {
      assert B(1) == 0x1_0000;
      w := Val(a[1..]);
    } else {
      assert B(-k) == 0x1_0000 * B(-k - 1) == 0x1_0000_0000 * B(-k - 2);
      w := Val(a) * B(-k - 2);
    }
  }

  lemma ShiftArith(v: int, w: int, m: int, p: int)
    requires p > 0 && m * p == 0x1_0000
    ensures ((v + 0x1_0000_0000 * w) / p) % 0x1_0000 == (v / p) % 0x1_0000
  {
    var q, u := v / p, m * w;
    assert u * p == 0x1_0000 * w by { MulAssoc(m, w, p); }
    MulAssoc(0x1_0000, u, p);
    MulDist(q, 0x1_0000 * u, p);
    DivModUnique(v + 0x1_0000_0000 * w, p, q + 0x1_0000 * u, v % p);
  }

  /** Two neighbouring limbs are enough for one limb of a shift by fewer than 16 bits. */
  lemma ShiftWithin(v: int, w: int, r: nat)
    requires r < 16
    ensures ((v + 0x1_0000_0000 * w) / P2(r)) % 0x1_0000 == (v / P2(r)) % 0x1_0000
  {
    P2Small();
    P2Sum(16 - r, r);
    ShiftArith(v, w, P2(16 - r), P2(r));
  }

  lemma ShiftedLimb(a: seq<int>, s: int, i: nat, v: int)
    requires IsInteger(a) && v == LimbAt(a, i + s / 16) + 0x1_0000 * LimbAt(a, i + s / 16 + 1)
    ensures (v / Power(s % 16)) % 0x1_0000 == (Shifted(Val(a), s) / B(i)) % 0x1_0000
  {
    ShiftInTwoSteps(Val(a), s, i);
    var w := TwoLimbs(a, i + s / 16);
    ShiftWithin(v, w, s % 16);
    PowerOf(s % 16);
  }

  // ----- division -----

  lemma TopBit()
    ensures B(8) == P2(128) == 2 * P2(127)
  {
    LimbPower(8);
  }

  lemma NegatedValue(v: int, h: int)
    requires 0 <= v < 2 * h
    ensures (0 - v) % (2 * h) == if v == 0 then 0 else 2 * h - v
  {
    if v == 0 {
      DivModUnique(0, 2 * h, 0, 0);
    } else {
      DivModUnique(-v, 2 * h, -1, 2 * h - v);
    }
  }

  /** Two's complement negation; the least number is its own negation. */
  lemma Negated(a: seq<int>, r: seq<int>)
    requires IsInteger(a) && IsInteger(r) && Val(r) == (0 - Val(a)) % B(8)
    ensures Signed(r) == if Signed(a) == -(B(8) / 2) then Signed(a) else -Signed(a)
  {
    hide B, P2, Val;
    TopBit();
    ValBounds(a);
    NegatedValue(Val(a), P2(127));
  }

  /** fx_mod_i returns within so many recursive calls, each of which negates a dividend whose top bit
      is set. */
  ghost predicate Returns(v: int, depth: nat)
    decreases depth
  {
    v < B(8) / 2 || (depth > 0 && Returns((0 - v) % B(8), depth - 1))
  }

  lemma {:induction false} LeastStays(h: int, depth: nat)
    requires B(8) == 2 * h
    ensures !Returns(h, depth)
  {
    if depth > 0 {
      hide B;
      NegatedValue(h, h);
      LeastStays(h, depth - 1);
    }
  }

  /** The recursion ends, after one call at the most, for every dividend but the least one; for that
      one it does not, however deep it goes. */
  lemma RecursionEnds(a: seq<int>, depth: nat)
    requires IsInteger(a) && depth >= 1
    ensures Returns(Val(a), depth) <==> Signed(a) != -(B(8) / 2)
  {
    hide B, P2, Val;
    TopBit();
    ValBounds(a);
    var h := P2(127);
    assert B(8) / 2 == h;
    LeastStays(h, depth);
    if Val(a) > h {
      NegatedValue(Val(a), h);
      assert Returns(2 * h - Val(a), depth - 1);
    }
  }

  /** A left shift that loses no bit. */
  lemma ShiftedLeft(x: int, n: int)
    requires 0 <= n && 0 <= x && x * P2(n) < B(8)
    ensures Shifted(x, -n) % B(8) == x * P2(n)
  {
    MulMonotone(0, x, P2(n));
    if n == 0 {
      assert P2(0) == 1;
    }
    DivModUnique(x * P2(n), B(8), 0, x * P2(n));
  }

  lemma HalfOf(b: seq<int>, b': seq<int>, vb: int, n: nat)
    requires IsInteger(b) && IsInteger(b') && Val(b') == Shifted(Val(b), 1) % B(8)
    requires n >= 1 && Val(b) == vb * P2(n)
    ensures Val(b') == vb * P2(n - 1)
  {
    assert P2(1) == 2 && P2(n) == 2 * P2(n - 1);
    hide P2, B, Val;
    var half := vb * P2(n - 1);
    assert Val(b) == 2 * half by { MulAssoc(vb, 2, P2(n - 1)); }
    ValBounds(b);
    hide IsInteger;
    DivModUnique(half, B(8), 0, half);
  }

  /** Adding one to the low limb of an even number. */
  lemma SetLowBit(q: seq<int>)
    requires IsInteger(q) && Val(q) % 2 == 0
    ensures q[0] < 0xFFFF && IsInteger(q[0 := q[0] + 1]) && Val(q[0 := q[0] + 1]) == Val(q) + 1
  {
    assert q[0 := q[0] + 1][1..] == q[1..];
  }

  /** A number, and its bounds, shifted left. */
  lemma ScaledBounds(v: int, l: nat, n: nat)
    requires P2(l) <= v < P2(l + 1)
    ensures P2(l + n) <= v * P2(n) < P2(l + 1 + n)
  {
    P2Sum(l, n);
    P2Sum(l + 1, n);
    MulMonotone(P2(l), v, P2(n));
    MulMonotone(v + 1, P2(l + 1), P2(n));
    MulDist(v, 1, P2(n));
  }

  lemma LogBelow(va: int, la: nat)
    requires P2(la) <= va < P2(127)
    ensures la < 127 && P2(la + 1) <= P2(127)
  {
    if la >= 127 { P2Monotone(127, la); }
    P2Monotone(la + 1, 127);
  }

  /** The alignment by logarithms: the dividend is below twice the shifted divisor. */
  lemma Aligned(va: int, vb: int, la: int, lb: int)
    requires 0 <= va < P2(127) && 0 < vb < P2(127)
    requires va == 0 ==> la == -1
    requires va > 0 ==> 0 <= la < 128 && P2(la) <= va < P2(la + 1)
    requires 0 <= lb < 128 && P2(lb) <= vb < P2(lb + 1)
    ensures la < lb ==> va < vb
    ensures la >= lb ==> va < vb * P2(la - lb + 1) && vb * P2(la - lb) < P2(127)
  {
    if la < lb {
      if va > 0 { P2Monotone(la + 1, lb); }
    } else {
      LogBelow(va, la);
      ScaledBounds(vb, lb, la - lb + 1);
      ScaledBounds(vb, lb, la - lb);
    }
  }

  /** One round of the division loop: one more bit of the quotient. */
  lemma RoundOf(va: int, q: int, x: int, c: int, r: int)
    requires va == q * (2 * c) + x && r == (if x >= c then 2 * q + 1 else 2 * q)
    ensures va == r * c + (if x >= c then x - c else x)
  {
    MulAssoc(q, 2, c);
    MulDist(2 * q, 1, c);
  }

  lemma QuotientBound(va: int, q: int, x: int, c: int)
    requires va == q * c + x && 0 <= x && c >= 1 && 0 <= q
    ensures q <= va
  {
    MulMonotone(1, c, q);
    assert q * c == c * q;
  }

  method Double(q: seq<int>) returns (r: seq<int>)
    requires IsInteger(q) && Val(q) < P2(127)
    ensures IsInteger(r) && Val(r) == 2 * Val(q)
  {
    assert P2(1) == 2;
    hide B, P2, Val;
    r := Shr(q, -1);
    TopBit();
    ValBounds(q);
    ShiftedLeft(Val(q), 1);
  }

  lemma SmallSigned(a: seq<int>)
    requires IsInteger(a) && Val(a) < P2(127)
    ensures Signed(a) == Val(a) >= 0
  {
    TopBit();
    ValBounds(a);
  }

  lemma SmallDifference(x: int, y: int)
    requires 0 <= y <= x < P2(127)
    ensures (x - y) % B(8) == x - y
  {
    hide B, P2;
    TopBit();
    DivModUnique(x - y, B(8), 0, x - y);
  }

  /** One round: the quotient is shifted, the divisor subtracted if it fits, and halved. */
  method Round(quot0: seq<int>, a0: seq<int>, b0: seq<int>) returns (quot: seq<int>, a: seq<int>, b: seq<int>)
    requires IsInteger(quot0) && IsInteger(a0) && IsInteger(b0) && Val(b0) < P2(127)
    requires Val(quot0) < P2(127) && Val(a0) < P2(127)
    ensures IsInteger(quot) && IsInteger(a) && IsInteger(b)
    ensures Val(quot) == if Val(a0) >= Val(b0) then 2 * Val(quot0) + 1 else 2 * Val(quot0)
    ensures Val(a) == if Val(a0) >= Val(b0) then Val(a0) - Val(b0) else Val(a0)
    ensures Val(b) == Shifted(Val(b0), 1) % B(8)
  {
    hide B, P2, Val;
    SmallSigned(a0);
    SmallSigned(b0);
    quot := Double(quot0);
    a := a0;
    var r := Cmp(a, b0);
    if r >= 0 {
      a := Sub(a, b0);
      SmallDifference(Val(a0), Val(b0));
      SetLowBit(quot);
      quot := quot[0 := quot[0] + 1];
    }
    b := Shr(b0, 1);
  }

  /** What the division loop keeps: the dividend is quot * top + a, with the remainder a below top. */
  ghost predicate Dividing(va: int, top: int, quot: seq<int>, a: seq<int>) {
    IsInteger(quot) && IsInteger(a) && va == Val(quot) * top + Val(a) && 0 <= Val(a) < top
  }

  lemma DividingBounds(va: int, top: int, quot: seq<int>, a: seq<int>)
    requires Dividing(va, top, quot, a)
    ensures 0 <= Val(quot) <= va && Val(a) <= va
  {
    ValBounds(quot);
    QuotientBound(va, Val(quot), Val(a), top);
    MulMonotone(0, Val(quot), top);
  }

  lemma DividingStep(va: int, c: int, quot: seq<int>, a: seq<int>, quot': seq<int>, a': seq<int>)
    requires Dividing(va, 2 * c, quot, a) && IsInteger(quot') && IsInteger(a')
    requires Val(quot') == if Val(a) >= c then 2 * Val(quot) + 1 else 2 * Val(quot)
    requires Val(a') == if Val(a) >= c then Val(a) - c else Val(a)
    ensures Dividing(va, c, quot', a')
  {
    RoundOf(va, Val(quot), Val(a), c, Val(quot'));
  }

  /** The divisor for a loop with n rounds to go. */
  ghost predicate Scaled(b: seq<int>, vb: int, n: nat, top: int) {
    && IsInteger(b) && vb > 0 && top == vb * P2(n)
    && (n >= 1 ==> top == 2 * Val(b) && Val(b) == vb * P2(n - 1) < P2(127))
  }

  lemma ScaledStep(b: seq<int>, vb: int, n: nat, top: int, b': seq<int>)
    requires Scaled(b, vb, n, top) && n >= 1 && IsInteger(b') && Val(b') == Shifted(Val(b), 1) % B(8)
    ensures Scaled(b', vb, n - 1, Val(b))
  {
    if n >= 2 {
      HalfOf(b, b', vb, n - 1);
      MulAssoc(vb, 2, P2(n - 2));
      ValBounds(b');
    }
  }

  lemma ScaledStart(b: seq<int>, vb: int, n: nat)
    requires IsInteger(b) && vb > 0 && (n >= 1 ==> Val(b) == vb * P2(n - 1) < P2(127))
    ensures Scaled(b, vb, n, vb * P2(n))
  {
    if n >= 1 {
      MulAssoc(vb, 2, P2(n - 1));
    }
  }

  method DivideRound(quot0: seq<int>, a0: seq<int>, b0: seq<int>, ghost va: int, ghost vb: int, ghost n: nat, ghost top: int)
      returns (quot: seq<int>, a: seq<int>, b: seq<int>)
    requires n >= 1 && 0 <= va < P2(127) && Dividing(va, top, quot0, a0) && Scaled(b0, vb, n, top)
    ensures Dividing(va, Val(b0), quot, a) && Scaled(b, vb, n - 1, Val(b0))
  {
    DividingBounds(va, top, quot0, a0);
    quot, a, b := Round(quot0, a0, b0);
    DividingStep(va, Val(b0), quot0, a0, quot, a);
    ScaledStep(b0, vb, n, top, b);
  }

  /** The alignment of the divisor before the loop. */
  method Align(b0: seq<int>, i: int, ghost va: int) returns (b: seq<int>, ghost n: nat)
    requires IsInteger(b0) && Val(b0) > 0 && i < 128
    requires i < 0 ==> va < Val(b0)
    requires i >= 0 ==> va < Val(b0) * P2(i + 1) && Val(b0) * P2(i) < P2(127)
    ensures n == (if i >= 0 then i + 1 else 0) && Scaled(b, Val(b0), n, Val(b0) * P2(n)) && va < Val(b0) * P2(n)
  {
    b := b0;
    assert P2(0) == 1;
    TopBit();
    if i > 0 {
      b := Shr(b, -i);
      ShiftedLeft(Val(b0), i);
    }
    n := if i >= 0 then i + 1 else 0;
    ScaledStart(b, Val(b0), n);
  }

  lemma LoopStarts(va: int, top: int, a: seq<int>)
    requires IsInteger(a) && 0 <= va == Val(a) < top
    ensures Dividing(va, top, ZERO, a)
  {
    ValZeros(ZERO);
  }

  lemma LoopEnds(b: seq<int>, vb: int, top: int)
    requires Scaled(b, vb, 0, top)
    ensures top == vb
  {
    assert P2(0) == 1;
  }

  /** The shift-and-subtract loop of fx_mod_i, for 0 <= a0. */
  method DivideLoop(a0: seq<int>, b0: seq<int>, la: int, lb: int) returns (quot: seq<int>, a: seq<int>)
    requires IsInteger(a0) && IsInteger(b0) && 0 <= Val(a0) < P2(127) && 0 < Val(b0) < P2(127)
    requires Val(a0) == 0 ==> la == -1
    requires Val(a0) > 0 ==> 0 <= la < 128 && P2(la) <= Val(a0) < P2(la + 1)
    requires 0 <= lb < 128 && P2(lb) <= Val(b0) < P2(lb + 1)
    ensures Dividing(Val(a0), Val(b0), quot, a)
  {
    hide B, Val, P2, Dividing, Scaled;
    var i := la - lb;
    a := a0;
    Aligned(Val(a0), Val(b0), la, lb);
    var b;
    ghost var n;
    b, n := Align(b0, i, Val(a0));
    quot := ZERO;
    ghost var top := Val(b0) * P2(n);
    ValBounds(a);
    LoopStarts(Val(a0), top, a);
    while i >= 0
      invariant n == (if i >= 0 then i + 1 else 0)
      invariant Dividing(Val(a0), top, quot, a) && Scaled(b, Val(b0), n, top)
    {
      i := i - 1;
      ghost var c := Val(b);
      quot, a, b := DivideRound(quot, a, b, Val(a0), Val(b0), n, top);
      top := c;
      n := n - 1;
    }
    LoopEnds(b, Val(b0), top);
  }

  lemma NegatedProduct(x: int, q: int, d: int, r: int)
    requires -x == q * d + r
    ensures x == -q * d + -r
  {
    assert -q * d == -(q * d);
  }

  /** fx_mod_i.  The quotient is rounded towards zero, the remainder has the sign of the dividend. */
  method Mod(a0: seq<int>, b: seq<int>) returns (quot: seq<int>, a: seq<int>)
    requires IsInteger(a0) && IsInteger(b)
    requires Signed(b) > 0 && Signed(a0) != -(B(8) / 2)
    ensures IsInteger(quot) && IsInteger(a)
    ensures Signed(a0) == Signed(quot) * Signed(b) + Signed(a)
    ensures Signed(a0) >= 0 ==> 0 <= Signed(a) < Signed(b) && Signed(quot) >= 0
    ensures Signed(a0) <= 0 ==> -Signed(b) < Signed(a) <= 0 && Signed(quot) <= 0
    decreases Signed(a0) < 0
  {
    hide B, P2, Val;
    TopBit();
    SignedTop(a0);
    if Signed16(a0[7]) < 0 {
      a := Negate(a0);
      quot, a := Mod(a, b);
      ghost var q, r := quot, a;
      quot := Negate(quot);
      a := Negate(a);
      NegatedProduct(Signed(a0), Signed(q), Signed(b), Signed(r));
    } else {
      SignedRange(a0);
      SignedRange(b);
      var la := Log2(a0);
      var lb := Log2(b);
      quot, a := DivideLoop(a0, b, la, lb);
      DividingBounds(Val(a0), Val(b), quot, a);
      SmallSigned(quot);
      SmallSigned(a);
    }
  }

  /** The subtraction from zero by which fx_mod_i negates. */
  method Negate(x: seq<int>) returns (r: seq<int>)
    requires IsInteger(x)
    ensures IsInteger(r) && Val(r) == (0 - Val(x)) % B(8)
    ensures Signed(r) == if Signed(x) == -(B(8) / 2) then Signed(x) else -Signed(x)
  {
    ValZeros(ZERO);
    r := Sub(ZERO, x);
    Negated(x, r);
  }

  lemma SignedRange(a: seq<int>)
    requires IsInteger(a)
    ensures Signed(a) >= 0 ==> 0 <= Val(a) == Signed(a) < P2(127)
    ensures -P2(127) <= Signed(a) < P2(127) && P2(127) == B(8) / 2
  {
    TopBit();
    ValBounds(a);
  }

  method Div(a: seq<int>, b: seq<int>) returns (quot: seq<int>)
    requires IsInteger(a) && IsInteger(b)
    requires Signed(b) > 0 && Signed(a) != -(B(8) / 2)
    ensures IsInteger(quot)
    ensures Signed(quot) == if Signed(a) >= 0 then Signed(a) / Signed(b) else -(-Signed(a) / Signed(b))
  {
    var r;
    quot, r := Mod(a, b);
    Truncated(Signed(a), Signed(b), Signed(quot), Signed(r));
  }

  lemma Truncated(x: int, d: int, q: int, r: int)
    requires d > 0 && x == q * d + r
    requires (x >= 0 ==> 0 <= r < d) && (x <= 0 ==> -d < r <= 0)
    ensures q == if x >= 0 then x / d else -(-x / d)
  {
    if x >= 0 {
      DivModUnique(x, d, q, r);
    } else {
      NegatedProduct(-x, q, d, r);
      DivModUnique(-x, d, -q, -r);
    }
  }

  // ----- conversions -----

  /** The low 64 bits, read in two's complement. */
  function Wrap64(x: int): int {
    (x + 0x8000_0000_0000_0000) % 0x1_0000_0000_0000_0000 - 0x8000_0000_0000_0000
  }

  function Wrap8(x: int): int {
    (x + 0x80) % 0x100 - 0x80
  }

  method FromInt64(x: int) returns (out: seq<int>)
    requires -0x8000_0000_0000_0000 <= x < 0x8000_0000_0000_0000
    ensures IsInteger(out) && Signed(out) == x
  {
    out := [0, 0, 0, 0, 0, 0, 0, 0];
    var rest := x;
    var i := 0;
    assert B(0) == 1;
    while i < 8
      invariant 0 <= i <= 8 && IsInteger(out)
      invariant Val(out[..i]) + rest * B(i) == x
    {
      ghost var lo := out[..i];
      out := out[i := rest % 0x1_0000];
      assert out[..i] == lo;
      ValTake(out, i);
      CarryStep(Val(lo), x, rest, B(i));
      rest := rest / 0x1_0000;
      i := i + 1;
    }
    LoopEnd(out, rest, x);
    assert B(8) == 0x1_0000_0000_0000_0000_0000_0000_0000_0000;
  }

  /** Only the low 64 bits survive, whatever the higher limbs are. */
  method ToInt64(a: seq<int>) returns (out: int)
    requires IsInteger(a)
    ensures out == Wrap64(Val(a))
  {
    out := Wrap8(a[7]);
    ghost var lost, m := out - Val(a[7..]), 0;
    var i := 6;
    assert B(0) == 1;
    while i >= 0
      invariant -1 <= i <= 6 && m == (if i <= 2 then 4 else 6 - i)
      invariant out == Val(a[i + 1..]) + lost * B(m)
      invariant i < 6 ==> out == Wrap64(out)
    {
      assert a[i..][1..] == a[i + 1..];
      MulAssoc(0x1_0000, lost, B(m));
      lost := WrapLoss(out * 0x1_0000 + a[i], Wrap64(out * 0x1_0000 + a[i]), Val(a[i..]), lost, m);
      out := Wrap64(out * 0x1_0000 + a[i]);
      m := if m == 4 then 4 else m + 1;
      i := i - 1;
    }
    assert a[0..] == a;
    assert B(4) == 0x1_0000_0000_0000_0000;
  }

  lemma WrapLoss(wide: int, out: int, v: int, lost: int, m: nat) returns (l: int)
    requires m <= 4 && out == Wrap64(wide) && wide == v + 0x1_0000 * (lost * B(m))
    ensures out == v + l * B(if m == 4 then 4 else m + 1) && out == Wrap64(out)
  {
    var k := (out - wide) / 0x1_0000_0000_0000_0000;
    assert out == wide + k * 0x1_0000_0000_0000_0000;
    assert B(4) == 0x1_0000_0000_0000_0000;
    if m == 4 {
      l := 0x1_0000 * lost + k;
    } else {
      BSum(m + 1, 3 - m);
      l := lost + k * B(3 - m);
      MulAssoc(k, B(3 - m), B(m + 1));
      MulDist(lost, k * B(3 - m), B(m + 1));
      MulAssoc(lost, 0x1_0000, B(m));
      assert B(3 - m) * B(m + 1) == B(m + 1) * B(3 - m);
    }
  }

  /** A number that fits into 64 bits is converted back unchanged. */
  lemma FitsInt64(a: seq<int>)
    requires IsInteger(a) && -0x8000_0000_0000_0000 <= Signed(a) < 0x8000_0000_0000_0000
    ensures Wrap64(Val(a)) == Signed(a)
  {
    assert B(8) == 0x1_0000_0000_0000_0000_0000_0000_0000_0000;
  }
}
