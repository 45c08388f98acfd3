/**
 The magic squares of algorithms/magic_square.c: the staircase for odd orders, the quadrant
 exchange for orders 4k + 2, and the diagonal complement for orders 4k.

 For each of them the loops are proved to give every cell a number in closed form (OddCell,
 SingleCell, DoubleCell), and the closed form is proved to be a magic square: each number occurs
 once, and all rows, columns and both diagonals have the same sum. Sums are doubled where the
 mean of the numbers is not an integer.
 */
module MagicSquare {
  import opened Arithmetic
  import opened Facts

  // ----- odd orders -----

  /** The move (counted from 0) at which the staircase of order m reaches row y, column x; `s` is
      the start index modulo m. */
  function OddTime(m: int, s: int, y: int, x: int): int
    requires m > 0
  {
    var r := (2 * x + y + 1) % m;
    var c := if r + s >= m then 1 else 0;
    ((x + y + m - m / 2 - c) % m) * m + r
  }

  function OddCell(m: int, index: int, y: int, x: int): int
    requires m > 0
  {
    index + 1 + OddTime(m, index % m, y, x)
  }

  lemma ModPlus(x: int, k: int, m: int)
    requires m > 0
    ensures (x + k * m) % m == x % m
  {
    var q, r := x / m, x % m;
    MulDist(q, k, m);
    DivModUnique(x + k * m, m, q + k, r);
  }

  /** Equal remainders differ by a multiple. */
  lemma ModEqual(x: int, y: int, m: int) returns (k: int)
    requires m > 0 && x % m == y % m
    ensures x - y == k * m
  {
    k := x / m - y / m;
    MulDist(x / m, y / m, m);
  }

  lemma SmallMultiple(d: int, k: int, m: int)
    requires m > 0 && d == k * m && -m < d < m
    ensures d == 0
  {
    if k >= 1 {
      MulAtLeast(k, m);
    } else if k <= -1 {
      MulMonotone(k, -1, m);
    }
  }

  lemma ModIs(x: int, k: int, r: int, m: int)
    requires m > 0 && x == k * m + r && 0 <= r < m
    ensures x % m == r
  {
    DivModUnique(x, m, k, r);
  }

  lemma OddTimeRange(m: int, s: int, y: int, x: int)
    requires m > 0
    ensures 0 <= OddTime(m, s, y, x) < m * m
  {
    var r := (2 * x + y + 1) % m;
    var c := if r + s >= m then 1 else 0;
    var q := (x + y + m - m / 2 - c) % m;
    MulMonotone(0, q, m);
    MulMonotone(q, m - 1, m);
    MulDist(m, 1, m);
  }

  /** A column sum and a diagonal sum, each known modulo m, determine the cell. */
  lemma CellFromSums(m: int, y: int, x: int, y': int, x': int, k: int, l: int)
    requires m > 0 && 0 <= y < m && 0 <= x < m && 0 <= y' < m && 0 <= x' < m
    requires (2 * x + y) - (2 * x' + y') == k * m && (x + y) - (x' + y') == l * m
    ensures y == y' && x == x'
  {
    MulDist(k, l, m);
    SmallMultiple(x - x', k - l, m);
    SmallMultiple(y - y', l, m);
  }

  /** The remainder and the quotient of OddTime. */
  function TimeRest(m: int, y: int, x: int): (r: int)
    requires m > 0
    ensures 0 <= r < m
  {
    (2 * x + y + 1) % m
  }

  function TimeRow(m: int, s: int, y: int, x: int): (q: int)
    requires m > 0
    ensures 0 <= q < m
  {
    (x + y + m - m / 2 - if TimeRest(m, y, x) + s >= m then 1 else 0) % m
  }

  /** No two cells are reached at the same time. */
  lemma OddTimeInjective(m: int, s: int, y: int, x: int, y': int, x': int)
    requires m > 0 && 0 <= y < m && 0 <= x < m && 0 <= y' < m && 0 <= x' < m
    requires OddTime(m, s, y, x) == OddTime(m, s, y', x')
    ensures y == y' && x == x'
  {
    SameDigits(TimeRow(m, s, y, x), TimeRest(m, y, x), TimeRow(m, s, y', x'), TimeRest(m, y', x'), m);
    var c := if TimeRest(m, y, x) + s >= m then 1 else 0;
    var k := ModEqual(2 * x + y + 1, 2 * x' + y' + 1, m);
    var l := ModEqual(x + y + m - m / 2 - c, x' + y' + m - m / 2 - c, m);
    CellFromSums(m, y, x, y', x', k, l);
  }

  lemma SameDigits(q: int, r: int, q': int, r': int, m: int)
    requires m > 0 && 0 <= r < m && 0 <= r' < m && q * m + r == q' * m + r'
    ensures q == q' && r == r'
  {
    DivModUnique(q * m + r, m, q, r);
    DivModUnique(q' * m + r', m, q', r');
  }

  /** Where the staircase is after t moves, d of them downwards: x and y as the loop computes them,
      with the multiples of m that the wrap-arounds have taken off. */
  ghost predicate AtMove(m: int, t: int, d: int, x: int, y: int, kx: int, ky: int) {
    && 0 <= x < m && 0 <= y < m
    && x == m / 2 + t - d - kx * m && y == 2 * d - t - ky * m
  }

  lemma MoveSums(m: int, h: int, t: int, q: int, r: int, c: int, x: int, y: int, kx: int, ky: int)
    requires m == 2 * h + 1 && t == q * m + r
    requires x == h + t - (q + c) - kx * m && y == 2 * (q + c) - t - ky * m
    ensures 2 * x + y + 1 == (q + 1 - 2 * kx - ky) * m + r
    ensures x + y + m - h - c == (1 - kx - ky) * m + q
  {
  }

  lemma TimeAtMove(m: int, s: int, q: int, r: int, x: int, y: int, kx: int, ky: int)
    requires m % 2 == 1 && 0 <= s < m && 0 <= r < m && 0 <= q < m
    requires AtMove(m, q * m + r, q + (if r + s >= m then 1 else 0), x, y, kx, ky)
    ensures OddTime(m, s, y, x) == q * m + r
  {
    var c := if r + s >= m then 1 else 0;
    MoveSums(m, m / 2, q * m + r, q, r, c, x, y, kx, ky);
    ModIs(2 * x + y + 1, q + 1 - 2 * kx - ky, r, m);
    ModIs(x + y + m - m / 2 - c, 1 - kx - ky, q, m);
  }

  /** One move, and the number of moves downwards, which are those after a multiple of m. */
  lemma NextMove(m: int, index: int, q: int, r: int, x: int, y: int, kx: int, ky: int) returns (kx': int, ky': int)
    requires m > 0 && 0 <= r < m
    requires AtMove(m, q * m + r, q + (if r + index % m >= m then 1 else 0), x, y, kx, ky)
    ensures var down := (index + 1 + q * m + r) % m == 0;
            var x', y' := Wrapped(if down then x else x + 1, m), Wrapped(if down then y + 1 else y - 1, m);
            var q', r' := if r == m - 1 then q + 1 else q, if r == m - 1 then 0 else r + 1;
            && AtMove(m, q * m + r + 1, q' + (if r' + index % m >= m then 1 else 0), x', y', kx', ky')
            && q * m + r + 1 == q' * m + r'
  {
    var s, c := index % m, if r + index % m >= m then 1 else 0;
    MulDist(q, 1, m);
    DownMoves(m, index, q, r);
    WrapOnce(x, m);
    WrapOnce(x + 1, m);
    WrapOnce(y + 1, m);
    WrapOnce(y - 1, m);
    MulDist(kx, 1, m);
    MulDist(ky, 1, m);
    if r + s + 1 == m || r + s + 1 == 2 * m {
      kx', ky' := kx, if y + 1 == m then ky + 1 else ky;
    } else {
      kx' := if x + 1 == m then kx + 1 else kx;
      ky' := if y - 1 == -1 then ky - 1 else ky;
    }
  }

  lemma DownMoves(m: int, index: int, q: int, r: int)
    requires m > 0 && 0 <= r < m
    ensures (index + 1 + q * m + r) % m == 0 <==> r + index % m + 1 == m || r + index % m + 1 == 2 * m
  {
    var p, s := index / m, index % m;
    var e := if r + s + 1 >= 2 * m then 2 else if r + s + 1 >= m then 1 else 0;
    MulDist(p, q, m);
    MulDist(p + q, e, m);
    assert e * m == if e == 0 then 0 else if e == 1 then m else 2 * m;
    ModIs(index + 1 + q * m + r, p + q + e, r + s + 1 - e * m, m);
  }

  /** odd: fills the m x m region at (oy, ox) with index + 1, ..., index + m * m. */
  method Odd(a: array2<int>, oy: nat, ox: nat, m: nat, index: nat)
    requires m % 2 == 1 && oy + m <= a.Length0 && ox + m <= a.Length1
    modifies a
    ensures forall y, x | 0 <= y < m && 0 <= x < m :: a[oy + y, ox + x] == OddCell(m, index, y, x)
    ensures forall y, x | 0 <= y < a.Length0 && 0 <= x < a.Length1 && !(oy <= y < oy + m && ox <= x < ox + m) ::
              a[y, x] == old(a[y, x])
  {
    var x, y := m / 2, 0;
    var i := index + 1;
    ghost var kx, ky, q, r := 0, 0, 0, 0;
    CellBounds(m, index);
    while i <= index + m * m
      invariant i == index + 1 + q * m + r && 0 <= r < m && 0 <= q
      invariant AtMove(m, q * m + r, q + (if r + index % m >= m then 1 else 0), x, y, kx, ky)
      invariant forall v, u {:trigger OddCell(m, index, v, u)} | 0 <= v < m && 0 <= u < m && OddCell(m, index, v, u) < i ::
                  a[oy + v, ox + u] == OddCell(m, index, v, u)
      invariant forall v, u | 0 <= v < a.Length0 && 0 <= u < a.Length1 && !(oy <= v < oy + m && ox <= u < ox + m) ::
                  a[v, u] == old(a[v, u])
    {
      a[oy + y, ox + x] := i;
      CellNow(m, index, q, r, x, y, kx, ky);
      kx, ky := NextMove(m, index, q, r, x, y, kx, ky);
      if i % m == 0 {
        y := y + 1;
      } else {
        x, y := x + 1, y - 1;
      }
      x := (TruncMod(x, m) + m) % m;
      y := (TruncMod(y, m) + m) % m;
      q, r := if r == m - 1 then q + 1 else q, if r == m - 1 then 0 else r + 1;
      i := i + 1;
    }
  }

  /** The cell under the staircase is the one that gets the number, and no other. */
  lemma CellNow(m: int, index: int, q: int, r: int, x: int, y: int, kx: int, ky: int)
    requires m > 0 && m % 2 == 1 && 0 <= r < m && 0 <= q && q * m + r < m * m
    requires AtMove(m, q * m + r, q + (if r + index % m >= m then 1 else 0), x, y, kx, ky)
    ensures OddCell(m, index, y, x) == index + 1 + q * m + r
    ensures forall v, u {:trigger OddCell(m, index, v, u)} | 0 <= v < m && 0 <= u < m && OddCell(m, index, v, u) == index + 1 + q * m + r ::
              v == y && u == x
  {
    if q >= m { MulMonotone(m, q, m); }
    TimeAtMove(m, index % m, q, r, x, y, kx, ky);
    forall v, u | 0 <= v < m && 0 <= u < m && OddCell(m, index, v, u) == index + 1 + q * m + r
      ensures v == y && u == x
    {
      OddTimeInjective(m, index % m, v, u, y, x);
    }
  }

  lemma CellBounds(m: int, index: int)
    requires m > 0
    ensures forall y, x {:trigger OddCell(m, index, y, x)} :: index + 1 <= OddCell(m, index, y, x) <= index + m * m
  {
    forall y, x
      ensures index + 1 <= OddCell(m, index, y, x) <= index + m * m
    {
      OddTimeRange(m, index % m, y, x);
    }
  }

  /** The remainder of C, which has the sign of the dividend. */
  function TruncMod(x: int, m: int): int
    requires m > 0
  {
    if x >= 0 then x % m else -(-x % m)
  }

  function Wrapped(x: int, m: int): int
    requires m > 0
  {
    (TruncMod(x, m) + m) % m
  }

  lemma WrapOnce(x: int, m: int)
    requires m > 0 && -1 <= x <= m
    ensures Wrapped(x, m) == if x == -1 then m - 1 else if x == m then 0 else x
  {
    if x == -1 {
      if m == 1 {
        assert 1 % 1 == 0;
      } else {
        DivModUnique(1, m, 0, 1);
        DivModUnique(m - 1, m, 0, m - 1);
      }
    } else if x == m {
      DivModUnique(m, m, 1, 0);
    } else {
      DivModUnique(x, m, 0, x);
      DivModUnique(x + m, m, 1, x);
    }
  }

  // ----- magic squares -----

  function Row(cell: (int, int) -> int, y: int): int -> int {
    x => cell(y, x)
  }

  function Column(cell: (int, int) -> int, x: int): int -> int {
    y => cell(y, x)
  }

  function Diagonal(cell: (int, int) -> int): int -> int {
    i => cell(i, i)
  }

  /** The column of the anti-diagonal in row i. */
  function Mirror(n: int, i: int): int {
    n - 1 - i
  }

  function AntiDiagonal(cell: (int, int) -> int, n: int): int -> int {
    i => cell(i, Mirror(n, i))
  }

  lemma AntiAt(cell: (int, int) -> int, n: int, i: int, c: int)
    requires c == n - 1 - i
    ensures AntiDiagonal(cell, n)(i) == cell(i, c)
  {
    assert Mirror(n, i) == c;
  }

  /** Every line of the square adds up to the mean of the n * n numbers from `first` on, n times;
      the sums are doubled to stay in the integers. */
  ghost predicate LinesAgree(cell: (int, int) -> int, n: nat, first: int) {
    var twice := n * (2 * first + n * n - 1);
    && (forall y | 0 <= y < n :: 2 * Sum(Row(cell, y), n) == twice)
    && (forall x | 0 <= x < n :: 2 * Sum(Column(cell, x), n) == twice)
    && 2 * Sum(Diagonal(cell), n) == twice
    && 2 * Sum(AntiDiagonal(cell, n), n) == twice
  }

  /** The cells hold n * n consecutive numbers, each of them once. */
  ghost predicate FillsSquare(cell: (int, int) -> int, n: nat, first: int) {
    && (forall y, x | 0 <= y < n && 0 <= x < n :: first <= cell(y, x) < first + n * n)
    && (forall y, x, y', x' | 0 <= y < n && 0 <= x < n && 0 <= y' < n && 0 <= x' < n ::
          cell(y, x) == cell(y', x') ==> y == y' && x == x')
  }

  function OddSquare(m: int, index: int): (int, int) -> int
    requires m > 0
  {
    (y, x) => OddCell(m, index, y, x)
  }

  /** Whatever the start index, the staircase visits every cell once. */
  lemma OddFills(m: nat, index: int)
    requires m > 0
    ensures FillsSquare(OddSquare(m, index), m, index + 1)
  {
    var cell := OddSquare(m, index);
    forall y, x | 0 <= y < m && 0 <= x < m
      ensures index + 1 <= cell(y, x) < index + 1 + m * m
    {
      OddTimeRange(m, index % m, y, x);
    }
    forall y, x, y', x' | 0 <= y < m && 0 <= x < m && 0 <= y' < m && 0 <= x' < m && cell(y, x) == cell(y', x')
      ensures y == y' && x == x'
    {
      OddTimeInjective(m, index % m, y, x, y', x');
    }
  }

  /** A line in base m. */
  lemma SumOfDigits(f: int -> int, d: int -> int, r: int -> int, c: int, m: nat)
    requires forall i | 0 <= i < m :: f(i) == c + d(i) * m + r(i)
    ensures Sum(f, m) == c * m + m * Sum(d, m) + Sum(r, m)
  {
    var g := i => c + d(i) * m;
    var dm := i => m * d(i);
    var k := i => c;
    SumPlus(g, r, f, m);
    SumPlus(k, dm, g, m);
    SumTimes(d, m, dm, m);
    SumConst(c, k, m);
  }

  /** ... in which both digits run through 0, ..., m - 1. */
  lemma LineOfDigits(f: int -> int, d: int -> int, r: int -> int, c: int, m: nat)
    requires forall i | 0 <= i < m :: f(i) == c + d(i) * m + r(i)
    requires 2 * Sum(d, m) == m * (m - 1) && 2 * Sum(r, m) == m * (m - 1)
    ensures 2 * Sum(f, m) == m * (2 * c + m * m - 1)
  {
    SumOfDigits(f, d, r, c, m);
    LineArith(m, c, Sum(d, m), Sum(r, m), Sum(f, m));
  }

  lemma LineArith(m: int, c: int, sd: int, sr: int, sf: int)
    requires sf == c * m + m * sd + sr && 2 * sd == m * (m - 1) && 2 * sr == m * (m - 1)
    ensures 2 * sf == m * (2 * c + m * m - 1)
  {
    assert 2 * (m * sd) == m * (m * (m - 1));
  }

  /** i -> (a i + b) mod m runs through 0, ..., m - 1 when a is prime to m. */
  lemma AffineSum(f: int -> int, a: int, b: int, m: nat)
    requires m > 0 && forall i | 0 <= i < m :: f(i) == (a * i + b) % m
    requires forall k | 0 < k < m :: (a * k) % m != 0
    ensures 2 * Sum(f, m) == m * (m - 1)
  {
    forall i, j | 0 <= i < j < m
      ensures f(i) != f(j)
    {
      if f(i) == f(j) {
        var l := ModEqual(a * j + b, a * i + b, m);
        assert a * (j - i) == a * j - a * i;
        ModIs(a * (j - i), l, 0, m);
      }
    }
    SumOfPermutation(f, m);
  }

  lemma NoMultiple(a: int, m: int, k: int)
    requires a == 1 || (a == 2 && m % 2 == 1) || (a == 3 && m % 3 != 0)
    requires 0 < k < m
    ensures (a * k) % m != 0
  {
    if (a * k) % m == 0 {
      var q := a * k / m;
      assert a * k == q * m;
      if q <= 0 { MulMonotone(q, 0, m); }
      if q >= a { MulMonotone(a, q, m); MulMonotone(k + 1, m, a); MulDist(k, 1, a); }
    }
  }

  lemma Prime(a: int, m: int)
    requires a == 1 || (a == 2 && m % 2 == 1) || (a == 3 && m % 3 != 0)
    ensures m > 0 ==> forall k | 0 < k < m :: (a * k) % m != 0
  {
    if m > 0 {
      forall k | 0 < k < m
        ensures (a * k) % m != 0
      {
        NoMultiple(a, m, k);
      }
    }
  }

  lemma ThreePeriods(f: int -> int, u: nat)
    requires forall i | 0 <= i < 2 * u :: f(u + i) == f(i)
    ensures Sum(f, 3 * u) == 3 * Sum(f, u)
  {
    SumPeriod(f, u, u);
    SumPeriod(f, u, 2 * u);
  }

  lemma ThreeStep(i: int, u: int)
    requires u > 0
    ensures (3 * (u + i) + 1) % (3 * u) == (3 * i + 1) % (3 * u)
    ensures 0 <= i < u ==> (3 * i + 1) % (3 * u) == 3 * i + 1
  {
    ModPlus(3 * i + 1, 1, 3 * u);
    if 0 <= i < u {
      ModIs(3 * i + 1, 0, 3 * i + 1, 3 * u);
    }
  }

  /** The steps of 3 along the main diagonal, when the order is a multiple of 3. */
  lemma ThreeSteps(f: int -> int, u: nat)
    requires u > 0 && forall i | 0 <= i < 3 * u :: f(i) == (3 * i + 1) % (3 * u)
    ensures 2 * Sum(f, 3 * u) == 3 * u * (3 * u - 1)
  {
    forall i | 0 <= i < 2 * u
      ensures f(u + i) == f(i)
    {
      ThreeStep(i, u);
    }
    ThreePeriods(f, u);
    forall i | 0 <= i < u
      ensures f(i) == 3 * i + 1
    {
      ThreeStep(i, u);
    }
    Progression(f, 3, 1, u);
    ThreeTimes(Sum(f, u), u);
  }

  lemma ThreeTimes(s: int, u: int)
    requires 2 * s == u * (3 * (u - 1) + 2)
    ensures 2 * (3 * s) == 3 * u * (3 * u - 1)
  {
  }

  lemma {:induction false} Progression(f: int -> int, a: int, b: int, n: nat)
    requires forall i | 0 <= i < n :: f(i) == a * i + b
    ensures 2 * Sum(f, n) == n * (a * (n - 1) + 2 * b)
  {
    if n > 0 {
      Progression(f, a, b, n - 1);
      assert (n - 1) * (a * (n - 2) + 2 * b) + 2 * (a * (n - 1) + b) == n * (a * (n - 1) + 2 * b);
    }
  }

  lemma OddRow(m: nat, index: int, y: int)
    requires m % 2 == 1 && index % m == 0
    ensures 2 * Sum(Row(OddSquare(m, index), y), m) == m * (2 * (index + 1) + m * m - 1)
  {
    var d, r := x => if m > 0 then (1 * x + (y + m - m / 2)) % m else 0, x => if m > 0 then (2 * x + (y + 1)) % m else 0;
    Prime(1, m);
    Prime(2, m);
    AffineSum(d, 1, y + m - m / 2, m);
    AffineSum(r, 2, y + 1, m);
    LineOfDigits(Row(OddSquare(m, index), y), d, r, index + 1, m);
  }

  lemma OddColumn(m: nat, index: int, x: int)
    requires m % 2 == 1 && index % m == 0
    ensures 2 * Sum(Column(OddSquare(m, index), x), m) == m * (2 * (index + 1) + m * m - 1)
  {
    var d, r := y => if m > 0 then (1 * y + (x + m - m / 2)) % m else 0, y => if m > 0 then (1 * y + (2 * x + 1)) % m else 0;
    Prime(1, m);
    AffineSum(d, 1, x + m - m / 2, m);
    AffineSum(r, 1, 2 * x + 1, m);
    LineOfDigits(Column(OddSquare(m, index), x), d, r, index + 1, m);
  }

  lemma OddDiagonal(m: nat, index: int)
    requires m % 2 == 1 && index % m == 0
    ensures 2 * Sum(Diagonal(OddSquare(m, index)), m) == m * (2 * (index + 1) + m * m - 1)
  {
    hide Sum;
    var d, r := i => if m > 0 then (2 * i + (m - m / 2)) % m else 0, i => if m > 0 then (3 * i + 1) % m else 0;
    Prime(2, m);
    AffineSum(d, 2, m - m / 2, m);
    if m % 3 == 0 {
      ThreeSteps(r, m / 3);
    } else {
      Prime(3, m);
      AffineSum(r, 3, 1, m);
    }
    LineOfDigits(Diagonal(OddSquare(m, index)), d, r, index + 1, m);
  }

  lemma OddAntiDiagonal(m: nat, index: int)
    requires m % 2 == 1 && index % m == 0
    ensures 2 * Sum(AntiDiagonal(OddSquare(m, index), m), m) == m * (2 * (index + 1) + m * m - 1)
  {
    var h := m / 2;
    var d, r := i => h, i => m - 1 - i;
    SumConst(h, d, m);
    assert 2 * (h * m) == m * (m - 1) by { MulAssoc(2, h, m); }
    SumOfPermutation(r, m);
    forall i: int | 0 <= i < m
      ensures AntiDiagonal(OddSquare(m, index), m)(i) == index + 1 + d(i) * m + r(i)
    {
      AntiDigits(m, index, i);
      AntiAt(OddSquare(m, index), m, i, m - 1 - i);
    }
    LineOfDigits(AntiDiagonal(OddSquare(m, index), m), d, r, index + 1, m);
  }

  lemma AntiDigits(m: int, index: int, i: int)
    requires m > 0 && m % 2 == 1 && index % m == 0 && 0 <= i < m
    ensures OddCell(m, index, i, m - 1 - i) == index + 1 + (m / 2) * m + (m - 1 - i)
  {
    ModIs(m - 1 - i + i + m - m / 2, 1, m / 2, m);
    ModIs(2 * (m - 1 - i) + i + 1, 1, m - 1 - i, m);
  }

  /** A staircase that starts behind a multiple of its order has lines that agree. */
  lemma OddLines(m: nat, index: int)
    requires m % 2 == 1 && index % m == 0
    ensures LinesAgree(OddSquare(m, index), m, index + 1)
  {
    forall i | 0 <= i < m
      ensures 2 * Sum(Row(OddSquare(m, index), i), m) == m * (2 * (index + 1) + m * m - 1)
      ensures 2 * Sum(Column(OddSquare(m, index), i), m) == m * (2 * (index + 1) + m * m - 1)
    {
      OddRow(m, index, i);
      OddColumn(m, index, i);
    }
    OddDiagonal(m, index);
    OddAntiDiagonal(m, index);
  }

  /** A cell of the middle column: behind the start index, the staircase has come down one row less. */
  lemma MiddleCell(m: int, index: int, y: int)
    requires m > 0 && m % 2 == 1 && 0 <= y < m
    ensures OddCell(m, index, y, m / 2) == index + 1 + (y - if y >= m - index % m then 1 else 0) * m + y
  {
    var s, h := index % m, m / 2;
    ModIs(2 * h + y + 1, 1, y, m);
    var c := if y >= m - s then 1 else 0;
    ModIs(h + y + m - h - c, 1, y - c, m);
  }

  lemma MiddleArith(m: int, first: int, sy: int, s: int, sf: int)
    requires sf == first * m + m * (sy - s) + sy && 2 * sy == m * (m - 1)
    ensures 2 * sf == m * (2 * first + m * m - 1) - 2 * (m * s)
  {
    assert 2 * (m * sy) == m * (m * (m - 1));
    assert m * (sy - s) == m * sy - m * s;
  }

  /** A line whose high digits run through 0, ..., m - 1, but are one less in the last s places. */
  lemma MiddleSum(f: int -> int, d: int -> int, m: nat, first: int, s: int)
    requires 0 <= s < m
    requires forall y | 0 <= y < m :: d(y) == y - if m - s <= y < m then 1 else 0
    requires forall y | 0 <= y < m :: f(y) == first + d(y) * m + y
    ensures 2 * Sum(f, m) == m * (2 * first + m * m - 1) - 2 * (m * s)
  {
    hide Sum;
    var c, id := y => if m - s <= y < m then 1 else 0, y => y;
    SumOfPermutation(id, m);
    SumInterval(c, 1, m - s, m, m);
    SumPlus(d, c, id, m);
    SumOfDigits(f, d, id, first, m);
    MiddleArith(m, first, Sum(id, m), s, Sum(f, m));
  }

  /** The middle column falls short by the order times the rest of the start index. */
  lemma MiddleColumn(m: nat, index: int)
    requires m % 2 == 1
    ensures 2 * Sum(Column(OddSquare(m, index), m / 2), m) == m * (2 * (index + 1) + m * m - 1) - 2 * (m * (index % m))
  {
    var f, s := Column(OddSquare(m, index), m / 2), index % m;
    var d := y => y - if m - s <= y < m then 1 else 0;
    forall y | 0 <= y < m
      ensures f(y) == index + 1 + d(y) * m + y
    {
      MiddleCell(m, index, y);
    }
    hide Column, OddSquare, Sum;
    MiddleSum(f, d, m, index + 1, s);
  }

  lemma ColumnAgrees(cell: (int, int) -> int, n: nat, first: int, x: int)
    requires LinesAgree(cell, n, first) && 0 <= x < n
    ensures 2 * Sum(Column(cell, x), n) == n * (2 * first + n * n - 1)
  {
  }

  lemma OddLinesDisagree(m: nat, index: int)
    requires m % 2 == 1 && index % m != 0
    ensures !LinesAgree(OddSquare(m, index), m, index + 1)
  {
    var cell, h, first := OddSquare(m, index), m / 2, index + 1;
    assert 0 <= h < m;
    MiddleColumn(m, index);
    MulAtLeast(index % m, m);
    MulAssoc(1, m, index % m);
    hide LinesAgree, Column, OddSquare, Sum;
    if LinesAgree(cell, m, first) {
      ColumnAgrees(cell, m, first, h);
    }
  }

  /** The staircase makes a magic square if and only if it starts behind a multiple of its order. */
  lemma OddIsMagic(m: nat, index: int)
    requires m % 2 == 1
    ensures FillsSquare(OddSquare(m, index), m, index + 1)
    ensures LinesAgree(OddSquare(m, index), m, index + 1) <==> index % m == 0
  {
    hide LinesAgree, FillsSquare;
    OddFills(m, index);
    if index % m == 0 {
      OddLines(m, index);
    } else {
      OddLinesDisagree(m, index);
    }
  }

  // ----- orders 4k + 2 -----

  /** The numbers of the four quadrants after the first step: A and D on the main diagonal, then B
      at the top right, then C. */
  function Quadrants(p: int, y: int, x: int): int
    requires p > 0
  {
    if y < p && x < p then OddCell(p, 0, y, x)
    else if y >= p && x >= p then OddCell(p, p * p, y - p, x - p)
    else if y < p then OddCell(p, 2 * (p * p), y, x - p)
    else OddCell(p, 3 * (p * p), y - p, x)
  }

  /** The columns in which row i of the upper half is exchanged with row i of the lower half. */
  predicate Exchanged(p: int, i: int, x: int) {
    var k := p / 2;
    if i == k then k <= x < 2 * k || p + k <= x < p + 2 * k - 1
    else 0 <= x < k || p + k <= x < p + 2 * k - 1
  }

  function HalfRow(p: int, y: int): (r: int)
    ensures 0 <= y < 2 * p ==> 0 <= r < p
  {
    if y < p then y else y - p
  }

  function OtherHalf(p: int, y: int): int {
    if y < p then y + p else y - p
  }

  /** The row whose number comes to row y of column x in steps two and three. */
  function Source(p: int, y: int, x: int): (r: int)
    ensures 0 <= y < 2 * p ==> 0 <= r < 2 * p && HalfRow(p, r) == HalfRow(p, y)
  {
    if Exchanged(p, HalfRow(p, y), x) then OtherHalf(p, y) else y
  }

  function SingleCell(p: int, y: int, x: int): int
    requires p > 0
  {
    Quadrants(p, Source(p, y, x), x)
  }

  /** Starting k whole squares later adds the size of k squares. */
  lemma LaterStart(p: int, k: int, y: int, x: int)
    requires p > 0
    ensures OddCell(p, k * (p * p), y, x) == OddCell(p, 0, y, x) + k * (p * p)
  {
    MulAssoc(k, p, p);
    ModIs((k * p) * p, k * p, 0, p);
    ModIs(0, 0, 0, p);
  }

  /** A quadrant in terms of the first one. */
  lemma QuadrantCell(p: int, y: int, x: int)
    requires p > 0
    ensures 0 <= y < p && 0 <= x < p ==>
              && Quadrants(p, y, x) == OddCell(p, 0, y, x)
              && Quadrants(p, y + p, x + p) == OddCell(p, 0, y, x) + p * p
              && Quadrants(p, y, x + p) == OddCell(p, 0, y, x) + 2 * (p * p)
              && Quadrants(p, y + p, x) == OddCell(p, 0, y, x) + 3 * (p * p)
  {
    LaterStart(p, 1, y, x);
    LaterStart(p, 2, y, x);
    LaterStart(p, 3, y, x);
  }

  function SingleSquare(p: int): (int, int) -> int
    requires p > 0
  {
    (y, x) => SingleCell(p, y, x)
  }

  /** The cells of the finished square over cell (i, c) of the first quadrant. */
  lemma SingleParts(p: int, i: int, c: int)
    requires p > 0 && p % 2 == 1 && 0 <= i < p && 0 <= c < p
    ensures var k, q, m := p / 2, p * p, OddCell(p, 0, i, c);
            var left, right := (if i == k then k <= c < 2 * k else c < k), k <= c < 2 * k - 1;
            && SingleCell(p, i, c) == m + (if left then 3 * q else 0)
            && SingleCell(p, i + p, c) == m + 3 * q + (if left then -3 * q else 0)
            && SingleCell(p, i, c + p) == m + 2 * q + (if right then -q else 0)
            && SingleCell(p, i + p, c + p) == m + q + (if right then q else 0)
  {
    hide OddCell, Quadrants;
    QuadrantCell(p, i, c);
  }

  /** A line of a square of order p, shifted, with a step of c between lo and hi. */
  lemma SumWithStep(f: int -> int, m: int -> int, base: int, c: int, lo: int, hi: int, n: nat, t: int)
    requires 0 <= lo <= hi <= n && base * n + c * (hi - lo) == t
    requires forall i {:trigger f(i)} | 0 <= i < n :: f(i) == m(i) + base + if lo <= i < hi then c else 0
    ensures Sum(f, n) == Sum(m, n) + t
  {
    var b, step := i => base, i => if lo <= i < hi then c else 0;
    var g := i => m(i) + b(i);
    SumConst(base, b, n);
    SumInterval(step, c, lo, hi, n);
    SumPlus(m, b, g, n);
    SumPlus(g, step, f, n);
  }

  /** The second half of a line. */
  function Later(f: int -> int, p: int): int -> int {
    i => f(p + i)
  }

  /** Two halves of a line with steps, t1 in the first and t2 in the second. */
  lemma TwoHalves(f: int -> int, m: int -> int, p: nat, b1: int, c1: int, lo1: int, hi1: int, t1: int,
                  b2: int, c2: int, lo2: int, hi2: int, t2: int)
    requires 0 <= lo1 <= hi1 <= p && 0 <= lo2 <= hi2 <= p
    requires forall i {:trigger f(i)} | 0 <= i < p :: f(i) == m(i) + b1 + if lo1 <= i < hi1 then c1 else 0
    requires forall i {:trigger Later(f, p)(i)} | 0 <= i < p :: Later(f, p)(i) == m(i) + b2 + if lo2 <= i < hi2 then c2 else 0
    requires b1 * p + c1 * (hi1 - lo1) == t1 && b2 * p + c2 * (hi2 - lo2) == t2
    ensures Sum(f, p + p) == 2 * Sum(m, p) + t1 + t2
  {
    SumWithStep(f, m, b1, c1, lo1, hi1, p, t1);
    SumWithStep(Later(f, p), m, b2, c2, lo2, hi2, p, t2);
    SumHalves(f, Later(f, p), p, p);
  }

  /** In every line the steps, of heights that are multiples of q, add up to 3 * q * p. */
  lemma StepsBalance(p: int, k: int, q: int)
    requires p == 2 * k + 1
    ensures 3 * q * k + (2 * q * p + -q * (k - 1)) == 3 * q * p
    ensures (3 * q * p + -3 * q * k) + (q * p + q * (k - 1)) == 3 * q * p
    ensures 3 * q * (k + 1) + (q * p + q * (k - 1)) == 3 * q * p
    ensures (2 * q * p + -q * (k - 1)) + (3 * q * p + -3 * q * (k + 1)) == 3 * q * p
  {
  }

  /** A square put together from four copies of the square m as SingleParts says. */
  ghost predicate Assembled(cell: (int, int) -> int, m: (int, int) -> int, p: int, k: int, q: int) {
    && p == 2 * k + 1 && k >= 1
    && forall i, c {:trigger m(i, c)} | 0 <= i < p && 0 <= c < p :: CellsOver(cell, m(i, c), p, k, q, i, c)
  }

  ghost predicate CellsOver(cell: (int, int) -> int, m: int, p: int, k: int, q: int, i: int, c: int) {
    var left, right := (if i == k then k <= c < 2 * k else c < k), k <= c < 2 * k - 1;
    && cell(i, c) == m + (if left then 3 * q else 0)
    && cell(p + i, c) == m + 3 * q + (if left then -3 * q else 0)
    && cell(i, p + c) == m + 2 * q + (if right then -q else 0)
    && cell(p + i, p + c) == m + q + (if right then q else 0)
  }

  lemma SingleAssembled(p: int)
    requires p >= 3 && p % 2 == 1
    ensures Assembled(SingleSquare(p), OddSquare(p, 0), p, p / 2, p * p)
  {
    forall i, c | 0 <= i < p && 0 <= c < p
      ensures CellsOver(SingleSquare(p), OddSquare(p, 0)(i, c), p, p / 2, p * p, i, c)
    {
      SingleParts(p, i, c);
    }
  }

  lemma UpperRow(cell: (int, int) -> int, m: (int, int) -> int, p: nat, k: int, q: int, i: int)
    requires Assembled(cell, m, p, k, q) && 0 <= i < p
    ensures Sum(Row(cell, i), p + p) == 2 * Sum(Row(m, i), p) + 3 * q * p
  {
    var f := Row(cell, i);
    var lo := if i == k then k else 0;
    forall c {:trigger f(c)} | 0 <= c < p
      ensures f(c) == Row(m, i)(c) + 0 + if lo <= c < lo + k then 3 * q else 0
    {
      assert CellsOver(cell, m(i, c), p, k, q, i, c);
    }
    forall c {:trigger Later(f, p)(c)} | 0 <= c < p
      ensures Later(f, p)(c) == Row(m, i)(c) + 2 * q + if k <= c < 2 * k - 1 then -q else 0
    {
      assert CellsOver(cell, m(i, c), p, k, q, i, c);
    }
    StepsBalance(p, k, q);
    TwoHalves(f, Row(m, i), p, 0, 3 * q, lo, lo + k, 3 * q * k, 2 * q, -q, k, 2 * k - 1, 2 * q * p + -q * (k - 1));
  }

  lemma LowerRow(cell: (int, int) -> int, m: (int, int) -> int, p: nat, k: int, q: int, i: int)
    requires Assembled(cell, m, p, k, q) && 0 <= i < p
    ensures Sum(Row(cell, p + i), p + p) == 2 * Sum(Row(m, i), p) + 3 * q * p
  {
    var f := Row(cell, p + i);
    var lo := if i == k then k else 0;
    forall c {:trigger f(c)} | 0 <= c < p
      ensures f(c) == Row(m, i)(c) + 3 * q + if lo <= c < lo + k then -3 * q else 0
    {
      assert CellsOver(cell, m(i, c), p, k, q, i, c);
    }
    forall c {:trigger Later(f, p)(c)} | 0 <= c < p
      ensures Later(f, p)(c) == Row(m, i)(c) + q + if k <= c < 2 * k - 1 then q else 0
    {
      assert CellsOver(cell, m(i, c), p, k, q, i, c);
    }
    StepsBalance(p, k, q);
    TwoHalves(f, Row(m, i), p, 3 * q, -3 * q, lo, lo + k, 3 * q * p + -3 * q * k, q, q, k, 2 * k - 1, q * p + q * (k - 1));
  }

  lemma EvenColumn(cell: (int, int) -> int, m: (int, int) -> int, p: nat, k: int, q: int, x: int)
    requires Assembled(cell, m, p, k, q) && 0 <= x < p + p
    ensures Sum(Column(cell, x), p + p) == 2 * Sum(Column(m, HalfRow(p, x)), p) + 3 * q * p
  {
    var f, c := Column(cell, x), HalfRow(p, x);
    var b := 3 * q;
    forall i | 0 <= i < p
      ensures f(i) + Later(f, p)(i) == 2 * Column(m, c)(i) + b
    {
      assert CellsOver(cell, m(i, c), p, k, q, i, c);
    }
    SumHalves(f, Later(f, p), p, p);
    TwicePlus(f, Later(f, p), Column(m, c), b, p);
  }

  /** Two halves of a line that balance each other cell by cell. */
  lemma TwicePlus(f: int -> int, g: int -> int, m: int -> int, b: int, p: nat)
    requires forall i | 0 <= i < p :: f(i) + g(i) == 2 * m(i) + b
    ensures Sum(f, p) + Sum(g, p) == 2 * Sum(m, p) + b * p
  {
    var h, mm, bb := i => f(i) + g(i), i => 2 * m(i), i => b;
    SumPlus(f, g, h, p);
    SumPlus(mm, bb, h, p);
    SumTimes(m, 2, mm, p);
    SumConst(b, bb, p);
  }

  lemma EvenDiagonal(cell: (int, int) -> int, m: (int, int) -> int, p: nat, k: int, q: int)
    requires Assembled(cell, m, p, k, q)
    ensures Sum(Diagonal(cell), p + p) == 2 * Sum(Diagonal(m), p) + 3 * q * p
  {
    var f := Diagonal(cell);
    forall i {:trigger f(i)} | 0 <= i < p
      ensures f(i) == Diagonal(m)(i) + 0 + if 0 <= i < k + 1 then 3 * q else 0
    {
      assert CellsOver(cell, m(i, i), p, k, q, i, i);
    }
    forall i {:trigger Later(f, p)(i)} | 0 <= i < p
      ensures Later(f, p)(i) == Diagonal(m)(i) + q + if k <= i < 2 * k - 1 then q else 0
    {
      assert CellsOver(cell, m(i, i), p, k, q, i, i);
    }
    StepsBalance(p, k, q);
    TwoHalves(f, Diagonal(m), p, 0, 3 * q, 0, k + 1, 3 * q * (k + 1), q, q, k, 2 * k - 1, q * p + q * (k - 1));
  }

  lemma AntiCell(cell: (int, int) -> int, m: (int, int) -> int, p: int, k: int, q: int, i: int, c: int)
    requires Assembled(cell, m, p, k, q) && 0 <= i < p && c == p - 1 - i
    ensures AntiDiagonal(cell, p + p)(i) == AntiDiagonal(m, p)(i) + 2 * q + if 2 <= i < k + 1 then -q else 0
    ensures Later(AntiDiagonal(cell, p + p), p)(i) == AntiDiagonal(m, p)(i) + 3 * q + if k <= i < p then -3 * q else 0
  {
    assert CellsOver(cell, m(i, c), p, k, q, i, c);
    AntiAt(m, p, i, c);
    AntiAt(cell, p + p, i, p + c);
    AntiAt(cell, p + p, p + i, c);
  }

  lemma EvenAntiDiagonal(cell: (int, int) -> int, m: (int, int) -> int, p: nat, k: int, q: int)
    requires Assembled(cell, m, p, k, q)
    ensures Sum(AntiDiagonal(cell, p + p), p + p) == 2 * Sum(AntiDiagonal(m, p), p) + 3 * q * p
  {
    var f, g := AntiDiagonal(cell, p + p), AntiDiagonal(m, p);
    forall i {:trigger f(i)} | 0 <= i < p
      ensures f(i) == g(i) + 2 * q + if 2 <= i < k + 1 then -q else 0
    {
      AntiCell(cell, m, p, k, q, i, p - 1 - i);
    }
    forall i {:trigger Later(f, p)(i)} | 0 <= i < p
      ensures Later(f, p)(i) == g(i) + 3 * q + if k <= i < p then -3 * q else 0
    {
      AntiCell(cell, m, p, k, q, i, p - 1 - i);
    }
    StepsBalance(p, k, q);
    TwoHalves(f, g, p, 2 * q, -q, 2, k + 1, 2 * q * p + -q * (k - 1), 3 * q, -3 * q, k, p, 3 * q * p + -3 * q * (k + 1));
  }

  /** The sum of a line of the assembled square from that of a line of the odd one. */
  lemma SingleTotal(p: int, s: int, f: int)
    requires 2 * s == p * (2 * (0 + 1) + p * p - 1) && f == 2 * s + 3 * (p * p) * p
    ensures 2 * f == 2 * p * (2 * 1 + 2 * p * (2 * p) - 1)
  {
  }

  /** The quadrant of a cell, in the order of their numbers. */
  function QuadrantOf(p: int, y: int, x: int): int {
    if y < p && x < p then 0 else if y >= p && x >= p then 1 else if y < p then 2 else 3
  }

  lemma QuadrantDigits(p: int, y: int, x: int)
    requires p > 0 && 0 <= y < 2 * p && 0 <= x < 2 * p
    ensures Quadrants(p, y, x) - 1 == QuadrantOf(p, y, x) * (p * p) + OddTime(p, 0, HalfRow(p, y), HalfRow(p, x))
    ensures 0 <= OddTime(p, 0, HalfRow(p, y), HalfRow(p, x)) < p * p
  {
    ModIs(0, 0, 0, p);
    QuadrantCell(p, HalfRow(p, y), HalfRow(p, x));
    OddTimeRange(p, 0, HalfRow(p, y), HalfRow(p, x));
  }

  lemma QuadrantsInjective(p: int, y: int, x: int, y': int, x': int)
    requires p > 0 && 0 <= y < 2 * p && 0 <= x < 2 * p && 0 <= y' < 2 * p && 0 <= x' < 2 * p
    requires Quadrants(p, y, x) == Quadrants(p, y', x')
    ensures y == y' && x == x'
  {
    QuadrantDigits(p, y, x);
    QuadrantDigits(p, y', x');
    SameDigits(QuadrantOf(p, y, x), OddTime(p, 0, HalfRow(p, y), HalfRow(p, x)),
               QuadrantOf(p, y', x'), OddTime(p, 0, HalfRow(p, y'), HalfRow(p, x')), p * p);
    OddTimeInjective(p, 0, HalfRow(p, y), HalfRow(p, x), HalfRow(p, y'), HalfRow(p, x'));
  }

  lemma SourceInjective(p: int, y: int, x: int, y': int)
    requires 0 <= y < 2 * p && 0 <= y' < 2 * p && Source(p, y, x) == Source(p, y', x)
    ensures y == y'
  {
    hide Exchanged;
  }

  lemma QuadrantsRange(p: int, y: int, x: int)
    requires p > 0 && 0 <= y < 2 * p && 0 <= x < 2 * p
    ensures 1 <= Quadrants(p, y, x) < 1 + 2 * p * (2 * p)
  {
    hide Quadrants;
    QuadrantDigits(p, y, x);
    assert 2 * p * (2 * p) == 4 * (p * p);
  }

  lemma SingleFills(p: nat)
    requires p > 0
    ensures FillsSquare(SingleSquare(p), 2 * p, 1)
  {
    hide Source, Quadrants;
    forall y, x | 0 <= y < 2 * p && 0 <= x < 2 * p
      ensures 1 <= SingleSquare(p)(y, x) < 1 + 2 * p * (2 * p)
    {
      QuadrantsRange(p, Source(p, y, x), x);
    }
    forall y, x, y', x' | 0 <= y < 2 * p && 0 <= x < 2 * p && 0 <= y' < 2 * p && 0 <= x' < 2 * p
                          && SingleSquare(p)(y, x) == SingleSquare(p)(y', x')
      ensures y == y' && x == x'
    {
      QuadrantsInjective(p, Source(p, y, x), x, Source(p, y', x'), x');
      SourceInjective(p, y, x, y');
    }
  }

  lemma SingleRow(p: nat, i: int)
    requires p % 2 == 1 && p >= 3 && 0 <= i < 2 * p
    ensures 2 * Sum(Row(SingleSquare(p), i), 2 * p) == 2 * p * (2 * 1 + 2 * p * (2 * p) - 1)
  {
    hide Assembled, SingleSquare, OddSquare, Sum, Row, Column;
    var m, h := OddSquare(p, 0), HalfRow(p, i);
    SingleAssembled(p);
    ModIs(0, 0, 0, p);
    OddRow(p, 0, h);
    if i < p {
      UpperRow(SingleSquare(p), m, p, p / 2, p * p, h);
    } else {
      LowerRow(SingleSquare(p), m, p, p / 2, p * p, h);
    }
    SingleTotal(p, Sum(Row(m, h), p), Sum(Row(SingleSquare(p), i), 2 * p));
  }

  lemma SingleColumn(p: nat, i: int)
    requires p % 2 == 1 && p >= 3 && 0 <= i < 2 * p
    ensures 2 * Sum(Column(SingleSquare(p), i), 2 * p) == 2 * p * (2 * 1 + 2 * p * (2 * p) - 1)
  {
    hide Assembled, SingleSquare, OddSquare, Sum, Row, Column;
    var m, h := OddSquare(p, 0), HalfRow(p, i);
    SingleAssembled(p);
    ModIs(0, 0, 0, p);
    OddColumn(p, 0, h);
    EvenColumn(SingleSquare(p), m, p, p / 2, p * p, i);
    SingleTotal(p, Sum(Column(m, h), p), Sum(Column(SingleSquare(p), i), 2 * p));
  }

  lemma SingleDiagonal(p: nat)
    requires p % 2 == 1 && p >= 3
    ensures 2 * Sum(Diagonal(SingleSquare(p)), 2 * p) == 2 * p * (2 * 1 + 2 * p * (2 * p) - 1)
  {
    hide Assembled, SingleSquare, OddSquare, Sum, Diagonal, AntiDiagonal;
    var cell, m := SingleSquare(p), OddSquare(p, 0);
    SingleAssembled(p);
    ModIs(0, 0, 0, p);
    OddDiagonal(p, 0);
    EvenDiagonal(cell, m, p, p / 2, p * p);
    SingleTotal(p, Sum(Diagonal(m), p), Sum(Diagonal(cell), 2 * p));
  }

  lemma SingleAntiDiagonal(p: nat)
    requires p % 2 == 1 && p >= 3
    ensures 2 * Sum(AntiDiagonal(SingleSquare(p), 2 * p), 2 * p) == 2 * p * (2 * 1 + 2 * p * (2 * p) - 1)
  {
    hide Assembled, SingleSquare, OddSquare, Sum, Diagonal, AntiDiagonal;
    var cell, m := SingleSquare(p), OddSquare(p, 0);
    SingleAssembled(p);
    ModIs(0, 0, 0, p);
    OddAntiDiagonal(p, 0);
    EvenAntiDiagonal(cell, m, p, p / 2, p * p);
    SingleTotal(p, Sum(AntiDiagonal(m, p), p), Sum(AntiDiagonal(cell, 2 * p), 2 * p));
  }

  lemma SingleIsMagic(p: nat)
    requires p % 2 == 1 && p >= 3
    ensures LinesAgree(SingleSquare(p), 2 * p, 1) && FillsSquare(SingleSquare(p), 2 * p, 1)
  {
    SingleFills(p);
    SingleDiagonal(p);
    SingleAntiDiagonal(p);
    forall i | 0 <= i < 2 * p
      ensures 2 * Sum(Row(SingleSquare(p), i), 2 * p) == 2 * p * (2 * 1 + 2 * p * (2 * p) - 1)
    {
      SingleRow(p, i);
    }
    forall i | 0 <= i < 2 * p
      ensures 2 * Sum(Column(SingleSquare(p), i), 2 * p) == 2 * p * (2 * 1 + 2 * p * (2 * p) - 1)
    {
      SingleColumn(p, i);
    }
  }

  /** Exchanges a[i, c] with a[i + p, c]. */
  method ExchangeCells(a: array2<int>, p: nat, i: nat, c: nat)
    requires i < p && 2 * p <= a.Length0 && c < a.Length1
    modifies a
    ensures a[i, c] == old(a[i + p, c]) && a[i + p, c] == old(a[i, c])
    ensures forall y, x | 0 <= y < a.Length0 && 0 <= x < a.Length1 && !((y == i || y == i + p) && x == c) ::
              a[y, x] == old(a[y, x])
  {
    var temp := a[i, c];
    a[i, c] := a[i + p, c];
    a[i + p, c] := temp;
  }

  /** Exchanges a[i, lo..hi] with a[i + p, lo..hi]. */
  method ExchangeRun(a: array2<int>, p: nat, i: nat, lo: nat, hi: int)
    requires i < p && 2 * p <= a.Length0 && hi <= a.Length1
    modifies a
    ensures forall y, x | 0 <= y < 2 * p && 0 <= x < a.Length1 ::
              a[y, x] == old(a[if HalfRow(p, y) == i && lo <= x < hi then OtherHalf(p, y) else y, x])
  {
    var k := lo;
    while k < hi
      invariant k == lo || lo <= k <= hi
      invariant forall y, x | 0 <= y < 2 * p && 0 <= x < a.Length1 ::
                  a[y, x] == old(a[if HalfRow(p, y) == i && lo <= x < k then OtherHalf(p, y) else y, x])
    {
      ExchangeCells(a, p, i, k);
      k := k + 1;
    }
  }

  /** Row i of the upper half against row i of the lower half: steps two and three. */
  method ExchangeRow(a: array2<int>, n: nat, i: nat, ghost p: nat)
    requires n % 4 == 2 && n <= a.Length0 && n <= a.Length1 && i < n / 2 && p == n / 2
    modifies a
    ensures forall y, x | 0 <= y < n && 0 <= x < n ::
              a[y, x] == old(a[if HalfRow(p, y) == i then Source(p, y, x) else y, x])
  {
    var m := (n - 2) / 4;
    var first := if i == n / 4 then n / 4 else 0;
    assert p == 2 * m + 1 && n == 2 * p && n / 4 == p / 2 == m;
    ExchangeRun(a, n / 2, i, first, first + m);
    ExchangeRun(a, n / 2, i, n / 2 + n / 4, n / 2 + n / 4 + (m - 1));
  }

  /** Steps two and three for all the rows. */
  method ExchangeRows(a: array2<int>, n: nat, ghost p: nat)
    requires n % 4 == 2 && n <= a.Length0 && n <= a.Length1 && p == n / 2
    modifies a
    ensures forall y, x | 0 <= y < n && 0 <= x < n :: a[y, x] == old(a[Source(p, y, x), x])
  {
    hide Source, HalfRow;
    assert n == 2 * p;
    var i := 0;
    while i < n / 2
      invariant 0 <= i <= p
      invariant forall y, x | 0 <= y < n && 0 <= x < n ::
                  a[y, x] == old(a[if HalfRow(p, y) < i then Source(p, y, x) else y, x])
    {
      ExchangeRow(a, n, i, p);
      i := i + 1;
    }
  }

  /** singleEven */
  method SingleEven(a: array2<int>, n: nat)
    requires n % 4 == 2 && n <= a.Length0 && n <= a.Length1
    modifies a
    ensures forall y, x | 0 <= y < n && 0 <= x < n :: a[y, x] == SingleCell(n / 2, y, x)
  {
    hide Source, Quadrants, HalfRow;
    ghost var p := n / 2;
    assert n == 2 * p && p % 2 == 1;
    FillQuadrants(a, n / 2);
    ExchangeRows(a, n, p);
  }

  method FillQuadrants(a: array2<int>, p: nat)
    requires p % 2 == 1 && 2 * p <= a.Length0 && 2 * p <= a.Length1
    modifies a
    ensures forall y, x | 0 <= y < 2 * p && 0 <= x < 2 * p :: a[y, x] == Quadrants(p, y, x)
  {
    Odd(a, 0, 0, p, 0);
    Odd(a, p, p, p, p * p);
    Odd(a, 0, p, p, 2 * (p * p));
    Odd(a, p, 0, p, 3 * (p * p));
  }

  // ----- orders 4k -----

  /** The numbers in reading order. */
  function InOrder(n: int, y: int, x: int): int {
    y * n + x + 1
  }

  /** The cells on the diagonals of the 4 x 4 blocks. */
  predicate OnBlockDiagonal(y: int, x: int) {
    y % 4 == x % 4 || y % 4 + x % 4 == 3
  }

  function DoubleCell(n: int, y: int, x: int): int {
    if OnBlockDiagonal(y, x) then n * n + 1 - InOrder(n, y, x) else InOrder(n, y, x)
  }

  function DoubleSquare(n: int): (int, int) -> int {
    (y, x) => DoubleCell(n, y, x)
  }

  /** Four cells in a line of a block, two of them complemented. */
  lemma {:induction false} SumOfBlocks(f: int -> int, k: nat, t: int)
    requires forall b {:trigger Block(f, b)} | 0 <= b < k :: Block(f, b) == t
    ensures Sum(f, 4 * k) == k * t
  {
    if k > 0 {
      SumOfBlocks(f, k - 1, t);
      LastFour(f, 4 * k);
      assert Block(f, k - 1) == t;
      MulDist(k, 1, t);
    }
  }

  function Block(f: int -> int, b: int): int {
    f(4 * b) + f(4 * b + 1) + f(4 * b + 2) + f(4 * b + 3)
  }

  lemma LastFour(f: int -> int, n: nat)
    requires n >= 4
    ensures Sum(f, n) == Sum(f, n - 4) + f(n - 4) + f(n - 3) + f(n - 2) + f(n - 1)
  {
    assert Sum(f, n - 2) == Sum(f, n - 3) + f(n - 3);
    assert Sum(f, n - 3) == Sum(f, n - 4) + f(n - 4);
  }

  lemma DoubleRow(n: nat, y: int)
    requires n % 4 == 0
    ensures 2 * Sum(Row(DoubleSquare(n), y), n) == n * (2 * 1 + n * n - 1)
  {
    var f := Row(DoubleSquare(n), y);
    forall b | 0 <= b < n / 4
      ensures Block(f, b) == 2 * (n * n + 1)
    {
      RowBlock(n, y, 4 * b);
    }
    SumOfBlocks(f, n / 4, 2 * (n * n + 1));
    BlocksTotal(n, n / 4, n * n + 1);
  }

  lemma BlocksTotal(n: int, k: int, t: int)
    requires n == 4 * k
    ensures 2 * (k * (2 * t)) == n * t
  {
  }

  lemma RowBlock(n: int, y: int, x: int)
    requires x % 4 == 0
    ensures DoubleCell(n, y, x) + DoubleCell(n, y, x + 1) + DoubleCell(n, y, x + 2) + DoubleCell(n, y, x + 3) == 2 * (n * n + 1)
  {
    assert (x + 1) % 4 == 1 && (x + 2) % 4 == 2 && (x + 3) % 4 == 3;
  }

  lemma ColumnBlock(n: int, y: int, x: int)
    requires y % 4 == 0
    ensures DoubleCell(n, y, x) + DoubleCell(n, y + 1, x) + DoubleCell(n, y + 2, x) + DoubleCell(n, y + 3, x) == 2 * (n * n + 1)
  {
    assert (y + 1) % 4 == 1 && (y + 2) % 4 == 2 && (y + 3) % 4 == 3;
    MulDist(y, 1, n);
    MulDist(y, 2, n);
    MulDist(y, 3, n);
  }

  lemma DoubleColumn(n: nat, x: int)
    requires n % 4 == 0
    ensures 2 * Sum(Column(DoubleSquare(n), x), n) == n * (2 * 1 + n * n - 1)
  {
    var f := Column(DoubleSquare(n), x);
    forall b | 0 <= b < n / 4
      ensures Block(f, b) == 2 * (n * n + 1)
    {
      ColumnBlock(n, 4 * b, x);
    }
    SumOfBlocks(f, n / 4, 2 * (n * n + 1));
    BlocksTotal(n, n / 4, n * n + 1);
  }

  /** Complementing a cell gives it the number of the opposite cell. */
  lemma Opposite(n: int, y: int, x: int)
    ensures n * n + 1 - InOrder(n, y, x) == InOrder(n, n - 1 - y, n - 1 - x)
  {
    MulDist(n, 1, n);
    MulDist(n - 1, y, n);
  }

  lemma OppositeOnDiagonal(n: int, y: int, x: int)
    requires n % 4 == 0
    ensures OnBlockDiagonal(n - 1 - y, n - 1 - x) <==> OnBlockDiagonal(y, x)
  {
    assert (n - 1 - y) % 4 == 3 - y % 4 && (n - 1 - x) % 4 == 3 - x % 4;
  }

  lemma DoubleDiagonal(n: nat)
    requires n % 4 == 0
    ensures 2 * Sum(Diagonal(DoubleSquare(n)), n) == n * (2 * 1 + n * n - 1)
  {
    var d := i => n - 1 - i;
    SumOfPermutation(d, n);
    forall i | 0 <= i < n
      ensures Diagonal(DoubleSquare(n))(i) == 1 + d(i) * n + d(i)
    {
      Opposite(n, i, i);
    }
    LineOfDigits(Diagonal(DoubleSquare(n)), d, d, 1, n);
  }

  lemma DoubleAntiCell(n: int, i: int, x: int)
    requires n % 4 == 0 && x == n - 1 - i
    ensures DoubleCell(n, i, x) == 1 + x * n + i
  {
    assert x % 4 == 3 - i % 4;
    Opposite(n, i, x);
  }

  lemma DoubleAntiDiagonal(n: nat)
    requires n % 4 == 0
    ensures 2 * Sum(AntiDiagonal(DoubleSquare(n), n), n) == n * (2 * 1 + n * n - 1)
  {
    var d, r := i => n - 1 - i, i => i;
    SumOfPermutation(d, n);
    SumOfPermutation(r, n);
    forall i | 0 <= i < n
      ensures AntiDiagonal(DoubleSquare(n), n)(i) == 1 + d(i) * n + r(i)
    {
      DoubleAntiCell(n, i, n - 1 - i);
      AntiAt(DoubleSquare(n), n, i, n - 1 - i);
    }
    LineOfDigits(AntiDiagonal(DoubleSquare(n), n), d, r, 1, n);
  }

  lemma InOrderInjective(n: int, y: int, x: int, y': int, x': int)
    requires 0 <= x < n && 0 <= x' < n && InOrder(n, y, x) == InOrder(n, y', x')
    ensures y == y' && x == x'
  {
    SameDigits(y, x, y', x', n);
  }

  lemma InOrderRange(n: int, y: int, x: int)
    requires 0 <= y < n && 0 <= x < n
    ensures 1 <= InOrder(n, y, x) <= n * n
  {
    MulMonotone(0, y, n);
    MulMonotone(y, n - 1, n);
    MulDist(n, 1, n);
  }

  lemma DoubleInjective(n: int, y: int, x: int, y': int, x': int)
    requires n % 4 == 0 && 0 <= y < n && 0 <= x < n && 0 <= y' < n && 0 <= x' < n
    requires DoubleCell(n, y, x) == DoubleCell(n, y', x')
    ensures y == y' && x == x'
  {
    if OnBlockDiagonal(y, x) == OnBlockDiagonal(y', x') {
      InOrderInjective(n, y, x, y', x');
    } else if OnBlockDiagonal(y, x) {
      Opposite(n, y, x);
      OppositeOnDiagonal(n, y, x);
      InOrderInjective(n, n - 1 - y, n - 1 - x, y', x');
    } else {
      Opposite(n, y', x');
      OppositeOnDiagonal(n, y', x');
      InOrderInjective(n, y, x, n - 1 - y', n - 1 - x');
    }
  }

  lemma DoubleIsMagic(n: nat)
    requires n % 4 == 0
    ensures LinesAgree(DoubleSquare(n), n, 1) && FillsSquare(DoubleSquare(n), n, 1)
  {
    forall y, x | 0 <= y < n && 0 <= x < n
      ensures 1 <= DoubleSquare(n)(y, x) < 1 + n * n
    {
      InOrderRange(n, y, x);
    }
    forall y, x, y', x' | 0 <= y < n && 0 <= x < n && 0 <= y' < n && 0 <= x' < n && DoubleSquare(n)(y, x) == DoubleSquare(n)(y', x')
      ensures y == y' && x == x'
    {
      DoubleInjective(n, y, x, y', x');
    }
    forall i | 0 <= i < n
      ensures 2 * Sum(Row(DoubleSquare(n), i), n) == n * (2 * 1 + n * n - 1)
    {
      DoubleRow(n, i);
    }
    forall i | 0 <= i < n
      ensures 2 * Sum(Column(DoubleSquare(n), i), n) == n * (2 * 1 + n * n - 1)
    {
      DoubleColumn(n, i);
    }
    DoubleDiagonal(n);
    DoubleAntiDiagonal(n);
  }

  /** The two diagonals of the 4 x 4 block at (oy, ox). */
  predicate InCross(oy: int, ox: int, y: int, x: int) {
    oy <= y < oy + 4 && (x - ox == y - oy || x - ox == 3 - (y - oy))
  }

  /** FourXFour: complements the diagonals of the block. */
  method FourXFour(a: array2<int>, oy: nat, ox: nat, total: int)
    requires oy + 4 <= a.Length0 && ox + 4 <= a.Length1
    modifies a
    ensures forall y, x | 0 <= y < a.Length0 && 0 <= x < a.Length1 ::
              a[y, x] == if InCross(oy, ox, y, x) then total - old(a[y, x]) else old(a[y, x])
  {
    var i := 0;
    while i < 4
      invariant 0 <= i <= 4
      invariant forall y, x | 0 <= y < a.Length0 && 0 <= x < a.Length1 ::
                  a[y, x] == if InCross(oy, ox, y, x) && y < oy + i then total - old(a[y, x]) else old(a[y, x])
    {
      a[oy + i, ox + i] := total - a[oy + i, ox + i];
      a[oy + i, ox + (4 - i - 1)] := total - a[oy + i, ox + (4 - i - 1)];
      i := i + 1;
    }
  }

  /** doubleEven: the first loop */
  method FillInOrder(a: array2<int>, n: nat)
    requires n <= a.Length0 && n <= a.Length1
    modifies a
    ensures forall v, u | 0 <= v < n && 0 <= u < n :: a[v, u] == InOrder(n, v, u)
  {
    var x, y := 0, 0;
    var i := 1;
    while i <= n * n
      invariant 0 <= x && 0 <= y && i == InOrder(n, y, x) && (x < n || n == 0)
      invariant forall v, u | 0 <= v < n && 0 <= u < n && (v < y || (v == y && u < x)) :: a[v, u] == InOrder(n, v, u)
    {
      RowInside(n, y, x);
      a[y, x] := i;
      EndOfRow(n, y, x);
      if i % n == 0 {
        x, y := 0, y + 1;
      } else {
        x := x + 1;
      }
      i := i + 1;
    }
    AllRowsDone(n, y, x);
  }

  lemma RowInside(n: int, y: int, x: int)
    requires 0 <= x && 0 <= y && 0 <= n && InOrder(n, y, x) <= n * n
    ensures y < n
  {
    if y >= n {
      MulMonotone(n, y, n);
    }
  }

  lemma AllRowsDone(n: int, y: int, x: int)
    requires 0 <= x && 0 <= y && (x < n || n == 0) && InOrder(n, y, x) > n * n
    ensures n <= y
  {
    if y < n {
      MulMonotone(y, n - 1, n);
      MulDist(n, 1, n);
    }
  }

  lemma EndOfRow(n: int, y: int, x: int)
    requires 0 <= x < n
    ensures InOrder(n, y, x) % n == 0 <==> x == n - 1
    ensures x == n - 1 ==> InOrder(n, y + 1, 0) == InOrder(n, y, x) + 1
    ensures InOrder(n, y, x) == y * n + (x + 1)
  {
    MulDist(y, 1, n);
    if x == n - 1 {
      ModIs(InOrder(n, y, x), y + 1, 0, n);
    } else {
      ModIs(InOrder(n, y, x), y, x + 1, n);
    }
  }

  /** The blocks before block (rb, cb) have been complemented. */
  function HalfDouble(n: int, rb: int, cb: int, y: int, x: int): int {
    if y < 4 * rb || (y < 4 * rb + 4 && x < 4 * cb) then DoubleCell(n, y, x) else InOrder(n, y, x)
  }

  lemma NextBlock(n: int, rb: int, cb: int, y: int, x: int)
    requires n % 4 == 0
    ensures var v := HalfDouble(n, rb, cb, y, x);
            HalfDouble(n, rb, cb + 1, y, x) == if InCross(4 * rb, 4 * cb, y, x) then n * n + 1 - v else v
  {
    var oy, ox := 4 * rb, 4 * cb;
    if oy <= y < oy + 4 && ox <= x < ox + 4 {
      assert y % 4 == y - oy && x % 4 == x - ox;
    }
  }

  /** doubleEven */
  method DoubleEven(a: array2<int>, n: nat)
    requires n % 4 == 0 && n <= a.Length0 && n <= a.Length1
    modifies a
    ensures forall y, x | 0 <= y < n && 0 <= x < n :: a[y, x] == DoubleCell(n, y, x)
  {
    FillInOrder(a, n);
    var total := 1 + n * n;
    var m := n / 4;
    var oy, ox := 0, 0;
    var k := 1;
    ghost var rb, cb := 0, 0;
    while k <= m * m
      invariant oy == 4 * rb && ox == 4 * cb && 0 <= rb && 0 <= cb && (cb < m || m == 0) && k == InOrder(m, rb, cb)
      invariant forall y, x | 0 <= y < n && 0 <= x < n :: a[y, x] == HalfDouble(n, rb, cb, y, x)
    {
      RowInside(m, rb, cb);
      OneBlock(a, n, rb, cb, oy, ox, total);
      EndOfRow(m, rb, cb);
      if k % m == 0 {
        ox, oy := 0, oy + 4;
        rb, cb := rb + 1, 0;
      } else {
        ModIs(k, rb, cb + 1, m);
        ox := k % m * 4;
        cb := cb + 1;
      }
      k := k + 1;
    }
    AllRowsDone(m, rb, cb);
  }

  method OneBlock(a: array2<int>, n: nat, ghost rb: int, ghost cb: int, oy: nat, ox: nat, total: int)
    requires n % 4 == 0 && n <= a.Length0 && n <= a.Length1 && oy + 4 <= n && ox + 4 <= n
    requires oy == 4 * rb && ox == 4 * cb && total == n * n + 1
    requires forall y, x | 0 <= y < n && 0 <= x < n :: a[y, x] == HalfDouble(n, rb, cb, y, x)
    modifies a
    ensures forall y, x | 0 <= y < n && 0 <= x < n :: a[y, x] == HalfDouble(n, rb, cb + 1, y, x)
  {
    FourXFour(a, oy, ox, total);
    forall y, x | 0 <= y < n && 0 <= x < n
      ensures a[y, x] == HalfDouble(n, rb, cb + 1, y, x)
    {
      NextBlock(n, rb, cb, y, x);
    }
  }

  // ----- all orders -----

  function Square(n: int): (int, int) -> int
    requires n >= 3
  {
    if n % 2 == 1 then OddSquare(n, 0) else if n % 4 == 0 then DoubleSquare(n) else SingleSquare(n / 2)
  }

  lemma SquareIsMagic(n: nat)
    requires n >= 3
    ensures LinesAgree(Square(n), n, 1) && FillsSquare(Square(n), n, 1)
  {
    hide LinesAgree, FillsSquare;
    if n % 2 == 1 {
      ModIs(0, 0, 0, n);
      OddIsMagic(n, 0);
    } else if n % 4 == 0 {
      DoubleIsMagic(n);
    } else {
      var p := n / 2;
      assert n == 2 * p && p % 2 == 1;
      SingleIsMagic(p);
    }
  }

  /** The choice of a method in main: for every order from 3 on, the array ends up holding the
      numbers 1, ..., n * n once each, with all lines adding up to n * (n * n + 1) / 2. */
  method Fill(a: array2<int>, n: nat)
    requires 3 <= n <= a.Length0 && n <= a.Length1
    modifies a
    ensures forall y, x | 0 <= y < n && 0 <= x < n :: a[y, x] == Square(n)(y, x)
    ensures LinesAgree(Square(n), n, 1) && FillsSquare(Square(n), n, 1)
  {
    hide LinesAgree, FillsSquare;
    SquareIsMagic(n);
    if n % 2 == 1 {
      Odd(a, 0, 0, n, 0);
    } else if n % 4 == 0 {
      DoubleEven(a, n);
    } else {
      SingleEven(a, n);
    }
  }
}
