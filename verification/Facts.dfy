/** Permutations of 0..n-1, and sums. */
module Facts {
  /** A sequence that lists each of 0, ..., |p| - 1 once. */
  ghost predicate IsPermutation(p: seq<int>) {
    (forall i | 0 <= i < |p| :: 0 <= p[i] < |p|) && Distinct(p)
  }

  ghost predicate Distinct<T>(p: seq<T>) {
    forall i, j | 0 <= i < j < |p| :: p[i] != p[j]
  }

  function Without<T>(s: seq<T>, k: int): seq<T>
    requires 0 <= k < |s|
  {
    s[..k] + s[k + 1..]
  }

  /** { 0, ..., n - 1 } */
  function Upto(n: nat): (s: set<int>)
    ensures |s| == n && forall i :: i in s <==> 0 <= i < n
  {
    if n == 0 then {} else Upto(n - 1) + {n - 1}
  }

  lemma {:induction false} DistinctSize(p: seq<int>)
    requires Distinct(p)
    ensures |set x | x in p| == |p|
  {
    if p != [] {
      DistinctSize(p[1..]);
      assert (set x | x in p) == (set x | x in p[1..]) + {p[0]};
    }
  }

  lemma SubsetEqual(a: set<int>, b: set<int>)
    requires a <= b && |a| == |b|
    ensures a == b
  {
    assert b == a + (b - a);
    assert |b| == |a| + |b - a|;
  }

  /** n different numbers below n are all of them. */
  lemma Surjective(p: seq<int>, v: int) returns (k: int)
    requires IsPermutation(p) && 0 <= v < |p|
    ensures 0 <= k < |p| && p[k] == v
  {
    DistinctSize(p);
    var values := set x | x in p;
    SubsetEqual(values, Upto(|p|));
    assert v in values;
    k :| 0 <= k < |p| && p[k] == v;
  }

  lemma RemoveGreatest(p: seq<int>, k: int)
    requires IsPermutation(p) && 0 <= k < |p| && p[k] == |p| - 1
    ensures IsPermutation(Without(p, k))
  {
    var q := Without(p, k);
    assert forall i | 0 <= i < |q| :: q[i] == p[if i < k then i else i + 1];
  }

  lemma RemoveMultiset<T>(s: seq<T>, k: int)
    requires 0 <= k < |s|
    ensures multiset(s) == multiset(Without(s, k)) + multiset{s[k]}
  {
    assert s == s[..k] + [s[k]] + s[k + 1..];
  }

  /** Moving the elements of `a` to the positions `p` rearranges them. */
  lemma {:induction false} Rearranged<T>(a: seq<T>, t: seq<T>, p: seq<int>)
    requires |a| == |t| == |p| && IsPermutation(p)
    requires forall j | 0 <= j < |a| :: t[p[j]] == a[j]
    ensures multiset(t) == multiset(a)
  {
    if a != [] {
      var n := |a| - 1;
      var k := Surjective(p, n);
      RemoveGreatest(p, k);
      var a', p' := Without(a, k), Without(p, k);
      assert forall j | 0 <= j < n :: p'[j] == p[if j < k then j else j + 1] && a'[j] == a[if j < k then j else j + 1];
      Rearranged(a', t[..n], p');
      RemoveMultiset(a, k);
      assert t == t[..n] + [t[n]];
    }
  }

  // ----- sums -----

  /** f(0) + ... + f(n - 1) */
  ghost function Sum(f: int -> int, n: nat): int {
    if n == 0 then 0 else Sum(f, n - 1) + f(n - 1)
  }

  lemma {:induction false} SumPlus(f: int -> int, g: int -> int, h: int -> int, n: nat)
    requires forall i | 0 <= i < n :: h(i) == f(i) + g(i)
    ensures Sum(h, n) == Sum(f, n) + Sum(g, n)
  {
    if n > 0 {
      SumPlus(f, g, h, n - 1);
    }
  }

  lemma {:induction false} SumTimes(f: int -> int, c: int, h: int -> int, n: nat)
    requires forall i | 0 <= i < n :: h(i) == c * f(i)
    ensures Sum(h, n) == c * Sum(f, n)
  {
    if n > 0 {
      SumTimes(f, c, h, n - 1);
      assert c * (Sum(f, n - 1) + f(n - 1)) == c * Sum(f, n - 1) + c * f(n - 1);
    }
  }

  lemma {:induction false} SumConst(c: int, h: int -> int, n: nat)
    requires forall i | 0 <= i < n :: h(i) == c
    ensures Sum(h, n) == c * n
  {
    if n > 0 {
      SumConst(c, h, n - 1);
      assert c * (n - 1) + c == c * n;
    }
  }

  /** The sum of a sequence. */
  ghost function Total(s: seq<int>): int {
    if s == [] then 0 else Total(s[..|s| - 1]) + s[|s| - 1]
  }

  lemma {:induction false} TotalWithout(s: seq<int>, k: int)
    requires 0 <= k < |s|
    ensures Total(s) == Total(Without(s, k)) + s[k]
  {
    var n := |s| - 1;
    if k == n {
      assert Without(s, k) == s[..n];
    } else {
      TotalWithout(s[..n], k);
      assert Without(s, k)[..n - 1] == Without(s[..n], k);
    }
  }

  lemma Triangle(n: int)
    ensures (n - 1) * (n - 2) + 2 * (n - 1) == n * (n - 1)
  {
  }

  lemma {:induction false} PermutationTotal(p: seq<int>)
    requires IsPermutation(p)
    ensures 2 * Total(p) == |p| * (|p| - 1)
  {
    if p != [] {
      var n := |p|;
      var k := Surjective(p, n - 1);
      RemoveGreatest(p, k);
      PermutationTotal(Without(p, k));
      TotalWithout(p, k);
      Triangle(n);
    }
  }

  lemma {:induction false} SumIsTotal(f: int -> int, s: seq<int>)
    requires forall i | 0 <= i < |s| :: s[i] == f(i)
    ensures Sum(f, |s|) == Total(s)
  {
    if s != [] {
      SumIsTotal(f, s[..|s| - 1]);
    }
  }

  /** Numbers below n that are all different add up to 0 + ... + (n - 1). */
  lemma SumOfPermutation(f: int -> int, n: nat)
    requires forall i | 0 <= i < n :: 0 <= f(i) < n
    requires forall i, j | 0 <= i < j < n :: f(i) != f(j)
    ensures 2 * Sum(f, n) == n * (n - 1)
  {
    var s := seq(n, i => f(i));
    SumIsTotal(f, s);
    PermutationTotal(s);
  }

  /** The sum over a period, once more. */
  lemma {:induction false} SumPeriod(f: int -> int, u: nat, n: nat)
    requires forall i | 0 <= i < n :: f(u + i) == f(i)
    ensures Sum(f, u + n) == Sum(f, u) + Sum(f, n)
  {
    if n > 0 {
      SumPeriod(f, u, n - 1);
    }
  }

  /** The sum of c over the positions from lo to hi, and of nothing elsewhere. */
  lemma {:induction false} SumInterval(f: int -> int, c: int, lo: int, hi: int, n: nat)
    requires 0 <= lo <= hi
    requires forall i | 0 <= i < n :: f(i) == if lo <= i < hi then c else 0
    ensures Sum(f, n) == c * (if n <= lo then 0 else if n <= hi then n - lo else hi - lo)
  {
    if n > 0 {
      SumInterval(f, c, lo, hi, n - 1);
      if lo < n <= hi {
        assert c * (n - 1 - lo) + c == c * (n - lo);
      }
    }
  }

  /** The sum of two stretches. */
  lemma {:induction false} SumHalves(f: int -> int, g: int -> int, p: nat, n: nat)
    requires forall i | 0 <= i < n :: f(p + i) == g(i)
    ensures Sum(f, p + n) == Sum(f, p) + Sum(g, n)
  {
    if n > 0 {
      SumHalves(f, g, p, n - 1);
    }
  }
}
