/** The heap sort and the quicksort of algorithms/sort_all_methods.cc. */
module ComparisonSorts {
  ghost predicate SortedBetween(s: seq<int>, lo: int, hi: int)
    requires 0 <= lo <= hi <= |s|
  {
    forall i, j | lo <= i < j < hi :: s[i] <= s[j]
  }

  /** t is s with the part from lo to hi rearranged. */
  ghost predicate RearrangedBetween(t: seq<int>, s: seq<int>, lo: int, hi: int)
    requires 0 <= lo <= hi <= |s|
  {
    && |t| == |s|
    && multiset(t[lo..hi]) == multiset(s[lo..hi])
    && (forall i {:trigger t[i]} | 0 <= i < |s| && !(lo <= i < hi) :: t[i] == s[i])
  }

  lemma SwapRearranges(s: seq<int>, t: seq<int>, i: int, j: int, lo: int, hi: int)
    requires 0 <= lo <= i < hi <= |s| && lo <= j < hi && t == s[i := s[j]][j := s[i]]
    ensures RearrangedBetween(t, s, lo, hi)
  {
    var u := s[lo..hi];
    assert t[lo..hi] == u[i - lo := u[j - lo]][j - lo := u[i - lo]];
  }

  lemma RearrangedTwice(u: seq<int>, t: seq<int>, s: seq<int>, lo: int, hi: int)
    requires 0 <= lo <= hi <= |s| && RearrangedBetween(t, s, lo, hi) && RearrangedBetween(u, t, lo, hi)
    ensures RearrangedBetween(u, s, lo, hi)
  {
  }

  /** Rearranging a part of the part */
  lemma RearrangedWithin(t: seq<int>, s: seq<int>, lo: int, hi: int, lo': int, hi': int)
    requires 0 <= lo' <= lo <= hi <= hi' <= |s| && RearrangedBetween(t, s, lo, hi)
    ensures RearrangedBetween(t, s, lo', hi')
  {
    assert s[lo'..hi'] == s[lo'..lo] + s[lo..hi] + s[hi..hi'];
    assert t[lo'..hi'] == t[lo'..lo] + t[lo..hi] + t[hi..hi'];
    assert t[lo'..lo] == s[lo'..lo] && t[hi..hi'] == s[hi..hi'];
  }

  lemma MemberBetween(t: seq<int>, s: seq<int>, lo: int, hi: int, i: int) returns (k: int)
    requires 0 <= lo <= i < hi <= |s| && RearrangedBetween(t, s, lo, hi)
    ensures lo <= k < hi && t[i] == s[k]
  {
    var part := s[lo..hi];
    assert t[lo..hi][i - lo] in multiset(t[lo..hi]);
    assert t[i] in multiset(part);
    var x :| 0 <= x < |part| && part[x] == t[i];
    k := lo + x;
  }

  // ----- quicksort -----

  /** What the partition has reached: not more than the pivot before i, not less behind j. */
  ghost predicate Partitioned(s: seq<int>, l: int, r: int, i: int, j: int, pivot: int) {
    && 0 <= l <= i <= r + 1 && l - 1 <= j <= r < |s|
    && (forall x | l <= x < i :: s[x] <= pivot)
    && (forall x | j < x <= r :: s[x] >= pivot)
  }

  /** The scans stop within the part. */
  ghost predicate Guarded(s: seq<int>, l: int, r: int, i: int, j: int, pivot: int)
    requires 0 <= l && r < |s|
  {
    && (exists x :: l <= i <= x <= r && s[x] >= pivot)
    && (exists x :: l <= x <= j <= r && s[x] <= pivot)
  }

  /** The outer loop of qsort: nothing up to j is greater than the pivot, nothing from i on is less,
      and in between there is only the pivot. */
  method Partition(a: array<int>, l: int, r: int) returns (i: int, j: int, ghost pivot: int)
    requires 0 <= l <= r < a.Length
    modifies a
    ensures l < i <= r + 1 && l - 1 <= j < r && j < i
    ensures Partitioned(a[..], l, r, i, j, pivot) && RearrangedBetween(a[..], old(a[..]), l, r + 1)
  {
    ghost var s0 := a[..];
    var pvt := a[(l + r) / 2];
    pivot := pvt;
    i, j := l, r;
    while i <= j
      invariant Partitioned(a[..], l, r, i, j, pvt) && RearrangedBetween(a[..], s0, l, r + 1)
      invariant i <= j ==> Guarded(a[..], l, r, i, j, pvt)
      invariant (i == l && j == r) || (l < i && j < r)
      decreases j - i + 1
    {
      i, j := PartitionRound(a, l, r, i, j, pvt, s0);
    }
  }

  /** One exchange. */
  lemma ExchangeStep(s: seq<int>, t: seq<int>, l: int, r: int, i0: int, j0: int, i: int, j: int, pvt: int)
    requires Partitioned(s, l, r, i0, j0, pvt) && i0 <= i <= j <= j0
    requires forall x | i0 <= x < i :: s[x] < pvt
    requires forall x | j < x <= j0 :: s[x] > pvt
    requires s[i] >= pvt >= s[j] && t == s[i := s[j]][j := s[i]]
    ensures Partitioned(t, l, r, i + 1, j - 1, pvt)
    ensures i + 1 <= j - 1 ==> Guarded(t, l, r, i + 1, j - 1, pvt)
  {
    assert t[j] >= pvt && t[i] <= pvt;
  }

  lemma PassedStep(s: seq<int>, l: int, r: int, i0: int, j0: int, i: int, j: int, pvt: int)
    requires Partitioned(s, l, r, i0, j0, pvt) && i0 <= i <= r && l <= j <= j0
    requires forall x | i0 <= x < i :: s[x] < pvt
    requires forall x | j < x <= j0 :: s[x] > pvt
    ensures Partitioned(s, l, r, i, j, pvt)
  {
  }

  method PartitionRound(a: array<int>, l: int, r: int, i0: int, j0: int, pvt: int, ghost s0: seq<int>) returns (i: int, j: int)
    requires 0 <= l <= r < a.Length && i0 <= j0 && |s0| == a.Length
    requires Partitioned(a[..], l, r, i0, j0, pvt) && RearrangedBetween(a[..], s0, l, r + 1)
    requires Guarded(a[..], l, r, i0, j0, pvt)
    requires (i0 == l && j0 == r) || (l < i0 && j0 < r)
    modifies a
    ensures Partitioned(a[..], l, r, i, j, pvt) && RearrangedBetween(a[..], s0, l, r + 1)
    ensures i <= j ==> Guarded(a[..], l, r, i, j, pvt)
    ensures l < i && j < r && j - i < j0 - i0
  {
    ghost var s := a[..];
    i := ScanUp(a, s, l, r, i0, pvt);
    j := ScanDown(a, s, l, r, j0, pvt);
    if i <= j {
      Exchange(a, s, l, r, i, j, s0);
      ExchangeStep(s, a[..], l, r, i0, j0, i, j, pvt);
      i, j := i + 1, j - 1;
    } else {
      PassedStep(s, l, r, i0, j0, i, j, pvt);
    }
  }

  method Swap(a: array<int>, ghost s: seq<int>, i: int, j: int)
    requires s == a[..] && 0 <= i < a.Length && 0 <= j < a.Length
    modifies a
    ensures a[..] == s[i := s[j]][j := s[i]]
  {
    if i != j {
      a[i], a[j] := a[j], a[i];
    }
  }

  method Exchange(a: array<int>, ghost s: seq<int>, l: int, r: int, i: int, j: int, ghost s0: seq<int>)
    requires s == a[..] && 0 <= l <= i <= j <= r < a.Length == |s0| && RearrangedBetween(s, s0, l, r + 1)
    modifies a
    ensures a[..] == s[i := s[j]][j := s[i]] && RearrangedBetween(a[..], s0, l, r + 1)
  {
    hide RearrangedBetween;
    Swap(a, s, i, j);
    ghost var t := a[..];
    SwapRearranges(s, t, i, j, l, r + 1);
    RearrangedTwice(t, s, s0, l, r + 1);
  }

  method ScanUp(a: array<int>, ghost s: seq<int>, l: int, r: int, i0: int, pvt: int) returns (i: int)
    requires s == a[..] && 0 <= l <= i0 && r < a.Length && (exists x :: i0 <= x <= r && s[x] >= pvt)
    ensures i0 <= i <= r && s[i] >= pvt && forall x | i0 <= x < i :: s[x] < pvt
  {
    i := i0;
    while a[i] < pvt
      invariant i0 <= i <= r && forall x | i0 <= x < i :: s[x] < pvt
      decreases r - i
    {
      i := i + 1;
    }
  }

  method ScanDown(a: array<int>, ghost s: seq<int>, l: int, r: int, j0: int, pvt: int) returns (j: int)
    requires s == a[..] && 0 <= l && j0 <= r < a.Length && (exists x :: l <= x <= j0 && s[x] <= pvt)
    ensures l <= j <= j0 && s[j] <= pvt && forall x | j < x <= j0 :: s[x] > pvt
  {
    j := j0;
    while a[j] > pvt
      invariant l <= j <= j0 && forall x | j < x <= j0 :: s[x] > pvt
      decreases j - l
    {
      j := j - 1;
    }
  }

  /** qsort on a[l..r], both included */
  method QuickSort(a: array<int>, l: int, r: int)
    requires 0 <= l <= r < a.Length
    modifies a
    ensures SortedBetween(a[..], l, r + 1) && RearrangedBetween(a[..], old(a[..]), l, r + 1)
    decreases r - l
  {
    ghost var s0 := a[..];
    var i, j;
    ghost var pivot;
    i, j, pivot := Partition(a, l, r);
    ghost var s := a[..];
    if j > l {
      QuickSort(a, l, j);
    }
    ghost var t := a[..];
    assert RearrangedBetween(t, s, l, j + 1);
    assert SortedBetween(t, l, j + 1);
    if i < r {
      QuickSort(a, i, r);
    }
    ghost var u := a[..];
    assert RearrangedBetween(u, t, i, r + 1);
    SidesMeet(s0, s, t, u, l, r, i, j, pivot);
  }

  lemma SidesMeet(s0: seq<int>, s: seq<int>, t: seq<int>, u: seq<int>, l: int, r: int, i: int, j: int, pivot: int)
    requires Partitioned(s, l, r, i, j, pivot) && l < i && j < r && j < i && |s0| == |s| && RearrangedBetween(s, s0, l, r + 1)
    requires RearrangedBetween(t, s, l, j + 1) && SortedBetween(t, l, j + 1)
    requires RearrangedBetween(u, t, i, r + 1) && SortedBetween(u, i, r + 1)
    ensures SortedBetween(u, l, r + 1) && RearrangedBetween(u, s0, l, r + 1)
  {
    RearrangedWithin(t, s, l, j + 1, l, r + 1);
    RearrangedWithin(u, t, i, r + 1, l, r + 1);
    RearrangedTwice(t, s, s0, l, r + 1);
    RearrangedTwice(u, t, s0, l, r + 1);
    forall x | l <= x <= r
      ensures x <= j ==> u[x] <= pivot
      ensures j < x < i ==> u[x] == pivot
      ensures i <= x ==> u[x] >= pivot
    {
      SideBounds(s, t, u, l, r, i, j, pivot, x);
    }
    assert SortedBetween(u, l, j + 1);
  }

  /** Sorting a side keeps it on its side of the pivot. */
  lemma SideBounds(s: seq<int>, t: seq<int>, u: seq<int>, l: int, r: int, i: int, j: int, pivot: int, x: int)
    requires Partitioned(s, l, r, i, j, pivot) && j < i && l <= x <= r
    requires RearrangedBetween(t, s, l, j + 1) && RearrangedBetween(u, t, i, r + 1)
    ensures x <= j ==> u[x] <= pivot
    ensures j < x < i ==> u[x] == pivot
    ensures i <= x ==> u[x] >= pivot
  {
    if x <= j {
      var k := MemberBetween(t, s, l, j + 1, x);
    } else if i <= x {
      var k := MemberBetween(u, t, i, r + 1, x);
    }
  }

  // ----- heap sort -----

  /** b[k], which is a[k - 1] */
  function B(s: seq<int>, k: int): int
    requires 1 <= k <= |s|
  {
    s[k - 1]
  }

  /** From index m on, up to n, no child is greater than its parent; except for the children of j. */
  ghost predicate HeapExcept(s: seq<int>, m: int, n: int, j: int)
    requires 1 <= m && n <= |s|
  {
    forall p, k {:trigger B(s, p), B(s, k)} | m <= p && p != j && (k == 2 * p || k == 2 * p + 1) && k <= n :: B(s, p) >= B(s, k)
  }

  ghost predicate Heap(s: seq<int>, m: int, n: int)
    requires 1 <= m && n <= |s|
  {
    HeapExcept(s, m, n, 0)
  }

  /** The children of j are not greater than the parent of j. */
  ghost predicate ParentBound(s: seq<int>, m: int, n: int, j: int)
    requires 1 <= m && n <= |s|
  {
    forall q, k {:trigger B(s, q), B(s, k)} | m <= q && (j == 2 * q || j == 2 * q + 1) && (k == 2 * j || k == 2 * j + 1) && k <= n ::
      B(s, q) >= B(s, k)
  }

  /** One level of adjust: k is the larger child of j. */
  lemma SiftStep(s: seq<int>, t: seq<int>, m: int, n: int, j: int, k: int)
    requires 1 <= m <= j && n <= |s| && HeapExcept(s, m, n, j) && ParentBound(s, m, n, j)
    requires (k == 2 * j || k == 2 * j + 1) && k <= n
    requires forall x | (x == 2 * j || x == 2 * j + 1) && x <= n :: B(s, k) >= B(s, x)
    requires t == if B(s, j) < B(s, k) then s[j - 1 := B(s, k)][k - 1 := B(s, j)] else s
    ensures HeapExcept(t, m, n, k) && ParentBound(t, m, n, k)
  {
    forall p, x | m <= p && p != k && (x == 2 * p || x == 2 * p + 1) && x <= n
      ensures B(t, p) >= B(t, x)
    {
      if p == j {
        assert B(s, k) >= B(s, x);
      } else {
        assert B(s, p) >= B(s, x);
        if x == j {
          assert B(s, p) >= B(s, k);
        }
        assert x != k;
      }
    }
    forall q, x | m <= q && (k == 2 * q || k == 2 * q + 1) && (x == 2 * k || x == 2 * k + 1) && x <= n
      ensures B(t, q) >= B(t, x)
    {
      assert B(s, k) >= B(s, x);
    }
  }

  /** The body of the loop of adjust */
  method Sift(a: array<int>, m: int, n: int, j: int, ghost s0: seq<int>) returns (k: int)
    requires 1 <= m <= j && 2 * j <= n <= a.Length == |s0| && HeapExcept(a[..], m, n, j) && ParentBound(a[..], m, n, j)
    requires RearrangedBetween(a[..], s0, 0, n)
    modifies a
    ensures j < k <= n && HeapExcept(a[..], m, n, k) && ParentBound(a[..], m, n, k) && RearrangedBetween(a[..], s0, 0, n)
  {
    ghost var s := a[..];
    k := 2 * j;
    if k < n && a[k - 1] < a[k] {
      k := k + 1;
    }
    assert forall x | (x == 2 * j || x == 2 * j + 1) && x <= n :: B(s, k) >= B(s, x);
    if a[j - 1] < a[k - 1] {
      a[j - 1], a[k - 1] := a[k - 1], a[j - 1];
    }
    ghost var t := a[..];
    assert t == if B(s, j) < B(s, k) then s[j - 1 := B(s, k)][k - 1 := B(s, j)] else s;
    SiftStep(s, t, m, n, j, k);
    SiftRearranges(s, t, s0, j, k, n);
  }

  lemma SiftRearranges(s: seq<int>, t: seq<int>, s0: seq<int>, j: int, k: int, n: int)
    requires 1 <= j < k <= n <= |s| == |s0| && RearrangedBetween(s, s0, 0, n)
    requires t == if B(s, j) < B(s, k) then s[j - 1 := B(s, k)][k - 1 := B(s, j)] else s
    ensures RearrangedBetween(t, s0, 0, n)
  {
    if B(s, j) < B(s, k) {
      SwapRearranges(s, t, j - 1, k - 1, 0, n);
      RearrangedTwice(t, s, s0, 0, n);
    }
  }

  /** adjust: makes a heap from m on of one from m + 1 on. */
  method Adjust(a: array<int>, m: int, n: int)
    requires 1 <= m && 0 <= n <= a.Length && HeapExcept(a[..], m, n, m)
    modifies a
    ensures Heap(a[..], m, n) && RearrangedBetween(a[..], old(a[..]), 0, n)
  {
    ghost var s0 := a[..];
    var j, k := m, 2 * m;
    while k <= n
      invariant m <= j && k == 2 * j && HeapExcept(a[..], m, n, j) && ParentBound(a[..], m, n, j)
      invariant RearrangedBetween(a[..], s0, 0, n)
      decreases n - j
    {
      j := Sift(a, m, n, j, s0);
      k := 2 * j;
    }
  }

  /** The first of a heap is the greatest. */
  lemma {:induction false} HeapMax(s: seq<int>, n: int, k: int)
    requires 1 <= k <= n <= |s| && Heap(s, 1, n)
    ensures B(s, 1) >= B(s, k)
  {
    if k > 1 {
      HeapMax(s, n, k / 2);
      assert B(s, k / 2) >= B(s, k);
    }
  }

  /** The second loop has finished with the elements from n on. */
  ghost predicate TailSorted(s: seq<int>, n: int)
    requires 0 <= n <= |s|
  {
    SortedBetween(s, n, |s|) && forall x, y | 0 <= x < n <= y < |s| :: s[x] <= s[y]
  }

  /** Rearranging what is before the tail */
  lemma TailStays(s: seq<int>, t: seq<int>, n: int)
    requires 0 <= n <= |s| && TailSorted(s, n) && RearrangedBetween(t, s, 0, n)
    ensures TailSorted(t, n)
  {
    forall x, y | 0 <= x < n <= y < |t|
      ensures t[x] <= t[y]
    {
      var k := MemberBetween(t, s, 0, n, x);
    }
  }

  /** The greatest goes to the end. */
  lemma TakeMax(s: seq<int>, t: seq<int>, i: int)
    requires 1 <= i < |s| && Heap(s, 1, i + 1) && TailSorted(s, i + 1) && t == s[0 := s[i]][i := s[0]]
    ensures HeapExcept(t, 1, i, 1) && TailSorted(t, i)
  {
    forall x | 0 <= x < i
      ensures t[x] <= t[i]
    {
      HeapMax(s, i + 1, x + 1);
      HeapMax(s, i + 1, i + 1);
    }
    forall p, k | 1 <= p && p != 1 && (k == 2 * p || k == 2 * p + 1) && k <= i
      ensures B(t, p) >= B(t, k)
    {
      assert B(s, p) >= B(s, k);
    }
  }

  /** heap_sort */
  method HeapSort(a: array<int>)
    modifies a
    ensures SortedBetween(a[..], 0, a.Length) && multiset(a[..]) == multiset(old(a[..]))
  {
    ghost var s0 := a[..];
    var n := a.Length;
    BuildHeap(a);
    var i := n - 1;
    while i >= 1
      invariant (n == 0 && i == -1) || 0 <= i < n
      invariant n > 0 ==> Heap(a[..], 1, i + 1) && TailSorted(a[..], i + 1)
      invariant RearrangedBetween(a[..], s0, 0, n)
    {
      TakeOut(a, i, s0);
      i := i - 1;
    }
    assert a[..][0..n] == a[..] && s0[0..n] == s0;
  }

  /** The first loop of heap_sort makes a heap of the whole array, from its last parent upwards. */
  method BuildHeap(a: array<int>)
    modifies a
    ensures Heap(a[..], 1, a.Length) && RearrangedBetween(a[..], old(a[..]), 0, a.Length)
  {
    ghost var s0 := a[..];
    var n := a.Length;
    var i := n / 2;
    while i >= 1
      invariant 0 <= i <= n / 2 && Heap(a[..], i + 1, n) && RearrangedBetween(a[..], s0, 0, n)
    {
      ghost var s := a[..];
      Adjust(a, i, n);
      RearrangedTwice(a[..], s, s0, 0, n);
      i := i - 1;
    }
  }

  /** The body of the second loop: the greatest element of the heap goes to its end and out of it. */
  method TakeOut(a: array<int>, i: int, ghost s0: seq<int>)
    requires 1 <= i < a.Length == |s0| && Heap(a[..], 1, i + 1) && TailSorted(a[..], i + 1) && RearrangedBetween(a[..], s0, 0, a.Length)
    modifies a
    ensures Heap(a[..], 1, i) && TailSorted(a[..], i) && RearrangedBetween(a[..], s0, 0, a.Length)
  {
    ghost var s := a[..];
    a[0], a[i] := a[i], a[0];
    ghost var t := a[..];
    TakeMax(s, t, i);
    SwapRearranges(s, t, 0, i, 0, a.Length);
    RearrangedTwice(t, s, s0, 0, a.Length);
    Adjust(a, 1, i);
    TailStays(t, a[..], i);
    RearrangedWithin(a[..], t, 0, i, 0, a.Length);
    RearrangedTwice(a[..], t, s0, 0, a.Length);
  }

  /** quick_sort; an array without elements is out, as the pivot is read before anything else. */
  method SortQuickly(a: array<int>)
    requires a.Length >= 1
    modifies a
    ensures SortedBetween(a[..], 0, a.Length) && multiset(a[..]) == multiset(old(a[..]))
  {
    ghost var s0 := a[..];
    QuickSort(a, 0, a.Length - 1);
    assert a[..][0..a.Length] == a[..] && s0[0..a.Length] == s0;
  }
}
