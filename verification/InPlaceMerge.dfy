/**
 The merge sorts of algorithms/sort_merge.c that merge two neighbouring runs within the array, by
 rotations that are made of three reversals. The items carry a tag that no comparison sees, so that
 the order of equal items shows.
 */
module InPlaceMerge {
  datatype Item = Item(key: int, tag: int)

  // ----- sorted and stable -----

  /** s[lo..hi] is in order. */
  ghost predicate SortedRange(s: seq<Item>, lo: int, hi: int)
    requires 0 <= lo <= hi <= |s|
  {
    forall i, j | lo <= i < j < hi :: s[i].key <= s[j].key
  }

  ghost predicate Sorted(s: seq<Item>) {
    SortedRange(s, 0, |s|)
  }

  /** The items with key k, in order. */
  function WithKey(s: seq<Item>, k: int): seq<Item> {
    if s == [] then [] else WithKey(s[..|s| - 1], k) + if s[|s| - 1].key == k then [s[|s| - 1]] else []
  }

  /** The same items, and equal ones in the same order. */
  ghost predicate SameItems(s: seq<Item>, t: seq<Item>) {
    |s| == |t| && forall k :: WithKey(s, k) == WithKey(t, k)
  }

  /** t is what a stable sort makes of s. */
  ghost predicate IsStableSort(t: seq<Item>, s: seq<Item>) {
    Sorted(t) && SameItems(t, s)
  }

  lemma {:induction false} WithKeyConcat(s: seq<Item>, t: seq<Item>, k: int)
    ensures WithKey(s + t, k) == WithKey(s, k) + WithKey(t, k)
  {
    if t == [] {
      assert s + t == s;
    } else {
      var u := s + t;
      assert u[..|u| - 1] == s + t[..|t| - 1];
      WithKeyConcat(s, t[..|t| - 1], k);
    }
  }

  lemma {:induction false} WithoutKey(s: seq<Item>, k: int)
    requires forall i | 0 <= i < |s| :: s[i].key != k
    ensures WithKey(s, k) == []
  {
    if s != [] {
      WithoutKey(s[..|s| - 1], k);
    }
  }

  lemma {:induction false} CountWithKey(s: seq<Item>, x: Item)
    ensures multiset(s)[x] == multiset(WithKey(s, x.key))[x]
  {
    if s != [] {
      assert s == s[..|s| - 1] + [s[|s| - 1]];
      CountWithKey(s[..|s| - 1], x);
    }
  }

  /** Keeping the items of every key keeps all the items. */
  lemma SamePermutation(s: seq<Item>, t: seq<Item>)
    requires SameItems(s, t)
    ensures multiset(s) == multiset(t)
  {
    forall x
      ensures multiset(s)[x] == multiset(t)[x]
    {
      CountWithKey(s, x);
      CountWithKey(t, x);
      assert WithKey(s, x.key) == WithKey(t, x.key);
    }
  }

  // ----- rotation -----

  /** t is s with lo..hi reversed. */
  ghost predicate IsReversal(t: seq<Item>, s: seq<Item>, lo: int, hi: int)
    requires 0 <= lo <= hi <= |s|
  {
    |t| == |s| && forall i {:trigger t[i]} | 0 <= i < |s| :: t[i] == if lo <= i < hi then s[lo + hi - 1 - i] else s[i]
  }

  ghost predicate Holds(a: array<Item>, s: seq<Item>)
    reads a
  {
    |s| == a.Length && forall i {:trigger s[i]} | 0 <= i < a.Length :: a[i] == s[i]
  }

  /** std::reverse on a[lo..hi] */
  method Reverse(a: array<Item>, ghost s: seq<Item>, lo: int, hi: int) returns (ghost t: seq<Item>)
    requires 0 <= lo <= hi <= a.Length && Holds(a, s)
    modifies a
    ensures Holds(a, t) && IsReversal(t, s, lo, hi)
  {
    var i, j := lo, hi;
    while i < j - 1
      invariant lo <= i <= j + 1 && j <= hi && i + j == lo + hi
      invariant forall k | lo <= k < i || j <= k < hi :: a[k] == s[lo + hi - 1 - k]
      invariant forall k | 0 <= k < a.Length && !(lo <= k < i || j <= k < hi) :: a[k] == s[k]
    {
      j := j - 1;
      a[i], a[j] := a[j], a[i];
      i := i + 1;
    }
    t := a[..];
  }

  /** r is s with s[mid..hi] moved in front of s[lo..mid]. */
  ghost predicate IsRotation(r: seq<Item>, s: seq<Item>, lo: int, mid: int, hi: int)
    requires 0 <= lo <= mid <= hi <= |s|
  {
    && |r| == |s|
    && forall i {:trigger r[i]} | 0 <= i < |s| ::
         r[i] == if lo <= i < lo + (hi - mid) then s[i + (mid - lo)] else if lo <= i < hi then s[i - (hi - mid)] else s[i]
  }

  lemma RotationParts(r: seq<Item>, s: seq<Item>, lo: int, mid: int, hi: int)
    requires 0 <= lo <= mid <= hi <= |s| && IsRotation(r, s, lo, mid, hi)
    ensures r == s[..lo] + s[mid..hi] + s[lo..mid] + s[hi..]
  {
  }

  /** Three reversals make a rotation. */
  lemma ThreeReversals(s: seq<Item>, t: seq<Item>, u: seq<Item>, v: seq<Item>, lo: int, mid: int, hi: int, n: int)
    requires 0 <= lo <= mid <= hi <= |s| && n == hi - mid
    requires IsReversal(t, s, lo, hi) && IsReversal(u, t, lo, lo + n) && IsReversal(v, u, lo + n, hi)
    ensures IsRotation(v, s, lo, mid, hi)
  {
  }

  /** rotate_right: the last n items of a[lo..hi] come to its front. */
  method RotateRight(a: array<Item>, ghost s: seq<Item>, lo: int, ghost mid: int, hi: int, n: int) returns (ghost v: seq<Item>)
    requires 0 <= lo <= mid <= hi <= a.Length && n == hi - mid && Holds(a, s)
    modifies a
    ensures Holds(a, v) && IsRotation(v, s, lo, mid, hi)
  {
    ghost var t := Reverse(a, s, lo, hi);
    ghost var u := Reverse(a, t, lo, lo + n);
    v := Reverse(a, u, lo + n, hi);
    ThreeReversals(s, t, u, v, lo, mid, hi, n);
  }

  // ----- merging -----

  /** Between two rounds of merge: a[lo..first] is final, a[lo..second] and a[second..hi] are in order. */
  ghost predicate Merging(s: seq<Item>, lo: int, first: int, second: int, hi: int) {
    && 0 <= lo <= first <= second <= hi <= |s|
    && SortedRange(s, lo, second) && SortedRange(s, second, hi)
    && forall i, j | lo <= i < first && second <= j < hi :: s[i].key <= s[j].key
  }

  /** Items that move in front of greater ones. */
  lemma RotateMerging(s: seq<Item>, r: seq<Item>, lo: int, first: int, second: int, second': int, hi: int)
    requires Merging(s, lo, first, second, hi) && second <= second' <= hi && IsRotation(r, s, first, second, second')
    requires forall j | second <= j < second' :: first < second && s[j].key < s[first].key
    ensures Merging(r, lo, first + (second' - second), second', hi)
  {
  }

  lemma RotateSame(s: seq<Item>, r: seq<Item>, first: int, second: int, second': int)
    requires 0 <= first <= second <= second' <= |s| && IsRotation(r, s, first, second, second')
    requires forall i, j | first <= i < second && second <= j < second' :: s[j].key < s[i].key
    ensures SameItems(r, s)
  {
    var p, x, y, q := s[..first], s[first..second], s[second..second'], s[second'..];
    RotationParts(r, s, first, second, second');
    assert s == p + x + y + q;
    forall k
      ensures WithKey(p + y + x + q, k) == WithKey(p + x + y + q, k)
    {
      Exchange(p, x, y, q, k);
    }
  }

  lemma Exchange(p: seq<Item>, x: seq<Item>, y: seq<Item>, q: seq<Item>, k: int)
    requires forall i, j | 0 <= i < |x| && 0 <= j < |y| :: y[j].key < x[i].key
    ensures WithKey(p + y + x + q, k) == WithKey(p + x + y + q, k)
  {
    WithKeyConcat(p, x, k);
    WithKeyConcat(p + x, y, k);
    WithKeyConcat(p + x + y, q, k);
    WithKeyConcat(p, y, k);
    WithKeyConcat(p + y, x, k);
    WithKeyConcat(p + y + x, q, k);
    if WithKey(x, k) != [] {
      HasKey(x, k);
      WithoutKey(y, k);
    }
  }

  lemma HasKey(s: seq<Item>, k: int)
    requires WithKey(s, k) != []
    ensures exists i :: 0 <= i < |s| && s[i].key == k
  {
    if forall i | 0 <= i < |s| :: s[i].key != k {
      WithoutKey(s, k);
    }
  }

  /** Nothing outside of lo..hi has changed. */
  ghost predicate OnlyWithin(s: seq<Item>, t: seq<Item>, lo: int, hi: int) {
    |s| == |t| && forall i | 0 <= i < |s| && !(lo <= i < hi) :: s[i] == t[i]
  }

  /** One more item of the left run is in place. */
  lemma KeepFirst(s: seq<Item>, lo: int, first: int, second: int, hi: int)
    requires Merging(s, lo, first, second, hi) && first < second < hi && s[first].key <= s[second].key
    ensures Merging(s, lo, first + 1, second, hi)
  {
    forall j | second <= j < hi
      ensures s[first].key <= s[j].key
    {
    }
  }

  lemma Merged(s: seq<Item>, lo: int, first: int, second: int, hi: int)
    requires Merging(s, lo, first, second, hi) && (first == second || second == hi)
    ensures SortedRange(s, lo, hi)
  {
  }

  /** The items that the second inner loop passes are less than all those from `first` on. */
  lemma Smaller(s: seq<Item>, lo: int, first: int, second: int, second': int, hi: int)
    requires Merging(s, lo, first, second, hi) && second <= second' <= hi
    requires forall j | second <= j < second' :: first < second && s[j].key < s[first].key
    ensures forall i, j | first <= i < second && second <= j < second' :: s[j].key < s[i].key
  {
    forall i, j | first <= i < second && second <= j < second'
      ensures s[j].key < s[i].key
    {
      assert s[first].key <= s[i].key;
    }
  }

  /** merge, for the part of the array from lo to hi with the second run at lo + pos: the outcome is
      in order, equal items keep their order, and the rest of the array is as it was. */
  method Merge(a: array<Item>, lo: int, hi: int, pos: int)
    requires 0 <= lo <= lo + pos <= hi <= a.Length
    requires SortedRange(a[..], lo, lo + pos) && SortedRange(a[..], lo + pos, hi)
    modifies a
    ensures SortedRange(a[..], lo, hi)
    ensures SameItems(a[..], old(a[..])) && OnlyWithin(a[..], old(a[..]), lo, hi)
  {
    ghost var s0 := a[..];
    ghost var s := s0;
    var first, second := lo, lo + pos;
    while first < second && second < hi
      invariant Holds(a, s) && Merging(s, lo, first, second, hi)
      invariant SameItems(s, s0) && OnlyWithin(s, s0, lo, hi)
      decreases hi - first
    {
      first, second, s := MergeRound(a, lo, first, second, hi, s, s0);
    }
    Merged(s, lo, first, second, hi);
    assert a[..] == s;
  }

  /** The first inner loop: over the items of the left run that stay. */
  method PassLeft(a: array<Item>, ghost s: seq<Item>, lo: int, first0: int, second: int, hi: int) returns (first: int)
    requires Holds(a, s) && Merging(s, lo, first0, second, hi) && second < hi
    ensures first0 <= first && Merging(s, lo, first, second, hi)
    ensures first < second ==> s[first].key > s[second].key
  {
    first := first0;
    while first < second && a[first].key <= a[second].key
      invariant first0 <= first <= second && Merging(s, lo, first, second, hi)
    {
      KeepFirst(s, lo, first, second, hi);
      first := first + 1;
    }
  }

  /** The second inner loop: over the n items of the right run that are less than a[first]. */
  method PassRight(a: array<Item>, ghost s: seq<Item>, first: int, second0: int, hi: int) returns (n: int, second: int)
    requires Holds(a, s) && 0 <= first <= second0 < hi <= |s|
    ensures n == second - second0 && second0 <= second <= hi
    ensures forall j | second0 <= j < second :: first < second0 && s[j].key < s[first].key
    ensures second < hi && first < second0 ==> s[second].key >= s[first].key
  {
    n, second := 0, second0;
    while second < hi && a[first].key > a[second].key
      invariant n == second - second0 && second0 <= second <= hi && (n > 0 ==> first < second0)
      invariant forall j | second0 <= j < second :: first < second0 && s[j].key < s[first].key
    {
      n, second := n + 1, second + 1;
    }
  }

  /** What the rotation of a round keeps. */
  lemma RotateRound(s: seq<Item>, r: seq<Item>, s0: seq<Item>, lo: int, first: int, second: int, second': int, hi: int, first': int)
    requires first' == first + (second' - second)
    requires Merging(s, lo, first, second, hi) && second <= second' <= hi && IsRotation(r, s, first, second, second')
    requires forall j | second <= j < second' :: first < second && s[j].key < s[first].key
    requires SameItems(s, s0) && OnlyWithin(s, s0, lo, hi)
    ensures Merging(r, lo, first', second', hi)
    ensures SameItems(r, s0) && OnlyWithin(r, s0, lo, hi)
  {
    assert second < second' ==> s[second].key < s[first].key;
    Smaller(s, lo, first, second, second', hi);
    RotateSame(s, r, first, second, second');
    RotateMerging(s, r, lo, first, second, second', hi);
  }

  /** The body of the outer loop. */
  method MergeRound(a: array<Item>, lo: int, first0: int, second0: int, hi: int, ghost s: seq<Item>, ghost s0: seq<Item>)
    returns (first: int, second: int, ghost r: seq<Item>)
    requires Holds(a, s) && Merging(s, lo, first0, second0, hi) && first0 < second0 < hi
    requires SameItems(s, s0) && OnlyWithin(s, s0, lo, hi)
    modifies a
    ensures Holds(a, r) && Merging(r, lo, first, second, hi) && first0 < first
    ensures SameItems(r, s0) && OnlyWithin(r, s0, lo, hi)
  {
    first := PassLeft(a, s, lo, first0, second0, hi);
    var n;
    n, second := PassRight(a, s, first, second0, hi);
    r := RotateRight(a, s, first, second0, second, n);
    RotateRound(s, r, s0, lo, first, second0, second, hi, first + n);
    first := first + n;
  }

  // ----- the sorts -----

  /** merge_sort1, on a[lo..hi] */
  method MergeSort1(a: array<Item>, lo: int, hi: int)
    requires 0 <= lo <= hi <= a.Length
    modifies a
    ensures SortedRange(a[..], lo, hi)
    ensures SameItems(a[..], old(a[..])) && OnlyWithin(a[..], old(a[..]), lo, hi)
    decreases hi - lo
  {
    var sz := hi - lo;
    if sz <= 1 {
      return;
    }
    MergeSort1(a, lo, lo + sz / 2);
    ghost var s := a[..];
    MergeSort1(a, lo + sz / 2, hi);
    assert forall i | lo <= i < lo + sz / 2 :: a[..][i] == s[i];
    Merge(a, lo, hi, sz / 2);
  }

  /** merge_sort1 of a whole array */
  method Sort1(a: array<Item>)
    modifies a
    ensures IsStableSort(a[..], old(a[..])) && multiset(a[..]) == multiset(old(a[..]))
  {
    ghost var s := a[..];
    MergeSort1(a, 0, a.Length);
    SamePermutation(a[..], s);
  }

  /** pos[..ct] are the last indices of the ascending runs of s[..n]. */
  ghost predicate RunEnds(s: seq<Item>, pos: seq<int>, ct: int, n: int) {
    && 0 <= ct <= |pos| && n <= |s|
    && (forall k | 0 <= k < ct :: 0 <= pos[k] < n)
    && (forall k | 0 < k < ct :: pos[k - 1] < pos[k])
    && (ct > 0 ==> Ascends(s, 0, pos[0]))
    && (forall k | 0 < k < ct :: Ascends(s, pos[k - 1] + 1, pos[k]))
  }

  /** No item from lo on, up to index hi, is greater than the next one. */
  ghost predicate Ascends(s: seq<Item>, lo: int, hi: int) {
    forall i, j | 0 <= lo <= i < hi && j == i + 1 < |s| :: s[i].key <= s[j].key
  }

  lemma {:induction false} AscendsSorted(s: seq<Item>, lo: int, hi: int)
    requires 0 <= lo <= hi < |s| && Ascends(s, lo, hi)
    ensures SortedRange(s, lo, hi + 1)
  {
    if lo < hi {
      AscendsSorted(s, lo, hi - 1);
      assert s[hi - 1].key <= s[hi].key;
    }
  }

  /** The first loop of merge_sort3. */
  method FindRuns(a: array<Item>, pos: array<int>) returns (ct: int)
    requires a.Length >= 1 && pos.Length == a.Length
    modifies pos
    ensures RunEnds(a[..], pos[..], ct, a.Length) && ct >= 1 && pos[ct - 1] == a.Length - 1
  {
    var n := a.Length;
    ghost var s := a[..];
    ct := 0;
    var i := 0;
    while i < n - 1
      invariant 0 <= i <= n - 1 && ct <= i && RunEnds(s, pos[..], ct, n)
      invariant ct > 0 ==> pos[ct - 1] < i
      invariant Ascends(s, if ct > 0 then pos[ct - 1] + 1 else 0, i)
    {
      if a[i].key > a[i + 1].key {
        Push(s, pos, ct, i);
        ct := ct + 1;
      }
      i := i + 1;
    }
    Push(s, pos, ct, n - 1);
    ct := ct + 1;
  }

  /** Records the end of a run. */
  method Push(ghost s: seq<Item>, pos: array<int>, ct: int, i: int)
    requires 0 <= ct < pos.Length && 0 <= i < |s| && RunEnds(s, pos[..], ct, |s|)
    requires ct > 0 ==> pos[ct - 1] < i
    requires Ascends(s, if ct > 0 then pos[ct - 1] + 1 else 0, i)
    modifies pos
    ensures RunEnds(s, pos[..], ct + 1, |s|) && pos[ct] == i
  {
    ghost var p := pos[..];
    pos[ct] := i;
    assert pos[..] == p[ct := i];
  }

  /** merge_sort3: the runs that are there are merged one after another. */
  method Sort3(a: array<Item>)
    requires a.Length >= 1
    modifies a
    ensures IsStableSort(a[..], old(a[..])) && multiset(a[..]) == multiset(old(a[..]))
  {
    ghost var s0 := a[..];
    var pos := new int[a.Length];
    var ct := FindRuns(a, pos);
    ghost var p := pos[..];
    var k := 1;
    var m := pos[0];
    AscendsSorted(s0, 0, m);
    while k < ct
      invariant 1 <= k <= ct && m == p[k - 1] && p == pos[..]
      invariant SortedRange(a[..], 0, m + 1)
      invariant SameItems(a[..], s0) && OnlyWithin(a[..], s0, 0, m + 1)
    {
      var r := pos[k];
      k := k + 1;
      AscendsSorted(s0, m + 1, r);
      assert forall i | m < i <= r :: a[..][i] == s0[i];
      Merge(a, 0, r + 1, m + 1);
      m := r;
    }
    SamePermutation(a[..], s0);
  }
}
