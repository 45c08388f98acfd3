/**
 The counting sorts of algorithms/sort_all_methods.cc: radix sort (least significant digit first)
 and the rank sort that moves the elements in place along the cycles of the rank.
 */
module CountingSorts {
  import opened Arithmetic
  import opened Facts

  // ----- the stable position of an element -----

  function CountLess(keys: seq<int>, v: int): (c: nat)
    ensures c <= |keys|
  {
    if keys == [] then 0
    else CountLess(keys[..|keys| - 1], v) + if keys[|keys| - 1] < v then 1 else 0
  }

  function CountEqual(keys: seq<int>, v: int): (c: nat)
    ensures c <= |keys|
  {
    if keys == [] then 0
    else CountEqual(keys[..|keys| - 1], v) + if keys[|keys| - 1] == v then 1 else 0
  }

  /** Where a stable sort by `keys` puts element j. */
  function Place(keys: seq<int>, j: int): nat
    requires 0 <= j < |keys|
  {
    CountLess(keys, keys[j]) + CountEqual(keys[..j], keys[j])
  }

  lemma {:induction false} LessGrows(keys: seq<int>, v: int, w: int)
    requires v < w
    ensures CountLess(keys, v) + CountEqual(keys, v) <= CountLess(keys, w)
  {
    if keys != [] {
      LessGrows(keys[..|keys| - 1], v, w);
    }
  }

  lemma {:induction false} LessNext(keys: seq<int>, v: int)
    ensures CountLess(keys, v) + CountEqual(keys, v) == CountLess(keys, v + 1)
  {
    if keys != [] {
      LessNext(keys[..|keys| - 1], v);
    }
  }

  lemma {:induction false} EqualGrows(keys: seq<int>, i: nat, j: nat, v: int)
    requires i < j <= |keys| && keys[i] == v
    ensures CountEqual(keys[..i], v) < CountEqual(keys[..j], v)
  {
    assert keys[..j][..j - 1] == keys[..j - 1];
    if i < j - 1 {
      EqualGrows(keys, i, j - 1, v);
    }
  }

  lemma {:induction false} AllCounted(keys: seq<int>, v: int)
    ensures CountLess(keys, v) + CountEqual(keys, v) <= |keys|
  {
    if keys != [] {
      AllCounted(keys[..|keys| - 1], v);
    }
  }

  lemma PlaceBound(keys: seq<int>, j: int)
    requires 0 <= j < |keys|
    ensures Place(keys, j) < |keys|
  {
    EqualGrows(keys, j, |keys|, keys[j]);
    assert keys[..|keys|] == keys;
    AllCounted(keys, keys[j]);
  }

  lemma PlaceLess(keys: seq<int>, i: int, j: int)
    requires 0 <= i < |keys| && 0 <= j < |keys|
    requires keys[i] < keys[j] || (keys[i] == keys[j] && i < j)
    ensures Place(keys, i) < Place(keys, j)
  {
    if keys[i] < keys[j] {
      EqualGrows(keys, i, |keys|, keys[i]);
      assert keys[..|keys|] == keys;
      LessGrows(keys, keys[i], keys[j]);
    } else {
      EqualGrows(keys, i, j, keys[i]);
    }
  }

  /** The places are in the order of the keys, and equal keys keep their order. */
  lemma PlaceOrder(keys: seq<int>, i: int, j: int)
    requires 0 <= i < |keys| && 0 <= j < |keys|
    ensures Place(keys, i) < Place(keys, j) <==> keys[i] < keys[j] || (keys[i] == keys[j] && i < j)
  {
    if keys[i] < keys[j] || (keys[i] == keys[j] && i < j) {
      PlaceLess(keys, i, j);
    } else if i != j {
      PlaceLess(keys, j, i);
    }
  }

  function Places(keys: seq<int>): (p: seq<int>)
    ensures |p| == |keys|
  {
    seq(|keys|, j requires 0 <= j < |keys| => Place(keys, j))
  }

  /** The places are a bijection on 0, ..., n - 1. */
  lemma PlacesPermute(keys: seq<int>)
    ensures IsPermutation(Places(keys))
  {
    var p := Places(keys);
    forall i | 0 <= i < |p|
      ensures 0 <= p[i] < |p|
    {
      PlaceBound(keys, i);
    }
    forall i, j | 0 <= i < j < |p|
      ensures p[i] != p[j]
    {
      PlaceOrder(keys, i, j);
      PlaceOrder(keys, j, i);
    }
  }

  /** `t` is `a`, sorted stably by `keys`. */
  ghost predicate StablySorted(a: seq<int>, keys: seq<int>, t: seq<int>) {
    && |a| == |keys| == |t|
    && forall j | 0 <= j < |a| :: Place(keys, j) < |t| && t[Place(keys, j)] == a[j]
  }

  lemma StablePermutes(a: seq<int>, keys: seq<int>, t: seq<int>)
    requires StablySorted(a, keys, t)
    ensures multiset(t) == multiset(a)
  {
    PlacesPermute(keys);
    Rearranged(a, t, Places(keys));
  }

  /** Neighbours in the sorted order come from positions in the order of their keys. */
  lemma StableOrder(a: seq<int>, keys: seq<int>, t: seq<int>, u: int, v: int) returns (i: int, j: int)
    requires StablySorted(a, keys, t) && 0 <= u < v < |t|
    ensures 0 <= i < |a| && 0 <= j < |a| && t[u] == a[i] && t[v] == a[j]
    ensures keys[i] < keys[j] || (keys[i] == keys[j] && i < j)
  {
    PlacesPermute(keys);
    i := Surjective(Places(keys), u);
    j := Surjective(Places(keys), v);
    PlaceOrder(keys, i, j);
  }

  ghost predicate Sorted(a: seq<int>) {
    forall i, j | 0 <= i < j < |a| :: a[i] <= a[j]
  }

  lemma StableIsSorted(a: seq<int>, t: seq<int>)
    requires StablySorted(a, a, t)
    ensures Sorted(t)
  {
    forall u, v | 0 <= u < v < |t|
      ensures t[u] <= t[v]
    {
      var i, j := StableOrder(a, a, t, u, v);
    }
  }

  // ----- radix sort -----

  function Pow10(d: nat): (p: int)
    ensures p > 0
  {
    if d == 0 then 1 else 10 * Pow10(d - 1)
  }

  lemma {:induction false} Pow10Monotone(c: nat, d: nat)
    requires c <= d
    ensures Pow10(c) <= Pow10(d)
  {
    if c < d {
      Pow10Monotone(c, d - 1);
    }
  }

  /** How many decimal digits the longest element has. */
  method MaxBits(a: array<int>) returns (d: nat)
    requires forall i | 0 <= i < a.Length :: a[i] >= 0
    ensures forall i | 0 <= i < a.Length :: a[i] < Pow10(d)
    ensures d == 0 <==> a.Length == 0
    ensures d > 1 ==> exists i :: 0 <= i < a.Length && a[i] >= Pow10(d - 1)
  {
    d := 0;
    for i := 0 to a.Length
      invariant forall k | 0 <= k < i :: a[k] < Pow10(d)
      invariant d == 0 <==> i == 0
      invariant d > 1 ==> exists k :: 0 <= k < i && a[k] >= Pow10(d - 1)
    {
      var b: nat := 1;
      var r := a[i];
      while r / 10 > 0
        invariant b >= 1 && r >= 0 && (b > 1 ==> r > 0)
        invariant r * Pow10(b - 1) <= a[i] < (r + 1) * Pow10(b - 1)
        decreases r
      {
        DigitStep(a[i], r, Pow10(b - 1));
        b := b + 1;
        r := r / 10;
      }
      LastDigit(a[i], r, Pow10(b - 1));
      if d < b {
        Pow10Monotone(d, b);
        d := b;
      } else {
        Pow10Monotone(b, d);
      }
    }
  }

  lemma DigitStep(x: int, r: int, p: int)
    requires r * p <= x < (r + 1) * p && p > 0 && r >= 0
    ensures (r / 10) * (10 * p) <= x < (r / 10 + 1) * (10 * p)
  {
    var q, e := r / 10, r % 10;
    assert r * p == q * (10 * p) + e * p;
    assert (r + 1) * p == r * p + p;
    assert 0 <= e * p <= 9 * p;
    assert (q + 1) * (10 * p) == q * (10 * p) + 10 * p;
  }

  lemma LastDigit(x: int, r: int, p: int)
    requires r * p <= x < (r + 1) * p && p > 0 && 0 <= r < 10
    ensures x < 10 * p && (r > 0 ==> x >= p)
  {
    assert (r + 1) * p <= 10 * p;
    assert r > 0 ==> r * p >= p;
  }

  function Digit(x: int, adix: int): int
    requires x >= 0 && adix > 0
    ensures 0 <= Digit(x, adix) < 10
  {
    (x / adix) % 10
  }

  ghost function Digits(a: seq<int>, adix: int): (k: seq<int>)
    requires adix > 0 && forall i | 0 <= i < |a| :: a[i] >= 0
    ensures |k| == |a| && forall i | 0 <= i < |a| :: k[i] == Digit(a[i], adix)
  {
    seq(|a|, i requires 0 <= i < |a| => Digit(a[i], adix))
  }

  ghost predicate SortedMod(a: seq<int>, m: int)
    requires m > 0
  {
    forall i, j | 0 <= i < j < |a| :: a[i] % m <= a[j] % m
  }

  /** x modulo 10 m, from the digit at m and the part below. */
  lemma ModDigit(x: int, m: int)
    requires x >= 0 && m > 0
    ensures x % (10 * m) == Digit(x, m) * m + x % m
  {
    var q, r := x / m, x % m;
    var h, d := q / 10, q % 10;
    MulDist(h * 10, d, m);
    MulAssoc(h, 10, m);
    MulMonotone(d, 9, m);
    MulMonotone(0, d, m);
    DivModUnique(x, 10 * m, h, d * m + r);
  }

  /** A stable pass by the next digit orders the elements by one more digit. */
  lemma PassOrders(a: seq<int>, t: seq<int>, m: int)
    requires m > 0 && forall i | 0 <= i < |a| :: a[i] >= 0
    requires SortedMod(a, m) && StablySorted(a, Digits(a, m), t)
    ensures SortedMod(t, 10 * m)
  {
    var keys := Digits(a, m);
    forall u, v | 0 <= u < v < |t|
      ensures t[u] % (10 * m) <= t[v] % (10 * m)
    {
      var i, j := StableOrder(a, keys, t, u, v);
      ModDigit(a[i], m);
      ModDigit(a[j], m);
      DigitDecides(keys[i], keys[j], a[i] % m, a[j] % m, m);
    }
  }

  lemma DigitDecides(d: int, e: int, r: int, s: int, m: int)
    requires m > 0 && 0 <= r < m && 0 <= s < m && (d < e || (d == e && r <= s))
    ensures d * m + r <= e * m + s
  {
    if d < e {
      assert (d + 1) * m <= e * m;
      assert (d + 1) * m == d * m + m;
    }
  }

  /** Fills temp from the back: every element goes to its place. */
  method Distribute(a: array<int>, adix: int, temp: array<int>, count: array<int>, ghost keys: seq<int>)
    requires adix > 0 && forall i | 0 <= i < a.Length :: a[i] >= 0
    requires temp.Length == a.Length && count.Length == 10 && temp != a && count != a && count != temp
    requires keys == Digits(a[..], adix)
    requires forall k | 0 <= k < 10 :: count[k] == CountLess(keys, k) + CountEqual(keys[..a.Length], k)
    modifies temp, count
    ensures StablySorted(a[..], keys, temp[..])
  {
    ghost var places := Places(keys);
    PlacesPermute(keys);
    var i := a.Length - 1;
    while i >= 0
      modifies temp, count
      invariant -1 <= i < a.Length
      invariant forall k | 0 <= k < 10 :: count[k] == CountLess(keys, k) + CountEqual(keys[..i + 1], k)
      invariant forall j {:trigger places[j]} | i < j < a.Length :: temp[places[j]] == a[j]
    {
      var k := Digit(a[i], adix);
      assert keys[..i + 1][..i] == keys[..i];
      count[k] := count[k] - 1;
      assert count[k] == places[i];
      temp[count[k]] := a[i];
      i := i - 1;
    }
    assert forall j | 0 <= j < a.Length :: Place(keys, j) == places[j];
  }

  /** One pass of radix_sort: a counting sort by one digit. */
  method CountingPass(a: array<int>, adix: int, temp: array<int>, count: array<int>)
    requires adix > 0 && forall i | 0 <= i < a.Length :: a[i] >= 0
    requires temp.Length == a.Length && count.Length == 10 && temp != a && count != a && count != temp
    modifies a, temp, count
    ensures StablySorted(old(a[..]), Digits(old(a[..]), adix), a[..])
  {
    ghost var keys := Digits(a[..], adix);
    CountDigits(a, adix, count, keys);
    Distribute(a, adix, temp, count, keys);
    CopyInto(a, temp);
  }

  method CopyInto(a: array<int>, temp: array<int>)
    requires temp.Length == a.Length && temp != a
    modifies a
    ensures a[..] == temp[..]
  {
    for j := 0 to a.Length
      invariant a[..j] == temp[..j]
    {
      a[j] := temp[j];
    }
  }

  /** The counts of the digits, added up. */
  method CountDigits(a: array<int>, adix: int, count: array<int>, ghost keys: seq<int>)
    requires adix > 0 && forall i | 0 <= i < a.Length :: a[i] >= 0
    requires count.Length == 10 && count != a && keys == Digits(a[..], adix)
    modifies count
    ensures forall k | 0 <= k < 10 :: count[k] == CountLess(keys, k) + CountEqual(keys[..a.Length], k)
  {
    for i := 0 to 10
      invariant forall k | 0 <= k < i :: count[k] == 0
    {
      count[i] := 0;
    }
    for i := 0 to a.Length
      invariant forall k | 0 <= k < 10 :: count[k] == CountEqual(keys[..i], k)
    {
      var k := Digit(a[i], adix);
      assert keys[..i + 1][..i] == keys[..i];
      count[k] := count[k] + 1;
    }
    assert keys[..a.Length] == keys;
    NoneBelow(keys);
    for i := 1 to 10
      invariant forall k | 0 <= k < i :: count[k] == CountLess(keys, k) + CountEqual(keys, k)
      invariant forall k | i <= k < 10 :: count[k] == CountEqual(keys, k)
    {
      LessNext(keys, i - 1);
      count[i] := count[i] + count[i - 1];
    }
  }

  lemma {:induction false} NoneBelow(keys: seq<int>)
    requires forall i | 0 <= i < |keys| :: keys[i] >= 0
    ensures CountLess(keys, 0) == 0
  {
    if keys != [] {
      NoneBelow(keys[..|keys| - 1]);
    }
  }

  lemma {:induction false} SameElements(a: seq<int>, t: seq<int>)
    requires multiset(a) == multiset(t) && forall i | 0 <= i < |a| :: a[i] >= 0
    ensures forall i | 0 <= i < |t| :: t[i] >= 0
    ensures |a| == |t|
  {
    forall i | 0 <= i < |t|
      ensures t[i] >= 0
    {
      assert t[i] in multiset(t);
      assert t[i] in a;
    }
    assert |multiset(a)| == |a| && |multiset(t)| == |t|;
  }

  /** A pass keeps the elements and brings one more digit into order. */
  method SortPass(a: array<int>, adix: int, temp: array<int>, count: array<int>)
    requires adix > 0 && SortedMod(a[..], adix) && forall i | 0 <= i < a.Length :: a[i] >= 0
    requires temp.Length == a.Length && count.Length == 10 && temp != a && count != a && count != temp
    modifies a, temp, count
    ensures multiset(a[..]) == multiset(old(a[..])) && SortedMod(a[..], 10 * adix)
    ensures forall i | 0 <= i < a.Length :: a[i] >= 0
  {
    ghost var before := a[..];
    CountingPass(a, adix, temp, count);
    StablePermutes(before, Digits(before, adix), a[..]);
    SameElements(before, a[..]);
    PassOrders(before, a[..], adix);
    assert forall i | 0 <= i < a.Length :: a[i] == a[..][i];
  }

  /** radix_sort */
  method RadixSort(a: array<int>)
    requires forall i | 0 <= i < a.Length :: a[i] >= 0
    modifies a
    ensures Sorted(a[..]) && multiset(a[..]) == multiset(old(a[..]))
  {
    var d := MaxBits(a);
    var temp := new int[a.Length];
    var count := new int[10];
    var adix := 1;
    ghost var was := a[..];
    assert forall i | 0 <= i < |was| :: 0 <= was[i] < Pow10(d);
    var b: nat := 1;
    while b <= d
      invariant 1 <= b <= d + 1 && adix == Pow10(b - 1)
      invariant multiset(a[..]) == multiset(was) && forall i | 0 <= i < a.Length :: a[i] >= 0
      invariant SortedMod(a[..], adix)
    {
      SortPass(a, adix, temp, count);
      adix := adix * 10;
      b := b + 1;
    }
    BelowModulus(was, a[..], adix);
  }

  /** All digits are used up: the order modulo 10^d is the order. */
  lemma BelowModulus(was: seq<int>, a: seq<int>, m: int)
    requires m > 0 && multiset(was) == multiset(a) && SortedMod(a, m)
    requires forall i | 0 <= i < |was| :: 0 <= was[i] < m
    ensures Sorted(a)
  {
    forall i | 0 <= i < |a|
      ensures a[i] % m == a[i]
    {
      assert a[i] in multiset(a);
      assert a[i] in was;
      DivModUnique(a[i], m, 0, a[i]);
    }
  }

  // ----- rank sort -----

  lemma {:induction false} PlaceInLonger(keys: seq<int>, x: int, j: int)
    requires 0 <= j < |keys|
    ensures Place(keys + [x], j) == Place(keys, j) + if x < keys[j] then 1 else 0
  {
    assert (keys + [x])[..|keys|] == keys && (keys + [x])[..j] == keys[..j];
  }

  lemma PlaceOfLast(keys: seq<int>, x: int)
    ensures Place(keys + [x], |keys|) == CountLess(keys, x) + CountEqual(keys, x)
  {
    assert (keys + [x])[..|keys|] == keys;
  }

  /** rank: the stable rank of every element, by comparing all pairs. */
  method Rank(arr: array<int>, r: array<int>)
    requires r.Length == arr.Length && r != arr
    modifies r
    ensures r[..] == Places(arr[..])
  {
    ghost var keys := arr[..];
    for i := 0 to arr.Length
      invariant forall k | 0 <= k < i :: r[k] == 0
    {
      r[i] := 0;
    }
    if arr.Length > 0 {
      assert keys[..1] == [] + [keys[0]];
      PlaceOfLast([], keys[0]);
    }
    var i := 1;
    while i < arr.Length
      modifies r
      invariant 1 <= i && (arr.Length > 0 ==> i <= arr.Length) && (arr.Length == 0 ==> i == 1)
      invariant arr.Length > 0 ==> Ranked(keys[..i], r[..])
      invariant forall k | i <= k < arr.Length :: r[k] == 0
    {
      RankOne(arr, r, i);
      i := i + 1;
    }
    assert keys[..|keys|] == keys;
    assert forall k | 0 <= k < |keys| :: r[..][k] == Place(keys, k);
  }

  lemma CountNext(before: seq<int>, j: int, x: int)
    requires 0 <= j < |before|
    ensures CountLess(before[..j + 1], x) + CountEqual(before[..j + 1], x)
            == CountLess(before[..j], x) + CountEqual(before[..j], x) + if before[j] <= x then 1 else 0
  {
    assert before[..j + 1][..j] == before[..j];
  }

  /** The first elements of r are the ranks of `keys`. */
  ghost predicate Ranked(keys: seq<int>, r: seq<int>) {
    |keys| <= |r| && forall k {:trigger r[k]} | 0 <= k < |keys| :: r[k] == Place(keys, k)
  }

  /** One more element: the greater ones before it move up by one. */
  lemma RankedWithLast(before: seq<int>, x: int, base: seq<int>, r: seq<int>)
    requires |before| < |base| == |r| && Ranked(before, base)
    requires forall k {:trigger r[k]} | 0 <= k < |before| :: r[k] == base[k] + if x < before[k] then 1 else 0
    requires r[|before|] == CountLess(before, x) + CountEqual(before, x)
    ensures Ranked(before + [x], r)
  {
    forall k | 0 <= k < |before| + 1
      ensures r[k] == Place(before + [x], k)
    {
      if k < |before| {
        PlaceInLonger(before, x, k);
      } else {
        PlaceOfLast(before, x);
      }
    }
  }

  /** The inner loop: element i against all before it. */
  method RankOne(arr: array<int>, r: array<int>, i: int)
    requires r.Length == arr.Length && r != arr && 1 <= i < arr.Length
    requires Ranked(arr[..i], r[..]) && forall k | i <= k < arr.Length :: r[k] == 0
    modifies r
    ensures Ranked(arr[..i + 1], r[..]) && forall k | i < k < arr.Length :: r[k] == 0
  {
    ghost var before, x, base := arr[..i], arr[i], r[..];
    assert arr[..i + 1] == before + [x];
    for j := 0 to i
      modifies r
      invariant forall k | 0 <= k < j :: r[k] == base[k] + if x < before[k] then 1 else 0
      invariant forall k | j <= k < arr.Length && k != i :: r[k] == base[k]
      invariant r[i] == CountLess(before[..j], x) + CountEqual(before[..j], x)
    {
      CountNext(before, j, x);
      if arr[j] <= arr[i] {
        r[i] := r[i] + 1;
      } else {
        r[j] := r[j] + 1;
      }
    }
    assert before[..i] == before;
    RankedWithLast(before, x, base, r[..]);
  }

  /** The sorted sequence, from a permutation that says where the elements go. */
  lemma {:induction false} Scatter(a: seq<int>, p: seq<int>) returns (t: seq<int>)
    requires |p| == |a| && IsPermutation(p)
    ensures |t| == |a| && forall j | 0 <= j < |a| :: t[p[j]] == a[j]
  {
    t := [];
    while |t| < |a|
      invariant |t| <= |a| && forall j | 0 <= j < |a| && p[j] < |t| :: t[p[j]] == a[j]
    {
      var k := Surjective(p, |t|);
      t := t + [a[k]];
    }
  }

  /** How many positions are not fixed. */
  function Moved(r: seq<int>): nat {
    if r == [] then 0 else Moved(r[..|r| - 1]) + if r[|r| - 1] != |r| - 1 then 1 else 0
  }

  lemma {:induction false} MovedUpdate(r: seq<int>, i: int, v: int)
    requires 0 <= i < |r|
    ensures Moved(r[i := v]) == Moved(r) - (if r[i] != i then 1 else 0) + (if v != i then 1 else 0)
  {
    var n := |r| - 1;
    if i < n {
      MovedUpdate(r[..n], i, v);
      assert r[i := v][..n] == r[..n][i := v];
    } else {
      assert r[i := v][..n] == r[..n];
    }
  }

  function Swapped(s: seq<int>, i: int, j: int): (t: seq<int>)
    requires 0 <= i < |s| && 0 <= j < |s|
    ensures |t| == |s| && t[i] == s[j] && t[j] == s[i] && forall k | 0 <= k < |s| && k != i && k != j :: t[k] == s[k]
  {
    s[i := s[j]][j := s[i]]
  }

  /** Swapping an element to its place keeps the permutation and fixes one more position. */
  lemma SwapFixes(r: seq<int>, i: int)
    requires IsPermutation(r) && 0 <= i < |r| && r[i] != i
    ensures IsPermutation(Swapped(r, i, r[i])) && Moved(Swapped(r, i, r[i])) < Moved(r)
  {
    var t := r[i];
    assert r[t] != t;
    MovedUpdate(r, i, r[t]);
    MovedUpdate(r[i := r[t]], t, t);
  }

  /** rank_sort: sorts in place by following the cycles of the ranks. */
  method RankSort(arr: array<int>)
    modifies arr
    ensures StablySorted(old(arr[..]), old(arr[..]), arr[..])
    ensures Sorted(arr[..]) && multiset(arr[..]) == multiset(old(arr[..]))
  {
    var r := new int[arr.Length];
    Rank(arr, r);
    ghost var was := arr[..];
    PlacesPermute(was);
    ghost var target := Scatter(was, Places(was));
    var i := 0;
    while i < arr.Length
      invariant 0 <= i <= arr.Length && Assigned(arr[..], r[..], target)
      invariant forall k | 0 <= k < i :: r[k] == k
    {
      FollowCycle(arr, r, i, target);
      i := i + 1;
    }
    assert arr[..] == target;
    StableIsSorted(was, target);
    StablePermutes(was, was, target);
  }

  /** r still says where every element of arr belongs. */
  ghost predicate Assigned(arr: seq<int>, r: seq<int>, target: seq<int>) {
    |arr| == |r| == |target| && IsPermutation(r) && forall k | 0 <= k < |arr| :: arr[k] == target[r[k]]
  }

  /** The inner loop of rank_sort: swaps until the right element has come to position i. */
  method FollowCycle(arr: array<int>, r: array<int>, i: int, ghost target: seq<int>)
    requires r != arr && 0 <= i < arr.Length && Assigned(arr[..], r[..], target)
    requires forall k | 0 <= k < i :: r[k] == k
    modifies arr, r
    ensures Assigned(arr[..], r[..], target) && forall k | 0 <= k <= i :: r[k] == k
  {
    while r[i] != i
      invariant Assigned(arr[..], r[..], target) && forall k | 0 <= k < i :: r[k] == k
      decreases Moved(r[..])
    {
      var t := r[i];
      ghost var arr0, r0 := arr[..], r[..];
      SwapFixes(r0, i);
      arr[i], arr[t] := arr[t], arr[i];
      r[i], r[t] := r[t], r[i];
      assert r[..] == Swapped(r0, i, t) && arr[..] == Swapped(arr0, i, t);
      assert r[t] == t;
    }
  }
}
