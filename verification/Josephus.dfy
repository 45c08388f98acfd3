/**
 The elimination game of algorithms/joseph_ring.cc: people stand in a circle, and every m-th of
 those who are left goes out, until one is left. Three programs play it: a circular list, an array
 of marks, and the closed form f1, which does not play at all.

 The rules are the functions Survivor and Order on the circle, seen from the person who is counted
 next; each program is proved to leave the person that they leave.
 */
module Josephus {
  import opened Arithmetic

  /** The circle, from the person who is counted next. */
  type Circle = c: seq<int> | c != [] witness [0]

  /** The circle after the r-th person (counted from 1) has gone out. */
  function WithoutNth(c: Circle, r: nat): Circle
    requires |c| >= 2 && r >= 1
  {
    var j := (r - 1) % |c|;
    c[j + 1..] + c[..j]
  }

  /** The one who is left when the r-th person goes out first and then every m-th. */
  function Survivor(c: Circle, r: nat, m: nat): int
    requires r >= 1 && m >= 1
    decreases |c|
  {
    if |c| == 1 then c[0] else Survivor(WithoutNth(c, r), m, m)
  }

  /** Those who go out, in that order. */
  function Order(c: Circle, r: nat, m: nat): seq<int>
    requires r >= 1 && m >= 1
    decreases |c|
  {
    if |c| == 1 then [] else [c[(r - 1) % |c|]] + Order(WithoutNth(c, r), m, m)
  }

  function People(n: nat): (s: seq<int>)
    ensures |s| == n && forall i | 0 <= i < n :: s[i] == i + 1
  {
    seq(n, i => i + 1)
  }

  // ----- the closed form -----

  /** The place of the survivor in a circle of n. */
  function Place(n: nat, m: nat): (r: nat)
    requires n >= 1
    ensures r < n
  {
    if n == 1 then 0 else (Place(n - 1, m) + m) % n
  }

  /** Position x of the smaller circle is position (x + r) mod n of the larger one. */
  lemma WithoutNthAt(c: Circle, r: nat, x: nat)
    requires |c| >= 2 && r >= 1 && x < |c| - 1
    ensures WithoutNth(c, r)[x] == c[(x + r) % |c|]
  {
    var n, q, j := |c|, (r - 1) / |c|, (r - 1) % |c|;
    if j + 1 + x < n {
      DivModUnique(x + r, n, q, j + 1 + x);
    } else {
      MulDist(q, 1, n);
      DivModUnique(x + r, n, q + 1, j + 1 + x - n);
    }
  }

  /** The survivor stands where the recurrence says, whatever the names of the people are. */
  lemma {:induction false} SurvivorPlace(c: Circle, m: nat)
    requires m >= 1
    ensures Survivor(c, m, m) == c[Place(|c|, m)]
    decreases |c|
  {
    if |c| > 1 {
      SurvivorPlace(WithoutNth(c, m), m);
      WithoutNthAt(c, m, Place(|c| - 1, m));
    }
  }

  /** f1 */
  method ClosedForm(n: nat, m: nat) returns (left: int)
    requires n >= 1 && m >= 1
    ensures left == Survivor(People(n), m, m)
  {
    var r := 0;
    var i := 2;
    while i <= n
      invariant 2 <= i <= n + 1 && r == Place(i - 1, m)
    {
      PlaceStep(i, m);
      r := (r + m) % i;
      i := i + 1;
    }
    PlaceOfSurvivor(n, m);
    left := r + 1;
  }

  lemma PlaceOfSurvivor(n: nat, m: nat)
    requires n >= 1 && m >= 1
    ensures Survivor(People(n), m, m) == Place(n, m) + 1
  {
    SurvivorPlace(People(n), m);
  }

  lemma PlaceStep(i: nat, m: nat)
    requires i >= 2
    ensures Place(i, m) == (Place(i - 1, m) + m) % i
  {
  }

  // ----- one person is counted -----

  function Next(c: Circle): Circle {
    c[1..] + [c[0]]
  }

  /** Whoever is counted and stays in goes to the end of the circle. */
  lemma CountOne(c: Circle, r: nat)
    requires |c| >= 2 && r >= 2
    ensures WithoutNth(Next(c), r - 1) == WithoutNth(c, r)
    ensures Next(c)[(r - 2) % |c|] == c[(r - 1) % |c|]
  {
    var n, q, j := |c|, (r - 1) / |c|, (r - 1) % |c|;
    var d := Next(c);
    if j >= 1 {
      DivModUnique(r - 2, n, q, j - 1);
      assert d[j..] + d[..j - 1] == c[j + 1..] + c[..j];
    } else {
      MulDist(q, 1, n);
      DivModUnique(r - 2, n, q - 1, n - 1);
      assert d[n..] + d[..n - 1] == c[1..] + c[..0];
    }
  }

  lemma StaysIn(c: Circle, r: nat, m: nat)
    requires r >= 2 && m >= 1
    ensures Survivor(Next(c), r - 1, m) == Survivor(c, r, m)
    ensures Order(Next(c), r - 1, m) == Order(c, r, m)
  {
    if |c| >= 2 {
      CountOne(c, r);
    }
  }

  lemma GoesOut(c: Circle, m: nat)
    requires |c| >= 2 && m >= 1
    ensures Survivor(c, 1, m) == Survivor(c[1..], m, m)
    ensures Order(c, 1, m) == [c[0]] + Order(c[1..], m, m)
  {
    assert WithoutNth(c, 1) == c[1..];
  }

  // ----- the array of marks -----

  function NonZero(s: seq<int>): seq<int> {
    if s == [] then [] else (if s[0] != 0 then [s[0]] else []) + NonZero(s[1..])
  }

  lemma {:induction false} NonZeroAppend(s: seq<int>, t: seq<int>)
    ensures NonZero(s + t) == NonZero(s) + NonZero(t)
  {
    if s == [] {
      assert s + t == t;
    } else {
      NonZeroAppend(s[1..], t);
      assert (s + t)[1..] == s[1..] + t && (s + t)[0] == s[0];
      var first := if s[0] != 0 then [s[0]] else [];
      assert first + (NonZero(s[1..]) + NonZero(t)) == (first + NonZero(s[1..])) + NonZero(t);
    }
  }

  lemma {:induction false} AllNonZero(s: seq<int>)
    requires forall i | 0 <= i < |s| :: s[i] != 0
    ensures NonZero(s) == s
  {
    if s != [] {
      AllNonZero(s[1..]);
    }
  }

  lemma {:induction false} OneNonZero(s: seq<int>, k: int)
    requires 0 <= k < |s| && s[k] != 0 && |NonZero(s)| == 1
    ensures NonZero(s) == [s[k]]
  {
    assert s == s[..k] + [s[k]] + s[k + 1..];
    NonZeroAppend(s[..k] + [s[k]], s[k + 1..]);
    NonZeroAppend(s[..k], [s[k]]);
  }

  /** The array, from index i round. */
  function Around(s: seq<int>, i: int): seq<int>
    requires 0 <= i < |s|
  {
    s[i..] + s[..i]
  }

  lemma AroundNext(s: seq<int>, i: int, i': int)
    requires 0 <= i < |s| && i' == if i + 1 == |s| then 0 else i + 1
    ensures Around(s, i') == Around(s, i)[1..] + [s[i]]
  {
  }

  /** The number of people who are out before the first who is in. */
  function Gap(s: seq<int>): nat {
    if s == [] || s[0] != 0 then 0 else 1 + Gap(s[1..])
  }

  lemma {:induction false} GapAppend(s: seq<int>, x: int)
    requires NonZero(s) != []
    ensures Gap(s + [x]) == Gap(s)
  {
    if s[0] == 0 {
      GapAppend(s[1..], x);
      assert (s + [x])[1..] == s[1..] + [x];
    }
  }

  /** An index that holds no one. */
  lemma SkipZero(s: seq<int>, i: int, i': int)
    requires 0 <= i < |s| && i' == (if i + 1 == |s| then 0 else i + 1) && s[i] == 0
    requires NonZero(Around(s, i)) != []
    ensures NonZero(Around(s, i')) == NonZero(Around(s, i))
    ensures Gap(Around(s, i')) < Gap(Around(s, i))
  {
    AroundNext(s, i, i');
    var a := Around(s, i);
    NonZeroAppend(a[1..], [s[i]]);
    assert NonZero(a) == NonZero(a[1..]);
    GapAppend(a[1..], s[i]);
  }

  /** An index that holds someone: who is counted, or goes out. */
  lemma PassOne(s: seq<int>, i: int, i': int)
    requires 0 <= i < |s| && i' == (if i + 1 == |s| then 0 else i + 1) && s[i] != 0
    ensures NonZero(Around(s, i)) != [] && NonZero(Around(s, i))[0] == s[i]
    ensures NonZero(Around(s, i')) == Next(NonZero(Around(s, i)))
    ensures NonZero(Around(s[i := 0], i')) == NonZero(Around(s, i))[1..]
  {
    var a, t := Around(s, i), s[i := 0];
    AroundNext(s, i, i');
    AroundNext(t, i, i');
    NonZeroAppend(a[1..], [s[i]]);
    NonZeroAppend(a[1..], [0]);
    assert NonZero([s[i]]) == [s[i]] && NonZero([0]) == [];
    assert Around(t, i)[1..] == a[1..];
  }

  /** The game after `kicked` have gone out: who is in stands in the array in order, and k of them
      have been counted since. */
  ghost predicate Playing(s: seq<int>, i: int, count: int, k: int, m: nat, kicked: seq<int>) {
    && 0 <= i < |s| && 0 <= k < m && 0 <= count < |s|
    && var c := NonZero(Around(s, i));
    && |c| == |s| - count
    && Survivor(c, m - k, m) == Survivor(People(|s|), m, m)
    && kicked + Order(c, m - k, m) == Order(People(|s|), m, m)
  }

  lemma CountStep(s: seq<int>, i: int, i': int, count: int, k: int, m: nat, kicked: seq<int>)
    requires Playing(s, i, count, k, m, kicked) && i' == (if i + 1 == |s| then 0 else i + 1) && s[i] != 0 && k + 1 < m
    ensures Playing(s, i', count, k + 1, m, kicked)
  {
    PassOne(s, i, i');
    StaysIn(NonZero(Around(s, i)), m - k, m);
  }

  lemma KickStep(s: seq<int>, i: int, i': int, count: int, m: nat, kicked: seq<int>)
    requires m >= 1 && Playing(s, i, count, m - 1, m, kicked) && count < |s| - 1
    requires i' == (if i + 1 == |s| then 0 else i + 1) && s[i] != 0
    ensures Playing(s[i := 0], i', count + 1, 0, m, kicked + [s[i]])
  {
    PassOne(s, i, i');
    var c := NonZero(Around(s, i));
    GoesOut(c, m);
    assert kicked + ([s[i]] + Order(c[1..], m, m)) == (kicked + [s[i]]) + Order(c[1..], m, m);
  }

  /** The people get the numbers from 1 on. */
  method Number(arr: array<int>)
    modifies arr
    ensures arr[..] == People(arr.Length)
  {
    var i := 0;
    while i < arr.Length
      invariant 0 <= i <= arr.Length
      invariant forall j | 0 <= j < i :: arr[j] == j + 1
    {
      arr[i] := i + 1;
      i := i + 1;
    }
  }

  /** The array version of main: arr[i] is 0 for whoever is out. The one who is left is the one the
      rules leave, and those who go out do so in the order of the rules. */
  method Simulate(arr: array<int>, m: nat) returns (left: int, kicked: seq<int>)
    requires arr.Length >= 1 && m >= 1
    modifies arr
    ensures left == Survivor(People(arr.Length), m, m)
    ensures kicked == Order(People(arr.Length), m, m)
  {
    var n := arr.Length;
    Number(arr);
    AllNonZero(People(n));
    assert Around(arr[..], 0) == People(n);
    kicked := [];
    var count, i, k := 0, 0, 0;
    while count < n - 1
      invariant Playing(arr[..], i, count, k, m, kicked)
      decreases n - count, m - k, Gap(Around(arr[..], i))
    {
      ghost var s := arr[..];
      ghost var i' := if i + 1 == n then 0 else i + 1;
      if arr[i] != 0 {
        k := k + 1;
        if k < m {
          CountStep(s, i, i', count, k - 1, m, kicked);
        }
      } else {
        SkipZero(s, i, i');
      }
      if k == m {
        KickStep(s, i, i', count, m, kicked);
        kicked := kicked + [arr[i]];
        arr[i] := 0;
        assert arr[..] == s[i := 0];
        k := 0;
        count := count + 1;
      }
      i := i + 1;
      if i == n {
        i := 0;
      }
    }
    left := FindLeft(arr, i);
  }

  /** The first index that is not 0. */
  method FindLeft(arr: array<int>, ghost at: int) returns (left: int)
    requires 0 <= at < arr.Length && |NonZero(Around(arr[..], at))| == 1
    ensures [left] == NonZero(Around(arr[..], at))
  {
    ghost var s := arr[..];
    NonZeroAppend(s[at..], s[..at]);
    NonZeroAppend(s[..at], s[at..]);
    assert s == s[..at] + s[at..];
    var i := 0;
    while i < arr.Length && arr[i] == 0
      invariant 0 <= i <= arr.Length
      invariant forall j | 0 <= j < i :: s[j] == 0
    {
      i := i + 1;
    }
    if i == arr.Length {
      AllZero(s);
    }
    OneNonZero(s, i);
    left := arr[i];
  }

  lemma {:induction false} AllZero(s: seq<int>)
    requires forall i | 0 <= i < |s| :: s[i] == 0
    ensures NonZero(s) == []
  {
    if s != [] {
      AllZero(s[1..]);
    }
  }

  // ----- the circular list -----

  /** The nodes c[0], c[1], ... are linked in a circle. */
  ghost predicate Linked(next: seq<int>, c: seq<int>) {
    && c != []
    && (forall t | 0 <= t < |c| :: 0 <= c[t] < |next|)
    && (forall t {:trigger next[c[t]]} | 0 <= t < |c| :: next[c[t]] == Next(c)[t])
    && (forall t, u | 0 <= t < u < |c| :: c[t] != c[u])
  }

  function Nodes(n: nat): (s: seq<int>)
    ensures |s| == n && forall i | 0 <= i < n :: s[i] == i
  {
    seq(n, i => i)
  }

  lemma LinkedNext(next: seq<int>, c: seq<int>)
    requires Linked(next, c)
    ensures Linked(next, Next(c)) && Next(c)[0] == next[c[0]]
  {
    var d := Next(c);
    assert forall t | 0 <= t < |d| :: d[t] == if t + 1 < |c| then c[t + 1] else c[0];
    forall t | 0 <= t < |d|
      ensures next[d[t]] == Next(d)[t]
    {
      var u := if t + 1 < |c| then t + 1 else 0;
      assert next[c[u]] == Next(c)[u];
    }
    assert next[c[0]] == Next(c)[0];
  }

  lemma WithoutSecond(c: Circle)
    requires |c| >= 2
    ensures WithoutNth(c, 2) == c[2..] + [c[0]]
  {
    assert 1 % |c| == 1 by { DivModUnique(1, |c|, 0, 1); }
    assert c[..1] == [c[0]];
  }

  lemma KickedLink(next: seq<int>, c: seq<int>, d: seq<int>, t: int)
    requires Linked(next, c) && |c| >= 2 && d == c[2..] + [c[0]] && 0 <= t < |d|
    ensures next[c[1]] == d[0] && d[t] == (if t + 2 < |c| then c[t + 2] else c[0])
    ensures next[c[0] := next[c[1]]][d[t]] == Next(d)[t]
  {
    assert next[c[1]] == Next(c)[1];
    if t + 1 < |d| {
      assert next[c[t + 2]] == Next(c)[t + 2];
    }
  }

  /** Unlinking the second node of the circle. */
  lemma LinkedKick(next: seq<int>, c: seq<int>)
    requires Linked(next, c) && |c| >= 2
    ensures next[c[0]] == c[1] && next[c[1]] == WithoutNth(c, 2)[0]
    ensures Linked(next[c[0] := next[c[1]]], WithoutNth(c, 2))
  {
    var d, next' := c[2..] + [c[0]], next[c[0] := next[c[1]]];
    WithoutSecond(c);
    assert next[c[0]] == Next(c)[0];
    KickedLink(next, c, d, 0);
    forall t {:trigger next'[d[t]]} | 0 <= t < |d|
      ensures next'[d[t]] == Next(d)[t]
    {
      KickedLink(next, c, d, t);
    }
  }

  /** The m that the list version plays with. */
  function Played(m: nat): nat {
    if m < 2 then 2 else m
  }

  /** list_create: node i is followed by node i + 1, the last one by the first. */
  method CreateList(next: array<int>)
    requires next.Length >= 1
    modifies next
    ensures Linked(next[..], Nodes(next.Length))
  {
    var i := 1;
    while i < next.Length
      invariant 1 <= i <= next.Length
      invariant forall j | 0 <= j < i - 1 :: next[j] == j + 1
    {
      next[i - 1] := i;
      i := i + 1;
    }
    next[next.Length - 1] := 0;
  }

  /** The list version of main. Node i has number i + 1. For m < 2 the inner loop does nothing, and
      the program plays the game of m == 2. */
  method PlayList(next: array<int>, m: nat) returns (left: int)
    requires next.Length >= 1
    modifies next
    ensures left == Survivor(People(next.Length), Played(m), Played(m))
  {
    CreateList(next);
    ghost var c: Circle := Nodes(next.Length);
    ghost var w := Survivor(c, Played(m), Played(m));
    SurvivorPlace(c, Played(m));
    SurvivorPlace(People(next.Length), Played(m));
    var iter := 0;
    LinkedNext(next[..], c);
    while iter != next[iter]
      invariant Linked(next[..], c) && iter == c[0] && next[iter] == Next(c)[0]
      invariant Survivor(c, Played(m), Played(m)) == w
      decreases |c|
    {
      iter, c := Walk(next, m, iter, c);
      LinkedKick(next[..], c);
      next[iter] := next[next[iter]];
      iter := next[iter];
      c := WithoutNth(c, 2);
      LinkedNext(next[..], c);
    }
    left := iter + 1;
  }

  /** The loop that counts on to the one before the person who goes out. */
  method Walk(next: array<int>, m: nat, start: int, ghost c0: Circle) returns (iter: int, ghost c: Circle)
    requires Linked(next[..], c0) && start == c0[0]
    ensures Linked(next[..], c) && iter == c[0] && |c| == |c0|
    ensures Survivor(c, 2, Played(m)) == Survivor(c0, Played(m), Played(m))
  {
    iter, c := start, c0;
    var i := 1;
    while i < m - 1
      invariant 1 <= i <= Played(m) - 1
      invariant Linked(next[..], c) && iter == c[0] && |c| == |c0|
      invariant Survivor(c, Played(m) + 1 - i, Played(m)) == Survivor(c0, Played(m), Played(m))
    {
      LinkedNext(next[..], c);
      StaysIn(c, Played(m) + 1 - i, Played(m));
      iter, c := next[iter], Next(c);
      i := i + 1;
    }
  }

  /** The greatest power of two that is at most n. */
  function Top(n: nat): (t: nat)
    requires n >= 1
    ensures t <= n < 2 * t
  {
    if n == 1 then 1 else if 2 * Top(n - 1) == n then n else Top(n - 1)
  }

  lemma SecondStep(n: int, t: int, p: int)
    requires 0 < t < n <= 2 * t && p == 2 * (n - 1 - t)
    ensures (p + 2) % n == if 2 * t == n then 0 else 2 * (n - t)
  {
    if 2 * t == n {
      DivModUnique(p + 2, n, 1, 0);
    } else {
      DivModUnique(p + 2, n, 0, p + 2);
    }
  }

  lemma {:induction false} EverySecond(n: nat)
    requires n >= 1
    ensures Place(n, 2) == 2 * (n - Top(n))
  {
    if n > 1 {
      EverySecond(n - 1);
      SecondStep(n, Top(n - 1), Place(n - 1, 2));
    }
  }

  lemma {:induction false} EveryFirst(n: nat)
    requires n >= 1
    ensures Place(n, 1) == n - 1
  {
    if n > 1 {
      EveryFirst(n - 1);
      DivModUnique(n - 1, n, 0, n - 1);
    }
  }

  /** The list plays by the rules when m >= 2, and with m == 1 it leaves the right person only when
      n + 1 is a power of two. */
  lemma ListAgrees(n: nat, m: nat)
    requires n >= 1 && m >= 1
    ensures Survivor(People(n), Played(m), Played(m)) == Survivor(People(n), m, m) <==> m >= 2 || n + 1 == 2 * Top(n)
  {
    SurvivorPlace(People(n), m);
    SurvivorPlace(People(n), Played(m));
    if m == 1 {
      EverySecond(n);
      EveryFirst(n);
    }
  }
}
