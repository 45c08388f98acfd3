/**
 Exact string matching in algorithms/str_match.cc: the naive matcher, the prefix function, and the
 Knuth-Morris-Pratt matcher that uses it. A string is what stands before its terminating '\0'.
 */
module StringMatch {
  type CString = s: string | '\0' !in s

  /** Reading a C string, where the index may be that of the terminator. */
  function At(s: CString, i: int): char
    requires 0 <= i <= |s|
  {
    if i < |s| then s[i] else '\0'
  }

  /** The pattern occurs in the target with shift s. */
  ghost predicate Occurs(t: string, p: string, s: int) {
    0 <= s && s + |p| <= |t| && t[s..s + |p|] == p
  }

  ghost predicate Ascending(s: seq<int>) {
    forall i, j | 0 <= i < j < |s| :: s[i] < s[j]
  }

  /** All the shifts with which the pattern occurs, each once, in ascending order. */
  ghost predicate AllShifts(shifts: seq<int>, t: string, p: string) {
    Ascending(shifts) && forall s :: s in shifts <==> Occurs(t, p, s)
  }

  lemma LastLargest(a: seq<int>)
    requires Ascending(a) && a != []
    ensures forall x :: x in a[..|a| - 1] <==> x in a && x != a[|a| - 1]
    ensures forall x | x in a :: x <= a[|a| - 1]
  {
    var n := |a| - 1;
    forall x | x in a && x != a[n]
      ensures x in a[..n]
    {
      var i :| 0 <= i < |a| && a[i] == x;
      assert a[..n][i] == x;
    }
  }

  lemma Append(a: seq<int>, x: int)
    requires Ascending(a) && forall y | y in a :: y < x
    ensures Ascending(a + [x]) && forall y :: y in a + [x] <==> y in a || y == x
  {
    assert forall i | 0 <= i < |a| :: a[i] in a;
  }

  /** There is only one such list. */
  lemma {:induction false} SameMembers(a: seq<int>, b: seq<int>)
    requires Ascending(a) && Ascending(b) && forall x :: x in a <==> x in b
    ensures a == b
  {
    assert a != [] ==> a[|a| - 1] in a && a[|a| - 1] in b;
    assert b != [] ==> b[|b| - 1] in b && b[|b| - 1] in a;
    if a != [] {
      var m, n := |a| - 1, |b| - 1;
      LastLargest(a);
      LastLargest(b);
      assert a[m] == b[n];
      forall x
        ensures x in a[..m] <==> x in b[..n]
      {
        assert x in a[..m] <==> x in a && x != a[m];
        assert x in b[..n] <==> x in b && x != b[n];
      }
      SameMembers(a[..m], b[..n]);
      assert a == a[..m] + [a[m]] && b == b[..n] + [b[n]];
    }
  }

  // ----- the naive matcher -----

  lemma Differs(t: string, p: string, s: int, i: int)
    requires 0 <= s && 0 <= i < |p| && (s + i < |t| ==> t[s + i] != p[i])
    ensures !Occurs(t, p, s)
  {
    assert s + |p| <= |t| ==> t[s..s + |p|][i] == t[s + i];
  }

  /** The inner loop of the naive matcher: does the pattern occur at `from`? It reports in the last
      round, and for an empty pattern there is no round. */
  method OccursAt(t: CString, p: CString, from: nat) returns (found: bool)
    requires from < |t|
    ensures found <==> p != "" && Occurs(t, p, from)
  {
    var tmp := from;
    var i := 0;
    found := false;
    while i < |p|
      invariant 0 <= i <= |p| && tmp == from + i && tmp <= |t|
      invariant forall x | 0 <= x < i :: t[from + x] == p[x]
      invariant found <==> i == |p| && p != ""
    {
      var c := At(t, tmp);
      tmp := tmp + 1;
      if c != p[i] {
        Differs(t, p, from, i);
        break;
      }
      if i == |p| - 1 {
        found := true;
      }
      i := i + 1;
    }
    if i == |p| {
      assert t[from..from + |p|] == p;
    }
  }

  /** NativeStrMatching */
  method Naive(t: CString, p: CString) returns (shifts: seq<int>)
    requires p != ""
    ensures AllShifts(shifts, t, p)
  {
    shifts := [];
    var tarLen := 0;
    while tarLen < |t|
      invariant 0 <= tarLen <= |t|
      invariant Ascending(shifts)
      invariant forall s :: s in shifts <==> s < tarLen && Occurs(t, p, s)
    {
      var found := OccursAt(t, p, tarLen);
      if found {
        Append(shifts, tarLen);
        shifts := shifts + [tarLen];
      }
      tarLen := tarLen + 1;
    }
  }

  // ----- the prefix function -----

  /** The first k characters of p are also the last k of the first e of t. */
  ghost predicate Match(t: string, e: int, p: string, k: int) {
    0 <= k <= |p| && k <= e <= |t| && forall x | 0 <= x < k :: p[x] == t[e - k + x]
  }

  /** The first k characters of p are also the last k of its first n, and are fewer. */
  ghost predicate IsBorder(p: string, n: int, k: int) {
    k < n && Match(p, n, p, k)
  }

  ghost predicate IsLongestBorder(p: string, n: int, k: int) {
    IsBorder(p, n, k) && forall j | IsBorder(p, n, j) :: j <= k
  }

  /** A match of one more character. */
  lemma LongerMatch(t: string, e: int, p: string, k: int)
    requires 0 <= e < |t| && 0 <= k < |p|
    ensures Match(t, e + 1, p, k + 1) <==> Match(t, e, p, k) && p[k] == t[e]
  {
    if Match(t, e + 1, p, k + 1) {
      forall x | 0 <= x < k
        ensures p[x] == t[e - k + x]
      {
        assert p[x] == t[e + 1 - (k + 1) + x];
      }
      assert p[k] == t[e + 1 - (k + 1) + k];
    }
    if Match(t, e, p, k) && p[k] == t[e] {
      forall x | 0 <= x < k + 1
        ensures p[x] == t[e + 1 - (k + 1) + x]
      {
        if x < k {
          assert p[x] == t[e - k + x];
        }
      }
    }
  }

  /** The shorter matches at an end are the borders of the longer one. */
  lemma ShorterMatch(t: string, e: int, p: string, k: int, j: int)
    requires Match(t, e, p, k) && j < k
    ensures Match(t, e, p, j) <==> IsBorder(p, k, j)
  {
    if 0 <= j {
      assert forall y | 0 <= y < k :: p[y] == t[e - k + y];
      if Match(t, e, p, j) {
        forall x | 0 <= x < j
          ensures p[x] == p[k - j + x]
        {
          assert p[k - j + x] == t[e - k + (k - j + x)];
        }
      }
      if IsBorder(p, k, j) {
        forall x | 0 <= x < j
          ensures p[x] == t[e - j + x]
        {
          assert p[k - j + x] == t[e - k + (k - j + x)];
        }
      }
    }
  }

  /** Entry n of the table is the length of the longest border of the first n characters. */
  ghost predicate IsPrefixFunction(f: seq<int>, p: string, n: int)
    requires n < |f|
  {
    forall k | 1 <= k <= n :: IsLongestBorder(p, k, f[k])
  }

  /** At e, no match of at most `bound` characters is longer than l. */
  ghost predicate NoneLonger(t: string, e: int, p: string, l: int, bound: int) {
    forall j | Match(t, e, p, j) && j <= bound :: j <= l
  }

  /** A match of l characters that the next character does not continue gives way to its border. */
  lemma FallBack(t: string, e: int, p: string, l: int, l': int, bound: int)
    requires 0 <= e < |t| && 0 < l < |p| && Match(t, e, p, l) && p[l] != t[e]
    requires IsLongestBorder(p, l, l')
    requires NoneLonger(t, e + 1, p, l + 1, bound)
    ensures Match(t, e, p, l') && NoneLonger(t, e + 1, p, l' + 1, bound)
  {
    ShorterMatch(t, e, p, l, l');
    var e' := e + 1;
    forall j | Match(t, e', p, j) && j <= bound
      ensures j <= l' + 1
    {
      if j >= 1 {
        LongerMatch(t, e, p, j - 1);
        if j - 1 < l {
          ShorterMatch(t, e, p, l, j - 1);
        }
      }
    }
  }

  /** The two lines that both loops share: from a match of l characters at e, such that no match of
      at most `bound` characters at e + 1 is longer than l + 1, to the longest of these. */
  method Advance(t: CString, e: int, p: CString, f: array<int>, l0: int, ghost bound: int) returns (l: int)
    requires 0 <= e < |t| && |p| < f.Length && 0 <= l0 < |p| && l0 < bound <= |p|
    requires IsPrefixFunction(f[..], p, l0) && Match(t, e, p, l0)
    requires NoneLonger(t, e + 1, p, l0 + 1, bound)
    ensures Match(t, e + 1, p, l) && l <= bound && l <= l0 + 1
    ensures NoneLonger(t, e + 1, p, l, bound)
  {
    l := l0;
    while l > 0 && p[l] != t[e]
      invariant 0 <= l <= l0 && Match(t, e, p, l)
      invariant NoneLonger(t, e + 1, p, l + 1, bound)
    {
      FallBack(t, e, p, l, f[l], bound);
      l := f[l];
    }
    LongerMatch(t, e, p, l);
    if p[l] == t[e] {
      l := l + 1;
    }
  }

  /** CptPfFunc */
  method PrefixFunction(p: CString, f: array<int>)
    requires f.Length >= 2 && |p| < f.Length
    modifies f
    ensures IsPrefixFunction(f[..], p, |p|)
  {
    f[1] := 0;
    var l := 0;
    var n := 2;
    assert p != "" ==> IsLongestBorder(p, 1, 0);
    while n < |p| + 1
      invariant 2 <= n && (n <= |p| + 1 || p == "")
      invariant p != "" ==> IsPrefixFunction(f[..], p, n - 1) && l == f[n - 1]
    {
      ghost var s := f[..];
      LongestNext(p, n, l);
      l := Advance(p, n - 1, p, f, l, n - 1);
      f[n] := l;
      assert forall k | 1 <= k < n :: f[..][k] == s[k];
      n := n + 1;
    }
  }

  /** A border of n characters is at most one longer than the longest border of n - 1. */
  lemma LongestNext(p: string, n: int, l: int)
    requires 2 <= n <= |p| && IsLongestBorder(p, n - 1, l)
    ensures NoneLonger(p, n, p, l + 1, n - 1)
  {
    forall j | Match(p, n, p, j) && j <= n - 1
      ensures j <= l + 1
    {
      if j >= 1 {
        LongerMatch(p, n - 1, p, j - 1);
        assert IsBorder(p, n - 1, j - 1);
      }
    }
  }

  // ----- the Knuth-Morris-Pratt matcher -----

  /** At index i, the longest match shorter than the pattern. */
  ghost predicate IsState(t: string, p: string, i: int, q: int) {
    Match(t, i, p, q) && q < |p| && forall j | Match(t, i, p, j) && j < |p| :: j <= q
  }

  lemma NextMatch(t: string, p: string, i: int, q: int)
    requires 0 <= i < |t| && IsState(t, p, i, q)
    ensures NoneLonger(t, i + 1, p, q + 1, |p|)
  {
    var e := i + 1;
    forall j | Match(t, e, p, j) && j <= |p|
      ensures j <= q + 1
    {
      if j >= 1 {
        LongerMatch(t, i, p, j - 1);
      }
    }
  }

  /** After a report the search goes on with the longest border of the pattern. */
  lemma AfterReport(t: string, p: string, i: int, q: int)
    requires p != "" && Match(t, i, p, |p|) && IsLongestBorder(p, |p|, q)
    ensures IsState(t, p, i, q)
  {
    ShorterMatch(t, i, p, |p|, q);
    forall j | Match(t, i, p, j) && j < |p|
      ensures j <= q
    {
      ShorterMatch(t, i, p, |p|, j);
    }
  }

  lemma OccursIsMatch(t: string, p: string, s: int)
    ensures 0 <= s ==> (Occurs(t, p, s) <==> Match(t, s + |p|, p, |p|))
  {
    if Occurs(t, p, s) {
      forall x | 0 <= x < |p|
        ensures p[x] == t[s + |p| - |p| + x]
      {
        assert t[s..s + |p|][x] == p[x];
      }
    }
    if 0 <= s && Match(t, s + |p|, p, |p|) {
      assert t[s..s + |p|] == p;
    }
  }

  /** KMPstrMatching, with the prefix table of the pattern. */
  method Kmp(t: CString, p: CString, f: array<int>) returns (shifts: seq<int>)
    requires p != "" && |p| < f.Length && IsPrefixFunction(f[..], p, |p|)
    ensures AllShifts(shifts, t, p)
  {
    shifts := [];
    var q := 0;
    var i := 0;
    while i < |t|
      invariant 0 <= i <= |t| && IsState(t, p, i, q)
      invariant Ascending(shifts)
      invariant forall s :: s in shifts <==> s + |p| <= i && Occurs(t, p, s)
    {
      NextMatch(t, p, i, q);
      q := Advance(t, i, p, f, q, |p|);
      OccursIsMatch(t, p, i + 1 - |p|);
      if q == |p| {
        Append(shifts, i - |p| + 1);
        shifts := shifts + [i - |p| + 1];
        AfterReport(t, p, i + 1, f[q]);
        q := f[q];
      }
      i := i + 1;
    }
  }

  // ----- the matcher as it is written, which never builds its table -----

  /** At i, the target is: characters that are not the first one of the pattern, and then q
      characters of the pattern. */
  ghost predicate FirstTry(t: string, p: string, i: int, q: int) {
    0 <= q < |p| && q <= i <= |t| && p[0] !in t[..i - q] && t[i - q..i] == p[..q]
  }

  /** The whole target is like this. */
  ghost predicate NeedsNoTable(t: string, p: string) {
    exists q :: FirstTry(t, p, |t|, q)
  }

  lemma FirstTryOn(t: string, p: string, i: int, q: int)
    requires FirstTry(t, p, i, q) && i < |t|
    ensures t[i] == p[q] && q + 1 < |p| ==> FirstTry(t, p, i + 1, q + 1)
    ensures t[i] != p[q] && q == 0 ==> FirstTry(t, p, i + 1, 0)
  {
    if t[i] == p[q] {
      assert t[i - q..i + 1] == t[i - q..i] + [t[i]] && p[..q + 1] == p[..q] + [p[q]];
    }
    assert t[..i + 1] == t[..i] + [t[i]];
  }

  lemma FirstTryAt(t: string, p: string, i: int, q: int)
    requires FirstTry(t, p, i, q)
    ensures forall x | 0 <= x < i - q :: t[x] != p[0]
    ensures forall x | i - q <= x < i :: t[x] == p[x - (i - q)]
  {
    forall x | 0 <= x < i - q
      ensures t[x] != p[0]
    {
      assert t[x] == t[..i - q][x];
    }
    forall x | i - q <= x < i
      ensures t[x] == p[x - (i - q)]
    {
      assert t[x] == t[i - q..i][x - (i - q)];
    }
  }

  /** Where the first try fails, or succeeds, the whole target is not like this. */
  lemma TableNeeded(t: string, p: string, i: int, q: int)
    requires FirstTry(t, p, i, q) && i < |t|
    requires (t[i] != p[q] && q > 0) || (t[i] == p[q] && q + 1 == |p|)
    ensures !NeedsNoTable(t, p)
  {
    FirstTryAt(t, p, i, q);
    forall r | FirstTry(t, p, |t|, r)
      ensures false
    {
      FirstTryAt(t, p, |t|, r);
    }
  }

  lemma NoShift(t: string, p: string, s: int)
    requires p != "" && NeedsNoTable(t, p)
    ensures !Occurs(t, p, s)
  {
    var q :| FirstTry(t, p, |t|, q);
    FirstTryAt(t, p, |t|, q);
    OccursStart(t, p, s);
  }

  lemma OccursStart(t: string, p: string, s: int)
    requires p != ""
    ensures Occurs(t, p, s) ==> 0 <= s < |t| && t[s] == p[0]
  {
    if Occurs(t, p, s) {
      assert t[s..s + |p|][0] == p[0];
    }
  }

  /** KMPstrMatching as it is written. It is right as long as it reads nothing from the table, which
      nobody has filled; it is stopped where it would, which happens if and only if the target
      contains the first character of the pattern and does not end in the middle of the first try. */
  method KmpWithoutTable(t: CString, p: CString) returns (readsTable: bool, shifts: seq<int>)
    requires p != ""
    ensures readsTable <==> !NeedsNoTable(t, p)
    ensures !readsTable ==> shifts == [] && AllShifts(shifts, t, p)
  {
    shifts := [];
    var q := 0;
    var i := 0;
    while i < |t|
      invariant 0 <= i <= |t| && FirstTry(t, p, i, q) && shifts == []
    {
      FirstTryOn(t, p, i, q);
      if q > 0 && p[q] != t[i] {
        TableNeeded(t, p, i, q);
        return true, shifts;
      }
      if p[q] == t[i] {
        if q + 1 == |p| {
          TableNeeded(t, p, i, q);
          return true, shifts + [i - |p| + 1];
        }
        q := q + 1;
      }
      i := i + 1;
    }
    forall s
      ensures !Occurs(t, p, s)
    {
      NoShift(t, p, s);
    }
    return false, shifts;
  }

  /** The table and then the search, as the program means it. */
  method BuildAndSearch(t: CString, p: CString) returns (shifts: seq<int>)
    requires p != ""
    ensures AllShifts(shifts, t, p)
  {
    var f := new int[|p| + 1];
    PrefixFunction(p, f);
    shifts := Kmp(t, p, f);
  }

  /** Both matchers report the same shifts in the same order. */
  method Compare(t: CString, p: CString) returns (naive: seq<int>, kmp: seq<int>)
    requires p != ""
    ensures naive == kmp && AllShifts(kmp, t, p)
  {
    naive := Naive(t, p);
    kmp := BuildAndSearch(t, p);
    SameMembers(naive, kmp);
  }
}
