/**
 The two recursive enumerations of algorithms/permute.cc: on a string that is passed by value and
 not swapped back, and on a character array that is.
 */
module Permutations {
  import opened Arithmetic

  /** s with the characters at i and k exchanged */
  function Swap(s: string, i: int, k: int): (t: string)
    requires 0 <= i < |s| && 0 <= k < |s|
    ensures |t| == |s|
  {
    s[i := s[k]][k := s[i]]
  }

  ghost predicate Rearranges(t: string, s: string) {
    multiset(t) == multiset(s)
  }

  /** What the recursion from index k on appends to the list; `back` tells whether every exchange is
      undone before the next. */
  function Listed(s: string, k: int, back: bool): seq<string>
    requires 0 <= k <= |s|
    decreases |s| - k, |s| + 1
  {
    if k == |s| then [s] else ListedFrom(s, k, k, back)
  }

  /** What the rounds from i on append. */
  function ListedFrom(s: string, k: int, i: int, back: bool): seq<string>
    requires 0 <= k < |s| && k <= i <= |s|
    decreases |s| - k, |s| - i
  {
    if i == |s| then []
    else
      var t := Swap(s, i, k);
      Listed(t, k + 1, back) + ListedFrom(if back then s else t, k, i + 1, back)
  }

  // ----- every permutation, and each once -----

  lemma SwapRearranges(s: string, i: int, k: int)
    requires 0 <= k <= i < |s|
    ensures Rearranges(Swap(s, i, k), s)
    ensures Swap(s, i, k)[..k + 1] == s[..k] + [s[i]] && Swap(s, i, k)[i + 1..] == s[i + 1..]
  {
  }

  /** What is behind a common beginning is rearranged, too. */
  lemma BehindPrefix(t: string, s: string, k: int)
    requires Rearranges(t, s) && 0 <= k <= |s| && k <= |t| && t[..k] == s[..k]
    ensures |t| == |s| && multiset(t[k..]) == multiset(s[k..])
  {
    var p := multiset(s[..k]);
    assert t == t[..k] + t[k..] && s == s[..k] + s[k..];
    assert multiset(t) == p + multiset(t[k..]) && multiset(s) == p + multiset(s[k..]);
    assert multiset(t[k..]) == multiset(t) - p && multiset(s[k..]) == multiset(s) - p;
    assert |multiset(t)| == |multiset(s)|;
  }

  /** t keeps the first k characters of s, rearranges the rest, and has one of s[i..] at k. */
  ghost predicate Fits(t: string, s: string, k: int, i: int)
    requires 0 <= k < |s| && k <= i <= |s|
  {
    Rearranges(t, s) && |t| == |s| && t[..k] == s[..k] && t[k] in s[i..]
  }

  ghost predicate Extends(t: string, s: string, k: int)
    requires 0 <= k <= |s|
  {
    Rearranges(t, s) && |t| == |s| && t[..k] == s[..k]
  }

  lemma AnyFits(t: string, s: string, k: int)
    requires 0 <= k < |s| && Extends(t, s, k)
    ensures Fits(t, s, k, k)
  {
    BehindPrefix(t, s, k);
    assert t[k] == t[k..][0];
    assert t[k] in multiset(t[k..]);
  }

  lemma ExtendsSwap(t: string, s: string, k: int, i: int)
    requires 0 <= k <= i < |s|
    ensures Extends(t, Swap(s, i, k), k + 1) <==> Extends(t, s, k) && t[k] == s[i]
  {
    SwapRearranges(s, i, k);
    if |t| == |s| {
      assert t[..k + 1] == t[..k] + [t[k]];
      assert Swap(s, i, k)[..k + 1][..k] == s[..k];
      assert Swap(s, i, k)[..k + 1][k] == s[i];
    }
  }

  lemma FitsSplit(t: string, s: string, s': string, k: int, i: int)
    requires 0 <= k <= i < |s| && (s' == s || s' == Swap(s, i, k))
    ensures Fits(t, s, k, i) <==> (Extends(t, s, k) && t[k] == s[i]) || Fits(t, s', k, i + 1)
  {
    SwapRearranges(s, i, k);
    assert s[i..] == [s[i]] + s[i + 1..];
    assert Swap(s, i, k)[..k] == s[..k];
  }

  /** With or without swapping back: exactly the strings that keep the first k characters and
      rearrange the others are listed. */
  lemma {:induction false} ListsAll(t: string, s: string, k: int, back: bool)
    requires 0 <= k <= |s|
    ensures t in Listed(s, k, back) <==> Extends(t, s, k)
    decreases |s| - k, |s| + 1
  {
    if k < |s| {
      ListsAllFrom(t, s, k, k, back);
      if Extends(t, s, k) {
        AnyFits(t, s, k);
      }
    } else {
      assert s[..k] == s;
      if Extends(t, s, k) {
        assert t == t[..k];
      }
    }
  }

  lemma {:induction false} ListsAllFrom(t: string, s: string, k: int, i: int, back: bool)
    requires 0 <= k < |s| && k <= i <= |s|
    ensures t in ListedFrom(s, k, i, back) <==> Fits(t, s, k, i)
    decreases |s| - k, |s| - i
  {
    if i < |s| {
      var s' := if back then s else Swap(s, i, k);
      ListsAll(t, Swap(s, i, k), k + 1, back);
      ListsAllFrom(t, s', k, i + 1, back);
      ExtendsSwap(t, s, k, i);
      FitsSplit(t, s, s', k, i);
    }
  }

  ghost predicate Different<T>(s: seq<T>) {
    forall i, j | 0 <= i < j < |s| :: s[i] != s[j]
  }

  lemma ConcatDifferent<T>(s: seq<T>, t: seq<T>)
    requires Different(s) && Different(t) && forall x | x in s :: x !in t
    ensures Different(s + t)
  {
    forall i, j | 0 <= i < j < |s + t|
      ensures (s + t)[i] != (s + t)[j]
    {
      if i < |s| <= j {
        assert s[i] in s && t[j - |s|] in t;
      }
    }
  }

  lemma SwapDifferent(s: string, i: int, k: int)
    requires 0 <= i < |s| && 0 <= k < |s| && Different(s)
    ensures Different(Swap(s, i, k))
  {
  }

  /** Of a string of different characters nothing is listed twice. */
  lemma {:induction false} ListsOnce(s: string, k: int, back: bool)
    requires 0 <= k <= |s| && Different(s)
    ensures Different(Listed(s, k, back))
    decreases |s| - k, |s| + 1
  {
    if k < |s| {
      ListsOnceFrom(s, k, k, back);
    }
  }

  lemma NotLater(s: string, i: int)
    requires 0 <= i < |s| && Different(s)
    ensures s[i] !in s[i + 1..]
  {
  }

  /** What is listed with character i in front is not listed with a later one in front. */
  lemma NotListedAgain(s: string, k: int, i: int, back: bool, x: string)
    requires 0 <= k < |s| && k <= i < |s| && Different(s)
    requires x in Listed(Swap(s, i, k), k + 1, back)
    ensures x !in ListedFrom(if back then s else Swap(s, i, k), k, i + 1, back)
  {
    var t, s' := Swap(s, i, k), if back then s else Swap(s, i, k);
    ListsAll(x, t, k + 1, back);
    ListsAllFrom(x, s', k, i + 1, back);
    ExtendsSwap(x, s, k, i);
    NotLater(s, i);
    assert s'[i + 1..] == s[i + 1..];
    hide Listed, ListedFrom, Different, Rearranges, Extends, Swap;
  }

  lemma {:induction false} ListsOnceFrom(s: string, k: int, i: int, back: bool)
    requires 0 <= k < |s| && k <= i <= |s| && Different(s)
    ensures Different(ListedFrom(s, k, i, back))
    decreases |s| - k, |s| - i
  {
    if i < |s| {
      var t, s' := Swap(s, i, k), if back then s else Swap(s, i, k);
      SwapDifferent(s, i, k);
      ListsOnce(t, k + 1, back);
      ListsOnceFrom(s', k, i + 1, back);
      var first, rest := Listed(t, k + 1, back), ListedFrom(s', k, i + 1, back);
      forall x | x in first
        ensures x !in rest
      {
        NotListedAgain(s, k, i, back, x);
      }
      ConcatDifferent(first, rest);
    }
  }

  lemma ConcatRepeats<T>(s: seq<T>, t: seq<T>)
    requires !Different(t) || exists x :: x in s && x in t
    ensures !Different(s + t)
  {
    if !Different(t) {
      var i, j :| 0 <= i < j < |t| && t[i] == t[j];
      assert (s + t)[|s| + i] == (s + t)[|s| + j];
    } else {
      var x :| x in s && x in t;
      var i, j :| 0 <= i < |s| && 0 <= j < |t| && s[i] == x && t[j] == x;
      assert (s + t)[i] == (s + t)[|s| + j];
    }
  }

  /** A string with one of two equal characters in front is listed for both of them. */
  lemma ListedAgain(s: string, k: int, i: int, j: int, back: bool)
    requires 0 <= k <= i < j < |s| && s[i] == s[j]
    ensures Swap(s, i, k) in Listed(Swap(s, i, k), k + 1, back)
    ensures Swap(s, i, k) in ListedFrom(if back then s else Swap(s, i, k), k, i + 1, back)
  {
    var t, s' := Swap(s, i, k), if back then s else Swap(s, i, k);
    ListsAll(t, t, k + 1, back);
    ListsAllFrom(t, s', k, i + 1, back);
    SwapRearranges(s, i, k);
    assert s'[i + 1..][j - i - 1] == s[j];
  }

  /** If two of the characters that the rounds bring to the front are equal, something is listed twice. */
  lemma {:induction false} ListsTwiceFrom(s: string, k: int, r: int, i: int, j: int, back: bool)
    requires 0 <= k <= r <= i < j < |s| && s[i] == s[j]
    ensures !Different(ListedFrom(s, k, r, back))
    decreases i - r
  {
    var t, s' := Swap(s, r, k), if back then s else Swap(s, r, k);
    if r == i {
      ListedAgain(s, k, i, j, back);
    } else {
      ListsTwiceFrom(s', k, r + 1, i, j, back);
    }
    ConcatRepeats(Listed(t, k + 1, back), ListedFrom(s', k, r + 1, back));
  }

  /** Nothing is listed twice if and only if the characters are different. */
  lemma ListsOnceIff(s: string, back: bool)
    ensures Different(Listed(s, 0, back)) <==> Different(s)
  {
    if Different(s) {
      ListsOnce(s, 0, back);
    } else {
      var i, j :| 0 <= i < j < |s| && s[i] == s[j];
      ListsTwiceFrom(s, 0, 0, i, j, back);
    }
  }

  function Factorial(n: nat): nat {
    if n == 0 then 1 else n * Factorial(n - 1)
  }

  /** Whatever the characters, (n - k)! strings are listed. */
  lemma {:induction false} ListsFactorial(s: string, k: int, back: bool)
    requires 0 <= k <= |s|
    ensures |Listed(s, k, back)| == Factorial(|s| - k)
    decreases |s| - k, |s| + 1
  {
    if k < |s| {
      ListsFactorialFrom(s, k, k, back);
    }
  }

  lemma {:induction false} ListsFactorialFrom(s: string, k: int, i: int, back: bool)
    requires 0 <= k < |s| && k <= i <= |s|
    ensures |ListedFrom(s, k, i, back)| == (|s| - i) * Factorial(|s| - k - 1)
    decreases |s| - k, |s| - i
  {
    if i < |s| {
      ListsFactorial(Swap(s, i, k), k + 1, back);
      ListsFactorialFrom(if back then s else Swap(s, i, k), k, i + 1, back);
      MulDist(|s| - i, 1, Factorial(|s| - k - 1));
    }
  }

  // ----- the programs -----

  /** permute(string, int): the string is a copy of the caller's, so the exchanges need not be undone. */
  method PermuteByValue(str0: string, k: int, arr0: seq<string>) returns (arr: seq<string>)
    requires 0 <= k <= |str0|
    ensures arr == arr0 + Listed(str0, k, false)
    decreases |str0| - k
  {
    if k == |str0| {
      return arr0 + [str0];
    }
    var str := str0;
    arr := arr0;
    var i := k;
    while i < |str|
      invariant k <= i <= |str| == |str0|
      invariant arr + ListedFrom(str, k, i, false) == arr0 + Listed(str0, k, false)
    {
      ghost var before, s := arr, str;
      str := Swap(str, i, k);
      arr := PermuteByValue(str, k + 1, arr);
      assert before + (Listed(str, k + 1, false) + ListedFrom(str, k, i + 1, false)) == arr + ListedFrom(str, k, i + 1, false);
      i := i + 1;
    }
  }

  /** permute(char*, int, int): the array is as before afterwards. */
  method PermuteInPlace(str: array<char>, k: int, arr0: seq<string>) returns (arr: seq<string>)
    requires 0 <= k <= str.Length
    modifies str
    ensures str[..] == old(str[..]) && arr == arr0 + Listed(old(str[..]), k, true)
    decreases str.Length - k
  {
    ghost var s := str[..];
    if k == str.Length {
      return arr0 + [str[..]];
    }
    arr := arr0;
    var i := k;
    while i < str.Length
      invariant k <= i <= str.Length && str[..] == s
      invariant arr + ListedFrom(s, k, i, true) == arr0 + Listed(s, k, true)
    {
      ghost var before, t := arr, Swap(s, i, k);
      str[i], str[k] := str[k], str[i];
      assert str[..] == t;
      arr := PermuteInPlace(str, k + 1, arr);
      str[i], str[k] := str[k], str[i];
      assert str[..] == s;
      assert before + (Listed(t, k + 1, true) + ListedFrom(s, k, i + 1, true)) == arr + ListedFrom(s, k, i + 1, true);
      i := i + 1;
    }
  }

  /** Both programs list every rearrangement of the string; each once if and only if its characters
      are different. */
  method Compare(str: string) returns (byValue: seq<string>, inPlace: seq<string>)
    ensures forall t :: t in byValue <==> Rearranges(t, str)
    ensures forall t :: t in inPlace <==> Rearranges(t, str)
    ensures Different(str) <==> Different(byValue)
    ensures Different(str) <==> Different(inPlace)
    ensures |byValue| == |inPlace| == Factorial(|str|)
  {
    byValue := PermuteByValue(str, 0, []);
    var a := new char[|str|](i requires 0 <= i < |str| => str[i]);
    assert a[..] == str;
    inPlace := PermuteInPlace(a, 0, []);
    assert byValue == Listed(str, 0, false) && inPlace == Listed(str, 0, true);
    forall t
      ensures t in byValue <==> Rearranges(t, str)
      ensures t in inPlace <==> Rearranges(t, str)
    {
      ListsAll(t, str, 0, false);
      ListsAll(t, str, 0, true);
      assert Rearranges(t, str) ==> |multiset(t)| == |multiset(str)|;
    }
    ListsOnceIff(str, false);
    ListsOnceIff(str, true);
    ListsFactorial(str, 0, false);
    ListsFactorial(str, 0, true);
  }
}
