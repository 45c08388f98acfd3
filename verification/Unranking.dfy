/**
 The K-th string of n zeros and m ones, as algorithms/find_kth_01str.cc finds it from a table of
 counts: by a loop and by recursion.
 */
module Unranking {
  // ----- the strings and their order -----

  /** The number of times c occurs in s. */
  function Occurrences(s: string, c: char): nat {
    if s == "" then 0 else (if s[0] == c then 1 else 0) + Occurrences(s[1..], c)
  }

  /** A string of n zeros and m ones. */
  predicate IsWord(s: string, n: nat, m: nat) {
    |s| == n + m && Occurrences(s, '0') == n && Occurrences(s, '1') == m
  }

  function Prefixed(c: char, words: set<string>): set<string> {
    set w | w in words :: [c] + w
  }

  lemma InPrefixed(s: string, c: char, words: set<string>)
    ensures s in Prefixed(c, words) <==> s != "" && s[0] == c && s[1..] in words
  {
    if s != "" && s[0] == c && s[1..] in words {
      assert s == [c] + s[1..];
    }
  }

  lemma {:induction false} PrefixedSize(c: char, words: set<string>)
    ensures |Prefixed(c, words)| == |words|
  {
    if words != {} {
      var w :| w in words;
      var rest := words - {w};
      PrefixedSize(c, rest);
      forall s
        ensures s in Prefixed(c, words) <==> s in Prefixed(c, rest) + {[c] + w}
      {
        InPrefixed(s, c, words);
        InPrefixed(s, c, rest);
        if s != "" && s[0] == c {
          assert s == [c] + s[1..];
        }
      }
      assert Prefixed(c, words) == Prefixed(c, rest) + {[c] + w};
      InPrefixed([c] + w, c, rest);
    }
  }

  /** All the strings of n zeros and m ones. */
  function Words(n: nat, m: nat): set<string>
    decreases n + m, 1
  {
    if n == 0 && m == 0 then {""} else StartingWith('0', n, m) + StartingWith('1', n, m)
  }

  function StartingWith(c: char, n: nat, m: nat): set<string>
    decreases n + m, 0
  {
    if c == '0' && n > 0 then Prefixed(c, Words(n - 1, m))
    else if c == '1' && m > 0 then Prefixed(c, Words(n, m - 1))
    else {}
  }

  ghost predicate IsJoined(s: string, n: nat, m: nat) {
    && s != ""
    && (|| (s[0] == '0' && n > 0 && s[1..] in Words(n - 1, m))
        || (s[0] == '1' && m > 0 && s[1..] in Words(n, m - 1)))
  }

  lemma FirstOfWord(s: string, n: nat, m: nat)
    requires n + m > 0
    ensures s in Words(n, m) <==> IsJoined(s, n, m)
  {
    if n > 0 {
      InPrefixed(s, '0', Words(n - 1, m));
    }
    if m > 0 {
      InPrefixed(s, '1', Words(n, m - 1));
    }
  }

  lemma {:induction false} WordsAreAll(s: string, n: nat, m: nat)
    ensures s in Words(n, m) <==> IsWord(s, n, m)
    decreases n + m
  {
    if n + m > 0 {
      FirstOfWord(s, n, m);
    }
    if s != "" && n + m > 0 {
      if s[0] == '0' && n > 0 {
        WordsAreAll(s[1..], n - 1, m);
      } else if s[0] == '1' && m > 0 {
        WordsAreAll(s[1..], n, m - 1);
      } else {
        NoMore(s[1..]);
      }
    }
  }

  /** Zeros and ones are no more than there are characters. */
  lemma {:induction false} NoMore(s: string)
    ensures Occurrences(s, '0') + Occurrences(s, '1') <= |s|
  {
    if s != "" {
      NoMore(s[1..]);
    }
  }

  /** Dictionary order. */
  predicate Less(s: string, t: string) {
    t != "" && (s == "" || s[0] < t[0] || (s[0] == t[0] && Less(s[1..], t[1..])))
  }

  /** The words before s. */
  ghost function Below(s: string, n: nat, m: nat): set<string> {
    set t | t in Words(n, m) && Less(t, s)
  }

  // ----- the table -----

  /** What the table dp holds. */
  function Count(n: nat, m: nat): nat {
    if n == 0 || m == 0 then 1 else Count(n, m - 1) + Count(n - 1, m)
  }

  lemma ZerosSize(n: nat, m: nat)
    ensures |StartingWith('0', n, m)| == if n > 0 then |Words(n - 1, m)| else 0
  {
    if n > 0 {
      PrefixedSize('0', Words(n - 1, m));
    }
  }

  lemma DisjointSize(a: set<string>, b: set<string>)
    requires a !! b
    ensures |a + b| == |a| + |b|
  {
  }

  /** What starts with 0 and what starts with 1 add up. */
  lemma SizeApart(n: nat, m: nat, words: set<string>)
    ensures |StartingWith('0', n, m) + Prefixed('1', words)| == |StartingWith('0', n, m)| + |words|
  {
    var zeros, ones := StartingWith('0', n, m), Prefixed('1', words);
    forall s | s in zeros
      ensures s !in ones
    {
      InZeros(s, n, m);
      InPrefixed(s, '1', words);
    }
    DisjointSize(zeros, ones);
    PrefixedSize('1', words);
  }

  lemma InZeros(t: string, n: nat, m: nat)
    ensures t in StartingWith('0', n, m) <==> n > 0 && t != "" && t[0] == '0' && t[1..] in Words(n - 1, m)
  {
    if n > 0 {
      InPrefixed(t, '0', Words(n - 1, m));
    }
  }

  lemma WordsSize(n: nat, m: nat)
    requires n + m > 0
    ensures |Words(n, m)| == (if n > 0 then |Words(n - 1, m)| else 0) + if m > 0 then |Words(n, m - 1)| else 0
  {
    ZerosSize(n, m);
    if m > 0 {
      SizeApart(n, m, Words(n, m - 1));
    } else {
      assert Words(n, m) == StartingWith('0', n, m);
    }
  }

  lemma CountSum(n: nat, m: nat)
    requires n + m > 0
    ensures Count(n, m) == (if n > 0 then Count(n - 1, m) else 0) + if m > 0 then Count(n, m - 1) else 0
  {
  }

  /** The counts are the numbers of words. */
  lemma {:induction false} CountsWords(n: nat, m: nat)
    ensures |Words(n, m)| == Count(n, m)
    decreases n + m
  {
    if n + m > 0 {
      WordsSize(n, m);
      CountSum(n, m);
      if n > 0 {
        CountsWords(n - 1, m);
      }
      if m > 0 {
        CountsWords(n, m - 1);
      }
    }
  }

  ghost predicate IsTable(dp: array2<int>)
    reads dp
  {
    RowsDone(dp, dp.Length0)
  }

  ghost predicate RowsDone(dp: array2<int>, rows: int)
    requires rows <= dp.Length0
    reads dp
  {
    forall n, m | 0 <= n < rows && 0 <= m < dp.Length1 :: dp[n, m] == Count(n, m)
  }

  method BuildTable(N: nat, M: nat) returns (dp: array2<int>)
    ensures fresh(dp) && dp.Length0 == N + 1 && dp.Length1 == M + 1 && IsTable(dp)
  {
    dp := new int[N + 1, M + 1];
    for n := 0 to N + 1
      invariant RowsDone(dp, n)
    {
      FillRow(dp, n);
    }
  }

  lemma CountStep(n: nat, m: nat)
    ensures Count(n, m) == if n == 0 || m == 0 then 1 else Count(n, m - 1) + Count(n - 1, m)
  {
  }

  method FillCell(dp: array2<int>, n: nat, m: nat)
    requires n < dp.Length0 && m < dp.Length1
    requires n > 0 && m > 0 ==> dp[n, m - 1] == Count(n, m - 1) && dp[n - 1, m] == Count(n - 1, m)
    modifies dp
    ensures dp[n, m] == Count(n, m)
    ensures forall i, j | 0 <= i < dp.Length0 && 0 <= j < dp.Length1 && !(i == n && j == m) :: dp[i, j] == old(dp[i, j])
  {
    CountStep(n, m);
    if n == 0 || m == 0 {
      dp[n, m] := 1;
    } else {
      dp[n, m] := dp[n, m - 1] + dp[n - 1, m];
    }
  }

  /** The inner loop. */
  method FillRow(dp: array2<int>, n: nat)
    requires n < dp.Length0 && RowsDone(dp, n)
    modifies dp
    ensures RowsDone(dp, n + 1)
  {
    for m := 0 to dp.Length1
      invariant RowsDone(dp, n)
      invariant forall j | 0 <= j < m :: dp[n, j] == Count(n, j)
    {
      FillCell(dp, n, m);
    }
  }

  // ----- the recursion -----

  /** xstr */
  function XStr(n: nat, m: nat, k: int): string
    requires k <= Count(n, m)
  {
    if n == 0 && m == 0 then ""
    else if n == 0 then "1" + XStr(n, m - 1, k)
    else if Count(n - 1, m) >= k then "0" + XStr(n - 1, m, k)
    else "1" + XStr(n, m - 1, k - Count(n - 1, m))
  }

  lemma BelowZero(s: string, n: nat, m: nat)
    requires n > 0
    ensures |Below("0" + s, n, m)| == |Below(s, n - 1, m)|
  {
    assert ("0" + s)[1..] == s;
    var zeros := Prefixed('0', Below(s, n - 1, m));
    forall t
      ensures t in Below("0" + s, n, m) <==> t in zeros
    {
      FirstOfWord(t, n, m);
      InPrefixed(t, '0', Below(s, n - 1, m));
    }
    assert Below("0" + s, n, m) == zeros;
    PrefixedSize('0', Below(s, n - 1, m));
  }

  lemma BelowOneParts(s: string, n: nat, m: nat)
    requires m > 0
    ensures Below("1" + s, n, m) == StartingWith('0', n, m) + Prefixed('1', Below(s, n, m - 1))
  {
    assert ("1" + s)[1..] == s;
    forall t
      ensures t in Below("1" + s, n, m) <==> t in StartingWith('0', n, m) + Prefixed('1', Below(s, n, m - 1))
    {
      FirstOfWord(t, n, m);
      InPrefixed(t, '1', Below(s, n, m - 1));
      InZeros(t, n, m);
    }
  }

  lemma BelowOne(s: string, n: nat, m: nat)
    requires m > 0
    ensures |Below("1" + s, n, m)| == |Below(s, n, m - 1)| + if n > 0 then Count(n - 1, m) else 0
  {
    BelowOneParts(s, n, m);
    SizeApart(n, m, Below(s, n, m - 1));
    ZerosSize(n, m);
    if n > 0 {
      CountsWords(n - 1, m);
    }
  }

  /** The k-th string is a string of n zeros and m ones, and k - 1 of these come before it. */
  lemma {:induction false} KthWord(n: nat, m: nat, k: int)
    requires 1 <= k <= Count(n, m)
    ensures IsWord(XStr(n, m, k), n, m) && |Below(XStr(n, m, k), n, m)| == k - 1
    decreases n + m
  {
    if n == 0 && m == 0 {
      assert Below("", 0, 0) == {};
    } else if n > 0 && Count(n - 1, m) >= k {
      KthWord(n - 1, m, k);
      BelowZero(XStr(n - 1, m, k), n, m);
    } else {
      var k' := if n == 0 then k else k - Count(n - 1, m);
      KthWord(n, m - 1, k');
      BelowOne(XStr(n, m - 1, k'), n, m);
    }
  }

  /** Every string of n zeros and m ones is found, at the number of strings before it, plus one. */
  lemma {:induction false} RankOfWord(s: string, n: nat, m: nat)
    requires IsWord(s, n, m)
    ensures |Below(s, n, m)| + 1 <= Count(n, m) && XStr(n, m, |Below(s, n, m)| + 1) == s
    decreases n + m
  {
    if n == 0 && m == 0 {
      assert Below("", 0, 0) == {};
    } else {
      NoMore(s[1..]);
      if s[0] == '0' {
        RankOfWord(s[1..], n - 1, m);
        BelowZero(s[1..], n, m);
        assert s == "0" + s[1..];
        assert Count(n, m) >= Count(n - 1, m);
      } else {
        RankOfWord(s[1..], n, m - 1);
        BelowOne(s[1..], n, m);
        assert s == "1" + s[1..];
      }
    }
  }

  /** The strings come in dictionary order. */
  lemma {:induction false} Increasing(n: nat, m: nat, k: int, l: int)
    requires 1 <= k < l <= Count(n, m)
    ensures Less(XStr(n, m, k), XStr(n, m, l))
    decreases n + m
  {
    if Count(n - 1, m) >= l {
      Increasing(n - 1, m, k, l);
    } else if Count(n - 1, m) < k {
      Increasing(n, m - 1, k - Count(n - 1, m), l - Count(n - 1, m));
    }
  }

  // ----- the loop -----

  function Repeat(c: char, n: nat): string {
    if n == 0 then "" else [c] + Repeat(c, n - 1)
  }

  lemma {:induction false} OnlyOnes(m: nat, k: int)
    requires k <= 1
    ensures XStr(0, m, k) == Repeat('1', m)
  {
    if m > 0 {
      OnlyOnes(m - 1, k);
    }
  }

  /** find_kth_str: for a K from 1 on, the K-th string or "Impossible". */
  method FindKth(N: nat, M: nat, K: int) returns (res: string)
    ensures Count(N, M) < K ==> res == "Impossible"
    ensures 1 <= K <= Count(N, M) ==> res == XStr(N, M, K) && IsWord(res, N, M) && |Below(res, N, M)| == K - 1
    ensures K <= 0 ==> res == Repeat('1', M)
  {
    var dp := BuildTable(N, M);
    if dp[N, M] < K {
      return "Impossible";
    }
    res := Walk(dp, N, M, K);
    if K >= 1 {
      KthWord(N, M, K);
    }
  }

  /** One step of the first loop. */
  lemma WalkStep(res: string, n: nat, m: nat, k: int)
    requires n >= 1 && 1 <= k <= Count(n, m)
    ensures Count(n - 1, m) >= k ==> res + XStr(n, m, k) == res + "0" + XStr(n - 1, m, k)
    ensures Count(n - 1, m) < k ==>
              && m >= 1 && k - Count(n - 1, m) <= Count(n, m - 1)
              && res + XStr(n, m, k) == res + "1" + XStr(n, m - 1, k - Count(n - 1, m))
  {
    if Count(n - 1, m) >= k {
      assert res + ("0" + XStr(n - 1, m, k)) == res + "0" + XStr(n - 1, m, k);
    } else {
      assert res + ("1" + XStr(n, m - 1, k - Count(n - 1, m))) == res + "1" + XStr(n, m - 1, k - Count(n - 1, m));
    }
  }

  lemma WalkEnd(m: nat, k: int)
    requires k <= Count(0, m)
    ensures XStr(0, m, k) == Repeat('1', m)
  {
    OnlyOnes(m, k);
  }

  /** The first loop, which a K below 1 does not enter, and the second one. */
  method Walk(dp: array2<int>, N: nat, M: nat, K: int) returns (res: string)
    requires IsTable(dp) && N < dp.Length0 && M < dp.Length1 && K <= Count(N, M)
    ensures res == if K >= 1 then XStr(N, M, K) else Repeat('1', M)
  {
    hide Count, XStr, Repeat;
    ghost var goal := if K >= 1 then XStr(N, M, K) else Repeat('1', M);
    var n, m, k := N, M, K;
    res := "";
    while n >= 1 && m >= 0 && k > 0
      invariant 0 <= n <= N && 0 <= m <= M && k <= Count(n, m)
      invariant k >= 1 ==> K >= 1 && res + XStr(n, m, k) == goal
      invariant k <= 0 ==> res + Repeat('1', m) == goal
    {
      WalkStep(res, n, m, k);
      if dp[n - 1, m] >= k {
        res := res + "0";
        n := n - 1;
      } else {
        res := res + "1";
        k := k - dp[n - 1, m];
        m := m - 1;
      }
    }
    if k >= 1 {
      WalkEnd(m, k);
    }
    res := AppendOnes(res, m);
  }

  /** The remaining ones. */
  method AppendOnes(start: string, M: nat) returns (res: string)
    ensures res == start + Repeat('1', M)
  {
    res := start;
    var m := M;
    while m > 0
      invariant 0 <= m <= M && res + Repeat('1', m) == start + Repeat('1', M)
    {
      res := res + "1";
      m := m - 1;
    }
  }

  /** For a K below 1 the recursion finds the first string. */
  lemma {:induction false} NotPositive(n: nat, m: nat, k: int)
    requires k <= 1
    ensures Count(n, m) >= 1 && XStr(n, m, k) == Repeat('0', n) + Repeat('1', m)
  {
    if n == 0 {
      OnlyOnes(m, k);
    } else {
      NotPositive(n - 1, m, k);
      assert XStr(n, m, k) == "0" + XStr(n - 1, m, k) && Count(n, m) >= Count(n - 1, m);
      hide XStr, Count;
      assert "0" + (Repeat('0', n - 1) + Repeat('1', m)) == Repeat('0', n) + Repeat('1', m);
    }
  }

  lemma {:induction false} RepeatLength(c: char, n: nat)
    ensures |Repeat(c, n)| == n
  {
    if n > 0 {
      RepeatLength(c, n - 1);
    }
  }

  /** For a K below 1 the loop leaves out the zeros: the two versions give the same string only when
      there are none. */
  lemma VersionsDiffer(n: nat, m: nat, k: int)
    requires k <= 0
    ensures Count(n, m) >= 1 && (XStr(n, m, k) == Repeat('1', m) <==> n == 0)
  {
    NotPositive(n, m, k);
    RepeatLength('0', n);
    RepeatLength('1', m);
  }

  /** find_kth_str2: for a K from 1 on, the string with K - 1 strings before it or "Impossible"; for a
      K below 1, the first string. */
  method FindKth2(N: nat, M: nat, K: int) returns (res: string)
    ensures Count(N, M) < K ==> res == "Impossible"
    ensures 1 <= K <= Count(N, M) ==> IsWord(res, N, M) && |Below(res, N, M)| == K - 1
    ensures K <= 0 ==> res == Repeat('0', N) + Repeat('1', M)
  {
    var dp := BuildTable(N, M);
    if dp[N, M] < K {
      res := "Impossible";
    } else {
      res := XStr(N, M, K);
      if K >= 1 {
        KthWord(N, M, K);
      } else {
        NotPositive(N, M, K);
      }
    }
  }

  /** The two programs give the same answer exactly when K is positive or there are no zeros. */
  method CompareVersions(N: nat, M: nat, K: int) returns (one: string, two: string)
    ensures Count(N, M) < K ==> one == two == "Impossible"
    ensures 1 <= K <= Count(N, M) ==> one == two && IsWord(one, N, M) && |Below(one, N, M)| == K - 1
    ensures K <= 0 ==> one == Repeat('1', M) && two == Repeat('0', N) + Repeat('1', M)
    ensures one == two <==> K >= 1 || N == 0
  {
    one := FindKth(N, M, K);
    two := FindKth2(N, M, K);
    if K <= 0 {
      NotPositive(N, M, K);
      VersionsDiffer(N, M, K);
    } else if K <= Count(N, M) {
      RankOfWord(two, N, M);
    }
  }
}
