/**
 Longest common subsequences and substrings of algorithms/least_common_seq.cc: the tables, the walk
 back through the direction table, and the two ways to find a longest common substring.
 */
module CommonSequences {
  // ----- subsequences -----

  function Init(s: string): string
    requires s != ""
  {
    s[..|s| - 1]
  }

  function Last(s: string): char
    requires s != ""
  {
    s[|s| - 1]
  }

  /** s is t with some characters left out. */
  predicate IsSubsequence(s: string, t: string) {
    s == "" || (t != "" && ((Last(s) == Last(t) && IsSubsequence(Init(s), Init(t))) || IsSubsequence(s, Init(t))))
  }

  predicate IsCommon(s: string, a: string, b: string) {
    IsSubsequence(s, a) && IsSubsequence(s, b)
  }

  /** A shorter subsequence of a shorter string. */
  lemma {:induction false} DropLast(s: string, t: string)
    requires s != "" && IsSubsequence(s, t)
    ensures t != "" && IsSubsequence(Init(s), Init(t))
  {
    if !(Last(s) == Last(t) && IsSubsequence(Init(s), Init(t))) {
      DropLast(s, Init(t));
      Longer(Init(s), Init(Init(t)), Init(t));
    }
  }

  lemma Longer(s: string, t: string, u: string)
    requires IsSubsequence(s, t) && u != "" && Init(u) == t
    ensures IsSubsequence(s, u)
  {
  }

  /** The length of the longest common subsequence, as the table holds it. */
  function Length(a: string, b: string): nat
    decreases |a| + |b|
  {
    if a == "" || b == "" then 0
    else if Last(a) == Last(b) then Length(Init(a), Init(b)) + 1
    else if Length(Init(a), b) >= Length(a, Init(b)) then Length(Init(a), b)
    else Length(a, Init(b))
  }

  /** No common subsequence is longer. */
  lemma {:induction false} NoneLonger(s: string, a: string, b: string)
    requires IsCommon(s, a, b)
    ensures |s| <= Length(a, b)
    decreases |a| + |b|
  {
    if s != "" {
      DropLast(s, a);
      DropLast(s, b);
      if Last(a) == Last(b) {
        NoneLonger(Init(s), Init(a), Init(b));
      } else if Last(s) != Last(a) {
        NoneLonger(s, Init(a), b);
      } else {
        NoneLonger(s, a, Init(b));
      }
    }
  }

  /** The entries of the table that lcseq_length fills first and then uses. */
  function Entry(a: string, b: string, i: int, j: int): nat
    requires 0 <= i <= |a| && 0 <= j <= |b|
  {
    Length(a[..i], b[..j])
  }

  /** The direction in which the length of an entry comes from. */
  function Direction(a: string, b: string, i: int, j: int): int
    requires 0 < i <= |a| && 0 < j <= |b|
  {
    if a[i - 1] == b[j - 1] then 1 else if Entry(a, b, i - 1, j) >= Entry(a, b, i, j - 1) then 2 else 3
  }

  lemma EntryStep(a: string, b: string, i: int, j: int)
    requires 0 <= i <= |a| && 0 <= j <= |b|
    ensures Entry(a, b, i, j) ==
            if i == 0 || j == 0 then 0
            else if Direction(a, b, i, j) == 1 then Entry(a, b, i - 1, j - 1) + 1
            else if Direction(a, b, i, j) == 2 then Entry(a, b, i - 1, j)
            else Entry(a, b, i, j - 1)
  {
    if i > 0 && j > 0 {
      assert Init(a[..i]) == a[..i - 1] && Init(b[..j]) == b[..j - 1];
    }
  }

  ghost predicate Fits(a: string, b: string, c: array2<int>) {
    c.Length0 == |a| + 1 && c.Length1 == |b| + 1
  }

  /** Rows up to `rows`, and of the next one the columns up to `columns`, are right; so is the border. */
  ghost predicate Filled(a: string, b: string, c: array2<int>, rows: int, columns: int)
    requires Fits(a, b, c)
    reads c
  {
    forall i, j | 0 <= i <= |a| && 0 <= j <= |b| && (i == 0 || j == 0 || i < rows || (i == rows && j < columns)) ::
      c[i, j] == Entry(a, b, i, j)
  }

  ghost predicate Directed(a: string, b: string, d: array2<int>, rows: int, columns: int)
    requires Fits(a, b, d)
    reads d
  {
    forall i, j | 0 < i <= |a| && 0 < j <= |b| && (i < rows || (i == rows && j < columns)) ::
      d[i, j] == Direction(a, b, i, j)
  }

  /** lcseq_length; the caller provides a zero in the corner. */
  method FillTables(a: string, b: string, c: array2<int>, d: array2<int>) returns (length: int)
    requires Fits(a, b, c) && Fits(a, b, d) && c != d && c[0, 0] == 0
    modifies c, d
    ensures length == Length(a, b)
    ensures Directed(a, b, d, |a| + 1, 0)
  {
    FillBorder(a, b, c);
    for i := 1 to |a| + 1
      invariant Filled(a, b, c, i, 0) && Directed(a, b, d, i, 0)
    {
      for j := 1 to |b| + 1
        invariant Filled(a, b, c, i, j) && Directed(a, b, d, i, j)
      {
        FillEntry(a, b, c, d, i, j);
      }
    }
    assert a[..|a|] == a && b[..|b|] == b;
    return c[|a|, |b|];
  }

  method FillBorder(a: string, b: string, c: array2<int>)
    requires Fits(a, b, c) && c[0, 0] == 0
    modifies c
    ensures Filled(a, b, c, 0, 0)
  {
    for i := 1 to |a| + 1
      invariant forall k | 0 <= k < i :: c[k, 0] == 0
    {
      c[i, 0] := 0;
    }
    for j := 1 to |b| + 1
      invariant forall k | 0 <= k <= |a| :: c[k, 0] == 0
      invariant forall k | 0 <= k < j :: c[0, k] == 0
    {
      c[0, j] := 0;
    }
  }

  method FillEntry(a: string, b: string, c: array2<int>, d: array2<int>, i: int, j: int)
    requires Fits(a, b, c) && Fits(a, b, d) && c != d && 0 < i <= |a| && 0 < j <= |b|
    requires Filled(a, b, c, i, j) && Directed(a, b, d, i, j)
    modifies c, d
    ensures Filled(a, b, c, i, j + 1) && Directed(a, b, d, i, j + 1)
  {
    EntryStep(a, b, i, j);
    if a[i - 1] == b[j - 1] {
      c[i, j] := c[i - 1, j - 1] + 1;
      d[i, j] := 1;
    } else if c[i - 1, j] >= c[i, j - 1] {
      c[i, j] := c[i - 1, j];
      d[i, j] := 2;
    } else {
      c[i, j] := c[i, j - 1];
      d[i, j] := 3;
    }
  }

  lemma Extended(s: string, t: string, i: int)
    requires 0 < i <= |t| && IsSubsequence(s, t[..i - 1])
    ensures IsSubsequence(s, t[..i]) && IsSubsequence(s + [t[i - 1]], t[..i])
  {
    var u := s + [t[i - 1]];
    assert Init(t[..i]) == t[..i - 1] && Init(u) == s;
  }

  /** print_lcseq, which follows the directions back from entry (i, j). */
  method Print(a: string, ghost b: string, d: array2<int>, i: nat, j: nat) returns (out: string)
    requires Fits(a, b, d) && Directed(a, b, d, |a| + 1, 0) && i <= |a| && j <= |b|
    ensures IsCommon(out, a[..i], b[..j]) && |out| == Entry(a, b, i, j)
    decreases i + j
  {
    if i == 0 || j == 0 {
      return "";
    }
    EntryStep(a, b, i, j);
    if d[i, j] == 1 {
      out := Print(a, b, d, i - 1, j - 1);
      Extended(out, a, i);
      Extended(out, b, j);
      out := out + [a[i - 1]];
    } else if d[i, j] == 2 {
      out := Print(a, b, d, i - 1, j);
      Extended(out, a, i);
    } else {
      out := Print(a, b, d, i, j - 1);
      Extended(out, b, j);
    }
  }

  /** find_lcseq: the string that is printed is a common subsequence, and none is longer. */
  method FindSubsequence(a: string, b: string) returns (out: string)
    ensures IsCommon(out, a, b)
    ensures forall s | IsCommon(s, a, b) :: |s| <= |out|
  {
    var c := new int[|a| + 1, |b| + 1]((i, j) => 0);
    var d := new int[|a| + 1, |b| + 1]((i, j) => 0);
    var length := FillTables(a, b, c, d);
    out := Print(a, b, d, |a|, |b|);
    assert a[..|a|] == a && b[..|b|] == b;
    forall s | IsCommon(s, a, b)
      ensures |s| <= |out|
    {
      NoneLonger(s, a, b);
    }
  }

  // ----- substrings -----

  ghost predicate IsSubstring(s: string, t: string) {
    exists k :: EndsAt(s, t, k)
  }

  /** s stands in t, up to index k. */
  predicate EndsAt(s: string, t: string, k: int) {
    |s| <= k <= |t| && t[k - |s|..k] == s
  }

  /** The length of the longest string that ends at i in a and at j in b. */
  function Suffix(a: string, b: string, i: int, j: int): nat
    requires 0 <= i <= |a| && 0 <= j <= |b|
  {
    if i == 0 || j == 0 || a[i - 1] != b[j - 1] then 0 else Suffix(a, b, i - 1, j - 1) + 1
  }

  lemma {:induction false} SuffixIsCommon(a: string, b: string, i: int, j: int)
    requires 0 <= i <= |a| && 0 <= j <= |b|
    ensures var n := Suffix(a, b, i, j); n <= i && n <= j && a[i - n..i] == b[j - n..j]
  {
    if Suffix(a, b, i, j) > 0 {
      SuffixIsCommon(a, b, i - 1, j - 1);
      var m := Suffix(a, b, i - 1, j - 1);
      assert a[i - 1 - m..i] == a[i - 1 - m..i - 1] + [a[i - 1]];
      assert b[j - 1 - m..j] == b[j - 1 - m..j - 1] + [b[j - 1]];
    }
  }

  lemma {:induction false} SuffixIsLongest(s: string, a: string, b: string, i: int, j: int)
    requires EndsAt(s, a, i) && EndsAt(s, b, j)
    ensures |s| <= Suffix(a, b, i, j)
  {
    if s != "" {
      assert s[|s| - 1] == a[i - |s|..i][|s| - 1] == b[j - |s|..j][|s| - 1];
      assert a[i - |s|..i - 1] == s[..|s| - 1] && b[j - |s|..j - 1] == s[..|s| - 1];
      SuffixIsLongest(s[..|s| - 1], a, b, i - 1, j - 1);
    }
  }

  /** What both versions find: the common substring of greatest length that ends first in a. */
  ghost predicate IsFirstLongest(out: string, a: string, b: string) {
    && IsSubstring(out, a) && IsSubstring(out, b)
    && (forall s | IsSubstring(s, a) && IsSubstring(s, b) :: |s| <= |out|)
    && exists i :: EndsFirst(out, a, b, i)
  }

  /** out ends at i in a, and no other common substring of its length ends before. */
  ghost predicate EndsFirst(out: string, a: string, b: string, i: int) {
    && EndsAt(out, a, i)
    && forall i', s | EndsAt(s, a, i') && |s| == |out| && s != "" && IsSubstring(s, b) :: i <= i'
  }

  lemma OnlyOneFirst(s: string, t: string, a: string, b: string)
    requires IsFirstLongest(s, a, b) && IsFirstLongest(t, a, b)
    ensures s == t
  {
    assert |s| == |t|;
    if s != "" {
      var i :| EndsFirst(s, a, b, i);
      var k :| EndsFirst(t, a, b, k);
      assert i <= k && k <= i;
    }
  }

  /** The search has gone through the rows before i and the columns lo..hi of row i: nothing longer
      than len was there, and the first row with something that long is bi. */
  ghost predicate IsBest(a: string, b: string, len: int, bi: int, bj: int, i: int, lo: int, hi: int) {
    && 0 <= len
    && (len > 0 ==> 0 <= bi <= |a| && bi <= i && 0 <= bj <= |b| && Suffix(a, b, bi, bj) == len)
    && (forall x, y | 0 <= x <= |a| && 0 <= y <= |b| && (x < i || (x == i && lo <= y < hi)) :: Suffix(a, b, x, y) <= len)
    && (len > 0 ==> forall x, y | 0 <= x < bi && 0 <= y <= |b| :: Suffix(a, b, x, y) < len)
  }

  /** A longer one in row i. */
  lemma Better(a: string, b: string, len: int, bi: int, bj: int, i: int, j: int, lo: int, hi: int)
    requires IsBest(a, b, len, bi, bj, i, lo, hi) && 0 <= i <= |a| && 0 <= j <= |b|
    requires lo <= hi && (j == hi || j == lo - 1)
    ensures var lo', hi', n := (if j == hi then lo else j), (if j == hi then hi + 1 else hi), Suffix(a, b, i, j);
            if n > len then IsBest(a, b, n, i, j, i, lo', hi') else IsBest(a, b, len, bi, bj, i, lo', hi')
  {
  }

  lemma BestIsLongest(a: string, b: string, len: int, bi: int, bj: int, out: string)
    requires IsBest(a, b, len, bi, bj, |a| + 1, 0, 0)
    requires if len == 0 then out == "" else len <= bj && out == b[bj - len..bj]
    ensures IsFirstLongest(out, a, b)
  {
    if len == 0 {
      assert EndsAt(out, a, 0) && EndsAt(out, b, 0);
    } else {
      SuffixIsCommon(a, b, bi, bj);
      assert EndsAt(out, a, bi) && EndsAt(out, b, bj);
    }
    forall s | IsSubstring(s, a) && IsSubstring(s, b)
      ensures |s| <= |out|
    {
      var i :| EndsAt(s, a, i);
      var j :| EndsAt(s, b, j);
      SuffixIsLongest(s, a, b, i, j);
    }
    var e := if len == 0 then 0 else bi;
    forall i', s | |s| == |out| && s != "" && IsSubstring(s, b) && EndsAt(s, a, i')
      ensures e <= i'
    {
      var j :| EndsAt(s, b, j);
      SuffixIsLongest(s, a, b, i', j);
    }
    assert EndsFirst(out, a, b, e);
  }

  /** The entries up to row i, column j of the table of common suffixes. */
  ghost predicate SuffixTable(a: string, b: string, c: array2<int>, rows: int, columns: int)
    requires Fits(a, b, c)
    reads c
  {
    forall i, j | 0 <= i <= |a| && 0 <= j <= |b| ::
      c[i, j] == if i < rows || (i == rows && j < columns) then Suffix(a, b, i, j) else 0
  }

  /** find_lcstr */
  method FindSubstring(a: string, b: string) returns (out: string)
    ensures IsFirstLongest(out, a, b)
  {
    var c := new int[|a| + 1, |b| + 1]((i, j) => 0);
    var len, end := 0, -1;
    ghost var bi, bj := 0, 0;
    for i := 1 to |a| + 1
      invariant SuffixTable(a, b, c, i, 0) && IsBest(a, b, len, bi, bj, i, 0, 0) && (len > 0 ==> end == bj)
    {
      len, end, bi, bj := SearchRow(a, b, c, i, len, end, bi, bj);
    }
    if len == 0 {
      out := "";
    } else {
      SuffixIsCommon(a, b, bi, bj);
      out := b[end - len..end];
    }
    BestIsLongest(a, b, len, bi, bj, out);
  }

  /** The inner loop of find_lcstr. */
  method SearchRow(a: string, b: string, c: array2<int>, i: int, len0: int, end0: int, ghost bi0: int, ghost bj0: int)
    returns (len: int, end: int, ghost bi: int, ghost bj: int)
    requires Fits(a, b, c) && 1 <= i <= |a| && SuffixTable(a, b, c, i, 0)
    requires IsBest(a, b, len0, bi0, bj0, i, 0, 0) && (len0 > 0 ==> end0 == bj0)
    modifies c
    ensures SuffixTable(a, b, c, i + 1, 0) && IsBest(a, b, len, bi, bj, i + 1, 0, 0) && (len > 0 ==> end == bj)
  {
    len, end, bi, bj := len0, end0, bi0, bj0;
    Better(a, b, len, bi, bj, i, 0, 0, 0);
    for j := 1 to |b| + 1
      invariant SuffixTable(a, b, c, i, j) && IsBest(a, b, len, bi, bj, i, 0, j) && (len > 0 ==> end == bj)
    {
      FillSuffix(a, b, c, i, j);
      Better(a, b, len, bi, bj, i, j, 0, j);
      if c[i, j] > len {
        len, end := c[i, j], j;
        bi, bj := i, j;
      }
    }
  }

  method FillSuffix(a: string, b: string, c: array2<int>, i: int, j: int)
    requires Fits(a, b, c) && 1 <= i <= |a| && 1 <= j <= |b| && SuffixTable(a, b, c, i, j)
    modifies c
    ensures SuffixTable(a, b, c, i, j + 1)
  {
    if a[i - 1] == b[j - 1] {
      c[i, j] := c[i - 1, j - 1] + 1;
    }
  }

  /** One row: from column j on that of i + 1, before it that of i. */
  ghost predicate SuffixRow(a: string, b: string, c: array<int>, i: int, j: int)
    requires 0 <= i < |a| && c.Length == |b|
    reads c
  {
    forall y | 0 <= y < |b| :: c[y] == Suffix(a, b, if y < j then i else i + 1, y + 1)
  }

  /** find_lcstr2: in one row, from right to left, so that c[j - 1] is still that of the row before. */
  method FindSubstring2(a: string, b: string) returns (out: string)
    ensures IsFirstLongest(out, a, b)
  {
    var len, end := 0, -1;
    var c := new int[|b|](_ => 0);
    ghost var bi, bj := 0, 0;
    for i := 0 to |a|
      invariant i < |a| ==> SuffixRow(a, b, c, i, |b|)
      invariant IsBest(a, b, len, bi, bj, i + 1, 0, 0) && (len > 0 ==> end + 1 == bj)
    {
      len, end, bi, bj := SearchBack(a, b, c, i, len, end, bi, bj);
    }
    if len == 0 {
      out := "";
    } else {
      SuffixIsCommon(a, b, bi, bj);
      out := b[end - len + 1..end + 1];
    }
    BestIsLongest(a, b, len, bi, bj, out);
  }

  method FillBack(a: string, b: string, c: array<int>, i: int, j: int)
    requires 0 <= i < |a| && 0 <= j < |b| && c.Length == |b| && SuffixRow(a, b, c, i, j + 1)
    modifies c
    ensures SuffixRow(a, b, c, i, j) && c[j] == Suffix(a, b, i + 1, j + 1)
  {
    SuffixStep(a, b, i, j);
    if a[i] == b[j] {
      if j == 0 || i == 0 {
        c[j] := 1;
      } else {
        c[j] := c[j - 1] + 1;
      }
    } else {
      c[j] := 0;
    }
  }

  lemma SuffixStep(a: string, b: string, i: int, j: int)
    requires 0 <= i < |a| && 0 <= j < |b|
    ensures Suffix(a, b, i + 1, j + 1) == if a[i] == b[j] then Suffix(a, b, i, j) + 1 else 0
    ensures i == 0 || j == 0 ==> Suffix(a, b, i, j) == 0
  {
  }

  /** The inner loop of find_lcstr2. */
  method SearchBack(a: string, b: string, c: array<int>, i: int, len0: int, end0: int, ghost bi0: int, ghost bj0: int)
    returns (len: int, end: int, ghost bi: int, ghost bj: int)
    requires 0 <= i < |a| && c.Length == |b| && SuffixRow(a, b, c, i, |b|)
    requires IsBest(a, b, len0, bi0, bj0, i + 1, 0, 0) && (len0 > 0 ==> end0 + 1 == bj0)
    modifies c
    ensures i + 1 < |a| ==> SuffixRow(a, b, c, i + 1, |b|)
    ensures IsBest(a, b, len, bi, bj, i + 2, 0, 0) && (len > 0 ==> end + 1 == bj)
  {
    len, end, bi, bj := len0, end0, bi0, bj0;
    var j := |b| - 1;
    while j >= 0
      invariant -1 <= j < |b| && SuffixRow(a, b, c, i, j + 1)
      invariant IsBest(a, b, len, bi, bj, i + 1, j + 2, |b| + 1) && (len > 0 ==> end + 1 == bj)
    {
      FillBack(a, b, c, i, j);
      Better(a, b, len, bi, bj, i + 1, j + 1, j + 2, |b| + 1);
      if c[j] > len {
        len, end := c[j], j;
        bi, bj := i + 1, j + 1;
      }
      j := j - 1;
    }
    Better(a, b, len, bi, bj, i + 1, 0, 1, |b| + 1);
  }

  /** The two versions print the same string. */
  method CompareSubstrings(a: string, b: string) returns (first: string, second: string)
    ensures first == second && IsFirstLongest(first, a, b)
  {
    first := FindSubstring(a, b);
    second := FindSubstring2(a, b);
    OnlyOneFirst(first, second, a, b);
  }
}
