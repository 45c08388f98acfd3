/**
 The zigzag scan of codec_progs/zigzag.cc: the number of every cell of an N x N block in closed form,
 and the table that leads back from a number to its cell.

 The upper triangle, with the middle diagonal, counts the cells diagonal by diagonal; the lower one
 is the upper one turned round. That every number below N * N occurs once is proved for the upper
 triangle and carried over to the lower one by that symmetry. The numbers are those of a walk that
 goes up and down the diagonals by turns.
 */
module ZigZag {
  import opened Arithmetic

  /** s * (s + 1) / 2, the number of cells on the diagonals before diagonal s */
  function Triangle(s: int): int {
    s * (s + 1) / 2
  }

  /** The coordinate that counts along diagonal i + j. */
  function Along(i: int, j: int): int {
    if (i + j) % 2 == 0 then j else i
  }

  predicate InBlock(n: int, i: int, j: int) {
    0 <= i < n && 0 <= j < n
  }

  /** a[i][j] */
  function Number(n: int, i: int, j: int): int {
    if i + j < n then Triangle(i + j) + Along(i, j)
    else n * n - Triangle((n - 1 - i) + (n - 1 - j)) - (n - Along(i, j))
  }

  lemma TriangleStep(s: int)
    ensures Triangle(s + 1) == Triangle(s) + s + 1
  {
    assert (s + 1) * (s + 2) == s * (s + 1) + 2 * (s + 1);
    Even(s);
  }

  lemma Even(s: int)
    ensures s * (s + 1) % 2 == 0
  {
    var h, r := s / 2, s % 2;
    if r == 0 {
      MulAssoc(2, h, s + 1);
      DivModUnique(s * (s + 1), 2, h * (s + 1), 0);
    } else {
      MulAssoc(s, 2, h + 1);
      DivModUnique(s * (s + 1), 2, s * (h + 1), 0);
    }
  }

  lemma {:induction false} TriangleMonotone(s: int, t: int)
    requires 0 <= s <= t
    ensures 0 <= Triangle(s) <= Triangle(t) && (s < t ==> Triangle(s) + s < Triangle(t))
    decreases t
  {
    if 0 < t {
      TriangleStep(t - 1);
      if s < t {
        TriangleMonotone(s, t - 1);
      } else {
        TriangleMonotone(t - 1, t - 1);
      }
    }
  }

  /** A square is two triangles. */
  lemma SquareIsTriangles(n: int)
    ensures n * n == Triangle(n) + Triangle(n - 1)
  {
    Even(n);
    Even(n - 1);
    assert (n - 1) * n + n * (n + 1) == 2 * (n * n);
  }

  /** The lower half is the upper half turned round. */
  lemma TurnedRound(n: int, i: int, j: int)
    requires i + j >= n
    ensures Number(n, i, j) == n * n - 1 - Number(n, n - 1 - i, n - 1 - j)
  {
    var s, s' := i + j, (n - 1 - i) + (n - 1 - j);
    assert s' == 2 * (n - 1) - s && s' < n;
    assert s' % 2 == s % 2;
  }

  /** The numbers of an upper diagonal. */
  lemma UpperRange(n: int, i: int, j: int)
    requires InBlock(n, i, j) && i + j < n
    ensures 0 <= Triangle(i + j) <= Number(n, i, j) <= Triangle(i + j) + i + j < Triangle(n)
  {
    TriangleMonotone(i + j, n);
    TriangleMonotone(i + j, i + j);
  }

  lemma LowerRange(n: int, i: int, j: int)
    requires InBlock(n, i, j) && i + j >= n
    ensures Triangle(n) <= Number(n, i, j) < n * n
    ensures InBlock(n, n - 1 - i, n - 1 - j) && (n - 1 - i) + (n - 1 - j) < n - 1
  {
    var i', j' := n - 1 - i, n - 1 - j;
    TurnedRound(n, i, j);
    UpperRange(n, i', j');
    TriangleMonotone(i' + j', n - 1);
    SquareIsTriangles(n);
  }

  /** All numbers are below n * n. */
  lemma NumberRange(n: int, i: int, j: int)
    requires InBlock(n, i, j)
    ensures 0 <= Number(n, i, j) < n * n
  {
    if i + j < n {
      UpperRange(n, i, j);
      SquareIsTriangles(n);
      TriangleMonotone(n - 1, n - 1);
    } else {
      LowerRange(n, i, j);
      TriangleMonotone(n, n);
    }
  }

  lemma SameUpper(n: int, i: int, j: int, i': int, j': int)
    requires InBlock(n, i, j) && InBlock(n, i', j') && i + j < n && i' + j' < n
    requires Number(n, i, j) == Number(n, i', j')
    ensures i == i' && j == j'
  {
    UpperRange(n, i, j);
    UpperRange(n, i', j');
    if i + j < i' + j' {
      TriangleMonotone(i + j, i' + j');
    } else if i' + j' < i + j {
      TriangleMonotone(i' + j', i + j);
    }
  }

  /** No number occurs twice. */
  lemma NumberInjective(n: int, i: int, j: int, i': int, j': int)
    requires InBlock(n, i, j) && InBlock(n, i', j') && Number(n, i, j) == Number(n, i', j')
    ensures i == i' && j == j'
  {
    if i + j < n && i' + j' < n {
      SameUpper(n, i, j, i', j');
    } else if i + j < n {
      UpperRange(n, i, j);
      LowerRange(n, i', j');
    } else if i' + j' < n {
      UpperRange(n, i', j');
      LowerRange(n, i, j);
    } else {
      LowerRange(n, i, j);
      LowerRange(n, i', j');
      TurnedRound(n, i, j);
      TurnedRound(n, i', j');
      SameUpper(n, n - 1 - i, n - 1 - j, n - 1 - i', n - 1 - j');
    }
  }

  /** The diagonal of number k, searched from s on. */
  lemma {:induction false} FindDiagonal(k: int, s: int, n: int) returns (t: int)
    requires 0 <= s < n && Triangle(s) <= k < Triangle(n)
    ensures s <= t < n && Triangle(t) <= k < Triangle(t + 1)
    decreases n - s
  {
    t := s;
    if k >= Triangle(s + 1) {
      t := FindDiagonal(k, s + 1, n);
    }
  }

  lemma FindUpper(n: int, k: int) returns (i: int, j: int)
    requires 0 < n && 0 <= k < Triangle(n)
    ensures InBlock(n, i, j) && i + j < n && Number(n, i, j) == k
  {
    var s := FindDiagonal(k, 0, n);
    TriangleStep(s);
    var x := k - Triangle(s);
    i, j := if s % 2 == 0 then s - x else x, if s % 2 == 0 then x else s - x;
  }

  /** Every number below n * n occurs. */
  lemma NumberSurjective(n: int, k: int) returns (i: int, j: int)
    requires 0 <= n && 0 <= k < n * n
    ensures InBlock(n, i, j) && Number(n, i, j) == k
  {
    SquareIsTriangles(n);
    if k < Triangle(n) {
      i, j := FindUpper(n, k);
    } else {
      TriangleStep(n - 1);
      var i', j' := FindUpper(n, n * n - 1 - k);
      BelowDiagonal(n, i', j');
      i, j := n - 1 - i', n - 1 - j';
      TurnedRound(n, i, j);
    }
  }

  lemma BelowDiagonal(n: int, i: int, j: int)
    requires InBlock(n, i, j) && i + j < n && Number(n, i, j) < Triangle(n - 1)
    ensures i + j < n - 1
  {
    UpperRange(n, i, j);
  }

  // ----- the walk -----

  /** The cell after (i, j): along the diagonal, or along the border to the next one. */
  function Next(n: int, i: int, j: int): (int, int) {
    if (i + j) % 2 == 0 then
      if j == n - 1 then (i + 1, j) else if i == 0 then (i, j + 1) else (i - 1, j + 1)
    else
      if i == n - 1 then (i, j + 1) else if j == 0 then (i + 1, j) else (i + 1, j - 1)
  }

  lemma NextUpper(n: int, i: int, j: int)
    requires InBlock(n, i, j) && i + j < n - 1
    ensures var (i', j') := Next(n, i, j); InBlock(n, i', j') && Number(n, i', j') == Number(n, i, j) + 1
  {
    TriangleStep(i + j);
  }

  /** The numbers follow the walk, from the first cell to the last. */
  lemma NumbersFollow(n: int, i: int, j: int)
    requires InBlock(n, i, j)
    ensures Number(n, 0, 0) == 0
    ensures (i, j) != (n - 1, n - 1) ==>
              var (i', j') := Next(n, i, j); InBlock(n, i', j') && Number(n, i', j') == Number(n, i, j) + 1
  {
    if i + j < n - 1 {
      NextUpper(n, i, j);
    } else if (i, j) != (n - 1, n - 1) {
      NextLower(n, i, j);
    }
  }

  lemma NextLower(n: int, i: int, j: int)
    requires InBlock(n, i, j) && i + j >= n - 1 && (i, j) != (n - 1, n - 1)
    ensures var (i', j') := Next(n, i, j); InBlock(n, i', j') && Number(n, i', j') == Number(n, i, j) + 1
  {
    var (i', j') := Next(n, i, j);
    assert i' + j' == i + j || i' + j' == i + j + 1;
    assert (i + j + 1) % 2 == 1 - (i + j) % 2;
    NumberLower(n, i, j);
    NumberLower(n, i', j');
    TriangleStep((n - 1 - i) + (n - 1 - j) - 1);
    hide Triangle, Number;
  }

  /** The formula of the lower half holds on the middle diagonal too. */
  lemma NumberLower(n: int, i: int, j: int)
    requires i + j >= n - 1
    ensures Number(n, i, j) == n * n - Triangle((n - 1 - i) + (n - 1 - j)) - (n - Along(i, j))
  {
    SquareIsTriangles(n);
    TriangleStep(n - 1);
    hide Triangle;
  }

  /** Consecutive numbers stand in neighbouring cells. */
  lemma Neighbours(n: int, i: int, j: int, i': int, j': int)
    requires InBlock(n, i, j) && InBlock(n, i', j') && Number(n, i', j') == Number(n, i, j) + 1
    ensures (i', j') == Next(n, i, j) && -1 <= i - i' <= 1 && -1 <= j - j' <= 1
  {
    NumberRange(n, i', j');
    assert (i, j) != (n - 1, n - 1);
    NumbersFollow(n, i, j);
    NumberInjective(n, Next(n, i, j).0, Next(n, i, j).1, i', j');
    hide Number;
  }

  // ----- the program -----

  /** zigzag: a numbers the cells, and b leads from every number back to its cell. */
  method Fill(n: nat) returns (a: array2<int>, b: array<(int, int)>)
    ensures a.Length0 == n && a.Length1 == n && b.Length == n * n
    ensures forall i, j | InBlock(n, i, j) :: a[i, j] == Number(n, i, j) && 0 <= a[i, j] < n * n && b[a[i, j]] == (i, j)
    ensures forall k | 0 <= k < n * n :: InBlock(n, b[k].0, b[k].1) && a[b[k].0, b[k].1] == k
  {
    a := new int[n, n];
    b := new (int, int)[n * n];
    for i := 0 to n
      invariant forall x, y | 0 <= x < i && 0 <= y < n :: Placed(a, b, n, x, y)
    {
      for j := 0 to n
        invariant forall x, y | 0 <= x < i && 0 <= y < n :: Placed(a, b, n, x, y)
        invariant forall y | 0 <= y < j :: Placed(a, b, n, i, y)
      {
        Place(a, b, n, i, j);
      }
    }
    forall i, j | InBlock(n, i, j)
      ensures a[i, j] == Number(n, i, j) && 0 <= a[i, j] < n * n && b[a[i, j]] == (i, j)
    {
      assert Placed(a, b, n, i, j);
    }
    forall k | 0 <= k < n * n
      ensures InBlock(n, b[k].0, b[k].1) && a[b[k].0, b[k].1] == k
    {
      var i, j := NumberSurjective(n, k);
      assert Placed(a, b, n, i, j);
    }
  }

  ghost predicate Placed(a: array2<int>, b: array<(int, int)>, n: int, i: int, j: int)
    requires a.Length0 == n && a.Length1 == n && b.Length == n * n && InBlock(n, i, j)
    reads a, b
  {
    a[i, j] == Number(n, i, j) && 0 <= a[i, j] < n * n && b[a[i, j]] == (i, j)
  }

  method Place(a: array2<int>, b: array<(int, int)>, n: int, i: int, j: int)
    requires a.Length0 == n && a.Length1 == n && b.Length == n * n && InBlock(n, i, j)
    modifies a, b
    ensures Placed(a, b, n, i, j)
    ensures forall x, y | InBlock(n, x, y) && old(Placed(a, b, n, x, y)) :: Placed(a, b, n, x, y)
  {
    NumberRange(n, i, j);
    var s := i + j;
    if s < n {
      a[i, j] := s * (s + 1) / 2 + if (i + j) % 2 == 0 then j else i;
    } else {
      s := (n - 1 - i) + (n - 1 - j);
      a[i, j] := n * n - s * (s + 1) / 2 - (n - if (i + j) % 2 == 0 then j else i);
    }
    b[a[i, j]] := (i, j);
    forall x, y | InBlock(n, x, y) && old(Placed(a, b, n, x, y))
      ensures Placed(a, b, n, x, y)
    {
      if Number(n, x, y) == Number(n, i, j) {
        NumberInjective(n, x, y, i, j);
      }
    }
  }
}
