/**
  The summary statistic shown beside each frame: how many cells of the grid
  hold a given label (the scar area is the count of Scar cells).
 */
module Stats {
  import opened Parameters

  /** Number of cells among g[i, 0..j] that hold v. */
  function CountRow(g: array2<int>, v: int, i: int, j: int): (r: nat)
    reads g
    requires 0 <= i < g.Length0 && 0 <= j <= g.Length1
    ensures r <= j
    decreases j
  {
    if j == 0 then 0 else CountRow(g, v, i, j - 1) + (if g[i, j - 1] == v then 1 else 0)
  }

  /** Number of cells among rows 0..k of g that hold v. */
  function CountRows(g: array2<int>, v: int, k: int): (r: nat)
    reads g
    requires 0 <= k <= g.Length0
    ensures r <= k * g.Length1
    decreases k
  {
    if k == 0 then 0
    else
      var r := CountRows(g, v, k - 1) + CountRow(g, v, k - 1, g.Length1);
      assert (k - 1) * g.Length1 + g.Length1 == k * g.Length1;
      r
  }

  /** Number of cells of g that hold v. */
  function Count(g: array2<int>, v: int): nat
    reads g
  {
    CountRows(g, v, g.Length0)
  }

  lemma {:induction false} CountRowZeroIff(g: array2<int>, v: int, i: int, j: int)
    requires 0 <= i < g.Length0 && 0 <= j <= g.Length1
    ensures CountRow(g, v, i, j) == 0 <==> forall b :: 0 <= b < j ==> g[i, b] != v
  {
    if j > 0 {
      CountRowZeroIff(g, v, i, j - 1);
    }
  }

  lemma {:induction false} CountRowsZeroIff(g: array2<int>, v: int, k: int)
    requires 0 <= k <= g.Length0
    ensures CountRows(g, v, k) == 0 <==> forall a, b :: 0 <= a < k && 0 <= b < g.Length1 ==> g[a, b] != v
  {
    if k > 0 {
      CountRowsZeroIff(g, v, k - 1);
      CountRowZeroIff(g, v, k - 1, g.Length1);
    }
  }

  /** The count is zero exactly when no cell holds v. */
  lemma CountZeroIff(g: array2<int>, v: int)
    ensures Count(g, v) == 0 <==> forall a, b :: 0 <= a < g.Length0 && 0 <= b < g.Length1 ==> g[a, b] != v
  {
    CountRowsZeroIff(g, v, g.Length0);
  }

  /** The number of scar cells in the grid, counted row by row. */
  method ScarArea(g: array2<int>) returns (n: nat)
    ensures n == Count(g, Scar)
    ensures n <= g.Length0 * g.Length1
  {
    n := 0;
    var i := 0;
    while i < g.Length0
      invariant 0 <= i <= g.Length0
      invariant n == CountRows(g, Scar, i)
    {
      var j := 0;
      var row := 0;
      while j < g.Length1
        invariant 0 <= j <= g.Length1
        invariant row == CountRow(g, Scar, i, j)
      {
        if g[i, j] == Scar {
          row := row + 1;
        }
        j := j + 1;
      }
      n := n + row;
      i := i + 1;
    }
  }
}
