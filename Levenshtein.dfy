/** levenshteinDistance with the table bounds corrected: an (m+1) x (n+1)
  * table, base cases over the whole of row 0 and column 0, and the fill loop
  * over the interior cells only, in the source's order (column j outer,
  * row i inner). */
module Levenshtein {
  import opened EditDistance

  /** Zeroes every cell of the table (the source zeroes an n x n corner). */
  method ZeroTable(d: array2<int>)
    modifies d
    ensures forall i, j :: 0 <= i < d.Length0 && 0 <= j < d.Length1 ==> d[i, j] == 0
  {
    for i := 0 to d.Length0
      invariant forall a, b :: 0 <= a < i && 0 <= b < d.Length1 ==> d[a, b] == 0
    {
      for j := 0 to d.Length1
        invariant forall a, b :: 0 <= a < i && 0 <= b < d.Length1 ==> d[a, b] == 0
        invariant forall b :: 0 <= b < j ==> d[i, b] == 0
      {
        d[i, j] := 0;
      }
    }
  }

  /** Writes column 0 with the row index and row 0 with the column index
    * (the source bounds both loops by n); leaves the interior as it was. */
  method SetBaseCases(d: array2<int>)
    modifies d
    ensures forall i :: 0 <= i < d.Length0 && 0 < d.Length1 ==> d[i, 0] == i
    ensures forall j :: 0 <= j < d.Length1 && 0 < d.Length0 ==> d[0, j] == j
    ensures forall i, j :: 1 <= i < d.Length0 && 1 <= j < d.Length1 ==> d[i, j] == old(d[i, j])
  {
    if d.Length1 > 0 {
      for i := 0 to d.Length0
        invariant forall a :: 0 <= a < i ==> d[a, 0] == a
        invariant forall a, b :: 0 <= a < d.Length0 && 1 <= b < d.Length1 ==> d[a, b] == old(d[a, b])
      {
        d[i, 0] := i;
      }
    }
    if d.Length0 > 0 {
      for j := 0 to d.Length1
        invariant forall a :: 0 <= a < d.Length0 && 0 < d.Length1 ==> d[a, 0] == a
        invariant forall b :: 0 <= b < j ==> d[0, b] == b
        invariant forall a, b :: 1 <= a < d.Length0 && 1 <= b < d.Length1 ==> d[a, b] == old(d[a, b])
      {
        d[0, j] := j;
      }
    }
  }

  /** Fills column j from row 1 down (the inner loop of the source), each
    * cell from the cell above, the cell to the left and the diagonal; the
    * other columns are left as they were. */
  method FillColumn(d: array2<int>, s: seq<Byte>, t: seq<Byte>, j: nat)
    requires d.Length0 == |s| + 1 && d.Length1 == |t| + 1
    requires 1 <= j <= |t|
    requires d[0, j] == Cell(s, t, 0, j)
    requires forall a, b {:trigger d[a, b]} :: 0 <= a <= |s| && b == j - 1 ==> d[a, b] == Cell(s, t, a, b)
    modifies d
    ensures forall a {:trigger d[a, j]} :: 0 <= a <= |s| ==> d[a, j] == Cell(s, t, a, j)
    ensures forall a, b :: 0 <= a <= |s| && 0 <= b <= |t| && b != j ==> d[a, b] == old(d[a, b])
  {
    for i := 1 to |s| + 1
      invariant forall a {:trigger d[a, j]} :: 0 <= a < i ==> d[a, j] == Cell(s, t, a, j)
      invariant forall a, b :: 0 <= a <= |s| && 0 <= b <= |t| && b != j ==> d[a, b] == old(d[a, b])
    {
      var substitutionCost := SubstitutionCost(s[i - 1], t[j - 1]);
      var up, left, diag := d[i - 1, j], d[i, j - 1], d[i - 1, j - 1];
      assert up == Cell(s, t, i - 1, j) && left == Cell(s, t, i, j - 1) && diag == Cell(s, t, i - 1, j - 1);
      CellStep(s, t, i, j);
      var cell := Min(Min(up + 1, left + 1), diag + substitutionCost);
      assert cell == Cell(s, t, i, j);
      d[i, j] := cell;
    }
  }

  /** Fills every interior cell, column by column (the outer loop of the
    * source); afterwards cell (i, j) is the edit distance of the prefixes
    * s[..i] and t[..j]. The source starts both loops at 0 and compares s[i]
    * with t[j]; here they start at 1 and compare s[i-1] with t[j-1]. */
  method FillCells(d: array2<int>, s: seq<Byte>, t: seq<Byte>)
    requires d.Length0 == |s| + 1 && d.Length1 == |t| + 1
    requires forall i :: 0 <= i <= |s| ==> d[i, 0] == i
    requires forall j :: 0 <= j <= |t| ==> d[0, j] == j
    modifies d
    ensures forall i, j :: 0 <= i <= |s| && 0 <= j <= |t| ==> d[i, j] == EditDist(s[..i], t[..j])
  {
    for j := 1 to |t| + 1
      invariant forall b :: j <= b <= |t| ==> d[0, b] == b
      invariant forall a, b {:trigger d[a, b]} :: 0 <= a <= |s| && 0 <= b < j ==> d[a, b] == Cell(s, t, a, b)
    {
      FillColumn(d, s, t, j);
    }
    forall i, j | 0 <= i <= |s| && 0 <= j <= |t|
      ensures d[i, j] == EditDist(s[..i], t[..j])
    {
      CellIsPrefixDistance(s, t, i, j);
    }
  }

  /** The edit distance of two Go strings: 0 at once when they are equal,
    * otherwise the bottom-right cell of the filled (m+1) x (n+1) table. */
  method LevenshteinDistance(s: seq<Byte>, t: seq<Byte>) returns (r: int)
    ensures r == EditDist(s, t)
    ensures r == 0 <==> s == t
    ensures |s| == 0 ==> r == |t|
    ensures |t| == 0 ==> r == |s|
  {
    if s == t {
      IdentityZero(s);
      return 0;
    }
    var m, n := |s|, |t|;
    var d := new int[m + 1, n + 1];
    ZeroTable(d);
    SetBaseCases(d);
    FillCells(d, s, t);
    r := d[m, n];
    assert s[..m] == s && t[..n] == t;
    ZeroIffEqual(s, t);
  }
}
