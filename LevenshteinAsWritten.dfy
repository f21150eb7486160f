/** levenshteinDistance exactly as main.go writes it, with Go's run-time
  * index check made explicit: every access the check can reject ends the
  * call with an index-out-of-range panic at its line, and every access it
  * never rejects is written as a plain access whose bounds Dafny proves. */
module LevenshteinAsWritten {
  import opened EditDistance
  import opened RowViews
  import opened Levenshtein

  /** How a call ends: with a distance, or with Go's index-out-of-range panic
    * raised at the given line of cmd/plant-based-data/main.go. */
  datatype Outcome = Returned(distance: int) | IndexOutOfRange(line: nat)

  /** Only equal strings get an answer; every other input panics, at the
    * zeroing loop when t is longer than s, at the first read of d[i-1] in the
    * fill loop when t is non-empty and not longer, and at the final d[m][n]
    * when t is empty. */
  method LevenshteinAsWritten(s: seq<Byte>, t: seq<Byte>) returns (r: Outcome)
    ensures r.Returned? <==> s == t
    ensures s == t ==> r == Returned(0)
    ensures s != t && |s| < |t| ==> r == IndexOutOfRange(110)
    ensures s != t && 0 < |t| <= |s| ==> r == IndexOutOfRange(127)
    ensures s != t && |t| == 0 ==> r == IndexOutOfRange(132)
  {
    if s == t {
      return Returned(0);
    }
    var m, n := |s|, |t|;
    // m rows of n cells each, cut from one buffer of n*m cells
    var d := SliceRows(m, n);
    var distances := new int[n * m];

    // zeroing: the row index runs up to n, but d has only m rows
    for i := 0 to n
      invariant i <= m
    {
      for j := 0 to n
        invariant 0 < j ==> i < m
      {
        if i >= |d| {
          return IndexOutOfRange(110);
        }
        distances[d[i].lo + j] := 0;
      }
    }
    // From here on n <= m, so the base-case loops stay in range.
    for i := 0 to n {
      distances[d[i].lo] := i;
    }
    for j := 0 to n {
      distances[d[0].lo + j] := j;
    }

    // The fill loop is entered exactly when n > 0 (and then m >= n > 0). Its
    // first iteration has j == 0 and i == 0: s[i] and t[j] are in range, and
    // the next read, d[i-1][j], is d[-1].
    if 0 < n {
      var substitutionCost := SubstitutionCost(s[0], t[0]);
      return IndexOutOfRange(127);
    }
    // d has m rows, so d[m][n] is out of range.
    return IndexOutOfRange(132);
  }

  /** The base-case loops of lines 113-118 as written, run on a table of the
    * corrected shape: column 0 is written only for rows 0 .. n-1 and row 0 only
    * for columns 0 .. n-1. The column loop panics when the table has fewer
    * than n rows; otherwise rows n and up of column 0 and cell (0, n) keep
    * whatever they held. */
  method SetBaseCasesAsWritten(d: array2<int>, n: nat) returns (panicked: bool)
    requires d.Length1 == n + 1
    modifies d
    ensures panicked <==> n > d.Length0
    ensures panicked ==> forall i :: 0 <= i < d.Length0 ==> d[i, 0] == i
    ensures panicked && 0 < d.Length0 ==> forall j :: 1 <= j < d.Length1 ==> d[0, j] == old(d[0, j])
    ensures !panicked ==> forall i :: 0 <= i < n ==> d[i, 0] == i
    ensures !panicked ==> forall j :: 0 <= j < n ==> d[0, j] == j
    ensures !panicked ==> forall i :: n <= i < d.Length0 ==> d[i, 0] == old(d[i, 0])
    ensures !panicked && 0 < d.Length0 ==> d[0, n] == old(d[0, n])
    ensures forall i, j :: 1 <= i < d.Length0 && 1 <= j < d.Length1 ==> d[i, j] == old(d[i, j])
  {
    for i := 0 to n
      invariant i <= d.Length0
      invariant forall a :: 0 <= a < i ==> d[a, 0] == a
      invariant forall a :: i <= a < d.Length0 ==> d[a, 0] == old(d[a, 0])
      invariant forall a, b :: 0 <= a < d.Length0 && 1 <= b < d.Length1 ==> d[a, b] == old(d[a, b])
    {
      if i >= d.Length0 {
        return true;
      }
      d[i, 0] := i;
    }
    for j := 0 to n
      invariant forall a :: 0 <= a < n ==> d[a, 0] == a
      invariant forall a :: n <= a < d.Length0 ==> d[a, 0] == old(d[a, 0])
      invariant forall b :: 0 <= b < j ==> d[0, b] == b
      invariant 0 < d.Length0 ==> d[0, n] == old(d[0, n])
      invariant forall a, b :: 1 <= a < d.Length0 && 1 <= b < d.Length1 ==> d[a, b] == old(d[a, b])
    {
      d[0, j] := j;
    }
    return false;
  }

  /** With every other bound corrected, the base-case bounds of lines 113-118
    * alone give a wrong distance: for s = "ab" and t = "b" cells (1, 0),
    * (2, 0) and (0, 1) stay 0, and the fill (unrolled here for the two
    * interior cells of this 3 x 2 table) returns 0 where the distance is 1. */
  method BaseCasesCounterexample(s: seq<Byte>, t: seq<Byte>) returns (r: int)
    requires s == [0x61, 0x62] && t == [0x62]
    ensures r == 0
    ensures r != EditDist(s, t)
  {
    var d := new int[3, 2];
    ZeroTable(d);
    var panicked := SetBaseCasesAsWritten(d, 1);
    assert d[0, 0] == 0 && d[0, 1] == 0 && d[1, 0] == 0 && d[2, 0] == 0;
    d[1, 1] := Min(Min(d[0, 1] + 1, d[1, 0] + 1), d[0, 0] + SubstitutionCost(s[0], t[0]));
    d[2, 1] := Min(Min(d[1, 1] + 1, d[2, 0] + 1), d[1, 0] + SubstitutionCost(s[1], t[0]));
    r := d[2, 1];
    DistanceAbB(s, t);
  }

  /** "ab" and "b" are one deletion apart. */
  lemma DistanceAbB(s: seq<Byte>, t: seq<Byte>)
    requires s == [0x61, 0x62] && t == [0x62]
    ensures EditDist(s, t) == 1
  {
    assert Cell(s, t, 1, 1) == 1 && Cell(s, t, 2, 1) == 1;
    LastCell(s, t);
  }
}
