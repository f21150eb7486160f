/** The allocation pattern of levenshteinDistance: one flat buffer of
  * rows * width ints is cut into `rows` row views of `width` cells each, by
  * repeatedly taking the first `width` cells of what remains. */
module RowViews {

  /** The half-open range [lo, hi) of the flat buffer that one row views. */
  datatype RowView = RowView(lo: nat, hi: nat)

  /** The row views of a buffer of rows * width cells: row i starts at
    * i * width, all rows have `width` cells, they follow one another without
    * overlapping, and none reaches past the end of the buffer. */
  method SliceRows(rows: nat, width: nat) returns (views: seq<RowView>)
    ensures |views| == rows
    ensures forall i :: 0 <= i < rows ==> views[i].lo == i * width && views[i].hi == views[i].lo + width
    ensures forall i :: 0 <= i < rows ==> views[i].hi <= rows * width
    ensures forall i, k :: 0 <= i < k < rows ==> views[i].hi <= views[k].lo
  {
    views := [];
    var rest := 0;  // where the not yet sliced part of the buffer starts
    for i := 0 to rows
      invariant |views| == i
      invariant rest == i * width
      invariant forall a :: 0 <= a < i ==> views[a].lo == a * width && views[a].hi == views[a].lo + width
      invariant forall a :: 0 <= a < i ==> views[a].hi <= rest
      invariant forall a, k :: 0 <= a < k < i ==> views[a].hi <= views[k].lo
    {
      views := views + [RowView(rest, rest + width)];
      rest := rest + width;
    }
  }
}
