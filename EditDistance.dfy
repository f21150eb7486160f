/** The specification of levenshteinDistance: the edit distance of two Go
  * strings, which are indexed by byte, defined recursively on prefixes so that
  * it is exactly the quantity each cell of the Wagner-Fischer table holds. */
module EditDistance {

  /** Go's `s[i]` on a string yields a byte. */
  type Byte = bv8

  /** Go's built-in `min` on two ints. */
  function Min(a: int, b: int): (r: int)
    ensures r <= a && r <= b
    ensures r == a || r == b
  {
    if a <= b then a else b
  }

  /** The Wagner-Fischer rule for one cell: the cheapest of the cell above
    * plus a deletion, the cell to the left plus an insertion, and the
    * diagonal plus the substitution cost `c`. */
  function Step(up: int, left: int, diag: int, c: int): int {
    Min(Min(up + 1, left + 1), diag + c)
  }

  /** The cost of aligning byte `a` of one string with byte `b` of the other. */
  function SubstitutionCost(a: Byte, b: Byte): (c: nat)
    ensures c <= 1
    ensures c == 0 <==> a == b
  {
    if a == b then 0 else 1
  }

  /** The edit distance of `s` and `t`: the empty prefix is at distance the
    * length of the other string; otherwise the cheapest of deleting the last
    * byte of `s`, inserting the last byte of `t`, or aligning the two last
    * bytes (free when they are equal). */
  ghost function EditDist(s: seq<Byte>, t: seq<Byte>): nat
    decreases |s| + |t|
  {
    if |s| == 0 then |t|
    else if |t| == 0 then |s|
    else
      Step(EditDist(s[..|s| - 1], t), EditDist(s, t[..|t| - 1]),
           EditDist(s[..|s| - 1], t[..|t| - 1]), SubstitutionCost(s[|s| - 1], t[|t| - 1]))
  }

  /** Cell (i, j) of the Wagner-Fischer table, by the table's own
    * recurrence: row 0 and column 0 hold their index, and an interior cell is
    * the minimum of the cell above plus one, the cell to the left plus one and
    * the diagonal plus the substitution cost of s[i-1] and t[j-1].
    * This is the recurrence of EditDist stated on indices instead of prefixes:
    * it gives the array loops a target that mentions no slices, and
    * CellIsPrefixDistance ties it back to EditDist. The body spells out the
    * nested Min rather than calling Step, which keeps the cell-by-cell sample
    * proofs below cheap; CellStep restates it through Step. */
  ghost function Cell(s: seq<Byte>, t: seq<Byte>, i: nat, j: nat): nat
    requires i <= |s| && j <= |t|
    decreases i + j
  {
    if i == 0 then j
    else if j == 0 then i
    else
      Min(Min(Cell(s, t, i - 1, j) + 1,
              Cell(s, t, i, j - 1) + 1),
          Cell(s, t, i - 1, j - 1) + SubstitutionCost(s[i - 1], t[j - 1]))
  }

  /** The recurrence of EditDist read on prefixes: the distance of s[..i]
    * and t[..j] is the minimum of deleting s[i-1], inserting t[j-1], or
    * aligning the two at their substitution cost. */
  lemma PrefixStep(s: seq<Byte>, t: seq<Byte>, i: nat, j: nat)
    requires 1 <= i <= |s| && 1 <= j <= |t|
    ensures EditDist(s[..i], t[..j])
         == Step(EditDist(s[..i - 1], t[..j]), EditDist(s[..i], t[..j - 1]),
                 EditDist(s[..i - 1], t[..j - 1]), SubstitutionCost(s[i - 1], t[j - 1]))
  {
    assert s[..i][..i - 1] == s[..i - 1];
    assert t[..j][..j - 1] == t[..j - 1];
  }

  /** One step of the table's recurrence at an interior cell. */
  lemma CellStep(s: seq<Byte>, t: seq<Byte>, i: nat, j: nat)
    requires 1 <= i <= |s| && 1 <= j <= |t|
    ensures Cell(s, t, i, j)
         == Step(Cell(s, t, i - 1, j), Cell(s, t, i, j - 1), Cell(s, t, i - 1, j - 1),
                 SubstitutionCost(s[i - 1], t[j - 1]))
  {
  }

  /** An interior cell agrees with the prefix distance once the cell above,
    * the cell to the left and the diagonal do. */
  lemma InteriorCell(s: seq<Byte>, t: seq<Byte>, i: nat, j: nat)
    requires 1 <= i <= |s| && 1 <= j <= |t|
    requires Cell(s, t, i - 1, j) == EditDist(s[..i - 1], t[..j])
    requires Cell(s, t, i, j - 1) == EditDist(s[..i], t[..j - 1])
    requires Cell(s, t, i - 1, j - 1) == EditDist(s[..i - 1], t[..j - 1])
    ensures Cell(s, t, i, j) == EditDist(s[..i], t[..j])
  {
    PrefixStep(s, t, i, j);
    CellStep(s, t, i, j);
  }

  /** Every cell of the table holds the edit distance of the prefixes s[..i]
    * and t[..j]. */
  lemma {:induction false} CellIsPrefixDistance(s: seq<Byte>, t: seq<Byte>, i: nat, j: nat)
    requires i <= |s| && j <= |t|
    ensures Cell(s, t, i, j) == EditDist(s[..i], t[..j])
    decreases i + j
  {
    if i == 0 {
      assert |s[..i]| == 0 && |t[..j]| == j;
    } else if j == 0 {
      assert |s[..i]| == i && |t[..j]| == 0;
    } else {
      CellIsPrefixDistance(s, t, i - 1, j);
      CellIsPrefixDistance(s, t, i, j - 1);
      CellIsPrefixDistance(s, t, i - 1, j - 1);
      InteriorCell(s, t, i, j);
    }
  }

  /** Each choice of the recurrence bounds the distance from above: deleting
    * the last byte of `s`, inserting the last byte of `t`, or aligning the two
    * last bytes. */
  lemma StepBounds(s: seq<Byte>, t: seq<Byte>)
    ensures |s| > 0 ==> EditDist(s, t) <= EditDist(s[..|s| - 1], t) + 1
    ensures |t| > 0 ==> EditDist(s, t) <= EditDist(s, t[..|t| - 1]) + 1
    ensures |s| > 0 && |t| > 0 ==>
      EditDist(s, t) <= EditDist(s[..|s| - 1], t[..|t| - 1]) + SubstitutionCost(s[|s| - 1], t[|t| - 1])
  {
    if |s| > 0 && |t| == 0 {
      assert EditDist(s[..|s| - 1], t) == |s| - 1;
    } else if |s| == 0 && |t| > 0 {
      assert EditDist(s, t[..|t| - 1]) == |t| - 1;
    }
  }

  /** The bottom-right cell is the distance of the whole strings. */
  lemma LastCell(s: seq<Byte>, t: seq<Byte>)
    ensures Cell(s, t, |s|, |t|) == EditDist(s, t)
  {
    CellIsPrefixDistance(s, t, |s|, |t|);
    assert s[..|s|] == s && t[..|t|] == t;
  }

  /** A string is at distance 0 from itself, so the source's shortcut for
    * `s == t` returns what the table would. */
  lemma {:induction false} IdentityZero(s: seq<Byte>)
    ensures EditDist(s, s) == 0
  {
    if |s| > 0 {
      IdentityZero(s[..|s| - 1]);
    }
  }

  /** Distance 0 between non-empty strings needs equal last bytes and
    * distance 0 between the rest: deleting or inserting costs at least 1. */
  lemma ZeroLast(s: seq<Byte>, t: seq<Byte>)
    requires |s| > 0 && |t| > 0 && EditDist(s, t) == 0
    ensures EditDist(s[..|s| - 1], t[..|t| - 1]) == 0
    ensures s[|s| - 1] == t[|t| - 1]
  {
    var s', t' := s[..|s| - 1], t[..|t| - 1];
    var c := SubstitutionCost(s[|s| - 1], t[|t| - 1]);
    assert Step(EditDist(s', t), EditDist(s, t'), EditDist(s', t'), c) == 0;
  }

  /** Two non-empty strings are equal when their last bytes and the rest are. */
  lemma EqualByLast(s: seq<Byte>, t: seq<Byte>)
    requires |s| > 0 && |t| > 0
    requires s[..|s| - 1] == t[..|t| - 1] && s[|s| - 1] == t[|t| - 1]
    ensures s == t
  {
    assert |s| == |t|;
    forall k | 0 <= k < |s|
      ensures s[k] == t[k]
    {
      if k < |s| - 1 {
        assert s[k] == s[..|s| - 1][k] && t[k] == t[..|t| - 1][k];
      }
    }
  }

  /** Distance 0 exactly when the two strings are equal byte for byte. */
  lemma {:induction false} ZeroIffEqual(s: seq<Byte>, t: seq<Byte>)
    ensures EditDist(s, t) == 0 <==> s == t
    decreases |s| + |t|
  {
    if EditDist(s, t) == 0 && |s| > 0 && |t| > 0 {
      ZeroLast(s, t);
      ZeroIffEqual(s[..|s| - 1], t[..|t| - 1]);
      EqualByLast(s, t);
    } else if s == t {
      IdentityZero(s);
    }
  }

  /** Edit distance does not depend on which string is the source. */
  lemma {:induction false} Symmetric(s: seq<Byte>, t: seq<Byte>)
    ensures EditDist(s, t) == EditDist(t, s)
    decreases |s| + |t|
  {
    if |s| > 0 && |t| > 0 {
      var s', t' := s[..|s| - 1], t[..|t| - 1];
      Symmetric(s', t);
      Symmetric(s, t');
      Symmetric(s', t');
    }
  }

  /** The distance is at least the difference of the lengths and at most the
    * longer length. */
  lemma {:induction false} LengthBounds(s: seq<Byte>, t: seq<Byte>)
    ensures |s| - |t| <= EditDist(s, t)
    ensures |t| - |s| <= EditDist(s, t)
    ensures EditDist(s, t) <= if |s| <= |t| then |t| else |s|
    decreases |s| + |t|
  {
    if |s| > 0 && |t| > 0 {
      var s', t' := s[..|s| - 1], t[..|t| - 1];
      LengthBounds(s', t);
      LengthBounds(s, t');
      LengthBounds(s', t');
    }
  }

  const Kitten: seq<Byte> := [0x6b, 0x69, 0x74, 0x74, 0x65, 0x6e]  // "kitten"
  const Sitting: seq<Byte> := [0x73, 0x69, 0x74, 0x74, 0x69, 0x6e, 0x67]  // "sitting"

  /** The bytes of "kitten" and "sitting", one by one. */
  lemma KittenSittingBytes(s: seq<Byte>, t: seq<Byte>)
    requires s == Kitten && t == Sitting
    ensures |s| == 6 && s[0] == 0x6b && s[1] == 0x69 && s[2] == 0x74 && s[3] == 0x74 && s[4] == 0x65 && s[5] == 0x6e
    ensures |t| == 7 && t[0] == 0x73 && t[1] == 0x69 && t[2] == 0x74 && t[3] == 0x74 && t[4] == 0x69 && t[5] == 0x6e && t[6] == 0x67
  {
  }

  /** "kitten" and "sitting" are 3 edits apart. The table is filled row by row. */
  lemma KittenSitting(s: seq<Byte>, t: seq<Byte>)
    requires s == Kitten && t == Sitting
    ensures EditDist(s, t) == 3
  {
    KittenSittingBytes(s, t);
    assert Cell(s, t, 1, 1) == 1; assert Cell(s, t, 1, 2) == 2; assert Cell(s, t, 1, 3) == 3; assert Cell(s, t, 1, 4) == 4; assert Cell(s, t, 1, 5) == 5; assert Cell(s, t, 1, 6) == 6; assert Cell(s, t, 1, 7) == 7;
    assert Cell(s, t, 2, 1) == 2; assert Cell(s, t, 2, 2) == 1; assert Cell(s, t, 2, 3) == 2; assert Cell(s, t, 2, 4) == 3; assert Cell(s, t, 2, 5) == 4; assert Cell(s, t, 2, 6) == 5; assert Cell(s, t, 2, 7) == 6;
    assert Cell(s, t, 3, 1) == 3; assert Cell(s, t, 3, 2) == 2; assert Cell(s, t, 3, 3) == 1; assert Cell(s, t, 3, 4) == 2; assert Cell(s, t, 3, 5) == 3; assert Cell(s, t, 3, 6) == 4; assert Cell(s, t, 3, 7) == 5;
    assert Cell(s, t, 4, 1) == 4; assert Cell(s, t, 4, 2) == 3; assert Cell(s, t, 4, 3) == 2; assert Cell(s, t, 4, 4) == 1; assert Cell(s, t, 4, 5) == 2; assert Cell(s, t, 4, 6) == 3; assert Cell(s, t, 4, 7) == 4;
    assert Cell(s, t, 5, 1) == 5; assert Cell(s, t, 5, 2) == 4; assert Cell(s, t, 5, 3) == 3; assert Cell(s, t, 5, 4) == 2; assert Cell(s, t, 5, 5) == 2; assert Cell(s, t, 5, 6) == 3; assert Cell(s, t, 5, 7) == 4;
    assert Cell(s, t, 6, 1) == 6; assert Cell(s, t, 6, 2) == 5; assert Cell(s, t, 6, 3) == 4; assert Cell(s, t, 6, 4) == 3; assert Cell(s, t, 6, 5) == 3; assert Cell(s, t, 6, 6) == 2; assert Cell(s, t, 6, 7) == 3;
    LastCell(s, t);
  }

  const Flaw: seq<Byte> := [0x66, 0x6c, 0x61, 0x77]  // "flaw"
  const Lawn: seq<Byte> := [0x6c, 0x61, 0x77, 0x6e]  // "lawn"

  /** The bytes of "flaw" and "lawn", one by one. */
  lemma FlawLawnBytes(s: seq<Byte>, t: seq<Byte>)
    requires s == Flaw && t == Lawn
    ensures |s| == 4 && s[0] == 0x66 && s[1] == 0x6c && s[2] == 0x61 && s[3] == 0x77
    ensures |t| == 4 && t[0] == 0x6c && t[1] == 0x61 && t[2] == 0x77 && t[3] == 0x6e
  {
  }

  /** "flaw" and "lawn" are 2 edits apart. The table is filled row by row. */
  lemma FlawLawn(s: seq<Byte>, t: seq<Byte>)
    requires s == Flaw && t == Lawn
    ensures EditDist(s, t) == 2
  {
    FlawLawnBytes(s, t);
    assert Cell(s, t, 1, 1) == 1; assert Cell(s, t, 1, 2) == 2; assert Cell(s, t, 1, 3) == 3; assert Cell(s, t, 1, 4) == 4;
    assert Cell(s, t, 2, 1) == 1; assert Cell(s, t, 2, 2) == 2; assert Cell(s, t, 2, 3) == 3; assert Cell(s, t, 2, 4) == 4;
    assert Cell(s, t, 3, 1) == 2; assert Cell(s, t, 3, 2) == 1; assert Cell(s, t, 3, 3) == 2; assert Cell(s, t, 3, 4) == 3;
    assert Cell(s, t, 4, 1) == 3; assert Cell(s, t, 4, 2) == 2; assert Cell(s, t, 4, 3) == 1; assert Cell(s, t, 4, 4) == 2;
    LastCell(s, t);
  }
}
