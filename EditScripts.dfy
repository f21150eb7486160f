/** Edit distance read as the glossary defines it: the least number of
  * single-byte insertions, deletions and substitutions that turn one string
  * into the other. An edit script aligns the two strings from their ends;
  * the lemmas here show that the recursive EditDist is exactly the cost of a
  * cheapest script, and derive the triangle inequality from that. */
module EditScripts {
  import opened EditDistance

  /** One step of an alignment, read from the end of both strings. */
  datatype Edit =
    | Keep        // the last bytes of both strings are equal and kept
    | Substitute  // the last byte of `s` is replaced by a different last byte of `t`
    | Insert      // the last byte of `t` is inserted
    | Delete      // the last byte of `s` is deleted

  function EditCost(op: Edit): nat {
    if op == Keep then 0 else 1
  }

  /** The number of insertions, deletions and substitutions in a script. */
  function Cost(e: seq<Edit>): nat
    decreases |e|
  {
    if |e| == 0 then 0 else Cost(e[..|e| - 1]) + EditCost(e[|e| - 1])
  }

  /** `e` turns `s` into `t`, its last step dealing with the last bytes. */
  ghost predicate Transforms(e: seq<Edit>, s: seq<Byte>, t: seq<Byte>)
    decreases |e|
  {
    if |e| == 0 then s == [] && t == []
    else
      var e' := e[..|e| - 1];
      match e[|e| - 1]
      case Keep =>
        |s| > 0 && |t| > 0 && s[|s| - 1] == t[|t| - 1] && Transforms(e', s[..|s| - 1], t[..|t| - 1])
      case Substitute =>
        |s| > 0 && |t| > 0 && s[|s| - 1] != t[|t| - 1] && Transforms(e', s[..|s| - 1], t[..|t| - 1])
      case Insert =>
        |t| > 0 && Transforms(e', s, t[..|t| - 1])
      case Delete =>
        |s| > 0 && Transforms(e', s[..|s| - 1], t)
  }

  lemma AppendStep(e: seq<Edit>, op: Edit)
    ensures (e + [op])[..|e|] == e && (e + [op])[|e|] == op
    ensures Cost(e + [op]) == Cost(e) + EditCost(op)
  {
    assert (e + [op])[..|e|] == e;
  }

  /** A script that reaches EditDist: whichever choice of the recurrence is
    * cheapest, taken from the end. */
  ghost function Alignment(s: seq<Byte>, t: seq<Byte>): (e: seq<Edit>)
    ensures Transforms(e, s, t)
    ensures Cost(e) == EditDist(s, t)
    decreases |s| + |t|
  {
    if |s| == 0 && |t| == 0 then []
    else if |s| == 0 then
      var e := Alignment(s, t[..|t| - 1]) + [Insert];
      AppendStep(Alignment(s, t[..|t| - 1]), Insert);
      e
    else if |t| == 0 then
      var e := Alignment(s[..|s| - 1], t) + [Delete];
      AppendStep(Alignment(s[..|s| - 1], t), Delete);
      e
    else
      var s', t' := s[..|s| - 1], t[..|t| - 1];
      var del := EditDist(s', t) + 1;
      var ins := EditDist(s, t') + 1;
      var sub := EditDist(s', t') + SubstitutionCost(s[|s| - 1], t[|t| - 1]);
      if sub <= del && sub <= ins then
        var op := if s[|s| - 1] == t[|t| - 1] then Keep else Substitute;
        AppendStep(Alignment(s', t'), op);
        Alignment(s', t') + [op]
      else if del <= ins then
        AppendStep(Alignment(s', t), Delete);
        Alignment(s', t) + [Delete]
      else
        AppendStep(Alignment(s, t'), Insert);
        Alignment(s, t') + [Insert]
  }

  /** No script is cheaper than EditDist. */
  lemma {:induction false} LowerBound(e: seq<Edit>, s: seq<Byte>, t: seq<Byte>)
    requires Transforms(e, s, t)
    ensures EditDist(s, t) <= Cost(e)
    decreases |e|
  {
    if |e| > 0 {
      var e' := e[..|e| - 1];
      match e[|e| - 1]
      case Keep =>
        LowerBound(e', s[..|s| - 1], t[..|t| - 1]);
      case Substitute =>
        LowerBound(e', s[..|s| - 1], t[..|t| - 1]);
      case Insert =>
        LowerBound(e', s, t[..|t| - 1]);
      case Delete =>
        LowerBound(e', s[..|s| - 1], t);
    }
  }

  /** EditDist is the least cost of a script: one reaches it, none is below. */
  lemma MinimalScript(s: seq<Byte>, t: seq<Byte>)
    ensures exists e :: Transforms(e, s, t) && Cost(e) == EditDist(s, t)
    ensures forall e :: Transforms(e, s, t) ==> EditDist(s, t) <= Cost(e)
  {
    var a := Alignment(s, t);
    assert Transforms(a, s, t) && Cost(a) == EditDist(s, t);
    forall e | Transforms(e, s, t)
      ensures EditDist(s, t) <= Cost(e)
    {
      LowerBound(e, s, t);
    }
  }

  /** Running a script from `s` to `t` and then one from `t` to `u` costs at
    * least the distance from `s` to `u`. */
  lemma {:induction false} ComposeBound(e1: seq<Edit>, e2: seq<Edit>, s: seq<Byte>, t: seq<Byte>, u: seq<Byte>)
    requires Transforms(e1, s, t) && Transforms(e2, t, u)
    ensures EditDist(s, u) <= Cost(e1) + Cost(e2)
    decreases |e1| + |e2|
  {
    StepBounds(s, u);
    if |e2| > 0 && e2[|e2| - 1] == Insert {
      ComposeBound(e1, e2[..|e2| - 1], s, t, u[..|u| - 1]);
    } else if |e1| > 0 && e1[|e1| - 1] == Delete {
      ComposeBound(e1[..|e1| - 1], e2, s[..|s| - 1], t, u);
    } else if |e1| > 0 && |e2| > 0 {
      var e1', e2' := e1[..|e1| - 1], e2[..|e2| - 1];
      var t' := t[..|t| - 1];
      if e1[|e1| - 1] == Insert {
        if e2[|e2| - 1] == Delete {
          ComposeBound(e1', e2', s, t', u);
        } else {
          ComposeBound(e1', e2', s, t', u[..|u| - 1]);
        }
      } else if e2[|e2| - 1] == Delete {
        ComposeBound(e1', e2', s[..|s| - 1], t', u);
      } else {
        ComposeBound(e1', e2', s[..|s| - 1], t', u[..|u| - 1]);
      }
    }
    // Otherwise one script is empty, so t is empty, and then so is the other.
  }

  /** Going through an intermediate string is never shorter. */
  lemma {:induction false} TriangleInequality(s: seq<Byte>, t: seq<Byte>, u: seq<Byte>)
    ensures EditDist(s, u) <= EditDist(s, t) + EditDist(t, u)
  {
    ComposeBound(Alignment(s, t), Alignment(t, u), s, t, u);
  }
}
