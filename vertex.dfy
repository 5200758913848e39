/**
 * VertexType (CombBLAS/MaximumMatching/BPMaximumMatching.cpp:38-55), the
 * label carried by the fringe vectors of the matching engine, and the
 * min-select reduction of the Select2ndMinSR semiring that picks one label
 * when several fringe columns reach the same row (838, 907).
 */
module Labels {
  import opened Machine

  /** `{parent, root, prob}`; the source's constructor defaults are (-1, -1, 0). */
  datatype Vertex = Vertex(parent: Int64, root: Int64, prob: Int16)

  /** `VertexType(p, r)` with the default `prob` of 0, as the engine builds its labels. */
  function MakeVertex(p: Int64, r: Int64): (v: Vertex)
    ensures v.parent == p && v.root == r && v.prob == 0
  {
    Vertex(p, r, 0)
  }

  /** `operator<` (43-47): compare prob first, then parent. */
  predicate Less(a: Vertex, b: Vertex)
  {
    if a.prob == b.prob then a.parent < b.parent else a.prob < b.prob
  }

  /** `operator==` (48): labels are equal when their parents are. */
  predicate Equal(a: Vertex, b: Vertex)
  {
    a.parent == b.parent
  }

  /** The part of a label the order looks at. */
  function Key(a: Vertex): (int, int)
  {
    (a.prob, a.parent)
  }

  /** `<` is the lexicographic order on (prob, parent). */
  lemma LessIsLexicographic(a: Vertex, b: Vertex)
    ensures Less(a, b) <==> (a.prob < b.prob || (a.prob == b.prob && a.parent < b.parent))
  {
  }

  /** `<` is irreflexive. */
  lemma LessIrreflexive(a: Vertex)
    ensures !Less(a, a)
  {
  }

  /** `<` is transitive. */
  lemma LessTransitive(a: Vertex, b: Vertex, c: Vertex)
    requires Less(a, b) && Less(b, c)
    ensures Less(a, c)
  {
  }

  /** `<` is total on the key: two labels neither of which is smaller agree on (prob, parent). */
  lemma LessTotalOnKey(a: Vertex, b: Vertex)
    ensures Less(a, b) || Less(b, a) || Key(a) == Key(b)
  {
  }

  /** `==` ignores root and prob. */
  lemma EqualIgnoresRootAndProb(a: Vertex, root: Int64, prob: Int16)
    ensures Equal(a, a.(root := root, prob := prob))
  {
  }

  /**
   * `==` is not the equivalence of `<`: two labels that are `==` can still be
   * ordered, because `==` does not look at prob.
   */
  lemma EqualDoesNotImplyUnordered()
    ensures var a, b := Vertex(3, 0, 0), Vertex(3, 0, 1); Equal(a, b) && Less(a, b)
  {
  }

  /** The add operator of Select2ndMinSR: `std::min`, which keeps the first argument on ties. */
  function MinLabel(a: Vertex, b: Vertex): (m: Vertex)
    ensures m == a || m == b
    ensures !Less(a, m) && !Less(b, m)
  {
    if Less(b, a) then b else a
  }

  /** The min-select reduction is commutative up to the key. */
  lemma MinLabelCommutes(a: Vertex, b: Vertex)
    ensures Key(MinLabel(a, b)) == Key(MinLabel(b, a))
  {
  }

  /** The min-select reduction is associative up to the key. */
  lemma MinLabelAssociates(a: Vertex, b: Vertex, c: Vertex)
    ensures Key(MinLabel(MinLabel(a, b), c)) == Key(MinLabel(a, MinLabel(b, c)))
  {
  }

  /** Reduce a non-empty sequence of labels with MinLabel, left to right. */
  function FoldMin(s: seq<Vertex>): (m: Vertex)
    requires |s| > 0
    ensures m in s
    ensures forall x | x in s :: !Less(x, m)
  {
    if |s| == 1 then s[0]
    else
      var prev := FoldMin(s[..|s| - 1]);
      assert forall x | x in s :: x in s[..|s| - 1] || x == s[|s| - 1];
      MinLabel(prev, s[|s| - 1])
  }

  /**
   * Whatever order the contributions arrive in, the reduction picks a label
   * with the same (prob, parent): the choice of discoverer does not depend on
   * the process grid or on message order.
   */
  lemma FoldMinOrderIndependent(s: seq<Vertex>, t: seq<Vertex>)
    requires |s| > 0 && multiset(s) == multiset(t)
    ensures |t| > 0 && Key(FoldMin(s)) == Key(FoldMin(t))
  {
    assert |t| == |multiset(t)| == |multiset(s)| == |s|;
    var ms, mt := FoldMin(s), FoldMin(t);
    assert ms in multiset(s);
    assert mt in multiset(t);
    assert ms in t && mt in s;
    LessTotalOnKey(ms, mt);
  }
}
