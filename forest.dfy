/**
 * The alternating-path forest one phase of the matching engine grows
 * (CombBLAS/MaximumMatching/BPMaximumMatching.cpp, layer loop 832-913).
 * `parentsRow[r]` is the column that discovered row r, or -1.  The ghost
 * sequences `depth` and `rootOf` record, for every claimed row, the layer in
 * which it was claimed and the root column of its tree; the source carries
 * the root in the fringe labels only, the model keeps it so that the proof
 * of Augment can name the tree a row belongs to.
 */
module Forest {
  import opened Mates

  ghost predicate Shaped(parents: seq<int>, depth: seq<nat>, rootOf: seq<int>)
  {
    |parents| == |depth| == |rootOf|
  }

  /**
   * Row r hangs off its discoverer: either that column is the (unmatched)
   * root of r's tree, or it is matched to a row of the same tree claimed in
   * an earlier layer.
   */
  ghost predicate TreeEdge(mateCol2Row: seq<int>, parents: seq<int>, depth: seq<nat>, rootOf: seq<int>, r: int)
    requires Shaped(parents, depth, rootOf) && 0 <= r < |parents|
  {
    var c := parents[r];
    && 0 <= c < |mateCol2Row|
    && ((mateCol2Row[c] == Unmatched && c == rootOf[r])
        || (0 <= mateCol2Row[c] < |parents| && parents[mateCol2Row[c]] != Unmatched
            && rootOf[mateCol2Row[c]] == rootOf[r] && depth[mateCol2Row[c]] < depth[r]))
  }

  /** Every claimed row whose root is at least `from` satisfies TreeEdge. */
  ghost predicate TreesFrom(mateCol2Row: seq<int>, parents: seq<int>, depth: seq<nat>, rootOf: seq<int>, from: int)
    requires Shaped(parents, depth, rootOf)
  {
    forall r | 0 <= r < |parents| && parents[r] != Unmatched && rootOf[r] >= from ::
      TreeEdge(mateCol2Row, parents, depth, rootOf, r)
  }

  /** The whole forest is well formed. */
  ghost predicate Trees(mateCol2Row: seq<int>, parents: seq<int>, depth: seq<nat>, rootOf: seq<int>)
    requires Shaped(parents, depth, rootOf)
  {
    forall r | 0 <= r < |parents| && parents[r] != Unmatched ::
      TreeEdge(mateCol2Row, parents, depth, rootOf, r)
  }

  /** The leaf recorded for root x is a free row claimed in x's tree. */
  ghost predicate LeafOf(leaves: seq<int>, mateRow2Col: seq<int>, parents: seq<int>, rootOf: seq<int>, x: int)
    requires 0 <= x < |leaves| && |mateRow2Col| == |parents| == |rootOf|
  {
    leaves[x] != Unmatched ==>
      && 0 <= leaves[x] < |parents|
      && parents[leaves[x]] != Unmatched
      && rootOf[leaves[x]] == x
      && mateRow2Col[leaves[x]] == Unmatched
  }

  /** Every recorded leaf of a root at least `from` is a free row of that root's tree. */
  ghost predicate LeavesFrom(leaves: seq<int>, mateRow2Col: seq<int>, parents: seq<int>, rootOf: seq<int>, from: int)
    requires |mateRow2Col| == |parents| == |rootOf|
  {
    forall x | from <= x < |leaves| && 0 <= x :: LeafOf(leaves, mateRow2Col, parents, rootOf, x)
  }
}
