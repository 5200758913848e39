/**
 * One phase of the matching engine's search (maximumMatching in
 * CombBLAS/MaximumMatching/BPMaximumMatching.cpp, 807-913): seed the column
 * fringe with the unmatched columns, then grow alternating-path trees layer
 * by layer, recording for every newly reached row its discoverer and, for
 * every root that reaches a free row, that row as its leaf.
 *
 * The graph is the nrow x ncol boolean matrix A (A[r][c] for row r, column
 * c); Mbool is the ncol x nrow matching matrix that PermMat builds
 * (Mbool[c][r] exactly when mateCol2Row[c] == r).  The matching does not
 * change during a search.
 */
module Search {
  import opened Wrappers
  import opened Machine
  import opened Mates
  import opened Forest
  import opened Labels
  import opened Primitives

  type Fringe = seq<Option<Vertex>>

  /** Mbool[c][r] holds exactly when column c is matched to row r. */
  predicate IsMatchingMatrix(mbool: seq<seq<bool>>, mateCol2Row: seq<Int64>, nrow: nat)
  {
    IsMatrix(mbool, |mateCol2Row|, nrow)
    && forall c, r | 0 <= c < |mbool| && 0 <= r < nrow :: mbool[c][r] <==> mateCol2Row[c] == r
  }

  // ---------------------------------------------------------------------
  // The EWiseApply / ApplyInd / FilterByVal instances of the layer loop
  // ---------------------------------------------------------------------

  /** 816-821: every unmatched column c enters the fringe labelled (c, c). */
  function Seed(mateCol2Row: seq<Int64>): (f: Fringe)
    requires |mateCol2Row| <= Int64Max + 1
    ensures |f| == |mateCol2Row|
  {
    seq(|mateCol2Row|, c requires 0 <= c < |mateCol2Row| =>
      if mateCol2Row[c] == Unmatched then Some(MakeVertex(c, c)) else None)
  }

  /** 846-849: keep the fringe rows whose parent is still -1. */
  function KeepUnclaimed(fringeRow: Fringe, parents: seq<Int64>): (f: Fringe)
    requires |parents| == |fringeRow|
    ensures |f| == |fringeRow|
  {
    seq(|fringeRow|, r requires 0 <= r < |fringeRow| =>
      if parents[r] == Unmatched then fringeRow[r] else None)
  }

  /** 852-855: every fringe row records its label's parent. */
  function WriteParents(parents: seq<Int64>, fringeRow: Fringe): (p: seq<Int64>)
    requires |parents| == |fringeRow|
    ensures |p| == |parents|
  {
    seq(|parents|, r requires 0 <= r < |parents| =>
      if fringeRow[r].Some? then fringeRow[r].value.parent else parents[r])
  }

  /** 858-861: the roots of the fringe rows that are free. */
  function FreeRoots(fringeRow: Fringe, mateRow2Col: seq<Int64>): (u: seq<Option<Int64>>)
    requires |mateRow2Col| == |fringeRow|
    ensures |u| == |fringeRow|
  {
    seq(|fringeRow|, r requires 0 <= r < |fringeRow| =>
      if fringeRow[r].Some? && mateRow2Col[r] == Unmatched then Some(fringeRow[r].value.root) else None)
  }

  /** 886-889: matched fringe rows are relabelled (mate, root); free ones drop out. */
  function Relabel(fringeRow: Fringe, mateRow2Col: seq<Int64>): (f: Fringe)
    requires |mateRow2Col| == |fringeRow|
    ensures |f| == |fringeRow|
  {
    seq(|fringeRow|, r requires 0 <= r < |fringeRow| =>
      if fringeRow[r].Some? && mateRow2Col[r] != Unmatched
      then Some(MakeVertex(mateRow2Col[r], fringeRow[r].value.root)) else None)
  }

  /** 897: `FilterByVal(temp1, root)` drops the entries whose root is an index of temp1. */
  function FilterByRoot(fringeRow: Fringe, temp1: seq<Option<Int64>>): (f: Fringe)
    ensures |f| == |fringeRow|
  {
    seq(|fringeRow|, r requires 0 <= r < |fringeRow| =>
      if fringeRow[r].Some? && 0 <= fringeRow[r].value.root < |temp1| && temp1[fringeRow[r].value.root].Some?
      then None else fringeRow[r])
  }

  /** Ghost bookkeeping: rows claimed in this layer get depth `layer` ... */
  ghost function NewDepth(depth: seq<nat>, fringeRow: Fringe, layer: nat): (d: seq<nat>)
    requires |depth| == |fringeRow|
  {
    seq(|depth|, r requires 0 <= r < |depth| => if fringeRow[r].Some? then layer else depth[r])
  }

  /** ... and the root their label carries. */
  ghost function NewRoots(rootOf: seq<int>, fringeRow: Fringe): (t: seq<int>)
    requires |rootOf| == |fringeRow|
  {
    seq(|rootOf|, r requires 0 <= r < |rootOf| => if fringeRow[r].Some? then fringeRow[r].value.root else rootOf[r])
  }

  // ---------------------------------------------------------------------
  // The search state
  // ---------------------------------------------------------------------

  /** The shapes that every step relies on. */
  ghost predicate Frame(a: seq<seq<bool>>, mateRow2Col: seq<Int64>, mateCol2Row: seq<Int64>)
  {
    && IsMatrix(a, |mateRow2Col|, |mateCol2Row|)
    && |mateRow2Col| <= Int64Max && |mateCol2Row| <= Int64Max
    && Consistent(mateRow2Col, mateCol2Row)
  }

  /**
   * A claimed row was reached along a graph edge from its parent, belongs to
   * the tree of an unmatched root column and was claimed in a layer up to
   * `layer`.
   */
  ghost predicate ClaimedRow(a: seq<seq<bool>>, mateCol2Row: seq<Int64>, parents: seq<Int64>, depth: seq<nat>,
                             rootOf: seq<int>, layer: nat, r: int)
    requires Shaped(parents, depth, rootOf) && |a| == |parents| && 0 <= r < |parents|
  {
    && 0 <= parents[r] < |a[r]| && a[r][parents[r]]
    && 0 <= rootOf[r] < |mateCol2Row| && mateCol2Row[rootOf[r]] == Unmatched
    && 1 <= depth[r] <= layer
  }

  /** The forest grown so far. */
  ghost predicate Grown(a: seq<seq<bool>>, mateCol2Row: seq<Int64>, parents: seq<Int64>, depth: seq<nat>,
                        rootOf: seq<int>, layer: nat)
  {
    && Shaped(parents, depth, rootOf) && |a| == |parents|
    && forall r | 0 <= r < |parents| && parents[r] != Unmatched ::
         ClaimedRow(a, mateCol2Row, parents, depth, rootOf, layer, r)
         && TreeEdge(mateCol2Row, parents, depth, rootOf, r)
  }

  /**
   * A column fringe label: its parent is the column itself, its root is an
   * unmatched column without a leaf, and the column is either that root or
   * matched to a row of the root's tree claimed by `layer`.
   */
  ghost predicate ColEntry(mateCol2Row: seq<Int64>, parents: seq<Int64>, depth: seq<nat>, rootOf: seq<int>,
                           leaves: seq<Int64>, layer: nat, c: int, v: Vertex)
    requires Shaped(parents, depth, rootOf) && |leaves| == |mateCol2Row| && 0 <= c < |mateCol2Row|
  {
    && v.parent == c && v.prob == 0
    && 0 <= v.root < |mateCol2Row| && mateCol2Row[v.root] == Unmatched && leaves[v.root] == Unmatched
    && (mateCol2Row[c] == Unmatched ==> c == v.root)
    && (mateCol2Row[c] != Unmatched ==>
          && 0 <= mateCol2Row[c] < |parents| && parents[mateCol2Row[c]] != Unmatched
          && rootOf[mateCol2Row[c]] == v.root && depth[mateCol2Row[c]] <= layer)
  }

  ghost predicate FringeOK(fringeCol: Fringe, mateCol2Row: seq<Int64>, parents: seq<Int64>, depth: seq<nat>,
                           rootOf: seq<int>, leaves: seq<Int64>, layer: nat)
    requires Shaped(parents, depth, rootOf) && |leaves| == |mateCol2Row|
  {
    |fringeCol| == |mateCol2Row|
    && forall c | 0 <= c < |fringeCol| && fringeCol[c].Some? ::
         ColEntry(mateCol2Row, parents, depth, rootOf, leaves, layer, c, fringeCol[c].value)
  }

  /** Everything the layer loop keeps at its head. */
  ghost predicate SearchState(a: seq<seq<bool>>, mateRow2Col: seq<Int64>, mateCol2Row: seq<Int64>,
                              parents: seq<Int64>, leaves: seq<Int64>, fringeCol: Fringe, temp1: seq<Option<Int64>>,
                              depth: seq<nat>, rootOf: seq<int>, layer: nat)
  {
    && Frame(a, mateRow2Col, mateCol2Row)
    && Grown(a, mateCol2Row, parents, depth, rootOf, layer)
    && |leaves| == |mateCol2Row| == |temp1|
    && LeavesFrom(leaves, mateRow2Col, parents, rootOf, 0)
    && FringeOK(fringeCol, mateCol2Row, parents, depth, rootOf, leaves, layer)
    && layer <= Assigned(parents)
  }

  /** What the phase hands to Augment: a well-formed forest with one free leaf per root that found one. */
  ghost predicate Searched(a: seq<seq<bool>>, mateRow2Col: seq<Int64>, mateCol2Row: seq<Int64>,
                           parents: seq<Int64>, leaves: seq<Int64>, depth: seq<nat>, rootOf: seq<int>)
  {
    && Frame(a, mateRow2Col, mateCol2Row)
    && Shaped(parents, depth, rootOf) && |parents| == |a| && |leaves| == |mateCol2Row|
    && Trees(mateCol2Row, parents, depth, rootOf)
    && LeavesFrom(leaves, mateRow2Col, parents, rootOf, 0)
    && forall r | 0 <= r < |parents| && parents[r] != Unmatched ::
         0 <= parents[r] < |a[r]| && a[r][parents[r]] && 0 <= rootOf[r] < |mateCol2Row| && mateCol2Row[rootOf[r]] == Unmatched
  }

  // ---------------------------------------------------------------------
  // One layer, step by step
  // ---------------------------------------------------------------------

  /** A row fringe label after the claim filter: an unclaimed row reached from fringe column `v.parent`. */
  ghost predicate RowEntry(a: seq<seq<bool>>, fringeCol: Fringe, parents: seq<Int64>, r: int, v: Vertex)
    requires |a| == |parents| && 0 <= r < |a|
  {
    && parents[r] == Unmatched
    && 0 <= v.parent < |a[r]| && a[r][v.parent]
    && 0 <= v.parent < |fringeCol| && fringeCol[v.parent] == Some(v)
  }

  ghost predicate RowFringeOK(a: seq<seq<bool>>, fringeCol: Fringe, parents: seq<Int64>, fringeRow: Fringe)
    requires |a| == |parents|
  {
    |fringeRow| == |a|
    && forall r | 0 <= r < |fringeRow| && fringeRow[r].Some? :: RowEntry(a, fringeCol, parents, r, fringeRow[r].value)
  }

  /** Row step and claim filter (838, 846-849): every surviving row is unclaimed and reached by an edge from its label's column. */
  lemma RowStep(a: seq<seq<bool>>, mateRow2Col: seq<Int64>, mateCol2Row: seq<Int64>, parents: seq<Int64>,
                leaves: seq<Int64>, fringeCol: Fringe, temp1: seq<Option<Int64>>, depth: seq<nat>, rootOf: seq<int>, layer: nat)
    requires SearchState(a, mateRow2Col, mateCol2Row, parents, leaves, fringeCol, temp1, depth, rootOf, layer)
    ensures RowFringeOK(a, fringeCol, parents, KeepUnclaimed(SpMV(a, fringeCol), parents))
  {
    var fr := SpMV(a, fringeCol);
    var fr1 := KeepUnclaimed(fr, parents);
    forall r | 0 <= r < |fr1| && fr1[r].Some?
      ensures RowEntry(a, fringeCol, parents, r, fr1[r].value)
    {
      var c :| 0 <= c < |fringeCol| && a[r][c] && fringeCol[c] == fr[r];
      assert ColEntry(mateCol2Row, parents, depth, rootOf, leaves, layer, c, fringeCol[c].value);
    }
  }

  /**
   * The discoverer a row gets is the smallest fringe column adjacent to it:
   * all column labels have prob 0 and their own column as parent, so the
   * min-select reduction picks a unique label.
   */
  lemma DiscovererIsSmallestColumn(a: seq<seq<bool>>, mateCol2Row: seq<Int64>, parents: seq<Int64>, depth: seq<nat>,
                                   rootOf: seq<int>, leaves: seq<Int64>, layer: nat, fringeCol: Fringe, r: int)
    requires Shaped(parents, depth, rootOf) && |leaves| == |mateCol2Row|
    requires FringeOK(fringeCol, mateCol2Row, parents, depth, rootOf, leaves, layer)
    requires IsMatrix(a, |parents|, |mateCol2Row|) && 0 <= r < |a|
    requires SpMV(a, fringeCol)[r].Some?
    ensures var c := SpMV(a, fringeCol)[r].value.parent;
      && 0 <= c < |fringeCol| && a[r][c] && fringeCol[c] == SpMV(a, fringeCol)[r]
      && forall c' | 0 <= c' < c :: !(a[r][c'] && fringeCol[c'].Some?)
  {
    var o := SpMV(a, fringeCol)[r];
    var c :| 0 <= c < |fringeCol| && a[r][c] && fringeCol[c] == o;
    assert ColEntry(mateCol2Row, parents, depth, rootOf, leaves, layer, c, fringeCol[c].value);
    forall c' | 0 <= c' < c
      ensures !(a[r][c'] && fringeCol[c'].Some?)
    {
      if a[r][c'] && fringeCol[c'].Some? {
        assert ColEntry(mateCol2Row, parents, depth, rootOf, leaves, layer, c', fringeCol[c'].value);
        assert Less(fringeCol[c'].value, o.value);
      }
    }
  }

  /**
   * Claim (852-855): a row's parent is written only while it is -1, so at
   * most once per phase, and what it receives is its label's parent, the
   * discovering column.  The forest stays well formed with the new rows at
   * depth `layer`.
   */
  lemma ClaimStep(a: seq<seq<bool>>, mateRow2Col: seq<Int64>, mateCol2Row: seq<Int64>, parents: seq<Int64>,
                  leaves: seq<Int64>, fringeCol: Fringe, temp1: seq<Option<Int64>>, depth: seq<nat>, rootOf: seq<int>,
                  layer: nat, fringeRow: Fringe)
    requires SearchState(a, mateRow2Col, mateCol2Row, parents, leaves, fringeCol, temp1, depth, rootOf, layer)
    requires RowFringeOK(a, fringeCol, parents, fringeRow)
    ensures var parents' := WriteParents(parents, fringeRow);
      && (forall r | 0 <= r < |parents| && parents[r] != Unmatched :: parents'[r] == parents[r])
      && (forall r | 0 <= r < |parents| && parents'[r] != parents[r] ::
            parents[r] == Unmatched && fringeRow[r].Some? && parents'[r] == fringeRow[r].value.parent)
      && Grown(a, mateCol2Row, parents', NewDepth(depth, fringeRow, layer + 1), NewRoots(rootOf, fringeRow), layer + 1)
  {
    var parents' := WriteParents(parents, fringeRow);
    var depth', rootOf' := NewDepth(depth, fringeRow, layer + 1), NewRoots(rootOf, fringeRow);
    forall r | 0 <= r < |parents'| && parents'[r] != Unmatched
      ensures ClaimedRow(a, mateCol2Row, parents', depth', rootOf', layer + 1, r)
      ensures TreeEdge(mateCol2Row, parents', depth', rootOf', r)
    {
      if fringeRow[r].Some? {
        var v := fringeRow[r].value;
        assert RowEntry(a, fringeCol, parents, r, v);
        var c := v.parent;
        assert ColEntry(mateCol2Row, parents, depth, rootOf, leaves, layer, c, v);
      } else {
        assert ClaimedRow(a, mateCol2Row, parents, depth, rootOf, layer, r);
        assert TreeEdge(mateCol2Row, parents, depth, rootOf, r);
      }
    }
  }

  /**
   * Leaves (858-878): a root that reaches free rows in this layer gets one
   * of them as its leaf, a claimed free row of its own tree; leaves set in
   * earlier layers stay valid; a leaf entry changes only where the new temp1
   * has an entry.
   */
  lemma LeafStep(a: seq<seq<bool>>, mateRow2Col: seq<Int64>, mateCol2Row: seq<Int64>, parents: seq<Int64>,
                 leaves: seq<Int64>, fringeCol: Fringe, temp1: seq<Option<Int64>>, depth: seq<nat>, rootOf: seq<int>,
                 layer: nat, fringeRow: Fringe, temp1': seq<Option<Int64>>, leaves': seq<Int64>)
    requires SearchState(a, mateRow2Col, mateCol2Row, parents, leaves, fringeCol, temp1, depth, rootOf, layer)
    requires RowFringeOK(a, fringeCol, parents, fringeRow)
    requires var u := FreeRoots(fringeRow, mateRow2Col);
      if Nnz(u) > 0 then temp1' == Invert(u, |mateCol2Row|) && leaves' == SetEntries(leaves, temp1')
      else temp1' == temp1 && leaves' == leaves
    ensures |leaves'| == |temp1'| == |mateCol2Row|
    ensures LeavesFrom(leaves', mateRow2Col, WriteParents(parents, fringeRow), NewRoots(rootOf, fringeRow), 0)
    ensures forall x | 0 <= x < |leaves| && leaves'[x] != leaves[x] :: temp1'[x].Some?
    // when free rows were reached, temp1' is fresh and every root in it has that leaf
    ensures Nnz(FreeRoots(fringeRow, mateRow2Col)) > 0 ==>
      forall x | 0 <= x < |temp1'| && temp1'[x].Some? :: leaves'[x] == temp1'[x].value
    // every root that reached a free row in this layer now has one of them as its leaf
    ensures forall r | 0 <= r < |fringeRow| && fringeRow[r].Some? && mateRow2Col[r] == Unmatched ::
      var x := fringeRow[r].value.root;
      && 0 <= x < |leaves'| && temp1'[x].Some? && leaves'[x] == temp1'[x].value
      && 0 <= leaves'[x] < |fringeRow| && FreeRoots(fringeRow, mateRow2Col)[leaves'[x]] == Some(x)
  {
    var u := FreeRoots(fringeRow, mateRow2Col);
    forall r | 0 <= r < |fringeRow| && fringeRow[r].Some? && mateRow2Col[r] == Unmatched
      ensures var x := fringeRow[r].value.root;
        && 0 <= x < |leaves'| && temp1'[x].Some? && leaves'[x] == temp1'[x].value
        && 0 <= leaves'[x] < |fringeRow| && u[leaves'[x]] == Some(x)
    {
      var x := fringeRow[r].value.root;
      assert RowEntry(a, fringeCol, parents, r, fringeRow[r].value);
      assert u[r] == Some(x);
      InvertSwaps(u, |mateCol2Row|, x);
    }
    var parents', rootOf' := WriteParents(parents, fringeRow), NewRoots(rootOf, fringeRow);
    forall x | 0 <= x < |leaves'|
      ensures LeafOf(leaves', mateRow2Col, parents', rootOf', x)
    {
      if leaves'[x] == leaves[x] {
        assert LeafOf(leaves, mateRow2Col, parents, rootOf, x);
        if leaves[x] != Unmatched {
          var l := leaves[x];
          assert fringeRow[l].Some? ==> RowEntry(a, fringeCol, parents, l, fringeRow[l].value);
        }
      } else {
        InvertSwaps(u, |mateCol2Row|, x);
        var l := temp1'[x].value;
        assert RowEntry(a, fringeCol, parents, l, fringeRow[l].value);
      }
    }
  }

  /** A row fringe label after relabelling and pruning (886-898). */
  ghost predicate PrunedEntry(mateRow2Col: seq<Int64>, mateCol2Row: seq<Int64>, parents': seq<Int64>,
                              depth': seq<nat>, rootOf': seq<int>, leaves': seq<Int64>, layer: nat, r: int, w: Vertex)
    requires Shaped(parents', depth', rootOf') && |mateRow2Col| == |parents'| && |leaves'| == |mateCol2Row|
    requires 0 <= r < |parents'|
  {
    && parents'[r] != Unmatched && rootOf'[r] == w.root && depth'[r] == layer
    && w.parent == mateRow2Col[r] != Unmatched && w.prob == 0
    && 0 <= w.root < |mateCol2Row| && mateCol2Row[w.root] == Unmatched && leaves'[w.root] == Unmatched
  }

  /**
   * Relabel and prune (886-898): what survives are matched rows claimed in
   * this layer, labelled with their mate, and no survivor carries a root that
   * already has a leaf.
   */
  lemma PruneStep(a: seq<seq<bool>>, mateRow2Col: seq<Int64>, mateCol2Row: seq<Int64>, parents: seq<Int64>,
                  leaves: seq<Int64>, fringeCol: Fringe, temp1: seq<Option<Int64>>, depth: seq<nat>, rootOf: seq<int>,
                  layer: nat, fringeRow: Fringe, temp1': seq<Option<Int64>>, leaves': seq<Int64>, pruned: Fringe)
    requires SearchState(a, mateRow2Col, mateCol2Row, parents, leaves, fringeCol, temp1, depth, rootOf, layer)
    requires RowFringeOK(a, fringeCol, parents, fringeRow)
    requires |leaves'| == |temp1'| == |mateCol2Row|
    requires forall x | 0 <= x < |leaves| && leaves'[x] != leaves[x] :: temp1'[x].Some?
    requires var relabelled := Relabel(fringeRow, mateRow2Col);
      pruned == if Nnz(temp1') > 0 then FilterByRoot(relabelled, temp1') else relabelled
    ensures |pruned| == |parents|
    ensures forall r | 0 <= r < |pruned| && pruned[r].Some? ::
      fringeRow[r].Some? && parents[r] == Unmatched
      && PrunedEntry(mateRow2Col, mateCol2Row, WriteParents(parents, fringeRow), NewDepth(depth, fringeRow, layer + 1),
                     NewRoots(rootOf, fringeRow), leaves', layer + 1, r, pruned[r].value)
  {
    forall x | 0 <= x < |leaves| && leaves'[x] != leaves[x]
      ensures Nnz(temp1') > 0
    {
      assert temp1'[x].Some?;
    }
    forall r | 0 <= r < |pruned| && pruned[r].Some?
      ensures fringeRow[r].Some? && parents[r] == Unmatched
      ensures PrunedEntry(mateRow2Col, mateCol2Row, WriteParents(parents, fringeRow), NewDepth(depth, fringeRow, layer + 1),
                          NewRoots(rootOf, fringeRow), leaves', layer + 1, r, pruned[r].value)
    {
      var v := fringeRow[r].value;
      assert RowEntry(a, fringeCol, parents, r, v);
      assert ColEntry(mateCol2Row, parents, depth, rootOf, leaves, layer, v.parent, v);
    }
  }

  /** Mbool moves a row entry to its mate column: the column step (907) is a hop across the matching. */
  lemma Hop(mbool: seq<seq<bool>>, mateCol2Row: seq<Int64>, fringeRow: Fringe, c: int)
    requires IsMatchingMatrix(mbool, mateCol2Row, |fringeRow|) && 0 <= c < |mbool|
    ensures SpMV(mbool, fringeRow)[c] ==
      if 0 <= mateCol2Row[c] < |fringeRow| then fringeRow[mateCol2Row[c]] else None
  {
    RowMinSingle(mbool[c], fringeRow, |fringeRow|, mateCol2Row[c]);
  }

  /** Column step (905-907): the hopped fringe satisfies the fringe invariant of the next layer. */
  lemma HopStep(mbool: seq<seq<bool>>, mateRow2Col: seq<Int64>, mateCol2Row: seq<Int64>, parents': seq<Int64>,
                depth': seq<nat>, rootOf': seq<int>, leaves': seq<Int64>, layer: nat, pruned: Fringe)
    requires Consistent(mateRow2Col, mateCol2Row)
    requires IsMatchingMatrix(mbool, mateCol2Row, |mateRow2Col|)
    requires Shaped(parents', depth', rootOf') && |mateRow2Col| == |parents'| == |pruned| && |leaves'| == |mateCol2Row|
    requires forall r | 0 <= r < |pruned| && pruned[r].Some? ::
      PrunedEntry(mateRow2Col, mateCol2Row, parents', depth', rootOf', leaves', layer, r, pruned[r].value)
    ensures FringeOK(SpMV(mbool, pruned), mateCol2Row, parents', depth', rootOf', leaves', layer)
  {
    var f := SpMV(mbool, pruned);
    forall c | 0 <= c < |f| && f[c].Some?
      ensures ColEntry(mateCol2Row, parents', depth', rootOf', leaves', layer, c, f[c].value)
    {
      Hop(mbool, mateCol2Row, pruned, c);
      var r := mateCol2Row[c];
      assert PrunedEntry(mateRow2Col, mateCol2Row, parents', depth', rootOf', leaves', layer, r, pruned[r].value);
    }
  }

  /** A layer that does not break claimed at least one new row (the termination argument of 832-912). */
  lemma Progress(parents: seq<Int64>, fringeRow: Fringe, pruned: Fringe)
    requires |parents| == |fringeRow| == |pruned|
    requires forall r | 0 <= r < |fringeRow| && fringeRow[r].Some? :: 0 <= fringeRow[r].value.parent
    requires forall r | 0 <= r < |pruned| && pruned[r].Some? :: fringeRow[r].Some? && parents[r] == Unmatched
    ensures Assigned(parents) <= Assigned(WriteParents(parents, fringeRow))
    ensures Nnz(pruned) > 0 ==> Assigned(parents) < Assigned(WriteParents(parents, fringeRow))
  {
    var parents' := WriteParents(parents, fringeRow);
    if Nnz(pruned) > 0 {
      var r := NnzWitness(pruned);
      assert parents[r] == Unmatched && parents'[r] != Unmatched;
    }
    AssignedMonotone(parents, parents');
  }

  /** The state at the head of the loop already describes a forest fit for Augment. */
  lemma StateIsSearched(a: seq<seq<bool>>, mateRow2Col: seq<Int64>, mateCol2Row: seq<Int64>, parents: seq<Int64>,
                        leaves: seq<Int64>, depth: seq<nat>, rootOf: seq<int>, layer: nat)
    requires Frame(a, mateRow2Col, mateCol2Row) && Grown(a, mateCol2Row, parents, depth, rootOf, layer)
    requires |leaves| == |mateCol2Row| && LeavesFrom(leaves, mateRow2Col, parents, rootOf, 0)
    ensures Searched(a, mateRow2Col, mateCol2Row, parents, leaves, depth, rootOf)
  {
    forall r | 0 <= r < |parents| && parents[r] != Unmatched
      ensures TreeEdge(mateCol2Row, parents, depth, rootOf, r)
      ensures 0 <= parents[r] < |a[r]| && a[r][parents[r]] && 0 <= rootOf[r] < |mateCol2Row| && mateCol2Row[rootOf[r]] == Unmatched
    {
      assert ClaimedRow(a, mateCol2Row, parents, depth, rootOf, layer, r);
    }
  }

  /**
   * The first half of a layer (838-878): the row step, the claim and the
   * leaves found, from the state at the head of the loop.
   */
  lemma ClaimLayer(a: seq<seq<bool>>, mateRow2Col: seq<Int64>, mateCol2Row: seq<Int64>, parents: seq<Int64>,
                   leaves: seq<Int64>, fringeCol: Fringe, temp1: seq<Option<Int64>>, depth: seq<nat>, rootOf: seq<int>,
                   layer: nat, fringeRow: Fringe, temp1': seq<Option<Int64>>, leaves': seq<Int64>)
    requires SearchState(a, mateRow2Col, mateCol2Row, parents, leaves, fringeCol, temp1, depth, rootOf, layer)
    requires fringeRow == KeepUnclaimed(SpMV(a, fringeCol), parents)
    requires var u := FreeRoots(fringeRow, mateRow2Col);
      if Nnz(u) > 0 then temp1' == Invert(u, |mateCol2Row|) && leaves' == SetEntries(leaves, temp1')
      else temp1' == temp1 && leaves' == leaves
    ensures RowFringeOK(a, fringeCol, parents, fringeRow)
    ensures |leaves'| == |temp1'| == |mateCol2Row|
    ensures forall x | 0 <= x < |leaves| && leaves'[x] != leaves[x] :: temp1'[x].Some?
    ensures Grown(a, mateCol2Row, WriteParents(parents, fringeRow), NewDepth(depth, fringeRow, layer + 1),
                  NewRoots(rootOf, fringeRow), layer + 1)
    ensures LeavesFrom(leaves', mateRow2Col, WriteParents(parents, fringeRow), NewRoots(rootOf, fringeRow), 0)
  {
    RowStep(a, mateRow2Col, mateCol2Row, parents, leaves, fringeCol, temp1, depth, rootOf, layer);
    ClaimStep(a, mateRow2Col, mateCol2Row, parents, leaves, fringeCol, temp1, depth, rootOf, layer, fringeRow);
    LeafStep(a, mateRow2Col, mateCol2Row, parents, leaves, fringeCol, temp1, depth, rootOf, layer,
             fringeRow, temp1', leaves');
  }

  /**
   * The second half of a layer (886-909): pruning and the column step.  The
   * forest handed on is fit for Augment, and when the pruned fringe is not
   * empty a new row was claimed and the next layer starts from a good state.
   */
  lemma PruneLayer(a: seq<seq<bool>>, mbool: seq<seq<bool>>, mateRow2Col: seq<Int64>, mateCol2Row: seq<Int64>,
                   parents: seq<Int64>, leaves: seq<Int64>, fringeCol: Fringe, temp1: seq<Option<Int64>>,
                   depth: seq<nat>, rootOf: seq<int>, layer: nat, fringeRow: Fringe, temp1': seq<Option<Int64>>,
                   leaves': seq<Int64>, pruned: Fringe)
    requires SearchState(a, mateRow2Col, mateCol2Row, parents, leaves, fringeCol, temp1, depth, rootOf, layer)
    requires IsMatchingMatrix(mbool, mateCol2Row, |mateRow2Col|)
    requires RowFringeOK(a, fringeCol, parents, fringeRow)
    requires |leaves'| == |temp1'| == |mateCol2Row|
    requires forall x | 0 <= x < |leaves| && leaves'[x] != leaves[x] :: temp1'[x].Some?
    requires Grown(a, mateCol2Row, WriteParents(parents, fringeRow), NewDepth(depth, fringeRow, layer + 1),
                   NewRoots(rootOf, fringeRow), layer + 1)
    requires LeavesFrom(leaves', mateRow2Col, WriteParents(parents, fringeRow), NewRoots(rootOf, fringeRow), 0)
    requires var relabelled := Relabel(fringeRow, mateRow2Col);
      pruned == if Nnz(temp1') > 0 then FilterByRoot(relabelled, temp1') else relabelled
    ensures Searched(a, mateRow2Col, mateCol2Row, WriteParents(parents, fringeRow), leaves',
                     NewDepth(depth, fringeRow, layer + 1), NewRoots(rootOf, fringeRow))
    ensures Assigned(parents) <= Assigned(WriteParents(parents, fringeRow))
    ensures Nnz(pruned) > 0 ==> Assigned(parents) < Assigned(WriteParents(parents, fringeRow))
    ensures Nnz(pruned) > 0 ==>
      SearchState(a, mateRow2Col, mateCol2Row, WriteParents(parents, fringeRow), leaves', SpMV(mbool, pruned), temp1',
                  NewDepth(depth, fringeRow, layer + 1), NewRoots(rootOf, fringeRow), layer + 1)
  {
    var parents', depth', rootOf' := WriteParents(parents, fringeRow), NewDepth(depth, fringeRow, layer + 1),
                                     NewRoots(rootOf, fringeRow);
    PruneStep(a, mateRow2Col, mateCol2Row, parents, leaves, fringeCol, temp1, depth, rootOf, layer,
              fringeRow, temp1', leaves', pruned);
    Progress(parents, fringeRow, pruned);
    StateIsSearched(a, mateRow2Col, mateCol2Row, parents', leaves', depth', rootOf', layer + 1);
    if Nnz(pruned) > 0 {
      HopStep(mbool, mateRow2Col, mateCol2Row, parents', depth', rootOf', leaves', layer + 1, pruned);
    }
  }

  /** Seeding (816-821): every root label is an unmatched column labelled (idx, idx). */
  lemma SeedLabels(mateCol2Row: seq<Int64>, c: int)
    requires |mateCol2Row| <= Int64Max + 1 && 0 <= c < |mateCol2Row|
    ensures Seed(mateCol2Row)[c].Some? <==> mateCol2Row[c] == Unmatched
    ensures Seed(mateCol2Row)[c].Some? ==> Seed(mateCol2Row)[c].value == Vertex(c, c, 0)
  {
  }

  /** `numUnmatchedCol = fringeCol.getnnz()` (824) counts the unmatched columns. */
  lemma {:induction false} SeedCountsUnmatched(mateCol2Row: seq<Int64>)
    requires |mateCol2Row| <= Int64Max + 1
    ensures Nnz(Seed(mateCol2Row)) == |mateCol2Row| - Assigned(mateCol2Row)
  {
    if mateCol2Row != [] {
      var n := |mateCol2Row| - 1;
      assert Seed(mateCol2Row)[..n] == Seed(mateCol2Row[..n]);
      SeedCountsUnmatched(mateCol2Row[..n]);
    }
  }

  /**
   * One layer of the search (832-912): the row step, the claim, the leaves,
   * pruning and the column step.  `more` is false where the source breaks
   * out of the loop because the pruned row fringe is empty.
   */
  method Layer(a: seq<seq<bool>>, mbool: seq<seq<bool>>, mateRow2Col: seq<Int64>, mateCol2Row: seq<Int64>,
               parents: seq<Int64>, leaves: seq<Int64>, fringeCol: Fringe, temp1: seq<Option<Int64>>,
               ghost depth: seq<nat>, ghost rootOf: seq<int>, ghost layer: nat)
    returns (parents': seq<Int64>, leaves': seq<Int64>, fringeCol': Fringe, temp1': seq<Option<Int64>>, more: bool,
             ghost depth': seq<nat>, ghost rootOf': seq<int>)
    requires SearchState(a, mateRow2Col, mateCol2Row, parents, leaves, fringeCol, temp1, depth, rootOf, layer)
    requires IsMatchingMatrix(mbool, mateCol2Row, |mateRow2Col|)
    ensures Searched(a, mateRow2Col, mateCol2Row, parents', leaves', depth', rootOf')
    ensures |temp1'| == |mateCol2Row| && Assigned(parents) <= Assigned(parents') <= |mateRow2Col|
    ensures more ==> Assigned(parents) < Assigned(parents')
    ensures more ==> SearchState(a, mateRow2Col, mateCol2Row, parents', leaves', fringeCol', temp1', depth', rootOf', layer + 1)
  {
    var fringeRow := SpMV(a, fringeCol);
    fringeRow := KeepUnclaimed(fringeRow, parents);
    parents' := WriteParents(parents, fringeRow);
    depth', rootOf' := NewDepth(depth, fringeRow, layer + 1), NewRoots(rootOf, fringeRow);
    var umFringeRow1 := FreeRoots(fringeRow, mateRow2Col);
    temp1', leaves' := temp1, leaves;
    if Nnz(umFringeRow1) > 0 {
      temp1' := Invert(umFringeRow1, |mateCol2Row|);
      leaves' := SetEntries(leaves, temp1');
    }
    ClaimLayer(a, mateRow2Col, mateCol2Row, parents, leaves, fringeCol, temp1, depth, rootOf, layer,
               fringeRow, temp1', leaves');
    var pruned := Relabel(fringeRow, mateRow2Col);
    if Nnz(temp1') > 0 {
      pruned := FilterByRoot(pruned, temp1');
    }
    PruneLayer(a, mbool, mateRow2Col, mateCol2Row, parents, leaves, fringeCol, temp1, depth, rootOf, layer,
               fringeRow, temp1', leaves', pruned);
    fringeCol' := fringeCol;
    more := Nnz(pruned) > 0;
    if more {
      fringeCol' := SpMV(mbool, pruned);
    }
  }

  /**
   * The search of one phase (807-913).  It reads the matching and returns
   * the parents of the rows claimed, the leaf found for each root (-1 where
   * none) and the number of layers, at most nrow + 1 because every layer
   * that does not stop the loop claims a new row.  `temp1` is the last
   * inverted leaf vector; the source declares it outside the phase loop, so
   * it is carried from phase to phase.
   */
  method LayeredSearch(a: seq<seq<bool>>, mbool: seq<seq<bool>>, mateRow2Col: seq<Int64>, mateCol2Row: seq<Int64>,
                       temp1In: seq<Option<Int64>>)
    returns (parents: seq<Int64>, leaves: seq<Int64>, temp1: seq<Option<Int64>>, layer: nat,
             ghost depth: seq<nat>, ghost rootOf: seq<int>)
    requires Frame(a, mateRow2Col, mateCol2Row)
    requires IsMatchingMatrix(mbool, mateCol2Row, |mateRow2Col|)
    requires |temp1In| == |mateCol2Row|
    ensures Searched(a, mateRow2Col, mateCol2Row, parents, leaves, depth, rootOf)
    ensures |temp1| == |mateCol2Row|
    ensures layer <= |mateRow2Col| + 1
  {
    var nrow, ncol := |mateRow2Col|, |mateCol2Row|;
    parents := seq(nrow, _ => Unmatched);
    leaves := seq(ncol, _ => Unmatched);
    depth, rootOf := seq(nrow, _ => 0), seq(nrow, _ => Unmatched);
    var fringeCol := Seed(mateCol2Row);
    temp1 := temp1In;
    layer := 0;
    while Nnz(fringeCol) > 0
      invariant SearchState(a, mateRow2Col, mateCol2Row, parents, leaves, fringeCol, temp1, depth, rootOf, layer)
      invariant Searched(a, mateRow2Col, mateCol2Row, parents, leaves, depth, rootOf)
      decreases nrow - Assigned(parents)
    {
      var more;
      parents, leaves, fringeCol, temp1, more, depth, rootOf :=
        Layer(a, mbool, mateRow2Col, mateCol2Row, parents, leaves, fringeCol, temp1, depth, rootOf, layer);
      layer := layer + 1;
      if !more {
        break;
      }
    }
  }

  // ---------------------------------------------------------------------
  // The length of `leaves` (809, 873-874)
  // ---------------------------------------------------------------------

  /** `leaves.Set(temp1)` writes only inside a dense vector of the given length. */
  predicate SetFits(leavesLength: nat, temp1: seq<Option<Int64>>)
  {
    forall x | 0 <= x < |temp1| && temp1[x].Some? :: x < leavesLength
  }

  /**
   * As written, `leaves` is allocated with nrow entries (809) while the
   * vector set into it is indexed by root column, `Invert(ncol)` (873-874).
   * On the 1 x 2 graph with one edge (row 0, column 1) and nothing matched,
   * the first layer finds free row 0 from root column 1, so temp1 has an
   * entry at index 1, outside a vector of nrow = 1 entries.
   */
  lemma LeavesAllocatedByRows()
    ensures var a, mR, mC := [[false, true]], [Unmatched], [Unmatched, Unmatched];
      var u := FreeRoots(KeepUnclaimed(SpMV(a, Seed(mC)), [Unmatched]), mR);
      !SetFits(|mR|, Invert(u, |mC|))
  {
    var a, mR, mC := [[false, true]], [Unmatched], [Unmatched, Unmatched];
    var seed := Seed(mC);
    RowMinSingle(a[0], seed, 2, 1);
    assert SpMV(a, seed)[0] == Some(MakeVertex(1, 1));
    var u := FreeRoots(KeepUnclaimed(SpMV(a, seed), [Unmatched]), mR);
    assert u[0] == Some(1);
    InvertSwaps(u, 2, 1);
  }

  /** Sized by columns, as the model's search keeps it, `leaves` holds every inverted vector. */
  lemma LeavesByColumnsFit(u: seq<Option<Int64>>, ncol: nat)
    requires |u| <= Int64Max + 1
    ensures SetFits(ncol, Invert(u, ncol))
  {
  }
}
