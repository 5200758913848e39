/**
 * Augment (CombBLAS/MaximumMatching/BPMaximumMatching.cpp:690-750): walk
 * every discovered leaf back through `parentsRow` and flip the matching
 * along the path.  The one-sided MPI windows, locks and fences are replaced
 * by direct sequential reads and writes of one address space.
 */
module Augmentation {
  import opened Machine
  import opened Mates
  import opened Forest

  /** Every row whose partner differs from `before` is now matched to its discoverer. */
  ghost predicate RowsFlipped(before: seq<int>, after: seq<int>, parents: seq<int>)
  {
    |before| == |after| == |parents|
    && forall r | 0 <= r < |after| :: after[r] == before[r] || (parents[r] != Unmatched && after[r] == parents[r])
  }

  /** Every column whose partner differs from `before` is now matched to a row it discovered. */
  ghost predicate ColsFlipped(before: seq<int>, after: seq<int>, parents: seq<int>)
  {
    |before| == |after|
    && forall c | 0 <= c < |after| ::
         after[c] == before[c] || (0 <= after[c] < |parents| && parents[after[c]] == c)
  }

  /** A walk step keeps both frame conditions. */
  lemma FlipStep(r0: seq<int>, rows: seq<int>, c0: seq<int>, cols: seq<int>, parents: seq<int>, row: int)
    requires RowsFlipped(r0, rows, parents) && ColsFlipped(c0, cols, parents)
    requires 0 <= row < |rows| && 0 <= parents[row] < |cols|
    ensures RowsFlipped(r0, rows[row := parents[row]], parents)
    ensures ColsFlipped(c0, cols[parents[row] := row], parents)
  {
  }

  /**
   * One step of the walk of root x only rewrites the column that discovered
   * `row`: the trees of the other, not yet walked roots keep their edges, and
   * the rest of x's own path below the next row keeps its edges too.
   */
  lemma WalkStepKeepsTrees(mateCol2Row: seq<int>, parents: seq<int>, depth: seq<nat>, rootOf: seq<int>, row: int, x: int)
    requires Shaped(parents, depth, rootOf)
    requires 0 <= row < |parents| && parents[row] != Unmatched && rootOf[row] == x
    requires forall r | 0 <= r < |parents| && parents[r] != Unmatched && rootOf[r] == x && depth[r] <= depth[row] ::
      TreeEdge(mateCol2Row, parents, depth, rootOf, r)
    requires TreesFrom(mateCol2Row, parents, depth, rootOf, x + 1)
    ensures 0 <= parents[row] < |mateCol2Row|
    ensures var next := mateCol2Row[parents[row]];
      next == Unmatched
      || (0 <= next < |parents| && parents[next] != Unmatched && rootOf[next] == x && depth[next] < depth[row])
    ensures TreesFrom(mateCol2Row[parents[row] := row], parents, depth, rootOf, x + 1)
    ensures var next := mateCol2Row[parents[row]];
      next != Unmatched ==>
        forall r | 0 <= r < |parents| && parents[r] != Unmatched && rootOf[r] == x && depth[r] <= depth[next] ::
          TreeEdge(mateCol2Row[parents[row] := row], parents, depth, rootOf, r)
  {
    assert TreeEdge(mateCol2Row, parents, depth, rootOf, row);
    var col := parents[row];
    var m' := mateCol2Row[col := row];
    forall r | 0 <= r < |parents| && parents[r] != Unmatched && rootOf[r] >= x + 1
      ensures TreeEdge(m', parents, depth, rootOf, r)
    {
      assert TreeEdge(mateCol2Row, parents, depth, rootOf, r);
    }
    var next := mateCol2Row[col];
    if next != Unmatched {
      forall r | 0 <= r < |parents| && parents[r] != Unmatched && rootOf[r] == x && depth[r] <= depth[next]
        ensures TreeEdge(m', parents, depth, rootOf, r)
      {
        assert TreeEdge(mateCol2Row, parents, depth, rootOf, r);
      }
    }
  }

  /** The walk of root x never touches the leaf of another root. */
  lemma WalkStepKeepsLeaves(leaves: seq<int>, mateRow2Col: seq<int>, parents: seq<int>, rootOf: seq<int>, row: int, col: int, x: int)
    requires |mateRow2Col| == |parents| == |rootOf|
    requires 0 <= row < |parents| && rootOf[row] == x
    requires LeavesFrom(leaves, mateRow2Col, parents, rootOf, x + 1)
    ensures LeavesFrom(leaves, mateRow2Col[row := col], parents, rootOf, x + 1)
  {
    var m' := mateRow2Col[row := col];
    forall y | 0 <= y && x + 1 <= y < |leaves|
      ensures LeafOf(leaves, m', parents, rootOf, y)
    {
      assert LeafOf(leaves, mateRow2Col, parents, rootOf, y);
    }
  }

  /** The frame conditions compose over successive walks. */
  lemma FlippedTrans(a: seq<int>, b: seq<int>, c: seq<int>, a': seq<int>, b': seq<int>, c': seq<int>, parents: seq<int>)
    requires RowsFlipped(a, b, parents) && RowsFlipped(b, c, parents)
    requires ColsFlipped(a', b', parents) && ColsFlipped(b', c', parents)
    ensures RowsFlipped(a, c, parents) && ColsFlipped(a', c', parents)
  {
  }

  /** Leaves of roots above x survive a walk that only rewrote rows of x's tree. */
  lemma OtherLeavesKept(leaves: seq<int>, before: seq<int>, after: seq<int>, parents: seq<int>, rootOf: seq<int>, x: int)
    requires |before| == |after| == |parents| == |rootOf|
    requires LeavesFrom(leaves, before, parents, rootOf, x + 1)
    requires forall r | 0 <= r < |after| && rootOf[r] != x :: after[r] == before[r]
    ensures LeavesFrom(leaves, after, parents, rootOf, x + 1)
  {
    forall y | 0 <= y && x + 1 <= y < |leaves|
      ensures LeafOf(leaves, after, parents, rootOf, y)
    {
      assert LeafOf(leaves, before, parents, rootOf, y);
    }
  }

  /** After the walk of leaf i: the leaves above i, the matched count and both frame conditions carry over to i + 1. */
  lemma LeafDone(lv: seq<int>, parents: seq<int>, rootOf: seq<int>, r0: seq<int>, c0: seq<int>,
                    r2c: seq<int>, c2r: seq<int>, r2c': seq<int>, c2r': seq<int>, i: nat)
    requires i < |lv| && |r2c| == |r2c'| == |parents| == |rootOf|
    requires LeavesFrom(lv, r2c, parents, rootOf, i)
    requires Assigned(c2r) == Assigned(c0) + Assigned(lv[..i])
    requires RowsFlipped(r0, r2c, parents) && ColsFlipped(c0, c2r, parents)
    requires Assigned(c2r') == Assigned(c2r) + Ind(lv[i])
    requires RowsFlipped(r2c, r2c', parents) && ColsFlipped(c2r, c2r', parents)
    requires forall r | 0 <= r < |r2c'| && rootOf[r] != i :: r2c'[r] == r2c[r]
    ensures LeavesFrom(lv, r2c', parents, rootOf, i + 1)
    ensures Assigned(c2r') == Assigned(c0) + Assigned(lv[..i + 1])
    ensures RowsFlipped(r0, r2c', parents) && ColsFlipped(c0, c2r', parents)
  {
    AssignedPrefix(lv, i);
    OtherLeavesKept(lv, r2c, r2c', parents, rootOf, i);
    FlippedTrans(r0, r2c, r2c', c0, c2r, c2r', parents);
  }

  /**
   * The rows the walk from `row` visits: `row`, then the row matched to
   * row's discoverer, and so on, until a discoverer is unmatched.  The walk
   * climbs the tree, so each next row is strictly shallower.
   */
  ghost function Chain(c2r: seq<int>, parents: seq<int>, depth: seq<nat>, row: int): seq<int>
    decreases if 0 <= row < |depth| then depth[row] + 1 else 0
  {
    if !(0 <= row < |parents| && row < |depth|) then []
    else
      var col := parents[row];
      var next := if 0 <= col < |c2r| then c2r[col] else Unmatched;
      if 0 <= next < |depth| && depth[next] < depth[row] then [row] + Chain(c2r, parents, depth, next)
      else [row]
  }

  /** Each row of the chain, in order, is matched to its discoverer. */
  ghost function FlipRows(r2c: seq<int>, parents: seq<int>, chain: seq<int>): seq<int>
    decreases |chain|
  {
    if chain == [] then r2c
    else
      var r := chain[0];
      FlipRows(if 0 <= r < |r2c| && r < |parents| then r2c[r := parents[r]] else r2c, parents, chain[1..])
  }

  /** Each row's discoverer, in chain order, is matched to that row. */
  ghost function FlipCols(c2r: seq<int>, parents: seq<int>, chain: seq<int>): seq<int>
    decreases |chain|
  {
    if chain == [] then c2r
    else
      var r := chain[0];
      var c := if 0 <= r < |parents| then parents[r] else Unmatched;
      FlipCols(if 0 <= c < |c2r| then c2r[c := r] else c2r, parents, chain[1..])
  }

  /** The walks of the leaves in order, each over the arrays the walks before it left. */
  ghost function FlipAll(r2c: seq<int>, c2r: seq<int>, parents: seq<int>, depth: seq<nat>, leaves: seq<int>): (seq<int>, seq<int>)
    decreases |leaves|
  {
    if leaves == [] then (r2c, c2r)
    else
      var chain := Chain(c2r, parents, depth, leaves[0]);
      FlipAll(FlipRows(r2c, parents, chain), FlipCols(c2r, parents, chain), parents, depth, leaves[1..])
  }

  /** Flipping rows matches exactly the rows of the chain, each to its discoverer, and keeps every other row. */
  lemma {:induction false} FlipRowsMeaning(r2c: seq<int>, parents: seq<int>, chain: seq<int>)
    requires |r2c| <= |parents|
    ensures |FlipRows(r2c, parents, chain)| == |r2c|
    ensures forall r | 0 <= r < |r2c| ::
      FlipRows(r2c, parents, chain)[r] == if r in chain then parents[r] else r2c[r]
    decreases |chain|
  {
    if chain != [] {
      var r := chain[0];
      var r2c' := if 0 <= r < |r2c| then r2c[r := parents[r]] else r2c;
      FlipRowsMeaning(r2c', parents, chain[1..]);
      assert chain == [r] + chain[1..];
    }
  }

  /** Flipping columns keeps every column that discovered no row of the chain. */
  lemma {:induction false} FlipColsFrame(c2r: seq<int>, parents: seq<int>, chain: seq<int>)
    requires forall k | 0 <= k < |chain| :: 0 <= chain[k] < |parents|
    ensures |FlipCols(c2r, parents, chain)| == |c2r|
    ensures forall c | 0 <= c < |c2r| && (forall k | 0 <= k < |chain| :: parents[chain[k]] != c) ::
      FlipCols(c2r, parents, chain)[c] == c2r[c]
    decreases |chain|
  {
    if chain != [] {
      var r := chain[0];
      var c := parents[r];
      var c2r' := if 0 <= c < |c2r| then c2r[c := r] else c2r;
      FlipColsFrame(c2r', parents, chain[1..]);
      forall c0 | 0 <= c0 < |c2r| && (forall k | 0 <= k < |chain| :: parents[chain[k]] != c0)
        ensures FlipCols(c2r, parents, chain)[c0] == c2r[c0]
      {
        forall k | 0 <= k < |chain[1..]|
          ensures parents[chain[1..][k]] != c0
        {
          assert chain[1..][k] == chain[k + 1];
        }
      }
    }
  }

  /**
   * In a forest whose tree x has its edges up to the depth of `s`, the
   * chain from a claimed row s of tree x stays in tree x, climbs, and ends
   * at a row whose discoverer is the unmatched root column x: it is the
   * alternating path from s to its root.
   */
  lemma {:induction false} ChainInTree(c2r: seq<int>, parents: seq<int>, depth: seq<nat>, rootOf: seq<int>,
                                       x: int, s: int, bound: nat)
    requires Shaped(parents, depth, rootOf)
    requires 0 <= s < |parents| && parents[s] != Unmatched && rootOf[s] == x && depth[s] <= bound
    requires forall r | 0 <= r < |parents| && parents[r] != Unmatched && rootOf[r] == x && depth[r] <= bound ::
      TreeEdge(c2r, parents, depth, rootOf, r)
    ensures var chain := Chain(c2r, parents, depth, s);
      && |chain| > 0 && chain[0] == s
      && (forall k | 0 <= k < |chain| ::
            && 0 <= chain[k] < |parents| && parents[chain[k]] != Unmatched && rootOf[chain[k]] == x
            && depth[chain[k]] <= depth[s] && TreeEdge(c2r, parents, depth, rootOf, chain[k]))
      && (forall k | 0 <= k < |chain| - 1 :: chain[k + 1] == c2r[parents[chain[k]]])
      && c2r[parents[chain[|chain| - 1]]] == Unmatched && parents[chain[|chain| - 1]] == x
    decreases depth[s]
  {
    assert TreeEdge(c2r, parents, depth, rootOf, s);
    var next := c2r[parents[s]];
    if next != Unmatched {
      ChainInTree(c2r, parents, depth, rootOf, x, next, bound);
      var rest := Chain(c2r, parents, depth, next);
      var chain := Chain(c2r, parents, depth, s);
      assert chain == [s] + rest;
      forall k | 0 <= k < |chain| - 1
        ensures chain[k + 1] == c2r[parents[chain[k]]]
      {
        if k > 0 {
          assert chain[k] == rest[k - 1] && chain[k + 1] == rest[k];
        }
      }
    }
  }

  /** A chain that never needs column `col` reads the same after `col` is rewritten. */
  lemma {:induction false} ChainFrame(c2r: seq<int>, parents: seq<int>, depth: seq<nat>, s: int, col: int, v: int)
    requires 0 <= col < |c2r|
    requires forall r | r in Chain(c2r, parents, depth, s) :: 0 <= r < |parents| && parents[r] != col
    ensures Chain(c2r[col := v], parents, depth, s) == Chain(c2r, parents, depth, s)
    decreases if 0 <= s < |depth| then depth[s] + 1 else 0
  {
    if 0 <= s < |parents| && s < |depth| {
      assert s in Chain(c2r, parents, depth, s);
      var c := parents[s];
      var next := if 0 <= c < |c2r| then c2r[c] else Unmatched;
      assert next == if 0 <= c < |c2r[col := v]| then c2r[col := v][c] else Unmatched;
      if 0 <= next < |depth| && depth[next] < depth[s] {
        var rest := Chain(c2r, parents, depth, next);
        assert Chain(c2r, parents, depth, s) == [s] + rest;
        assert forall r | r in rest :: r in Chain(c2r, parents, depth, s);
        ChainFrame(c2r, parents, depth, next, col, v);
      }
    }
  }

  /**
   * One walk step from `row` consumes the head of its chain: the rest of
   * the chain, read after row's discoverer is rematched to row, starts at
   * the next row.  A walk that stops has reached root column x.
   */
  lemma WalkChain(c2r: seq<int>, parents: seq<int>, depth: seq<nat>, rootOf: seq<int>, x: int, row: int)
    requires Shaped(parents, depth, rootOf)
    requires 0 <= row < |parents| && parents[row] != Unmatched && rootOf[row] == x
    requires forall r | 0 <= r < |parents| && parents[r] != Unmatched && rootOf[r] == x && depth[r] <= depth[row] ::
      TreeEdge(c2r, parents, depth, rootOf, r)
    ensures 0 <= parents[row] < |c2r|
    ensures var col := parents[row]; var next := c2r[col];
      && Chain(c2r, parents, depth, row) == [row] + Chain(c2r[col := row], parents, depth, next)
      && (next == Unmatched ==> col == x)
  {
    assert TreeEdge(c2r, parents, depth, rootOf, row);
    var col := parents[row];
    var next := c2r[col];
    if next != Unmatched {
      ChainInTree(c2r, parents, depth, rootOf, x, next, depth[row]);
      var chain := Chain(c2r, parents, depth, next);
      forall r | r in chain
        ensures 0 <= r < |parents| && parents[r] != col
      {
        var k :| 0 <= k < |chain| && chain[k] == r;
        assert TreeEdge(c2r, parents, depth, rootOf, r);
      }
      ChainFrame(c2r, parents, depth, next, col, row);
    }
  }

  /** Flipping a chain is flipping its head, then the rest. */
  lemma FlipHead(r2c: seq<int>, c2r: seq<int>, parents: seq<int>, row: int, rest: seq<int>)
    requires 0 <= row < |r2c| <= |parents| && 0 <= parents[row] < |c2r|
    ensures FlipRows(r2c, parents, [row] + rest) == FlipRows(r2c[row := parents[row]], parents, rest)
    ensures FlipCols(c2r, parents, [row] + rest) == FlipCols(c2r[parents[row] := row], parents, rest)
  {
    assert ([row] + rest)[0] == row && ([row] + rest)[1..] == rest;
  }

  /**
   * After the walk of leaf i, the remaining walks are those of the leaves
   * above i, and every leaf up to i has its row matched to its discoverer
   * and its root column matched.
   */
  lemma WalksCompose(lv: seq<int>, parents: seq<int>, depth: seq<nat>, rootOf: seq<int>, r0: seq<int>, c0: seq<int>,
                     r2c: seq<int>, c2r: seq<int>, r2c': seq<int>, c2r': seq<int>, i: nat)
    requires i < |lv| && |r2c| == |r2c'| == |parents| == |rootOf|
    requires forall k | 0 <= k < |lv| && lv[k] != Unmatched :: 0 <= lv[k] < |parents| && rootOf[lv[k]] == k
    requires FlipAll(r0, c0, parents, depth, lv) == FlipAll(r2c, c2r, parents, depth, lv[i..])
    requires forall k | 0 <= k < i && lv[k] != Unmatched ::
      r2c[lv[k]] == parents[lv[k]] && 0 <= k < |c2r| && c2r[k] != Unmatched
    requires r2c' == FlipRows(r2c, parents, Chain(c2r, parents, depth, lv[i]))
    requires c2r' == FlipCols(c2r, parents, Chain(c2r, parents, depth, lv[i]))
    requires ColsFlipped(c2r, c2r', parents)
    requires forall r | 0 <= r < |r2c'| && rootOf[r] != i :: r2c'[r] == r2c[r]
    requires lv[i] != Unmatched ==> r2c'[lv[i]] == parents[lv[i]] && 0 <= i < |c2r'| && c2r'[i] != Unmatched
    ensures FlipAll(r0, c0, parents, depth, lv) == FlipAll(r2c', c2r', parents, depth, lv[i + 1..])
    ensures forall k | 0 <= k < i + 1 && lv[k] != Unmatched ::
      r2c'[lv[k]] == parents[lv[k]] && 0 <= k < |c2r'| && c2r'[k] != Unmatched
  {
    assert lv[i..][0] == lv[i] && lv[i..][1..] == lv[i + 1..];
  }

  /** What holds of the mate arrays while the walk of root x is at `row`. */
  ghost predicate WalkState(r0: seq<int>, c0: seq<int>, r2c: seq<int>, c2r: seq<int>, parents: seq<int>,
                            depth: seq<nat>, rootOf: seq<int>, x: int, row: int)
  {
    && Shaped(parents, depth, rootOf) && |r2c| == |parents|
    && ConsistentExcept(r2c, c2r, row)
    && (row == Unmatched || (0 <= row < |parents| && parents[row] != Unmatched && rootOf[row] == x))
    && (row != Unmatched ==>
          forall r | 0 <= r < |parents| && parents[r] != Unmatched && rootOf[r] == x && depth[r] <= depth[row] ::
            TreeEdge(c2r, parents, depth, rootOf, r))
    && TreesFrom(c2r, parents, depth, rootOf, x + 1)
    && RowsFlipped(r0, r2c, parents)
    && ColsFlipped(c0, c2r, parents)
    && |r0| == |r2c|
    && (forall r | 0 <= r < |r2c| && rootOf[r] != x :: r2c[r] == r0[r])
  }

  /** One step of the walk keeps the walk state and makes progress in depth. */
  lemma WalkStep(r0: seq<int>, c0: seq<int>, r2c: seq<int>, c2r: seq<int>, parents: seq<int>,
                 depth: seq<nat>, rootOf: seq<int>, x: int, row: int)
    requires WalkState(r0, c0, r2c, c2r, parents, depth, rootOf, x, row) && row != Unmatched
    ensures 0 <= parents[row] < |c2r|
    ensures var col := parents[row]; var next := c2r[col];
      && WalkState(r0, c0, r2c[row := col], c2r[col := row], parents, depth, rootOf, x, next)
      && (next == Unmatched || (0 <= next < |depth| && depth[next] < depth[row]))
  {
    WalkStepKeepsTrees(c2r, parents, depth, rootOf, row, x);
    var col := parents[row];
    AugmentStep(r2c, c2r, row, col);
    FlipStep(r0, r2c, c0, c2r, parents, row);
  }

  /**
   * What holds while the walk of leaf `leaf` (root x) is at `row`: the walk
   * state, the count so far, what is left of the chain, and the leaf and
   * root facts once they are established.
   */
  ghost predicate PathState(r0: seq<int>, c0: seq<int>, r2c: seq<int>, c2r: seq<int>, parents: seq<int>,
                            depth: seq<nat>, rootOf: seq<int>, x: int, leaf: int, row: int)
  {
    && WalkState(r0, c0, r2c, c2r, parents, depth, rootOf, x, row)
    && (leaf == Unmatched || 0 <= leaf < |parents|)
    && Assigned(c2r) == Assigned(c0) + (if row == Unmatched then Ind(leaf) else 0)
    && FlipRows(r0, parents, Chain(c0, parents, depth, leaf)) == FlipRows(r2c, parents, Chain(c2r, parents, depth, row))
    && FlipCols(c0, parents, Chain(c0, parents, depth, leaf)) == FlipCols(c2r, parents, Chain(c2r, parents, depth, row))
    && (leaf != Unmatched && row != leaf ==> r2c[leaf] == parents[leaf])
    && (leaf != Unmatched && row != leaf && row != Unmatched ==> depth[row] < depth[leaf])
    && (leaf != Unmatched && row == Unmatched ==> 0 <= x < |c2r| && c2r[x] != Unmatched)
  }

  /** One step of the walk keeps the path state. */
  lemma PathStep(r0: seq<int>, c0: seq<int>, r2c: seq<int>, c2r: seq<int>, parents: seq<int>,
                 depth: seq<nat>, rootOf: seq<int>, x: int, leaf: int, row: int)
    requires PathState(r0, c0, r2c, c2r, parents, depth, rootOf, x, leaf, row) && row != Unmatched
    ensures 0 <= parents[row] < |c2r|
    ensures var col := parents[row]; var next := c2r[col];
      && PathState(r0, c0, r2c[row := col], c2r[col := row], parents, depth, rootOf, x, leaf, next)
      && (next == Unmatched || (0 <= next < |depth| && depth[next] < depth[row]))
  {
    WalkStep(r0, c0, r2c, c2r, parents, depth, rootOf, x, row);
    WalkChain(c2r, parents, depth, rootOf, x, row);
    var col := parents[row];
    FlipHead(r2c, c2r, parents, row, Chain(c2r[col := row], parents, depth, c2r[col]));
    AssignedUpdate(c2r, col, row);
  }

  /** The walk starts at the leaf, with nothing changed yet. */
  lemma PathStart(r0: seq<int>, c0: seq<int>, parents: seq<int>, depth: seq<nat>, rootOf: seq<int>, x: int, leaf: int)
    requires Shaped(parents, depth, rootOf) && |r0| == |parents|
    requires Consistent(r0, c0) && TreesFrom(c0, parents, depth, rootOf, x)
    requires leaf == Unmatched
      || (0 <= leaf < |parents| && parents[leaf] != Unmatched && rootOf[leaf] == x && r0[leaf] == Unmatched)
    ensures PathState(r0, c0, r0, c0, parents, depth, rootOf, x, leaf, leaf)
  {
    if leaf != Unmatched {
      FreeRowIsPending(r0, c0, leaf);
    }
  }

  /** What a finished walk has done. */
  lemma PathEnd(r0: seq<int>, c0: seq<int>, r2c: seq<int>, c2r: seq<int>, parents: seq<int>,
                depth: seq<nat>, rootOf: seq<int>, x: int, leaf: int)
    requires PathState(r0, c0, r2c, c2r, parents, depth, rootOf, x, leaf, Unmatched)
    ensures Consistent(r2c, c2r) && Shaped(parents, depth, rootOf)
    ensures TreesFrom(c2r, parents, depth, rootOf, x + 1)
    ensures Assigned(c2r) == Assigned(c0) + Ind(leaf)
    ensures RowsFlipped(r0, r2c, parents) && ColsFlipped(c0, c2r, parents)
    ensures forall r | 0 <= r < |r2c| && rootOf[r] != x :: r2c[r] == r0[r]
    ensures r2c == FlipRows(r0, parents, Chain(c0, parents, depth, leaf))
    ensures c2r == FlipCols(c0, parents, Chain(c0, parents, depth, leaf))
    ensures leaf != Unmatched ==> r2c[leaf] == parents[leaf] && 0 <= x < |c2r| && c2r[x] != Unmatched
  {
  }

  /**
   * The walk of one leaf (the inner `while(row != -1)` loop, 720-740):
   * col = parentsRow[row]; nextrow = old mateCol2Row[col];
   * mateCol2Row[col] = row; mateRow2Col[row] = col; row = nextrow.
   */
  method AugmentPath(mateRow2Col: array<Int64>, mateCol2Row: array<Int64>, parentsRow: array<Int64>, leaf: Int64, ghost x: int,
                     ghost depth: seq<nat>, ghost rootOf: seq<int>)
    requires mateRow2Col != mateCol2Row && parentsRow != mateRow2Col && parentsRow != mateCol2Row
    requires parentsRow.Length == mateRow2Col.Length && Shaped(parentsRow[..], depth, rootOf)
    requires Consistent(mateRow2Col[..], mateCol2Row[..])
    requires TreesFrom(mateCol2Row[..], parentsRow[..], depth, rootOf, x)
    requires leaf == Unmatched
      || (0 <= leaf < parentsRow.Length && parentsRow[leaf] != Unmatched && rootOf[leaf] == x
          && mateRow2Col[leaf] == Unmatched)
    modifies mateRow2Col, mateCol2Row
    ensures Consistent(mateRow2Col[..], mateCol2Row[..])
    ensures TreesFrom(mateCol2Row[..], parentsRow[..], depth, rootOf, x + 1)
    ensures Assigned(mateCol2Row[..]) == old(Assigned(mateCol2Row[..])) + Ind(leaf)
    ensures RowsFlipped(old(mateRow2Col[..]), mateRow2Col[..], parentsRow[..])
    ensures ColsFlipped(old(mateCol2Row[..]), mateCol2Row[..], parentsRow[..])
    ensures forall r | 0 <= r < mateRow2Col.Length && rootOf[r] != x :: mateRow2Col[r] == old(mateRow2Col[r])
    // the new contents: the chain from the leaf to its root, flipped
    ensures mateRow2Col[..] == FlipRows(old(mateRow2Col[..]), parentsRow[..], Chain(old(mateCol2Row[..]), parentsRow[..], depth, leaf))
    ensures mateCol2Row[..] == FlipCols(old(mateCol2Row[..]), parentsRow[..], Chain(old(mateCol2Row[..]), parentsRow[..], depth, leaf))
    ensures leaf != Unmatched ==>
      mateRow2Col[leaf] == parentsRow[leaf] && 0 <= x < mateCol2Row.Length && mateCol2Row[x] != Unmatched
  {
    ghost var parents := parentsRow[..];
    ghost var r0, c0 := mateRow2Col[..], mateCol2Row[..];
    ghost var r2c, c2r := r0, c0;
    var row: Int64 := leaf;
    PathStart(r0, c0, parents, depth, rootOf, x, leaf);
    while row != Unmatched
      invariant parents == parentsRow[..] && r2c == mateRow2Col[..] && c2r == mateCol2Row[..]
      invariant PathState(r0, c0, r2c, c2r, parents, depth, rootOf, x, leaf, row)
      decreases if row == Unmatched then 0 else depth[row] + 1
    {
      var col: Int64 := parentsRow[row];
      var nextrow: Int64 := mateCol2Row[col];
      PathStep(r0, c0, r2c, c2r, parents, depth, rootOf, x, leaf, row);
      assert col as int == parents[row] && nextrow as int == c2r[col];
      mateCol2Row[col] := row;
      mateRow2Col[row] := col;
      r2c, c2r := r2c[row := col], c2r[col := row];
      row := nextrow;
    }
    PathEnd(r0, c0, r2c, c2r, parents, depth, rootOf, x, leaf);
  }

  /** What holds between the walks: leaves 0 .. i - 1 have been walked. */
  ghost predicate AugState(lv: seq<int>, parents: seq<int>, depth: seq<nat>, rootOf: seq<int>, r0: seq<int>, c0: seq<int>,
                           r2c: seq<int>, c2r: seq<int>, i: nat)
  {
    && i <= |lv| && Shaped(parents, depth, rootOf) && |r2c| == |parents| && |r0| == |parents|
    && (forall k | 0 <= k < |lv| && lv[k] != Unmatched :: 0 <= lv[k] < |parents| && rootOf[lv[k]] == k)
    && Consistent(r2c, c2r)
    && TreesFrom(c2r, parents, depth, rootOf, i)
    && LeavesFrom(lv, r2c, parents, rootOf, i)
    && Assigned(c2r) == Assigned(c0) + Assigned(lv[..i])
    && RowsFlipped(r0, r2c, parents) && ColsFlipped(c0, c2r, parents)
    && FlipAll(r0, c0, parents, depth, lv) == FlipAll(r2c, c2r, parents, depth, lv[i..])
    && (forall k | 0 <= k < i && lv[k] != Unmatched ::
          r2c[lv[k]] == parents[lv[k]] && 0 <= k < |c2r| && c2r[k] != Unmatched)
  }

  /** Before the first walk. */
  lemma AugStart(lv: seq<int>, parents: seq<int>, depth: seq<nat>, rootOf: seq<int>, r0: seq<int>, c0: seq<int>)
    requires Shaped(parents, depth, rootOf) && |r0| == |parents|
    requires Consistent(r0, c0) && Trees(c0, parents, depth, rootOf)
    requires LeavesFrom(lv, r0, parents, rootOf, 0)
    ensures AugState(lv, parents, depth, rootOf, r0, c0, r0, c0, 0)
  {
    forall k | 0 <= k < |lv| && lv[k] != Unmatched
      ensures 0 <= lv[k] < |parents| && rootOf[lv[k]] == k
    {
      assert LeafOf(lv, r0, parents, rootOf, k);
    }
    assert lv[0..] == lv && lv[..0] == [];
  }

  /** The walk of leaf i, as AugmentPath specifies it, moves the state from i to i + 1. */
  lemma AugStep(lv: seq<int>, parents: seq<int>, depth: seq<nat>, rootOf: seq<int>, r0: seq<int>, c0: seq<int>,
                r2c: seq<int>, c2r: seq<int>, r2c': seq<int>, c2r': seq<int>, i: nat)
    requires AugState(lv, parents, depth, rootOf, r0, c0, r2c, c2r, i) && i < |lv| && |r2c'| == |r2c|
    requires Consistent(r2c', c2r') && TreesFrom(c2r', parents, depth, rootOf, i + 1)
    requires Assigned(c2r') == Assigned(c2r) + Ind(lv[i])
    requires RowsFlipped(r2c, r2c', parents) && ColsFlipped(c2r, c2r', parents)
    requires forall r | 0 <= r < |r2c'| && rootOf[r] != i :: r2c'[r] == r2c[r]
    requires r2c' == FlipRows(r2c, parents, Chain(c2r, parents, depth, lv[i]))
    requires c2r' == FlipCols(c2r, parents, Chain(c2r, parents, depth, lv[i]))
    requires lv[i] != Unmatched ==> r2c'[lv[i]] == parents[lv[i]] && 0 <= i < |c2r'| && c2r'[i] != Unmatched
    ensures AugState(lv, parents, depth, rootOf, r0, c0, r2c', c2r', i + 1)
  {
    LeafDone(lv, parents, rootOf, r0, c0, r2c, c2r, r2c', c2r', i);
    WalksCompose(lv, parents, depth, rootOf, r0, c0, r2c, c2r, r2c', c2r', i);
  }

  /** After the last walk. */
  lemma AugEnd(lv: seq<int>, parents: seq<int>, depth: seq<nat>, rootOf: seq<int>, r0: seq<int>, c0: seq<int>,
               r2c: seq<int>, c2r: seq<int>)
    requires AugState(lv, parents, depth, rootOf, r0, c0, r2c, c2r, |lv|)
    ensures Consistent(r2c, c2r) && Assigned(c2r) == Assigned(c0) + Assigned(lv)
    ensures RowsFlipped(r0, r2c, parents) && ColsFlipped(c0, c2r, parents)
    ensures (r2c, c2r) == FlipAll(r0, c0, parents, depth, lv)
    ensures forall k | 0 <= k < |lv| && lv[k] != Unmatched ::
      0 <= lv[k] < |r2c| && r2c[lv[k]] == parents[lv[k]] && 0 <= k < |c2r| && c2r[k] != Unmatched
  {
    assert lv[..|lv|] == lv && lv[|lv|..] == [];
  }

  /** One iteration of the outer loop: the walk of leaf i. */
  method WalkLeaf(mateRow2Col: array<Int64>, mateCol2Row: array<Int64>, parentsRow: array<Int64>, leaves: array<Int64>,
                  i: nat, ghost depth: seq<nat>, ghost rootOf: seq<int>, ghost r0: seq<int>, ghost c0: seq<int>)
    requires mateRow2Col != mateCol2Row
    requires parentsRow != mateRow2Col && parentsRow != mateCol2Row
    requires leaves != mateRow2Col && leaves != mateCol2Row
    requires i < leaves.Length && parentsRow.Length == mateRow2Col.Length
    requires AugState(leaves[..], parentsRow[..], depth, rootOf, r0, c0, mateRow2Col[..], mateCol2Row[..], i)
    modifies mateRow2Col, mateCol2Row
    ensures AugState(leaves[..], parentsRow[..], depth, rootOf, r0, c0, mateRow2Col[..], mateCol2Row[..], i + 1)
  {
    var row := leaves[i];
    assert LeafOf(leaves[..], mateRow2Col[..], parentsRow[..], rootOf, i);
    ghost var r2c, c2r := mateRow2Col[..], mateCol2Row[..];
    AugmentPath(mateRow2Col, mateCol2Row, parentsRow, row, i, depth, rootOf);
    AugStep(leaves[..], parentsRow[..], depth, rootOf, r0, c0, r2c, c2r, mateRow2Col[..], mateCol2Row[..], i);
  }

  /**
   * Augment (690-750): the outer `for` over the local leaves array, one walk
   * per recorded leaf.  `leaves` is indexed by root column.
   */
  method Augment(mateRow2Col: array<Int64>, mateCol2Row: array<Int64>, parentsRow: array<Int64>, leaves: array<Int64>,
                 ghost depth: seq<nat>, ghost rootOf: seq<int>)
    requires mateRow2Col != mateCol2Row
    requires parentsRow != mateRow2Col && parentsRow != mateCol2Row
    requires leaves != mateRow2Col && leaves != mateCol2Row
    requires parentsRow.Length == mateRow2Col.Length && Shaped(parentsRow[..], depth, rootOf)
    requires Consistent(mateRow2Col[..], mateCol2Row[..])
    requires Trees(mateCol2Row[..], parentsRow[..], depth, rootOf)
    requires LeavesFrom(leaves[..], mateRow2Col[..], parentsRow[..], rootOf, 0)
    modifies mateRow2Col, mateCol2Row
    ensures Consistent(mateRow2Col[..], mateCol2Row[..])
    // one more matched pair per leaf
    ensures Assigned(mateCol2Row[..]) == old(Assigned(mateCol2Row[..])) + Assigned(leaves[..])
    // only discoverer edges enter the matching
    ensures RowsFlipped(old(mateRow2Col[..]), mateRow2Col[..], parentsRow[..])
    ensures ColsFlipped(old(mateCol2Row[..]), mateCol2Row[..], parentsRow[..])
    // the new contents: the walks of the leaves, in order
    ensures (mateRow2Col[..], mateCol2Row[..]) == FlipAll(old(mateRow2Col[..]), old(mateCol2Row[..]), parentsRow[..], depth, leaves[..])
    // each leaf row is matched to its discoverer, and each root column with a leaf is matched
    ensures forall i | 0 <= i < leaves.Length && leaves[i] != Unmatched ::
      0 <= leaves[i] < mateRow2Col.Length && mateRow2Col[leaves[i]] == parentsRow[leaves[i]]
      && 0 <= i < mateCol2Row.Length && mateCol2Row[i] != Unmatched
  {
    ghost var parents, lv, r0, c0 := parentsRow[..], leaves[..], mateRow2Col[..], mateCol2Row[..];
    AugStart(lv, parents, depth, rootOf, r0, c0);
    var i := 0;
    while i < leaves.Length
      invariant 0 <= i <= leaves.Length
      invariant parents == parentsRow[..] && lv == leaves[..]
      invariant AugState(lv, parents, depth, rootOf, r0, c0, mateRow2Col[..], mateCol2Row[..], i)
    {
      WalkLeaf(mateRow2Col, mateCol2Row, parentsRow, leaves, i, depth, rootOf, r0, c0);
      i := i + 1;
    }
    AugEnd(lv, parents, depth, rootOf, r0, c0, mateRow2Col[..], mateCol2Row[..]);
  }
}
