/**
 * The persistent matching state of the maximum-matching engine
 * (CombBLAS/MaximumMatching/BPMaximumMatching.cpp): `mateRow2Col` gives for
 * every row vertex its matched column or -1, `mateCol2Row` gives for every
 * column vertex its matched row or -1.
 */
module Mates {

  /** The sentinel the source uses for "no partner" and "no parent". */
  const Unmatched: int := -1

  /**
   * Mutual consistency of the two mate arrays, except that row `pending` may
   * point at a column that no longer points back.  No column points at
   * `pending`.  With `pending == Unmatched` this is full consistency.
   */
  ghost predicate ConsistentExcept(mateRow2Col: seq<int>, mateCol2Row: seq<int>, pending: int)
  {
    && (forall r | 0 <= r < |mateRow2Col| && r != pending ::
          mateRow2Col[r] == Unmatched
          || (0 <= mateRow2Col[r] < |mateCol2Row| && mateCol2Row[mateRow2Col[r]] == r))
    && (forall c | 0 <= c < |mateCol2Row| ::
          mateCol2Row[c] == Unmatched
          || (0 <= mateCol2Row[c] < |mateRow2Col| && mateCol2Row[c] != pending
              && mateRow2Col[mateCol2Row[c]] == c))
  }

  /** For every row r, mateRow2Col[r] = c implies mateCol2Row[c] = r, and vice versa. */
  ghost predicate Consistent(mateRow2Col: seq<int>, mateCol2Row: seq<int>)
  {
    ConsistentExcept(mateRow2Col, mateCol2Row, Unmatched)
  }

  /** Every matched row is matched along an edge of the graph `adj` (rows x columns). */
  ghost predicate InGraph(adj: seq<seq<bool>>, mateRow2Col: seq<int>)
    requires |adj| == |mateRow2Col|
  {
    forall r | 0 <= r < |mateRow2Col| && mateRow2Col[r] != Unmatched ::
      0 <= mateRow2Col[r] < |adj[r]| && adj[r][mateRow2Col[r]]
  }

  /** 1 when the entry is set (not -1), else 0. */
  function Ind(x: int): nat
  {
    if x != Unmatched then 1 else 0
  }

  /**
   * The number of entries that are not -1: the matched columns of
   * `mateCol2Row`, or the leaves of a phase (`leaves.Count(leaf != -1)`).
   */
  function Assigned(s: seq<int>): (n: nat)
    ensures n <= |s|
    ensures n == 0 <==> forall i | 0 <= i < |s| :: s[i] == Unmatched
  {
    if s == [] then 0 else Assigned(s[..|s| - 1]) + Ind(s[|s| - 1])
  }

  /** Counting a prefix one entry longer adds that entry's indicator. */
  lemma AssignedPrefix(s: seq<int>, i: nat)
    requires i < |s|
    ensures Assigned(s[..i + 1]) == Assigned(s[..i]) + Ind(s[i])
  {
    assert s[..i + 1][..i] == s[..i];
  }

  /** Overwriting one entry changes the count by the difference of the indicators. */
  lemma {:induction false} AssignedUpdate(s: seq<int>, i: nat, v: int)
    requires i < |s|
    ensures Assigned(s[i := v]) == Assigned(s) - Ind(s[i]) + Ind(v)
  {
    if i < |s| - 1 {
      assert s[i := v][..|s| - 1] == s[..|s| - 1][i := v];
      AssignedUpdate(s[..|s| - 1], i, v);
    } else {
      assert s[i := v][..|s| - 1] == s[..|s| - 1];
    }
  }

  /** A free row of a consistent matching is a valid pending row: no column points at it. */
  lemma FreeRowIsPending(mateRow2Col: seq<int>, mateCol2Row: seq<int>, leaf: int)
    requires Consistent(mateRow2Col, mateCol2Row)
    requires 0 <= leaf < |mateRow2Col| && mateRow2Col[leaf] == Unmatched
    ensures ConsistentExcept(mateRow2Col, mateCol2Row, leaf)
  {
  }

  /**
   * One step of the augmenting walk: matching `row` to `col` and taking over
   * col's previous partner as the next pending row keeps the arrays
   * consistent except at that next row.
   */
  lemma AugmentStep(mateRow2Col: seq<int>, mateCol2Row: seq<int>, row: int, col: int)
    requires ConsistentExcept(mateRow2Col, mateCol2Row, row)
    requires 0 <= row < |mateRow2Col| && 0 <= col < |mateCol2Row|
    ensures ConsistentExcept(mateRow2Col[row := col], mateCol2Row[col := row], mateCol2Row[col])
  {
  }

  /**
   * Setting entries that were -1 never lowers the count, and setting at
   * least one raises it.
   */
  lemma {:induction false} AssignedMonotone(s: seq<int>, t: seq<int>)
    requires |s| == |t|
    requires forall i | 0 <= i < |s| && s[i] != Unmatched :: t[i] != Unmatched
    ensures Assigned(s) <= Assigned(t)
    ensures (exists i | 0 <= i < |s| :: s[i] == Unmatched && t[i] != Unmatched) ==> Assigned(s) < Assigned(t)
  {
    if s != [] {
      var n := |s| - 1;
      AssignedMonotone(s[..n], t[..n]);
      if exists i | 0 <= i < |s| :: s[i] == Unmatched && t[i] != Unmatched {
        var i :| 0 <= i < |s| && s[i] == Unmatched && t[i] != Unmatched;
        if i < n {
          assert s[..n][i] == Unmatched && t[..n][i] != Unmatched;
        }
      }
    }
  }
}
