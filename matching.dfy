/**
 * The phase controller `maximumMatching`
 * (CombBLAS/MaximumMatching/BPMaximumMatching.cpp:769-988) on a single
 * process: rebuild the matching matrix with PermMat, search, and augment
 * along the leaves found, until a phase finds no leaf.
 */
module Matching {
  import opened Wrappers
  import opened Machine
  import opened Mates
  import opened Forest
  import opened Primitives
  import opened PermMatrix
  import opened Search
  import opened Augmentation

  /** 800: `Mbool = PermMat(mateCol2Row, nrow)` on a 1 x 1 grid. */
  method BuildMbool(mateCol2Row: seq<Int64>, nrow: Int64) returns (mbool: seq<seq<bool>>)
    requires 0 <= nrow && |mateCol2Row| <= Int64Max
    ensures IsMatchingMatrix(mbool, mateCol2Row, nrow)
  {
    var sendcnt, sdispls, rows, cols := PermMat(mateCol2Row, nrow, 1, 1, 0);
    OneProcessMatrix(mateCol2Row, nrow, sendcnt[..], sdispls[..], rows, cols);
    mbool := Assemble(rows, cols, sendcnt[0], |mateCol2Row|, nrow);
  }

  /** A fresh array holding the sequence (the dense vectors passed to Augment). */
  method ToArray(s: seq<Int64>) returns (a: array<Int64>)
    ensures fresh(a) && a[..] == s
  {
    a := new Int64[|s|](i requires 0 <= i < |s| => s[i]);
  }

  /** Rows that Augment rematched took their discoverer, which is a graph neighbour. */
  lemma AugmentKeepsEdges(a: seq<seq<bool>>, before: seq<int>, after: seq<int>, parents: seq<int>)
    requires |a| == |before| && InGraph(a, before)
    requires RowsFlipped(before, after, parents)
    requires forall r | 0 <= r < |parents| && parents[r] != Unmatched :: 0 <= parents[r] < |a[r]| && a[r][parents[r]]
    ensures InGraph(a, after)
  {
  }

  /**
   * maximumMatching: the phase loop over the in/out matching arrays.  A
   * phase whose search finds no leaf ends the loop; every other phase adds
   * one matched pair per leaf, so every phase but the last adds at least
   * one pair and the loop ends after at most ncol + 1 phases.  The matching stays consistent and uses graph edges only, and
   * the number of phases and the unmatched-column count of the last phase
   * (the statistics the source prints) are returned.
   */
  method MaximumMatching(a: seq<seq<bool>>, mateRow2Col: array<Int64>, mateCol2Row: array<Int64>)
      returns (phases: nat, numUnmatchedCol: nat)
    requires mateRow2Col != mateCol2Row
    requires IsMatrix(a, mateRow2Col.Length, mateCol2Row.Length)
    requires mateRow2Col.Length <= Int64Max && mateCol2Row.Length <= Int64Max
    requires Consistent(mateRow2Col[..], mateCol2Row[..]) && InGraph(a, mateRow2Col[..])
    modifies mateRow2Col, mateCol2Row
    ensures Consistent(mateRow2Col[..], mateCol2Row[..]) && InGraph(a, mateRow2Col[..])
    ensures Assigned(mateCol2Row[..]) >= old(Assigned(mateCol2Row[..])) + phases - 1
    ensures 1 <= phases <= mateCol2Row.Length + 1 - old(Assigned(mateCol2Row[..]))
    ensures numUnmatchedCol == mateCol2Row.Length - Assigned(mateCol2Row[..])
  {
    var nrow, ncol := mateRow2Col.Length, mateCol2Row.Length;
    var temp1: seq<Option<Int64>> := seq(ncol, _ => None);
    var matched := true;
    phases, numUnmatchedCol := 0, ncol - Assigned(mateCol2Row[..]);
    while matched
      invariant Consistent(mateRow2Col[..], mateCol2Row[..]) && InGraph(a, mateRow2Col[..])
      invariant |temp1| == ncol
      invariant Assigned(mateCol2Row[..]) >= old(Assigned(mateCol2Row[..])) + phases - (if matched then 0 else 1)
      invariant !matched ==> phases >= 1 && numUnmatchedCol == ncol - Assigned(mateCol2Row[..])
      decreases (if matched then 1 else 0) + ncol - Assigned(mateCol2Row[..])
    {
      var mbool := BuildMbool(mateCol2Row[..], nrow);
      SeedCountsUnmatched(mateCol2Row[..]);
      numUnmatchedCol := Nnz(Seed(mateCol2Row[..]));
      var parents, leaves, t, layer, depth, rootOf := LayeredSearch(a, mbool, mateRow2Col[..], mateCol2Row[..], temp1);
      temp1 := t;
      phases := phases + 1;
      var numMatchedCol := Assigned(leaves);
      if numMatchedCol == 0 {
        matched := false;
      } else {
        var parentsRow := ToArray(parents);
        var leavesArray := ToArray(leaves);
        ghost var r2c := mateRow2Col[..];
        Augment(mateRow2Col, mateCol2Row, parentsRow, leavesArray, depth, rootOf);
        AugmentKeepsEdges(a, r2c, mateRow2Col[..], parents);
      }
    }
  }
}
