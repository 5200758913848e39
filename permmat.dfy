/**
 * PermMat (CombBLAS/MaximumMatching/BPMaximumMatching.cpp:146-238): the
 * local half of turning the dense vector `ri` into the boolean matrix with
 * entry (k, ri[k]) for every k whose value is a valid column.  Each
 * process sorts its entries into one bucket per processor column of its
 * processor row, then packs the buckets back to back into `senddata` at
 * the exclusive prefix sums of their sizes.  The grid shape, the
 * `n_perproccol` split and the row offset of the local piece are
 * parameters; the two MPI exchanges are not part of this model.
 */
module PermMatrix {
  import opened Machine

  /** The drop filter (171): only values in [0, ncol) become matrix entries. */
  predicate Kept(v: int, ncol: int)
  {
    0 <= v < ncol
  }

  /** `rowrec` (173): the processor column owning matrix column v. */
  function RowRec(v: int, procsPerRow: nat, nPerProcCol: nat): int
    requires 0 <= v && procsPerRow >= 1
  {
    if nPerProcCol != 0 then
      (if v / nPerProcCol < procsPerRow - 1 then v / nPerProcCol else procsPerRow - 1)
    else procsPerRow - 1
  }

  /** `colid` (176): the column index within the owner's block. */
  function ColId(v: int, procsPerRow: nat, nPerProcCol: nat): int
    requires 0 <= v && procsPerRow >= 1
  {
    v - RowRec(v, procsPerRow, nPerProcCol) * nPerProcCol
  }

  /** `local_ncol` (228): the width of processor column `col`'s block. */
  function LocalNcol(col: int, procsPerCol: nat, nPerProcCol: nat, ncol: int): int
  {
    if col < procsPerCol - 1 then nPerProcCol else ncol - nPerProcCol * (procsPerCol - 1)
  }

  /** The bucket lies in [0, procsPerRow - 1], and adding back the block offset restores the value. */
  lemma RowRecInRange(v: int, procsPerRow: nat, nPerProcCol: nat)
    requires 0 <= v && procsPerRow >= 1
    ensures 0 <= RowRec(v, procsPerRow, nPerProcCol) < procsPerRow
    ensures RowRec(v, procsPerRow, nPerProcCol) * nPerProcCol + ColId(v, procsPerRow, nPerProcCol) == v
    ensures 0 <= ColId(v, procsPerRow, nPerProcCol) <= v
  {
    var n := nPerProcCol;
    if n != 0 {
      var b := RowRec(v, procsPerRow, n);
      assert b <= v / n;
      assert b * n <= (v / n) * n <= v;
    }
  }

  /**
   * On a square grid with `n_perproccol = ncol / procsPerCol`, the local
   * column of a kept value is a valid column of its owner's block.
   */
  lemma ColIdInBlock(v: int, ncol: nat, procs: nat)
    requires procs >= 1 && Kept(v, ncol)
    ensures var n := ncol / procs; var b := RowRec(v, procs, n);
      0 <= ColId(v, procs, n) < LocalNcol(b, procs, n, ncol)
  {
    var n := ncol / procs;
    var b := RowRec(v, procs, n);
    if n != 0 {
      assert n * procs <= ncol;
      if v / n < procs - 1 {
        assert b == v / n;
        assert b * n <= v < b * n + n;
      } else {
        assert b == procs - 1 <= v / n;
        assert b * n <= (v / n) * n <= v;
      }
    }
  }

  /**
   * The local indices of bucket b among the first k entries, in insertion
   * order: the row ids pushed into `rowid[b]` (175) less the row offset.
   */
  function Bucket(ri: seq<Int64>, ncol: int, procsPerRow: nat, nPerProcCol: nat, b: int, k: nat): (idx: seq<nat>)
    requires k <= |ri| && procsPerRow >= 1
    ensures forall j | 0 <= j < |idx| ::
      idx[j] < k && Kept(ri[idx[j]], ncol) && RowRec(ri[idx[j]], procsPerRow, nPerProcCol) == b
    ensures forall j, j' | 0 <= j < j' < |idx| :: idx[j] < idx[j']
    ensures forall i | 0 <= i < k && Kept(ri[i], ncol) && RowRec(ri[i], procsPerRow, nPerProcCol) == b :: i in idx
  {
    if k == 0 then []
    else
      var prev := Bucket(ri, ncol, procsPerRow, nPerProcCol, b, k - 1);
      if Kept(ri[k - 1], ncol) && RowRec(ri[k - 1], procsPerRow, nPerProcCol) == b then prev + [k - 1] else prev
  }

  /** The number of kept entries among the first k. */
  function KeptCount(ri: seq<Int64>, ncol: int, k: nat): (n: nat)
    requires k <= |ri|
    ensures n <= k
  {
    if k == 0 then 0 else KeptCount(ri, ncol, k - 1) + (if Kept(ri[k - 1], ncol) then 1 else 0)
  }

  function Sum(s: seq<int>): int
  {
    if s == [] then 0 else Sum(s[..|s| - 1]) + s[|s| - 1]
  }

  /** The sizes of the first m buckets, added up. */
  function BucketTotal(ri: seq<Int64>, ncol: int, procsPerRow: nat, nPerProcCol: nat, m: nat, k: nat): nat
    requires k <= |ri| && procsPerRow >= 1
  {
    if m == 0 then 0
    else BucketTotal(ri, ncol, procsPerRow, nPerProcCol, m - 1, k) + |Bucket(ri, ncol, procsPerRow, nPerProcCol, m - 1, k)|
  }

  /** One more entry grows the first m buckets by one exactly when it is kept and owned by one of them. */
  lemma {:induction false} BucketTotalStep(ri: seq<Int64>, ncol: int, procsPerRow: nat, nPerProcCol: nat, m: nat, k: nat)
    requires 0 < k <= |ri| && procsPerRow >= 1
    ensures BucketTotal(ri, ncol, procsPerRow, nPerProcCol, m, k)
      == BucketTotal(ri, ncol, procsPerRow, nPerProcCol, m, k - 1)
       + (if Kept(ri[k - 1], ncol) && RowRec(ri[k - 1], procsPerRow, nPerProcCol) < m then 1 else 0)
  {
    if m > 0 {
      BucketTotalStep(ri, ncol, procsPerRow, nPerProcCol, m - 1, k);
      BucketSizeStep(ri, ncol, procsPerRow, nPerProcCol, m - 1, k);
    }
  }

  /** One more entry grows bucket b by one exactly when it is kept and owned by b. */
  lemma BucketSizeStep(ri: seq<Int64>, ncol: int, procsPerRow: nat, nPerProcCol: nat, b: int, k: nat)
    requires 0 < k <= |ri| && procsPerRow >= 1
    ensures |Bucket(ri, ncol, procsPerRow, nPerProcCol, b, k)|
      == |Bucket(ri, ncol, procsPerRow, nPerProcCol, b, k - 1)|
       + (if Kept(ri[k - 1], ncol) && RowRec(ri[k - 1], procsPerRow, nPerProcCol) == b then 1 else 0)
  {
  }

  /** Before any entry is sorted, all buckets are empty. */
  lemma {:induction false} BucketTotalEmpty(ri: seq<Int64>, ncol: int, procsPerRow: nat, nPerProcCol: nat, m: nat)
    requires procsPerRow >= 1
    ensures BucketTotal(ri, ncol, procsPerRow, nPerProcCol, m, 0) == 0
  {
    if m > 0 {
      BucketTotalEmpty(ri, ncol, procsPerRow, nPerProcCol, m - 1);
    }
  }

  /** Every kept entry lands in exactly one bucket, so the buckets hold all kept entries and nothing else. */
  lemma {:induction false} BucketsPartition(ri: seq<Int64>, ncol: int, procsPerRow: nat, nPerProcCol: nat, k: nat)
    requires k <= |ri| && procsPerRow >= 1
    ensures BucketTotal(ri, ncol, procsPerRow, nPerProcCol, procsPerRow, k) == KeptCount(ri, ncol, k)
  {
    if k > 0 {
      BucketsPartition(ri, ncol, procsPerRow, nPerProcCol, k - 1);
      BucketTotalStep(ri, ncol, procsPerRow, nPerProcCol, procsPerRow, k);
      if Kept(ri[k - 1], ncol) {
        RowRecInRange(ri[k - 1], procsPerRow, nPerProcCol);
      }
    } else {
      BucketTotalEmpty(ri, ncol, procsPerRow, nPerProcCol, procsPerRow);
    }
  }

  /**
   * What PermMat leaves in its send buffers: `sendcnt[b]` is the size of
   * bucket b, `sdispls` is the exclusive prefix sum of `sendcnt`, and bucket
   * b's row ids and local column ids occupy positions
   * [sdispls[b], sdispls[b] + sendcnt[b]) of the row and column buffers in
   * insertion order.
   */
  predicate Packed(ri: seq<Int64>, ncol: int, procsPerRow: nat, nPerProcCol: nat, roffset: int,
                   sendcnt: seq<int>, sdispls: seq<int>, rows: seq<Int64>, cols: seq<Int64>)
    requires procsPerRow >= 1
  {
    && |sendcnt| == |sdispls| == procsPerRow && |rows| == |cols| == |ri|
    && (forall b | 0 <= b < procsPerRow :: sendcnt[b] == |Bucket(ri, ncol, procsPerRow, nPerProcCol, b, |ri|)|)
    && (forall b | 0 <= b < procsPerRow :: sdispls[b] == Sum(sendcnt[..b]))
    && forall b, j | 0 <= b < procsPerRow && 0 <= j < sendcnt[b] ::
         Slot(ri, ncol, procsPerRow, nPerProcCol, roffset, b, j, sdispls[b], rows, cols)
  }

  /** Position `at + j` of the buffers holds the j-th entry of bucket b. */
  predicate Slot(ri: seq<Int64>, ncol: int, procsPerRow: nat, nPerProcCol: nat, roffset: int, b: int, j: int, at: int,
                 rows: seq<Int64>, cols: seq<Int64>)
    requires procsPerRow >= 1
  {
    var idx := Bucket(ri, ncol, procsPerRow, nPerProcCol, b, |ri|);
    && 0 <= j < |idx|
    && 0 <= at + j < |rows| && at + j < |cols|
    && rows[at + j] == idx[j] + roffset
    && cols[at + j] == ColId(ri[idx[j]], procsPerRow, nPerProcCol)
  }

  /** The sizes the buffers are given add up to the number of kept entries. */
  lemma {:induction false} SumOfCounts(ri: seq<Int64>, ncol: int, procsPerRow: nat, nPerProcCol: nat, sendcnt: seq<int>, m: nat)
    requires procsPerRow >= 1 && m <= |sendcnt| == procsPerRow
    requires forall b | 0 <= b < procsPerRow :: sendcnt[b] == |Bucket(ri, ncol, procsPerRow, nPerProcCol, b, |ri|)|
    ensures Sum(sendcnt[..m]) == BucketTotal(ri, ncol, procsPerRow, nPerProcCol, m, |ri|)
  {
    if m > 0 {
      assert sendcnt[..m][..m - 1] == sendcnt[..m - 1];
      SumOfCounts(ri, ncol, procsPerRow, nPerProcCol, sendcnt, m - 1);
    }
  }

  /** The packed entries never exceed the local vector: `senddata` of size `locvec` (200) is large enough. */
  lemma PackedFits(ri: seq<Int64>, ncol: int, procsPerRow: nat, nPerProcCol: nat, sendcnt: seq<int>)
    requires procsPerRow >= 1 && |sendcnt| == procsPerRow
    requires forall b | 0 <= b < procsPerRow :: sendcnt[b] == |Bucket(ri, ncol, procsPerRow, nPerProcCol, b, |ri|)|
    ensures Sum(sendcnt) == KeptCount(ri, ncol, |ri|) <= |ri|
  {
    SumOfCounts(ri, ncol, procsPerRow, nPerProcCol, sendcnt, procsPerRow);
    assert sendcnt[..procsPerRow] == sendcnt;
    BucketsPartition(ri, ncol, procsPerRow, nPerProcCol, |ri|);
  }

  /** Prefix sums of non-negative counts grow with the prefix. */
  lemma {:induction false} SumPrefixMono(s: seq<int>, i: nat, j: nat)
    requires i <= j <= |s|
    requires forall k | 0 <= k < |s| :: s[k] >= 0
    ensures Sum(s[..i]) <= Sum(s[..j])
  {
    if i < j {
      SumPrefixMono(s, i, j - 1);
      assert s[..j][..j - 1] == s[..j - 1];
    }
  }

  /** One more element extends a prefix sum by that element. */
  lemma SumPrefixStep(s: seq<int>, i: nat)
    requires i < |s|
    ensures Sum(s[..i + 1]) == Sum(s[..i]) + s[i]
  {
    assert s[..i + 1][..i] == s[..i];
  }

  /** `rowid[b]` and `colid[b]` after the first k entries: bucket b's row ids and local column ids. */
  ghost predicate BucketHolds(rowid: seq<Int64>, colid: seq<Int64>, ri: seq<Int64>, ncol: int, procsPerRow: nat,
                              nPerProcCol: nat, roffset: int, b: int, k: nat)
    requires k <= |ri| && procsPerRow >= 1
  {
    var idx := Bucket(ri, ncol, procsPerRow, nPerProcCol, b, k);
    && |rowid| == |colid| == |idx|
    && forall j | 0 <= j < |idx| ::
         rowid[j] == idx[j] + roffset && colid[j] == ColId(ri[idx[j]], procsPerRow, nPerProcCol)
  }

  /**
   * The copy loops of 202-213: bucket b goes to positions
   * [sdispls[b], sdispls[b] + |buckets[b]|), which lie in the buffer and do
   * not overlap the positions of other buckets.
   */
  method Pack(buckets: seq<seq<Int64>>, sdispls: seq<int>, senddata: array<Int64>)
    requires |buckets| == |sdispls|
    requires forall b | 0 <= b < |buckets| :: 0 <= sdispls[b] && sdispls[b] + |buckets[b]| <= senddata.Length
    requires forall b, b' | 0 <= b < b' < |buckets| :: sdispls[b] + |buckets[b]| <= sdispls[b']
    modifies senddata
    ensures forall b, j | 0 <= b < |buckets| && 0 <= j < |buckets[b]| :: senddata[sdispls[b] + j] == buckets[b][j]
  {
    for i := 0 to |buckets|
      invariant forall b, j | 0 <= b < i && 0 <= j < |buckets[b]| :: senddata[sdispls[b] + j] == buckets[b][j]
    {
      for k := 0 to |buckets[i]|
        invariant forall b, j | 0 <= b < i && 0 <= j < |buckets[b]| :: senddata[sdispls[b] + j] == buckets[b][j]
        invariant forall j | 0 <= j < k :: senddata[sdispls[i] + j] == buckets[i][j]
      {
        senddata[sdispls[i] + k] := buckets[i][k];
      }
    }
  }

  /** A dropped entry leaves every bucket as it was. */
  lemma BucketSkip(rowid: seq<seq<Int64>>, colid: seq<seq<Int64>>, ri: seq<Int64>, ncol: int, procsPerRow: nat,
                   nPerProcCol: nat, roffset: int, k: nat)
    requires k < |ri| && procsPerRow >= 1 && !Kept(ri[k], ncol)
    requires |rowid| == |colid| == procsPerRow
    requires forall b | 0 <= b < procsPerRow :: BucketHolds(rowid[b], colid[b], ri, ncol, procsPerRow, nPerProcCol, roffset, b, k)
    ensures forall b | 0 <= b < procsPerRow :: BucketHolds(rowid[b], colid[b], ri, ncol, procsPerRow, nPerProcCol, roffset, b, k + 1)
  {
    forall b | 0 <= b < procsPerRow
      ensures BucketHolds(rowid[b], colid[b], ri, ncol, procsPerRow, nPerProcCol, roffset, b, k + 1)
    {
      assert Bucket(ri, ncol, procsPerRow, nPerProcCol, b, k + 1) == Bucket(ri, ncol, procsPerRow, nPerProcCol, b, k);
    }
  }

  /** A kept entry is appended to the buckets of its owner and nowhere else. */
  lemma BucketPush(rowid: seq<seq<Int64>>, colid: seq<seq<Int64>>, ri: seq<Int64>, ncol: int, procsPerRow: nat,
                   nPerProcCol: nat, roffset: int, k: nat, rowid': seq<seq<Int64>>, colid': seq<seq<Int64>>)
    requires k < |ri| && procsPerRow >= 1 && Kept(ri[k], ncol)
    requires |rowid| == |colid| == |rowid'| == |colid'| == procsPerRow
    requires forall b | 0 <= b < procsPerRow :: BucketHolds(rowid[b], colid[b], ri, ncol, procsPerRow, nPerProcCol, roffset, b, k)
    requires var b0 := RowRec(ri[k], procsPerRow, nPerProcCol);
      && (forall b | 0 <= b < procsPerRow && b != b0 :: rowid'[b] == rowid[b] && colid'[b] == colid[b])
      && (0 <= b0 < procsPerRow ==>
            rowid'[b0] == rowid[b0] + [k + roffset] && colid'[b0] == colid[b0] + [ColId(ri[k], procsPerRow, nPerProcCol)])
    ensures forall b | 0 <= b < procsPerRow :: BucketHolds(rowid'[b], colid'[b], ri, ncol, procsPerRow, nPerProcCol, roffset, b, k + 1)
  {
    var b0 := RowRec(ri[k], procsPerRow, nPerProcCol);
    RowRecInRange(ri[k], procsPerRow, nPerProcCol);
    forall b | 0 <= b < procsPerRow
      ensures BucketHolds(rowid'[b], colid'[b], ri, ncol, procsPerRow, nPerProcCol, roffset, b, k + 1)
    {
      assert BucketHolds(rowid[b], colid[b], ri, ncol, procsPerRow, nPerProcCol, roffset, b, k);
      if b == b0 {
        assert Bucket(ri, ncol, procsPerRow, nPerProcCol, b, k + 1) == Bucket(ri, ncol, procsPerRow, nPerProcCol, b, k) + [k];
      } else {
        assert Bucket(ri, ncol, procsPerRow, nPerProcCol, b, k + 1) == Bucket(ri, ncol, procsPerRow, nPerProcCol, b, k);
      }
    }
  }

  /** The bucket loop of 169-179: `rowid[rowrec]` and `colid[rowrec]` grow by one per kept entry. */
  method SortIntoBuckets(ri: seq<Int64>, ncol: Int64, procsPerRow: Int64, n: Int64, roffset: Int64)
    returns (rowid: seq<seq<Int64>>, colid: seq<seq<Int64>>)
    requires 1 <= procsPerRow && 0 <= ncol && 0 <= n
    requires 0 <= roffset && roffset + |ri| <= Int64Max
    ensures |rowid| == |colid| == procsPerRow
    ensures forall b | 0 <= b < procsPerRow :: BucketHolds(rowid[b], colid[b], ri, ncol, procsPerRow, n, roffset, b, |ri|)
  {
    rowid := seq(procsPerRow, _ => []);
    colid := seq(procsPerRow, _ => []);
    for i := 0 to |ri|
      invariant |rowid| == |colid| == procsPerRow
      invariant forall b | 0 <= b < procsPerRow :: BucketHolds(rowid[b], colid[b], ri, ncol, procsPerRow, n, roffset, b, i)
    {
      if ri[i] >= 0 && ri[i] < ncol {
        var rowrec: Int64 := if n != 0 then (if ri[i] / n < procsPerRow - 1 then ri[i] / n else procsPerRow - 1)
                             else procsPerRow - 1;
        RowRecInRange(ri[i], procsPerRow, n);
        var rowid', colid' := rowid[rowrec := rowid[rowrec] + [i + roffset]], colid[rowrec := colid[rowrec] + [ri[i] - rowrec * n]];
        BucketPush(rowid, colid, ri, ncol, procsPerRow, n, roffset, i, rowid', colid');
        rowid, colid := rowid', colid';
      } else {
        BucketSkip(rowid, colid, ri, ncol, procsPerRow, n, roffset, i);
      }
    }
  }

  /**
   * 185-194: `sendcnt[b]` is the size of bucket b and `sdispls` is the
   * exclusive prefix sum `partial_sum(sendcnt, sendcnt + procsPerRow - 1,
   * sdispls + 1)` over a zeroed array.
   */
  method Counts(rowid: seq<seq<Int64>>) returns (sendcnt: array<int>, sdispls: array<int>)
    requires |rowid| >= 1
    ensures sendcnt.Length == sdispls.Length == |rowid|
    ensures forall b | 0 <= b < |rowid| :: sendcnt[b] == |rowid[b]|
    ensures forall b | 0 <= b < |rowid| :: sdispls[b] == Sum(sendcnt[..b])
  {
    sendcnt := new int[|rowid|];
    for i := 0 to |rowid|
      invariant forall b | 0 <= b < i :: sendcnt[b] == |rowid[b]|
    {
      sendcnt[i] := |rowid[i]|;
    }
    sdispls := new int[|rowid|](_ => 0);
    var acc := 0;
    for i := 0 to |rowid| - 1
      modifies sdispls
      invariant acc == Sum(sendcnt[..i])
      invariant forall b | 0 <= b <= i :: sdispls[b] == Sum(sendcnt[..b])
    {
      SumPrefixStep(sendcnt[..], i);
      acc := acc + sendcnt[i];
      sdispls[i + 1] := acc;
    }
  }

  /** The bucket positions lie in a buffer of the local vector's size and do not overlap. */
  lemma BucketsFit(ri: seq<Int64>, ncol: int, procsPerRow: nat, n: nat, rowid: seq<seq<Int64>>,
                   sendcnt: seq<int>, sdispls: seq<int>)
    requires procsPerRow >= 1 && |rowid| == |sendcnt| == |sdispls| == procsPerRow
    requires forall b | 0 <= b < procsPerRow :: sendcnt[b] == |rowid[b]| == |Bucket(ri, ncol, procsPerRow, n, b, |ri|)|
    requires forall b | 0 <= b < procsPerRow :: sdispls[b] == Sum(sendcnt[..b])
    ensures forall b | 0 <= b < procsPerRow :: 0 <= sdispls[b] && sdispls[b] + |rowid[b]| <= |ri|
    ensures forall b, b' | 0 <= b < b' < procsPerRow :: sdispls[b] + |rowid[b]| <= sdispls[b']
  {
    PackedFits(ri, ncol, procsPerRow, n, sendcnt);
    assert sendcnt[..procsPerRow] == sendcnt;
    forall b | 0 <= b < procsPerRow
      ensures 0 <= sdispls[b] && sdispls[b] + |rowid[b]| <= |ri|
    {
      SumPrefixMono(sendcnt, 0, b);
      SumPrefixStep(sendcnt, b);
      SumPrefixMono(sendcnt, b + 1, procsPerRow);
    }
    forall b, b' | 0 <= b < b' < procsPerRow
      ensures sdispls[b] + |rowid[b]| <= sdispls[b']
    {
      SumPrefixStep(sendcnt, b);
      SumPrefixMono(sendcnt, b + 1, b');
    }
  }

  /**
   * PermMat's local work (146-213): sort the entries of `ri` into buckets,
   * count them, take the exclusive prefix sum of the counts and pack the row
   * ids, then the column ids, into `senddata`.  `rowsSent` and `colsSent`
   * are the buffer as the first and the second `MPI_Alltoallv` send it.
   */
  method PermMat(ri: seq<Int64>, ncol: Int64, procsPerRow: Int64, procsPerCol: Int64, roffset: Int64)
    returns (sendcnt: array<int>, sdispls: array<int>, rowsSent: seq<Int64>, colsSent: seq<Int64>)
    requires 1 <= procsPerRow && 1 <= procsPerCol && 0 <= ncol
    requires 0 <= roffset && roffset + |ri| <= Int64Max
    ensures Packed(ri, ncol, procsPerRow, ncol / procsPerCol, roffset, sendcnt[..], sdispls[..], rowsSent, colsSent)
  {
    var n: Int64 := ncol / procsPerCol;
    var rowid, colid := SortIntoBuckets(ri, ncol, procsPerRow, n, roffset);
    sendcnt, sdispls := Counts(rowid);
    ghost var cnt := sendcnt[..];
    BucketSizes(ri, ncol, procsPerRow, n, roffset, rowid, colid);
    BucketsFit(ri, ncol, procsPerRow, n, rowid, cnt, sdispls[..]);
    var senddata := new Int64[|ri|];
    var displs := sdispls[..];
    Pack(rowid, displs, senddata);
    rowsSent := senddata[..];
    Pack(colid, displs, senddata);
    colsSent := senddata[..];
    PackedFromParts(ri, ncol, procsPerRow, n, roffset, rowid, colid, cnt, displs, rowsSent, colsSent);
  }

  /** The buckets SortIntoBuckets fills have the sizes of the specified buckets. */
  lemma BucketSizes(ri: seq<Int64>, ncol: int, procsPerRow: nat, n: nat, roffset: int,
                    rowid: seq<seq<Int64>>, colid: seq<seq<Int64>>)
    requires procsPerRow >= 1 && |rowid| == |colid| == procsPerRow
    requires forall b | 0 <= b < procsPerRow :: BucketHolds(rowid[b], colid[b], ri, ncol, procsPerRow, n, roffset, b, |ri|)
    ensures forall b | 0 <= b < procsPerRow :: |rowid[b]| == |colid[b]| == |Bucket(ri, ncol, procsPerRow, n, b, |ri|)|
  {
    forall b | 0 <= b < procsPerRow
      ensures |rowid[b]| == |colid[b]| == |Bucket(ri, ncol, procsPerRow, n, b, |ri|)|
    {
      assert BucketHolds(rowid[b], colid[b], ri, ncol, procsPerRow, n, roffset, b, |ri|);
    }
  }

  /** The buckets, their counts and displacements and the two packed buffers together make up Packed. */
  lemma PackedFromParts(ri: seq<Int64>, ncol: int, procsPerRow: nat, n: nat, roffset: int,
                        rowid: seq<seq<Int64>>, colid: seq<seq<Int64>>, sendcnt: seq<int>, sdispls: seq<int>,
                        rows: seq<Int64>, cols: seq<Int64>)
    requires procsPerRow >= 1 && |rowid| == |colid| == |sendcnt| == |sdispls| == procsPerRow
    requires forall b | 0 <= b < procsPerRow :: BucketHolds(rowid[b], colid[b], ri, ncol, procsPerRow, n, roffset, b, |ri|)
    requires forall b | 0 <= b < procsPerRow :: sendcnt[b] == |rowid[b]|
    requires forall b | 0 <= b < procsPerRow :: sdispls[b] == Sum(sendcnt[..b])
    requires forall b | 0 <= b < procsPerRow :: 0 <= sdispls[b] && sdispls[b] + |rowid[b]| <= |ri|
    requires forall b | 0 <= b < procsPerRow :: |colid[b]| == |rowid[b]|
    requires |rows| == |cols| == |ri|
    requires forall b, j | 0 <= b < procsPerRow && 0 <= j < |rowid[b]| :: rows[sdispls[b] + j] == rowid[b][j]
    requires forall b, j | 0 <= b < procsPerRow && 0 <= j < |colid[b]| :: cols[sdispls[b] + j] == colid[b][j]
    ensures Packed(ri, ncol, procsPerRow, n, roffset, sendcnt, sdispls, rows, cols)
  {
    forall b, j | 0 <= b < procsPerRow && 0 <= j < sendcnt[b]
      ensures Slot(ri, ncol, procsPerRow, n, roffset, b, j, sdispls[b], rows, cols)
    {
      assert BucketHolds(rowid[b], colid[b], ri, ncol, procsPerRow, n, roffset, b, |ri|);
      var idx := Bucket(ri, ncol, procsPerRow, n, b, |ri|);
      assert rows[sdispls[b] + j] == rowid[b][j] == idx[j] + roffset;
      assert cols[sdispls[b] + j] == colid[b][j] == ColId(ri[idx[j]], procsPerRow, n);
    }
    forall b | 0 <= b < procsPerRow
      ensures sendcnt[b] == |Bucket(ri, ncol, procsPerRow, n, b, |ri|)|
    {
      assert BucketHolds(rowid[b], colid[b], ri, ncol, procsPerRow, n, roffset, b, |ri|);
    }
  }

  /** Every delivered entry, with its block offset added back, is an entry (i + roffset, ri[i]) of a kept i. */
  lemma DeliveredAreEntries(ri: seq<Int64>, ncol: int, procsPerRow: nat, n: nat, roffset: int,
                            sendcnt: seq<int>, sdispls: seq<int>, rows: seq<Int64>, cols: seq<Int64>, b: int, j: int)
    requires procsPerRow >= 1 && Packed(ri, ncol, procsPerRow, n, roffset, sendcnt, sdispls, rows, cols)
    requires 0 <= b < procsPerRow && 0 <= j < sendcnt[b]
    ensures 0 <= sdispls[b] + j < |rows|
    ensures var i := rows[sdispls[b] + j] - roffset;
      0 <= i < |ri| && Kept(ri[i], ncol) && b * n + cols[sdispls[b] + j] == ri[i]
  {
    assert Slot(ri, ncol, procsPerRow, n, roffset, b, j, sdispls[b], rows, cols);
    var i := Bucket(ri, ncol, procsPerRow, n, b, |ri|)[j];
    RowRecInRange(ri[i], procsPerRow, n);
  }

  /** Every kept entry is delivered: it sits in its owner's bucket at some position. */
  lemma EntriesAreDelivered(ri: seq<Int64>, ncol: int, procsPerRow: nat, n: nat, roffset: int,
                            sendcnt: seq<int>, sdispls: seq<int>, rows: seq<Int64>, cols: seq<Int64>, i: int)
      returns (b: int, j: int)
    requires procsPerRow >= 1 && Packed(ri, ncol, procsPerRow, n, roffset, sendcnt, sdispls, rows, cols)
    requires 0 <= i < |ri| && Kept(ri[i], ncol)
    ensures 0 <= b < procsPerRow && 0 <= j < sendcnt[b] && 0 <= sdispls[b] + j < |rows|
    ensures rows[sdispls[b] + j] == i + roffset && b * n + cols[sdispls[b] + j] == ri[i]
  {
    b := RowRec(ri[i], procsPerRow, n);
    RowRecInRange(ri[i], procsPerRow, n);
    var idx := Bucket(ri, ncol, procsPerRow, n, b, |ri|);
    j :| 0 <= j < |idx| && idx[j] == i;
    assert Slot(ri, ncol, procsPerRow, n, roffset, b, j, sdispls[b], rows, cols);
  }

  /** `PSeq->Create(p_nnz, local_nrow, local_ncol, p_tuples)` (234): the boolean matrix of the first `nnz` tuples. */
  function Assemble(rows: seq<Int64>, cols: seq<Int64>, nnz: int, m: nat, n: nat): (a: seq<seq<bool>>)
    requires 0 <= nnz <= |rows| && nnz <= |cols|
    ensures |a| == m && forall i | 0 <= i < m :: |a[i]| == n
  {
    seq(m, i requires 0 <= i < m => seq(n, j requires 0 <= j < n => exists k | 0 <= k < nnz :: rows[k] == i && cols[k] == j))
  }

  /**
   * On a single process (a 1 x 1 grid, no row offset) the matrix built from
   * the packed tuples has entry (k, ri[k]) exactly for the k whose value is
   * a valid column: the round trip of 139-145.
   */
  lemma OneProcessMatrix(ri: seq<Int64>, ncol: nat, sendcnt: seq<int>, sdispls: seq<int>, rows: seq<Int64>, cols: seq<Int64>)
    requires Packed(ri, ncol, 1, ncol, 0, sendcnt, sdispls, rows, cols)
    ensures 0 <= sendcnt[0] <= |rows|
    ensures var a := Assemble(rows, cols, sendcnt[0], |ri|, ncol);
      forall i, j | 0 <= i < |ri| && 0 <= j < ncol :: a[i][j] <==> ri[i] == j
  {
    assert sdispls[0] == 0;
    PackedFits(ri, ncol, 1, ncol, sendcnt);
    assert sendcnt == [sendcnt[0]];
    var a := Assemble(rows, cols, sendcnt[0], |ri|, ncol);
    forall i, j | 0 <= i < |ri| && 0 <= j < ncol
      ensures a[i][j] <==> ri[i] == j
    {
      if a[i][j] {
        var k :| 0 <= k < sendcnt[0] && rows[k] == i && cols[k] == j;
        DeliveredAreEntries(ri, ncol, 1, ncol, 0, sendcnt, sdispls, rows, cols, 0, k);
      }
      if ri[i] == j {
        var b, k := EntriesAreDelivered(ri, ncol, 1, ncol, 0, sendcnt, sdispls, rows, cols, i);
        assert rows[k] == i && cols[k] == j;
      }
    }
  }
}
