/**
 * The sparse-vector and sparse-matrix primitives of the distributed library
 * that the matching engine is written in, each given by what it computes on
 * one address space.  A sparse vector of length n is a sequence of n
 * options (`None` where there is no entry); a boolean matrix is a sequence
 * of rows.  Only the instances the engine uses are modelled.
 */
module Primitives {
  import opened Wrappers
  import opened Machine
  import opened Labels

  /** `getnnz()`: the number of entries of a sparse vector. */
  function Nnz<T>(v: seq<Option<T>>): (n: nat)
    ensures n <= |v|
    ensures n == 0 <==> forall i | 0 <= i < |v| :: v[i].None?
  {
    if v == [] then 0 else Nnz(v[..|v| - 1]) + (if v[|v| - 1].Some? then 1 else 0)
  }

  /** A non-empty sparse vector has an entry. */
  lemma NnzWitness<T>(v: seq<Option<T>>) returns (i: nat)
    requires Nnz(v) > 0
    ensures i < |v| && v[i].Some?
  {
    i :| 0 <= i < |v| && v[i].Some?;
  }

  /** `m` is a boolean matrix with `rows` rows of `cols` entries each. */
  predicate IsMatrix(m: seq<seq<bool>>, rows: nat, cols: nat)
  {
    |m| == rows && forall i | 0 <= i < |m| :: |m[i]| == cols
  }

  /**
   * One output entry of `SpMV<Select2ndMinSR<bool, VertexType>>` over the
   * first k columns: the multiply keeps the vector's label, the add keeps
   * the smaller label by VertexType's `<`.  The left-to-right fold stands
   * for whatever order the library combines the contributions in
   * (Labels.FoldMinOrderIndependent shows the key does not depend on it).
   */
  function RowMin(row: seq<bool>, x: seq<Option<Vertex>>, k: nat): (o: Option<Vertex>)
    requires k <= |x| == |row|
    ensures o.None? <==> forall j | 0 <= j < k :: !(row[j] && x[j].Some?)
    ensures o.Some? ==> exists j | 0 <= j < k :: row[j] && x[j] == o
    ensures o.Some? ==> forall j | 0 <= j < k && row[j] && x[j].Some? :: !Less(x[j].value, o.value)
  {
    if k == 0 then None
    else
      var prev := RowMin(row, x, k - 1);
      if !(row[k - 1] && x[k - 1].Some?) then prev
      else if prev.None? then x[k - 1]
      else Some(MinLabel(prev.value, x[k - 1].value))
  }

  /** `SpMV<Select2ndMinSR<bool, VertexType>>(m, x, y, false)`. */
  function SpMV(m: seq<seq<bool>>, x: seq<Option<Vertex>>): (y: seq<Option<Vertex>>)
    requires IsMatrix(m, |m|, |x|)
    ensures |y| == |m|
  {
    seq(|m|, i requires 0 <= i < |m| => RowMin(m[i], x, |x|))
  }

  /** A row with a single entry, at column j0, selects exactly that column's label. */
  lemma {:induction false} RowMinSingle(row: seq<bool>, x: seq<Option<Vertex>>, k: nat, j0: int)
    requires k <= |x| == |row|
    requires forall j | 0 <= j < |row| :: row[j] <==> j == j0
    ensures RowMin(row, x, k) == if 0 <= j0 < k then x[j0] else None
  {
    if k > 0 {
      RowMinSingle(row, x, k - 1, j0);
    }
  }

  /** A row with no entry selects nothing. */
  lemma RowMinEmpty(row: seq<bool>, x: seq<Option<Vertex>>)
    requires |x| == |row|
    requires forall j | 0 <= j < |row| :: !row[j]
    ensures RowMin(row, x, |x|).None?
  {
  }

  /** The last index below k whose entry is `x`. */
  function LastWith(v: seq<Option<Int64>>, x: int, k: nat): (o: Option<Int64>)
    requires k <= |v| <= Int64Max + 1
    ensures o.Some? ==> 0 <= o.value < k && v[o.value] == Some(x)
    ensures o.Some? ==> forall i | o.value < i < k :: v[i] != Some(x)
    ensures o.None? <==> forall i | 0 <= i < k :: v[i] != Some(x)
  {
    if k == 0 then None
    else if v[k - 1] == Some(x) then Some(k - 1)
    else LastWith(v, x, k - 1)
  }

  /**
   * `Invert(n)`: a sparse vector of length n whose entry x holds an index
   * whose value was x.  When several entries share a value the library
   * keeps one of them; the model keeps the last.
   */
  function Invert(v: seq<Option<Int64>>, n: nat): (t: seq<Option<Int64>>)
    requires |v| <= Int64Max + 1
    ensures |t| == n
  {
    seq(n, x requires 0 <= x < n => LastWith(v, x, |v|))
  }

  /** Invert swaps index and value, in both directions. */
  lemma InvertSwaps(v: seq<Option<Int64>>, n: nat, x: int)
    requires |v| <= Int64Max + 1 && 0 <= x < n
    ensures Invert(v, n)[x].Some? ==>
      var r := Invert(v, n)[x].value; 0 <= r < |v| && v[r] == Some(x)
    ensures Invert(v, n)[x].None? <==> forall r | 0 <= r < |v| :: v[r] != Some(x)
  {
  }

  /** Inverting a non-empty vector whose values are all below n gives a non-empty vector. */
  lemma InvertNonEmpty(v: seq<Option<Int64>>, n: nat)
    requires |v| <= Int64Max + 1 && Nnz(v) > 0
    requires forall r | 0 <= r < |v| && v[r].Some? :: 0 <= v[r].value < n
    ensures Nnz(Invert(v, n)) > 0
  {
    var r := NnzWitness(v);
    var x := v[r].value;
    InvertSwaps(v, n, x);
    assert Invert(v, n)[x].Some?;
  }

  /** `FullyDistVec::Set(sparse)`: overwrite the dense entries the sparse vector has. */
  function SetEntries(d: seq<Int64>, s: seq<Option<Int64>>): (e: seq<Int64>)
    requires |s| == |d|
    ensures |e| == |d|
  {
    seq(|d|, i requires 0 <= i < |d| => if s[i].Some? then s[i].value else d[i])
  }
}
