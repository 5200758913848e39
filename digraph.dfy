/**
 * The index logic of kdt/DiGraph.py.  A DiGraph is its two vertex counts
 * and its edge list of (source, destination, weight) triples, in the order
 * they are given.  The vectors of the source (`ParVec`) hold
 * doubles; edge endpoints are integers here, index keys are reals.
 * Python exceptions become `Failure` values.
 */
module DiGraphs {
  import opened Wrappers

  datatype Edge<W> = Edge(i: int, j: int, w: W)

  datatype Graph<W> = Graph(nrow: nat, ncol: nat, edges: seq<Edge<W>>)

  /** The exceptions the index logic raises. */
  datatype Error =
    | KeyError(msg: string)
    | IndexError(msg: string)
    | NotImplementedError
    | AttributeError    // `.min()` called on an object without it (a slice, a float)

  /** The weight argument of the constructor: a number broadcast to every edge, or one weight per edge. */
  datatype Weights<W> = Broadcast(w: W) | PerEdge(ws: seq<W>)

  // ---------------------------------------------------------------------
  // Constructor (12-74)
  // ---------------------------------------------------------------------

  /** `ParVec.max()` of a non-empty vector (its entries are doubles). */
  function MaxOf(s: seq<real>): (m: real)
    requires |s| > 0
    ensures exists k | 0 <= k < |s| :: s[k] == m
    ensures forall k | 0 <= k < |s| :: s[k] <= m
  {
    if |s| == 1 then s[0]
    else
      var m' := MaxOf(s[1..]);
      assert forall k | 1 <= k < |s| :: s[k] == s[1..][k - 1];
      if s[0] > m' then s[0] else m'
  }

  /** Integer endpoints as the doubles a ParVec holds. */
  function AsReals(s: seq<int>): seq<real>
  {
    seq(|s|, k requires 0 <= k < |s| => s[k] as real)
  }

  /**
   * `i.max() > bound`.  What `max()` gives for an empty vector is library
   * behaviour; the model takes it to exceed no bound.
   */
  predicate Exceeds(s: seq<int>, bound: int)
  {
    |s| > 0 && MaxOf(AsReals(s)) > bound as real
  }

  /** The check fires exactly when some entry is beyond the bound. */
  lemma ExceedsIff(s: seq<int>, bound: int)
    ensures Exceeds(s, bound) <==> exists k | 0 <= k < |s| :: s[k] > bound
  {
    if |s| > 0 {
      var r := AsReals(s);
      if exists k | 0 <= k < |s| :: s[k] > bound {
        var k :| 0 <= k < |s| && s[k] > bound;
        assert r[k] <= MaxOf(r);
      }
      if MaxOf(r) > bound as real {
        var k :| 0 <= k < |r| && r[k] == MaxOf(r);
        assert s[k] > bound;
      }
    }
  }

  /** The weight of each of n edges. */
  function WeightList<W>(v: Weights<W>, n: nat): (ws: seq<W>)
    requires v.PerEdge? ==> |v.ws| == n
    ensures |ws| == n
  {
    match v
    case Broadcast(w) => seq(n, _ => w)
    case PerEdge(ws) => ws
  }

  /** The edges (i[k], j[k], ws[k]). */
  function Zip<W>(i: seq<int>, j: seq<int>, ws: seq<W>): (es: seq<Edge<W>>)
    requires |i| == |j| == |ws|
    ensures |es| == |i|
    ensures forall k | 0 <= k < |es| :: es[k] == Edge(i[k], j[k], ws[k])
  {
    seq(|i|, k requires 0 <= k < |i| => Edge(i[k], j[k], ws[k]))
  }

  /** `DiGraph(i, j, v, nv1, nv2)` (64-72); the 4-argument form passes nv twice (55-63). */
  function New<W>(i: seq<int>, j: seq<int>, v: Weights<W>, nv1: nat, nv2: nat): Result<Graph<W>, Error>
    requires |i| == |j| && (v.PerEdge? ==> |v.ws| == |i|)
  {
    if Exceeds(i, nv1 - 1) then Failure(KeyError("at least one first index greater than #vertices"))
    else if Exceeds(j, nv2 - 1) then Failure(KeyError("at least one second index greater than #vertices"))
    else Success(Graph(nv1, nv2, Zip(i, j, WeightList(v, |i|))))
  }

  /** `DiGraph(i, j, v, nv)`. */
  function New4<W>(i: seq<int>, j: seq<int>, v: Weights<W>, nv: nat): Result<Graph<W>, Error>
    requires |i| == |j| && (v.PerEdge? ==> |v.ws| == |i|)
  {
    New(i, j, v, nv, nv)
  }

  /**
   * The constructor succeeds exactly when no first index is beyond nv1 - 1
   * and no second index beyond nv2 - 1, the first check taking precedence;
   * on success the graph has the given sizes and one edge per entry.
   */
  lemma ConstructorChecks<W>(i: seq<int>, j: seq<int>, v: Weights<W>, nv1: nat, nv2: nat)
    requires |i| == |j| && (v.PerEdge? ==> |v.ws| == |i|)
    ensures New(i, j, v, nv1, nv2).Success? <==>
      (forall k | 0 <= k < |i| :: i[k] < nv1) && (forall k | 0 <= k < |j| :: j[k] < nv2)
    ensures (exists k | 0 <= k < |i| :: i[k] >= nv1) ==>
      New(i, j, v, nv1, nv2) == Failure(KeyError("at least one first index greater than #vertices"))
    ensures (forall k | 0 <= k < |i| :: i[k] < nv1) && (exists k | 0 <= k < |j| :: j[k] >= nv2) ==>
      New(i, j, v, nv1, nv2) == Failure(KeyError("at least one second index greater than #vertices"))
    ensures New(i, j, v, nv1, nv2).Success? ==>
      var g := New(i, j, v, nv1, nv2).value;
      g.nrow == nv1 && g.ncol == nv2 && |g.edges| == |i| &&
      forall k | 0 <= k < |i| :: g.edges[k] == Edge(i[k], j[k], WeightList(v, |i|)[k])
  {
    ExceedsIff(i, nv1 - 1);
    ExceedsIff(j, nv2 - 1);
  }

  /** Negative indices are not checked: an edge from vertex -1 is accepted. */
  lemma NegativeIndexAccepted<W>(w: W)
    ensures New4([-1], [-1], Broadcast(w), 1).Success?
  {
    ExceedsIff([-1], 0);
  }

  // ---------------------------------------------------------------------
  // nvert (490-496)
  // ---------------------------------------------------------------------

  /** What `nvert` returns: one count for a square graph, a pair otherwise. */
  datatype NVert = Square(n: nat) | Rect(nrow: nat, ncol: nat)

  function NVertOf<W>(g: Graph<W>): NVert
  {
    if g.nrow == g.ncol then Square(g.nrow) else Rect(g.nrow, g.ncol)
  }

  /** `nvert` is a scalar exactly for square graphs, and two graphs' `nvert` agree exactly when both dimensions agree. */
  lemma NVertLaw<W>(g: Graph<W>, h: Graph<W>)
    ensures NVertOf(g).Square? <==> g.nrow == g.ncol
    ensures NVertOf(g).Square? ==> NVertOf(g).n == g.nrow
    ensures NVertOf(g).Rect? ==> NVertOf(g) == Rect(g.nrow, g.ncol)
    ensures NVertOf(g) == NVertOf(h) <==> g.nrow == h.nrow && g.ncol == h.ncol
  {
  }

  // ---------------------------------------------------------------------
  // __getitem__ (110-182)
  // ---------------------------------------------------------------------

  /** One index of a key: a Python int, long or float, the `:` slice, another slice, or a ParVec. */
  datatype Index =
    | IntIx(n: int)
    | LongIx(n: int)
    | FloatIx(x: real)
    | FullSlice
    | OtherSlice
    | VecIx(s: seq<real>)

  /** A key: a non-tuple, or a tuple of indices. */
  datatype Key = Single(k: Index) | Tuple(parts: seq<Index>)

  /** Every ParVec in the key is non-empty (the library's min and max of an empty ParVec are not part of this model). */
  predicate KeyVectorsNonEmpty(key: Key)
  {
    match key
    case Single(k) => k.VecIx? ==> |k.s| > 0
    case Tuple(ps) => forall p | p in ps :: p.VecIx? ==> |p.s| > 0
  }

  /** 137-145: the key of each dimension. */
  function SplitKey(key: Key): Result<(Index, Index), Error>
  {
    match key
    case Single(k) => Success((k, k))
    case Tuple(ps) =>
      if |ps| == 1 then Success((ps[0], IntIx(-1)))
      else if |ps| == 2 then Success((ps[0], ps[1]))
      else Failure(KeyError("Too many indices"))
  }

  predicate IsScalar(ix: Index)
  {
    ix.IntIx? || ix.LongIx? || ix.FloatIx?
  }

  function ScalarValue(ix: Index): real
    requires IsScalar(ix)
  {
    match ix
    case IntIx(n) => n as real
    case LongIx(n) => n as real
    case FloatIx(x) => x
  }

  /** 146-149: a scalar key becomes a one-element ParVec. */
  function WrapIfScalar(ix: Index): (r: Index)
    ensures !IsScalar(r)
  {
    if IsScalar(ix) then VecIx([ScalarValue(ix)]) else ix
  }

  /** 150-153 as written: the test looks at the type of the already converted first key. */
  function WrapSecondAsWritten(key0: Index, key1: Index): Index
    requires !IsScalar(key0)
  {
    if key1.IntIx? || key0.LongIx? || key0.FloatIx? then VecIx([ScalarValue(key1)]) else key1
  }

  /** Python's `int()` of a float: truncation toward zero. */
  function Trunc(x: real): int
  {
    if x >= 0.0 then x.Floor else -((-x).Floor)
  }

  /** `ParVec.min()` of a non-empty vector. */
  function MinOf(s: seq<real>): (m: real)
    requires |s| > 0
    ensures exists k | 0 <= k < |s| :: s[k] == m
    ensures forall k | 0 <= k < |s| :: m <= s[k]
  {
    if |s| == 1 then s[0]
    else
      var m' := MinOf(s[1..]);
      assert forall k | 1 <= k < |s| :: s[k] == s[1..][k - 1];
      if s[0] < m' then s[0] else m'
  }

  /** `key == ParVec.range(a, a + |s|)`: s is a, a + 1, a + 2, ... */
  predicate IsRangeFrom(s: seq<real>, a: int)
  {
    forall k | 0 <= k < |s| :: s[k] == (a + k) as real
  }

  /** The size of dimension `dim` as the source reads it from `nvert()` (157-160, 168-171). */
  function DimSize(nv: NVert, dim: nat): int
  {
    match nv
    case Square(n) => n
    case Rect(r, c) => if dim == 0 then r else c
  }

  /** 154-164 and 165-175: the first and last vertex a key addresses in one dimension. */
  function Bounds(ix: Index, nv: NVert, dim: nat, which: string): (r: Result<(int, int), Error>)
    requires ix.VecIx? ==> |ix.s| > 0
    ensures r.Success? ==> r.value.0 <= r.value.1 + 1
  {
    match ix
    case FullSlice => Success((0, DimSize(nv, dim) - 1))
    case VecIx(s) =>
      var mn, mx := Trunc(MinOf(s)), Trunc(MaxOf(s));
      if |s| != mx - mn + 1 || !IsRangeFrom(s, mn) then Failure(KeyError("Vector " + which + " index not a range"))
      else Success((mn, mx))
    case _ => Failure(AttributeError)
  }

  predicate InBox<W>(e: Edge<W>, mn0: int, mx0: int, mn1: int, mx1: int)
  {
    mn0 <= e.i <= mx0 && mn1 <= e.j <= mx1
  }

  /** 176-180: the edges inside the box, shifted to start at (0, 0), in their original order. */
  function Select<W>(es: seq<Edge<W>>, mn0: int, mx0: int, mn1: int, mx1: int): (r: seq<Edge<W>>)
    ensures forall e | e in r :: 0 <= e.i <= mx0 - mn0 && 0 <= e.j <= mx1 - mn1
  {
    if es == [] then []
    else
      var e := es[0];
      (if InBox(e, mn0, mx0, mn1, mx1) then [Edge(e.i - mn0, e.j - mn1, e.w)] else [])
      + Select(es[1..], mn0, mx0, mn1, mx1)
  }

  /** An edge is selected exactly when it is the shift of an edge inside the box. */
  lemma {:induction false} SelectKeeps<W>(es: seq<Edge<W>>, mn0: int, mx0: int, mn1: int, mx1: int, e: Edge<W>)
    ensures e in Select(es, mn0, mx0, mn1, mx1) <==>
      exists e0 | e0 in es :: InBox(e0, mn0, mx0, mn1, mx1) && e == Edge(e0.i - mn0, e0.j - mn1, e0.w)
  {
    if es != [] {
      SelectKeeps(es[1..], mn0, mx0, mn1, mx1, e);
      assert forall e0 | e0 in es :: e0 == es[0] || e0 in es[1..];
    }
  }

  /** `i`, `j` and `v` of `toParVec` restricted to the selection (178-180). */
  function Sources<W>(es: seq<Edge<W>>): seq<int>
  {
    seq(|es|, k requires 0 <= k < |es| => es[k].i)
  }

  function Targets<W>(es: seq<Edge<W>>): seq<int>
  {
    seq(|es|, k requires 0 <= k < |es| => es[k].j)
  }

  function WeightsOf<W>(es: seq<Edge<W>>): seq<W>
  {
    seq(|es|, k requires 0 <= k < |es| => es[k].w)
  }

  /** 176-181 once both keys are converted: select, shift and rebuild with the 5-argument constructor. */
  function Lookup<W>(g: Graph<W>, key0: Index, key1: Index): Result<Graph<W>, Error>
    requires key0.VecIx? ==> |key0.s| > 0
    requires key1.VecIx? ==> |key1.s| > 0
  {
    match Bounds(key0, NVertOf(g), 0, "first")
    case Failure(e) => Failure(e)
    case Success(b0) =>
      match Bounds(key1, NVertOf(g), 1, "second")
      case Failure(e) => Failure(e)
      case Success(b1) => Extract(g, b0.0, b0.1, b1.0, b1.1)
  }

  /** 176-181: the selected, shifted edges handed to the 5-argument constructor. */
  function Extract<W>(g: Graph<W>, mn0: int, mx0: int, mn1: int, mx1: int): Result<Graph<W>, Error>
    requires mn0 <= mx0 + 1 && mn1 <= mx1 + 1
  {
    var sel := Select(g.edges, mn0, mx0, mn1, mx1);
    New(Sources(sel), Targets(sel), PerEdge(WeightsOf(sel)), mx0 - mn0 + 1, mx1 - mn1 + 1)
  }

  /** `g[key]` as written (110-182). */
  function GetItemAsWritten<W>(g: Graph<W>, key: Key): Result<Graph<W>, Error>
    requires KeyVectorsNonEmpty(key)
  {
    match SplitKey(key)
    case Failure(e) => Failure(e)
    case Success(keys) =>
      var key0 := WrapIfScalar(keys.0);
      var key1 := WrapSecondAsWritten(key0, keys.1);
      Lookup(g, key0, key1)
  }

  /** `g[key]` with line 150 testing the second key's own type, as line 146 does for the first. */
  function GetItem<W>(g: Graph<W>, key: Key): Result<Graph<W>, Error>
    requires KeyVectorsNonEmpty(key)
  {
    match SplitKey(key)
    case Failure(e) => Failure(e)
    case Success(keys) => Lookup(g, WrapIfScalar(keys.0), WrapIfScalar(keys.1))
  }

  /**
   * `subgraph(ndx1, ndx2)` (620-623): ndx2 defaults to ndx1.  It goes
   * through the corrected `GetItem`; as written, `subgraph(0, 0.0)` would
   * raise AttributeError as `GetItemAsWritten` does.
   */
  function Subgraph<W>(g: Graph<W>, ndx1: Index, ndx2: Option<Index>): Result<Graph<W>, Error>
    requires ndx1.VecIx? ==> |ndx1.s| > 0
    requires ndx2.Some? && ndx2.value.VecIx? ==> |ndx2.value.s| > 0
  {
    match ndx2
    case None => GetItem(g, Tuple([ndx1, ndx1]))
    case Some(n2) => GetItem(g, Tuple([ndx1, n2]))
  }

  // ---------------------------------------------------------------------
  // Laws of __getitem__ and subgraph
  // ---------------------------------------------------------------------

  /** A tuple key of neither one nor two indices raises KeyError. */
  lemma TupleArity<W>(g: Graph<W>, ps: seq<Index>)
    requires KeyVectorsNonEmpty(Tuple(ps))
    requires |ps| != 1 && |ps| != 2
    ensures GetItem(g, Tuple(ps)) == Failure(KeyError("Too many indices"))
  {
  }

  /** A ParVec key passes the range check exactly when it is a run a, a + 1, ..., a + |s| - 1 of integers, and then addresses a .. a + |s| - 1. */
  lemma RangeCheck(s: seq<real>, nv: NVert, dim: nat, which: string)
    requires |s| > 0
    ensures Bounds(VecIx(s), nv, dim, which).Success? <==> exists a: int :: IsRangeFrom(s, a)
    ensures forall a: int | IsRangeFrom(s, a) :: Bounds(VecIx(s), nv, dim, which) == Success((a, a + |s| - 1))
    ensures !(exists a: int :: IsRangeFrom(s, a)) ==>
      Bounds(VecIx(s), nv, dim, which) == Failure(KeyError("Vector " + which + " index not a range"))
  {
    forall a: int | IsRangeFrom(s, a)
      ensures Bounds(VecIx(s), nv, dim, which) == Success((a, a + |s| - 1))
    {
      var lo, hi := MinOf(s), MaxOf(s);
      assert lo == s[0] by {
        var p :| 0 <= p < |s| && s[p] == lo;
        assert lo <= s[0];
      }
      assert hi == s[|s| - 1] by {
        var p :| 0 <= p < |s| && s[p] == hi;
        assert s[|s| - 1] <= hi;
      }
      TruncOfInt(a);
      TruncOfInt(a + |s| - 1);
    }
    if Bounds(VecIx(s), nv, dim, which).Success? {
      assert IsRangeFrom(s, Trunc(MinOf(s)));
    }
  }

  /** int() of an integral float is that integer. */
  lemma TruncOfInt(a: int)
    ensures Trunc(a as real) == a
  {
  }

  /** The full slice addresses every vertex of its dimension: 0 .. nrow - 1 first, 0 .. ncol - 1 second. */
  lemma FullSliceIsWholeDimension<W>(g: Graph<W>, which: string)
    ensures Bounds(FullSlice, NVertOf(g), 0, which) == Success((0, g.nrow - 1))
    ensures Bounds(FullSlice, NVertOf(g), 1, which) == Success((0, g.ncol - 1))
  {
  }

  /** An integer key addresses that one vertex. */
  lemma ScalarKeyAddressesOne(n: int, nv: NVert, dim: nat, which: string)
    ensures Bounds(WrapIfScalar(IntIx(n)), nv, dim, which) == Success((n, n))
  {
    RangeCheck([n as real], nv, dim, which);
    assert IsRangeFrom([n as real], n);
  }

  /** The vertex lists and weights of the selected edges rebuild exactly those edges. */
  lemma RebuildSelection<W>(sel: seq<Edge<W>>, n0: nat, n1: nat)
    requires forall e | e in sel :: 0 <= e.i < n0 && 0 <= e.j < n1
    ensures New(Sources(sel), Targets(sel), PerEdge(WeightsOf(sel)), n0, n1) == Success(Graph(n0, n1, sel))
  {
    var ii, js, ws := Sources(sel), Targets(sel), WeightsOf(sel);
    assert forall k | 0 <= k < |sel| :: sel[k] in sel;
    ConstructorChecks(ii, js, PerEdge(ws), n0, n1);
    assert Zip(ii, js, ws) == sel;
  }

  /** A lookup whose two keys address [mn0, mx0] and [mn1, mx1] is the selection from that box. */
  lemma LookupIsSelection<W>(g: Graph<W>, key0: Index, key1: Index, mn0: int, mx0: int, mn1: int, mx1: int)
    requires key0.VecIx? ==> |key0.s| > 0
    requires key1.VecIx? ==> |key1.s| > 0
    requires Bounds(key0, NVertOf(g), 0, "first") == Success((mn0, mx0))
    requires Bounds(key1, NVertOf(g), 1, "second") == Success((mn1, mx1))
    ensures Lookup(g, key0, key1) == Success(Graph(mx0 - mn0 + 1, mx1 - mn1 + 1, Select(g.edges, mn0, mx0, mn1, mx1)))
  {
    RebuildSelection(Select(g.edges, mn0, mx0, mn1, mx1), mx0 - mn0 + 1, mx1 - mn1 + 1);
    assert Lookup(g, key0, key1) == Extract(g, mn0, mx0, mn1, mx1);
  }

  /**
   * A successful lookup holds exactly the edges inside the addressed box,
   * shifted by its low corner with unchanged weights, and has one vertex per
   * addressed index in each dimension.
   */
  lemma LookupSelects<W>(g: Graph<W>, key0: Index, key1: Index, mn0: int, mx0: int, mn1: int, mx1: int, e: Edge<W>)
    requires key0.VecIx? ==> |key0.s| > 0
    requires key1.VecIx? ==> |key1.s| > 0
    requires Bounds(key0, NVertOf(g), 0, "first") == Success((mn0, mx0))
    requires Bounds(key1, NVertOf(g), 1, "second") == Success((mn1, mx1))
    ensures Lookup(g, key0, key1).Success?
    ensures Lookup(g, key0, key1).value.nrow == mx0 - mn0 + 1
    ensures Lookup(g, key0, key1).value.ncol == mx1 - mn1 + 1
    ensures e in Lookup(g, key0, key1).value.edges <==>
      exists e0 | e0 in g.edges :: InBox(e0, mn0, mx0, mn1, mx1) && e == Edge(e0.i - mn0, e0.j - mn1, e0.w)
  {
    LookupIsSelection(g, key0, key1, mn0, mx0, mn1, mx1);
    SelectKeeps(g.edges, mn0, mx0, mn1, mx1, e);
  }

  /** A non-tuple key addresses both dimensions. */
  lemma NonTupleKeyBothDimensions<W>(g: Graph<W>, k: Index)
    requires k.VecIx? ==> |k.s| > 0
    ensures GetItem(g, Single(k)) == GetItem(g, Tuple([k, k]))
  {
  }

  /** `subgraph(ndx1)` is `self[ndx1]`, the same index for rows and columns. */
  lemma SubgraphDefault<W>(g: Graph<W>, ndx1: Index)
    requires ndx1.VecIx? ==> |ndx1.s| > 0
    ensures Subgraph(g, ndx1, None) == GetItem(g, Single(ndx1))
  {
  }

  /** As written, the second key is converted from a scalar only when it is a Python int. */
  lemma SecondKeyAsWritten(k0: Index, k1: Index)
    ensures WrapSecondAsWritten(WrapIfScalar(k0), k1) == if k1.IntIx? then WrapIfScalar(k1) else k1
  {
  }

  /** As written, `g[0, 0.0]` and `g[0, 0L]` raise AttributeError: `.min()` is called on the float or long itself. */
  lemma FloatSecondKeyFails<W>(g: Graph<W>)
    ensures GetItemAsWritten(g, Tuple([IntIx(0), FloatIx(0.0)])) == Failure(AttributeError)
    ensures GetItemAsWritten(g, Tuple([IntIx(0), LongIx(0)])) == Failure(AttributeError)
  {
    ScalarKeyAddressesOne(0, NVertOf(g), 0, "first");
  }

  /** With the second key converted like the first, an int, long or float second key with the same integer value address the same vertex. */
  lemma SecondKeyAnyScalar<W>(g: Graph<W>, k0: Index, n: int)
    requires k0.VecIx? ==> |k0.s| > 0
    ensures GetItem(g, Tuple([k0, FloatIx(n as real)])) == GetItem(g, Tuple([k0, IntIx(n)]))
    ensures GetItem(g, Tuple([k0, LongIx(n)])) == GetItem(g, Tuple([k0, IntIx(n)]))
    ensures Bounds(WrapIfScalar(FloatIx(n as real)), NVertOf(g), 1, "second") == Success((n, n))
  {
    assert WrapIfScalar(FloatIx(n as real)) == WrapIfScalar(LongIx(n)) == WrapIfScalar(IntIx(n));
    ScalarKeyAddressesOne(n, NVertOf(g), 1, "second");
  }

  // ---------------------------------------------------------------------
  // fullyConnected (319-341)
  // ---------------------------------------------------------------------

  /** `fullyConnected(n, m)`: edge k runs from k mod n to k div n with weight 1; m defaults to n. */
  function FullyConnected(n: nat, m: Option<nat>): Result<Graph<real>, Error>
  {
    var m' := if m.None? then n else m.value;
    var i := seq(n * m', k => if n == 0 then 0 else k % n);
    var j := seq(n * m', k => if n == 0 then 0 else k / n);
    New(i, j, Broadcast(1.0), n, m')
  }

  /** fullyConnected(n, m) is an n x m graph with n * m unit edges, edge k being (k mod n, k div n); m defaults to n. */
  lemma FullyConnectedShape(n: nat, m: nat)
    ensures FullyConnected(n, None) == FullyConnected(n, Some(n))
    ensures FullyConnected(n, Some(m)).Success?
    ensures var g := FullyConnected(n, Some(m)).value;
      g.nrow == n && g.ncol == m && |g.edges| == n * m &&
      forall k | 0 <= k < n * m :: n > 0 && g.edges[k] == Edge(k % n, k / n, 1.0)
  {
    var i := seq(n * m, k => if n == 0 then 0 else k % n);
    var j := seq(n * m, k => if n == 0 then 0 else k / n);
    forall k | 0 <= k < n * m
      ensures n > 0 && 0 <= i[k] < n && 0 <= j[k] < m
    {
      DivBound(k, n, m);
    }
    ConstructorChecks(i, j, Broadcast(1.0), n, m);
  }

  /** Edge k of `es` is (k mod n, k div n) with weight 1: the edge list FullyConnectedShape describes. */
  ghost predicate Enumerates(es: seq<Edge<real>>, n: nat)
  {
    n > 0 && forall k | 0 <= k < |es| :: es[k] == Edge(k % n, k / n, 1.0)
  }

  /**
   * In the edge list of fullyConnected(n, m) every (a, b) with a < n and
   * b < m occurs exactly once, at position b * n + a.
   */
  lemma FullyConnectedCovers(es: seq<Edge<real>>, n: nat, m: nat, a: nat, b: nat, k: nat)
    requires |es| == n * m && Enumerates(es, n)
    requires a < n && b < m
    ensures b * n + a < |es| && es[b * n + a] == Edge(a, b, 1.0)
    ensures k < |es| && es[k].i == a && es[k].j == b ==> k == b * n + a
  {
    IndexOfPair(a, b, n, m);
    if k < |es| && es[k].i == a && es[k].j == b {
      PairOfIndex(k, n, a, b);
    }
  }

  /** An index whose remainder and quotient are a and b is b * n + a. */
  lemma PairOfIndex(k: nat, n: nat, a: nat, b: nat)
    requires n > 0 && k % n == a && k / n == b
    ensures k == b * n + a
  {
    DivModSplit(k, n);
  }

  /** k == (k div n) * n + k mod n. */
  lemma DivModSplit(k: nat, n: nat)
    requires n > 0
    ensures k == (k / n) * n + k % n
  {
  }

  /** For 0 <= k < n * m: k div n < m. */
  lemma DivBound(k: nat, n: nat, m: nat)
    requires k < n * m
    ensures n > 0 && k / n < m
  {
    assert n > 0;
    var q := k / n;
    assert q * n + k % n == k;
  }

  /** (a, b) with a < n, b < m is at position b * n + a. */
  lemma IndexOfPair(a: nat, b: nat, n: nat, m: nat)
    requires a < n && b < m
    ensures b * n + a < n * m
    ensures (b * n + a) % n == a && (b * n + a) / n == b
  {
    var k := b * n + a;
    assert (b + 1) * n == b * n + n;
    assert (b + 1) * n <= m * n;
    DivModUnique(k, n, b, a);
  }

  /** d * n >= n for d >= 1. */
  lemma AtLeastOnce(d: int, n: nat)
    requires d >= 1
    ensures d * n >= n
  {
    assert d * n == (d - 1) * n + n;
  }

  /** Quotient and remainder are determined by k == q * n + r with 0 <= r < n. */
  lemma DivModUnique(k: int, n: int, q: int, r: int)
    requires n > 0 && 0 <= r < n && k == q * n + r
    ensures k / n == q && k % n == r
  {
    var q', r' := k / n, k % n;
    assert q' * n + r' == k;
    assert (q - q') * n == r' - r;
    if q > q' {
      AtLeastOnce(q - q', n);
    } else if q < q' {
      AtLeastOnce(q' - q, n);
    }
  }

  // ---------------------------------------------------------------------
  // Dimension checks of +, * and / (76-108, 203-220)
  // ---------------------------------------------------------------------

  /** The right operand: a Python number or another DiGraph. */
  datatype Operand<W> = Number | OtherGraph(h: Graph<W>)

  datatype Arith = Add | Mul | Div

  /**
   * The checks of `g + other`, `g * other` and `g / other`; on success the
   * `nvert` of the result (the edge values are computed by the library).
   */
  function Combine<W>(op: Arith, g: Graph<W>, other: Operand<W>): Result<NVert, Error>
  {
    match other
    case Number => if op == Add then Failure(NotImplementedError) else Success(NVertOf(g))
    case OtherGraph(h) =>
      if NVertOf(g) != NVertOf(h) then Failure(IndexError("Graphs must have equal numbers of vertices"))
      else Success(NVertOf(g))
  }

  /**
   * Two graphs combine exactly when they have the same dimensions, and the
   * result keeps them; otherwise IndexError.  A number cannot be added but
   * can multiply or divide every edge.
   */
  lemma CombineChecks<W>(op: Arith, g: Graph<W>, h: Graph<W>)
    ensures Combine(op, g, OtherGraph(h)).Success? <==> g.nrow == h.nrow && g.ncol == h.ncol
    ensures Combine(op, g, OtherGraph(h)).Failure? ==> Combine(op, g, OtherGraph(h)).error.IndexError?
    ensures Combine(op, g, OtherGraph(h)).Success? ==> Combine(op, g, OtherGraph(h)).value == NVertOf(g) == NVertOf(h)
    ensures Combine(Add, g, Number) == Failure(NotImplementedError)
    ensures Combine(Mul, g, Number) == Combine(Div, g, Number) == Success(NVertOf(g))
  {
    NVertLaw(g, h);
  }
}
