/**
 * The range decoder of `LocalDataPort`: turns a half-open window `[start, end)` of slices
 * into per-edge windowed traffic by subtracting the cumulative snapshot at `start - 1` from
 * the one at `end - 1`, with the `(0, 0)` sentinel and the zero-edge fallbacks.
 *
 * Reading a slice is the store's cache-free fallback chain (`FileLoader.ContentOrZero`,
 * shown equal to the cached getter there) followed by `JSON.parse`, which is the parameter
 * `parse`: None is a parse that throws.
 */
module LocalPort {
  import opened Arith
  import opened Wrappers
  import opened Js
  import opened Text
  import opened Classification
  import opened FileLoader
  import opened Data

  type Parser = string -> Option<seq<Edge>>

  /** What `range` throws: its own bounds error, or `new Array(n)` with a negative `n`. */
  datatype RangeError = ExceededRange | InvalidArrayLength

  /** The edges a call returns, and the slices it asked the store for, in order. */
  datatype Decoded = Decoded(edges: seq<Edge>, slicesRead: seq<int>)

  /** `4 * num_hop_units * MsgTypes.length`: the stride `range` subtracts over and the length
      of a synthesised vector. It has no channel factor. */
  function VectorStride(meta: Meta): int {
    4 * meta.numHopUnits * NumMsgTypes
  }

  /** Parse the store's answer for `slice`. */
  function ReadSlice(l: Loader, parse: Parser, slice: int): Option<seq<Edge>> {
    parse(ContentOrZero(l, slice))
  }

  // ---------------------------------------------------------------- grid synthesis

  predicate InGrid(W: int, H: int, x: int, y: int) {
    0 <= x < W && 0 <= y < H
  }

  /** The edge from node `y*W+x` to node `ny*W+nx`, with vector `zeros`. */
  function Link(W: nat, x: nat, y: nat, nx: nat, ny: nat, zeros: seq<Num>): Edge {
    var id := NatToString(y * W + x);
    var nid := NatToString(ny * W + nx);
    Edge(id, nid, zeros, id + "->" + nid)
  }

  /** `(nx, ny)` is one of the four neighbours N/E/S/W of `(x, y)`. */
  predicate Adjacent(x: int, y: int, nx: int, ny: int) {
    (nx == x && (ny == y + 1 || ny + 1 == y)) || (ny == y && (nx == x + 1 || nx + 1 == x))
  }

  /** `e` joins an in-bounds node to one of its in-bounds 4-neighbours and carries `zeros`. */
  ghost predicate IsGridLink(e: Edge, W: nat, H: nat, zeros: seq<Num>) {
    exists x: nat, y: nat, nx: nat, ny: nat ::
      InGrid(W, H, x, y) && InGrid(W, H, nx, ny) && Adjacent(x, y, nx, ny)
      && e == Link(W, x, y, nx, ny, zeros)
  }

  /** The links of node `(x, y)` in the order the source lists its neighbours:
      `(x, y+1)`, `(x+1, y)`, `(x, y-1)`, `(x-1, y)`, each only when in bounds. */
  function NodeLinks(W: nat, H: nat, x: nat, y: nat, zeros: seq<Num>): seq<Edge>
    requires InGrid(W, H, x, y)
  {
    (if y + 1 < H then [Link(W, x, y, x, y + 1, zeros)] else [])
    + (if x + 1 < W then [Link(W, x, y, x + 1, y, zeros)] else [])
    + (if y >= 1 then [Link(W, x, y, x, y - 1, zeros)] else [])
    + (if x >= 1 then [Link(W, x, y, x - 1, y, zeros)] else [])
  }

  function RowLinks(W: nat, H: nat, y: nat, x: nat, zeros: seq<Num>): seq<Edge>
    requires y < H && x <= W
    decreases W - x
  {
    if x == W then [] else NodeLinks(W, H, x, y, zeros) + RowLinks(W, H, y, x + 1, zeros)
  }

  function GridFrom(W: nat, H: nat, y: nat, zeros: seq<Num>): seq<Edge>
    requires y <= H
    decreases H - y
  {
    if y == H then [] else RowLinks(W, H, y, 0, zeros) + GridFrom(W, H, y + 1, zeros)
  }

  /** The last-resort topology: every node `y*W+x` of a `W × H` grid, row by row, linked to
      its in-bounds 4-neighbours. A non-positive width or height has no nodes. */
  function GridEdges(W: int, H: int, vlen: nat): seq<Edge> {
    if W <= 0 || H <= 0 then [] else GridFrom(W, H, 0, Zeros(vlen))
  }

  // ---------------------------------------------------------------- edgeEmptyData

  /** The template's edges with every vector replaced by zeros as long as the first one. */
  function ZeroedLike(t: seq<Edge>): seq<Edge>
    requires |t| > 0
  {
    seq(|t|, i requires 0 <= i < |t| => t[i].(value := Zeros(|t[0].value|)))
  }

  /**
   * `edgeEmptyData` with synthesised vectors `vlen` long: zero the edges of the slice-0
   * answer when it parses to a non-empty array (an empty one throws at `t[0]`); otherwise
   * synthesise the grid (`new Array(vlen)` throws for a negative length).
   */
  function EmptyDataWith(l: Loader, meta: Meta, parse: Parser, vlen: int): Result<Decoded, RangeError> {
    var t := ReadSlice(l, parse, 0);
    if t.Some? && |t.value| > 0 then Ok(Decoded(ZeroedLike(t.value), [0]))
    else if vlen < 0 then Err(InvalidArrayLength)
    else Ok(Decoded(GridEdges(meta.width, meta.height, vlen), [0]))
  }

  /** `edgeEmptyData` as written: the synthesised length is `VectorStride(meta)`. */
  function EdgeEmptyData(l: Loader, meta: Meta, parse: Parser): Result<Decoded, RangeError> {
    EmptyDataWith(l, meta, parse, VectorStride(meta))
  }

  // ---------------------------------------------------------------- range

  /**
   * `for (j = 0; j < stride; j++) ev[j] -= rv[j] || 0` on one vector. Writing past the end
   * of `ev` extends it with `undefined - x`, which is NaN; entries at or beyond the stride
   * are left as they were.
   */
  function SubtractPrefix(ev: seq<Num>, rv: seq<Num>, stride: int): (r: seq<Num>)
    ensures |r| == if stride > |ev| then stride else |ev|
  {
    var n := if stride > |ev| then stride else |ev|;
    seq(n, j requires 0 <= j < n =>
      if j < stride then Minus(Index(ev, j), OrZero(Index(rv, j))) else ev[j])
  }

  /** The subtraction loop over edges, matched by position; an edge with no counterpart
      subtracts a zero vector, which reads the same as an empty one under `|| 0`. */
  function SubtractEdges(edges: seq<Edge>, redundant: seq<Edge>, stride: int): seq<Edge> {
    seq(|edges|, i requires 0 <= i < |edges| =>
      edges[i].(value := SubtractPrefix(edges[i].value,
                                        if i < |redundant| then redundant[i].value else [],
                                        stride)))
  }

  /** `range(start, end)` on a store `l` whose run is described by `meta`, with `stride` as
      both the subtraction stride and the synthesised vector length. */
  function RangeWith(l: Loader, meta: Meta, parse: Parser, start: int, end: int, stride: int): Result<Decoded, RangeError> {
    if start == 0 && end == 0 then EmptyDataWith(l, meta, parse, stride)
    else if end > meta.elapse || start >= end || start < 0 then Err(ExceededRange)
    else
      var endEdges := ReadSlice(l, parse, end - 1);
      var base :=
        if endEdges.Some? then Ok(Decoded(endEdges.value, [end - 1]))
        else match EmptyDataWith(l, meta, parse, stride)
          case Ok(d) => Ok(Decoded(d.edges, [end - 1] + d.slicesRead))
          case Err(e) => Err(e);
      match base
      case Err(e) => Err(e)
      case Ok(d) =>
        if start != 0 then
          var redundant := ReadSlice(l, parse, start - 1);
          var slicesRead := d.slicesRead + [start - 1];
          if redundant.Some? then Ok(Decoded(SubtractEdges(d.edges, redundant.value, stride), slicesRead))
          else Ok(Decoded(d.edges, slicesRead))
        else Ok(d)
  }

  /** `range(start, end)` as written: the stride is `VectorStride(meta)`. */
  function Range(l: Loader, meta: Meta, parse: Parser, start: int, end: int): Result<Decoded, RangeError> {
    RangeWith(l, meta, parse, start, end, VectorStride(meta))
  }

  // ---------------------------------------------------------------- properties

  /** The `(0, 0)` sentinel answers `edgeEmptyData`, whose only read is the slice-0 template:
      neither `end - 1` nor `start - 1` is asked for. */
  lemma RangeSentinel(l: Loader, meta: Meta, parse: Parser)
    ensures Range(l, meta, parse, 0, 0) == EdgeEmptyData(l, meta, parse)
    ensures Range(l, meta, parse, 0, 0).Ok? ==> Range(l, meta, parse, 0, 0).value.slicesRead == [0]
  {
  }

  /** Outside the sentinel, `range` throws its bounds error exactly on a bad window. */
  lemma RangeRejectsExactly(l: Loader, meta: Meta, parse: Parser, start: int, end: int)
    ensures Range(l, meta, parse, start, end) == Err(ExceededRange)
        <==> !(start == 0 && end == 0) && (end > meta.elapse || start >= end || start < 0)
  {
  }

  /** With `start == 0` the window is the parsed `end - 1` answer itself, or `edgeEmptyData`
      when that answer does not parse. */
  lemma RangeFromZero(l: Loader, meta: Meta, parse: Parser, end: int)
    requires 0 < end <= meta.elapse
    ensures ReadSlice(l, parse, end - 1).Some? ==>
      Range(l, meta, parse, 0, end) == Ok(Decoded(ReadSlice(l, parse, end - 1).value, [end - 1]))
    ensures ReadSlice(l, parse, end - 1).None? ==>
      match EdgeEmptyData(l, meta, parse)
      case Ok(d) => Range(l, meta, parse, 0, end) == Ok(Decoded(d.edges, [end - 1, 0]))
      case Err(e) => Range(l, meta, parse, 0, end) == Err(e)
  {
    EmptyDataReadsTemplate(l, meta, parse);
    assert [end - 1] + [0] == [end - 1, 0];
  }

  lemma EmptyDataReadsTemplate(l: Loader, meta: Meta, parse: Parser)
    ensures EdgeEmptyData(l, meta, parse).Ok? ==> EdgeEmptyData(l, meta, parse).value.slicesRead == [0]
  {
  }

  /**
   * With `start > 0` and both answers parsed, each edge keeps its endpoints and detail, the
   * first `stride` entries become `end - 1` minus `start - 1` (a missing counterpart counts
   * as 0), and the entries at or beyond the stride keep their cumulative value.
   */
  lemma RangeSubtracts(l: Loader, meta: Meta, parse: Parser, start: int, end: int,
                       ends: seq<Edge>, starts: seq<Edge>)
    requires 0 < start < end <= meta.elapse
    requires ReadSlice(l, parse, end - 1) == Some(ends)
    requires ReadSlice(l, parse, start - 1) == Some(starts)
    ensures Range(l, meta, parse, start, end).Ok?
    ensures var d := Range(l, meta, parse, start, end).value;
      && d.slicesRead == [end - 1, start - 1]
      && |d.edges| == |ends|
      && forall i :: 0 <= i < |ends| ==>
        var rv := if i < |starts| then starts[i].value else [];
        var v := d.edges[i].value;
        && d.edges[i].source == ends[i].source
        && d.edges[i].target == ends[i].target
        && d.edges[i].detail == ends[i].detail
        && |v| == (if VectorStride(meta) > |ends[i].value| then VectorStride(meta) else |ends[i].value|)
        && (forall j :: 0 <= j < VectorStride(meta) ==>
              v[j] == Minus(Index(ends[i].value, j), OrZero(Index(rv, j))))
        && (forall j :: 0 <= j < |ends[i].value| && VectorStride(meta) <= j ==> v[j] == ends[i].value[j])
  {
    RangeWithSubtracts(l, meta, parse, start, end, VectorStride(meta), ends, starts);
  }

  /** The same, for any stride. */
  lemma RangeWithSubtracts(l: Loader, meta: Meta, parse: Parser, start: int, end: int, stride: int,
                           ends: seq<Edge>, starts: seq<Edge>)
    requires 0 < start < end <= meta.elapse
    requires ReadSlice(l, parse, end - 1) == Some(ends)
    requires ReadSlice(l, parse, start - 1) == Some(starts)
    ensures RangeWith(l, meta, parse, start, end, stride).Ok?
    ensures var d := RangeWith(l, meta, parse, start, end, stride).value;
      && d.slicesRead == [end - 1, start - 1]
      && |d.edges| == |ends|
      && forall i :: 0 <= i < |ends| ==>
        var rv := if i < |starts| then starts[i].value else [];
        var v := d.edges[i].value;
        && d.edges[i].source == ends[i].source
        && d.edges[i].target == ends[i].target
        && d.edges[i].detail == ends[i].detail
        && |v| == (if stride > |ends[i].value| then stride else |ends[i].value|)
        && (forall j :: 0 <= j < stride ==>
              v[j] == Minus(Index(ends[i].value, j), OrZero(Index(rv, j))))
        && (forall j :: 0 <= j < |ends[i].value| && stride <= j ==> v[j] == ends[i].value[j])
  {
    var d := RangeWith(l, meta, parse, start, end, stride).value;
    assert d.edges == SubtractEdges(ends, starts, stride);
    assert d.slicesRead == [end - 1] + [start - 1];
  }

  /** With `start > 0` and an unparseable `start - 1` answer nothing is subtracted. */
  lemma RangeMissingStart(l: Loader, meta: Meta, parse: Parser, start: int, end: int, ends: seq<Edge>)
    requires 0 < start < end <= meta.elapse
    requires ReadSlice(l, parse, end - 1) == Some(ends)
    requires ReadSlice(l, parse, start - 1).None?
    ensures Range(l, meta, parse, start, end) == Ok(Decoded(ends, [end - 1, start - 1]))
  {
    assert [end - 1] + [start - 1] == [end - 1, start - 1];
  }

  /** Every entry of a vector is an integer. */
  predicate AllInt(v: seq<Num>) {
    forall j :: 0 <= j < |v| ==> v[j].Int?
  }

  /** Two snapshots of one topology: same edge count, every vector of length `n`, integral. */
  predicate SameShape(a: seq<Edge>, b: seq<Edge>, n: int) {
    && |a| == |b|
    && forall i :: 0 <= i < |a| ==>
      |a[i].value| == n && |b[i].value| == n && AllInt(a[i].value) && AllInt(b[i].value)
  }

  /**
   * The prefix-sum law, for vectors exactly `VectorStride(meta)` long (a single channel):
   * when slices `start - 1` and `end - 1` both exist and parse, the window is the entrywise
   * difference of the two cumulative snapshots.
   */
  lemma PrefixSumLaw(l: Loader, meta: Meta, parse: Parser, start: int, end: int,
                     ends: seq<Edge>, starts: seq<Edge>)
    requires 0 < start < end <= meta.elapse
    requires HasEdgeSlice(l, end - 1) && HasEdgeSlice(l, start - 1)
    requires parse(l.bySlice[end - 1].text) == Some(ends)
    requires parse(l.bySlice[start - 1].text) == Some(starts)
    requires SameShape(ends, starts, VectorStride(meta))
    ensures Range(l, meta, parse, start, end).Ok?
    ensures var d := Range(l, meta, parse, start, end).value;
      && |d.edges| == |ends|
      && forall i, j :: 0 <= i < |ends| && 0 <= j < VectorStride(meta) ==>
        d.edges[i].value[j] == Int(ends[i].value[j].i - starts[i].value[j].i)
  {
    PrefixSumLawWith(l, meta, parse, start, end, VectorStride(meta), ends, starts);
  }

  /** The same, for snapshots whose vectors are exactly `stride` long. */
  lemma PrefixSumLawWith(l: Loader, meta: Meta, parse: Parser, start: int, end: int, stride: int,
                         ends: seq<Edge>, starts: seq<Edge>)
    requires 0 < start < end <= meta.elapse
    requires HasEdgeSlice(l, end - 1) && HasEdgeSlice(l, start - 1)
    requires parse(l.bySlice[end - 1].text) == Some(ends)
    requires parse(l.bySlice[start - 1].text) == Some(starts)
    requires SameShape(ends, starts, stride)
    ensures RangeWith(l, meta, parse, start, end, stride).Ok?
    ensures var d := RangeWith(l, meta, parse, start, end, stride).value;
      && |d.edges| == |ends|
      && forall i, j :: 0 <= i < |ends| && 0 <= j < stride ==>
        d.edges[i].value[j] == Int(ends[i].value[j].i - starts[i].value[j].i)
  {
    RangeWithSubtracts(l, meta, parse, start, end, stride, ends, starts);
  }

  /**
   * `edgeEmptyData`: a non-empty slice-0 template keeps its edges' endpoints and details and
   * zeroes every vector to the template's first length; otherwise (and when the vector
   * length is not negative) the answer is the synthesised grid.
   */
  lemma EdgeEmptyDataSpec(l: Loader, meta: Meta, parse: Parser)
    ensures var t := ReadSlice(l, parse, 0);
      t.Some? && |t.value| > 0 ==>
        && EdgeEmptyData(l, meta, parse).Ok?
        && var es := EdgeEmptyData(l, meta, parse).value.edges;
        && |es| == |t.value|
        && forall i :: 0 <= i < |es| ==>
          es[i] == Edge(t.value[i].source, t.value[i].target, Zeros(|t.value[0].value|), t.value[i].detail)
    ensures var t := ReadSlice(l, parse, 0);
      !(t.Some? && |t.value| > 0) && VectorStride(meta) < 0 ==>
        EdgeEmptyData(l, meta, parse) == Err(InvalidArrayLength)
    ensures var t := ReadSlice(l, parse, 0);
      !(t.Some? && |t.value| > 0) && VectorStride(meta) >= 0 ==>
        EdgeEmptyData(l, meta, parse) == Ok(Decoded(GridEdges(meta.width, meta.height, VectorStride(meta)), [0]))
  {
  }

  // ---------------------------------------------------------------- grid properties

  function Horizontal(W: nat, x: nat): int
    requires x <= W
  {
    if x == W then 0 else if x == 0 then 2 * W - 2 else 2 * (W - x) - 1
  }

  function Vertical(H: nat, y: nat): nat
    requires y < H
  {
    (if y + 1 < H then 1 else 0) + (if y >= 1 then 1 else 0)
  }

  lemma RowLinksSize(W: nat, H: nat, y: nat, x: nat, zeros: seq<Num>)
    requires y < H && x <= W
    ensures |RowLinks(W, H, y, x, zeros)| == Horizontal(W, x) + (W - x) * Vertical(H, y)
  {
    RowLinksLength(W, H, y, x, zeros);
    RowSizeClosed(W, H, y, x);
  }

  /** The edge count of nodes `x..W-1` of row `y`, node by node. */
  function RowSize(W: nat, H: nat, y: nat, x: nat): int
    requires y < H && x <= W
    decreases W - x
  {
    if x == W then 0
    else (if x + 1 < W then 1 else 0) + (if x >= 1 then 1 else 0) + Vertical(H, y) + RowSize(W, H, y, x + 1)
  }

  lemma {:induction false} RowLinksLength(W: nat, H: nat, y: nat, x: nat, zeros: seq<Num>)
    requires y < H && x <= W
    ensures |RowLinks(W, H, y, x, zeros)| == RowSize(W, H, y, x)
    decreases W - x
  {
    if x < W {
      RowLinksLength(W, H, y, x + 1, zeros);
      NodeLinksSize(W, H, x, y, zeros);
    }
  }

  lemma {:induction false} RowSizeClosed(W: nat, H: nat, y: nat, x: nat)
    requires y < H && x <= W
    ensures RowSize(W, H, y, x) == Horizontal(W, x) + (W - x) * Vertical(H, y)
    decreases W - x
  {
    if x < W {
      RowSizeClosed(W, H, y, x + 1);
      MulSucc(W - x - 1, Vertical(H, y));
    }
  }

  lemma NodeLinksSize(W: nat, H: nat, x: nat, y: nat, zeros: seq<Num>)
    requires InGrid(W, H, x, y)
    ensures |NodeLinks(W, H, x, y, zeros)|
         == (if x + 1 < W then 1 else 0) + (if x >= 1 then 1 else 0) + Vertical(H, y)
  {
  }

  function VerticalFrom(H: nat, y: nat): int
    requires y <= H
  {
    if y == H then 0 else if y == 0 then 2 * H - 2 else 2 * (H - y) - 1
  }

  /** The edge count of rows `y..H-1`, row by row. */
  function GridSize(W: nat, H: nat, y: nat): int
    requires y <= H
    decreases H - y
  {
    if y == H then 0 else Horizontal(W, 0) + W * Vertical(H, y) + GridSize(W, H, y + 1)
  }

  lemma {:induction false} GridFromLength(W: nat, H: nat, y: nat, zeros: seq<Num>)
    requires y <= H
    ensures |GridFrom(W, H, y, zeros)| == GridSize(W, H, y)
    decreases H - y
  {
    if y < H {
      RowLinksSize(W, H, y, 0, zeros);
      GridFromLength(W, H, y + 1, zeros);
    }
  }

  lemma {:induction false} GridSizeClosed(W: nat, H: nat, y: nat)
    requires 1 <= W && y <= H
    ensures GridSize(W, H, y) == (H - y) * (2 * W - 2) + W * VerticalFrom(H, y)
    decreases H - y
  {
    if y < H {
      GridSizeClosed(W, H, y + 1);
      VerticalStep(H, y);
      SizeStep(W, H - y, H - (y + 1), Vertical(H, y), VerticalFrom(H, y + 1), VerticalFrom(H, y),
               Horizontal(W, 0) + W * Vertical(H, y), GridSize(W, H, y + 1));
    }
  }

  lemma GridFromSize(W: nat, H: nat, y: nat, zeros: seq<Num>)
    requires 1 <= W && y <= H
    ensures |GridFrom(W, H, y, zeros)| == (H - y) * (2 * W - 2) + W * VerticalFrom(H, y)
  {
    GridFromLength(W, H, y, zeros);
    GridSizeClosed(W, H, y);
  }

  lemma VerticalStep(H: nat, y: nat)
    requires y < H
    ensures VerticalFrom(H, y) == Vertical(H, y) + VerticalFrom(H, y + 1)
  {
  }

  lemma SizeStep(W: int, n: int, m: int, v: int, vf: int, vt: int, r: int, g: int)
    requires n == m + 1 && vt == v + vf
    requires r == (2 * W - 2) + W * v
    requires g == m * (2 * W - 2) + W * vf
    ensures r + g == n * (2 * W - 2) + W * vt
  {
    MulSucc(m, 2 * W - 2);
    MulDistributes(W, v, vf);
  }

  lemma {:induction false} RowLinksAreGridLinks(W: nat, H: nat, y: nat, x: nat, zeros: seq<Num>)
    requires y < H && x <= W
    ensures forall e :: e in RowLinks(W, H, y, x, zeros) ==> IsGridLink(e, W, H, zeros)
    decreases W - x
  {
    if x < W {
      RowLinksAreGridLinks(W, H, y, x + 1, zeros);
      forall e | e in NodeLinks(W, H, x, y, zeros)
        ensures IsGridLink(e, W, H, zeros)
      {
        if y + 1 < H && e == Link(W, x, y, x, y + 1, zeros) {
          assert InGrid(W, H, x, y + 1);
        } else if x + 1 < W && e == Link(W, x, y, x + 1, y, zeros) {
          assert InGrid(W, H, x + 1, y);
        } else if y >= 1 && e == Link(W, x, y, x, y - 1, zeros) {
          assert InGrid(W, H, x, y - 1);
        } else {
          assert x >= 1 && e == Link(W, x, y, x - 1, y, zeros);
          assert InGrid(W, H, x - 1, y);
        }
      }
    }
  }

  lemma {:induction false} GridFromAreGridLinks(W: nat, H: nat, y: nat, zeros: seq<Num>)
    requires y <= H
    ensures forall e :: e in GridFrom(W, H, y, zeros) ==> IsGridLink(e, W, H, zeros)
    decreases H - y
  {
    if y < H {
      GridFromAreGridLinks(W, H, y + 1, zeros);
      RowLinksAreGridLinks(W, H, y, 0, zeros);
    }
  }

  /**
   * The synthesised grid of a `W × H` mesh has `2(W-1)H + 2W(H-1)` edges. An edge is in the
   * grid iff it joins an in-bounds node to an in-bounds 4-neighbour and carries an all-zero
   * vector of length `vlen`.
   */
  lemma GridEdgesSpec(W: int, H: int, vlen: nat)
    requires W >= 1 && H >= 1
    ensures |GridEdges(W, H, vlen)| == 2 * (W - 1) * H + 2 * W * (H - 1)
    ensures forall e :: e in GridEdges(W, H, vlen) <==> IsGridLink(e, W, H, Zeros(vlen))
    ensures forall e :: e in GridEdges(W, H, vlen) ==> e.value == Zeros(vlen)
  {
    var zeros := Zeros(vlen);
    GridFromSize(W, H, 0, zeros);
    GridFromAreGridLinks(W, H, 0, zeros);
    GridCount(W, H, |GridFrom(W, H, 0, zeros)|);
    forall e | e in GridEdges(W, H, vlen)
      ensures e.value == zeros
    {
      assert IsGridLink(e, W, H, zeros);
      var x: nat, y: nat, nx: nat, ny: nat :|
        InGrid(W, H, x, y) && InGrid(W, H, nx, ny) && Adjacent(x, y, nx, ny)
        && e == Link(W, x, y, nx, ny, zeros);
    }
    forall e | IsGridLink(e, W, H, zeros)
      ensures e in GridEdges(W, H, vlen)
    {
      var x: nat, y: nat, nx: nat, ny: nat :|
        InGrid(W, H, x, y) && InGrid(W, H, nx, ny) && Adjacent(x, y, nx, ny)
        && e == Link(W, x, y, nx, ny, zeros);
      NodeLinksComplete(W, H, x, y, nx, ny, zeros);
      RowLinksHead(W, H, y, x, zeros, e);
      RowLinksSuffix(W, H, y, 0, x, zeros);
      InSuffix(e, RowLinks(W, H, y, x, zeros), RowLinks(W, H, y, 0, zeros));
      GridFromHead(W, H, y, zeros, e);
      GridFromSuffix(W, H, 0, y, zeros);
      InSuffix(e, GridFrom(W, H, y, zeros), GridFrom(W, H, 0, zeros));
    }
  }

  /** Every in-bounds neighbour of an in-bounds node is listed among that node's links. */
  lemma NodeLinksComplete(W: nat, H: nat, x: nat, y: nat, nx: nat, ny: nat, zeros: seq<Num>)
    requires InGrid(W, H, x, y) && InGrid(W, H, nx, ny) && Adjacent(x, y, nx, ny)
    ensures Link(W, x, y, nx, ny, zeros) in NodeLinks(W, H, x, y, zeros)
  {
    if nx == x && ny == y + 1 {
      LinkNorth(W, H, x, y, zeros);
    } else if nx == x + 1 {
      LinkEast(W, H, x, y, zeros);
    } else if nx == x {
      LinkSouth(W, H, x, y, zeros);
    } else {
      LinkWest(W, H, x, y, zeros);
    }
  }

  /** `t` is a suffix of `s`. */
  predicate IsSuffix<T(==)>(t: seq<T>, s: seq<T>) {
    |t| <= |s| && s[|s| - |t|..] == t
  }

  /** A suffix of `b` is a suffix of `a + b`. */
  lemma SuffixOfConcat<T>(a: seq<T>, b: seq<T>, t: seq<T>)
    requires IsSuffix(t, b)
    ensures IsSuffix(t, a + b)
  {
    assert (a + b)[|a| + (|b| - |t|)..] == b[|b| - |t|..];
  }

  /** An element of a suffix is an element of the whole. */
  lemma InSuffix<T>(e: T, t: seq<T>, s: seq<T>)
    requires IsSuffix(t, s) && e in t
    ensures e in s
  {
    assert e in s[|s| - |t|..];
  }

  /** Membership survives concatenation on either side. */
  lemma InConcat<T>(e: T, a: seq<T>, b: seq<T>)
    ensures e in a ==> e in a + b
    ensures e in b ==> e in a + b
  {
  }

  /** The row from any later column `x` is a suffix of the row from column `x0`. */
  lemma {:induction false} RowLinksSuffix(W: nat, H: nat, y: nat, x0: nat, x: nat, zeros: seq<Num>)
    requires y < H && x0 <= x <= W
    ensures IsSuffix(RowLinks(W, H, y, x, zeros), RowLinks(W, H, y, x0, zeros))
    decreases x - x0
  {
    if x0 < x {
      RowLinksSuffix(W, H, y, x0 + 1, x, zeros);
      RowLinksStep(W, H, y, x0, zeros, RowLinks(W, H, y, x, zeros));
    }
  }

  lemma RowLinksStep(W: nat, H: nat, y: nat, x: nat, zeros: seq<Num>, t: seq<Edge>)
    requires y < H && x < W && IsSuffix(t, RowLinks(W, H, y, x + 1, zeros))
    ensures IsSuffix(t, RowLinks(W, H, y, x, zeros))
  {
    SuffixOfConcat(NodeLinks(W, H, x, y, zeros), RowLinks(W, H, y, x + 1, zeros), t);
  }

  /** The rows from any later row `y` are a suffix of the rows from row `y0`. */
  lemma {:induction false} GridFromSuffix(W: nat, H: nat, y0: nat, y: nat, zeros: seq<Num>)
    requires y0 <= y <= H
    ensures IsSuffix(GridFrom(W, H, y, zeros), GridFrom(W, H, y0, zeros))
    decreases y - y0
  {
    if y0 < y {
      GridFromSuffix(W, H, y0 + 1, y, zeros);
      GridFromStep(W, H, y0, zeros, GridFrom(W, H, y, zeros));
    }
  }

  lemma GridFromStep(W: nat, H: nat, y: nat, zeros: seq<Num>, t: seq<Edge>)
    requires y < H && IsSuffix(t, GridFrom(W, H, y + 1, zeros))
    ensures IsSuffix(t, GridFrom(W, H, y, zeros))
  {
    SuffixOfConcat(RowLinks(W, H, y, 0, zeros), GridFrom(W, H, y + 1, zeros), t);
  }

  lemma LinkNorth(W: nat, H: nat, x: nat, y: nat, zeros: seq<Num>)
    requires InGrid(W, H, x, y) && y + 1 < H
    ensures Link(W, x, y, x, y + 1, zeros) in NodeLinks(W, H, x, y, zeros)
  {
  }

  lemma LinkEast(W: nat, H: nat, x: nat, y: nat, zeros: seq<Num>)
    requires InGrid(W, H, x, y) && x + 1 < W
    ensures Link(W, x, y, x + 1, y, zeros) in NodeLinks(W, H, x, y, zeros)
  {
  }

  lemma LinkSouth(W: nat, H: nat, x: nat, y: nat, zeros: seq<Num>)
    requires InGrid(W, H, x, y) && y >= 1
    ensures Link(W, x, y, x, y - 1, zeros) in NodeLinks(W, H, x, y, zeros)
  {
  }

  lemma LinkWest(W: nat, H: nat, x: nat, y: nat, zeros: seq<Num>)
    requires InGrid(W, H, x, y) && x >= 1
    ensures Link(W, x, y, x - 1, y, zeros) in NodeLinks(W, H, x, y, zeros)
  {
  }

  /** A row from column `x` starts with the links of node `(x, y)`. */
  lemma RowLinksHead(W: nat, H: nat, y: nat, x: nat, zeros: seq<Num>, e: Edge)
    requires InGrid(W, H, x, y) && e in NodeLinks(W, H, x, y, zeros)
    ensures e in RowLinks(W, H, y, x, zeros)
  {
    InConcat(e, NodeLinks(W, H, x, y, zeros), RowLinks(W, H, y, x + 1, zeros));
  }

  /** The rows from row `y` start with row `y`. */
  lemma GridFromHead(W: nat, H: nat, y: nat, zeros: seq<Num>, e: Edge)
    requires y < H && e in RowLinks(W, H, y, 0, zeros)
    ensures e in GridFrom(W, H, y, zeros)
  {
    InConcat(e, RowLinks(W, H, y, 0, zeros), GridFrom(W, H, y + 1, zeros));
  }

  lemma GridCount(W: int, H: int, n: int)
    requires W >= 1 && H >= 1
    requires n == H * (2 * W - 2) + W * (2 * H - 2)
    ensures n == 2 * (W - 1) * H + 2 * W * (H - 1)
  {
  }
}
