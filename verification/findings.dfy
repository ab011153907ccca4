/**
 * Two places where `localport.ts` sizes a packed vector without its channel factor, each
 * shown on the code as written and paired with the corrected definition and the property
 * the rest of the program expects of it.
 *
 * A vector packs `4 × num_hop_units × |MsgTypes| × NCH` entries (`filtermsg.ts` walks that
 * many); `range` subtracts and `edgeEmptyData` synthesises only `4 × num_hop_units ×
 * |MsgTypes|` of them.
 */
module Findings {
  import opened Arith
  import opened Wrappers
  import opened Js
  import opened Classification
  import opened FileLoader
  import opened Data
  import opened LocalPort
  import opened FilterMsg

  /** The packed length of one edge's vector: `VectorStride(meta)` entries per channel. */
  function FullStride(meta: Meta): int {
    VectorStride(meta) * ChannelCount(meta)
  }

  /** Where the run has at least one hop unit and one channel, the vector `aggregate_data`
      walks is exactly `FullStride(meta)` long. */
  lemma FullStrideIsTotal(meta: Meta)
    requires meta.numHopUnits >= 1 && ChannelCount(meta) >= 1
    ensures FullStride(meta) == Total(Count(meta.numHopUnits), Count(ChannelCount(meta)))
    ensures VectorStride(meta) >= 1
  {
    TransferTypesCount();
    var h, c := meta.numHopUnits, ChannelCount(meta);
    assert FullStride(meta) == 4 * h * NumMsgTypes * c;
    assert Total(h, c) == 4 * h * NumMsgTypes * c;
  }

  /** With two or more channels the per-channel stride falls short of the packed length. */
  lemma StrideShort(meta: Meta)
    requires meta.numHopUnits >= 1 && ChannelCount(meta) >= 2
    ensures 1 <= VectorStride(meta) < FullStride(meta)
  {
    TransferTypesCount();
    var v, c := VectorStride(meta), ChannelCount(meta);
    assert v == 4 * meta.numHopUnits * 4;
    assert v * c >= v * 2 by { MulMonotone(v, 2, c); }
  }

  // ---------------------------------------------------------------- range as written

  /**
   * As written: with NCH ≥ 2, an entry at index `4 × num_hop_units × |MsgTypes|` or beyond in a
   * `range(start, end)` window keeps the cumulative value of slice `end - 1`. Since the channel
   * is the innermost coordinate, these are the trailing transfer types' entries in every channel.
   * Wherever slice `start - 1` had traffic there, the window differs from the difference of the
   * snapshots.
   */
  lemma RangeLeavesTrailingEntriesCumulative(l: Loader, meta: Meta, parse: Parser, start: int, end: int,
                                           ends: seq<Edge>, starts: seq<Edge>)
    requires 0 < start < end <= meta.elapse
    requires meta.numHopUnits >= 1 && ChannelCount(meta) >= 2
    requires ReadSlice(l, parse, end - 1) == Some(ends)
    requires ReadSlice(l, parse, start - 1) == Some(starts)
    requires SameShape(ends, starts, FullStride(meta))
    ensures Range(l, meta, parse, start, end).Ok?
    ensures var d := Range(l, meta, parse, start, end).value;
      forall i, j :: 0 <= i < |ends| && VectorStride(meta) <= j < FullStride(meta) ==>
        && d.edges[i].value[j] == ends[i].value[j]
        && (starts[i].value[j] != Int(0) ==>
              d.edges[i].value[j] != Int(ends[i].value[j].i - starts[i].value[j].i))
  {
    StrideShort(meta);
    RangeSubtracts(l, meta, parse, start, end, ends, starts);
  }

  // ---------------------------------------------------------------- range corrected

  /** `range` with the full packed length as the stride (and as the synthesised length). */
  function RangeCorrected(l: Loader, meta: Meta, parse: Parser, start: int, end: int): (r: Result<Decoded, RangeError>)
    ensures r == Err(ExceededRange) <==> Range(l, meta, parse, start, end) == Err(ExceededRange)
    ensures r == Err(ExceededRange) <==> !(start == 0 && end == 0) && (end > meta.elapse || start >= end || start < 0)
  {
    RangeWith(l, meta, parse, start, end, FullStride(meta))
  }

  /**
   * Corrected: when both snapshots exist with vectors of the full packed length, every entry
   * of the window, in every channel, is the difference of the two cumulative snapshots.
   */
  lemma CorrectedPrefixSumLaw(l: Loader, meta: Meta, parse: Parser, start: int, end: int,
                              ends: seq<Edge>, starts: seq<Edge>)
    requires 0 < start < end <= meta.elapse
    requires HasEdgeSlice(l, end - 1) && HasEdgeSlice(l, start - 1)
    requires parse(l.bySlice[end - 1].text) == Some(ends)
    requires parse(l.bySlice[start - 1].text) == Some(starts)
    requires SameShape(ends, starts, FullStride(meta))
    ensures RangeCorrected(l, meta, parse, start, end).Ok?
    ensures var d := RangeCorrected(l, meta, parse, start, end).value;
      && |d.edges| == |ends|
      && forall i :: 0 <= i < |ends| ==>
        && |d.edges[i].value| == |ends[i].value|
        && forall j :: 0 <= j < |ends[i].value| ==>
          d.edges[i].value[j] == Int(ends[i].value[j].i - starts[i].value[j].i)
  {
    PrefixSumLawWith(l, meta, parse, start, end, FullStride(meta), ends, starts);
    RangeWithSubtracts(l, meta, parse, start, end, FullStride(meta), ends, starts);
  }

  // ---------------------------------------------------------------- synthesised grid

  /** No template: slice 0 is missing, does not parse, or parses to an empty array. */
  predicate NoTemplate(l: Loader, parse: Parser) {
    var t := ReadSlice(l, parse, 0);
    !(t.Some? && |t.value| > 0)
  }

  /**
   * As written: without a slice-0 template and with NCH ≥ 2, every synthesised edge's
   * weight under the first `decorateData` is NaN, because `aggregate_data` reads past the
   * end of its all-zero vector.
   */
  lemma SynthesisedGridWeightIsNaN(l: Loader, meta: Meta, parse: Parser)
    requires NoTemplate(l, parse)
    requires 1 <= meta.numHopUnits <= 4 && ChannelCount(meta) >= 2
    ensures EdgeEmptyData(l, meta, parse).Ok?
    ensures forall e :: e in EdgeEmptyData(l, meta, parse).value.edges ==>
      Weight(e.value, SelectionOf(EnsureMeta(Init(), meta)), meta) == NaN
  {
    StrideShort(meta);
    FullStrideIsTotal(meta);
    var es := EdgeEmptyData(l, meta, parse).value.edges;
    var total := Total(Count(meta.numHopUnits), Count(ChannelCount(meta)));
    forall e | e in es
      ensures Weight(e.value, SelectionOf(EnsureMeta(Init(), meta)), meta) == NaN
    {
      GridValues(meta.width, meta.height, VectorStride(meta));
      FirstDecorateSelectsAll(meta, e.value);
      SumDefined(e.value, total);
    }
  }

  /** Every synthesised vector is `vlen` zeros. */
  lemma GridValues(W: int, H: int, vlen: nat)
    ensures forall e :: e in GridEdges(W, H, vlen) ==> e.value == Zeros(vlen)
  {
    if W >= 1 && H >= 1 {
      GridEdgesSpec(W, H, vlen);
    }
  }

  /** `edgeEmptyData` with the full packed length for the synthesised vectors. */
  function EmptyDataCorrected(l: Loader, meta: Meta, parse: Parser): (r: Result<Decoded, RangeError>)
    ensures NoTemplate(l, parse) && FullStride(meta) >= 0 ==>
      r.Ok? && forall e :: e in r.value.edges ==> e.value == Zeros(FullStride(meta))
    ensures !NoTemplate(l, parse) ==> r == EdgeEmptyData(l, meta, parse)
  {
    GridValues(meta.width, meta.height, if FullStride(meta) >= 0 then FullStride(meta) else 0);
    EmptyDataWith(l, meta, parse, FullStride(meta))
  }

  /** The running sum over zeros is zero. */
  lemma {:induction false} SumOfZeros(v: seq<Num>, n: nat)
    requires n <= |v| && forall j :: 0 <= j < n ==> v[j] == Int(0)
    ensures Sum(v, n).Int? && Sum(v, n).i == 0
  {
    if n > 0 {
      SumOfZeros(v, n - 1);
    }
  }

  /**
   * Corrected: without a template, every synthesised edge weighs 0 under the first
   * `decorateData`, which is what an empty initial view is meant to show.
   */
  lemma CorrectedGridWeightIsZero(l: Loader, meta: Meta, parse: Parser)
    requires NoTemplate(l, parse)
    requires 1 <= meta.numHopUnits <= 4 && ChannelCount(meta) >= 1
    ensures EmptyDataCorrected(l, meta, parse).Ok?
    ensures forall e :: e in EmptyDataCorrected(l, meta, parse).value.edges ==>
      Weight(e.value, SelectionOf(EnsureMeta(Init(), meta)), meta) == Int(0)
  {
    FullStrideIsTotal(meta);
    var es := EmptyDataCorrected(l, meta, parse).value.edges;
    var total := Total(Count(meta.numHopUnits), Count(ChannelCount(meta)));
    forall e | e in es
      ensures Weight(e.value, SelectionOf(EnsureMeta(Init(), meta)), meta) == Int(0)
    {
      FirstDecorateSelectsAll(meta, e.value);
      SumOfZeros(e.value, total);
    }
  }
}
