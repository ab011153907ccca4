/**
 * The filter engine of `FilterMsg`: truth tables built from selected domains, the
 * classification-mode switch, and the aggregation that walks each edge's packed traffic
 * vector in mixed-radix order (transfer type, hop unit, message type, channel) and sums the
 * entries whose four predicates hold.
 */
module FilterMsg {
  import opened Arith
  import opened Wrappers
  import opened Js
  import opened Text
  import opened Classification
  import opened Data

  /** `{ [key: string]: boolean }`; a key that is absent reads `undefined`. */
  type TruthTable = map<string, bool>

  /** `for (item of keys) t[item] = b`. */
  function SetAll(t: TruthTable, keys: seq<string>, b: bool): (r: TruthTable)
    ensures forall k :: k in r <==> k in t || k in keys
    ensures forall k :: k in r ==> r[k] == if k in keys then b else t[k]
    decreases |keys|
  {
    if |keys| == 0 then t else SetAll(t[keys[0] := b], keys[1..], b)
  }

  /** `generateTruthTableViaSelectedDomain(selected, fullDomain)`. */
  function GenerateTruthTable(selected: seq<string>, full: seq<string>): (t: TruthTable)
    ensures forall k :: k in t <==> k in selected || k in full
    ensures forall k :: k in t ==> (t[k] <==> k in selected)
  {
    SetAll(SetAll(map[], full, false), selected, true)
  }

  /** A table read used as a condition: `undefined` and `false` are falsy. For boolean
      tables this is also `table[k] === true`, the channel test. */
  predicate Truthy(t: TruthTable, k: string) {
    k in t && t[k]
  }

  /** `["0", "1", ..., "<n-1>"]`, i.e. `Array.from({ length: n }, (_, i) => `${i}`)`; a
      negative length gives the empty array. */
  function IndexDomain(n: int): (d: seq<string>)
    ensures |d| == if n > 0 then n else 0
    ensures forall i :: 0 <= i < |d| ==> d[i] == NatToString(i)
  {
    if n <= 0 then [] else seq(n, i requires 0 <= i < n => NatToString(i))
  }

  /** The hop domain is fixed at four units, whatever `num_hop_units` is. */
  const NumHopsDomain: seq<string> := IndexDomain(4)

  /** The `${i}` spelling of `i` lies in `IndexDomain(n)` exactly when `i < n`. */
  lemma IndexDomainMembership(n: int, i: nat)
    ensures NatToString(i) in IndexDomain(n) <==> i < n
  {
    if NatToString(i) in IndexDomain(n) {
      var j :| 0 <= j < |IndexDomain(n)| && IndexDomain(n)[j] == NatToString(i);
      NatToStringInjective(i, j);
    }
    if i < n {
      assert IndexDomain(n)[i] == NatToString(i);
    }
  }

  // ---------------------------------------------------------------- state

  datatype Mode = ByMsgGroup | ByDataOrCommand

  datatype FilterState = FilterState(
    groupTable: TruthTable,
    docTable: TruthTable,
    mode: Mode,
    msgTypeTable: TruthTable,
    hopsTable: TruthTable,
    metaInfo: Option<Meta>,
    channelTable: TruthTable)

  /** The constructor: every table all-on except the `Translation` group; no meta yet and an
      empty channel table. */
  function Init(): FilterState {
    FilterState(
      GenerateTruthTable(Without(MsgGroupsDomain, "Translation"), MsgGroupsDomain),
      GenerateTruthTable(DataOrCommandDomain, DataOrCommandDomain),
      ByMsgGroup,
      GenerateTruthTable(TransferTypesInOrder, TransferTypesInOrder),
      GenerateTruthTable(NumHopsDomain, NumHopsDomain),
      None,
      map[])
  }

  /** The `"msg"` signal: `"group"` and `"doc"` choose the mode, anything else is ignored. */
  function Signal(st: FilterState, v: string): (r: FilterState)
    ensures r.mode == (if v == "group" then ByMsgGroup else if v == "doc" then ByDataOrCommand else st.mode)
    ensures r.(mode := st.mode) == st
  {
    if v == "group" then st.(mode := ByMsgGroup)
    else if v == "doc" then st.(mode := ByDataOrCommand)
    else st
  }

  /** The channel count the state knows: `this.metaInfo?.num_channels ?? 1`. */
  function KnownChannels(st: FilterState): int {
    match st.metaInfo
    case None => 1
    case Some(m) => ChannelCount(m)
  }

  /** The lazy initialisation at the top of `decorateData`: only the first call records the
      meta and turns every channel `0 .. NCH-1` on. */
  function EnsureMeta(st: FilterState, meta: Meta): (r: FilterState)
    ensures st.metaInfo.Some? ==> r == st
    ensures st.metaInfo.None? ==>
      && r.metaInfo == Some(meta)
      && r.(metaInfo := None, channelTable := st.channelTable) == st
      && (forall k :: k in r.channelTable <==> k in IndexDomain(ChannelCount(meta)))
      && (forall k :: k in r.channelTable ==> r.channelTable[k])
  {
    if st.metaInfo.Some? then st
    else
      var full := IndexDomain(ChannelCount(meta));
      st.(metaInfo := Some(meta), channelTable := GenerateTruthTable(full, full))
  }

  function UpdateInstTypeMsgGroupDomain(st: FilterState, domain: seq<string>): (r: FilterState)
    ensures r.(groupTable := st.groupTable) == st
    ensures forall k :: Truthy(r.groupTable, k) <==> k in domain
    ensures forall k :: k in r.groupTable <==> k in domain || k in MsgGroupsDomain
  {
    st.(groupTable := GenerateTruthTable(domain, MsgGroupsDomain))
  }

  function UpdateInstTypeDoCDomain(st: FilterState, domain: seq<string>): (r: FilterState)
    ensures r.(docTable := st.docTable) == st
    ensures forall k :: Truthy(r.docTable, k) <==> k in domain
    ensures forall k :: k in r.docTable <==> k in domain || k in DataOrCommandDomain
  {
    st.(docTable := GenerateTruthTable(domain, DataOrCommandDomain))
  }

  function UpdateNoCMsgTypeDomain(st: FilterState, domain: seq<string>): (r: FilterState)
    ensures r.(msgTypeTable := st.msgTypeTable) == st
    ensures forall k :: Truthy(r.msgTypeTable, k) <==> k in domain
    ensures forall k :: k in r.msgTypeTable <==> k in domain || k in TransferTypesInOrder
  {
    st.(msgTypeTable := GenerateTruthTable(domain, TransferTypesInOrder))
  }

  function UpdateNoCNumHopsDomain(st: FilterState, domain: seq<string>): (r: FilterState)
    ensures r.(hopsTable := st.hopsTable) == st
    ensures forall k :: Truthy(r.hopsTable, k) <==> k in domain
    ensures forall k :: k in r.hopsTable <==> k in domain || k in NumHopsDomain
  {
    st.(hopsTable := GenerateTruthTable(domain, NumHopsDomain))
  }

  /** `updateChannelsDomain`: the full domain comes from the meta seen so far, or one channel. */
  function UpdateChannelsDomain(st: FilterState, domain: seq<string>): (r: FilterState)
    ensures r.(channelTable := st.channelTable) == st
    ensures forall k :: Truthy(r.channelTable, k) <==> k in domain
    ensures forall k :: k in r.channelTable <==> k in domain || k in IndexDomain(KnownChannels(st))
  {
    st.(channelTable := GenerateTruthTable(domain, IndexDomain(KnownChannels(st))))
  }

  // ---------------------------------------------------------------- the packed index

  /** A position in the packed vector: transfer type, hop unit, message type, channel. */
  datatype Coord = Coord(tt: int, hop: int, msg: int, ch: int)

  /** The vector index of a position, transfer type outermost and channel innermost. */
  function Encode(c: Coord, hops: int, nch: int): int {
    ((c.tt * hops + c.hop) * NumMsgTypes + c.msg) * nch + c.ch
  }

  lemma DivModOf(x: int, d: int, q: int, r: int)
    requires d > 0 && 0 <= r < d && x == q * d + r
    ensures x / d == q && x % d == r
  {
    var k := q - x / d;
    assert k * d == x % d - r by {
      assert x == (x / d) * d + x % d;
      assert k * d == q * d - (x / d) * d;
    }
    if k >= 1 {
      MulAtLeast(k, d);
      assert false;
    } else if k <= -1 {
      MulAtLeast(-k, d);
      assert false;
    }
  }

  /** The mixed-radix decode of an index. */
  function Decode(idx: nat, hops: int, nch: int): (c: Coord)
    requires hops > 0 && nch > 0
    ensures 0 <= c.tt && 0 <= c.hop < hops && 0 <= c.msg < NumMsgTypes && 0 <= c.ch < nch
    ensures Encode(c, hops, nch) == idx
  {
    var a := idx / nch;
    var b := a / NumMsgTypes;
    var c := Coord(b / hops, b % hops, a % NumMsgTypes, idx % nch);
    assert Encode(c, hops, nch) == idx by {
      QuotRem(idx, nch);
      QuotRem(a, NumMsgTypes);
      QuotRem(b, hops);
    }
    c
  }

  /** Euclidean division of a natural number. */
  lemma QuotRem(x: int, d: int)
    requires x >= 0 && d > 0
    ensures x == (x / d) * d + x % d && 0 <= x % d < d && x / d >= 0
  {
  }

  /** Decoding inverts encoding on in-range positions. */
  lemma DecodeEncode(c: Coord, hops: int, nch: int)
    requires hops > 0 && nch > 0
    requires 0 <= c.tt && 0 <= c.hop < hops && 0 <= c.msg < NumMsgTypes && 0 <= c.ch < nch
    ensures Encode(c, hops, nch) >= 0
    ensures Decode(Encode(c, hops, nch), hops, nch) == c
  {
    var b := c.tt * hops + c.hop;
    var a := b * NumMsgTypes + c.msg;
    var idx := a * nch + c.ch;
    assert b >= 0 && a >= 0 && idx >= 0;
    DivModOf(idx, nch, a, c.ch);
    DivModOf(a, NumMsgTypes, b, c.msg);
    DivModOf(b, hops, c.tt, c.hop);
  }

  /** The number of entries the walk visits: `|TransferTypes| × num_hop_units × |MsgTypes| × NCH`. */
  function Total(hops: nat, nch: nat): nat {
    |TransferTypesInOrder| * hops * NumMsgTypes * nch
  }

  /** Indices below the total decode to a transfer type in range. */
  lemma DecodeBelowTotal(idx: nat, hops: nat, nch: nat)
    requires hops > 0 && nch > 0 && idx < Total(hops, nch)
    ensures Decode(idx, hops, nch).tt < |TransferTypesInOrder|
  {
    var c := Decode(idx, hops, nch);
    if c.tt >= 4 {
      MonotoneEncode(c, hops, nch);
    }
  }

  lemma MonotoneEncode(c: Coord, hops: nat, nch: nat)
    requires hops > 0 && nch > 0 && c.tt >= 4 && c.hop >= 0 && c.msg >= 0 && c.ch >= 0
    ensures Encode(c, hops, nch) >= Encode(Coord(4, 0, 0, 0), hops, nch)
  {
    var b := c.tt * hops + c.hop;
    assert b >= 4 * hops;
    var a := b * NumMsgTypes + c.msg;
    assert a >= 4 * hops * NumMsgTypes;
    assert a * nch >= (4 * hops * NumMsgTypes) * nch;
  }

  // ---------------------------------------------------------------- the predicates

  /** The four tables `aggregate_data` consults. */
  datatype Selection = Selection(
    transfer: TruthTable,
    hops: TruthTable,
    groups: TruthTable,
    channels: TruthTable)

  /** What `decorateData` passes in ByMsgGroup mode. */
  function SelectionOf(st: FilterState): Selection {
    Selection(st.msgTypeTable, st.hopsTable, st.groupTable, st.channelTable)
  }

  /** The message group of the `m`-th message type, `MsgGroupsMap[msg_type]`. */
  function GroupOfType(m: int): (g: string)
    requires 0 <= m < NumMsgTypes
    ensures g == "Read" || g == "Write"
  {
    MsgGroupsMapTotal();
    MsgGroupsMap[MsgTypesInOrder[m]]
  }

  /** `tt_ok && hop_ok && msg_ok && ch_ok` at position `c`. */
  predicate Pass(sel: Selection, c: Coord)
    requires 0 <= c.hop && 0 <= c.msg < NumMsgTypes && 0 <= c.ch
  {
    && 0 <= c.tt < |TransferTypesInOrder|
    && Truthy(sel.transfer, TransferTypesInOrder[c.tt])
    && Truthy(sel.hops, NatToString(c.hop))
    && Truthy(sel.groups, GroupOfType(c.msg))
    && Truthy(sel.channels, NatToString(c.ch))
  }

  /** The index `idx` is selected: its decoded position passes all four predicates. */
  predicate Selected(sel: Selection, hops: int, nch: int, idx: nat) {
    hops > 0 && nch > 0 && Pass(sel, Decode(idx, hops, nch))
  }

  /** The reference weight: `0 + value[i]` over the selected `i < n`, in order. */
  function SelSum(value: seq<Num>, sel: Selection, hops: int, nch: int, n: nat): Num {
    if n == 0 then Int(0)
    else
      var w := SelSum(value, sel, hops, nch, n - 1);
      if Selected(sel, hops, nch, n - 1) then Plus(w, Index(value, n - 1)) else w
  }

  /** The plain running sum `0 + value[0] + … + value[n-1]`; `undefined` past the end makes it NaN. */
  function Sum(value: seq<Num>, n: nat): Num {
    if n == 0 then Int(0) else Plus(Sum(value, n - 1), Index(value, n - 1))
  }

  /** `num_hop_units` and `num_channels ?? 1` as loop bounds: a count below 1 runs no iterations. */
  function Count(x: int): nat {
    if x > 0 then x else 0
  }

  /** The weight `aggregate_data` computes for a vector under `meta`. */
  function Weight(value: seq<Num>, sel: Selection, meta: Meta): Num {
    var hops := Count(meta.numHopUnits);
    var nch := Count(ChannelCount(meta));
    SelSum(value, sel, hops, nch, Total(hops, nch))
  }

  // ---------------------------------------------------------------- aggregate_data

  /** The four nested loops for one edge; `index` is the final value of the running index. */
  method EdgeWeight(value: seq<Num>, sel: Selection, hops: nat, nch: nat) returns (weight: Num, index: nat)
    ensures index == Total(hops, nch)
    ensures weight == SelSum(value, sel, hops, nch, index)
  {
    weight := Int(0);
    index := 0;
    var tt := 0;
    while tt < |TransferTypesInOrder|
      invariant 0 <= tt <= |TransferTypesInOrder|
      invariant index == Encode(Coord(tt, 0, 0, 0), hops, nch)
      invariant weight == SelSum(value, sel, hops, nch, index)
    {
      var ttOk := Truthy(sel.transfer, TransferTypesInOrder[tt]);
      var hop := 0;
      while hop < hops
        invariant 0 <= hop <= hops
        invariant index == Encode(Coord(tt, hop, 0, 0), hops, nch)
        invariant weight == SelSum(value, sel, hops, nch, index)
      {
        var hopOk := Truthy(sel.hops, NatToString(hop));
        var m := 0;
        while m < NumMsgTypes
          invariant 0 <= m <= NumMsgTypes
          invariant index == Encode(Coord(tt, hop, m, 0), hops, nch)
          invariant weight == SelSum(value, sel, hops, nch, index)
        {
          var msgOk := Truthy(sel.groups, GroupOfType(m));
          var base := index;
          var ch := 0;
          while ch < nch
            invariant 0 <= ch <= nch
            invariant index == base + ch
            invariant weight == SelSum(value, sel, hops, nch, index)
          {
            var chOk := Truthy(sel.channels, NatToString(ch));
            SelSumStep(value, sel, hops, nch, Coord(tt, hop, m, ch), index);
            assert (ttOk && hopOk && msgOk && chOk) == Pass(sel, Coord(tt, hop, m, ch));
            if ttOk && hopOk && msgOk && chOk {
              weight := Plus(weight, Index(value, index));
            }
            index := index + 1;
            ch := ch + 1;
          }
          NextMsg(tt, hop, m, hops, nch);
          m := m + 1;
        }
        NextHop(tt, hop, hops, nch);
        hop := hop + 1;
      }
      NextTransfer(tt, hops, nch);
      tt := tt + 1;
    }
  }

  /** One step of the innermost loop: index `i` of position `c` is added exactly when `c` passes. */
  lemma SelSumStep(value: seq<Num>, sel: Selection, hops: nat, nch: nat, c: Coord, i: nat)
    requires 0 <= c.tt < |TransferTypesInOrder| && 0 <= c.hop < hops && 0 <= c.msg < NumMsgTypes && 0 <= c.ch < nch
    requires i == Encode(Coord(c.tt, c.hop, c.msg, 0), hops, nch) + c.ch
    ensures SelSum(value, sel, hops, nch, i + 1)
      == if Pass(sel, c) then Plus(SelSum(value, sel, hops, nch, i), Index(value, i))
         else SelSum(value, sel, hops, nch, i)
  {
    assert i == Encode(c, hops, nch);
    DecodeEncode(c, hops, nch);
  }

  lemma NextMsg(tt: int, hop: int, m: int, hops: int, nch: int)
    ensures Encode(Coord(tt, hop, m, 0), hops, nch) + nch == Encode(Coord(tt, hop, m + 1, 0), hops, nch)
  {
    var x := (tt * hops + hop) * NumMsgTypes + m;
    assert (x + 1) * nch == x * nch + nch;
  }

  lemma NextHop(tt: int, hop: int, hops: int, nch: int)
    ensures Encode(Coord(tt, hop, NumMsgTypes, 0), hops, nch) == Encode(Coord(tt, hop + 1, 0, 0), hops, nch)
  {
  }

  lemma NextTransfer(tt: int, hops: int, nch: int)
    ensures Encode(Coord(tt, hops, 0, 0), hops, nch) == Encode(Coord(tt + 1, 0, 0, 0), hops, nch)
  {
    assert tt * hops + hops == (tt + 1) * hops;
  }

  /** What `aggregate_data` pushes for an edge. */
  datatype EdgeDisplay = EdgeDisplay(source: string, target: string, detail: string, weight: Num, edgeLabel: string)

  /** `aggregate_data`: one record per edge, in order, with the edge's endpoints and detail,
      its weight and an empty label. */
  method AggregateData(edges: seq<Edge>, sel: Selection, meta: Meta) returns (out: seq<EdgeDisplay>)
    ensures |out| == |edges|
    ensures forall i :: 0 <= i < |edges| ==>
      out[i] == EdgeDisplay(edges[i].source, edges[i].target, edges[i].detail, Weight(edges[i].value, sel, meta), "")
  {
    var hops := Count(meta.numHopUnits);
    var nch := Count(ChannelCount(meta));
    out := [];
    var i := 0;
    while i < |edges|
      invariant 0 <= i <= |edges|
      invariant |out| == i
      invariant forall k :: 0 <= k < i ==>
        out[k] == EdgeDisplay(edges[k].source, edges[k].target, edges[k].detail, Weight(edges[k].value, sel, meta), "")
    {
      var weight, _ := EdgeWeight(edges[i].value, sel, hops, nch);
      out := out + [EdgeDisplay(edges[i].source, edges[i].target, edges[i].detail, weight, "")];
      i := i + 1;
    }
  }

  /**
   * `decorateData(ref, d)`: the lazy meta initialisation, then in ByMsgGroup mode the
   * aggregation appended to `shown`; in ByDataOrCommand mode nothing is appended.
   */
  method DecorateData(st: FilterState, meta: Meta, edges: seq<Edge>, shown: seq<EdgeDisplay>)
    returns (st': FilterState, shown': seq<EdgeDisplay>)
    ensures st' == EnsureMeta(st, meta)
    ensures st.mode == ByDataOrCommand ==> shown' == shown
    ensures st.mode == ByMsgGroup ==>
      && |shown'| == |shown| + |edges|
      && shown'[..|shown|] == shown
      && forall i :: 0 <= i < |edges| ==>
        shown'[|shown| + i] == EdgeDisplay(edges[i].source, edges[i].target, edges[i].detail,
                                           Weight(edges[i].value, SelectionOf(st'), meta), "")
  {
    st' := EnsureMeta(st, meta);
    if st'.mode == ByMsgGroup {
      var out := AggregateData(edges, SelectionOf(st'), meta);
      shown' := shown + out;
    } else {
      shown' := shown;
    }
  }

  // ---------------------------------------------------------------- properties

  /** The constructor's tables: `Translation` off and every other group on; every
      data-or-command tag, transfer type and hop `"0" .. "3"` on; mode ByMsgGroup. */
  lemma InitDefaults()
    ensures Init().mode == ByMsgGroup && Init().metaInfo.None? && Init().channelTable == map[]
    ensures forall g :: g in MsgGroupsDomain ==> (Truthy(Init().groupTable, g) <==> g != "Translation")
    ensures forall k :: k in DataOrCommandDomain ==> Truthy(Init().docTable, k)
    ensures forall k :: k in TransferTypesInOrder ==> Truthy(Init().msgTypeTable, k)
    ensures forall h: nat :: Truthy(Init().hopsTable, NatToString(h)) <==> h < 4
  {
    forall h: nat
      ensures Truthy(Init().hopsTable, NatToString(h)) <==> h < 4
    {
      IndexDomainMembership(4, h);
    }
  }

  /** With every predicate true on the first `n` indices, the weight is the plain running sum. */
  lemma {:induction false} AllSelectedIsSum(value: seq<Num>, sel: Selection, hops: int, nch: int, n: nat)
    requires forall i: nat :: i < n ==> Selected(sel, hops, nch, i)
    ensures SelSum(value, sel, hops, nch, n) == Sum(value, n)
  {
    if n > 0 {
      AllSelectedIsSum(value, sel, hops, nch, n - 1);
    }
  }

  /** With nothing selected the weight stays 0. */
  lemma {:induction false} NoneSelectedIsZero(value: seq<Num>, sel: Selection, hops: int, nch: int, n: nat)
    requires forall i: nat :: i < n ==> !Selected(sel, hops, nch, i)
    ensures SelSum(value, sel, hops, nch, n) == Int(0)
  {
    if n > 0 {
      NoneSelectedIsZero(value, sel, hops, nch, n - 1);
    }
  }

  /** The running sum of integers is an integer; reading past the end makes it NaN. */
  lemma {:induction false} SumDefined(value: seq<Num>, n: nat)
    ensures Sum(value, n).Int? <==> n <= |value| && forall j :: 0 <= j < n ==> value[j].Int?
  {
    if n > 0 {
      SumDefined(value, n - 1);
    }
  }

  /**
   * The first `decorateData` after construction selects every entry of a vector with at
   * most four hop units, so its weight is the running sum over all
   * `4 × num_hop_units × |MsgTypes| × NCH` entries.
   */
  lemma FirstDecorateSelectsAll(meta: Meta, value: seq<Num>)
    requires meta.numHopUnits <= 4
    ensures Weight(value, SelectionOf(EnsureMeta(Init(), meta)), meta)
         == Sum(value, Total(Count(meta.numHopUnits), Count(ChannelCount(meta))))
  {
    var sel := SelectionOf(EnsureMeta(Init(), meta));
    var hops := Count(meta.numHopUnits);
    var nch := Count(ChannelCount(meta));
    forall i: nat | i < Total(hops, nch)
      ensures Selected(sel, hops, nch, i)
    {
      FirstDecorateSelects(meta, i);
    }
    AllSelectedIsSum(value, sel, hops, nch, Total(hops, nch));
  }

  lemma FirstDecorateSelects(meta: Meta, i: nat)
    requires meta.numHopUnits <= 4
    requires i < Total(Count(meta.numHopUnits), Count(ChannelCount(meta)))
    ensures Selected(SelectionOf(EnsureMeta(Init(), meta)), Count(meta.numHopUnits), Count(ChannelCount(meta)), i)
  {
    var sel := SelectionOf(EnsureMeta(Init(), meta));
    var hops := Count(meta.numHopUnits);
    var nch := Count(ChannelCount(meta));
    assert hops > 0 && nch > 0;
    var c := Decode(i, hops, nch);
    DecodeBelowTotal(i, hops, nch);
    FirstSelectionTables(meta, c.ch);
    InitTransferOn(c.tt);
    InitHopOn(c.hop);
    InitGroupOn(c.msg);
    assert Truthy(sel.channels, NatToString(c.ch));
  }

  /** The first `decorateData` sees the constructor's tables and an all-on channel table. */
  lemma FirstSelectionTables(meta: Meta, ch: nat)
    ensures var sel := SelectionOf(EnsureMeta(Init(), meta));
      && sel.transfer == Init().msgTypeTable
      && sel.hops == Init().hopsTable
      && sel.groups == Init().groupTable
      && (Truthy(sel.channels, NatToString(ch)) <==> ch < ChannelCount(meta))
  {
    IndexDomainMembership(ChannelCount(meta), ch);
  }

  lemma InitTransferOn(tt: int)
    requires 0 <= tt < |TransferTypesInOrder|
    ensures Truthy(Init().msgTypeTable, TransferTypesInOrder[tt])
  {
  }

  lemma InitHopOn(hop: nat)
    requires hop < 4
    ensures Truthy(Init().hopsTable, NatToString(hop))
  {
    IndexDomainMembership(4, hop);
  }

  lemma InitGroupOn(m: int)
    requires 0 <= m < NumMsgTypes
    ensures Truthy(Init().groupTable, GroupOfType(m))
  {
    var g := GroupOfType(m);
    assert g in MsgGroupsDomain && g != "Translation";
  }

  /** Under the constructor's hop table, an entry of hop unit 4 or more is never selected. */
  lemma HopsBeyondDomainFiltered(st: FilterState, hops: int, nch: int, idx: nat)
    requires st.hopsTable == Init().hopsTable
    requires hops > 0 && nch > 0 && Decode(idx, hops, nch).hop >= 4
    ensures !Selected(SelectionOf(st), hops, nch, idx)
  {
    InitDefaults();
  }

  /** A channel selection made before the first `decorateData` is overwritten by it. */
  lemma EarlyChannelUpdateIsLost(st: FilterState, domain: seq<string>, meta: Meta)
    requires st.metaInfo.None?
    ensures EnsureMeta(UpdateChannelsDomain(st, domain), meta) == EnsureMeta(st, meta)
  {
  }
}
