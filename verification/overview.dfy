/**
 * The overview (`flat.json`) as `LocalDataPort` serves it: `init` sorts the records by id,
 * then `densifyOverview` completes them to at least one record per message type for every
 * slice in `[0, elapse)`, inserting zero-count records where a slice or a type is missing,
 * and sorts the result by id.
 */
module Overview {
  import opened Sorting
  import opened Classification
  import opened Data

  /** The comparator `(a, b) => a.id - b.id`. */
  function IdKey(r: FlatRecord): SortKey {
    SortKey(r.id, "")
  }

  /** `bySlice.get(s) ?? []`: the records with id `s`, in input order. */
  function Have(flat: seq<FlatRecord>, s: int): seq<FlatRecord> {
    WithKey(flat, IdKey, SortKey(s, ""))
  }

  /** `present.has(mt)` for `present = new Set(have.map((r) => r.type))`. */
  predicate Present(have: seq<FlatRecord>, mt: string) {
    exists j :: 0 <= j < |have| && have[j].msgType == mt
  }

  /**
   * `zeroOf(sid, msgType)`: a zero-count record classified through the two maps. A known
   * type takes the group and tag its entries in the two object literals give it; an
   * unknown one takes the `?? "Others"` and `?? "C"` defaults.
   */
  function ZeroOf(s: int, mt: string): (r: FlatRecord)
    ensures r.id == s && r.msgType == mt
    ensures r.count == 0 && r.maxFlits == 0 && r.hopUnits == 0 && r.transferType == 1
    ensures mt in MsgTypes ==> (r.group == "Read" || r.group == "Write") && r.doc in DataOrCommandDomain
    ensures mt in MsgTypes ==> (mt, r.group) in MsgGroupsEntries && (mt, r.doc) in DataOrCommandEntries
    ensures mt in MsgGroupsMap ==> r.group == MsgGroupsMap[mt]
    ensures mt in DataOrCommandMap ==> r.doc == DataOrCommandMap[mt]
    ensures mt !in MsgTypes ==> r.group == "Others" && r.doc == "C"
  {
    MsgGroupsMapTotal();
    DataOrCommandMapTotal();
    ToMapEntry(MsgGroupsEntries, mt);
    ToMapEntry(DataOrCommandEntries, mt);
    FlatRecord(s, mt,
      if mt in MsgGroupsMap then MsgGroupsMap[mt] else "Others",
      if mt in DataOrCommandMap then DataOrCommandMap[mt] else "C",
      0, 0, 0, 1)
  }

  /** The zeros for the types of `types` that `have` lacks, in the order of `types`. */
  function MissingZeros(s: int, have: seq<FlatRecord>, types: seq<string>): (z: seq<FlatRecord>)
    ensures forall r :: r in z ==> r.msgType in types && !Present(have, r.msgType) && r == ZeroOf(s, r.msgType)
  {
    if |types| == 0 then []
    else (if Present(have, types[0]) then [] else [ZeroOf(s, types[0])]) + MissingZeros(s, have, types[1..])
  }

  /** A zero record for every type of `types`, in order. */
  function AllZeros(s: int, types: seq<string>): seq<FlatRecord> {
    seq(|types|, i requires 0 <= i < |types| => ZeroOf(s, types[i]))
  }

  /** What one iteration of the slice loop pushes for slice `s`. */
  function SliceBlock(flat: seq<FlatRecord>, s: int): seq<FlatRecord> {
    var have := Have(flat, s);
    if |have| == 0 then AllZeros(s, MsgTypes) else have + MissingZeros(s, have, MsgTypes)
  }

  /** The slice loop from `s` up to `elapse`. */
  function DenseFrom(flat: seq<FlatRecord>, s: int, elapse: int): seq<FlatRecord>
    decreases elapse - s
  {
    if s >= elapse then [] else SliceBlock(flat, s) + DenseFrom(flat, s + 1, elapse)
  }

  /** `densifyOverview` on records `flat` for a run of `elapse` slices. */
  function DensifyOverview(flat: seq<FlatRecord>, elapse: int): seq<FlatRecord> {
    Sort(DenseFrom(flat, 0, elapse), IdKey)
  }

  /** The overview after `init`: sorted by id, then densified. */
  function LoadOverview(flat: seq<FlatRecord>, elapse: int): seq<FlatRecord> {
    DensifyOverview(Sort(flat, IdKey), elapse)
  }

  // ---------------------------------------------------------------- one slice

  /** The "entire slice missing" branch pushes what the other branch would push for it. */
  lemma {:induction false} EmptySliceBranch(s: int, types: seq<string>)
    ensures MissingZeros(s, [], types) == AllZeros(s, types)
  {
    if |types| > 0 {
      EmptySliceBranch(s, types[1..]);
      assert !Present([], types[0]);
      AllZerosCons(s, types);
    }
  }

  lemma AllZerosCons(s: int, types: seq<string>)
    requires |types| > 0
    ensures AllZeros(s, types) == [ZeroOf(s, types[0])] + AllZeros(s, types[1..])
  {
    var a, b := AllZeros(s, types), [ZeroOf(s, types[0])] + AllZeros(s, types[1..]);
    assert |a| == |b|;
    forall i | 0 <= i < |a|
      ensures a[i] == b[i]
    {
      if i > 0 {
        assert b[i] == AllZeros(s, types[1..])[i - 1];
      }
    }
  }

  lemma {:induction false} MissingZerosHas(s: int, have: seq<FlatRecord>, types: seq<string>, mt: string)
    requires mt in types && !Present(have, mt)
    ensures ZeroOf(s, mt) in MissingZeros(s, have, types)
  {
    if types[0] != mt {
      MissingZerosHas(s, have, types[1..], mt);
    }
  }

  lemma {:induction false} MissingZerosNone(s: int, have: seq<FlatRecord>, types: seq<string>)
    requires forall mt :: mt in types ==> Present(have, mt)
    ensures MissingZeros(s, have, types) == []
  {
    if |types| > 0 {
      MissingZerosNone(s, have, types[1..]);
    }
  }

  /**
   * Slice `s`'s block: every record has id `s`; it starts with the input's records of that
   * id, in order; every message type occurs; and each record is an input record or the zero
   * record of its type.
   */
  lemma SliceBlockSpec(flat: seq<FlatRecord>, s: int)
    ensures forall r :: r in SliceBlock(flat, s) ==> r.id == s
    ensures Have(flat, s) <= SliceBlock(flat, s)
    ensures forall mt :: mt in MsgTypes ==> Present(SliceBlock(flat, s), mt)
    ensures forall r :: r in SliceBlock(flat, s) ==> r in flat || r == ZeroOf(s, r.msgType)
  {
    SliceBlockShape(flat, s);
    SliceBlockMembers(flat, s);
    SliceBlockCovers(flat, s);
  }

  /** Both branches of the loop body push the slice's records followed by the missing zeros. */
  lemma SliceBlockShape(flat: seq<FlatRecord>, s: int)
    ensures SliceBlock(flat, s) == Have(flat, s) + MissingZeros(s, Have(flat, s), MsgTypes)
  {
    if |Have(flat, s)| == 0 {
      EmptySliceBranch(s, MsgTypes);
    }
  }

  lemma SliceBlockMembers(flat: seq<FlatRecord>, s: int)
    ensures forall r :: r in SliceBlock(flat, s) ==> r.id == s && (r in flat || r == ZeroOf(s, r.msgType))
  {
    SliceBlockShape(flat, s);
    WithKeyMembership(flat, IdKey, SortKey(s, ""));
  }

  lemma SliceBlockCovers(flat: seq<FlatRecord>, s: int)
    ensures forall mt :: mt in MsgTypes ==> Present(SliceBlock(flat, s), mt)
  {
    var have := Have(flat, s);
    var z := MissingZeros(s, have, MsgTypes);
    SliceBlockShape(flat, s);
    forall mt | mt in MsgTypes
      ensures Present(have + z, mt)
    {
      if !Present(have, mt) {
        MissingZerosHas(s, have, MsgTypes, mt);
      }
      PresentAppend(have, z, mt);
    }
  }

  /** A type present on either side of a concatenation is present in it. */
  lemma PresentAppend(a: seq<FlatRecord>, b: seq<FlatRecord>, mt: string)
    requires Present(a, mt) || exists r :: r in b && r.msgType == mt
    ensures Present(a + b, mt)
  {
    if Present(a, mt) {
      var j :| 0 <= j < |a| && a[j].msgType == mt;
      assert (a + b)[j] == a[j];
    } else {
      var r :| r in b && r.msgType == mt;
      var j :| 0 <= j < |b| && b[j] == r;
      assert (a + b)[|a| + j] == b[j];
    }
  }

  // ---------------------------------------------------------------- the slice loop

  predicate IdsAscending(xs: seq<FlatRecord>) {
    forall i, j :: 0 <= i < j < |xs| ==> xs[i].id <= xs[j].id
  }

  lemma AscendingIsSorted(xs: seq<FlatRecord>)
    requires IdsAscending(xs)
    ensures SortedBy(xs, IdKey)
  {
  }

  /** The loop emits ids in `[s, elapse)`, in ascending order. */
  lemma {:induction false} DenseFromAscending(flat: seq<FlatRecord>, s: int, elapse: int)
    ensures forall r :: r in DenseFrom(flat, s, elapse) ==> s <= r.id < elapse
    ensures IdsAscending(DenseFrom(flat, s, elapse))
    decreases elapse - s
  {
    if s < elapse {
      DenseFromAscending(flat, s + 1, elapse);
      SliceBlockSpec(flat, s);
      var b := SliceBlock(flat, s);
      var rest := DenseFrom(flat, s + 1, elapse);
      var d := b + rest;
      forall i, j | 0 <= i < j < |d|
        ensures d[i].id <= d[j].id
      {
        if j < |b| {
          assert d[i] in b && d[j] in b;
        } else if i < |b| {
          assert d[i] in b && d[j] == rest[j - |b|] && rest[j - |b|] in rest;
        } else {
          assert d[i] == rest[i - |b|] && d[j] == rest[j - |b|];
        }
      }
    }
  }

  /** The records of the loop's output with id `t` are slice `t`'s block, or none. */
  lemma {:induction false} DenseFromWithId(flat: seq<FlatRecord>, s: int, elapse: int, t: int)
    ensures Have(DenseFrom(flat, s, elapse), t) == if s <= t < elapse then SliceBlock(flat, t) else []
    decreases elapse - s
  {
    if s < elapse {
      DenseFromWithId(flat, s + 1, elapse, t);
      var b := SliceBlock(flat, s);
      SliceBlockSpec(flat, s);
      WithKeyAppend(b, DenseFrom(flat, s + 1, elapse), IdKey, SortKey(t, ""));
      if t == s {
        WithKeyAll(b, IdKey, SortKey(t, ""));
      } else {
        WithKeyNone(b, IdKey, SortKey(t, ""));
      }
    }
  }

  /** The loop's output depends on the input only through the per-slice blocks. */
  lemma {:induction false} DenseFromCongruent(a: seq<FlatRecord>, b: seq<FlatRecord>, s: int, elapse: int)
    requires forall t :: s <= t < elapse ==> SliceBlock(a, t) == SliceBlock(b, t)
    ensures DenseFrom(a, s, elapse) == DenseFrom(b, s, elapse)
    decreases elapse - s
  {
    if s < elapse {
      DenseFromCongruent(a, b, s + 1, elapse);
    }
  }

  // ---------------------------------------------------------------- densifyOverview

  /** The final sort finds the loop's output already in id order and changes nothing. */
  lemma DensifySortIsIdentity(flat: seq<FlatRecord>, elapse: int)
    ensures DensifyOverview(flat, elapse) == DenseFrom(flat, 0, elapse)
  {
    DenseFromAscending(flat, 0, elapse);
    AscendingIsSorted(DenseFrom(flat, 0, elapse));
    SortOfSorted(DenseFrom(flat, 0, elapse), IdKey);
  }

  /**
   * `densifyOverview`: ids lie in `[0, elapse)` and ascend; the records of slice `t` are the
   * input's records of slice `t`, in order, followed by the zeros of the missing types; so
   * every input record in range is kept, every record out of range is dropped, every message
   * type occurs in every slice, and nothing else is added.
   */
  lemma DensifyOverviewSpec(flat: seq<FlatRecord>, elapse: int)
    ensures var d := DensifyOverview(flat, elapse);
      && SortedBy(d, IdKey)
      && (forall r :: r in d ==> 0 <= r.id < elapse)
      && (forall t :: 0 <= t < elapse ==> Have(flat, t) <= Have(d, t))
      && (forall r :: r in flat && 0 <= r.id < elapse ==> r in d)
      && (forall r :: r in d ==> r in flat || r == ZeroOf(r.id, r.msgType))
      && (forall t, mt :: 0 <= t < elapse && mt in MsgTypes ==> Present(Have(d, t), mt))
  {
    var d := DensifyOverview(flat, elapse);
    DensifySortIsIdentity(flat, elapse);
    DenseFromAscending(flat, 0, elapse);
    AscendingIsSorted(d);
    DensifySlices(flat, elapse);
    DensifyKeepsInRange(flat, elapse);
    DensifyAddsOnlyZeros(flat, elapse);
  }

  lemma DensifySlices(flat: seq<FlatRecord>, elapse: int)
    ensures var d := DensifyOverview(flat, elapse);
      forall t :: 0 <= t < elapse ==>
        Have(flat, t) <= Have(d, t) && forall mt :: mt in MsgTypes ==> Present(Have(d, t), mt)
  {
    DensifySortIsIdentity(flat, elapse);
    forall t | 0 <= t < elapse
      ensures Have(flat, t) <= Have(DenseFrom(flat, 0, elapse), t)
      ensures forall mt :: mt in MsgTypes ==> Present(Have(DenseFrom(flat, 0, elapse), t), mt)
    {
      DenseFromWithId(flat, 0, elapse, t);
      SliceBlockSpec(flat, t);
    }
  }

  lemma DensifyKeepsInRange(flat: seq<FlatRecord>, elapse: int)
    ensures forall r :: r in flat && 0 <= r.id < elapse ==> r in DensifyOverview(flat, elapse)
  {
    var d := DensifyOverview(flat, elapse);
    DensifySortIsIdentity(flat, elapse);
    forall r | r in flat && 0 <= r.id < elapse
      ensures r in d
    {
      WithKeyMembership(flat, IdKey, SortKey(r.id, ""));
      DenseFromWithId(flat, 0, elapse, r.id);
      SliceBlockSpec(flat, r.id);
      WithKeyMembership(d, IdKey, SortKey(r.id, ""));
    }
  }

  lemma DensifyAddsOnlyZeros(flat: seq<FlatRecord>, elapse: int)
    ensures forall r :: r in DensifyOverview(flat, elapse) ==>
      0 <= r.id < elapse && (r in flat || r == ZeroOf(r.id, r.msgType))
  {
    var d := DensifyOverview(flat, elapse);
    DensifySortIsIdentity(flat, elapse);
    DenseFromAscending(flat, 0, elapse);
    forall r | r in d
      ensures r in flat || r == ZeroOf(r.id, r.msgType)
    {
      WithKeyMembership(d, IdKey, SortKey(r.id, ""));
      DenseFromWithId(flat, 0, elapse, r.id);
      SliceBlockSpec(flat, r.id);
    }
  }

  /** Densifying a densified overview changes nothing. */
  lemma DensifyIdempotent(flat: seq<FlatRecord>, elapse: int)
    ensures DensifyOverview(DensifyOverview(flat, elapse), elapse) == DensifyOverview(flat, elapse)
  {
    var d := DensifyOverview(flat, elapse);
    DensifySortIsIdentity(flat, elapse);
    forall t | 0 <= t < elapse
      ensures SliceBlock(d, t) == SliceBlock(flat, t)
    {
      DenseFromWithId(flat, 0, elapse, t);
      SliceBlockSpec(flat, t);
      var b := SliceBlock(flat, t);
      assert Have(d, t) == b;
      assert Present(b, MsgTypes[0]);
      MissingZerosNone(t, b, MsgTypes);
    }
    DenseFromCongruent(d, flat, 0, elapse);
    DensifySortIsIdentity(d, elapse);
  }

  /** The id sort in `init` is invisible after densification: it keeps each slice's order. */
  lemma InitSortIsInvisible(flat: seq<FlatRecord>, elapse: int)
    ensures LoadOverview(flat, elapse) == DensifyOverview(flat, elapse)
  {
    forall t | 0 <= t < elapse
      ensures SliceBlock(Sort(flat, IdKey), t) == SliceBlock(flat, t)
    {
      SortIsStable(flat, IdKey, SortKey(t, ""));
    }
    DenseFromCongruent(Sort(flat, IdKey), flat, 0, elapse);
  }

  // ---------------------------------------------------------------- size

  /** At most one record per (slice, type). */
  predicate OnePerSliceAndType(flat: seq<FlatRecord>) {
    forall i, j :: 0 <= i < j < |flat| && flat[i].id == flat[j].id ==> flat[i].msgType != flat[j].msgType
  }

  predicate KnownTypes(flat: seq<FlatRecord>) {
    forall i :: 0 <= i < |flat| ==> flat[i].msgType in MsgTypes
  }

  predicate UniqueTypes(rs: seq<FlatRecord>) {
    forall i, j :: 0 <= i < j < |rs| ==> rs[i].msgType != rs[j].msgType
  }

  /** How many of `types` occur in `have`. */
  function NumPresent(have: seq<FlatRecord>, types: seq<string>): nat {
    if |types| == 0 then 0
    else (if Present(have, types[0]) then 1 else 0) + NumPresent(have, types[1..])
  }

  lemma {:induction false} MissingZerosSize(s: int, have: seq<FlatRecord>, types: seq<string>)
    ensures |MissingZeros(s, have, types)| + NumPresent(have, types) == |types|
  {
    if |types| > 0 {
      MissingZerosSize(s, have, types[1..]);
    }
  }

  /** Prepending `h` makes at most its own type newly present. */
  lemma {:induction false} NumPresentCons(h: FlatRecord, rest: seq<FlatRecord>, types: seq<string>)
    requires Distinct(types)
    ensures NumPresent([h] + rest, types)
         == NumPresent(rest, types) + (if h.msgType in types && !Present(rest, h.msgType) then 1 else 0)
  {
    var hr := [h] + rest;
    if |types| > 0 {
      assert Distinct(types[1..]);
      NumPresentCons(h, rest, types[1..]);
      var t0 := types[0];
      if Present(rest, t0) {
        var j :| 0 <= j < |rest| && rest[j].msgType == t0;
        assert hr[j + 1] == rest[j];
      }
      if Present(hr, t0) && t0 != h.msgType {
        var j :| 0 <= j < |hr| && hr[j].msgType == t0;
        assert rest[j - 1] == hr[j];
      }
      assert hr[0] == h;
      assert t0 == h.msgType ==> h.msgType !in types[1..];
      assert h.msgType in types <==> h.msgType == t0 || h.msgType in types[1..];
    }
  }

  lemma {:induction false} NumPresentUnique(have: seq<FlatRecord>)
    requires UniqueTypes(have)
    requires forall i :: 0 <= i < |have| ==> have[i].msgType in MsgTypes
    ensures NumPresent(have, MsgTypes) == |have|
  {
    if |have| > 0 {
      var rest := have[1..];
      assert have == [have[0]] + rest;
      NumPresentUnique(rest);
      TransferTypesCount();
      NumPresentCons(have[0], rest, MsgTypes);
      forall j | 0 <= j < |rest|
        ensures rest[j].msgType != have[0].msgType
      {
        assert rest[j] == have[j + 1];
      }
    }
    else {
      NumPresentNone(have, MsgTypes);
    }
  }

  lemma {:induction false} NumPresentNone(have: seq<FlatRecord>, types: seq<string>)
    requires |have| == 0
    ensures NumPresent(have, types) == 0
  {
    if |types| > 0 {
      NumPresentNone(have, types[1..]);
    }
  }

  lemma {:induction false} HaveUnique(flat: seq<FlatRecord>, t: int)
    requires OnePerSliceAndType(flat)
    ensures UniqueTypes(Have(flat, t))
  {
    if |flat| > 0 {
      var rest := flat[1..];
      assert OnePerSliceAndType(rest) by {
        forall i, j | 0 <= i < j < |rest| && rest[i].id == rest[j].id
          ensures rest[i].msgType != rest[j].msgType
        {
          assert rest[i] == flat[i + 1] && rest[j] == flat[j + 1];
        }
      }
      HaveUnique(rest, t);
      if flat[0].id == t {
        var hr := Have(flat, t);
        var hrest := Have(rest, t);
        assert hr == [flat[0]] + hrest;
        WithKeyMembership(rest, IdKey, SortKey(t, ""));
        forall i, j | 0 <= i < j < |hr|
          ensures hr[i].msgType != hr[j].msgType
        {
          if i == 0 {
            assert hr[j] == hrest[j - 1] && hrest[j - 1] in rest;
            var k :| 0 <= k < |rest| && rest[k] == hr[j];
            assert flat[k + 1] == rest[k];
          } else {
            assert hr[i] == hrest[i - 1] && hr[j] == hrest[j - 1];
          }
        }
      }
    }
  }

  lemma SliceBlockSize(flat: seq<FlatRecord>, s: int)
    requires OnePerSliceAndType(flat) && KnownTypes(flat)
    ensures |SliceBlock(flat, s)| == NumMsgTypes
  {
    var have := Have(flat, s);
    TransferTypesCount();
    if |have| > 0 {
      HaveUnique(flat, s);
      WithKeyMembership(flat, IdKey, SortKey(s, ""));
      forall i | 0 <= i < |have|
        ensures have[i].msgType in MsgTypes
      {
        assert have[i] in flat;
      }
      NumPresentUnique(have);
      MissingZerosSize(s, have, MsgTypes);
    }
  }

  lemma {:induction false} DenseFromSize(flat: seq<FlatRecord>, s: int, elapse: int)
    requires OnePerSliceAndType(flat) && KnownTypes(flat)
    requires s <= elapse
    ensures |DenseFrom(flat, s, elapse)| == (elapse - s) * NumMsgTypes
    decreases elapse - s
  {
    TransferTypesCount();
    if s < elapse {
      DenseFromSize(flat, s + 1, elapse);
      SliceBlockSize(flat, s);
    }
  }

  /** With at most one record per (slice, known type) the overview has exactly
      `elapse × |MsgTypes|` records. */
  lemma DensifyOverviewSize(flat: seq<FlatRecord>, elapse: int)
    requires OnePerSliceAndType(flat) && KnownTypes(flat)
    ensures |DensifyOverview(flat, elapse)| == (if elapse > 0 then elapse * NumMsgTypes else 0)
  {
    DensifySortIsIdentity(flat, elapse);
    if elapse > 0 {
      DenseFromSize(flat, 0, elapse);
    }
  }
}
