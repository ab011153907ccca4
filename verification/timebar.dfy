/**
 * The data side of the timebar: the overview rolled up per (slice, message group) or per
 * (slice, data-or-command tag), densified to every slice of the run and every key of the
 * shown domain, the per-slice `max_flits` saturation row, and the elapse inference.
 */
module Timebar {
  import opened Arith
  import opened Wrappers
  import opened Js
  import opened Text
  import opened Sorting
  import opened Classification
  import opened Data

  /** Which field the roll-up groups by: `d.group` or `d.doc`. */
  datatype Field = ByGroup | ByDoC

  function FieldOf(r: FlatRecord, f: Field): string {
    match f
    case ByGroup => r.group
    case ByDoC => r.doc
  }

  /** `{ id, group, count }` or `{ id, doc, count }`; `key` is the group or the tag. */
  datatype Bucket = Bucket(id: int, key: string, count: int)

  /** `d3.ascending(a.id, b.id) || d3.ascending(a.key, b.key)`. */
  function BucketKey(b: Bucket): SortKey {
    SortKey(b.id, b.key)
  }

  // ---------------------------------------------------------------- roll-up

  /** The reference: the total count of the records with id `id` and key `key`. */
  function SumCount(data: seq<FlatRecord>, f: Field, id: int, key: string): int {
    if |data| == 0 then 0
    else
      var r := data[|data| - 1];
      SumCount(data[..|data| - 1], f, id, key) + (if r.id == id && FieldOf(r, f) == key then r.count else 0)
  }

  /** Some record has id `id` and key `key`. */
  predicate HasPair(data: seq<FlatRecord>, f: Field, id: int, key: string) {
    exists j :: 0 <= j < |data| && data[j].id == id && FieldOf(data[j], f) == key
  }

  /** The position of the bucket for `(id, key)`, if there is one. */
  function FindBucket(acc: seq<Bucket>, id: int, key: string): (r: Option<nat>)
    ensures r.Some? ==> r.value < |acc| && acc[r.value].id == id && acc[r.value].key == key
    ensures r.None? ==> forall j :: 0 <= j < |acc| ==> BucketKey(acc[j]) != SortKey(id, key)
  {
    if |acc| == 0 then None
    else if acc[0].id == id && acc[0].key == key then Some(0)
    else match FindBucket(acc[1..], id, key)
      case Some(i) => Some(i + 1)
      case None => None
  }

  /** One record entering `d3.flatRollup`: added to its group's bucket, or opening a new one
      at the end. The model's groups keep first-appearance order, whereas `d3.flatRollup`
      lists them id-major; the sort by id and key that follows erases the difference. */
  function AddRecord(acc: seq<Bucket>, id: int, key: string, count: int): seq<Bucket> {
    match FindBucket(acc, id, key)
    case Some(i) => acc[i := acc[i].(count := acc[i].count + count)]
    case None => acc + [Bucket(id, key, count)]
  }

  /** `d3.flatRollup(data, sum of count, id, key)`. */
  function Rollup(data: seq<FlatRecord>, f: Field): seq<Bucket> {
    if |data| == 0 then []
    else
      var r := data[|data| - 1];
      AddRecord(Rollup(data[..|data| - 1], f), r.id, FieldOf(r, f), r.count)
  }

  /** `handleFlatResponseByMsgGroups` (`ByGroup`) and `handleFlatResponseByDoC` (`ByDoC`). */
  function HandleFlatResponse(data: seq<FlatRecord>, f: Field): seq<Bucket> {
    Sort(Rollup(data, f), BucketKey)
  }

  /** The total count of the buckets in `bs`. */
  function TotalCount(bs: seq<Bucket>): int {
    if |bs| == 0 then 0 else bs[0].count + TotalCount(bs[1..])
  }

  /** The total count of the buckets of `bs` with id `id` and key `key`. */
  function SumMatching(bs: seq<Bucket>, id: int, key: string): int {
    TotalCount(WithKey(bs, BucketKey, SortKey(id, key)))
  }

  lemma {:induction false} TotalCountAppend(a: seq<Bucket>, b: seq<Bucket>)
    ensures TotalCount(a + b) == TotalCount(a) + TotalCount(b)
  {
    if |a| > 0 {
      TotalCountAppend(a[1..], b);
      assert (a + b)[1..] == a[1..] + b;
    } else {
      assert a + b == b;
    }
  }

  /** Raising the count of bucket `i` by `c` raises the matching total of its own pair by `c`. */
  lemma {:induction false} SumMatchingUpdate(acc: seq<Bucket>, i: nat, c: int, id: int, key: string)
    requires i < |acc|
    ensures SumMatching(acc[i := acc[i].(count := acc[i].count + c)], id, key)
         == SumMatching(acc, id, key) + (if BucketKey(acc[i]) == SortKey(id, key) then c else 0)
  {
    var k := SortKey(id, key);
    var acc' := acc[i := acc[i].(count := acc[i].count + c)];
    var h := if BucketKey(acc[0]) == k then [acc[0]] else [];
    var h' := if BucketKey(acc'[0]) == k then [acc'[0]] else [];
    assert WithKey(acc, BucketKey, k) == h + WithKey(acc[1..], BucketKey, k);
    assert WithKey(acc', BucketKey, k) == h' + WithKey(acc'[1..], BucketKey, k);
    TotalCountAppend(h, WithKey(acc[1..], BucketKey, k));
    TotalCountAppend(h', WithKey(acc'[1..], BucketKey, k));
    if i > 0 {
      SumMatchingUpdate(acc[1..], i - 1, c, id, key);
      assert acc'[1..] == acc[1..][i - 1 := acc[1..][i - 1].(count := acc[1..][i - 1].count + c)];
    } else {
      assert acc'[1..] == acc[1..];
    }
  }

  lemma SumMatchingAppend(acc: seq<Bucket>, b: Bucket, id: int, key: string)
    ensures SumMatching(acc + [b], id, key)
         == SumMatching(acc, id, key) + (if BucketKey(b) == SortKey(id, key) then b.count else 0)
  {
    var k := SortKey(id, key);
    WithKeyAppend(acc, [b], BucketKey, k);
    TotalCountAppend(WithKey(acc, BucketKey, k), WithKey([b], BucketKey, k));
  }

  lemma AddRecordSum(acc: seq<Bucket>, id: int, key: string, count: int, id': int, key': string)
    ensures SumMatching(AddRecord(acc, id, key, count), id', key')
         == SumMatching(acc, id', key') + (if id == id' && key == key' then count else 0)
  {
    match FindBucket(acc, id, key)
    case Some(i) => SumMatchingUpdate(acc, i, count, id', key');
    case None => SumMatchingAppend(acc, Bucket(id, key, count), id', key');
  }

  lemma AddRecordShape(acc: seq<Bucket>, id: int, key: string, count: int)
    requires DistinctKeys(acc, BucketKey)
    ensures var acc' := AddRecord(acc, id, key, count);
      && DistinctKeys(acc', BucketKey)
      && (forall b :: b in acc' ==> (b.id == id && b.key == key) || exists c :: c in acc && BucketKey(c) == BucketKey(b))
      && (exists b :: b in acc' && b.id == id && b.key == key)
      && (forall c :: c in acc ==> exists b :: b in acc' && BucketKey(b) == BucketKey(c))
  {
    var acc' := AddRecord(acc, id, key, count);
    match FindBucket(acc, id, key)
    case Some(i) =>
      assert acc'[i] in acc';
      forall c | c in acc
        ensures exists b :: b in acc' && BucketKey(b) == BucketKey(c)
      {
        var j :| 0 <= j < |acc| && acc[j] == c;
        assert acc'[j] in acc' && BucketKey(acc'[j]) == BucketKey(c);
      }
      forall b | b in acc'
        ensures (b.id == id && b.key == key) || exists c :: c in acc && BucketKey(c) == BucketKey(b)
      {
        var j :| 0 <= j < |acc'| && acc'[j] == b;
        assert acc[j] in acc && BucketKey(acc[j]) == BucketKey(b);
      }
    case None =>
      assert acc'[|acc|] == Bucket(id, key, count);
      forall c | c in acc
        ensures exists b :: b in acc' && BucketKey(b) == BucketKey(c)
      {
        assert c in acc';
      }
  }

  /**
   * The roll-up has one bucket per distinct `(id, key)` of the input and no other, and each
   * pair's bucket total is the input's total for that pair.
   */
  lemma RollupSpec(data: seq<FlatRecord>, f: Field)
    ensures DistinctKeys(Rollup(data, f), BucketKey)
    ensures forall b :: b in Rollup(data, f) ==> HasPair(data, f, b.id, b.key)
    ensures forall j :: 0 <= j < |data| ==>
      exists b :: b in Rollup(data, f) && b.id == data[j].id && b.key == FieldOf(data[j], f)
    ensures forall id, key :: SumMatching(Rollup(data, f), id, key) == SumCount(data, f, id, key)
  {
    RollupShape(data, f);
    forall id, key
      ensures SumMatching(Rollup(data, f), id, key) == SumCount(data, f, id, key)
    {
      RollupSums(data, f, id, key);
    }
  }

  lemma {:induction false} RollupSums(data: seq<FlatRecord>, f: Field, id: int, key: string)
    ensures SumMatching(Rollup(data, f), id, key) == SumCount(data, f, id, key)
  {
    if |data| > 0 {
      var n := |data| - 1;
      var r := data[n];
      RollupSums(data[..n], f, id, key);
      AddRecordSum(Rollup(data[..n], f), r.id, FieldOf(r, f), r.count, id, key);
    } else {
      assert WithKey([], BucketKey, SortKey(id, key)) == [];
    }
  }

  lemma RollupShape(data: seq<FlatRecord>, f: Field)
    ensures DistinctKeys(Rollup(data, f), BucketKey)
    ensures forall b :: b in Rollup(data, f) ==> HasPair(data, f, b.id, b.key)
    ensures forall j :: 0 <= j < |data| ==>
      exists b :: b in Rollup(data, f) && b.id == data[j].id && b.key == FieldOf(data[j], f)
  {
    RollupDistinct(data, f);
    RollupSound(data, f);
    RollupComplete(data, f);
  }

  lemma {:induction false} RollupDistinct(data: seq<FlatRecord>, f: Field)
    ensures DistinctKeys(Rollup(data, f), BucketKey)
  {
    if |data| > 0 {
      var n := |data| - 1;
      var r := data[n];
      RollupDistinct(data[..n], f);
      AddRecordShape(Rollup(data[..n], f), r.id, FieldOf(r, f), r.count);
    }
  }

  lemma {:induction false} RollupSound(data: seq<FlatRecord>, f: Field)
    ensures forall b :: b in Rollup(data, f) ==> HasPair(data, f, b.id, b.key)
  {
    if |data| > 0 {
      var n := |data| - 1;
      var pre := data[..n];
      var r := data[n];
      var acc := Rollup(pre, f);
      RollupSound(pre, f);
      forall b | b in Rollup(data, f)
        ensures HasPair(data, f, b.id, b.key)
      {
        AddRecordOrigin(acc, r.id, FieldOf(r, f), r.count, b);
        if b.id == r.id && b.key == FieldOf(r, f) {
          assert data[n] == r;
        } else {
          var c :| c in acc && c.id == b.id && c.key == b.key;
          var j :| 0 <= j < |pre| && pre[j].id == c.id && FieldOf(pre[j], f) == c.key;
          assert data[j] == pre[j];
        }
      }
    }
  }

  /** Every bucket after a record enters is the record's own or was already there. */
  lemma AddRecordOrigin(acc: seq<Bucket>, id: int, key: string, count: int, b: Bucket)
    requires b in AddRecord(acc, id, key, count)
    ensures (b.id == id && b.key == key) || Covers(acc, b.id, b.key)
  {
    var acc' := AddRecord(acc, id, key, count);
    var j :| 0 <= j < |acc'| && acc'[j] == b;
    match FindBucket(acc, id, key)
    case Some(i) =>
      assert acc[j] in acc;
    case None =>
      if j < |acc| {
        assert acc[j] in acc;
      }
  }

  lemma {:induction false} RollupComplete(data: seq<FlatRecord>, f: Field)
    ensures forall j :: 0 <= j < |data| ==> Covers(Rollup(data, f), data[j].id, FieldOf(data[j], f))
  {
    if |data| > 0 {
      var n := |data| - 1;
      var pre := data[..n];
      var r := data[n];
      var acc := Rollup(pre, f);
      RollupComplete(pre, f);
      forall j | 0 <= j < |data|
        ensures Covers(Rollup(data, f), data[j].id, FieldOf(data[j], f))
      {
        if j < n {
          assert data[j] == pre[j];
          AddRecordCovers(acc, r.id, FieldOf(r, f), r.count, pre[j].id, FieldOf(pre[j], f));
        } else {
          AddRecordCovers(acc, r.id, FieldOf(r, f), r.count, r.id, FieldOf(r, f));
        }
      }
    }
  }

  /** A record's bucket is there after it enters, and no pair's bucket goes away. */
  lemma AddRecordCovers(acc: seq<Bucket>, id: int, key: string, count: int, t: int, g: string)
    ensures Covers(AddRecord(acc, id, key, count), id, key)
    ensures Covers(acc, t, g) ==> Covers(AddRecord(acc, id, key, count), t, g)
  {
    var acc' := AddRecord(acc, id, key, count);
    match FindBucket(acc, id, key)
    case Some(i) =>
      assert acc'[i] in acc';
      if Covers(acc, t, g) {
        var c :| c in acc && c.id == t && c.key == g;
        var j :| 0 <= j < |acc| && acc[j] == c;
        assert acc'[j] in acc';
      }
    case None =>
      assert acc'[|acc|] in acc';
      if Covers(acc, t, g) {
        var c :| c in acc && c.id == t && c.key == g;
        assert c in acc';
      }
  }

  /** A pair no record has totals zero. */
  lemma {:induction false} SumCountAbsent(data: seq<FlatRecord>, f: Field, id: int, key: string)
    requires !HasPair(data, f, id, key)
    ensures SumCount(data, f, id, key) == 0
  {
    if |data| > 0 {
      var n := |data| - 1;
      forall j | 0 <= j < n
        ensures data[..n][j] == data[j]
      {
      }
      SumCountAbsent(data[..n], f, id, key);
    }
  }

  /**
   * `handleFlatResponseBy*`: strictly ascending by id then key (so one bucket per pair);
   * exactly the pairs the input has; each bucket's count is the input's total for its pair.
   */
  lemma HandleFlatResponseSpec(data: seq<FlatRecord>, f: Field)
    ensures var out := HandleFlatResponse(data, f);
      && StrictlySortedBy(out, BucketKey)
      && (forall b :: b in out ==> HasPair(data, f, b.id, b.key) && b.count == SumCount(data, f, b.id, b.key))
      && (forall j :: 0 <= j < |data| ==> exists b :: b in out && b.id == data[j].id && b.key == FieldOf(data[j], f))
  {
    var acc := Rollup(data, f);
    RollupShape(data, f);
    SortDistinctIsStrict(acc, BucketKey);
    SortSameMembers(acc);
    RollupCounts(data, f);
  }

  /** Each bucket of the roll-up carries its pair's total. */
  lemma RollupCounts(data: seq<FlatRecord>, f: Field)
    ensures forall b :: b in Rollup(data, f) ==> b.count == SumCount(data, f, b.id, b.key)
  {
    var acc := Rollup(data, f);
    RollupSpec(data, f);
    forall b | b in acc
      ensures b.count == SumCount(data, f, b.id, b.key)
    {
      var i :| 0 <= i < |acc| && acc[i] == b;
      OnlyBucketWithKey(acc, i);
    }
  }

  /** In a sequence with distinct keys the pair total of an element's key is its own count. */
  lemma OnlyBucketWithKey(bs: seq<Bucket>, i: nat)
    requires DistinctKeys(bs, BucketKey) && i < |bs|
    ensures SumMatching(bs, bs[i].id, bs[i].key) == bs[i].count
  {
    var k := BucketKey(bs[i]);
    var w := WithKey(bs, BucketKey, k);
    DistinctKeysWithKey(bs, BucketKey, k);
    WithKeyMembership(bs, BucketKey, k);
    assert SortKey(bs[i].id, bs[i].key) == k;
    assert bs[i] in w;
    assert |w| == 1 && w[0] == bs[i];
    assert TotalCount(w) == w[0].count + TotalCount(w[1..]);
    assert w[1..] == [];
  }

  /** The sort before rendering changes no pair total. */
  lemma HandleFlatResponseSums(data: seq<FlatRecord>, f: Field, id: int, key: string)
    ensures SumMatching(HandleFlatResponse(data, f), id, key) == SumCount(data, f, id, key)
  {
    SortIsStable(Rollup(data, f), BucketKey, SortKey(id, key));
    RollupSpec(data, f);
  }

  // ---------------------------------------------------------------- densify

  /** `key(s, g)`: the map key `${s}|${g}`. */
  function AccKey(s: nat, g: string): string {
    NatToString(s) + "|" + g
  }

  /** The digits of `${s}` cannot contain the separator, so the key is injective. */
  lemma AccKeyInjective(a: nat, g: string, b: nat, h: string)
    requires AccKey(a, g) == AccKey(b, h)
    ensures a == b && g == h
  {
    var sa, sb := NatToString(a), NatToString(b);
    var x := AccKey(a, g);
    SeparatorAfterDigits(a, g);
    SeparatorAfterDigits(b, h);
    assert |sa| == |sb|;
    assert sa == x[..|sa|] == sb;
    NatToStringInjective(a, b);
    assert g == x[|sa| + 1..] == h;
  }

  lemma SeparatorAfterDigits(s: nat, g: string)
    ensures AccKey(s, g)[|NatToString(s)|] == '|'
    ensures forall k :: 0 <= k < |NatToString(s)| ==> IsDecimalDigit(AccKey(s, g)[k])
  {
  }

  /** `acc.get(k) ?? 0`. */
  function Get0(acc: map<string, int>, k: string): int {
    if k in acc then acc[k] else 0
  }

  /** Some bucket of `out` is for slice `t` and key `g`. */
  predicate Covers(out: seq<Bucket>, t: int, g: string) {
    exists b :: b in out && b.id == t && b.key == g
  }

  /** A compact record `densifyBy*` keeps: slice in `[0, elapse)`, key in the domain. */
  predicate Kept(b: Bucket, elapse: int, domain: seq<string>) {
    0 <= b.id < elapse && b.key in domain
  }

  /** The first loop of `densifyBy*`: kept records summed under `${id}|${key}`. */
  function Accumulate(compact: seq<Bucket>, elapse: int, domain: seq<string>): map<string, int> {
    if |compact| == 0 then map[]
    else
      var acc := Accumulate(compact[..|compact| - 1], elapse, domain);
      var r := compact[|compact| - 1];
      if !Kept(r, elapse, domain) then acc
      else acc[AccKey(r.id, r.key) := Get0(acc, AccKey(r.id, r.key)) + r.count]
  }

  /** One slice of the second loop: a bucket per domain entry, in domain order. */
  function Row(acc: map<string, int>, s: nat, domain: seq<string>): seq<Bucket> {
    seq(|domain|, i requires 0 <= i < |domain| => Bucket(s, domain[i], Get0(acc, AccKey(s, domain[i]))))
  }

  /** The second loop from slice `s` up to `elapse`. */
  function Rows(acc: map<string, int>, s: nat, elapse: int, domain: seq<string>): seq<Bucket>
    decreases elapse - s
  {
    if s >= elapse then [] else Row(acc, s, domain) + Rows(acc, s + 1, elapse, domain)
  }

  /** `densifyByGroups` / `densifyByDoc` (they differ only in the field name). */
  function DensifyBy(compact: seq<Bucket>, elapse: int, domain: seq<string>): seq<Bucket> {
    Sort(Rows(Accumulate(compact, elapse, domain), 0, elapse, domain), BucketKey)
  }

  /** The accumulated value of a kept pair is the pair total of the compact records. */
  lemma {:induction false} AccumulateSum(compact: seq<Bucket>, elapse: int, domain: seq<string>, s: nat, g: string)
    requires s < elapse && g in domain
    ensures Get0(Accumulate(compact, elapse, domain), AccKey(s, g)) == SumMatching(compact, s, g)
  {
    if |compact| > 0 {
      var n := |compact| - 1;
      var r := compact[n];
      AccumulateSum(compact[..n], elapse, domain, s, g);
      assert compact == compact[..n] + [r];
      SumMatchingAppend(compact[..n], r, s, g);
      if Kept(r, elapse, domain) && AccKey(r.id, r.key) == AccKey(s, g) {
        AccKeyInjective(r.id, r.key, s, g);
      }
    } else {
      assert WithKey(compact, BucketKey, SortKey(s, g)) == [];
    }
  }

  lemma RowsShape(acc: map<string, int>, s: nat, elapse: int, domain: seq<string>)
    ensures forall b :: b in Rows(acc, s, elapse, domain) ==>
      s <= b.id < elapse && b.key in domain && b.count == Get0(acc, AccKey(b.id, b.key))
    decreases elapse - s
  {
    if s < elapse {
      RowsShape(acc, s + 1, elapse, domain);
    }
  }

  lemma {:induction false} RowsSize(acc: map<string, int>, s: nat, elapse: int, domain: seq<string>)
    requires s <= elapse
    ensures |Rows(acc, s, elapse, domain)| == (elapse - s) * |domain|
    decreases elapse - s
  {
    if s < elapse {
      RowsSize(acc, s + 1, elapse, domain);
      MulSucc(elapse - s - 1, |domain|);
    }
  }

  /** With a duplicate-free domain no two buckets of the loop share a pair. */
  lemma {:induction false} RowsDistinct(acc: map<string, int>, s: nat, elapse: int, domain: seq<string>)
    requires Distinct(domain)
    ensures DistinctKeys(Rows(acc, s, elapse, domain), BucketKey)
    decreases elapse - s
  {
    if s < elapse {
      RowsDistinct(acc, s + 1, elapse, domain);
      RowsShape(acc, s + 1, elapse, domain);
      var row := Row(acc, s, domain);
      var rest := Rows(acc, s + 1, elapse, domain);
      var all := row + rest;
      forall i, j | 0 <= i < j < |all|
        ensures BucketKey(all[i]) != BucketKey(all[j])
      {
        if j < |row| {
        } else if i < |row| {
          assert all[j] == rest[j - |row|] && rest[j - |row|] in rest;
        } else {
          assert all[i] == rest[i - |row|] && all[j] == rest[j - |row|];
        }
      }
    }
  }

  /** Every pair `(t, g)` of the grid occurs in the loop's output. */
  lemma {:induction false} RowsCover(acc: map<string, int>, s: nat, elapse: int, domain: seq<string>, t: nat, g: string)
    requires s <= t < elapse && g in domain
    ensures exists b :: b in Rows(acc, s, elapse, domain) && b.id == t && b.key == g
    decreases elapse - s
  {
    var row := Row(acc, s, domain);
    var rest := Rows(acc, s + 1, elapse, domain);
    if t == s {
      var i :| 0 <= i < |domain| && domain[i] == g;
      assert (row + rest)[i] == row[i];
    } else {
      RowsCover(acc, s + 1, elapse, domain, t, g);
      var b :| b in rest && b.id == t && b.key == g;
      assert b in row + rest;
    }
  }

  /**
   * `densifyBy*`: `max(elapse, 0) × |domain|` buckets sorted by id then key, each in range
   * and in the domain and holding the total of the compact records of its pair (0 when none
   * matched, and records out of range or out of the domain never count); every pair of the
   * grid occurs.
   */
  lemma DensifyBySpec(compact: seq<Bucket>, elapse: int, domain: seq<string>)
    ensures var out := DensifyBy(compact, elapse, domain);
      && |out| == (if elapse > 0 then elapse else 0) * |domain|
      && SortedBy(out, BucketKey)
      && (forall b :: b in out ==> Kept(b, elapse, domain) && b.count == SumMatching(compact, b.id, b.key))
      && (forall t, g :: 0 <= t < elapse && g in domain ==> Covers(out, t, g))
  {
    var acc := Accumulate(compact, elapse, domain);
    var rows := Rows(acc, 0, elapse, domain);
    SortIsSortedPermutation(rows, BucketKey);
    if elapse > 0 {
      RowsSize(acc, 0, elapse, domain);
    }
    DensifyByMembers(compact, elapse, domain);
    DensifyByCovers(compact, elapse, domain);
  }

  lemma SortSameMembers(rows: seq<Bucket>)
    ensures forall b :: b in Sort(rows, BucketKey) <==> b in rows
  {
    SortIsSortedPermutation(rows, BucketKey);
    assert forall b :: b in Sort(rows, BucketKey) <==> b in multiset(Sort(rows, BucketKey));
  }

  lemma DensifyByMembers(compact: seq<Bucket>, elapse: int, domain: seq<string>)
    ensures forall b :: b in DensifyBy(compact, elapse, domain) ==>
      Kept(b, elapse, domain) && b.count == SumMatching(compact, b.id, b.key)
  {
    var acc := Accumulate(compact, elapse, domain);
    var rows := Rows(acc, 0, elapse, domain);
    SortSameMembers(rows);
    RowsShape(acc, 0, elapse, domain);
    forall b | b in rows
      ensures b.count == SumMatching(compact, b.id, b.key)
    {
      AccumulateSum(compact, elapse, domain, b.id, b.key);
    }
  }

  lemma DensifyByCovers(compact: seq<Bucket>, elapse: int, domain: seq<string>)
    ensures forall t, g :: 0 <= t < elapse && g in domain ==> Covers(DensifyBy(compact, elapse, domain), t, g)
  {
    var acc := Accumulate(compact, elapse, domain);
    var rows := Rows(acc, 0, elapse, domain);
    SortSameMembers(rows);
    forall t, g | 0 <= t < elapse && g in domain
      ensures Covers(DensifyBy(compact, elapse, domain), t, g)
    {
      RowsCover(acc, 0, elapse, domain, t, g);
      var b :| b in rows && b.id == t && b.key == g;
      assert b in DensifyBy(compact, elapse, domain);
    }
  }

  /** With a duplicate-free domain the densified grid has exactly one bucket per pair. */
  lemma DensifyByDistinct(compact: seq<Bucket>, elapse: int, domain: seq<string>)
    requires Distinct(domain)
    ensures StrictlySortedBy(DensifyBy(compact, elapse, domain), BucketKey)
  {
    RowsDistinct(Accumulate(compact, elapse, domain), 0, elapse, domain);
    SortDistinctIsStrict(Rows(Accumulate(compact, elapse, domain), 0, elapse, domain), BucketKey);
  }

  /**
   * End to end: after rolling up and densifying, the bucket of every kept pair holds the
   * total count of the raw overview records of that slice and key.
   */
  lemma TimebarCountsAreRawTotals(data: seq<FlatRecord>, f: Field, elapse: int, domain: seq<string>, b: Bucket)
    requires b in DensifyBy(HandleFlatResponse(data, f), elapse, domain)
    ensures Kept(b, elapse, domain) && b.count == SumCount(data, f, b.id, b.key)
  {
    DensifyBySpec(HandleFlatResponse(data, f), elapse, domain);
    HandleFlatResponseSums(data, f, b.id, b.key);
  }

  // ---------------------------------------------------------------- max flits and elapse

  function ZeroInts(n: nat): (r: seq<int>)
    ensures |r| == n && forall j :: 0 <= j < n ==> r[j] == 0
  {
    seq(n, _ => 0)
  }

  /** `while (res.length <= idx) res.push(0); res[idx] = v`. A negative `idx` names no array
      element: the loop does not run and the store creates a plain property. */
  function SetPadded(res: seq<int>, idx: int, v: int): seq<int> {
    if idx < 0 then res
    else
      var padded := if |res| <= idx then res + ZeroInts(idx + 1 - |res|) else res;
      padded[idx := v]
  }

  /** `getMaxFlitsFromFlatResponse`. */
  function GetMaxFlits(data: seq<FlatRecord>): seq<int> {
    if |data| == 0 then []
    else
      var r := data[|data| - 1];
      SetPadded(GetMaxFlits(data[..|data| - 1]), ToInt32(r.id), r.maxFlits)
  }

  /** The largest `id | 0` of the records, or -1. */
  function MaxSlot(data: seq<FlatRecord>): int {
    if |data| == 0 then -1
    else
      var m := MaxSlot(data[..|data| - 1]);
      var s := ToInt32(data[|data| - 1].id);
      if s > m then s else m
  }

  /** The `max_flits` of the last record whose `id | 0` is `i`. */
  function LastFlits(data: seq<FlatRecord>, i: int): Option<int> {
    if |data| == 0 then None
    else
      var r := data[|data| - 1];
      if ToInt32(r.id) == i then Some(r.maxFlits) else LastFlits(data[..|data| - 1], i)
  }

  /** The saturation row is `max(id) + 1` long; slot `i` holds the last record's `max_flits`
      for that slot, and 0 where no record landed. Negative ids leave no trace. */
  lemma {:induction false} GetMaxFlitsSpec(data: seq<FlatRecord>)
    ensures |GetMaxFlits(data)| == MaxSlot(data) + 1
    ensures forall i :: 0 <= i < |GetMaxFlits(data)| ==> GetMaxFlits(data)[i] == LastFlits(data, i).GetOr(0)
  {
    if |data| > 0 {
      var n := |data| - 1;
      var pre := data[..n];
      var res := GetMaxFlits(pre);
      var idx := ToInt32(data[n].id);
      GetMaxFlitsSpec(pre);
      LastFlitsBound(pre);
      MaxSlotAtLeast(pre);
      var res' := GetMaxFlits(data);
      forall i | 0 <= i < |res'|
        ensures res'[i] == LastFlits(data, i).GetOr(0)
      {
        if i != idx && i >= |res| {
          assert LastFlits(pre, i).None?;
        }
      }
    }
  }

  lemma {:induction false} MaxSlotAtLeast(data: seq<FlatRecord>)
    ensures MaxSlot(data) >= -1
  {
    if |data| > 0 {
      MaxSlotAtLeast(data[..|data| - 1]);
    }
  }

  /** Only slots up to the largest id carry a record. */
  lemma {:induction false} LastFlitsBound(data: seq<FlatRecord>)
    ensures forall i :: LastFlits(data, i).Some? ==> i <= MaxSlot(data)
  {
    if |data| > 0 {
      LastFlitsBound(data[..|data| - 1]);
    }
  }

  /** `while (mf.length < elapse) mf.push(0)`. */
  function PadTo(mf: seq<int>, elapse: int): (r: seq<int>)
    ensures |r| >= elapse && |r| >= |mf|
    ensures r[..|mf|] == mf
    ensures forall j :: |mf| <= j < |r| ==> r[j] == 0
    ensures |r| == if elapse > |mf| then elapse else |mf|
  {
    if |mf| < elapse then mf + ZeroInts(elapse - |mf|) else mf
  }

  /** The largest `id | 0`, starting from 0. */
  function MaxId(data: seq<FlatRecord>): int {
    if |data| == 0 then 0
    else
      var m := MaxId(data[..|data| - 1]);
      var s := ToInt32(data[|data| - 1].id);
      if s > m then s else m
  }

  /** `inferElapseFromFlat`. */
  function InferElapseFromFlat(data: seq<FlatRecord>): int {
    MaxId(data) + 1
  }

  /** The inferred elapse is at least 1, exceeds every `id | 0`, and is 1 or one past some id. */
  lemma {:induction false} InferElapseSpec(data: seq<FlatRecord>)
    ensures InferElapseFromFlat(data) >= 1
    ensures forall j :: 0 <= j < |data| ==> ToInt32(data[j].id) < InferElapseFromFlat(data)
    ensures InferElapseFromFlat(data) == 1
         || exists j :: 0 <= j < |data| && ToInt32(data[j].id) == InferElapseFromFlat(data) - 1
  {
    if |data| > 0 {
      var n := |data| - 1;
      InferElapseSpec(data[..n]);
      forall j | 0 <= j < n
        ensures data[j] == data[..n][j]
      {
      }
    }
  }

  /** `Number(range0?.meta?.elapse) || inferElapseFromFlat(resp)`: a missing or zero elapse
      falls back to the inference. */
  function ChooseElapse(metaElapse: Option<int>, data: seq<FlatRecord>): (e: int)
    ensures metaElapse.Some? && metaElapse.value != 0 ==> e == metaElapse.value
    ensures !(metaElapse.Some? && metaElapse.value != 0) ==> e == InferElapseFromFlat(data) && e >= 1
  {
    InferElapseSpec(data);
    if metaElapse.Some? && metaElapse.value != 0 then metaElapse.value else InferElapseFromFlat(data)
  }

  /** The constructor's `elapse ?? inferElapseFromFlat(d)`: only a missing elapse is inferred,
      so an explicit 0 is kept. */
  function ConstructorElapse(elapse: Option<int>, data: seq<FlatRecord>): (e: int)
    ensures elapse.Some? ==> e == elapse.value
    ensures elapse.None? ==> e == InferElapseFromFlat(data) && e >= 1
  {
    InferElapseSpec(data);
    match elapse
    case Some(v) => v
    case None => InferElapseFromFlat(data)
  }

  /** The constructor's `??` and `RenderTimebar`'s `||` pick the same elapse exactly when
      the given elapse is not an explicit 0. */
  lemma ElapseChoicesAgree(elapse: Option<int>, data: seq<FlatRecord>)
    ensures ConstructorElapse(elapse, data) == ChooseElapse(elapse, data) <==> elapse != Some(0)
  {
  }

  // ---------------------------------------------------------------- the timebar's state

  /** The group domain the timebar shows by default: every group but `Translation`. */
  const TimebarGroupDomain: seq<string> := Without(MsgGroupsDomain, "Translation")

  datatype TimebarState = TimebarState(
    elapse: int,
    dataForMsgGroups: seq<Bucket>,
    dataForDoC: seq<Bucket>,
    maxFlits: seq<int>,
    shown: seq<Bucket>,
    zDomain: seq<string>)

  /**
   * `loadFlatResponse(d, elapse)`. The `max_flits` row is the one read from the overview,
   * padded with zeros to `elapse`: slot `i` holds the `max_flits` of the last record whose
   * `id | 0` is `i`, or 0.
   */
  function LoadFlatResponse(d: seq<FlatRecord>, elapse: int): (st: TimebarState)
    ensures st.elapse == ToInt32(elapse)
    ensures |st.maxFlits| >= st.elapse
    ensures |st.maxFlits| == if st.elapse > MaxSlot(d) + 1 then st.elapse else MaxSlot(d) + 1
    ensures forall i :: 0 <= i < |st.maxFlits| ==> st.maxFlits[i] == LastFlits(d, i).GetOr(0)
    ensures st.zDomain == TimebarGroupDomain
    ensures st.dataForMsgGroups == HandleFlatResponse(d, ByGroup)
    ensures st.dataForDoC == HandleFlatResponse(d, ByDoC)
    ensures st.shown == DensifyBy(st.dataForMsgGroups, st.elapse, TimebarGroupDomain)
  {
    GetMaxFlitsSpec(d);
    LastFlitsBound(d);
    var e := ToInt32(elapse);
    var byGroups := HandleFlatResponse(d, ByGroup);
    TimebarState(e, byGroups, HandleFlatResponse(d, ByDoC), PadTo(GetMaxFlits(d), e),
                 DensifyBy(byGroups, e, TimebarGroupDomain), TimebarGroupDomain)
  }

  /** `updateMsgGroupDomain`: `Translation` is never shown, and an empty choice shows the
      default domain. Only the shown grid and its domain change. */
  function UpdateMsgGroupDomain(st: TimebarState, input: seq<string>): (r: TimebarState)
    ensures "Translation" !in r.zDomain && |r.zDomain| > 0
    ensures forall g :: g in r.zDomain ==> g in input || r.zDomain == TimebarGroupDomain
    ensures forall g :: g in input && g != "Translation" ==> g in r.zDomain
    ensures (exists g :: g in input && g != "Translation") ==> r.zDomain == Without(input, "Translation")
    ensures (forall g :: g in input ==> g == "Translation") ==> r.zDomain == TimebarGroupDomain
    ensures r.(shown := st.shown, zDomain := st.zDomain) == st
    ensures r.shown == DensifyBy(st.dataForMsgGroups, st.elapse, r.zDomain)
  {
    var filtered := Without(input, "Translation");
    var domain := if |filtered| == 0 then TimebarGroupDomain else filtered;
    assert "Read" in TimebarGroupDomain;
    assert |filtered| > 0 ==> filtered[0] in filtered;
    st.(shown := DensifyBy(st.dataForMsgGroups, st.elapse, domain), zDomain := domain)
  }

  /** `updateDataOrCommandDomain`: an empty choice shows `["D", "C"]`. */
  function UpdateDataOrCommandDomain(st: TimebarState, input: seq<string>): (r: TimebarState)
    ensures |input| > 0 ==> r.zDomain == input
    ensures |input| == 0 ==> r.zDomain == DataOrCommandDomain
    ensures r.(shown := st.shown, zDomain := st.zDomain) == st
    ensures r.shown == DensifyBy(st.dataForDoC, st.elapse, r.zDomain)
  {
    var domain := if |input| > 0 then input else DataOrCommandDomain;
    st.(shown := DensifyBy(st.dataForDoC, st.elapse, domain), zDomain := domain)
  }

  /** The timebar's default domain is `Read`, `Write`, `Others`, in that order. */
  lemma TimebarGroupDomainValue()
    ensures TimebarGroupDomain == ["Read", "Write", "Others"]
  {
    var d := MsgGroupsDomain;
    assert Without(d[3..], "Translation") == ["Others"];
    assert d[2..][1..] == d[3..];
    assert Without(d[2..], "Translation") == ["Write", "Others"];
    assert d[1..][1..] == d[2..];
    assert Without(d[1..], "Translation") == ["Read", "Write", "Others"];
  }

  /** The constructor: without data nothing is loaded; with data it loads the flat response at
      the given elapse, or at the inferred one when none is given. */
  function NewTimebar(d: Option<seq<FlatRecord>>, elapse: Option<int>): (st: Option<TimebarState>)
    ensures st.Some? <==> d.Some?
    ensures d.Some? && elapse.Some? ==> st.value.elapse == ToInt32(elapse.value)
    ensures d.Some? && elapse.None? ==> st.value.elapse == ToInt32(InferElapseFromFlat(d.value))
    ensures d.Some? ==> st.value.zDomain == TimebarGroupDomain
    ensures d.Some? ==> st.value == LoadFlatResponse(d.value, ConstructorElapse(elapse, d.value))
  {
    match d
    case None => None
    case Some(data) => Some(LoadFlatResponse(data, ConstructorElapse(elapse, data)))
  }

  /**
   * After `loadFlatResponse`, the shown grid has one bucket per slice of `[0, elapse)` and
   * per group `Read`, `Write`, `Others`, each holding that slice's raw total for the group.
   */
  lemma LoadFlatResponseSpec(d: seq<FlatRecord>, elapse: int)
    ensures var st := LoadFlatResponse(d, elapse);
      && |st.shown| == (if st.elapse > 0 then st.elapse * 3 else 0)
      && StrictlySortedBy(st.shown, BucketKey)
      && (forall b :: b in st.shown ==>
            0 <= b.id < st.elapse && b.key in TimebarGroupDomain && b.count == SumCount(d, ByGroup, b.id, b.key))
      && (forall t, g :: 0 <= t < st.elapse && g in TimebarGroupDomain ==> Covers(st.shown, t, g))
  {
    var st := LoadFlatResponse(d, elapse);
    TimebarGroupDomainValue();
    DensifyBySpec(st.dataForMsgGroups, st.elapse, TimebarGroupDomain);
    DensifyByDistinct(st.dataForMsgGroups, st.elapse, TimebarGroupDomain);
    forall b | b in st.shown
      ensures b.count == SumCount(d, ByGroup, b.id, b.key)
    {
      TimebarCountsAreRawTotals(d, ByGroup, st.elapse, TimebarGroupDomain, b);
    }
  }

  /**
   * After `loadFlatResponse` and then `updateDataOrCommandDomain`, every shown bucket lies in
   * `[0, elapse)` and the chosen tag domain, and holds that slice's raw total for the tag.
   */
  lemma LoadThenDataOrCommandCounts(d: seq<FlatRecord>, elapse: int, input: seq<string>)
    ensures var st := UpdateDataOrCommandDomain(LoadFlatResponse(d, elapse), input);
      forall b :: b in st.shown ==>
        Kept(b, st.elapse, st.zDomain) && b.count == SumCount(d, ByDoC, b.id, b.key)
  {
    var st := UpdateDataOrCommandDomain(LoadFlatResponse(d, elapse), input);
    forall b | b in st.shown
      ensures Kept(b, st.elapse, st.zDomain) && b.count == SumCount(d, ByDoC, b.id, b.key)
    {
      TimebarCountsAreRawTotals(d, ByDoC, st.elapse, st.zDomain, b);
    }
  }
}
