/**
 * The fixed classification domains of the trace format: message types and the two ways of
 * grouping them (message group, data-or-command), and the transfer types. JavaScript objects
 * built from literals are modelled as their entry lists, in insertion order, plus the map a
 * property read sees.
 */
module Classification {
  import opened Wrappers

  /** An object literal's own entries, in the order `Object.keys` lists them. */
  type Entries = seq<(string, string)>

  predicate Distinct(s: seq<string>) {
    forall i, j :: 0 <= i < j < |s| ==> s[i] != s[j]
  }

  /** The message types, in the order they are packed into the traffic vector. */
  const MsgTypesInOrder: seq<string> :=
    ["*mem.DataReadyRsp", "*mem.ReadReq", "*mem.WriteDoneRsp", "*mem.WriteReq"]
  const MsgTypes: seq<string> := MsgTypesInOrder
  const NumMsgTypes: int := |MsgTypes|

  const MsgGroupsDomain: seq<string> := ["Translation", "Read", "Write", "Others"]
  const NumMsgGroups: int := |MsgGroupsDomain|

  const MsgGroupsEntries: Entries := [
    ("*mem.DataReadyRsp", "Read"),
    ("*mem.ReadReq", "Read"),
    ("*mem.WriteDoneRsp", "Write"),
    ("*mem.WriteReq", "Write")
  ]
  const MsgGroupsMap: map<string, string> := ToMap(MsgGroupsEntries)

  const DataOrCommandDomain: seq<string> := ["D", "C"]
  const NumDataOrCommand: int := |DataOrCommandDomain|

  const DataOrCommandEntries: Entries := [
    ("*mem.DataReadyRsp", "D"),
    ("*mem.ReadReq", "C"),
    ("*mem.WriteDoneRsp", "C"),
    ("*mem.WriteReq", "D")
  ]
  const DataOrCommandMap: map<string, string> := ToMap(DataOrCommandEntries)

  /** The transfer types, in the order they are packed into the traffic vector. */
  const TransferTypesInOrder: seq<string> := ["mesh_send", "mesh_relay", "mesh_recv", "peripheral"]

  const MsgTypesInOrderIndexMap: map<string, int> := ReverseArrayIdxAndValue(MsgTypesInOrder)
  const MsgGroupsReverseMap: seq<(string, seq<string>)> := ReverseObject(MsgGroupsEntries)
  const DataOrCommandReverseMap: seq<(string, seq<string>)> := ReverseObject(DataOrCommandEntries)

  /** What property reads see on an object built from `entries`: a later entry overrides. */
  function ToMap(entries: Entries): (m: map<string, string>)
    ensures forall k :: k in m <==> exists j :: 0 <= j < |entries| && entries[j].0 == k
  {
    if |entries| == 0 then map[]
    else
      var last := entries[|entries| - 1];
      var m' := ToMap(entries[..|entries| - 1]);
      assert forall j :: 0 <= j < |entries| - 1 ==> entries[..|entries| - 1][j] == entries[j];
      m'[last.0 := last.1]
  }

  /** A property read on an object literal sees the value of the last entry with that key. */
  lemma {:induction false} ToMapEntry(entries: Entries, k: string)
    ensures k in ToMap(entries) ==>
      exists j :: (0 <= j < |entries| && entries[j] == (k, ToMap(entries)[k])
        && forall i :: j < i < |entries| ==> entries[i].0 != k)
  {
    if |entries| > 0 {
      var n := |entries| - 1;
      var pre := entries[..n];
      assert ToMap(entries) == ToMap(pre)[entries[n].0 := entries[n].1];
      if k == entries[n].0 {
        assert entries[n] == (k, ToMap(entries)[k]);
      } else if k in ToMap(entries) {
        ToMapEntry(pre, k);
        var j :| 0 <= j < n && pre[j] == (k, ToMap(pre)[k]) && forall i :: j < i < n ==> pre[i].0 != k;
        assert entries[j] == pre[j];
        forall i | j < i < |entries| ensures entries[i].0 != k {
          if i < n { assert entries[i] == pre[i]; }
        }
      }
    }
  }

  /**
   * `reverseArrayIdxAndValue`: maps each value of `arr` to its index; when a value repeats,
   * the later `rev[val] = idx` wins, so it maps to its last index.
   */
  function ReverseArrayIdxAndValue(arr: seq<string>): (rev: map<string, int>)
    ensures forall v :: v in rev <==> v in arr
    ensures forall v :: v in rev ==>
      0 <= rev[v] < |arr| && arr[rev[v]] == v
      && forall j :: rev[v] < j < |arr| ==> arr[j] != v
  {
    if |arr| == 0 then map[]
    else
      var n := |arr| - 1;
      var rev' := ReverseArrayIdxAndValue(arr[..n]);
      assert forall v :: v in arr <==> v in arr[..n] || v == arr[n] by {
        assert arr == arr[..n] + [arr[n]];
      }
      rev'[arr[n] := n]
  }

  /** The position of a type in the packed order is recovered from the index map. */
  lemma IndexMapInvertsOrder(i: int)
    requires 0 <= i < |MsgTypesInOrder|
    ensures MsgTypesInOrderIndexMap[MsgTypesInOrder[i]] == i
  {
    TransferTypesCount();
    ReverseOfDistinct(MsgTypesInOrder, i);
  }

  /** Without repeats, the reversed array sends every value back to its own position. */
  lemma ReverseOfDistinct(arr: seq<string>, i: int)
    requires Distinct(arr) && 0 <= i < |arr|
    ensures ReverseArrayIdxAndValue(arr)[arr[i]] == i
  {
    var rev := ReverseArrayIdxAndValue(arr);
    assert arr[i] in rev;
    assert arr[rev[arr[i]]] == arr[i];
  }

  /** The keys of `obj` whose value is `v`, in key order: the reference for `reverseObject`. */
  function KeysWithValue(obj: Entries, v: string): seq<string> {
    if |obj| == 0 then []
    else
      var last := obj[|obj| - 1];
      KeysWithValue(obj[..|obj| - 1], v) + (if last.1 == v then [last.0] else [])
  }

  /** A property read `rev[v]` on a reversed object. */
  function Lookup(rev: seq<(string, seq<string>)>, v: string): Option<seq<string>> {
    if |rev| == 0 then None
    else if rev[0].0 == v then Some(rev[0].1)
    else Lookup(rev[1..], v)
  }

  /** `rev[v].push(k)` when `rev[v]` exists, `rev[v] = [k]` otherwise. */
  function AddKey(rev: seq<(string, seq<string>)>, k: string, v: string): seq<(string, seq<string>)> {
    if |rev| == 0 then [(v, [k])]
    else if rev[0].0 == v then [(v, rev[0].1 + [k])] + rev[1..]
    else [rev[0]] + AddKey(rev[1..], k, v)
  }

  /** `reverseObject`: groups the keys of `obj` by value, visiting keys in order. */
  function ReverseObject(obj: Entries): seq<(string, seq<string>)> {
    if |obj| == 0 then []
    else
      var last := obj[|obj| - 1];
      AddKey(ReverseObject(obj[..|obj| - 1]), last.0, last.1)
  }

  lemma {:induction false} AddKeyLookup(rev: seq<(string, seq<string>)>, k: string, v: string, w: string)
    ensures Lookup(AddKey(rev, k, v), w)
         == if w == v then Some(Lookup(rev, v).GetOr([]) + [k]) else Lookup(rev, w)
  {
    if |rev| > 0 && rev[0].0 != v {
      AddKeyLookup(rev[1..], k, v, w);
      assert ([rev[0]] + AddKey(rev[1..], k, v))[1..] == AddKey(rev[1..], k, v);
    } else if |rev| > 0 {
      var r := [(v, rev[0].1 + [k])] + rev[1..];
      assert AddKey(rev, k, v) == r;
      assert r[0].0 == v && r[1..] == rev[1..];
      assert Lookup(rev, v) == Some(rev[0].1);
      if w != v {
        assert Lookup(r, w) == Lookup(rev[1..], w);
        assert Lookup(rev, w) == Lookup(rev[1..], w);
      } else {
        assert Lookup(r, w) == Some(rev[0].1 + [k]);
        assert Lookup(rev, v).GetOr([]) == rev[0].1;
      }
    } else {
      assert [(v, [k])][1..] == [];
      assert [] + [k] == [k];
    }
  }

  /**
   * `reverseObject` is exact: `rev[v]` exists iff some key has value `v`, and then it lists
   * exactly the keys with value `v`, in key order.
   */
  lemma {:induction false} ReverseObjectLookup(obj: Entries, v: string)
    ensures Lookup(ReverseObject(obj), v)
         == if exists j :: 0 <= j < |obj| && obj[j].1 == v then Some(KeysWithValue(obj, v)) else None
  {
    if |obj| > 0 {
      var n := |obj| - 1;
      ReverseObjectLookup(obj[..n], v);
      AddKeyLookup(ReverseObject(obj[..n]), obj[n].0, obj[n].1, v);
      assert forall j :: 0 <= j < n ==> obj[..n][j] == obj[j];
      var before := exists j :: 0 <= j < n && obj[..n][j].1 == v;
      if !before {
        KeysWithValueNone(obj[..n], v);
      }
      assert KeysWithValue(obj, v)
          == KeysWithValue(obj[..n], v) + (if obj[n].1 == v then [obj[n].0] else []);
      if obj[n].1 != v && exists j :: 0 <= j < |obj| && obj[j].1 == v {
        var j :| 0 <= j < |obj| && obj[j].1 == v;
        assert j < n && obj[..n][j].1 == v;
        assert before;
        var prev := ReverseObject(obj[..n]);
        assert Lookup(prev, v) == Some(KeysWithValue(obj[..n], v));
        assert ReverseObject(obj) == AddKey(prev, obj[n].0, obj[n].1);
        assert Lookup(ReverseObject(obj), v) == Lookup(prev, v);
        assert KeysWithValue(obj, v) == KeysWithValue(obj[..n], v);
      }
    }
  }

  lemma {:induction false} KeysWithValueNone(obj: Entries, v: string)
    requires forall j :: 0 <= j < |obj| ==> obj[j].1 != v
    ensures KeysWithValue(obj, v) == []
  {
    if |obj| > 0 {
      var n := |obj| - 1;
      assert forall j :: 0 <= j < n ==> obj[..n][j] == obj[j];
      KeysWithValueNone(obj[..n], v);
    }
  }

  /** A key is listed under `v` iff the object has an entry with that key and value `v`. */
  lemma {:induction false} KeysWithValueMembership(obj: Entries, v: string, k: string)
    ensures k in KeysWithValue(obj, v) <==> exists j :: 0 <= j < |obj| && obj[j] == (k, v)
  {
    if |obj| > 0 {
      var n := |obj| - 1;
      KeysWithValueMembership(obj[..n], v, k);
      assert forall j :: 0 <= j < n ==> obj[..n][j] == obj[j];
      if exists j :: 0 <= j < |obj| && obj[j] == (k, v) {
        var j :| 0 <= j < |obj| && obj[j] == (k, v);
        if j < n { assert obj[..n][j] == (k, v); }
      }
    }
  }

  /** Every message type has a message group, and only `Read` and `Write` occur. */
  lemma MsgGroupsMapTotal()
    ensures forall t :: t in MsgTypes ==> t in MsgGroupsMap && MsgGroupsMap[t] in MsgGroupsDomain
    ensures forall t :: t in MsgGroupsMap ==> t in MsgTypes
    ensures forall t :: t in MsgGroupsMap ==> MsgGroupsMap[t] == "Read" || MsgGroupsMap[t] == "Write"
  {
    var e := MsgGroupsEntries;
    assert ToMap(e[..0]) == map[];
    assert ToMap(e[..1]) == map["*mem.DataReadyRsp" := "Read"] by { assert e[..1][..0] == e[..0]; }
    assert ToMap(e[..2]) == map["*mem.DataReadyRsp" := "Read", "*mem.ReadReq" := "Read"] by {
      assert e[..2][..1] == e[..1];
    }
    assert ToMap(e[..3]) == map["*mem.DataReadyRsp" := "Read", "*mem.ReadReq" := "Read",
                                "*mem.WriteDoneRsp" := "Write"] by {
      assert e[..3][..2] == e[..2];
    }
    assert e[..4][..3] == e[..3] && e == e[..4];
  }

  /** Every message type has a data-or-command tag, and it lies in the domain. */
  lemma DataOrCommandMapTotal()
    ensures forall t :: t in MsgTypes ==> t in DataOrCommandMap && DataOrCommandMap[t] in DataOrCommandDomain
    ensures forall t :: t in DataOrCommandMap ==> t in MsgTypes
  {
    var e := DataOrCommandEntries;
    assert ToMap(e[..0]) == map[];
    assert ToMap(e[..1]) == map["*mem.DataReadyRsp" := "D"] by { assert e[..1][..0] == e[..0]; }
    assert ToMap(e[..2]) == map["*mem.DataReadyRsp" := "D", "*mem.ReadReq" := "C"] by {
      assert e[..2][..1] == e[..1];
    }
    assert ToMap(e[..3]) == map["*mem.DataReadyRsp" := "D", "*mem.ReadReq" := "C",
                                "*mem.WriteDoneRsp" := "C"] by {
      assert e[..3][..2] == e[..2];
    }
    assert e[..4][..3] == e[..3] && e == e[..4];
  }

  /** The four transfer types are distinct, matching the literal 4 in the vector strides. */
  lemma TransferTypesCount()
    ensures |TransferTypesInOrder| == 4 && Distinct(TransferTypesInOrder)
    ensures |MsgTypesInOrder| == NumMsgTypes == 4 && Distinct(MsgTypesInOrder)
  {
  }

  /** `DataOrCommandDomainNameExtend`: the display name of a data-or-command tag. */
  function DataOrCommandDomainNameExtend(v: string): (name: string)
    ensures v in DataOrCommandDomain <==> name != "Invalid"
    ensures name == "Data" <==> v == "D"
    ensures name == "Command" <==> v == "C"
  {
    if v == "D" then "Data"
    else if v == "C" then "Command"
    else "Invalid"
  }
}
