/**
 * The records the trace files hold once parsed: the run's metadata, an edge with its packed
 * traffic vector, and a per-slice summary record of the overview file.
 */
module Data {
  import opened Wrappers
  import opened Js

  /** `meta.json`; `num_channels` may be missing. */
  datatype Meta = Meta(
    width: int,
    height: int,
    elapse: int,
    numHopUnits: int,
    numChannels: Option<int>)

  /** `num_channels ?? 1`: only a missing value defaults, a present 0 stays 0. */
  function ChannelCount(meta: Meta): int {
    meta.numChannels.GetOr(1)
  }

  /** A directed link and its packed traffic vector (cumulative in a slice file). */
  datatype Edge = Edge(source: string, target: string, value: seq<Num>, detail: string)

  /** A record of `flat.json`: one message type's traffic in one slice. */
  datatype FlatRecord = FlatRecord(
    id: int,
    msgType: string,
    group: string,
    doc: string,
    count: int,
    maxFlits: int,
    hopUnits: int,
    transferType: int)
}
