/**
 * Model of utils/metrics.py: the packet and byte counters the sniffer
 * updates once per captured packet.
 */
module Metrics {

  class PacketMetrics {
    var packetCount: int
    var totalData: int
    /** `time.time()` when the object was made; the clock is an input. */
    var startTime: real

    constructor (now: real)
      ensures packetCount == 0 && totalData == 0 && startTime == now
    {
      packetCount := 0;
      totalData := 0;
      startTime := now;
    }

    /** `update`: one more packet, `packetSize` more bytes; the start time stays. */
    method Update(packetSize: int)
      modifies this`packetCount, this`totalData
      ensures packetCount == old(packetCount) + 1
      ensures totalData == old(totalData) + packetSize
      ensures startTime == old(startTime)
    {
      packetCount := packetCount + 1;
      totalData := totalData + packetSize;
    }
  }

  function Sum(sizes: seq<int>): int {
    if |sizes| == 0 then 0 else sizes[0] + Sum(sizes[1..])
  }

  /** The two counters `(packet_count, total_data)` after `update` is called with each size of `sizes` in turn. */
  function Replay(counters: (int, int), sizes: seq<int>): (int, int)
    decreases |sizes|
  {
    if |sizes| == 0 then counters
    else Replay((counters.0 + 1, counters.1 + sizes[0]), sizes[1..])
  }

  /** A run of updates adds one packet per call and the sum of the sizes to the data total. */
  lemma {:induction false} ReplayTotals(counters: (int, int), sizes: seq<int>)
    ensures Replay(counters, sizes) == (counters.0 + |sizes|, counters.1 + Sum(sizes))
    decreases |sizes|
  {
    if |sizes| > 0 {
      ReplayTotals((counters.0 + 1, counters.1 + sizes[0]), sizes[1..]);
    }
  }

  lemma {:induction false} SumSplit(sizes: seq<int>, i: nat)
    requires i <= |sizes|
    ensures Sum(sizes) == Sum(sizes[..i]) + Sum(sizes[i..])
  {
    if i > 0 {
      SumSplit(sizes[1..], i - 1);
      assert sizes[1..][..i - 1] == sizes[..i][1..];
      assert sizes[1..][i - 1..] == sizes[i..];
    }
  }

  lemma {:induction false} SumNonNegative(sizes: seq<int>)
    requires forall k :: 0 <= k < |sizes| ==> sizes[k] >= 0
    ensures Sum(sizes) >= 0
  {
    if |sizes| > 0 {
      SumNonNegative(sizes[1..]);
    }
  }

  /**
   * With sizes that are never negative, neither counter ever goes down: the
   * state after any prefix of the run is at most the state after any longer
   * prefix.
   */
  lemma ReplayMonotone(counters: (int, int), sizes: seq<int>, i: nat, j: nat)
    requires i <= j <= |sizes|
    requires forall k :: 0 <= k < |sizes| ==> sizes[k] >= 0
    ensures Replay(counters, sizes[..i]).0 <= Replay(counters, sizes[..j]).0
    ensures Replay(counters, sizes[..i]).1 <= Replay(counters, sizes[..j]).1
  {
    ReplayTotals(counters, sizes[..i]);
    ReplayTotals(counters, sizes[..j]);
    SumSplit(sizes[..j], i);
    assert sizes[..j][..i] == sizes[..i];
    SumNonNegative(sizes[..j][i..]);
  }
}
