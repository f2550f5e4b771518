/**
 * Model of core/network_slice.py: the per-slice packet counters that
 * `handle_packet` keeps, keyed by the five slice names.
 */
module Slicing {
  import opened Wrappers
  import opened Packets

  const URLLC := "urllc"
  const EMBB := "eMBB"
  const MMTC := "mMTC"
  const NS3 := "ns3"
  const NS4 := "ns4"

  /** The keys of `self.stats`. */
  const STAT_KEYS: set<string> := {URLLC, EMBB, MMTC, NS3, NS4}

  /** The counters of a new slice: every key at 0. */
  const FRESH_STATS: map<string, nat> := map[URLLC := 0, EMBB := 0, MMTC := 0, NS3 := 0, NS4 := 0]

  predicate WellFormed(stats: map<string, nat>) {
    stats.Keys == STAT_KEYS
  }

  /**
   * The counter `handle_packet` increments for a slice id: 0 to 2 go to the
   * three named slices, 3 and 4 (handled by the methods `ns4_slice` and
   * `ns5_slice`) to the keys `ns3` and `ns4`; any other id to none.
   */
  function CounterFor(sid: int): (r: Option<string>)
    ensures r.Some? <==> 0 <= sid <= 4
    ensures r.Some? ==> r.value in STAT_KEYS
  {
    if sid == 0 then Some(URLLC)
    else if sid == 1 then Some(EMBB)
    else if sid == 2 then Some(MMTC)
    else if sid == 3 then Some(NS3)
    else if sid == 4 then Some(NS4)
    else None
  }

  /** Ids 0 to 4 and the five counters are in one-to-one correspondence. */
  lemma CounterForIsBijective()
    ensures forall a, b :: 0 <= a <= 4 && 0 <= b <= 4 && CounterFor(a) == CounterFor(b) ==> a == b
    ensures forall k :: k in STAT_KEYS ==> exists sid :: 0 <= sid <= 4 && CounterFor(sid) == Some(k)
  {
    forall k | k in STAT_KEYS ensures exists sid :: 0 <= sid <= 4 && CounterFor(sid) == Some(k) {
      if k == URLLC { assert CounterFor(0) == Some(k); }
      else if k == EMBB { assert CounterFor(1) == Some(k); }
      else if k == MMTC { assert CounterFor(2) == Some(k); }
      else if k == NS3 { assert CounterFor(3) == Some(k); }
      else { assert CounterFor(4) == Some(k); }
    }
  }

  /** The counters after one `handle_packet(packet, sid)`. */
  function AfterPacket(stats: map<string, nat>, sid: int): (r: map<string, nat>)
    requires WellFormed(stats)
    ensures WellFormed(r)
  {
    match CounterFor(sid)
    case None => stats
    case Some(k) => stats[k := stats[k] + 1]
  }

  /**
   * Which counter each id raises: 0 `urllc`, 1 `eMBB`, 2 `mMTC`, and, through
   * the methods `ns4_slice` and `ns5_slice`, 3 `ns3` and 4 `ns4`.
   */
  lemma SidSelectsCounter(stats: map<string, nat>)
    requires WellFormed(stats)
    ensures AfterPacket(stats, 0)["urllc"] == stats["urllc"] + 1
    ensures AfterPacket(stats, 1)["eMBB"] == stats["eMBB"] + 1
    ensures AfterPacket(stats, 2)["mMTC"] == stats["mMTC"] + 1
    ensures AfterPacket(stats, 3)["ns3"] == stats["ns3"] + 1
    ensures AfterPacket(stats, 4)["ns4"] == stats["ns4"] + 1
  {
  }

  /**
   * For an id from 0 to 4 exactly one counter, the id's own, goes up, and by
   * one; every other counter keeps its value. Any other id changes nothing.
   */
  lemma AfterPacketChangesOneCounter(stats: map<string, nat>, sid: int)
    requires WellFormed(stats)
    ensures 0 <= sid <= 4 ==>
      var k := CounterFor(sid).value;
      && AfterPacket(stats, sid)[k] == stats[k] + 1
      && forall k' :: k' in STAT_KEYS && k' != k ==> AfterPacket(stats, sid)[k'] == stats[k']
    ensures !(0 <= sid <= 4) ==> AfterPacket(stats, sid) == stats
  {
  }

  /** No counter ever goes down. */
  lemma AfterPacketMonotone(stats: map<string, nat>, sid: int)
    requires WellFormed(stats)
    ensures forall k :: k in STAT_KEYS ==> stats[k] <= AfterPacket(stats, sid)[k]
  {
  }

  /** The counters after handling the ids of `sids` one after the other. */
  function AfterPackets(stats: map<string, nat>, sids: seq<int>): (r: map<string, nat>)
    requires WellFormed(stats)
    ensures WellFormed(r)
  {
    if |sids| == 0 then stats else AfterPackets(AfterPacket(stats, sids[0]), sids[1..])
  }

  /** How many ids of `sids` select counter `k`. */
  function Selecting(sids: seq<int>, k: string): nat {
    if |sids| == 0 then 0
    else (if CounterFor(sids[0]) == Some(k) then 1 else 0) + Selecting(sids[1..], k)
  }

  /** After a run of packets, each counter has gone up by the number of packets whose id selects it. */
  lemma {:induction false} AfterPacketsCounts(stats: map<string, nat>, sids: seq<int>, k: string)
    requires WellFormed(stats) && k in STAT_KEYS
    ensures AfterPackets(stats, sids)[k] == stats[k] + Selecting(sids, k)
  {
    if |sids| > 0 {
      AfterPacketsCounts(AfterPacket(stats, sids[0]), sids[1..], k);
    }
  }

  /** From a fresh slice, each counter is exactly the number of packets routed to it. */
  lemma FreshCountersCount(sids: seq<int>, k: string)
    requires k in STAT_KEYS
    ensures WellFormed(FRESH_STATS) && AfterPackets(FRESH_STATS, sids)[k] == Selecting(sids, k)
  {
    AfterPacketsCounts(FRESH_STATS, sids, k);
  }

  /** A network slice and its counters. */
  class NetworkSlice {
    const sliceId: string
    const tos: int
    const interface: string
    var stats: map<string, nat>

    ghost predicate Valid()
      reads this
    {
      WellFormed(stats)
    }

    /** `__init__`: records the id, the TOS and the interface, and starts every counter at 0. */
    constructor (sliceId: string, tos: int, interface: string)
      ensures Valid() && stats == FRESH_STATS
      ensures this.sliceId == sliceId && this.tos == tos && this.interface == interface
    {
      this.sliceId := sliceId;
      this.tos := tos;
      this.interface := interface;
      stats := FRESH_STATS;
    }

    /** `handle_packet`: counts the packet on the counter its slice id selects; the packet is not touched. */
    method HandlePacket(packet: Packet, sid: int)
      requires Valid()
      modifies this`stats
      ensures Valid() && stats == AfterPacket(old(stats), sid)
      ensures unchanged(packet)
    {
      if sid == 0 {
        URLLCSlice(packet);
      } else if sid == 1 {
        EMBBSlice(packet);
      } else if sid == 2 {
        MMTCSlice(packet);
      } else if sid == 3 {
        Ns4Slice(packet);
      } else if sid == 4 {
        Ns5Slice(packet);
      }
    }

    method URLLCSlice(packet: Packet)
      requires Valid()
      modifies this`stats
      ensures Valid() && stats == old(stats)[URLLC := old(stats)[URLLC] + 1]
    {
      stats := stats[URLLC := stats[URLLC] + 1];
    }

    method EMBBSlice(packet: Packet)
      requires Valid()
      modifies this`stats
      ensures Valid() && stats == old(stats)[EMBB := old(stats)[EMBB] + 1]
    {
      stats := stats[EMBB := stats[EMBB] + 1];
    }

    method MMTCSlice(packet: Packet)
      requires Valid()
      modifies this`stats
      ensures Valid() && stats == old(stats)[MMTC := old(stats)[MMTC] + 1]
    {
      stats := stats[MMTC := stats[MMTC] + 1];
    }

    /** Slice id 3, counted under the key `ns3`. */
    method Ns4Slice(packet: Packet)
      requires Valid()
      modifies this`stats
      ensures Valid() && stats == old(stats)[NS3 := old(stats)[NS3] + 1]
    {
      stats := stats[NS3 := stats[NS3] + 1];
    }

    /** Slice id 4, counted under the key `ns4`. */
    method Ns5Slice(packet: Packet)
      requires Valid()
      modifies this`stats
      ensures Valid() && stats == old(stats)[NS4 := old(stats)[NS4] + 1]
    {
      stats := stats[NS4 := stats[NS4] + 1];
    }
  }
}
