/**
 * Packets as the chain of scapy layers they are made of, outermost first.
 * Only what the classifier and the sniffer look at is kept: the class name
 * of each layer, the 16-bit SID of the slice tag and the integer fields of
 * the ordinary headers (`tos`, `chksum`, ...).
 */
module Packets {
  import opened Wrappers

  /** The `SID` field of `SliceLayer`, a scapy `ShortField` (unsigned 16-bit). */
  newtype Sid = x: int | 0 <= x < 0x1_0000

  /** The class name of any layer other than the slice tag. */
  type HeaderName = s: string | s != "SliceLayer" witness ""

  /**
   * One layer. A header field that is absent from `fields` is unset
   * (scapy's `None`, filled in when the packet is built).
   */
  datatype Layer =
    | SliceLayer(sid: Sid)
    | Header(name: HeaderName, fields: map<string, int>)
  {
    /** `layer.__class__.__name__` */
    function ClassName(): string {
      if SliceLayer? then "SliceLayer" else name
    }
  }

  /** `packet.haslayer(SliceLayer)` */
  predicate HasSliceLayer(layers: seq<Layer>) {
    exists i :: 0 <= i < |layers| && layers[i].SliceLayer?
  }

  /** `cls in packet` for the header class called `name`. */
  predicate HasHeader(layers: seq<Layer>, name: string) {
    exists i :: 0 <= i < |layers| && layers[i].Header? && layers[i].name == name
  }

  /** Position of the first slice tag at or after position `from`. */
  function FirstSliceFrom(layers: seq<Layer>, from: nat): (r: Option<nat>)
    decreases |layers| - from
    ensures r.Some? ==> from <= r.value < |layers| && layers[r.value].SliceLayer?
    ensures r.Some? ==> forall j :: from <= j < r.value ==> !layers[j].SliceLayer?
    ensures r.None? ==> forall j :: from <= j < |layers| ==> !layers[j].SliceLayer?
  {
    if from >= |layers| then None
    else if layers[from].SliceLayer? then Some(from)
    else FirstSliceFrom(layers, from + 1)
  }

  /** Position of the first header called `name`, the layer `packet[cls]` returns. */
  function FirstHeader(layers: seq<Layer>, name: string): (r: Option<nat>)
    ensures r.Some? ==> r.value < |layers| && layers[r.value].Header? && layers[r.value].name == name
    ensures r.Some? ==> forall j :: 0 <= j < r.value ==> !(layers[j].Header? && layers[j].name == name)
    ensures r.None? <==> !HasHeader(layers, name)
  {
    if |layers| == 0 then None
    else if layers[0].Header? && layers[0].name == name then Some(0)
    else
      match FirstHeader(layers[1..], name)
      case None =>
        assert forall j :: 1 <= j < |layers| ==> layers[j] == layers[1..][j - 1];
        None
      case Some(k) => Some(k + 1)
  }

  /** The SID that `packet[SliceLayer].SID` reads: that of the first slice tag. */
  function FirstSid(layers: seq<Layer>): (sid: Sid)
    requires HasSliceLayer(layers)
    ensures exists i ::
      && 0 <= i < |layers| && layers[i] == SliceLayer(sid)
      && forall j :: 0 <= j < i ==> !layers[j].SliceLayer?
  {
    var i := FirstSliceFrom(layers, 0).value;
    layers[i].sid
  }

  /** A scapy packet: its chain of layers, which the sniffer and the classifier edit in place. */
  class Packet {
    var layers: seq<Layer>

    constructor (layers: seq<Layer>)
      ensures this.layers == layers
    {
      this.layers := layers;
    }
  }
}
