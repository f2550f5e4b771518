/**
 * Model of core/classifier.py: reading the slice tag of a packet, cutting
 * the tag out of the layer chain and handing the packet to the slice
 * dispatcher.
 */
module Classification {
  import opened Wrappers
  import opened Packets
  import opened Slicing

  /**
   * The chain `remove_slice_layer` leaves behind: the first slice tag below
   * the outermost layer cut out (its parent now carries its payload), or
   * the chain as it was when there is none.
   */
  function WithoutInnerSlice(layers: seq<Layer>): seq<Layer> {
    match FirstSliceFrom(layers, 1)
    case None => layers
    case Some(i) => layers[..i] + layers[i + 1..]
  }

  /**
   * At most one layer goes, and only the first slice tag strictly below the
   * outermost layer; the outermost layer stays even when it is a slice tag;
   * the remaining layers keep their order, and the parent of the removed
   * tag is followed by the tag's payload.
   */
  lemma WithoutInnerSliceSpec(layers: seq<Layer>)
    ensures var r := WithoutInnerSlice(layers);
      && (r == layers <==> forall j :: 1 <= j < |layers| ==> !layers[j].SliceLayer?)
      && (|layers| > 0 ==> |r| > 0 && r[0] == layers[0])
      && (|r| == |layers| || |r| == |layers| - 1)
      && (r != layers ==>
            exists i :: 1 <= i < |layers| && layers[i].SliceLayer?
              && (forall j :: 1 <= j < i ==> !layers[j].SliceLayer?)
              && r == layers[..i] + layers[i + 1..]
              && r[i - 1] == layers[i - 1]
              && (i < |r| ==> r[i] == layers[i + 1]))
  {
    match FirstSliceFrom(layers, 1)
    case None =>
    case Some(i) =>
      CutOut(layers, i);
      assert layers[i].SliceLayer? && forall j :: 1 <= j < i ==> !layers[j].SliceLayer?;
  }

  /** Cutting out the layer at `i`, below the outermost one, closes the gap around it. */
  lemma CutOut(layers: seq<Layer>, i: nat)
    requires 1 <= i < |layers|
    ensures var r := layers[..i] + layers[i + 1..];
      && |r| == |layers| - 1 && r != layers
      && r[0] == layers[0] && r[i - 1] == layers[i - 1]
      && (i < |r| ==> r[i] == layers[i + 1])
  {
  }

  /** What is removed is removed exactly once: the multiset of layers loses one slice tag or nothing. */
  lemma WithoutInnerSliceKeepsTheRest(layers: seq<Layer>)
    ensures var r := WithoutInnerSlice(layers);
      || multiset(r) == multiset(layers)
      || exists s :: multiset(r) + multiset{SliceLayer(s)} == multiset(layers)
  {
    match FirstSliceFrom(layers, 1)
    case None =>
    case Some(i) =>
      assert layers == layers[..i] + [layers[i]] + layers[i + 1..];
      assert multiset(layers) == multiset(layers[..i]) + multiset{layers[i]} + multiset(layers[i + 1..]);
      assert multiset(layers[..i] + layers[i + 1..]) + multiset{SliceLayer(layers[i].sid)} == multiset(layers);
  }

  /**
   * The tag whose SID is dispatched is the one removed, unless the outermost
   * layer is itself a slice tag: its SID is read, but it stays, and the next
   * tag below it (if any) is the one removed.
   */
  lemma DispatchedTagIsRemovedTag(layers: seq<Layer>)
    requires HasSliceLayer(layers)
    ensures !layers[0].SliceLayer? ==>
      && FirstSliceFrom(layers, 1).Some?
      && layers[FirstSliceFrom(layers, 1).value] == SliceLayer(FirstSid(layers))
      && |WithoutInnerSlice(layers)| == |layers| - 1
    ensures layers[0].SliceLayer? ==>
      FirstSid(layers) == layers[0].sid && WithoutInnerSlice(layers)[0] == layers[0]
  {
    var i := FirstSliceFrom(layers, 0).value;
    if !layers[0].SliceLayer? {
      assert FirstSliceFrom(layers, 0) == FirstSliceFrom(layers, 1);
    }
    WithoutInnerSliceSpec(layers);
  }

  /** The classifier, with the slice dispatcher it hands tagged packets to. */
  class PacketClassifier {
    const slicer: NetworkSlice

    constructor (slicer: NetworkSlice)
      ensures this.slicer == slicer
    {
      this.slicer := slicer;
    }

    /**
     * `remove_slice_layer`: walks down the chain from the outermost layer and
     * cuts out the first payload whose class is `SliceLayer`, then stops;
     * returns the packet it was given.
     */
    method RemoveSliceLayer(packet: Packet) returns (r: Packet)
      modifies packet
      ensures r == packet
      ensures packet.layers == WithoutInnerSlice(old(packet.layers))
    {
      ghost var layers := packet.layers;
      var parent := 0;
      while parent + 1 < |packet.layers|
        invariant packet.layers == layers
        invariant FirstSliceFrom(layers, 1) == FirstSliceFrom(layers, parent + 1)
      {
        if packet.layers[parent + 1].ClassName() == "SliceLayer" {
          packet.layers := packet.layers[..parent + 1] + packet.layers[parent + 2..];
          break;
        }
        parent := parent + 1;
      }
      r := packet;
    }

    /**
     * `classify_packet`: for a packet with a slice tag, reads the SID of the
     * first tag, removes the tag below the outermost layer and counts the
     * packet on the dispatcher; a packet without a tag is left alone.
     */
    method ClassifyPacket(packet: Packet)
      requires slicer.Valid()
      modifies packet, slicer`stats
      ensures slicer.Valid()
      ensures !HasSliceLayer(old(packet.layers)) ==>
        packet.layers == old(packet.layers) && slicer.stats == old(slicer.stats)
      ensures HasSliceLayer(old(packet.layers)) ==>
        && packet.layers == WithoutInnerSlice(old(packet.layers))
        && slicer.stats == AfterPacket(old(slicer.stats), FirstSid(old(packet.layers)) as int)
    {
      if HasSliceLayer(packet.layers) {
        var sid := packet.layers[FirstSliceFrom(packet.layers, 0).value].sid;
        var stripped := RemoveSliceLayer(packet);
        slicer.HandlePacket(stripped, sid as int);
      }
    }
  }
}
