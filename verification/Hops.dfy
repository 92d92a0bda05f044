// A packet on its way through the forwarding modules: each output, decoded and processed
// again by a module in whatever state, comes out with its time to live lowered, until it
// may not be forwarded any more.
module Hops {
  import opened Bytes
  import opened Wire
  import opened Messages
  import opened AddressObject
  import opened PacketObject
  import opened Frame
  import opened Forward
  import opened Delivery
  import opened Canonical

  datatype Message = OfAvPacket(packet: Packet) | OfOther(name: bytes, payload: bytes)

  // A packet is parsed when all of the payload is, and every required field is there.
  function ParsePacket(payload: bytes): Option<Message> {
    match ParseInto(ApplyPacket, NO_PACKET, payload)
    case None => None
    case Some(p) => if Messages.IsInitialized(p) then Some(OfAvPacket(p)) else None
  }

  // The registry has the packet type, and no other type makes packets.
  ghost predicate HasPackets(registry: Registry<Message>) {
    && AVPACKET in registry && (forall payload :: registry[AVPACKET](payload) == ParsePacket(payload))
    && forall name, payload :: name in registry && name != AVPACKET && registry[name](payload).Some? ==>
         registry[name](payload).value.OfOther?
  }

  // The packets that decode takes: both addresses have a user name and a domain, there are a
  // time to live and a protocol, and an acknowledgement has its number.
  lemma Accepted(payload: bytes, p: Packet)
    ensures ParsePacket(payload) == Some(OfAvPacket(p))
       <==> && MergeAll(ApplyPacket, NO_PACKET, payload) == Merged(p, |payload|, true)
            && p.src.Some? && p.src.value.username.Some? && p.src.value.domain.Some?
            && p.dest.Some? && p.dest.value.username.Some? && p.dest.value.domain.Some?
            && p.ttl.Some? && p.protocol.Some? && (p.needSeq.Some? ==> p.needSeq.value.seq_.Some?)
  {
    hide MergeAll, ApplyPacket;
  }

  function Sent(p: Packet): Outgoing { Outgoing(AVPACKET, Some(Serialize(p))) }

  lemma SerializedParses(p: Packet)
    requires Writable(p)
    ensures ParsePacket(Serialize(p)) == Some(OfAvPacket(p)) && Serialize(p) != []
  {
    PacketRoundTrip(p);
    SerializeSize(p);
    VarintBytesSize(4, Wide(p.ttl));
    hide Serialize, MergeAll, ApplyPacket, EncodeFields, LenBytes, VarintBytes, SerializeAddress, SerializeAck,
      ValidPacket, EncodeField, AddressBytes, AckBytes;
  }

  // decode gives a packet back from its frame.
  lemma FrameDecodes(registry: Registry<Message>, p: Packet)
    requires HasPackets(registry) && Writable(p)
    ensures Received(registry, Sent(p)) == Some(OfAvPacket(p))
    ensures DecodedAs(registry, PacketFrame(p)) == Some(OfAvPacket(p))
  {
    SerializedParses(p);
    hide Serialize, ValidPacket, Messages.IsInitialized, ParsePacket;
    FrameRoundTrip(registry, Sent(p), OfAvPacket(p));
  }

  // What a module writes is decoded as the packet with only the time to live lowered, by
  // one, and never to 0; and a peer whose read loop takes the packet takes that, too.
  lemma ForwardedIsLowered(registry: Registry<Message>, r: Router, p: Packet, c: Id)
    requires HasPackets(registry) && Writable(p)
    ensures !Forwards(r, p, c) ==> Processed(r, p, c).written == r.written
    ensures Forwards(r, p, c) ==>
              var w := Processed(r, p, c).written;
              && w == r.written + [w[|r.written|]]
              && TimeToLiveOf(p) > 1 && TimeToLiveOf(Lowered(p)) == TimeToLiveOf(p) - 1 >= 1
              && DecodedAs(registry, w[|r.written|].1) == Some(OfAvPacket(Lowered(p)))
              && (!Refused(registry, Sent(p)) ==> !Refused(registry, Sent(Lowered(p))))
  {
    ProcessedIs(r, p, c);
    if Forwards(r, p, c) {
      LoweredIsSmaller(p);
      FrameDecodes(registry, Lowered(p));
    }
    hide Serialize, ValidPacket, Messages.IsInitialized, PacketFrame, DecodedAs, Received, Learned;
  }

  // A module in state r, given p on connection c, writes what is decoded as q.
  ghost predicate Outputs(registry: Registry<Message>, r: Router, p: Packet, c: Id, q: Packet) {
    && Writable(p) && Forwards(r, p, c)
    && DecodedAs(registry, Processed(r, p, c).written[|r.written|].1) == Some(OfAvPacket(q))
  }

  ghost predicate Hop(registry: Registry<Message>, p: Packet, q: Packet) {
    exists r, c :: Outputs(registry, r, p, c, q)
  }

  // Each packet after the first is a module's output for the one before.
  ghost predicate Journey(registry: Registry<Message>, ps: seq<Packet>) {
    forall k :: 0 < k < |ps| ==> Hop(registry, ps[k - 1], ps[k])
  }

  lemma HasTimeToLive(p: Packet)
    requires Writable(p)
    ensures p.ttl == Some(TimeToLiveOf(p))
  {
  }

  lemma HopLowers(registry: Registry<Message>, p: Packet, q: Packet)
    requires HasPackets(registry) && Hop(registry, p, q)
    ensures TimeToLiveOf(p) > 1 && q == Lowered(p) && Writable(q)
    ensures p.ttl.Some? && q == p.(ttl := Some(p.ttl.value - 1))
  {
    hide Processed, DecodedAs, Serialize, ValidPacket, Messages.IsInitialized;
    var r, c :| Outputs(registry, r, p, c, q);
    ForwardedIsLowered(registry, r, p, c);
    LoweredIsSmaller(p);
    HasTimeToLive(p);
  }

  // After k forwardings the packet is what it was, with its time to live lowered by k; so it
  // is forwarded at most time_to_live - 1 times, and never with a time to live of 0.
  lemma {:induction false} JourneyLowers(registry: Registry<Message>, ps: seq<Packet>)
    requires HasPackets(registry) && Journey(registry, ps) && |ps| > 1
    ensures |ps| - 1 <= TimeToLiveOf(ps[0]) - 1
    ensures ps[|ps| - 1] == ps[0].(ttl := Some(TimeToLiveOf(ps[0]) - (|ps| - 1)))
    ensures TimeToLiveOf(ps[|ps| - 1]) >= 1
    ensures ps[0].ttl.Some? && ps[|ps| - 1].ttl == Some(ps[0].ttl.value - (|ps| - 1))
  {
    hide Hop, Writable;
    var n := |ps| - 1;
    assert Hop(registry, ps[n - 1], ps[n]);
    HopLowers(registry, ps[n - 1], ps[n]);
    if n > 1 {
      JourneyLowers(registry, ps[..n]);
    }
  }

  // Every packet that decode accepts can be written again, in a frame no longer than the one
  // it came in.
  lemma ReceivedIsWritable(registry: Registry<Message>, buf: bytes, p: Packet)
    requires HasPackets(registry) && DecodedAs(registry, buf) == Some(OfAvPacket(p))
    ensures Writable(p) && |PacketFrame(p)| <= |buf|
  {
    var name, payload, m :| IsFrame(registry, buf, name, payload, m) && m == OfAvPacket(p);
    assert name == AVPACKET && ParsePacket(payload) == Some(OfAvPacket(p));
    ReserializedIsNoLonger(payload);
    hide Serialize, ValidPacket, MergeAll, FrameOf;
  }

  // So whatever packet arrives at a module, what that writes for it is taken by the next
  // one's decode as the same packet with the time to live lowered, and is no longer.
  lemma ArrivingIsForwarded(registry: Registry<Message>, buf: bytes, p: Packet, r: Router, c: Id)
    requires HasPackets(registry) && DecodedAs(registry, buf) == Some(OfAvPacket(p))
    ensures Writable(p)
    ensures Forwards(r, p, c) ==>
              var out := Processed(r, p, c).written[|r.written|].1;
              && DecodedAs(registry, out) == Some(OfAvPacket(Lowered(p))) && |out| <= |buf|
              && p.ttl.Some? && p.ttl.value > 1 && Lowered(p) == p.(ttl := Some(p.ttl.value - 1))
  {
    ReceivedIsWritable(registry, buf, p);
    ForwardedIsLowered(registry, r, p, c);
    ProcessedIs(r, p, c);
    if Forwards(r, p, c) {
      LoweredIsSmaller(p);
    }
    hide Serialize, ValidPacket, Messages.IsInitialized, DecodedAs, Learned, HasPackets;
  }
}
