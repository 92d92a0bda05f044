// The forwarding of packets: a routing table that learns where a source was first heard,
// and a time to live that every forwarding lowers. Connections are numbered; what the
// module stores in them and writes to them is kept here by number.
module Forward {
  import opened Bytes
  import opened Wire
  import opened Messages
  import opened AddressObject
  import opened PacketObject
  import opened Frame

  type Id = nat

  // The routes, the user name stored in each connection, the connections that still exist,
  // and what has been handed to write_msg, in order.
  datatype Router = Router(table: map<bytes, Id>, names: map<Id, bytes>, alive: set<Id>, written: seq<(Id, bytes)>)

  // "proto.avpacket"
  const AVPACKET: bytes := [112, 114, 111, 116, 111, 46, 97, 118, 112, 97, 99, 107, 101, 116]

  predicate Writable(p: Packet) {
    Messages.IsInitialized(p) && ValidPacket(p) && FrameSize(AVPACKET, Serialize(p)) < TWO31
  }

  function PacketFrame(p: Packet): bytes
    requires Writable(p)
  {
    Encoded(Outgoing(AVPACKET, Some(Serialize(p))))
  }

  function Lowered(p: Packet): Packet
    requires TimeToLiveOf(p) > 1
  {
    p.(ttl := Some(TimeToLiveOf(p) - 1))
  }

  // ----- the module, on values -----

  function Learned(r: Router, u: bytes, c: Id): Router {
    if u in r.table then r else r.(table := r.table[u := c], names := r.names[c := u])
  }

  // The look-up of the target finds an entry of the table. The code uses what the look-up
  // returns before it compares it with the end of the table, which is defined only then.
  predicate LookupFinds(r: Router, p: Packet, c: Id) {
    UsernameOf(p.dest) in Learned(r, UsernameOf(p.src), c).table
  }

  predicate Forwards(r: Router, p: Packet, c: Id) {
    var table := Learned(r, UsernameOf(p.src), c).table;
    UsernameOf(p.dest) in table && table[UsernameOf(p.dest)] in r.alive && TimeToLiveOf(p) > 1
  }

  function Processed(r: Router, p: Packet, c: Id): Router
    requires Writable(p)
  {
    var r' := Learned(r, UsernameOf(p.src), c);
    if Forwards(r, p, c) then
      LoweredIsSmaller(p);
      r'.(written := r'.written + [(r'.table[UsernameOf(p.dest)], PacketFrame(Lowered(p)))])
    else r'
  }

  function Notified(r: Router, c: Id): Router {
    if c in r.names then r.(table := r.table - {r.names[c]}) else r
  }

  // Lowering the time to live never makes a packet longer, so a packet that can be written
  // can be forwarded.
  lemma LoweredIsSmaller(p: Packet)
    requires Messages.IsInitialized(p) && ValidPacket(p) && TimeToLiveOf(p) > 1
    ensures |Serialize(Lowered(p))| <= |Serialize(p)|
    ensures Messages.IsInitialized(Lowered(p)) && ValidPacket(Lowered(p))
    ensures Writable(p) ==> Writable(Lowered(p))
  {
    SerializeSize(p);
    SerializeSize(Lowered(p));
    VarintBytesSize(4, Wide(p.ttl));
    VarintBytesSize(4, Wide(Lowered(p).ttl));
    hide Serialize, EncodeFields, EncodeField, AddressBytes, LenBytes, VarintBytes, BoolBytes, AckBytes,
      SerializeAddress, SerializeAck, ValidAddress, ValidAck;
  }

  // Processing a packet is learning its source, and then forwarding it if it has a target.
  lemma ProcessedIs(r: Router, p: Packet, c: Id)
    requires Writable(p)
    ensures var r', d := Learned(r, UsernameOf(p.src), c), UsernameOf(p.dest);
            if d in r'.table && r'.table[d] in r'.alive && TimeToLiveOf(p) > 1 then
              && Forwards(r, p, c) && Writable(Lowered(p))
              && Processed(r, p, c) == r'.(written := r'.written + [(r'.table[d], PacketFrame(Lowered(p)))])
            else !Forwards(r, p, c) && Processed(r, p, c) == r'
    ensures LookupFinds(r, p, c) <==> UsernameOf(p.dest) in Learned(r, UsernameOf(p.src), c).table
  {
    hide Serialize, ValidPacket, Messages.IsInitialized, PacketFrame;
    if TimeToLiveOf(p) > 1 {
      LoweredIsSmaller(p);
    }
  }

  // ----- in plain terms -----

  // A packet that can be written names its source and its destination, and the names alone
  // decide: the source is learned if it has no route; and if its destination has one to a
  // connection that exists, and its time to live is above 1, the packet is written there with
  // that lowered by one, and is otherwise the same.
  lemma ByNames(r: Router, p: Packet, c: Id)
    requires Writable(p)
    ensures p.src.Some? && p.src.value.username.Some? && p.dest.Some? && p.dest.value.username.Some? && p.ttl.Some?
    ensures var u, d, t := p.src.value.username.value, p.dest.value.username.value, p.ttl.value;
            var r' := Processed(r, p, c);
            && r'.table == (if u in r.table then r.table else r.table[u := c])
            && r'.names == (if u in r.table then r.names else r.names[c := u])
            && r'.alive == r.alive
            && (LookupFinds(r, p, c) <==> d in r'.table)
            && if d in r'.table && r'.table[d] in r.alive && t > 1 then
                 Writable(p.(ttl := Some(t - 1)))
                 && r'.written == r.written + [(r'.table[d], PacketFrame(p.(ttl := Some(t - 1))))]
               else r'.written == r.written
  {
    ProcessedIs(r, p, c);
    hide Serialize, PacketFrame, ValidPacket, Processed, Forwards;
  }

  // Whatever else two packets hold: with the same names and the same time to live they are
  // learned alike, looked up alike, and written to the same connection or to none.
  lemma NamesDecide(r: Router, p: Packet, q: Packet, c: Id)
    requires Writable(p) && Writable(q) && p.ttl == q.ttl
    requires p.src.value.username == q.src.value.username && p.dest.value.username == q.dest.value.username
    ensures var r1, r2 := Processed(r, p, c), Processed(r, q, c);
            && r1.table == r2.table && r1.names == r2.names && (LookupFinds(r, p, c) <==> LookupFinds(r, q, c))
            && |r1.written| == |r2.written|
            && (r1.written != r.written ==> r1.written[|r.written|].0 == r2.written[|r.written|].0)
  {
    ByNames(r, p, c);
    ByNames(r, q, c);
    hide Processed, Writable, LookupFinds, PacketFrame;
  }

  // The frame of a packet has the name of its type in it, and its serialisation.
  lemma PacketFrameBytes(p: Packet)
    requires Writable(p)
    ensures var b, name := PacketFrame(p), "proto.avpacket";
            && |b| == 22 + |Serialize(p)| && NetworkOrder(b, 0) == |b| - 4 && NetworkOrder(b, 4) == 14
            && (forall i :: 0 <= i < 14 ==> b[8 + i] == name[i] as int) && b[22..] == Serialize(p)
  {
    hide Serialize, ValidPacket, Messages.IsInitialized, FrameOf, NetworkOrder;
    FrameBytes(Outgoing(AVPACKET, Some(Serialize(p))));
    var b := PacketFrame(p);
    assert forall i :: 0 <= i < 14 ==> b[8..22][i] == b[8 + i];
  }

  // ----- the module -----

  class ForwardModule {
    var routingTable: map<bytes, Id>
    var names: map<Id, bytes>
    var alive: set<Id>
    var written: seq<(Id, bytes)>

    function View(): Router
      reads this
    {
      Router(routingTable, names, alive, written)
    }

    constructor ()
      ensures View() == Router(map[], map[], {}, [])
    {
      routingTable, names, alive, written := map[], map[], {}, [];
    }

    method ConnectionNotify(kind: int, c: Id)
      modifies this
      ensures View() == if kind != 0 then Notified(old(View()), c) else old(View())
    {
      if kind != 0 {
        if c in names {
          routingTable := routingTable - {names[c]};
        }
      }
    }

    method Learn(username: bytes, c: Id)
      modifies this
      ensures View() == Learned(old(View()), username, c)
    {
      if username !in routingTable {
        names := names[c := username];
        routingTable := routingTable[username := c];
      }
    }

    lemma ViewIs()
      ensures View() == Router(routingTable, names, alive, written)
    {
    }

    method Send(pkt: AvPacket, ghost p: Packet, conn: Id)
      requires pkt.Sound() && p == pkt.View() && Writable(p) && pkt.ttl > 1 && TimeToLiveOf(p) == pkt.ttl
      modifies this`written, pkt, pkt.src, pkt.dest, pkt.needSeq
      ensures pkt.View() == Lowered(p) && Writable(Lowered(p))
      ensures written == old(written) + [(conn, PacketFrame(Lowered(p)))]
    {
      hide *;
      var frame := LowerAndEncode(pkt);
      written := written + [(conn, frame)];
    }

    // The result says whether the look-up of the target found an entry.
    method ProcessPacket(pkt: AvPacket, c: Id) returns (found: bool)
      requires pkt.Sound() && Writable(pkt.View())
      modifies this, pkt, pkt.src, pkt.dest, pkt.needSeq
      ensures View() == Processed(old(View()), old(pkt.View()), c)
      ensures found == old(LookupFinds(View(), pkt.View(), c))
      ensures pkt.View() == if old(Forwards(View(), pkt.View(), c)) then Lowered(old(pkt.View())) else old(pkt.View())
    {
      assert Messages.IsInitialized(pkt.View());
      pkt.Names();
      ghost var p := pkt.View();
      ProcessedIs(View(), p, c);
      hide *;
      Learn(pkt.SrcUsername(), c);
      ViewIs();
      assert pkt.View() == p;
      found := pkt.DestUsername() in routingTable;
      if found {
        var conn := routingTable[pkt.DestUsername()];
        if conn in alive {
          if pkt.ttl > 1 {
            Send(pkt, p, conn);
          }
        }
      }
      ViewIs();
    }
  }

  method LowerAndEncode(pkt: AvPacket) returns (frame: bytes)
    requires pkt.Sound() && Writable(pkt.View()) && pkt.ttl > 1 && TimeToLiveOf(pkt.View()) == pkt.ttl
    modifies pkt, pkt.src, pkt.dest, pkt.needSeq
    ensures pkt.View() == Lowered(old(pkt.View())) && Writable(pkt.View()) && frame == PacketFrame(pkt.View())
  {
    LoweredIsSmaller(pkt.View());
    hide Serialize, ValidPacket, AvPacket.View, AvPacket.Sound, AvPacket.State, Messages.IsInitialized, FrameOf;
    pkt.SetTimeToLive(pkt.ttl - 1);
    var data := pkt.SerializeToString();
    frame := Encode(Outgoing(AVPACKET, Some(data)));
  }
}
