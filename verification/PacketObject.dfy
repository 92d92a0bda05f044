// The generated class avpacket: its accessors, Clear, MergeFrom and CopyFrom, and its
// serialisers, size function and parse loop, proved against the packet values.
module PacketObject {
  import opened Bytes
  import opened Wire
  import opened Messages
  import opened CodedStream
  import opened States
  import opened Accessors
  import opened AddressObject

  const FIRST_BYTE: set<nat> := {0, 1, 2, 3, 4, 5, 6, 7}
  const SECOND_BYTE: set<nat> := {8, 9, 10, 11, 12, 13, 14, 15}

  lemma MaskClear(bits: set<nat>, mask: set<nat>)
    requires bits * mask == {}
    ensures forall i <- mask :: i !in bits
  {
    forall i <- mask
      ensures i !in bits
    {
      assert i in bits ==> i in bits * mask;
    }
  }

  class AvPacket {
    var hasBits: set<nat>
    var src: AvAddress?
    var dest: AvAddress?
    var publickey: Text
    var protocol: Text
    var ttl: u32
    var encryptMethod: u32
    var timestamp: u64
    var needSeq: AckControl?
    var payload: Text
    var dontRoute: bool
    var unknown: seq<Field>
    var cachedSize: nat

    function State(): PacketState
      reads this, src, dest, needSeq
    {
      PacketState(if src == null then Null else Object(0 in hasBits, src.State()),
                  if dest == null then Null else Object(1 in hasBits, dest.State()),
                  StringField(2 in hasBits, publickey),
                  if 3 in hasBits then Some(ttl) else None,
                  StringField(4 in hasBits, protocol),
                  if 5 in hasBits then Some(encryptMethod) else None,
                  StringField(9 in hasBits, payload),
                  if 6 in hasBits then Some(dontRoute) else None,
                  if 7 in hasBits then Some(timestamp) else None,
                  if needSeq == null then Null else Object(8 in hasBits, needSeq.View()),
                  unknown)
    }

    // What the has-bits show.
    function View(): Packet
      reads this, src, dest, needSeq
    {
      ShownPacket(State())
    }

    lemma Shows()
      ensures View() == ShownPacket(State())
    {
    }

    // Another packet, which shares no embedded message with this one.
    ghost predicate Apart(other: AvPacket)
      reads this, other
    {
      && other != this
      && (other.src != null ==> other.src != src && other.src != dest)
      && (other.dest != null ==> other.dest != src && other.dest != dest)
      && (other.needSeq != null ==> other.needSeq != needSeq)
    }

    // What every method keeps: the has-bit of an embedded message means there is one, the two
    // addresses are not shared, and a number with a clear has-bit has its default.
    ghost predicate Sound()
      reads this, needSeq
    {
      && (src != null && dest != null ==> src != dest)
      && (0 in hasBits ==> src != null) && (1 in hasBits ==> dest != null) && (8 in hasBits ==> needSeq != null)
      && (needSeq != null ==> needSeq.Tidy()) && NumbersTidy()
    }

    ghost predicate NumbersTidy()
      reads this
    {
      && (3 !in hasBits ==> ttl == DEFAULT_TTL) && (5 !in hasBits ==> encryptMethod == 0)
      && (6 !in hasBits ==> !dontRoute) && (7 !in hasBits ==> timestamp == 0)
    }

    lemma Parts()
      requires Sound()
      ensures View() == Packet(
                          if 0 in hasBits then Some(src.View()) else None,
                          if 1 in hasBits then Some(dest.View()) else None,
                          if 2 in hasBits then Some(Publickey()) else None, if 3 in hasBits then Some(ttl) else None,
                          if 4 in hasBits then Some(Protocol()) else None,
                          if 5 in hasBits then Some(encryptMethod) else None,
                          if 9 in hasBits then Some(Payload()) else None,
                          if 6 in hasBits then Some(dontRoute) else None,
                          if 7 in hasBits then Some(timestamp) else None,
                          if 8 in hasBits then Some(needSeq.View()) else None, unknown)
      ensures (0 in hasBits ==> src != null) && (1 in hasBits ==> dest != null) && (8 in hasBits ==> needSeq != null)
    {
      hide AvAddress.State, ShownAddress, AckControl.View, AckControl.Tidy, Text.Content;
    }

    lemma FirstByteClear()
      requires hasBits * FIRST_BYTE == {}
      ensures var b := View();
              && b.src.None? && b.dest.None? && b.publickey.None? && b.ttl.None? && b.protocol.None?
              && b.encryptMethod.None? && b.dontRoute.None? && b.timestamp.None?
    {
      MaskClear(hasBits, FIRST_BYTE);
    }

    lemma SecondByteClear()
      requires hasBits * SECOND_BYTE == {}
      ensures View().needSeq.None? && View().payload.None?
    {
      MaskClear(hasBits, SECOND_BYTE);
    }

    constructor ()
      ensures Sound() && State() == NEW_PACKET
    {
      hasBits, unknown, cachedSize := {}, [], 0;
      src, dest, needSeq := null, null, null;
      publickey, protocol, payload := Shared, Shared, Shared;
      ttl, encryptMethod, timestamp, dontRoute := DEFAULT_TTL, 0, 0, false;
    }

    // ----- accessors -----

    // The getters, which look at no has-bit: an absent embedded message is the default one.
    function Publickey(): bytes
      reads this
    {
      publickey.Content([])
    }

    function Protocol(): bytes
      reads this
    {
      protocol.Content(AVIM)
    }

    function Payload(): bytes
      reads this
    {
      payload.Content([])
    }

    function Src(): AddressState
      reads this, src
    {
      if src != null then src.State() else NEW_ADDRESS
    }

    function Dest(): AddressState
      reads this, dest
    {
      if dest != null then dest.State() else NEW_ADDRESS
    }

    function NeedSeq(): Ack
      reads this, needSeq
    {
      if needSeq != null then needSeq.View() else NO_ACK
    }

    // A getter returns what is shown; and, when nothing is hidden, the default otherwise.
    lemma Getters()
      requires Sound()
      ensures var p, tidy := View(), PacketTidy(State());
              && (p.publickey.Some? || tidy ==> Publickey() == OrDefault(p.publickey, []))
              && (p.protocol.Some? || tidy ==> Protocol() == OrDefault(p.protocol, [97, 118, 105, 109]))
              && (p.payload.Some? || tidy ==> Payload() == OrDefault(p.payload, []))
              && (p.src.Some? || tidy ==> ShownAddress(Src()) == OrDefault(p.src, NO_ADDRESS))
              && (p.dest.Some? || tidy ==> ShownAddress(Dest()) == OrDefault(p.dest, NO_ADDRESS))
              && (p.needSeq.Some? || tidy ==> NeedSeq() == OrDefault(p.needSeq, NO_ACK))
              && ttl == OrDefault(p.ttl, 64) && encryptMethod == OrDefault(p.encryptMethod, 0)
              && dontRoute == OrDefault(p.dontRoute, false) && timestamp == OrDefault(p.timestamp, 0)
    {
    }

    // The names a forwarder looks at, in a packet that has all its required fields.
    function SrcUsername(): bytes
      reads this, src
    {
      if src != null then src.Username() else []
    }

    function DestUsername(): bytes
      reads this, dest
    {
      if dest != null then dest.Username() else []
    }

    lemma Names()
      requires Sound() && Messages.IsInitialized(View())
      ensures SrcUsername() == UsernameOf(View().src) && DestUsername() == UsernameOf(View().dest)
      ensures ttl == TimeToLiveOf(View())
    {
      hide AckControl.View, AckControl.Tidy;
    }

    // The string field with the i-th has-bit.
    function TextAt(i: nat): Text
      reads this
    {
      if i == 2 then publickey else if i == 4 then protocol else payload
    }

    method PutPointer(i: nat, t: Text)
      requires Sound() && IsText(i)
      modifies this`publickey, this`protocol, this`payload
      ensures Sound() && State() == WithPacketText(old(State()), i, PacketText(old(State()), i).(text := t))
      ensures TextAt(i) == t
    {
      hide AvAddress.State, AckControl.View, AckControl.Tidy;
      if i == 2 {
        publickey := t;
      } else if i == 4 {
        protocol := t;
      } else {
        payload := t;
      }
    }

    method PutBit(i: nat, bit: bool)
      requires Sound() && IsText(i)
      modifies this`hasBits
      ensures Sound() && State() == WithPacketText(old(State()), i, PacketText(old(State()), i).(bit := bit))
    {
      hide AvAddress.State, AckControl.View, AckControl.Tidy;
      hasBits := if bit then hasBits + {i} else hasBits - {i};
    }

    method PutText(i: nat, bit: bool, t: Text)
      requires Sound() && IsText(i)
      modifies this`hasBits, this`publickey, this`protocol, this`payload
      ensures Sound() && State() == WithPacketText(old(State()), i, StringField(bit, t)) && TextAt(i) == t
    {
      hide State, Sound;
      PutBit(i, bit);
      PutPointer(i, t);
    }

    lemma TextIs(i: nat)
      requires IsText(i)
      ensures PacketText(State(), i) == StringField(i in hasBits, TextAt(i))
    {
      hide AvAddress.State, AckControl.View;
    }

    method ClearText(i: nat)
      requires Sound() && IsText(i)
      modifies this`hasBits, this`publickey, this`protocol, this`payload
      ensures Sound() && State() == PacketTextAfter(old(State()), i, TextCall.Clear)
    {
      TextIs(i);
      hide State, Sound;
      PutText(i, false, if TextAt(i).Own? then Own(DefaultText(i)) else Shared);
    }

    method SetText(i: nat, value: bytes)
      requires Sound() && IsText(i)
      modifies this`hasBits, this`publickey, this`protocol, this`payload
      ensures Sound() && State() == PacketTextAfter(old(State()), i, TextCall.Set(value))
    {
      hide State, Sound;
      PutText(i, true, Own(value));
    }

    // The pointer this hands out is written through by WriteText.
    method MutableText(i: nat)
      requires Sound() && IsText(i)
      modifies this`hasBits, this`publickey, this`protocol, this`payload
      ensures Sound() && State() == PacketTextAfter(old(State()), i, TextCall.Mutable) && TextAt(i).Own?
    {
      TextIs(i);
      hide State, Sound;
      PutText(i, true, if TextAt(i).Shared? then Own(DefaultText(i)) else TextAt(i));
    }

    method WriteText(i: nat, value: bytes)
      requires Sound() && IsText(i) && TextAt(i).Own?
      modifies this`hasBits, this`publickey, this`protocol, this`payload
      ensures Sound() && State() == PacketTextAfter(old(State()), i, Write(value))
    {
      TextIs(i);
      hide State, Sound;
      PutText(i, i in hasBits, Own(value));
    }

    method ReleaseText(i: nat) returns (r: Option<bytes>)
      requires Sound() && IsText(i)
      modifies this`hasBits, this`publickey, this`protocol, this`payload
      ensures Sound() && State() == PacketTextAfter(old(State()), i, TextCall.Release)
      ensures r == if old(TextAt(i)).Own? then Some(old(TextAt(i)).text) else None
    {
      hide State, Sound;
      r := if TextAt(i).Own? then Some(TextAt(i).text) else None;
      PutText(i, false, Shared);
    }

    method SetAllocatedText(i: nat, given: Option<bytes>)
      requires Sound() && IsText(i)
      modifies this`hasBits, this`publickey, this`protocol, this`payload
      ensures Sound() && State() == PacketTextAfter(old(State()), i, TextCall.SetAllocated(given))
    {
      hide State, Sound;
      PutText(i, given.Some?, if given.Some? then Own(given.value) else Shared);
    }

    method SetTimeToLive(value: u32)
      requires Sound()
      modifies this`hasBits, this`ttl
      ensures Sound() && State() == old(State()).(ttl := Some(value))
      ensures View() == old(View()).(ttl := Some(value))
    {
      hide AvAddress.State, AvAddress.View, AckControl.View, AckControl.Tidy;
      hasBits := hasBits + {3};
      ttl := value;
    }

    method ClearTimeToLive()
      requires Sound()
      modifies this`hasBits, this`ttl
      ensures Sound() && State() == old(State()).(ttl := None)
    {
      hide AvAddress.State, AckControl.View, AckControl.Tidy;
      ttl := DEFAULT_TTL;
      hasBits := hasBits - {3};
    }

    method SetEncryptMethod(value: u32)
      requires Sound()
      modifies this`hasBits, this`encryptMethod
      ensures Sound() && State() == old(State()).(encryptMethod := Some(value))
    {
      hide AvAddress.State, AckControl.View, AckControl.Tidy;
      hasBits := hasBits + {5};
      encryptMethod := value;
    }

    method ClearEncryptMethod()
      requires Sound()
      modifies this`hasBits, this`encryptMethod
      ensures Sound() && State() == old(State()).(encryptMethod := None)
    {
      hide AvAddress.State, AckControl.View, AckControl.Tidy;
      encryptMethod := 0;
      hasBits := hasBits - {5};
    }

    method SetDontRoute(value: bool)
      requires Sound()
      modifies this`hasBits, this`dontRoute
      ensures Sound() && State() == old(State()).(dontRoute := Some(value))
    {
      hide AvAddress.State, AckControl.View, AckControl.Tidy;
      hasBits := hasBits + {6};
      dontRoute := value;
    }

    method ClearDontRoute()
      requires Sound()
      modifies this`hasBits, this`dontRoute
      ensures Sound() && State() == old(State()).(dontRoute := None)
    {
      hide AvAddress.State, AckControl.View, AckControl.Tidy;
      dontRoute := false;
      hasBits := hasBits - {6};
    }

    method SetTimestamp(value: u64)
      requires Sound()
      modifies this`hasBits, this`timestamp
      ensures Sound() && State() == old(State()).(timestamp := Some(value))
    {
      hide AvAddress.State, AckControl.View, AckControl.Tidy;
      hasBits := hasBits + {7};
      timestamp := value;
    }

    method ClearTimestamp()
      requires Sound()
      modifies this`hasBits, this`timestamp
      ensures Sound() && State() == old(State()).(timestamp := None)
    {
      hide AvAddress.State, AckControl.View, AckControl.Tidy;
      timestamp := 0;
      hasBits := hasBits - {7};
    }

    // The embedded address, whatever it holds, allocated if need be.
    method MutableSrc() returns (a: AvAddress)
      requires Sound()
      modifies this`hasBits, this`src
      ensures Sound() && src == a && (if old(src) == null then fresh(a) else a == old(src))
      ensures State() == old(State()).(src := AddressFieldAfter(old(State()).src, EmbeddedCall.Mutable))
    {
      hide AvAddress.State, AckControl.View, AckControl.Tidy;
      hasBits := hasBits + {0};
      if src == null {
        src := new AvAddress();
      }
      return src;
    }

    method MutableDest() returns (a: AvAddress)
      requires Sound()
      modifies this`hasBits, this`dest
      ensures Sound() && dest == a && (if old(dest) == null then fresh(a) else a == old(dest))
      ensures State() == old(State()).(dest := AddressFieldAfter(old(State()).dest, EmbeddedCall.Mutable))
    {
      hide AvAddress.State, AckControl.View, AckControl.Tidy;
      hasBits := hasBits + {1};
      if dest == null {
        dest := new AvAddress();
      }
      return dest;
    }

    method MutableNeedSeq() returns (a: AckControl)
      requires Sound()
      modifies this`hasBits, this`needSeq
      ensures Sound() && needSeq == a && (if old(needSeq) == null then fresh(a) else a == old(needSeq))
      ensures State() == old(State()).(needSeq := AckFieldAfter(old(State()).needSeq, EmbeddedCall.Mutable))
    {
      hide AvAddress.State, AckControl.View, AckControl.Tidy;
      hasBits := hasBits + {8};
      if needSeq == null {
        needSeq := new AckControl();
      }
      return needSeq;
    }

    method ClearSrc()
      requires Sound()
      modifies this`hasBits, src
      ensures Sound() && State() == old(State()).(src := AddressFieldAfter(old(State()).src, EmbeddedCall.Clear))
    {
      hide AvAddress.State, AckControl.View, AckControl.Tidy;
      if src != null { src.Clear(); }
      hasBits := hasBits - {0};
    }

    method ClearDest()
      requires Sound()
      modifies this`hasBits, dest
      ensures Sound() && State() == old(State()).(dest := AddressFieldAfter(old(State()).dest, EmbeddedCall.Clear))
    {
      hide AvAddress.State, AckControl.View, AckControl.Tidy;
      if dest != null { dest.Clear(); }
      hasBits := hasBits - {1};
    }

    method ClearNeedSeq()
      requires Sound()
      modifies this`hasBits, needSeq
      ensures Sound() && State() == old(State()).(needSeq := AckFieldAfter(old(State()).needSeq, EmbeddedCall.Clear))
    {
      hide AvAddress.State, AckControl.View, AckControl.Tidy;
      if needSeq != null { needSeq.Clear(); }
      hasBits := hasBits - {8};
    }

    method ReleaseSrc() returns (a: AvAddress?)
      requires Sound()
      modifies this`hasBits, this`src
      ensures Sound() && a == old(src)
      ensures State() == old(State()).(src := AddressFieldAfter(old(State()).src, EmbeddedCall.Release))
    {
      hide AvAddress.State, AckControl.View, AckControl.Tidy;
      hasBits := hasBits - {0};
      a := src;
      src := null;
    }

    method ReleaseDest() returns (a: AvAddress?)
      requires Sound()
      modifies this`hasBits, this`dest
      ensures Sound() && a == old(dest)
      ensures State() == old(State()).(dest := AddressFieldAfter(old(State()).dest, EmbeddedCall.Release))
    {
      hide AvAddress.State, AckControl.View, AckControl.Tidy;
      hasBits := hasBits - {1};
      a := dest;
      dest := null;
    }

    method ReleaseNeedSeq() returns (a: AckControl?)
      requires Sound()
      modifies this`hasBits, this`needSeq
      ensures Sound() && a == old(needSeq)
      ensures State() == old(State()).(needSeq := AckFieldAfter(old(State()).needSeq, EmbeddedCall.Release))
    {
      hide AvAddress.State, AckControl.View, AckControl.Tidy;
      hasBits := hasBits - {8};
      a := needSeq;
      needSeq := null;
    }

    method SetAllocatedSrc(a: AvAddress?)
      requires Sound() && (a != null ==> a != dest)
      modifies this`hasBits, this`src
      ensures Sound() && src == a
      ensures var given := if a == null then None else Some(a.State());
              State() == old(State()).(src := AddressFieldAfter(old(State()).src, EmbeddedCall.SetAllocated(given)))
    {
      hide AvAddress.State, AckControl.View, AckControl.Tidy;
      src := a;
      hasBits := if a != null then hasBits + {0} else hasBits - {0};
    }

    method SetAllocatedDest(a: AvAddress?)
      requires Sound() && (a != null ==> a != src)
      modifies this`hasBits, this`dest
      ensures Sound() && dest == a
      ensures var given := if a == null then None else Some(a.State());
              State() == old(State()).(dest := AddressFieldAfter(old(State()).dest, EmbeddedCall.SetAllocated(given)))
    {
      hide AvAddress.State, AckControl.View, AckControl.Tidy;
      dest := a;
      hasBits := if a != null then hasBits + {1} else hasBits - {1};
    }

    method SetAllocatedNeedSeq(a: AckControl?)
      requires Sound() && (a != null ==> a.Tidy())
      modifies this`hasBits, this`needSeq
      ensures Sound() && needSeq == a
      ensures var given := if a == null then None else Some(a.View());
              State() == old(State()).(needSeq := AckFieldAfter(old(State()).needSeq, EmbeddedCall.SetAllocated(given)))
    {
      hide AvAddress.State, AckControl.View, AckControl.Tidy;
      needSeq := a;
      hasBits := if a != null then hasBits + {8} else hasBits - {8};
    }

    method IsInitialized() returns (ready: bool)
      requires Sound()
      ensures ready <==> Messages.IsInitialized(View())
      ensures ready <==> var p := View();
                && p.src.Some? && p.src.value.username.Some? && p.src.value.domain.Some?
                && p.dest.Some? && p.dest.value.username.Some? && p.dest.value.domain.Some?
                && p.ttl.Some? && p.protocol.Some? && (p.needSeq.Some? ==> p.needSeq.value.seq_.Some?)
    {
      if !({0, 1, 3, 4} <= hasBits) { return false; }
      if 0 in hasBits {
        ready := src.IsInitialized();
        if !ready { return; }
      }
      if 1 in hasBits {
        ready := dest.IsInitialized();
        if !ready { return; }
      }
      return !(8 in hasBits) || 0 in needSeq.hasBits;
    }

    // ----- Clear, MergeFrom, CopyFrom -----

    method Clear()
      requires Sound()
      modifies this, src, dest, needSeq
      ensures Sound() && src == old(src) && dest == old(dest) && needSeq == old(needSeq)
      ensures State() == PacketCleared(old(State())) && View() == NO_PACKET
      ensures PacketDefault(State()) <==> PacketTidy(old(State()))
    {
      hide *;
      ClearShows(State());
      ClearFields();
      Shows();
    }

    method ClearFields()
      requires Sound()
      modifies this, src, dest, needSeq
      ensures Sound() && src == old(src) && dest == old(dest) && needSeq == old(needSeq)
      ensures State() == PacketCleared(old(State()))
    {
      hide AvAddress.State, AckControl.View, AckControl.Tidy;
      ClearFirst();
      ClearSecond();
      hasBits := {};
      unknown := [];
    }

    // The fields of the first byte of has-bits.
    method ClearFirst()
      requires Sound()
      modifies this`publickey, this`ttl, this`protocol, this`encryptMethod, this`dontRoute, this`timestamp, src, dest
      ensures ttl == DEFAULT_TTL && encryptMethod == 0 && timestamp == 0 && !dontRoute
      ensures src != null ==> src.State() == if 0 in hasBits then AddressCleared(old(src.State())) else old(src.State())
      ensures dest != null
          ==> dest.State() == if 1 in hasBits then AddressCleared(old(dest.State())) else old(dest.State())
      ensures publickey == if 2 in hasBits && old(publickey).Own? then Own([]) else old(publickey)
      ensures protocol == if 4 in hasBits && old(protocol).Own? then Own(AVIM) else old(protocol)
    {
      hide AvAddress.State, AckControl.Tidy, AddressCleared;
      if hasBits * FIRST_BYTE != {} {
        encryptMethod, timestamp := 0, 0;
        ClearAddresses();
        if 2 in hasBits { if publickey.Own? { publickey := Own([]); } }
        ttl := DEFAULT_TTL;
        if 4 in hasBits { if protocol.Own? { protocol := Own(AVIM); } }
        dontRoute := false;
      } else {
        MaskClear(hasBits, FIRST_BYTE);
      }
    }

    method ClearAddresses()
      requires Sound()
      modifies src, dest
      ensures src != null ==> src.State() == if 0 in hasBits then AddressCleared(old(src.State())) else old(src.State())
      ensures dest != null
          ==> dest.State() == if 1 in hasBits then AddressCleared(old(dest.State())) else old(dest.State())
    {
      hide AvAddress.State, AvAddress.View, AckControl.Tidy, AddressCleared, AddressTidy, AddressDefault;
      if 0 in hasBits { if src != null { src.Clear(); } }
      if 1 in hasBits { if dest != null { dest.Clear(); } }
    }

    method ClearSecond()
      requires Sound()
      modifies this`payload, needSeq
      ensures needSeq != null ==>
                needSeq.Tidy() && needSeq.View() == if 8 in hasBits then NO_ACK else old(needSeq.View())
      ensures payload == if 9 in hasBits && old(payload).Own? then Own([]) else old(payload)
    {
      hide AckControl.View, AckControl.Tidy;
      if hasBits * {8, 9} != {} {
        if 8 in hasBits { if needSeq != null { needSeq.Clear(); } }
        if 9 in hasBits { if payload.Own? { payload := Own([]); } }
      } else {
        MaskClear(hasBits, {8, 9});
      }
    }

    method MergeSrc(from: AvAddress)
      requires Sound() && from != src && from != dest
      modifies this`hasBits, this`src, src
      ensures Sound() && (src == old(src) || fresh(src))
      ensures State() == old(State()).(src := AddressFieldMerged(old(State()).src, Some(from.View())))
    {
      hide AvAddress.State, AvAddress.View, AckControl.View, AckControl.Tidy;
      var a := MutableSrc();
      a.MergeFrom(from);
    }

    method MergeDest(from: AvAddress)
      requires Sound() && from != src && from != dest
      modifies this`hasBits, this`dest, dest
      ensures Sound() && (dest == old(dest) || fresh(dest))
      ensures State() == old(State()).(dest := AddressFieldMerged(old(State()).dest, Some(from.View())))
    {
      hide AvAddress.State, AvAddress.View, AckControl.View, AckControl.Tidy;
      var a := MutableDest();
      a.MergeFrom(from);
    }

    method MergeNeedSeq(from: AckControl)
      requires Sound() && from != needSeq
      modifies this`hasBits, this`needSeq, needSeq
      ensures Sound() && (needSeq == old(needSeq) || fresh(needSeq))
      ensures State() == old(State()).(needSeq := AckFieldMerged(old(State()).needSeq, Some(from.View())))
    {
      hide AvAddress.State, AckControl.View, AckControl.Tidy;
      var a := MutableNeedSeq();
      a.MergeFrom(from);
    }

    // The scalar fields of the first byte of has-bits, as MergeFrom copies them.
    method MergeEarlyScalars(from: AvPacket)
      requires Sound() && from != this
      modifies this`hasBits, this`publickey, this`ttl, this`protocol, this`payload
      ensures Sound()
      ensures var a, b := old(State()), from.View();
              State() == a.(publickey := TextMerged(a.publickey, b.publickey), ttl := Or(a.ttl, b.ttl),
                            protocol := TextMerged(a.protocol, b.protocol))
    {
      ghost var b := from.View();
      assert b.publickey == if 2 in from.hasBits then Some(from.Publickey()) else None;
      assert b.ttl == if 3 in from.hasBits then Some(from.ttl) else None;
      assert b.protocol == if 4 in from.hasBits then Some(from.Protocol()) else None;
      hide State, View, Sound, NumbersTidy, Publickey, Protocol;
      if 2 in from.hasBits { SetText(2, from.Publickey()); }
      if 3 in from.hasBits { SetTimeToLive(from.ttl); }
      if 4 in from.hasBits { SetText(4, from.Protocol()); }
    }

    method MergeLateScalars(from: AvPacket)
      requires Sound() && from != this
      modifies this`hasBits, this`encryptMethod, this`dontRoute, this`timestamp
      ensures Sound()
      ensures var a, b := old(State()), from.View();
              State() == a.(encryptMethod := Or(a.encryptMethod, b.encryptMethod),
                            dontRoute := Or(a.dontRoute, b.dontRoute), timestamp := Or(a.timestamp, b.timestamp))
    {
      ghost var b := from.View();
      assert b.encryptMethod == if 5 in from.hasBits then Some(from.encryptMethod) else None;
      assert b.dontRoute == if 6 in from.hasBits then Some(from.dontRoute) else None;
      assert b.timestamp == if 7 in from.hasBits then Some(from.timestamp) else None;
      hide State, View, Sound, NumbersTidy;
      if 5 in from.hasBits { SetEncryptMethod(from.encryptMethod); }
      if 6 in from.hasBits { SetDontRoute(from.dontRoute); }
      if 7 in from.hasBits { SetTimestamp(from.timestamp); }
    }

    method MergeScalars(from: AvPacket, ghost b: Packet)
      requires Sound() && from != this && b == from.View()
      modifies this`hasBits, this`publickey, this`ttl, this`protocol, this`payload, this`encryptMethod, this`dontRoute,
        this`timestamp
      ensures Sound() && State() == ScalarsMerged(old(State()), b)
    {
      hide State, View, Sound, TextMerged, Or;
      MergeEarlyScalars(from);
      MergeLateScalars(from);
    }

    method MergeAddresses(from: AvPacket)
      requires Sound() && from.Sound() && Apart(from)
      modifies this`hasBits, this`src, this`dest, src, dest
      ensures Sound() && (src == old(src) || fresh(src)) && (dest == old(dest) || fresh(dest))
      ensures var a, b := old(State()), old(from.View());
              State() == a.(src := AddressFieldMerged(a.src, b.src), dest := AddressFieldMerged(a.dest, b.dest))
    {
      from.Parts();
      hide State, View, Sound, AvAddress.View, AvAddress.State, AckControl.View, NumbersTidy, AddressMerged;
      if 0 in from.hasBits { MergeSrc(from.src); }
      if 1 in from.hasBits { MergeDest(from.dest); }
    }

    // The fields of the first byte of has-bits.
    method MergeFirst(from: AvPacket)
      requires Sound() && from.Sound() && Apart(from)
      modifies this, src, dest
      ensures Sound() && (src == old(src) || fresh(src)) && (dest == old(dest) || fresh(dest))
          && needSeq == old(needSeq)
      ensures State() == FirstMerged(old(State()), old(from.View()))
    {
      if from.hasBits * FIRST_BYTE == {} {
        from.FirstByteClear();
        NothingFirst(State(), from.View());
      }
      hide *;
      if from.hasBits * FIRST_BYTE != {} {
        MergeFirstFields(from);
      }
    }

    method MergeFirstFields(from: AvPacket)
      requires Sound() && from.Sound() && Apart(from)
      modifies this, src, dest
      ensures Sound() && (src == old(src) || fresh(src)) && (dest == old(dest) || fresh(dest))
          && needSeq == old(needSeq)
      ensures State() == FirstMerged(old(State()), old(from.View()))
    {
      ghost var b := from.View();
      FirstMergedIs(State(), b);
      assert from != this;
      hide *;
      MergeAddresses(from);
      assert from.View() == b;
      MergeScalars(from, b);
    }

    method MergeSecondFields(from: AvPacket)
      requires Sound() && from.Sound() && Apart(from)
      modifies this, needSeq
      ensures Sound()
      ensures src == old(src) && dest == old(dest) && (needSeq == old(needSeq) || fresh(needSeq))
      ensures var a, b := old(State()), old(from.View());
              State() == a.(needSeq := AckFieldMerged(a.needSeq, b.needSeq),
                            payload := TextMerged(a.payload, b.payload))
    {
      from.Parts();
      hide State, View, Sound, AvAddress.View, AvAddress.State, AckControl.View, NumbersTidy, MergeAck, Payload;
      if 8 in from.hasBits { MergeNeedSeq(from.needSeq); }
      if 9 in from.hasBits { SetText(9, from.Payload()); }
    }

    method MergeSecond(from: AvPacket)
      requires Sound() && from.Sound() && Apart(from)
      modifies this, needSeq
      ensures Sound()
      ensures src == old(src) && dest == old(dest) && (needSeq == old(needSeq) || fresh(needSeq))
      ensures State() == SecondMerged(old(State()), old(from.View()))
    {
      if from.hasBits * SECOND_BYTE == {} { from.SecondByteClear(); }
      ghost var b := from.View();
      assert from.unknown == b.unknown && from != this;
      hide State, View, Sound, Apart;
      if from.hasBits * SECOND_BYTE != {} {
        MergeSecondFields(from);
      }
      assert from.unknown == b.unknown;
      MergeUnknown(from.unknown);
    }

    method MergeUnknown(fields: seq<Field>)
      requires Sound()
      modifies this`unknown
      ensures Sound() && State() == old(State()).(unknown := old(State()).unknown + fields)
    {
      unknown := unknown + fields;
    }

    method MergeFields(from: AvPacket, ghost b: Packet)
      requires Sound() && from.Sound() && Apart(from) && b == from.View()
      modifies this, src, dest, needSeq
      ensures Sound() && from.View() == b && from.Sound()
      ensures (src == old(src) || fresh(src)) && (dest == old(dest) || fresh(dest))
      ensures needSeq == old(needSeq) || fresh(needSeq)
      ensures State() == PacketMerged(old(State()), b)
    {
      MergedInTwo(State(), b);
      hide State, View, Sound, PacketMerged, FirstMerged, SecondMerged;
      MergeFirst(from);
      assert from.View() == b && from.Sound();
      MergeSecond(from);
    }

    method MergeFrom(from: AvPacket)
      requires Sound() && from.Sound() && Apart(from)
      modifies this, src, dest, needSeq
      ensures Sound() && from.View() == old(from.View()) && from.Sound()
      ensures (src == old(src) || fresh(src)) && (dest == old(dest) || fresh(dest))
      ensures needSeq == old(needSeq) || fresh(needSeq)
      ensures State() == PacketMerged(old(State()), old(from.View()))
      ensures PacketTidy(old(State())) ==> View() == MergePacket(old(View()), old(from.View()))
    {
      hide *;
      Shows();
      if PacketTidy(State()) { MergeShows(State(), from.View()); }
      MergeFields(from, from.View());
      Shows();
    }

    method CopyFrom(from: AvPacket)
      requires Sound() && from.Sound() && (from == this || Apart(from))
      modifies this, src, dest, needSeq
      ensures Sound()
      ensures State() == if from == this then old(State())
                         else PacketMerged(PacketCleared(old(State())), old(from.View()))
      ensures View() == old(from.View()) <==> (from == this || Unharmed(old(State()), old(from.View())))
      ensures PacketTidy(old(State())) ==> View() == old(from.View())
    {
      hide *;
      if from == this { return; }
      CopyShows(State(), from.View());
      if PacketTidy(State()) { TidyCopies(State(), from.View()); }
      ClearAndMerge(from);
      Shows();
    }

    method ClearAndMerge(from: AvPacket)
      requires Sound() && from.Sound() && Apart(from)
      modifies this, src, dest, needSeq
      ensures Sound() && State() == PacketMerged(PacketCleared(old(State())), old(from.View()))
    {
      ghost var f := from.View();
      hide State, View, Sound, PacketTidy, PacketMerged, PacketCleared, PacketDefault, MergePacket;
      Clear();
      assert from.View() == f && from.Sound();
      MergeFrom(from);
    }

    // ----- the wire -----

    // What ByteSize leaves behind for the serialisers.
    ghost predicate SizesCached()
      reads this, src, dest, needSeq
    {
      AddressSizesCached() && AckSizeCached()
    }

    ghost predicate AddressSizesCached()
      reads this, src, dest
    {
      && (0 in hasBits && src != null ==> src.cachedSize == |SerializeAddress(src.View())|)
      && (1 in hasBits && dest != null ==> dest.cachedSize == |SerializeAddress(dest.View())|)
    }

    ghost predicate AckSizeCached()
      reads this, needSeq
    {
      8 in hasBits && needSeq != null ==> needSeq.cachedSize == |SerializeAck(needSeq.View())|
    }

    method SerializeWithCachedSizes(output: CodedOutput)
      requires Sound() && SizesCached()
      modifies output
      ensures output.out == old(output.out) + Serialize(View())
    {
      hide View, Sound, SizesCached, Serialize, FirstAfter, MiddleAfter, LastAfter;
      SerializeFirst(output);
      SerializeMiddle(output);
      SerializeLast(output);
      AllAfterIs(old(output.out), View());
    }

    // The fields up to upperlayerpotocol, the next three, and the last ones.
    method SerializeFirst(output: CodedOutput)
      requires Sound() && SizesCached()
      modifies output
      ensures output.out == FirstAfter(old(output.out), View())
    {
      Parts();
      hide View, Sound, EncodeField, EncodeFields, SerializeAddress, SerializeAck, NumbersTidy, Serialize;
      WriteAddress(0 in hasBits, 1, src, output);
      WriteAddress(1 in hasBits, 2, dest, output);
      WriteField(2 in hasBits, Field(3, Len(Publickey())), output);
      WriteField(3 in hasBits, Field(4, Varint(ttl)), output);
      WriteField(4 in hasBits, Field(6, Len(Protocol())), output);
    }

    method SerializeMiddle(output: CodedOutput)
      requires Sound() && SizesCached()
      modifies output
      ensures output.out == MiddleAfter(old(output.out), View())
    {
      ghost var p, o := View(), output.out;
      assert VarintBytes(7, Wide(p.encryptMethod))
          == if 5 in hasBits then EncodeField(Field(7, Varint(encryptMethod))) else [];
      assert LenBytes(8, p.payload) == if 9 in hasBits then EncodeField(Field(8, Len(Payload()))) else [];
      assert BoolBytes(9, p.dontRoute)
          == if 6 in hasBits then EncodeField(Field(9, Varint(if dontRoute then 1 else 0))) else [];
      assert MiddleAfter(o, p)
          == o + VarintBytes(7, Wide(p.encryptMethod)) + LenBytes(8, p.payload) + BoolBytes(9, p.dontRoute);
      hide *;
      WriteField(5 in hasBits, Field(7, Varint(encryptMethod)), output);
      WriteField(9 in hasBits, Field(8, Len(Payload())), output);
      WriteField(6 in hasBits, Field(9, Varint(if dontRoute then 1 else 0)), output);
    }

    method SerializeLast(output: CodedOutput)
      requires Sound() && SizesCached()
      modifies output
      ensures output.out == LastAfter(old(output.out), View())
    {
      Parts();
      hide View, Sound, EncodeField, EncodeFields, SerializeAddress, SerializeAck, NumbersTidy, Serialize;
      WriteField(7 in hasBits, Field(10, Varint(timestamp)), output);
      WriteAck(8 in hasBits, 11, needSeq, output);
      output.Write(EncodeFields(unknown));
    }

    method SerializeWithCachedSizesToArray(target: array<byte>, pos: nat) returns (end: nat)
      requires Sound() && SizesCached() && pos + |Serialize(View())| <= target.Length
      modifies target
      ensures end == pos + |Serialize(View())|
      ensures target[..end] == old(target[..pos]) + Serialize(View())
      ensures forall i :: end <= i < target.Length ==> target[i] == old(target[i])
    {
      hide View, Sound, SizesCached, Serialize, FirstAfter, MiddleAfter, LastAfter;
      AllAfterIs(target[..pos], View());
      end := SerializeFirstToArray(target, pos);
      end := SerializeMiddleToArray(target, end);
      end := SerializeLastToArray(target, end);
    }

    method SerializeAddressesToArray(target: array<byte>, pos: nat) returns (end: nat)
      requires Sound() && SizesCached() && pos <= target.Length
      requires pos + |AddressBytes(1, View().src)| + |AddressBytes(2, View().dest)| <= target.Length
      modifies target
      ensures end <= target.Length
      ensures target[..end] == old(target[..pos]) + AddressBytes(1, View().src) + AddressBytes(2, View().dest)
      ensures forall i :: end <= i < target.Length ==> target[i] == old(target[i])
    {
      Parts();
      hide View, Sound, EncodeField, EncodeFields, SerializeAddress, SerializeAck, NumbersTidy, Serialize;
      end := WriteAddressToArray(0 in hasBits, 1, src, target, pos);
      end := WriteAddressToArray(1 in hasBits, 2, dest, target, end);
    }

    method SerializeFirstToArray(target: array<byte>, pos: nat) returns (end: nat)
      requires Sound() && SizesCached() && pos <= target.Length && |FirstAfter(target[..pos], View())| <= target.Length
      modifies target
      ensures end <= target.Length && target[..end] == FirstAfter(old(target[..pos]), View())
      ensures forall i :: end <= i < target.Length ==> target[i] == old(target[i])
    {
      hide View, Sound, SizesCached, AddressBytes, LenBytes, VarintBytes;
      end := SerializeAddressesToArray(target, pos);
      end := SerializeEarlyToArray(target, end);
    }

    method SerializeEarlyToArray(target: array<byte>, pos: nat) returns (end: nat)
      requires Sound() && pos <= target.Length
      requires pos + |LenBytes(3, View().publickey)| + |VarintBytes(4, Wide(View().ttl))|
          + |LenBytes(6, View().protocol)|
            <= target.Length
      modifies target
      ensures end <= target.Length
      ensures target[..end] == old(target[..pos]) + LenBytes(3, View().publickey) + VarintBytes(4, Wide(View().ttl))
                             + LenBytes(6, View().protocol)
      ensures forall i :: end <= i < target.Length ==> target[i] == old(target[i])
    {
      ghost var p := View();
      assert LenBytes(3, p.publickey) == if 2 in hasBits then EncodeField(Field(3, Len(Publickey()))) else [];
      assert VarintBytes(4, Wide(p.ttl)) == if 3 in hasBits then EncodeField(Field(4, Varint(ttl))) else [];
      assert LenBytes(6, p.protocol) == if 4 in hasBits then EncodeField(Field(6, Len(Protocol()))) else [];
      hide *;
      end := WriteFieldToArray(2 in hasBits, Field(3, Len(Publickey())), target, pos);
      end := WriteFieldToArray(3 in hasBits, Field(4, Varint(ttl)), target, end);
      end := WriteFieldToArray(4 in hasBits, Field(6, Len(Protocol())), target, end);
    }

    method SerializeMiddleToArray(target: array<byte>, pos: nat) returns (end: nat)
      requires Sound() && SizesCached() && pos <= target.Length && |MiddleAfter(target[..pos], View())| <= target.Length
      modifies target
      ensures end <= target.Length && target[..end] == MiddleAfter(old(target[..pos]), View())
      ensures forall i :: end <= i < target.Length ==> target[i] == old(target[i])
    {
      ghost var p := View();
      assert VarintBytes(7, Wide(p.encryptMethod))
          == if 5 in hasBits then EncodeField(Field(7, Varint(encryptMethod))) else [];
      assert LenBytes(8, p.payload) == if 9 in hasBits then EncodeField(Field(8, Len(Payload()))) else [];
      assert BoolBytes(9, p.dontRoute)
          == if 6 in hasBits then EncodeField(Field(9, Varint(if dontRoute then 1 else 0))) else [];
      assert MiddleAfter(target[..pos], p)
          == target[..pos] + VarintBytes(7, Wide(p.encryptMethod)) + LenBytes(8, p.payload) + BoolBytes(9, p.dontRoute);
      hide *;
      end := WriteFieldToArray(5 in hasBits, Field(7, Varint(encryptMethod)), target, pos);
      end := WriteFieldToArray(9 in hasBits, Field(8, Len(Payload())), target, end);
      end := WriteFieldToArray(6 in hasBits, Field(9, Varint(if dontRoute then 1 else 0)), target, end);
    }

    method SerializeLastToArray(target: array<byte>, pos: nat) returns (end: nat)
      requires Sound() && SizesCached() && pos <= target.Length && |LastAfter(target[..pos], View())| <= target.Length
      modifies target
      ensures end <= target.Length && target[..end] == LastAfter(old(target[..pos]), View())
      ensures forall i :: end <= i < target.Length ==> target[i] == old(target[i])
    {
      Parts();
      hide View, Sound, EncodeField, EncodeFields, SerializeAddress, SerializeAck, NumbersTidy, Serialize;
      end := pos;
      end := WriteFieldToArray(7 in hasBits, Field(10, Varint(timestamp)), target, end);
      end := WriteAckToArray(8 in hasBits, 11, needSeq, target, end);
      end := WriteToArray(target, end, EncodeFields(unknown));
    }

    // The sizes of the fields of the two bytes of has-bits, and of the unknown fields. The
    // sizes of the embedded messages are left in them for the serialisers.
    method ByteSize() returns (size: nat)
      requires Sound() && ValidPacket(View())
      modifies this`cachedSize, src, dest, needSeq
      ensures size == cachedSize == |Serialize(View())| && View() == old(View()) && State() == old(State())
      ensures Sound() && SizesCached()
    {
      ghost var p := View();
      SerializeSize(p);
      assert unknown == p.unknown && EncodeFields([]) == [];
      hide View, State, Sound, ValidPacket, Serialize, ScalarsLength, EncodeFields, AddressBytes, AckBytes, LenBytes,
        ShownPacket, AddressSizesCached, AckSizeCached;
      Shows();
      size := FirstByteSize();
      Shows();
      var second := SecondByteSize();
      size := size + second;
      Shows();
      if unknown != [] { size := size + |EncodeFields(unknown)|; }
      SetCachedSize(size);
    }

    method SetCachedSize(size: nat)
      requires Sound() && SizesCached()
      modifies this`cachedSize
      ensures cachedSize == size && View() == old(View()) && State() == old(State()) && Sound() && SizesCached()
    {
      hide AvAddress.View, AvAddress.State, AckControl.View, AckControl.Tidy,
        SerializeAddress, SerializeAck;
      cachedSize := size;
    }

    method FirstByteSize() returns (size: nat)
      requires Sound() && ValidPacket(View())
      modifies src, dest
      ensures State() == old(State()) && Sound()
      ensures size
          == |AddressBytes(1, old(View()).src)| + |AddressBytes(2, old(View()).dest)| + ScalarsLength(old(View()))
      ensures AddressSizesCached()
    {
      if hasBits * FIRST_BYTE == {} {
        FirstByteClear();
        MaskClear(hasBits, FIRST_BYTE);
        return 0;
      }
      hide *;
      size := AddressSizes();
      var scalars := ScalarSizes();
      size := size + scalars;
    }

    method AddressSizes() returns (size: nat)
      requires Sound() && ValidPacket(View())
      modifies src, dest
      ensures State() == old(State()) && Sound()
      ensures size == |AddressBytes(1, old(View()).src)| + |AddressBytes(2, old(View()).dest)|
      ensures AddressSizesCached()
    {
      Parts();
      hide AvAddress.View, AckControl.View, NumbersTidy, EncodeField, SerializeAddress, SerializeAck, ValidAddress;
      size := 0;
      if 0 in hasBits {
        var n := AddressSize(1, src);
        size := size + n;
      }
      if 1 in hasBits {
        var n := AddressSize(2, dest);
        size := size + n;
      }
    }

    method ScalarSizes() returns (size: nat)
      requires Sound() && ValidPacket(View())
      ensures size == ScalarsLength(View())
    {
      hide View, Sound, ValidPacket, EarlyLength, LateLength;
      var early := EarlySizes();
      var late := LateSizes();
      size := early + late;
    }

    method EarlySizes() returns (size: nat)
      requires Sound() && ValidPacket(View())
      ensures size == EarlyLength(View())
    {
      ghost var p := View();
      assert Fits(p.publickey) && Fits(p.protocol);
      LenBytesSize(3, p.publickey);
      VarintBytesSize(4, Wide(p.ttl));
      LenBytesSize(6, p.protocol);
      hide Sound, ValidPacket, LenBytes, VarintBytes, VarintSize, BytesSize, AvAddress.View, AckControl.View;
      size := 0;
      if 2 in hasBits { size := size + 1 + BytesSize(Publickey()); }
      if 3 in hasBits { size := size + 1 + VarintSize(ttl); }
      if 4 in hasBits { size := size + 1 + BytesSize(Protocol()); }
    }

    method LateSizes() returns (size: nat)
      requires Sound() && ValidPacket(View())
      ensures size == LateLength(View())
    {
      ghost var p := View();
      VarintBytesSize(7, Wide(p.encryptMethod));
      BoolBytesSize(9, p.dontRoute);
      VarintBytesSize(10, p.timestamp);
      hide Sound, ValidPacket, BoolBytes, VarintBytes, VarintSize, AvAddress.View, AckControl.View;
      size := 0;
      if 5 in hasBits { size := size + 1 + VarintSize(encryptMethod); }
      if 6 in hasBits { size := size + 1 + 1; }
      if 7 in hasBits { size := size + 1 + VarintSize(timestamp); }
    }

    method SecondByteSize() returns (size: nat)
      requires Sound() && ValidPacket(View())
      modifies needSeq
      ensures State() == old(State()) && Sound()
      ensures size == |AckBytes(11, old(View()).needSeq)| + |LenBytes(8, old(View()).payload)|
      ensures AckSizeCached()
    {
      Parts();
      hide AvAddress.View, AckControl.View, NumbersTidy, EncodeField, SerializeAddress, SerializeAck, ValidAddress;
      size := 0;
      if hasBits * SECOND_BYTE == {} {
        SecondByteClear();
        MaskClear(hasBits, SECOND_BYTE);
        return;
      }
      if 8 in hasBits {
        var n := AckSize(11, needSeq);
        size := size + n;
      }
      if 9 in hasBits { size := size + 1 + BytesSize(Payload()); LenFieldSize(8, Payload()); }
    }

    // Size, array, bytes: how the library serialises a message to a string.
    method SerializeToString() returns (data: bytes)
      requires Sound() && ValidPacket(View())
      modifies this`cachedSize, src, dest, needSeq
      ensures data == Serialize(View()) && View() == old(View()) && State() == old(State()) && Sound()
    {
      hide View, Sound, ValidPacket, SizesCached, Serialize;
      var size := ByteSize();
      var target := new byte[size];
      var end := SerializeWithCachedSizesToArray(target, 0);
      data := target[..end];
      assert target[..0] == [];
      assert [] + Serialize(View()) == Serialize(View());
    }

    // ----- the parse loop -----

    // The labels of the three strings, of the four numbers, and of the embedded messages.
    method ParseString(input: CodedInput, ghost start: nat, tag: u32) returns (ok: bool, ghost field: Field)
      requires Sound() && input.TagRead(start, tag) && (tag == 26 || tag == 50 || tag == 66)
      modifies this`hasBits, this`publickey, this`protocol, this`payload, input
      ensures Sound() && input.Valid() && input.limit == old(input.limit) && old(input.pos) <= input.pos
      ensures if ok then input.FieldRead(start, field) && ApplyToPacket(old(State()), field) == Some(State())
              else State() == old(State()) && Fails(old(State()), input.buffer[start..input.limit])
    {
      hide NextField, State, Sound, ReadInto;
      var data;
      ok, data := input.ReadString(start, tag);
      field := Field(tag / 8, Len(data));
      if ok {
        SetText(if tag == 26 then 2 else if tag == 50 then 4 else 9, data);
      }
    }

    method ParseNumber(input: CodedInput, ghost start: nat, tag: u32) returns (ok: bool, ghost field: Field)
      requires Sound() && input.TagRead(start, tag) && (tag == 32 || tag == 56 || tag == 72 || tag == 80)
      modifies this`hasBits, this`ttl, this`encryptMethod, this`dontRoute, this`timestamp, input
      ensures Sound() && input.Valid() && input.limit == old(input.limit) && old(input.pos) <= input.pos
      ensures if ok then input.FieldRead(start, field) && ApplyToPacket(old(State()), field) == Some(State())
              else State() == old(State()) && Fails(old(State()), input.buffer[start..input.limit])
    {
      hide NextField, State, Sound, ReadInto, View;
      var value;
      ok, value := input.ReadVarint64(start, tag);
      field := Field(tag / 8, Varint(value));
      if ok {
        if tag == 32 {
          SetTimeToLive(value % TWO32);
        } else if tag == 56 {
          SetEncryptMethod(value % TWO32);
        } else if tag == 72 {
          SetDontRoute(value != 0);
        } else {
          SetTimestamp(value);
        }
      }
    }

    method ParseSrc(input: CodedInput, ghost start: nat) returns (ok: bool, ghost field: Field)
      requires Sound() && input.TagRead(start, 10)
      modifies this`hasBits, this`src, src, input
      ensures Sound() && input.Valid() && input.limit == old(input.limit) && old(input.pos) <= input.pos
      ensures src == old(src) || fresh(src)
      ensures if ok then input.FieldRead(start, field) && ApplyToPacket(old(State()), field) == Some(State())
              else Fails(old(State()), input.buffer[start..input.limit])
      ensures PacketTidy(old(State())) ==> PacketTidy(State())
    {
      hide NextField, ParseInto, PacketTidy, AddressTidy, AvAddress.State, AckControl.View, AckControl.Tidy;
      var a := MutableSrc();
      ok, field := ReadAddress(input, start, 10, a);
      MessageTidy(old(State()), old(State()).src, a.State());
    }

    method ParseDest(input: CodedInput, ghost start: nat) returns (ok: bool, ghost field: Field)
      requires Sound() && input.TagRead(start, 18)
      modifies this`hasBits, this`dest, dest, input
      ensures Sound() && input.Valid() && input.limit == old(input.limit) && old(input.pos) <= input.pos
      ensures dest == old(dest) || fresh(dest)
      ensures if ok then input.FieldRead(start, field) && ApplyToPacket(old(State()), field) == Some(State())
              else Fails(old(State()), input.buffer[start..input.limit])
      ensures PacketTidy(old(State())) ==> PacketTidy(State())
    {
      hide NextField, ParseInto, PacketTidy, AddressTidy, AvAddress.State, AckControl.View, AckControl.Tidy;
      var a := MutableDest();
      ok, field := ReadAddress(input, start, 18, a);
      MessageTidy(old(State()), old(State()).dest, a.State());
    }

    method ParseNeedSeq(input: CodedInput, ghost start: nat) returns (ok: bool, ghost field: Field)
      requires Sound() && input.TagRead(start, 90)
      modifies this`hasBits, this`needSeq, needSeq, input
      ensures Sound() && input.Valid() && input.limit == old(input.limit) && old(input.pos) <= input.pos
      ensures needSeq == old(needSeq) || fresh(needSeq)
      ensures if ok then input.FieldRead(start, field) && ApplyToPacket(old(State()), field) == Some(State())
              else Fails(old(State()), input.buffer[start..input.limit])
      ensures PacketTidy(old(State())) ==> PacketTidy(State())
    {
      hide NextField, ParseInto, PacketTidy, AvAddress.State, AckControl.View, AckControl.Tidy;
      var a := MutableNeedSeq();
      ok, field := ReadAck(input, start, 90, a);
      NumberTidy(old(State()), a.View());
    }

    // The label of everything else: the field is kept.
    method ParseUnusual(input: CodedInput, ghost start: nat, tag: u32) returns (ok: bool, ghost field: Field)
      requires Sound() && input.TagRead(start, tag) && !EndsMessage(tag) && !Labelled(tag)
      modifies this`unknown, input
      ensures Sound() && input.Valid() && input.limit == old(input.limit) && old(input.pos) <= input.pos
      ensures if ok then input.FieldRead(start, field) && ApplyToPacket(old(State()), field) == Some(State())
              else State() == old(State()) && Fails(old(State()), input.buffer[start..input.limit])
    {
      hide NextField, ReadInto, AvAddress.State, AckControl.View, AckControl.Tidy;
      var f;
      ok, f := input.SkipField(start, tag);
      field := f;
      if ok {
        unknown := unknown + [f];
      }
    }

    method ParseLabelled(input: CodedInput, ghost start: nat, tag: u32) returns (ok: bool, ghost field: Field)
      requires Sound() && input.TagRead(start, tag) && Labelled(tag)
      modifies this, src, dest, needSeq, input
      ensures Sound() && input.Valid() && input.limit == old(input.limit) && old(input.pos) <= input.pos
      ensures (src == old(src) || fresh(src)) && (dest == old(dest) || fresh(dest))
      ensures needSeq == old(needSeq) || fresh(needSeq)
      ensures if ok then input.FieldRead(start, field) && ApplyToPacket(old(State()), field) == Some(State())
              else Fails(old(State()), input.buffer[start..input.limit])
      ensures PacketTidy(old(State())) ==> PacketTidy(State())
    {
      hide State, Sound, ApplyToPacket, PacketTidy, Fails, CodedInput.TagRead, CodedInput.FieldRead, CodedInput.Valid;
      ghost var s := State();
      if tag == 10 {
        ok, field := ParseSrc(input, start);
      } else if tag == 18 {
        ok, field := ParseDest(input, start);
      } else if tag == 90 {
        ok, field := ParseNeedSeq(input, start);
      } else if tag == 26 || tag == 50 || tag == 66 {
        ok, field := ParseString(input, start, tag);
        FieldKeepsTidy(s, field);
      } else {
        ok, field := ParseNumber(input, start, tag);
        FieldKeepsTidy(s, field);
      }
    }

    // The label the dispatch goes to: that of a known field, or that of everything else.
    method ParseField(input: CodedInput, ghost start: nat, tag: u32, known: bool) returns (ok: bool, ghost field: Field)
      requires Sound() && input.TagRead(start, tag) && !EndsMessage(tag) && (known <==> Labelled(tag))
      modifies this, src, dest, needSeq, input
      ensures Sound() && input.Valid() && input.limit == old(input.limit) && old(input.pos) <= input.pos
      ensures (src == old(src) || fresh(src)) && (dest == old(dest) || fresh(dest))
      ensures needSeq == old(needSeq) || fresh(needSeq)
      ensures PacketTidy(old(State())) ==> PacketTidy(State())
      ensures if ok then input.FieldRead(start, field) && ApplyToPacket(old(State()), field) == Some(State())
              else Fails(old(State()), input.buffer[start..input.limit])
    {
      hide State, Sound, PacketTidy, ApplyToPacket, Fails, Labelled, EndsMessage, CodedInput.TagRead,
        CodedInput.FieldRead, CodedInput.Valid;
      if known {
        ok, field := ParseLabelled(input, start, tag);
      } else {
        ghost var s := State();
        ok, field := ParseUnusual(input, start, tag);
        FieldKeepsTidy(s, field);
      }
    }

    // A field, after its tag: it is malformed, or leaves the outcome to the rest of the input.
    method OneField(input: CodedInput, ghost start: nat, ghost begin: nat, tag: u32, known: bool) returns (ok: bool)
      requires Sound() && input.TagRead(start, tag) && !EndsMessage(tag) && (known <==> Labelled(tag))
      requires begin <= start <= input.limit <= |input.buffer|
      modifies this, src, dest, needSeq, input
      ensures Sound() && input.Valid() && input.limit == old(input.limit) && old(input.pos) <= input.pos
      ensures (src == old(src) || fresh(src)) && (dest == old(dest) || fresh(dest))
      ensures needSeq == old(needSeq) || fresh(needSeq)
      ensures PacketTidy(old(State())) ==> PacketTidy(State())
      ensures ok ==> start < input.pos
      ensures Shift(MergeAll(ApplyToPacket, old(State()), input.buffer[start..input.limit]), start - begin)
           == if ok then Shift(MergeAll(ApplyToPacket, State(), input.buffer[input.pos..input.limit]),
                               input.pos - begin)
              else Malformed
    {
      hide *;
      ghost var s := State();
      ghost var field;
      ok, field := ParseField(input, start, tag, known);
      if !ok {
        LoopFails(s, input.buffer[start..input.limit], start - begin);
      } else {
        GoesOn(s, input, start, begin, field);
      }
    }

    // One turn of the loop, after the tag of the field at `start`: it ends the loop with the
    // outcome of the plain loop, or leaves that outcome to the rest of the input.
    method Dispatch(input: CodedInput, ghost start: nat, ghost begin: nat, tag: u32, within: bool)
      returns (done: bool, ok: bool)
      requires Sound() && input.TagRead(start, tag) && begin <= start
      requires !within ==> tag > 127 || tag == 0
      requires EndsMessage(tag) ==> (input.legitimateEnd <==> start == input.limit)
      modifies this, src, dest, needSeq, input
      ensures Sound() && input.Valid() && input.limit == old(input.limit) && old(input.pos) <= input.pos
      ensures (src == old(src) || fresh(src)) && (dest == old(dest) || fresh(dest))
      ensures needSeq == old(needSeq) || fresh(needSeq)
      ensures PacketTidy(old(State())) ==> PacketTidy(State())
      ensures var r := Shift(MergeAll(ApplyToPacket, old(State()), input.buffer[start..input.limit]), start - begin);
              if !done then
                && ok
                && start < input.pos
                && r == Shift(MergeAll(ApplyToPacket, State(), input.buffer[input.pos..input.limit]), input.pos - begin)
              else if ok then r == Merged(State(), input.pos - begin, input.legitimateEnd)
              else r == Malformed
    {
      LabelledTag(tag);
      assert start <= input.limit <= |input.buffer|;
      EndsHere(State(), input, start, begin, tag);
      var known := within && Labelled(tag);
      assert known <==> Labelled(tag);
      hide *;
      if !known && EndsMessage(tag) { return true, true; }
      ok := OneField(input, start, begin, tag, known);
      done := !ok;
    }

    // One turn: reads the next tag unless the fast path has jumped over that, dispatches, and
    // tries the fast path to the field that should follow.
    method OneTurn(input: CodedInput, ghost start: nat, ghost begin: nat, jumped: bool, tag: u32, within: bool)
      returns (done: bool, ok: bool, ghost next: nat, jumped': bool, tag': u32, within': bool)
      requires Sound() && input.Valid() && begin <= start && AtField(input, start, jumped, tag, within)
      modifies this, src, dest, needSeq, input
      ensures Sound() && input.Valid() && input.limit == old(input.limit) && old(input.pos) <= input.pos
      ensures (src == old(src) || fresh(src)) && (dest == old(dest) || fresh(dest))
      ensures needSeq == old(needSeq) || fresh(needSeq)
      ensures PacketTidy(old(State())) ==> PacketTidy(State())
      ensures var r := Shift(MergeAll(ApplyToPacket, old(State()), input.buffer[start..input.limit]), start - begin);
              if !done then
                && start < next && AtField(input, next, jumped', tag', within')
                && r == Shift(MergeAll(ApplyToPacket, State(), input.buffer[next..input.limit]), next - begin)
              else if ok then r == Merged(State(), input.pos - begin, input.legitimateEnd)
              else r == Malformed
    {
      hide NextField, MergeAll, ReadTag, ApplyToPacket, State, Sound, PacketTidy, Labelled, AtField, CodedInput.TagRead;
      jumped', next := jumped, start;
      tag', within' := FieldTag(input, start, jumped, tag, within);
      done, ok := Dispatch(input, start, begin, tag', within');
      if done { return; }
      next := input.pos;
      jumped', tag', done := Expect(input, tag', within');
      if done {
        assert input.buffer[next..input.limit] == [];
        LoopAtEnd(ApplyToPacket, State(), next - begin);
      }
    }

    // The parse loop. When `jumped`, the fast path has consumed the tag of the next field
    // and goes to its label, past the dispatch; the outcome is that of the plain loop.
    method ParseLoop(input: CodedInput) returns (ok: bool)
      requires Sound() && input.Valid()
      modifies this, src, dest, needSeq, input
      ensures Sound() && input.Valid() && input.limit == old(input.limit) && old(input.pos) <= input.pos
      ensures (src == old(src) || fresh(src)) && (dest == old(dest) || fresh(dest))
      ensures needSeq == old(needSeq) || fresh(needSeq)
      ensures PacketTidy(old(State())) ==> PacketTidy(State())
      ensures var r := MergeAll(ApplyToPacket, old(State()), old(input.Rest()));
              && ok == r.Merged?
              && (ok ==> r == Merged(State(), input.pos - old(input.pos), input.legitimateEnd))
    {
      hide NextField, MergeAll, ReadTag, ApplyToPacket, State, Sound, PacketTidy, Labelled;
      ghost var goal := MergeAll(ApplyToPacket, State(), input.Rest());
      ghost var start, begin := input.pos, input.pos;
      var tag: u32, within, jumped := 0, true, false;
      while true
        invariant Sound() && input.Valid() && input.limit == old(input.limit)
        invariant begin <= start && begin <= input.pos && AtField(input, start, jumped, tag, within)
        invariant (src == old(src) || fresh(src)) && (dest == old(dest) || fresh(dest))
        invariant needSeq == old(needSeq) || fresh(needSeq)
        invariant PacketTidy(old(State())) ==> PacketTidy(State())
        invariant goal == Shift(MergeAll(ApplyToPacket, State(), input.buffer[start..input.limit]), start - begin)
        decreases input.limit - start
      {
        var done;
        done, ok, start, jumped, tag, within := OneTurn(input, start, begin, jumped, tag, within);
        if done { return; }
      }
    }

    // Into a tidy packet, parsing is parsing into the value it shows.
    method MergePartialFromCodedStream(input: CodedInput) returns (ok: bool)
      requires Sound() && input.Valid()
      modifies this, src, dest, needSeq, input
      ensures Sound() && input.Valid() && input.limit == old(input.limit) && old(input.pos) <= input.pos
      ensures (src == old(src) || fresh(src)) && (dest == old(dest) || fresh(dest))
      ensures needSeq == old(needSeq) || fresh(needSeq)
      ensures PacketTidy(old(State())) ==> PacketTidy(State())
      ensures var r := MergeAll(ApplyToPacket, old(State()), old(input.Rest()));
              && ok == r.Merged?
              && (ok ==> r == Merged(State(), input.pos - old(input.pos), input.legitimateEnd))
      ensures PacketTidy(old(State())) ==>
                var p := MergeAll(ApplyPacket, old(View()), old(input.Rest()));
                && ok == p.Merged?
                && (ok ==> p == Merged(View(), input.pos - old(input.pos), input.legitimateEnd))
    {
      hide *;
      Shows();
      if PacketTidy(State()) { ParseShows(State(), input.Rest()); }
      ok := ParseLoop(input);
      Shows();
    }
  }

  // The parse loop is at the field at `start`: nothing of it has been read, or, when the fast
  // path has jumped, its tag.
  ghost predicate AtField(input: CodedInput, start: nat, jumped: bool, tag: u32, within: bool)
    reads input
  {
    && start <= input.limit <= |input.buffer|
    && if jumped then input.TagRead(start, tag) && within && Labelled(tag) else start == input.pos
  }

  // The tag of the field at `start`, read unless the fast path already has.
  method FieldTag(input: CodedInput, ghost start: nat, jumped: bool, tag: u32, within: bool)
    returns (tag': u32, within': bool)
    requires input.Valid() && AtField(input, start, jumped, tag, within)
    modifies input
    ensures input.TagRead(start, tag') && input.limit == old(input.limit) && old(input.pos) <= input.pos
    ensures !within' ==> tag' > 127 || tag' == 0
    ensures EndsMessage(tag') ==> (input.legitimateEnd <==> start == input.limit)
  {
    tag', within' := tag, within;
    if !jumped {
      tag', within' := input.ReadTagWithCutoff(127);
    }
  }

  // After a known field: whether the tag that should follow comes next, or else the end.
  method Expect(input: CodedInput, tag: u32, within: bool) returns (jumped: bool, next: u32, end: bool)
    requires input.Valid()
    modifies input
    ensures input.Valid() && input.limit == old(input.limit) && old(input.pos) <= input.pos
    ensures AtField(input, old(input.pos), jumped, next, within)
    ensures end ==> input.pos == old(input.pos) == input.limit && input.legitimateEnd
  {
    jumped, next, end := false, tag, false;
    if within && Labelled(tag) && tag != 90 {
      next := Follower(tag);
      jumped := input.ExpectTag(next);
    } else if within && Labelled(tag) {
      end := input.ExpectAtEnd();
    }
  }

  lemma LabelledTag(tag: u32)
    ensures Labelled(tag) ==> 0 < tag <= 127 && !EndsMessage(tag)
  {
  }

  lemma EndsHere(s: PacketState, input: CodedInput, start: nat, begin: nat, tag: u32)
    requires input.TagRead(start, tag) && begin <= start
    ensures input.Valid() && start <= input.limit
    ensures EndsMessage(tag) && (input.legitimateEnd <==> start == input.limit) ==>
              Shift(MergeAll(ApplyToPacket, s, input.buffer[start..input.limit]), start - begin)
              == Merged(s, input.pos - begin, input.legitimateEnd)
  {
    hide ApplyToPacket, MergeAll, ReadTag;
    if EndsMessage(tag) {
      LoopStop(ApplyToPacket, s, input.buffer[start..input.limit], start - begin);
    }
  }

  lemma GoesOn(s: PacketState, input: CodedInput, start: nat, begin: nat, field: Field)
    requires input.FieldRead(start, field) && ApplyToPacket(s, field).Some? && begin <= start
    ensures input.pos <= input.limit && start < input.pos
    ensures Shift(MergeAll(ApplyToPacket, s, input.buffer[start..input.limit]), start - begin)
         == Shift(MergeAll(ApplyToPacket, ApplyToPacket(s, field).value, input.buffer[input.pos..input.limit]),
                  input.pos - begin)
  {
    hide ApplyToPacket, MergeAll, NextField;
    Turn(ApplyToPacket, s, input.buffer[start..input.limit], start - begin);
  }

  // The tags the dispatch has a label for, and the tag each label expects to come next.
  predicate Labelled(tag: u32) {
    || tag == 10 || tag == 18 || tag == 26 || tag == 32 || tag == 50 || tag == 56 || tag == 66 || tag == 72
    || tag == 80 || tag == 90
  }

  function Follower(tag: u32): (next: byte)
    requires Labelled(tag) && tag != 90
    ensures Labelled(next) && tag < next && forall t :: tag < t < next ==> !Labelled(t)
  {
    if tag == 10 then 18
    else if tag == 18 then 26
    else if tag == 26 then 32
    else if tag == 32 then 50
    else if tag == 50 then 56
    else if tag == 56 then 66
    else if tag == 66 then 72
    else if tag == 72 then 80
    else 90
  }

  // The next field is malformed, or is an embedded message that is.
  predicate Fails(s: PacketState, b: bytes) {
    var next := NextField(b);
    next.Broken? || (next.Got? && ApplyToPacket(s, next.field).None?)
  }

  lemma LoopFails(s: PacketState, b: bytes, k: nat)
    requires Fails(s, b)
    ensures Shift(MergeAll(ApplyToPacket, s, b), k) == Malformed
  {
    hide NextField, ApplyToPacket;
  }

  lemma FieldKeepsTidy(s: PacketState, f: Field)
    ensures PacketTidy(s) && ApplyToPacket(s, f).Some? ==> PacketTidy(ApplyToPacket(s, f).value)
  {
    if PacketTidy(s) {
      FieldShows(s, f);
    }
    hide ApplyToPacket, PacketTidy;
  }

  // An embedded message that has been read, whole or in part, hides no more than it did.
  lemma MessageTidy(s: PacketState, e: Embedded<AddressState>, a: AddressState)
    requires e == s.src || e == s.dest
    requires AddressTidy(Exposed(e, NEW_ADDRESS)) ==> AddressTidy(a)
    ensures PacketTidy(s) && e == s.src ==> PacketTidy(s.(src := Object(true, a)))
    ensures PacketTidy(s) && e == s.dest ==> PacketTidy(s.(dest := Object(true, a)))
  {
    assert AddressTidy(NEW_ADDRESS);
    hide AddressTidy, TextTidy;
  }

  lemma NumberTidy(s: PacketState, a: Ack)
    ensures PacketTidy(s) ==> PacketTidy(s.(needSeq := Object(true, a)))
  {
    hide AddressFieldTidy, TextTidy;
  }

  // An embedded message: its length becomes the limit of the input while it is parsed, and
  // it must end there.
  method ReadAddress(input: CodedInput, ghost start: nat, ghost tag: u32, a: AvAddress)
      returns (ok: bool, ghost field: Field)
    requires input.TagRead(start, tag) && tag % 8 == 2
    modifies a, input
    ensures input.Valid() && input.limit == old(input.limit) && old(input.pos) <= input.pos
    ensures AddressTidy(old(a.State())) ==> AddressTidy(a.State())
    ensures field.num == tag / 8 && field.value.Len?
    ensures ok ==> input.FieldRead(start, field)
                   && ParseInto(ApplyToAddress, old(a.State()), field.value.data) == Some(a.State())
    ensures var next := NextField(input.buffer[start..input.limit]);
            !ok ==>
              || next.Broken?
              || (next.Got? && next.field == field && ParseInto(ApplyToAddress, old(a.State()), field.value.data).None?)
  {
    hide NextField, MergeAll, ReadTag, AvAddress.State, AddressTidy;
    var length;
    ok, length := input.ReadLength(start, tag);
    field := Field(tag / 8, Len([]));
    if !ok { return; }
    field := Field(tag / 8, Len(input.buffer[input.pos..input.pos + length]));
    var outer := input.limit;
    input.limit := input.pos + length;
    ok := a.MergePartialFromCodedStream(input);
    ok := ok && input.legitimateEnd;
    input.limit := outer;
  }

  method ReadAck(input: CodedInput, ghost start: nat, ghost tag: u32, a: AckControl)
      returns (ok: bool, ghost field: Field)
    requires a.Tidy() && input.TagRead(start, tag) && tag % 8 == 2
    modifies a, input
    ensures a.Tidy() && input.Valid() && input.limit == old(input.limit) && old(input.pos) <= input.pos
    ensures field.num == tag / 8 && field.value.Len?
    ensures ok ==> input.FieldRead(start, field)
                   && ParseInto(ApplyAck, old(a.View()), field.value.data) == Some(a.View())
    ensures var next := NextField(input.buffer[start..input.limit]);
            !ok ==> next.Broken?
                    || (next.Got? && next.field == field && ParseInto(ApplyAck, old(a.View()), field.value.data).None?)
  {
    hide NextField, MergeAll, ReadTag, AckControl.View, AckControl.Tidy;
    var length;
    ok, length := input.ReadLength(start, tag);
    field := Field(tag / 8, Len([]));
    if !ok { return; }
    field := Field(tag / 8, Len(input.buffer[input.pos..input.pos + length]));
    var outer := input.limit;
    input.limit := input.pos + length;
    ok := a.MergePartialFromCodedStream(input);
    ok := ok && input.legitimateEnd;
    input.limit := outer;
  }

  // An embedded message, if it is present: its tag, its cached size, and its fields.
  method WriteAddress(present: bool, num: nat, a: AvAddress?, output: CodedOutput)
    requires present ==> a != null && a.cachedSize == |SerializeAddress(a.View())|
    modifies output
    ensures output.out
        == old(output.out) + if present then EncodeField(Field(num, Len(SerializeAddress(a.View())))) else []
  {
    hide EncodeVarint, SerializeAddress;
    if present {
      output.Write(EncodeVarint(num * 8 + 2));
      output.Write(EncodeVarint(a.cachedSize));
      a.SerializeWithCachedSizes(output);
    }
  }

  method WriteAddressToArray(present: bool, num: nat, a: AvAddress?, target: array<byte>, pos: nat) returns (end: nat)
    requires present ==> a != null && a.cachedSize == |SerializeAddress(a.View())|
    requires pos + (if present then |EncodeField(Field(num, Len(SerializeAddress(a.View()))))| else 0) <= target.Length
    modifies target
    ensures end <= target.Length
    ensures target[..end]
         == old(target[..pos]) + if present then EncodeField(Field(num, Len(SerializeAddress(a.View())))) else []
    ensures forall i :: end <= i < target.Length ==> target[i] == old(target[i])
  {
    hide EncodeVarint, SerializeAddress;
    end := pos;
    if present {
      end := WriteToArray(target, pos, EncodeVarint(num * 8 + 2));
      end := WriteToArray(target, end, EncodeVarint(a.cachedSize));
      end := a.SerializeWithCachedSizesToArray(target, end);
    }
  }

  method WriteAck(present: bool, num: nat, a: AckControl?, output: CodedOutput)
    requires present ==> a != null && a.cachedSize == |SerializeAck(a.View())|
    modifies output
    ensures output.out == old(output.out) + if present then EncodeField(Field(num, Len(SerializeAck(a.View())))) else []
  {
    hide EncodeVarint, SerializeAck;
    if present {
      output.Write(EncodeVarint(num * 8 + 2));
      output.Write(EncodeVarint(a.cachedSize));
      a.SerializeWithCachedSizes(output);
    }
  }

  method WriteAckToArray(present: bool, num: nat, a: AckControl?, target: array<byte>, pos: nat) returns (end: nat)
    requires present ==> a != null && a.cachedSize == |SerializeAck(a.View())|
    requires pos + (if present then |EncodeField(Field(num, Len(SerializeAck(a.View()))))| else 0) <= target.Length
    modifies target
    ensures end <= target.Length
    ensures target[..end]
         == old(target[..pos]) + if present then EncodeField(Field(num, Len(SerializeAck(a.View())))) else []
    ensures forall i :: end <= i < target.Length ==> target[i] == old(target[i])
  {
    hide EncodeVarint, SerializeAck;
    end := pos;
    if present {
      end := WriteToArray(target, pos, EncodeVarint(num * 8 + 2));
      end := WriteToArray(target, end, EncodeVarint(a.cachedSize));
      end := a.SerializeWithCachedSizesToArray(target, end);
    }
  }

  // The size of an embedded message, with its tag and length.
  method AddressSize(num: nat, a: AvAddress) returns (size: nat)
    requires 1 <= num < 16 && ValidAddress(a.View()) && |SerializeAddress(a.View())| < TWO31
    modifies a`cachedSize
    ensures size == |EncodeField(Field(num, Len(SerializeAddress(a.View()))))|
    ensures a.cachedSize == |SerializeAddress(a.View())| && a.View() == old(a.View()) && a.State() == old(a.State())
  {
    hide SerializeAddress, EncodeField;
    var n := a.ByteSize();
    LenFieldSize(num, SerializeAddress(a.View()));
    size := 1 + VarintSize(n) + n;
  }

  method AckSize(num: nat, a: AckControl) returns (size: nat)
    requires 1 <= num < 16 && |SerializeAck(a.View())| < TWO31
    modifies a`cachedSize
    ensures size == |EncodeField(Field(num, Len(SerializeAck(a.View()))))|
    ensures a.cachedSize == |SerializeAck(a.View())| && a.View() == old(a.View())
  {
    hide SerializeAck, EncodeField;
    var n := a.ByteSize();
    LenFieldSize(num, SerializeAck(a.View()));
    size := 1 + VarintSize(n) + n;
  }

  function ScalarsLength(p: Packet): nat { EarlyLength(p) + LateLength(p) }

  function EarlyLength(p: Packet): nat {
    |LenBytes(3, p.publickey)| + |VarintBytes(4, Wide(p.ttl))| + |LenBytes(6, p.protocol)|
  }

  function LateLength(p: Packet): nat {
    |VarintBytes(7, Wide(p.encryptMethod))| + |BoolBytes(9, p.dontRoute)| + |VarintBytes(10, p.timestamp)|
  }

  lemma LenBytesSize(num: nat, data: Option<bytes>)
    requires 1 <= num < 16 && Fits(data)
    ensures |LenBytes(num, data)| == if data.Some? then 1 + BytesSize(data.value) else 0
  {
    if data.Some? { LenFieldSize(num, data.value); }
  }

  lemma VarintBytesSize(num: nat, n: Option<u64>)
    requires 1 <= num < 16
    ensures |VarintBytes(num, n)| == if n.Some? then 1 + VarintSize(n.value) else 0
  {
    if n.Some? { VarintFieldSize(num, n.value); }
  }

  lemma BoolBytesSize(num: nat, b: Option<bool>)
    requires 1 <= num < 16
    ensures |BoolBytes(num, b)| == if b.Some? then 2 else 0
  {
    if b.Some? { VarintFieldSize(num, if b.value then 1 else 0); }
  }

  lemma SerializeSize(p: Packet)
    ensures |Serialize(p)| == |AddressBytes(1, p.src)| + |AddressBytes(2, p.dest)| + ScalarsLength(p)
                            + |AckBytes(11, p.needSeq)| + |LenBytes(8, p.payload)| + |EncodeFields(p.unknown)|
  {
    SplitPacket(p);
    hide Serialize, EncodeFields, AddressBytes, LenBytes, VarintBytes, BoolBytes, AckBytes;
  }

  // The output after the fields of p have been appended to o.
  function FirstAfter(o: bytes, p: Packet): bytes {
    o + AddressBytes(1, p.src) + AddressBytes(2, p.dest) + LenBytes(3, p.publickey) + VarintBytes(4, Wide(p.ttl))
    + LenBytes(6, p.protocol)
  }

  function MiddleAfter(o: bytes, p: Packet): bytes {
    o + VarintBytes(7, Wide(p.encryptMethod)) + LenBytes(8, p.payload) + BoolBytes(9, p.dontRoute)
  }

  function LastAfter(o: bytes, p: Packet): bytes {
    o + VarintBytes(10, p.timestamp) + AckBytes(11, p.needSeq) + EncodeFields(p.unknown)
  }

  lemma AllAfterIs(o: bytes, p: Packet)
    ensures LastAfter(MiddleAfter(FirstAfter(o, p), p), p) == o + Serialize(p)
    ensures |FirstAfter(o, p)| <= |MiddleAfter(FirstAfter(o, p), p)| <= |LastAfter(MiddleAfter(FirstAfter(o, p), p), p)|
  {
    SplitPacket(p);
    hide AddressBytes, LenBytes, VarintBytes, BoolBytes, AckBytes, EncodeFields, Serialize;
    var f := FirstBytes(p);
    AppendAssoc5(o, AddressBytes(1, p.src), AddressBytes(2, p.dest), LenBytes(3, p.publickey),
                 VarintBytes(4, Wide(p.ttl)), LenBytes(6, p.protocol));
    assert FirstAfter(o, p) == o + f;
    AfterIs(o + f, p);
    hide *;
    var r1, r2, r3 := VarintBytes(7, Wide(p.encryptMethod)), LenBytes(8, p.payload), BoolBytes(9, p.dontRoute);
    var r4, r5, r6 := VarintBytes(10, p.timestamp), AckBytes(11, p.needSeq), EncodeFields(p.unknown);
    AppendAssoc5(o, f + r1, r2, r3, r4, r5);
    AppendAssoc(o, f, r1);
    AppendAssoc(o, f + r1 + r2 + r3 + r4 + r5, r6);
  }

  lemma AfterIs(o: bytes, p: Packet)
    ensures MiddleAfter(o, p)
        == o + VarintBytes(7, Wide(p.encryptMethod)) + LenBytes(8, p.payload) + BoolBytes(9, p.dontRoute)
    ensures LastAfter(MiddleAfter(o, p), p)
         == MiddleAfter(o, p) + VarintBytes(10, p.timestamp) + AckBytes(11, p.needSeq) + EncodeFields(p.unknown)
  {
  }

  function FirstBytes(p: Packet): bytes {
    AddressBytes(1, p.src) + AddressBytes(2, p.dest) + LenBytes(3, p.publickey) + VarintBytes(4, Wide(p.ttl))
    + LenBytes(6, p.protocol)
  }

  // The bytes of the serialisation, field by field.
  lemma SplitPacket(p: Packet)
    ensures Serialize(p)
         == FirstBytes(p) + VarintBytes(7, Wide(p.encryptMethod)) + LenBytes(8, p.payload)
          + BoolBytes(9, p.dontRoute) + VarintBytes(10, p.timestamp) + AckBytes(11, p.needSeq) + EncodeFields(p.unknown)
    ensures EncodeFields([]) == []
  {
    hide EncodeField, EncodeFields, SerializeAddress, SerializeAck;
    EncodeNone();
    AddressPart(1, p.src);
    AddressPart(2, p.dest);
    LenPart(3, p.publickey);
    VarintPart(4, Wide(p.ttl));
    LenPart(6, p.protocol);
    VarintPart(7, Wide(p.encryptMethod));
    LenPart(8, p.payload);
    BoolPart(9, p.dontRoute);
    VarintPart(10, p.timestamp);
    AckPart(11, p.needSeq);
    var fs := AddressField(1, p.src);
    EncodeFieldsAppend(fs, AddressField(2, p.dest));
    fs := fs + AddressField(2, p.dest);
    EncodeFieldsAppend(fs, LenField(3, p.publickey));
    fs := fs + LenField(3, p.publickey);
    EncodeFieldsAppend(fs, VarintField(4, Wide(p.ttl)));
    fs := fs + VarintField(4, Wide(p.ttl));
    EncodeFieldsAppend(fs, LenField(6, p.protocol));
    fs := fs + LenField(6, p.protocol);
    EncodeFieldsAppend(fs, VarintField(7, Wide(p.encryptMethod)));
    fs := fs + VarintField(7, Wide(p.encryptMethod));
    EncodeFieldsAppend(fs, LenField(8, p.payload));
    fs := fs + LenField(8, p.payload);
    EncodeFieldsAppend(fs, BoolField(9, p.dontRoute));
    fs := fs + BoolField(9, p.dontRoute);
    EncodeFieldsAppend(fs, VarintField(10, p.timestamp));
    fs := fs + VarintField(10, p.timestamp);
    EncodeFieldsAppend(fs, AckField(11, p.needSeq));
    fs := fs + AckField(11, p.needSeq);
    EncodeFieldsAppend(fs, p.unknown);
  }

  function AddressBytes(num: nat, a: Option<Address>): bytes {
    match a case None => [] case Some(x) => EncodeField(Field(num, Len(SerializeAddress(x))))
  }

  function AckBytes(num: nat, a: Option<Ack>): bytes {
    match a case None => [] case Some(x) => EncodeField(Field(num, Len(SerializeAck(x))))
  }

  function BoolBytes(num: nat, b: Option<bool>): bytes {
    match b case None => [] case Some(x) => EncodeField(Field(num, Varint(if x then 1 else 0)))
  }

  lemma AddressPart(num: nat, a: Option<Address>)
    ensures EncodeFields(AddressField(num, a)) == AddressBytes(num, a)
  {
    if a.Some? { EncodeOne(Field(num, Len(SerializeAddress(a.value)))); }
  }

  lemma AckPart(num: nat, a: Option<Ack>)
    ensures EncodeFields(AckField(num, a)) == AckBytes(num, a)
  {
    if a.Some? { EncodeOne(Field(num, Len(SerializeAck(a.value)))); }
  }

  lemma BoolPart(num: nat, b: Option<bool>)
    ensures EncodeFields(BoolField(num, b)) == BoolBytes(num, b)
  {
    if b.Some? { EncodeOne(Field(num, Varint(if b.value then 1 else 0))); }
  }

  // What MergeFrom makes of the state, in two steps, one for each byte of has-bits.
  function FirstMerged(s: PacketState, m: Packet): PacketState {
    s.(src := AddressFieldMerged(s.src, m.src), dest := AddressFieldMerged(s.dest, m.dest),
       publickey := TextMerged(s.publickey, m.publickey), ttl := Or(s.ttl, m.ttl),
       protocol := TextMerged(s.protocol, m.protocol), encryptMethod := Or(s.encryptMethod, m.encryptMethod),
       dontRoute := Or(s.dontRoute, m.dontRoute), timestamp := Or(s.timestamp, m.timestamp))
  }

  function SecondMerged(s: PacketState, m: Packet): PacketState {
    s.(needSeq := AckFieldMerged(s.needSeq, m.needSeq), payload := TextMerged(s.payload, m.payload),
       unknown := s.unknown + m.unknown)
  }

  lemma MergedInTwo(s: PacketState, m: Packet)
    ensures PacketMerged(s, m) == SecondMerged(FirstMerged(s, m), m)
  {
    hide AddressFieldMerged, AckFieldMerged, TextMerged;
  }

  function ScalarsMerged(s: PacketState, m: Packet): PacketState {
    s.(publickey := TextMerged(s.publickey, m.publickey), ttl := Or(s.ttl, m.ttl),
       protocol := TextMerged(s.protocol, m.protocol), encryptMethod := Or(s.encryptMethod, m.encryptMethod),
       dontRoute := Or(s.dontRoute, m.dontRoute), timestamp := Or(s.timestamp, m.timestamp))
  }

  lemma FirstMergedIs(s: PacketState, m: Packet)
    ensures FirstMerged(s, m)
         == ScalarsMerged(s.(src := AddressFieldMerged(s.src, m.src), dest := AddressFieldMerged(s.dest, m.dest)), m)
  {
    hide AddressFieldMerged, TextMerged;
  }

  // Merging nothing changes nothing.
  lemma NothingFirst(s: PacketState, m: Packet)
    requires m.src.None? && m.dest.None? && m.publickey.None? && m.ttl.None? && m.protocol.None?
    requires m.encryptMethod.None? && m.dontRoute.None? && m.timestamp.None?
    ensures FirstMerged(s, m) == s
  {
  }

  // The name that is set through a kept pointer after clear_src: a cleared packet shows it as
  // soon as its source address is asked for.
  method StaleNameShows(name: bytes) returns (p: AvPacket)
    requires name != []
    ensures p.View().src == Some(NO_ADDRESS.(username := Some(name)))
  {
    p := new AvPacket();
    var a := p.MutableSrc();
    p.ClearSrc();
    a.SetText(0, name);
    p.Clear();
    a := p.MutableSrc();
  }
}
