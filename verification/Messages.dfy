// The messages of the protocol as values: av_address, avpacket.ack_control and avpacket.
// A field is present exactly when its has-bit is set.
module Messages {
  import opened Bytes
  import opened Wire

  function Or<T>(a: Option<T>, b: Option<T>): Option<T> { if b.Some? then b else a }

  function OrDefault<T>(a: Option<T>, default_: T): T { if a.Some? then a.value else default_ }

  // The fields of an optional member: none or one.
  function LenField(num: nat, data: Option<bytes>): seq<Field> {
    match data case None => [] case Some(d) => [Field(num, Len(d))]
  }

  function VarintField(num: nat, n: Option<u64>): seq<Field> {
    match n case None => [] case Some(v) => [Field(num, Varint(v))]
  }

  // Reading an embedded message: all of its bytes must parse.
  function ParseInto<M>(apply: (M, Field) -> Option<M>, m: M, b: bytes): Option<M> {
    match MergeAll(apply, m, b)
    case Merged(d, _, true) => Some(d)
    case _ => None
  }

  // ----- av_address -----

  datatype Address = Address(
    username: Option<bytes>, domain: Option<bytes>, resource: Option<bytes>, unknown: seq<Field>)

  const NO_ADDRESS := Address(None, None, None, [])

  predicate KnownToAddress(f: Field) { f.value.Len? && 1 <= f.num <= 3 }

  function ApplyAddress(m: Address, f: Field): Option<Address> {
    if !KnownToAddress(f) then Some(m.(unknown := m.unknown + [f]))
    else if f.num == 1 then Some(m.(username := Some(f.value.data)))
    else if f.num == 2 then Some(m.(domain := Some(f.value.data)))
    else Some(m.(resource := Some(f.value.data)))
  }

  function MergeAddress(a: Address, b: Address): Address {
    Address(Or(a.username, b.username), Or(a.domain, b.domain), Or(a.resource, b.resource), a.unknown + b.unknown)
  }

  function AddressFields(a: Address): seq<Field> {
    LenField(1, a.username) + LenField(2, a.domain) + LenField(3, a.resource) + a.unknown
  }

  function SerializeAddress(a: Address): bytes { EncodeFields(AddressFields(a)) }

  predicate Unknowns(fs: seq<Field>, known: Field -> bool) {
    AllWf(fs) && forall i :: 0 <= i < |fs| ==> !known(fs[i])
  }

  predicate Fits(data: Option<bytes>) { data.Some? ==> |data.value| < TWO31 }

  predicate ValidAddress(a: Address) {
    Fits(a.username) && Fits(a.domain) && Fits(a.resource) && Unknowns(a.unknown, KnownToAddress)
  }

  predicate AddressReady(a: Address) { a.username.Some? && a.domain.Some? }

  // ----- avpacket.ack_control -----

  datatype Ack = Ack(seq_: Option<u64>, unknown: seq<Field>)

  const NO_ACK := Ack(None, [])

  predicate KnownToAck(f: Field) { f.value.Varint? && f.num == 1 }

  function ApplyAck(m: Ack, f: Field): Option<Ack> {
    if KnownToAck(f) then Some(m.(seq_ := Some(f.value.v))) else Some(m.(unknown := m.unknown + [f]))
  }

  function MergeAck(a: Ack, b: Ack): Ack { Ack(Or(a.seq_, b.seq_), a.unknown + b.unknown) }

  function AckFields(a: Ack): seq<Field> { VarintField(1, a.seq_) + a.unknown }

  function SerializeAck(a: Ack): bytes { EncodeFields(AckFields(a)) }

  predicate ValidAck(a: Ack) { Unknowns(a.unknown, KnownToAck) }

  // ----- avpacket -----

  datatype Packet = Packet(
    src: Option<Address>, dest: Option<Address>, publickey: Option<bytes>, ttl: Option<u32>,
    protocol: Option<bytes>, encryptMethod: Option<u32>, payload: Option<bytes>,
    dontRoute: Option<bool>, timestamp: Option<u64>, needSeq: Option<Ack>, unknown: seq<Field>)

  const NO_PACKET := Packet(None, None, None, None, None, None, None, None, None, None, [])

  const DEFAULT_TTL: u32 := 64

  predicate KnownToPacket(f: Field) {
    || (f.value.Len? && (f.num == 1 || f.num == 2 || f.num == 3 || f.num == 6 || f.num == 8 || f.num == 11))
    || (f.value.Varint? && (f.num == 4 || f.num == 7 || f.num == 9 || f.num == 10))
  }

  function AddressOr(a: Option<Address>): Address { OrDefault(a, NO_ADDRESS) }

  function AckOr(a: Option<Ack>): Ack { OrDefault(a, NO_ACK) }

  function ApplyPacket(m: Packet, f: Field): Option<Packet> {
    if !KnownToPacket(f) then Some(m.(unknown := m.unknown + [f]))
    else
      match f.value
      case Varint(v) =>
        if f.num == 4 then Some(m.(ttl := Some(v % TWO32)))
        else if f.num == 7 then Some(m.(encryptMethod := Some(v % TWO32)))
        else if f.num == 9 then Some(m.(dontRoute := Some(v != 0)))
        else Some(m.(timestamp := Some(v)))
      case Len(data) =>
        if f.num == 1 then
          (match ParseInto(ApplyAddress, AddressOr(m.src), data)
           case None => None case Some(a) => Some(m.(src := Some(a))))
        else if f.num == 2 then
          (match ParseInto(ApplyAddress, AddressOr(m.dest), data)
           case None => None case Some(a) => Some(m.(dest := Some(a))))
        else if f.num == 11 then
          (match ParseInto(ApplyAck, AckOr(m.needSeq), data)
           case None => None case Some(a) => Some(m.(needSeq := Some(a))))
        else if f.num == 3 then Some(m.(publickey := Some(data)))
        else if f.num == 6 then Some(m.(protocol := Some(data)))
        else Some(m.(payload := Some(data)))
      case _ => None
  }

  function OrAddress(a: Option<Address>, b: Option<Address>): Option<Address> {
    match b case None => a case Some(y) => Some(MergeAddress(AddressOr(a), y))
  }

  function OrAck(a: Option<Ack>, b: Option<Ack>): Option<Ack> {
    match b case None => a case Some(y) => Some(MergeAck(AckOr(a), y))
  }

  function MergePacket(a: Packet, b: Packet): Packet {
    Packet(OrAddress(a.src, b.src), OrAddress(a.dest, b.dest), Or(a.publickey, b.publickey), Or(a.ttl, b.ttl),
           Or(a.protocol, b.protocol), Or(a.encryptMethod, b.encryptMethod), Or(a.payload, b.payload),
           Or(a.dontRoute, b.dontRoute), Or(a.timestamp, b.timestamp), OrAck(a.needSeq, b.needSeq),
           a.unknown + b.unknown)
  }

  function AddressField(num: nat, a: Option<Address>): seq<Field> {
    match a case None => [] case Some(x) => [Field(num, Len(SerializeAddress(x)))]
  }

  function AckField(num: nat, a: Option<Ack>): seq<Field> {
    match a case None => [] case Some(x) => [Field(num, Len(SerializeAck(x)))]
  }

  function Wide(n: Option<u32>): Option<u64> {
    match n case None => None case Some(v) => Some(v)
  }

  function BoolField(num: nat, b: Option<bool>): seq<Field> {
    match b case None => [] case Some(x) => [Field(num, Varint(if x then 1 else 0))]
  }

  // The fields in the order of the serialiser.
  function FirstFields(p: Packet): seq<Field> {
    AddressField(1, p.src) + AddressField(2, p.dest) + LenField(3, p.publickey) + VarintField(4, Wide(p.ttl))
    + LenField(6, p.protocol)
  }

  function PacketFields(p: Packet): seq<Field> {
    FirstFields(p) + VarintField(7, Wide(p.encryptMethod)) + LenField(8, p.payload)
    + BoolField(9, p.dontRoute) + VarintField(10, p.timestamp) + AckField(11, p.needSeq) + p.unknown
  }

  function Serialize(p: Packet): bytes { EncodeFields(PacketFields(p)) }

  predicate AddressFits(a: Option<Address>) {
    a.Some? ==> ValidAddress(a.value) && |SerializeAddress(a.value)| < TWO31
  }

  // A packet that can be written: no part exceeds the 2 GB a length may express, and the
  // unknown fields are unknown.
  predicate ValidPacket(p: Packet) {
    && AddressFits(p.src) && AddressFits(p.dest)
    && Fits(p.publickey) && Fits(p.protocol) && Fits(p.payload)
    && (p.needSeq.Some? ==> ValidAck(p.needSeq.value) && |SerializeAck(p.needSeq.value)| < TWO31)
    && Unknowns(p.unknown, KnownToPacket)
  }

  predicate IsInitialized(p: Packet) {
    && p.src.Some? && AddressReady(p.src.value) && p.dest.Some? && AddressReady(p.dest.value)
    && p.ttl.Some? && p.protocol.Some? && (p.needSeq.Some? ==> p.needSeq.value.seq_.Some?)
  }

  // What the getters return: the default when the field is absent.
  function UsernameOf(a: Option<Address>): bytes {
    if a.Some? && a.value.username.Some? then a.value.username.value else []
  }

  function TimeToLiveOf(p: Packet): u32 { OrDefault(p.ttl, DEFAULT_TTL) }

  // ----- parsing is a homomorphism into merging -----

  lemma AddressMerges()
    ensures Merges(ApplyAddress, MergeAddress, NO_ADDRESS)
  {
    forall m: Address
      ensures MergeAddress(m, NO_ADDRESS) == m && MergeAddress(NO_ADDRESS, m) == m
    {
      assert m.unknown + [] == m.unknown && [] + m.unknown == m.unknown;
    }
    forall a: Address, b: Address, c: Address
      ensures MergeAddress(MergeAddress(a, b), c) == MergeAddress(a, MergeAddress(b, c))
    {
      assert a.unknown + b.unknown + c.unknown == a.unknown + (b.unknown + c.unknown);
    }
    forall m: Address, f: Field
      ensures ApplyAddress(m, f) == Some(MergeAddress(m, ApplyAddress(NO_ADDRESS, f).value))
    {
      assert m.unknown + [] == m.unknown && [] + [f] == [f];
    }
  }

  lemma AckMerges()
    ensures Merges(ApplyAck, MergeAck, NO_ACK)
  {
    forall m: Ack
      ensures MergeAck(m, NO_ACK) == m && MergeAck(NO_ACK, m) == m
    {
      assert m.unknown + [] == m.unknown && [] + m.unknown == m.unknown;
    }
    forall a: Ack, b: Ack, c: Ack
      ensures MergeAck(MergeAck(a, b), c) == MergeAck(a, MergeAck(b, c))
    {
      assert a.unknown + b.unknown + c.unknown == a.unknown + (b.unknown + c.unknown);
    }
    forall m: Ack, f: Field
      ensures ApplyAck(m, f) == Some(MergeAck(m, ApplyAck(NO_ACK, f).value))
    {
      assert m.unknown + [] == m.unknown && [] + [f] == [f];
    }
  }

  // An embedded message that arrives in several pieces is merged field by field.
  lemma ParseIntoMerges<M(!new)>(
      apply: (M, Field) -> Option<M>, merge: (M, M) -> M, unit: M, m: M, b: bytes)
    requires Merges(apply, merge, unit)
    ensures ParseInto(apply, unit, b).None? ==> ParseInto(apply, m, b).None?
    ensures ParseInto(apply, unit, b).Some? ==>
              ParseInto(apply, m, b) == Some(merge(m, ParseInto(apply, unit, b).value))
  {
    ParseIsMerge(apply, merge, unit, m, b);
  }

  lemma PacketUnit(a: Packet)
    ensures MergePacket(a, NO_PACKET) == a && MergePacket(NO_PACKET, a) == a
  {
    AddressMerges();
    AckMerges();
    hide MergeAddress, MergeAck;
    assert a.unknown + [] == a.unknown && [] + a.unknown == a.unknown;
  }

  lemma OrAddressAssoc(a: Option<Address>, b: Option<Address>, c: Option<Address>)
    ensures OrAddress(OrAddress(a, b), c) == OrAddress(a, OrAddress(b, c))
  {
    AddressMerges();
    hide MergeAddress;
  }

  lemma OrAckAssoc(a: Option<Ack>, b: Option<Ack>, c: Option<Ack>)
    ensures OrAck(OrAck(a, b), c) == OrAck(a, OrAck(b, c))
  {
    AckMerges();
    hide MergeAck;
  }

  lemma PacketAssoc(a: Packet, b: Packet, c: Packet)
    ensures MergePacket(MergePacket(a, b), c) == MergePacket(a, MergePacket(b, c))
    ensures MergePacket(a, NO_PACKET) == a && MergePacket(NO_PACKET, a) == a
  {
    PacketUnit(a);
    OrAddressAssoc(a.src, b.src, c.src);
    OrAddressAssoc(a.dest, b.dest, c.dest);
    OrAckAssoc(a.needSeq, b.needSeq, c.needSeq);
    hide OrAddress, OrAck;
    assert a.unknown + b.unknown + c.unknown == a.unknown + (b.unknown + c.unknown);
  }

  lemma PacketApply(m: Packet, f: Field)
    ensures ApplyPacket(NO_PACKET, f).None? ==> ApplyPacket(m, f).None?
    ensures ApplyPacket(NO_PACKET, f).Some? ==>
              ApplyPacket(m, f) == Some(MergePacket(m, ApplyPacket(NO_PACKET, f).value))
  {
    hide MergeAddress, MergeAck, ParseInto, ApplyAddress, ApplyAck, Merges;
    AddressMerges();
    AckMerges();
    assert m.unknown + [] == m.unknown && [] + [f] == [f];
    if f.value.Len? {
      ParseIntoMerges(ApplyAddress, MergeAddress, NO_ADDRESS, AddressOr(m.src), f.value.data);
      ParseIntoMerges(ApplyAddress, MergeAddress, NO_ADDRESS, AddressOr(m.dest), f.value.data);
      ParseIntoMerges(ApplyAck, MergeAck, NO_ACK, AckOr(m.needSeq), f.value.data);
    }
  }

  lemma PacketMerges()
    ensures Merges(ApplyPacket, MergePacket, NO_PACKET)
  {
    forall m: Packet
      ensures MergePacket(m, NO_PACKET) == m && MergePacket(NO_PACKET, m) == m
    {
      PacketAssoc(m, m, m);
    }
    forall a: Packet, b: Packet, c: Packet
      ensures MergePacket(MergePacket(a, b), c) == MergePacket(a, MergePacket(b, c))
    {
      PacketAssoc(a, b, c);
    }
    forall m: Packet, f: Field
      ensures ApplyPacket(m, f) == match ApplyPacket(NO_PACKET, f)
                                   case None => None case Some(d) => Some(MergePacket(m, d))
    {
      PacketApply(m, f);
    }
  }

  // Two byte strings that each parse to their end, parsed one after the other, give the
  // message that MergeFrom builds from the two separate parses.
  lemma ConcatenationMerges(a: bytes, b: bytes)
    requires var r := MergeAll(ApplyPacket, NO_PACKET, a); r.Merged? && r.clean
    requires var r := MergeAll(ApplyPacket, NO_PACKET, b); r.Merged? && r.clean
    ensures MergeAll(ApplyPacket, NO_PACKET, a + b)
         == Merged(MergePacket(MergeAll(ApplyPacket, NO_PACKET, a).msg, MergeAll(ApplyPacket, NO_PACKET, b).msg),
                   |a + b|, true)
  {
    PacketMerges();
    Homomorphism(ApplyPacket, MergePacket, NO_PACKET, a, b);
  }

  // ----- what is serialised parses back -----

  // Unknown fields are appended, in order.
  lemma {:induction false} ApplyUnknownToAddress(m: Address, fs: seq<Field>)
    requires forall i :: 0 <= i < |fs| ==> !KnownToAddress(fs[i])
    ensures ApplyAll(ApplyAddress, m, fs) == Some(m.(unknown := m.unknown + fs))
    decreases |fs|
  {
    if fs == [] {
      assert m.unknown + fs == m.unknown;
    } else {
      ApplyUnknownToAddress(ApplyAddress(m, fs[0]).value, fs[1..]);
      assert m.unknown + [fs[0]] + fs[1..] == m.unknown + fs;
    }
  }

  lemma {:induction false} ApplyUnknownToAck(m: Ack, fs: seq<Field>)
    requires forall i :: 0 <= i < |fs| ==> !KnownToAck(fs[i])
    ensures ApplyAll(ApplyAck, m, fs) == Some(m.(unknown := m.unknown + fs))
    decreases |fs|
  {
    if fs == [] {
      assert m.unknown + fs == m.unknown;
    } else {
      ApplyUnknownToAck(ApplyAck(m, fs[0]).value, fs[1..]);
      assert m.unknown + [fs[0]] + fs[1..] == m.unknown + fs;
    }
  }

  lemma {:induction false} ApplyUnknownToPacket(m: Packet, fs: seq<Field>)
    requires forall i :: 0 <= i < |fs| ==> !KnownToPacket(fs[i])
    ensures ApplyAll(ApplyPacket, m, fs) == Some(m.(unknown := m.unknown + fs))
    decreases |fs|
  {
    if fs == [] {
      assert m.unknown + fs == m.unknown;
    } else {
      ApplyUnknownToPacket(ApplyPacket(m, fs[0]).value, fs[1..]);
      assert m.unknown + [fs[0]] + fs[1..] == m.unknown + fs;
    }
  }

  lemma WfAppend(a: seq<Field>, b: seq<Field>)
    ensures AllWf(a + b) <==> AllWf(a) && AllWf(b)
  {
    hide Wf;
    assert forall i :: 0 <= i < |a| ==> (a + b)[i] == a[i];
    assert forall i :: 0 <= i < |b| ==> (a + b)[|a| + i] == b[i];
  }

  // One more optional field: if it is present, it turns m into m'.
  lemma NextStage<M>(apply: (M, Field) -> Option<M>, unit: M, fs: seq<Field>, m: M, f: seq<Field>, m': M)
    requires ApplyAll(apply, unit, fs) == Some(m) && AllWf(fs)
    requires |f| <= 1 && AllWf(f) && (if f == [] then m' == m else apply(m, f[0]) == Some(m'))
    ensures ApplyAll(apply, unit, fs + f) == Some(m') && AllWf(fs + f)
  {
    ApplyAppend(apply, unit, fs, f);
    WfAppend(fs, f);
    hide Wf;
    assert ApplyAll(apply, m, f) == Some(m');
  }

  // The unknown fields come last.
  lemma LastStage<M>(apply: (M, Field) -> Option<M>, unit: M, fs: seq<Field>, m: M, unknown: seq<Field>, m': M)
    requires ApplyAll(apply, unit, fs) == Some(m) && AllWf(fs)
    requires ApplyAll(apply, m, unknown) == Some(m') && AllWf(unknown)
    ensures ParseInto(apply, unit, EncodeFields(fs + unknown)) == Some(m')
  {
    ApplyAppend(apply, unit, fs, unknown);
    WfAppend(fs, unknown);
    hide Wf, AllWf, ApplyAll;
    ParseEncoded(apply, unit, fs + unknown);
  }

  lemma AddressStages(a: Address, m: Address)
    requires ValidAddress(a)
    ensures AllWf(LenField(1, a.username)) && AllWf(LenField(2, a.domain)) && AllWf(LenField(3, a.resource))
    ensures a.username.Some? ==>
              ApplyAddress(m, LenField(1, a.username)[0]) == Some(m.(username := a.username))
    ensures a.domain.Some? ==>
              ApplyAddress(m, LenField(2, a.domain)[0]) == Some(m.(domain := a.domain))
    ensures a.resource.Some? ==>
              ApplyAddress(m, LenField(3, a.resource)[0]) == Some(m.(resource := a.resource))
  {
  }

  lemma AddressRoundTrip(a: Address)
    requires ValidAddress(a)
    ensures ParseInto(ApplyAddress, NO_ADDRESS, SerializeAddress(a)) == Some(a)
  {
    var f1, f2, f3 := LenField(1, a.username), LenField(2, a.domain), LenField(3, a.resource);
    var a1 := NO_ADDRESS.(username := a.username);
    var a2 := a1.(domain := a.domain);
    var a3 := a2.(resource := a.resource);
    assert a3.unknown + a.unknown == a.unknown;
    ApplyUnknownToAddress(a3, a.unknown);
    AddressStages(a, NO_ADDRESS);
    AddressStages(a, a1);
    AddressStages(a, a2);
    hide ApplyAddress, Wf, AllWf, ApplyAll, ParseInto, EncodeFields;
    Nothing(ApplyAddress, NO_ADDRESS);
    NextStage(ApplyAddress, NO_ADDRESS, [], NO_ADDRESS, f1, a1);
    assert [] + f1 == f1;
    NextStage(ApplyAddress, NO_ADDRESS, f1, a1, f2, a2);
    NextStage(ApplyAddress, NO_ADDRESS, f1 + f2, a2, f3, a3);
    LastStage(ApplyAddress, NO_ADDRESS, f1 + f2 + f3, a3, a.unknown, a);
  }

  lemma Nothing<M>(apply: (M, Field) -> Option<M>, m: M)
    ensures ApplyAll(apply, m, []) == Some(m) && AllWf([])
  {
  }

  lemma AckRoundTrip(a: Ack)
    requires ValidAck(a)
    ensures ParseInto(ApplyAck, NO_ACK, SerializeAck(a)) == Some(a)
  {
    var f1 := VarintField(1, a.seq_);
    var a1 := NO_ACK.(seq_ := a.seq_);
    assert a1.unknown + a.unknown == a.unknown && [] + f1 == f1;
    ApplyUnknownToAck(a1, a.unknown);
    NextStage(ApplyAck, NO_ACK, [], NO_ACK, f1, a1);
    LastStage(ApplyAck, NO_ACK, f1, a1, a.unknown, a);
  }

  // The ten optional fields of a packet, one stage each.
  lemma PacketStages(p: Packet, m: Packet)
    requires ValidPacket(p)
    ensures AllWf(LenField(3, p.publickey)) && AllWf(VarintField(4, Wide(p.ttl))) && AllWf(LenField(6, p.protocol))
    ensures AllWf(VarintField(7, Wide(p.encryptMethod))) && AllWf(LenField(8, p.payload))
    ensures AllWf(BoolField(9, p.dontRoute)) && AllWf(VarintField(10, p.timestamp))
    ensures p.publickey.Some? ==>
              ApplyPacket(m, LenField(3, p.publickey)[0]) == Some(m.(publickey := p.publickey))
    ensures p.ttl.Some? ==> ApplyPacket(m, VarintField(4, Wide(p.ttl))[0]) == Some(m.(ttl := p.ttl))
    ensures p.protocol.Some? ==>
              ApplyPacket(m, LenField(6, p.protocol)[0]) == Some(m.(protocol := p.protocol))
    ensures p.encryptMethod.Some? ==>
              ApplyPacket(m, VarintField(7, Wide(p.encryptMethod))[0]) == Some(m.(encryptMethod := p.encryptMethod))
    ensures p.payload.Some? ==> ApplyPacket(m, LenField(8, p.payload)[0]) == Some(m.(payload := p.payload))
    ensures p.dontRoute.Some? ==> ApplyPacket(m, BoolField(9, p.dontRoute)[0]) == Some(m.(dontRoute := p.dontRoute))
    ensures p.timestamp.Some? ==>
              ApplyPacket(m, VarintField(10, p.timestamp)[0]) == Some(m.(timestamp := p.timestamp))
  {
    hide ParseInto;
  }

  lemma EmbeddedStages(p: Packet, m: Packet)
    requires ValidPacket(p)
    ensures AllWf(AddressField(1, p.src)) && AllWf(AddressField(2, p.dest)) && AllWf(AckField(11, p.needSeq))
    ensures p.src.Some? && m.src.None? ==> ApplyPacket(m, AddressField(1, p.src)[0]) == Some(m.(src := p.src))
    ensures p.dest.Some? && m.dest.None? ==> ApplyPacket(m, AddressField(2, p.dest)[0]) == Some(m.(dest := p.dest))
    ensures p.needSeq.Some? && m.needSeq.None? ==>
              ApplyPacket(m, AckField(11, p.needSeq)[0]) == Some(m.(needSeq := p.needSeq))
  {
    if p.src.Some? { AddressRoundTrip(p.src.value); }
    if p.dest.Some? { AddressRoundTrip(p.dest.value); }
    if p.needSeq.Some? { AckRoundTrip(p.needSeq.value); }
    hide ParseInto, SerializeAddress, SerializeAck, ValidAddress, ValidAck;
  }

  lemma FirstStages(p: Packet)
    requires ValidPacket(p)
    ensures ApplyAll(ApplyPacket, NO_PACKET, FirstFields(p))
         == Some(NO_PACKET.(src := p.src, dest := p.dest, publickey := p.publickey, ttl := p.ttl,
                            protocol := p.protocol))
    ensures AllWf(FirstFields(p))
  {
    var p0 := NO_PACKET;
    var p1 := p0.(src := p.src);
    var p2 := p1.(dest := p.dest);
    var p3 := p2.(publickey := p.publickey);
    var p4 := p3.(ttl := p.ttl);
    var f1, f2, f3, f4 := AddressField(1, p.src), AddressField(2, p.dest), LenField(3, p.publickey),
        VarintField(4, Wide(p.ttl));
    hide ApplyPacket, Wf, AllWf, ApplyAll, SerializeAddress, ValidPacket;
    EmbeddedStages(p, p0);
    EmbeddedStages(p, p1);
    PacketStages(p, p2);
    PacketStages(p, p3);
    PacketStages(p, p4);
    Nothing(ApplyPacket, p0);
    assert [] + f1 == f1;
    NextStage(ApplyPacket, p0, [], p0, f1, p1);
    NextStage(ApplyPacket, p0, f1, p1, f2, p2);
    NextStage(ApplyPacket, p0, f1 + f2, p2, f3, p3);
    NextStage(ApplyPacket, p0, f1 + f2 + f3, p3, f4, p4);
    NextStage(ApplyPacket, p0, f1 + f2 + f3 + f4, p4, LenField(6, p.protocol), p4.(protocol := p.protocol));
  }

  // Parsing the serialisation of a packet gives the packet back, has-bits and unknown
  // fields included.
  lemma PacketRoundTrip(p: Packet)
    requires ValidPacket(p)
    ensures MergeAll(ApplyPacket, NO_PACKET, Serialize(p)) == Merged(p, |Serialize(p)|, true)
  {
    var p5 := NO_PACKET.(src := p.src, dest := p.dest, publickey := p.publickey, ttl := p.ttl, protocol := p.protocol);
    var p6 := p5.(encryptMethod := p.encryptMethod);
    var p7 := p6.(payload := p.payload);
    var p8 := p7.(dontRoute := p.dontRoute);
    var p9 := p8.(timestamp := p.timestamp);
    var p10 := p9.(needSeq := p.needSeq);
    assert p10.unknown + p.unknown == p.unknown && p10.(unknown := p.unknown) == p;
    ApplyUnknownToPacket(p10, p.unknown);
    hide ApplyPacket, Wf, AllWf, ApplyAll, ParseInto, EncodeFields, SerializeAck, ValidAck, AddressFits, FirstFields;
    FirstStages(p);
    PacketStages(p, p5);
    PacketStages(p, p6);
    PacketStages(p, p7);
    PacketStages(p, p8);
    EmbeddedStages(p, p9);
    var fs, f7, f8 := FirstFields(p), VarintField(7, Wide(p.encryptMethod)), LenField(8, p.payload);
    var f9, f10, f11 := BoolField(9, p.dontRoute), VarintField(10, p.timestamp), AckField(11, p.needSeq);
    NextStage(ApplyPacket, NO_PACKET, fs, p5, f7, p6);
    NextStage(ApplyPacket, NO_PACKET, fs + f7, p6, f8, p7);
    NextStage(ApplyPacket, NO_PACKET, fs + f7 + f8, p7, f9, p8);
    NextStage(ApplyPacket, NO_PACKET, fs + f7 + f8 + f9, p8, f10, p9);
    NextStage(ApplyPacket, NO_PACKET, fs + f7 + f8 + f9 + f10, p9, f11, p10);
    LastStage(ApplyPacket, NO_PACKET, fs + f7 + f8 + f9 + f10 + f11, p10, p.unknown, p);
    WholeInput(ApplyPacket, NO_PACKET, Serialize(p), p);
  }

  lemma WholeInput<M>(apply: (M, Field) -> Option<M>, m: M, b: bytes, m': M)
    requires ParseInto(apply, m, b) == Some(m')
    ensures MergeAll(apply, m, b) == Merged(m', |b|, true)
  {
  }
}
