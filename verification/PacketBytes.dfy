// The messages as bytes: what is written for every member, tag by tag, and what every member
// that is read does to the message it is read into.
module PacketBytes {
  import opened Bytes
  import opened Wire
  import opened Messages
  import opened AddressObject
  import opened PacketObject

  // ----- fields -----

  // The tag of a field is its number times 8 and its wire type; a group is closed by a tag of
  // the same number.
  lemma FieldBytes(f: Field)
    ensures EncodeField(f)
         == match f.value
            case Varint(v) => EncodeVarint(8 * f.num) + EncodeVarint(v)
            case I64(raw) => EncodeVarint(8 * f.num + 1) + raw
            case Len(data) => EncodeVarint(8 * f.num + 2) + (EncodeVarint(|data|) + data)
            case Group(fs) => EncodeVarint(8 * f.num + 3) + (EncodeFields(fs) + EncodeVarint(8 * f.num + 4))
            case I32(raw) => EncodeVarint(8 * f.num + 5) + raw
  {
  }

  // A length-delimited member under a tag of one byte, if it is present; and a number.
  function Delimited(tag: byte, data: Option<bytes>): bytes {
    match data case None => [] case Some(d) => [tag] + (EncodeVarint(|d|) + d)
  }

  function Numbered(tag: byte, n: Option<nat>): bytes {
    match n case None => [] case Some(v) => [tag] + EncodeVarint(v)
  }

  lemma DelimitedIs(num: nat, data: Option<bytes>)
    requires num < 16
    ensures LenBytes(num, data) == Delimited(8 * num + 2, data)
  {
    if data.Some? {
      FieldBytes(Field(num, Len(data.value)));
      assert EncodeVarint(8 * num + 2) == [8 * num + 2];
    }
    hide EncodeField;
  }

  lemma NumberedIs(num: nat, n: Option<u64>)
    requires num < 16
    ensures VarintBytes(num, n) == Numbered(8 * num, n)
  {
    if n.Some? {
      FieldBytes(Field(num, Varint(n.value)));
      assert EncodeVarint(8 * num) == [8 * num];
    }
    hide EncodeField;
  }

  // ----- what is written -----

  lemma AddressWritten(a: Address)
    ensures SerializeAddress(a)
         == Delimited(10, a.username) + Delimited(18, a.domain) + Delimited(26, a.resource) + EncodeFields(a.unknown)
  {
    SplitAddress(a);
    DelimitedIs(1, a.username);
    DelimitedIs(2, a.domain);
    DelimitedIs(3, a.resource);
    hide *;
  }

  lemma AckWritten(a: Ack)
    ensures SerializeAck(a) == Numbered(8, a.seq_) + EncodeFields(a.unknown)
  {
    SplitAck(a);
    NumberedIs(1, a.seq_);
    hide *;
  }

  function AddressData(a: Option<Address>): Option<bytes> {
    match a case None => None case Some(x) => Some(SerializeAddress(x))
  }

  function AckData(a: Option<Ack>): Option<bytes> {
    match a case None => None case Some(x) => Some(SerializeAck(x))
  }

  function BoolNumber(b: Option<bool>): Option<nat> {
    match b case None => None case Some(x) => Some(if x then 1 else 0)
  }

  lemma EmbeddedIs(num: nat, a: Option<Address>, k: Option<Ack>, b: Option<bool>)
    requires num < 16
    ensures AddressBytes(num, a) == Delimited(8 * num + 2, AddressData(a))
    ensures AckBytes(num, k) == Delimited(8 * num + 2, AckData(k))
    ensures BoolBytes(num, b) == Numbered(8 * num, BoolNumber(b))
  {
    DelimitedIs(num, AddressData(a));
    DelimitedIs(num, AckData(k));
    NumberedIs(num, match b case None => None case Some(x) => Some(if x then 1 else 0));
    hide EncodeField, SerializeAddress, SerializeAck, Delimited, Numbered;
  }

  // A packet on the wire: its members in this order, each under its own tag.
  lemma PacketWritten(p: Packet)
    ensures Serialize(p)
         == Delimited(10, AddressData(p.src)) + Delimited(18, AddressData(p.dest)) + Delimited(26, p.publickey)
          + Numbered(32, p.ttl) + Delimited(50, p.protocol) + Numbered(56, p.encryptMethod)
          + Delimited(66, p.payload) + Numbered(72, BoolNumber(p.dontRoute)) + Numbered(80, p.timestamp)
          + Delimited(90, AckData(p.needSeq)) + EncodeFields(p.unknown)
  {
    SplitPacket(p);
    EmbeddedIs(1, p.src, None, None);
    EmbeddedIs(2, p.dest, None, None);
    DelimitedIs(3, p.publickey);
    NumberedIs(4, Wide(p.ttl));
    DelimitedIs(6, p.protocol);
    NumberedIs(7, Wide(p.encryptMethod));
    DelimitedIs(8, p.payload);
    EmbeddedIs(9, None, None, p.dontRoute);
    NumberedIs(10, p.timestamp);
    EmbeddedIs(11, None, p.needSeq, None);
    assert Wide(p.ttl) == p.ttl && Wide(p.encryptMethod) == p.encryptMethod;
    assert FirstBytes(p) == AddressBytes(1, p.src) + AddressBytes(2, p.dest) + LenBytes(3, p.publickey)
                            + VarintBytes(4, Wide(p.ttl)) + LenBytes(6, p.protocol);
    hide *;
  }

  // ----- what is read -----

  lemma TagFirst(tag: byte, b: bytes)
    requires 0 < tag < 128
    ensures ReadTag([tag] + b) == (tag, 1)
  {
    assert DecodeVarint([tag] + b, MAX_VARINT) == Some((tag, 1));
  }

  lemma TagNext(tag: byte, b: bytes)
    requires 0 < tag < 128 && tag % 8 != 4
    ensures NextField([tag] + b)
         == match ReadValue(tag / 8, tag % 8, b)
            case None => Broken case Some((v, n)) => Got(Field(tag / 8, v), 1 + n)
  {
    TagFirst(tag, b);
    assert ([tag] + b)[1..] == b;
    hide ReadValue, ReadTag;
  }

  // One member in the input, whose number is any varint of at most ten bytes.
  lemma NumberNext(tag: byte, b: bytes, v: nat)
    requires 0 < tag < 128 && tag % 8 == 0 && DecodeVarint(b, 10) == Some((v, |b|))
    ensures NextField([tag] + b) == Got(Field(tag / 8, Varint(v % 0x1_0000_0000_0000_0000)), 1 + |b|)
  {
    TagNext(tag, b);
    hide NextField, DecodeVarint;
  }

  lemma LengthNext(num: nat, size: bytes, data: bytes)
    requires num < 16 && |data| < 0x8000_0000 && DecodeVarint(size, 10) == Some((|data|, |size|))
    ensures ReadValue(num, 2, size + data) == Some((Len(data), |size + data|))
  {
    VarintExtend(size, MAX_VARINT, data);
    assert (size + data)[|size|..|size| + |data|] == data;
    hide DecodeVarint, ReadValue;
    ReadLen(num, size + data, |data|, |size|);
  }

  lemma DelimitedNext(tag: byte, size: bytes, data: bytes)
    requires 0 < tag < 128 && tag % 8 == 2 && |data| < 0x8000_0000 && DecodeVarint(size, 10) == Some((|data|, |size|))
    ensures NextField([tag] + (size + data)) == Got(Field(tag / 8, Len(data)), 1 + |size + data|)
  {
    LengthNext(tag / 8, size, data);
    hide *;
    TagNext(tag, size + data);
  }

  // What is malformed: a number that does not end within ten bytes or within the input, a
  // length of 2 GB or more or beyond the input, and a type there is none of.
  lemma MalformedFields(tag: byte, b: bytes)
    requires 0 < tag < 128
    ensures var r := DecodeVarint(b, 10);
            && (tag % 8 == 0 ==> (NextField([tag] + b).Broken? <==> r.None?))
            && (tag % 8 == 2 ==>
                  (NextField([tag] + b).Broken?
                   <==> r.None? || r.value.0 % 0x1_0000_0000 >= 0x8000_0000
                        || r.value.0 % 0x1_0000_0000 > |b| - r.value.1))
            && (tag % 8 == 1 ==> (NextField([tag] + b).Broken? <==> |b| < 8))
            && (tag % 8 == 5 ==> (NextField([tag] + b).Broken? <==> |b| < 4))
            && (tag % 8 > 5 ==> NextField([tag] + b).Broken?)
            && (tag % 8 == 4 ==> NextField([tag] + b).Stop?)
  {
    TagFirst(tag, b);
    assert ([tag] + b)[1..] == b;
    hide ReadTag, DecodeVarint, ReadGroup;
  }

  // An input of one field applies that field.
  lemma OneField<M>(apply: (M, Field) -> Option<M>, m: M, b: bytes, f: Field)
    requires NextField(b) == Got(f, |b|)
    ensures MergeAll(apply, m, b)
         == match apply(m, f) case None => Malformed case Some(m') => Merged(m', |b|, true)
  {
    assert b[|b|..] == [];
    if apply(m, f).Some? {
      assert MergeAll(apply, apply(m, f).value, []) == Merged(apply(m, f).value, 0, true);
    }
  }

  lemma NumberApplied(m: Packet, tag: byte, b: bytes, v: nat)
    requires 0 < tag < 128 && tag % 8 == 0 && DecodeVarint(b, 10) == Some((v, |b|))
    ensures MergeAll(ApplyPacket, m, [tag] + b)
         == match ApplyPacket(m, Field(tag / 8, Varint(v % 0x1_0000_0000_0000_0000)))
            case None => Malformed case Some(m') => Merged(m', 1 + |b|, true)
  {
    NumberNext(tag, b, v);
    hide NextField, DecodeVarint, MergeAll, ApplyPacket;
    OneField(ApplyPacket, m, [tag] + b, Field(tag / 8, Varint(v % 0x1_0000_0000_0000_0000)));
  }

  lemma NumbersApplied(m: Packet, v: nat)
    ensures var n := v % 0x1_0000_0000_0000_0000;
            && ApplyPacket(m, Field(4, Varint(n))) == Some(m.(ttl := Some(n % 0x1_0000_0000)))
            && ApplyPacket(m, Field(7, Varint(n))) == Some(m.(encryptMethod := Some(n % 0x1_0000_0000)))
            && ApplyPacket(m, Field(9, Varint(n))) == Some(m.(dontRoute := Some(n != 0)))
            && ApplyPacket(m, Field(10, Varint(n))) == Some(m.(timestamp := Some(n)))
  {
  }

  lemma LowBits(v: nat)
    ensures v % 0x1_0000_0000_0000_0000 % 0x1_0000_0000 == v % 0x1_0000_0000
  {
  }

  // A number that is read replaces the one there was, cut to the width of its member; a flag
  // is set by any number but 0.
  lemma NumberRead(m: Packet, b: bytes, v: nat)
    requires DecodeVarint(b, 10) == Some((v, |b|))
    ensures MergeAll(ApplyPacket, m, [32] + b) == Merged(m.(ttl := Some(v % 0x1_0000_0000)), 1 + |b|, true)
    ensures MergeAll(ApplyPacket, m, [56] + b) == Merged(m.(encryptMethod := Some(v % 0x1_0000_0000)), 1 + |b|, true)
    ensures MergeAll(ApplyPacket, m, [72] + b)
         == Merged(m.(dontRoute := Some(v % 0x1_0000_0000_0000_0000 != 0)), 1 + |b|, true)
    ensures MergeAll(ApplyPacket, m, [80] + b)
         == Merged(m.(timestamp := Some(v % 0x1_0000_0000_0000_0000)), 1 + |b|, true)
  {
    hide *;
    NumberApplied(m, 32, b, v);
    NumberApplied(m, 56, b, v);
    NumberApplied(m, 72, b, v);
    NumberApplied(m, 80, b, v);
    NumbersApplied(m, v);
    LowBits(v);
  }

  // A string that is read replaces the one there was.
  lemma TextRead(m: Packet, size: bytes, data: bytes)
    requires |data| < 0x8000_0000 && DecodeVarint(size, 10) == Some((|data|, |size|))
    ensures var b, n := size + data, 1 + |size + data|;
            && MergeAll(ApplyPacket, m, [26] + b) == Merged(m.(publickey := Some(data)), n, true)
            && MergeAll(ApplyPacket, m, [50] + b) == Merged(m.(protocol := Some(data)), n, true)
            && MergeAll(ApplyPacket, m, [66] + b) == Merged(m.(payload := Some(data)), n, true)
  {
    var b := size + data;
    DelimitedNext(26, size, data);
    DelimitedNext(50, size, data);
    DelimitedNext(66, size, data);
    hide NextField, DecodeVarint, MergeAll, ParseInto;
    OneField(ApplyPacket, m, [26] + b, Field(3, Len(data)));
    OneField(ApplyPacket, m, [50] + b, Field(6, Len(data)));
    OneField(ApplyPacket, m, [66] + b, Field(8, Len(data)));
  }

  lemma NameApplied(a: Address, tag: byte, size: bytes, data: bytes)
    requires tag == 10 || tag == 18 || tag == 26
    requires |data| < 0x8000_0000 && DecodeVarint(size, 10) == Some((|data|, |size|))
    ensures MergeAll(ApplyAddress, a, [tag] + (size + data))
         == match ApplyAddress(a, Field(tag / 8, Len(data)))
            case None => Malformed case Some(a') => Merged(a', 1 + |size + data|, true)
  {
    hide *;
    DelimitedNext(tag, size, data);
    OneField(ApplyAddress, a, [tag] + (size + data), Field(tag / 8, Len(data)));
  }

  lemma NamesApplied(a: Address, data: bytes)
    ensures ApplyAddress(a, Field(1, Len(data))) == Some(a.(username := Some(data)))
    ensures ApplyAddress(a, Field(2, Len(data))) == Some(a.(domain := Some(data)))
    ensures ApplyAddress(a, Field(3, Len(data))) == Some(a.(resource := Some(data)))
  {
  }

  lemma NameRead(a: Address, size: bytes, data: bytes)
    requires |data| < 0x8000_0000 && DecodeVarint(size, 10) == Some((|data|, |size|))
    ensures var b, n := size + data, 1 + |size + data|;
            && MergeAll(ApplyAddress, a, [10] + b) == Merged(a.(username := Some(data)), n, true)
            && MergeAll(ApplyAddress, a, [18] + b) == Merged(a.(domain := Some(data)), n, true)
            && MergeAll(ApplyAddress, a, [26] + b) == Merged(a.(resource := Some(data)), n, true)
  {
    hide *;
    NameApplied(a, 10, size, data);
    NameApplied(a, 18, size, data);
    NameApplied(a, 26, size, data);
    NamesApplied(a, data);
  }

  lemma SeqRead(a: Ack, b: bytes, v: nat)
    requires DecodeVarint(b, 10) == Some((v, |b|))
    ensures MergeAll(ApplyAck, a, [8] + b)
         == Merged(a.(seq_ := Some(v % 0x1_0000_0000_0000_0000)), 1 + |b|, true)
  {
    NumberNext(8, b, v);
    hide NextField, DecodeVarint, MergeAll;
    OneField(ApplyAck, a, [8] + b, Field(1, Varint(v % 0x1_0000_0000_0000_0000)));
  }

  // An address over another one: what the second one has, and otherwise what the first one has.
  function Over(x: Option<Address>, y: Option<Address>): Option<Address> {
    match (x, y)
    case (_, None) => x
    case (None, Some(b)) => y
    case (Some(a), Some(b)) =>
      Some(Address(if b.username.Some? then b.username else a.username,
                   if b.domain.Some? then b.domain else a.domain,
                   if b.resource.Some? then b.resource else a.resource, a.unknown + b.unknown))
  }

  function AckOver(x: Option<Ack>, y: Option<Ack>): Option<Ack> {
    match (x, y)
    case (_, None) => x
    case (None, Some(b)) => y
    case (Some(a), Some(b)) => Some(Ack(if b.seq_.Some? then b.seq_ else a.seq_, a.unknown + b.unknown))
  }

  lemma OverIs(x: Option<Address>, y: Option<Address>)
    ensures OrAddress(x, y) == Over(x, y)
  {
    if y.Some? {
      assert [] + y.value.unknown == y.value.unknown;
    }
  }

  lemma AckOverIs(x: Option<Ack>, y: Option<Ack>)
    ensures OrAck(x, y) == AckOver(x, y)
  {
    if y.Some? {
      assert [] + y.value.unknown == y.value.unknown;
    }
  }

  lemma AddressInto(x: Option<Address>, data: bytes)
    ensures var r := MergeAll(ApplyAddress, NO_ADDRESS, data);
            if r.Merged? && r.clean
            then Over(x, Some(r.msg)) == ParseInto(ApplyAddress, AddressOr(x), data)
            else ParseInto(ApplyAddress, AddressOr(x), data).None?
  {
    AddressMerges();
    ParseIsMerge(ApplyAddress, MergeAddress, NO_ADDRESS, AddressOr(x), data);
    var r := MergeAll(ApplyAddress, NO_ADDRESS, data);
    if r.Merged? { OverIs(x, Some(r.msg)); }
    hide ApplyAddress, MergeAddress, Over;
  }

  lemma AckInto(x: Option<Ack>, data: bytes)
    ensures var r := MergeAll(ApplyAck, NO_ACK, data);
            if r.Merged? && r.clean
            then AckOver(x, Some(r.msg)) == ParseInto(ApplyAck, AckOr(x), data)
            else ParseInto(ApplyAck, AckOr(x), data).None?
  {
    AckMerges();
    ParseIsMerge(ApplyAck, MergeAck, NO_ACK, AckOr(x), data);
    var r := MergeAll(ApplyAck, NO_ACK, data);
    if r.Merged? { AckOverIs(x, Some(r.msg)); }
    hide ApplyAck, MergeAck, AckOver;
  }

  // An address that is read is laid over the one there was; one that does not parse to its end
  // makes the packet malformed.
  lemma AddressRead(m: Packet, size: bytes, data: bytes)
    requires |data| < 0x8000_0000 && DecodeVarint(size, 10) == Some((|data|, |size|))
    ensures var b, n, r := size + data, 1 + |size + data|, MergeAll(ApplyAddress, Address(None, None, None, []), data);
            if r.Merged? && r.clean then
              && MergeAll(ApplyPacket, m, [10] + b) == Merged(m.(src := Over(m.src, Some(r.msg))), n, true)
              && MergeAll(ApplyPacket, m, [18] + b) == Merged(m.(dest := Over(m.dest, Some(r.msg))), n, true)
            else MergeAll(ApplyPacket, m, [10] + b).Malformed? && MergeAll(ApplyPacket, m, [18] + b).Malformed?
  {
    var b := size + data;
    DelimitedNext(10, size, data);
    DelimitedNext(18, size, data);
    AddressInto(m.src, data);
    AddressInto(m.dest, data);
    hide NextField, DecodeVarint, MergeAll, ApplyAddress, ParseInto, Over;
    OneField(ApplyPacket, m, [10] + b, Field(1, Len(data)));
    OneField(ApplyPacket, m, [18] + b, Field(2, Len(data)));
  }

  // The same for an acknowledgement.
  lemma AckRead(m: Packet, size: bytes, data: bytes)
    requires |data| < 0x8000_0000 && DecodeVarint(size, 10) == Some((|data|, |size|))
    ensures var b, n, r := size + data, 1 + |size + data|, MergeAll(ApplyAck, Ack(None, []), data);
            if r.Merged? && r.clean then
              MergeAll(ApplyPacket, m, [90] + b) == Merged(m.(needSeq := AckOver(m.needSeq, Some(r.msg))), n, true)
            else MergeAll(ApplyPacket, m, [90] + b).Malformed?
  {
    var b := size + data;
    DelimitedNext(90, size, data);
    AckInto(m.needSeq, data);
    hide NextField, DecodeVarint, MergeAll, ApplyAck, ParseInto, AckOver;
    OneField(ApplyPacket, m, [90] + b, Field(11, Len(data)));
  }

  // A field of any other number or type is kept as it is, behind those kept before.
  lemma UnknownRead(m: Packet, a: Address, k: Ack, b: bytes)
    requires NextField(b).Got? && NextField(b).size == |b|
    ensures var f := NextField(b).field;
            && (!(f.value.Varint? && f.num in {4, 7, 9, 10}) && !(f.value.Len? && f.num in {1, 2, 3, 6, 8, 11}) ==>
                  MergeAll(ApplyPacket, m, b) == Merged(m.(unknown := m.unknown + [f]), |b|, true))
            && (!(f.value.Len? && f.num in {1, 2, 3}) ==>
                  MergeAll(ApplyAddress, a, b) == Merged(a.(unknown := a.unknown + [f]), |b|, true))
            && (!(f.value.Varint? && f.num == 1) ==>
                  MergeAll(ApplyAck, k, b) == Merged(k.(unknown := k.unknown + [f]), |b|, true))
  {
    var f := NextField(b).field;
    OneField(ApplyPacket, m, b, f);
    OneField(ApplyAddress, a, b, f);
    OneField(ApplyAck, k, b, f);
    hide NextField, MergeAll, ParseInto;
  }

  // ----- one packet behind another -----

  // The members of the second packet, and those of the first that the second one has not.
  function PacketOver(p: Packet, m: Packet): Packet {
    Packet(Over(p.src, m.src), Over(p.dest, m.dest),
           if m.publickey.Some? then m.publickey else p.publickey,
           if m.ttl.Some? then m.ttl else p.ttl,
           if m.protocol.Some? then m.protocol else p.protocol,
           if m.encryptMethod.Some? then m.encryptMethod else p.encryptMethod,
           if m.payload.Some? then m.payload else p.payload,
           if m.dontRoute.Some? then m.dontRoute else p.dontRoute,
           if m.timestamp.Some? then m.timestamp else p.timestamp,
           AckOver(p.needSeq, m.needSeq), p.unknown + m.unknown)
  }

  lemma PacketOverIs(p: Packet, m: Packet)
    ensures MergePacket(p, m) == PacketOver(p, m)
  {
    OverIs(p.src, m.src);
    OverIs(p.dest, m.dest);
    AckOverIs(p.needSeq, m.needSeq);
    hide OrAddress, OrAck, Over, AckOver;
  }

  // Two packets on the wire, one behind the other, are parsed as the second laid over the first.
  lemma SecondOverFirst(p: Packet, m: Packet)
    requires ValidPacket(p) && ValidPacket(m)
    ensures var b := Serialize(p) + Serialize(m);
            MergeAll(ApplyPacket, NO_PACKET, b) == Merged(PacketOver(p, m), |b|, true)
  {
    PacketRoundTrip(p);
    PacketRoundTrip(m);
    ConcatenationMerges(Serialize(p), Serialize(m));
    PacketOverIs(p, m);
    hide *;
  }
}
