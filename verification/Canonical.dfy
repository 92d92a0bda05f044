// What has been parsed can be serialised, in no more bytes than it was parsed from: the
// serialiser writes the shortest encoding of every field, and merging never adds bytes.
module Canonical {
  import opened Bytes
  import opened Wire
  import opened Messages
  import opened AddressObject
  import opened PacketObject

  // ----- a field is written in no more bytes than it was read from -----

  lemma {:induction false} VarintShortest(b: bytes, most: nat)
    requires DecodeVarint(b, most).Some?
    ensures |EncodeVarint(DecodeVarint(b, most).value.0)| <= DecodeVarint(b, most).value.1
    decreases most
  {
    if b[0] >= 128 {
      VarintShortest(b[1..], most - 1);
    }
  }

  lemma {:induction false} VarintMonotone(m: nat, n: nat)
    requires m <= n
    ensures |EncodeVarint(m)| <= |EncodeVarint(n)|
    decreases n
  {
    if m >= 128 {
      VarintMonotone(m / 128, n / 128);
    }
  }

  lemma TagShortest(b: bytes)
    requires ReadTag(b).0 != 0
    ensures |EncodeVarint(ReadTag(b).0)| <= ReadTag(b).1
  {
    VarintShortest(b, MAX_VARINT);
    var v := DecodeVarint(b, MAX_VARINT).value.0;
    VarintMonotone(v % TWO32, v);
  }

  lemma NextShortest(b: bytes)
    requires NextField(b).Got?
    ensures |EncodeField(NextField(b).field)| <= NextField(b).size
    decreases |b|, 1
  {
    hide DecodeVarint, EncodeVarint, ReadValue, EncodeValue;
    var (tag, n) := ReadTag(b);
    TagShortest(b);
    ValueShortest(tag / 8, tag % 8, b[n..]);
  }

  lemma ValueShortest(num: nat, wireType: nat, b: bytes)
    requires num < 0x2000_0000 && wireType < 8 && num * 8 + wireType != 0
    requires ReadValue(num, wireType, b).Some?
    ensures var (v, n) := ReadValue(num, wireType, b).value; |EncodeValue(num, v)| <= n
    decreases |b|, 3
  {
    hide EncodeVarint, DecodeVarint, ReadGroup, EncodeFields;
    if wireType == 0 || wireType == 2 {
      VarintShortest(b, MAX_VARINT);
      var v := DecodeVarint(b, MAX_VARINT).value.0;
      VarintMonotone(v % TWO64, v);
      VarintMonotone(v % TWO32, v);
    } else if wireType == 3 {
      GroupShortest(num, b);
    }
  }

  lemma GroupShortest(num: nat, b: bytes)
    requires ReadGroup(num, b).Some? && num < 0x2000_0000
    ensures |EncodeFields(ReadGroup(num, b).value.0)| + |EncodeVarint(num * 8 + 4)| <= ReadGroup(num, b).value.1
    decreases |b|, 2
  {
    GroupUnfold(num, b);
    hide ReadGroup, EncodeVarint, EncodeField, Wf;
    match NextField(b)
    case Got(f, n) =>
      hide NextField;
      NextShortest(b);
      GroupShortest(num, b[n..]);
      EncodeFieldsCons(f, ReadGroup(num, b[n..]).value.0);
    case Stop(tag, n) => TagShortest(b);
    case _ =>
  }

  lemma EncodeFieldsCons(f: Field, fs: seq<Field>)
    ensures EncodeFields([f] + fs) == EncodeField(f) + EncodeFields(fs)
  {
    assert ([f] + fs)[1..] == fs;
  }

  // ----- the same of a message -----

  // Applying a field adds no more to the size of a message than the field has.
  ghost predicate Compact<M(!new)>(apply: (M, Field) -> Option<M>, size: M -> nat) {
    forall m: M, f: Field :: Wf(f) && apply(m, f).Some? ==> size(apply(m, f).value) <= size(m) + |EncodeField(f)|
  }

  lemma {:induction false} MergeCompact<M(!new)>(apply: (M, Field) -> Option<M>, size: M -> nat, m: M, b: bytes)
    requires Compact(apply, size) && MergeAll(apply, m, b).Merged?
    ensures size(MergeAll(apply, m, b).msg) <= size(m) + MergeAll(apply, m, b).consumed
    decreases |b|
  {
    hide NextField, EncodeField, Wf;
    match NextField(b)
    case Got(f, n) =>
      NextShortest(b);
      MergeCompact(apply, size, apply(m, f).value, b[n..]);
    case _ =>
  }

  // What applying a field keeps, parsing keeps.
  ghost predicate Keeps<M(!new)>(apply: (M, Field) -> Option<M>, good: M -> bool) {
    forall m: M, f: Field :: Wf(f) && good(m) && apply(m, f).Some? ==> good(apply(m, f).value)
  }

  lemma {:induction false} MergeKeeps<M(!new)>(apply: (M, Field) -> Option<M>, good: M -> bool, m: M, b: bytes)
    requires Keeps(apply, good) && good(m) && MergeAll(apply, m, b).Merged?
    ensures good(MergeAll(apply, m, b).msg)
    decreases |b|
  {
    hide NextField, EncodeField, Wf;
    match NextField(b)
    case Got(f, n) => MergeKeeps(apply, good, apply(m, f).value, b[n..]);
    case _ =>
  }

  // ----- addresses and acknowledgements -----

  function AddressLength(a: Address): nat { |SerializeAddress(a)| }

  lemma UnknownPush(fs: seq<Field>, f: Field)
    ensures |EncodeFields(fs + [f])| == |EncodeFields(fs)| + |EncodeField(f)|
  {
    EncodeFieldsAppend(fs, [f]);
    EncodeOne(f);
  }

  lemma AddressCompact()
    ensures Compact(ApplyAddress, AddressLength)
  {
    forall m: Address, f: Field | Wf(f) && ApplyAddress(m, f).Some?
      ensures AddressLength(ApplyAddress(m, f).value) <= AddressLength(m) + |EncodeField(f)|
    {
      AddressFieldCompact(m, f);
    }
  }

  lemma AddressFieldCompact(m: Address, f: Field)
    ensures AddressLength(ApplyAddress(m, f).value) <= AddressLength(m) + |EncodeField(f)|
  {
    if KnownToAddress(f) {
      AddressSize(m);
      AddressSize(ApplyAddress(m, f).value);
      assert f == Field(f.num, Len(f.value.data));
      hide EncodeField, EncodeFields, SerializeAddress;
    } else {
      AddressSize(m);
      AddressSize(ApplyAddress(m, f).value);
      UnknownPush(m.unknown, f);
    }
  }

  lemma AddressSize(a: Address)
    ensures |SerializeAddress(a)| == |LenBytes(1, a.username)| + |LenBytes(2, a.domain)| + |LenBytes(3, a.resource)|
                                   + |EncodeFields(a.unknown)|
  {
    SplitAddress(a);
  }

  lemma AddressKeeps()
    ensures Keeps(ApplyAddress, ValidAddress)
  {
    hide Wf;
    forall m: Address, f: Field | Wf(f) && ValidAddress(m) && ApplyAddress(m, f).Some?
      ensures ValidAddress(ApplyAddress(m, f).value)
    {
      if KnownToAddress(f) { LenFits(f); }
    }
  }

  lemma LenFits(f: Field)
    requires Wf(f) && f.value.Len?
    ensures |f.value.data| < TWO31
  {
  }

  function AckLength(a: Ack): nat { |SerializeAck(a)| }

  lemma AckCompact()
    ensures Compact(ApplyAck, AckLength)
  {
    forall m: Ack, f: Field | Wf(f) && ApplyAck(m, f).Some?
      ensures AckLength(ApplyAck(m, f).value) <= AckLength(m) + |EncodeField(f)|
    {
      SplitAck(m);
      SplitAck(ApplyAck(m, f).value);
      UnknownPush(m.unknown, f);
      hide EncodeField, EncodeFields, SerializeAck;
      assert KnownToAck(f) ==> f == Field(1, Varint(f.value.v));
    }
  }

  lemma AckKeeps()
    ensures Keeps(ApplyAck, ValidAck)
  {
    hide Wf;
  }

  // ----- packets -----

  lemma {:induction false} VarintDouble(n: nat)
    ensures |EncodeVarint(2 * n + 1)| <= |EncodeVarint(n)| + 1
    decreases n
  {
    if n >= 128 {
      VarintDouble(n / 128);
      assert (2 * n + 1) / 128 <= 2 * (n / 128) + 1;
      VarintMonotone((2 * n + 1) / 128, 2 * (n / 128) + 1);
    }
  }

  lemma VarintSubadditive(m: nat, n: nat)
    ensures |EncodeVarint(m + n)| <= |EncodeVarint(m)| + |EncodeVarint(n)|
  {
    var most := if m < n then n else m;
    VarintMonotone(m + n, 2 * most + 1);
    VarintDouble(most);
  }

  // A value of length `merged`, merged from one of length `old` and one of length `new`.
  lemma LenGrows(num: nat, was: bytes, added: bytes, merged: bytes)
    requires |merged| <= |was| + |added|
    ensures |EncodeField(Field(num, Len(merged)))|
         <= |EncodeField(Field(num, Len(was)))| + |EncodeField(Field(num, Len(added)))|
    ensures was == [] ==> |EncodeField(Field(num, Len(merged)))| <= |EncodeField(Field(num, Len(added)))|
  {
    VarintMonotone(|merged|, |was| + |added|);
    VarintSubadditive(|was|, |added|);
    hide EncodeVarint;
  }

  lemma EmbeddedAddress(num: nat, a: Option<Address>, data: bytes)
    requires ParseInto(ApplyAddress, AddressOr(a), data).Some?
    ensures var a' := ParseInto(ApplyAddress, AddressOr(a), data);
            |AddressBytes(num, a')| <= |AddressBytes(num, a)| + |EncodeField(Field(num, Len(data)))|
    ensures ValidAddress(AddressOr(a)) ==> ValidAddress(ParseInto(ApplyAddress, AddressOr(a), data).value)
  {
    AddressCompact();
    AddressKeeps();
    MergeCompact(ApplyAddress, AddressLength, AddressOr(a), data);
    if ValidAddress(AddressOr(a)) {
      MergeKeeps(ApplyAddress, ValidAddress, AddressOr(a), data);
    }
    var a' := ParseInto(ApplyAddress, AddressOr(a), data).value;
    assert SerializeAddress(NO_ADDRESS) == [] by { SplitAddress(NO_ADDRESS); }
    LenGrows(num, SerializeAddress(AddressOr(a)), data, SerializeAddress(a'));
    hide EncodeField, SerializeAddress, MergeAll, Compact, Keeps, ValidAddress;
  }

  lemma EmbeddedAck(num: nat, a: Option<Ack>, data: bytes)
    requires ParseInto(ApplyAck, AckOr(a), data).Some?
    ensures var a' := ParseInto(ApplyAck, AckOr(a), data);
            |AckBytes(num, a')| <= |AckBytes(num, a)| + |EncodeField(Field(num, Len(data)))|
    ensures ValidAck(AckOr(a)) ==> ValidAck(ParseInto(ApplyAck, AckOr(a), data).value)
  {
    AckCompact();
    AckKeeps();
    MergeCompact(ApplyAck, AckLength, AckOr(a), data);
    if ValidAck(AckOr(a)) {
      MergeKeeps(ApplyAck, ValidAck, AckOr(a), data);
    }
    var a' := ParseInto(ApplyAck, AckOr(a), data).value;
    assert SerializeAck(NO_ACK) == [] by { SplitAck(NO_ACK); }
    LenGrows(num, SerializeAck(AckOr(a)), data, SerializeAck(a'));
    hide EncodeField, SerializeAck, MergeAll, Compact, Keeps, ValidAck;
  }

  function PacketLength(p: Packet): nat { |Serialize(p)| }

  // A number is written with its own value, not the one read.
  lemma NumberShrinks(num: nat, v: u64, w: nat)
    requires w <= v
    ensures |EncodeField(Field(num, Varint(w)))| <= |EncodeField(Field(num, Varint(v)))|
  {
    VarintMonotone(w, v);
  }

  // The size of each part of a packet's serialisation.
  function SizeParts(p: Packet): (s: seq<nat>)
    ensures |s| == 11
  {
    [|AddressBytes(1, p.src)|, |AddressBytes(2, p.dest)|, |LenBytes(3, p.publickey)|, |VarintBytes(4, Wide(p.ttl))|,
     |LenBytes(6, p.protocol)|, |VarintBytes(7, Wide(p.encryptMethod))|, |LenBytes(8, p.payload)|,
     |BoolBytes(9, p.dontRoute)|, |VarintBytes(10, p.timestamp)|, |AckBytes(11, p.needSeq)|, |EncodeFields(p.unknown)|]
  }

  // A packet that grows in one part grows by that much.
  lemma OnePartGrows(m: Packet, m': Packet, k: nat, added: nat)
    requires k < 11 && SizeParts(m')[k] <= SizeParts(m)[k] + added
    requires forall j :: 0 <= j < 11 && j != k ==> SizeParts(m')[j] == SizeParts(m)[j]
    ensures PacketLength(m') <= PacketLength(m) + added
  {
    SerializeSize(m);
    SerializeSize(m');
    hide Serialize, EncodeFields, AddressBytes, AckBytes, LenBytes, VarintBytes, BoolBytes;
    var a, b := SizeParts(m), SizeParts(m');
    assert PacketLength(m) == a[0] + a[1] + a[2] + a[3] + a[4] + a[5] + a[6] + a[7] + a[8] + a[9] + a[10];
    assert PacketLength(m') == b[0] + b[1] + b[2] + b[3] + b[4] + b[5] + b[6] + b[7] + b[8] + b[9] + b[10];
  }

  lemma PacketCompact()
    ensures Compact(ApplyPacket, PacketLength)
  {
    forall m: Packet, f: Field | Wf(f) && ApplyPacket(m, f).Some?
      ensures PacketLength(ApplyPacket(m, f).value) <= PacketLength(m) + |EncodeField(f)|
    {
      hide EncodeField, Wf, ApplyPacket;
      FieldCompact(m, f);
    }
  }

  lemma FieldCompact(m: Packet, f: Field)
    requires ApplyPacket(m, f).Some?
    ensures PacketLength(ApplyPacket(m, f).value) <= PacketLength(m) + |EncodeField(f)|
  {
    hide EncodeField, EncodeFields, SerializeAddress, SerializeAck, ParseInto, PacketLength;
    var m' := ApplyPacket(m, f).value;
    if !KnownToPacket(f) {
      UnknownPush(m.unknown, f);
      OnePartGrows(m, m', 10, |EncodeField(f)|);
    } else if f.value.Varint? {
      NumberCompact(m, f);
    } else if f.num == 1 || f.num == 2 || f.num == 11 {
      EmbeddedCompact(m, f);
    } else {
      assert f == Field(f.num, Len(f.value.data));
      OnePartGrows(m, m', if f.num == 3 then 2 else if f.num == 6 then 4 else 6, |EncodeField(f)|);
    }
  }

  lemma NumberCompact(m: Packet, f: Field)
    requires KnownToPacket(f) && f.value.Varint?
    ensures PacketLength(ApplyPacket(m, f).value) <= PacketLength(m) + |EncodeField(f)|
  {
    hide EncodeField, EncodeFields, SerializeAddress, SerializeAck, ParseInto, PacketLength;
    var v := f.value.v;
    assert f == Field(f.num, Varint(v));
    NumberShrinks(f.num, v, v % TWO32);
    NumberShrinks(f.num, v, if v != 0 then 1 else 0);
    OnePartGrows(m, ApplyPacket(m, f).value, if f.num == 4 then 3 else if f.num == 7 then 5 else f.num - 2,
                 |EncodeField(f)|);
  }

  lemma EmbeddedCompact(m: Packet, f: Field)
    requires f.value.Len? && (f.num == 1 || f.num == 2 || f.num == 11) && ApplyPacket(m, f).Some?
    ensures PacketLength(ApplyPacket(m, f).value) <= PacketLength(m) + |EncodeField(f)|
  {
    hide EncodeField, EncodeFields, AddressBytes, AckBytes, ParseInto, PacketLength;
    assert f == Field(f.num, Len(f.value.data));
    if f.num == 1 {
      EmbeddedAddress(1, m.src, f.value.data);
    } else if f.num == 2 {
      EmbeddedAddress(2, m.dest, f.value.data);
    } else {
      EmbeddedAck(11, m.needSeq, f.value.data);
    }
    OnePartGrows(m, ApplyPacket(m, f).value, if f.num == 11 then 9 else f.num - 1, |EncodeField(f)|);
  }

  // A packet whose unknown fields are fields it does not know, and so on within it.
  predicate SoundPacket(p: Packet) {
    && (p.src.Some? ==> ValidAddress(p.src.value)) && (p.dest.Some? ==> ValidAddress(p.dest.value))
    && (p.needSeq.Some? ==> ValidAck(p.needSeq.value)) && Unknowns(p.unknown, KnownToPacket)
    && Fits(p.publickey) && Fits(p.protocol) && Fits(p.payload)
  }

  lemma PacketKeeps()
    ensures Keeps(ApplyPacket, SoundPacket)
  {
    forall m: Packet, f: Field | Wf(f) && SoundPacket(m) && ApplyPacket(m, f).Some?
      ensures SoundPacket(ApplyPacket(m, f).value)
    {
      PacketFieldKeeps(m, f);
    }
  }

  lemma PacketFieldKeeps(m: Packet, f: Field)
    requires Wf(f) && SoundPacket(m) && ApplyPacket(m, f).Some?
    ensures SoundPacket(ApplyPacket(m, f).value)
  {
    hide Wf, SoundPacket, ApplyPacket;
    if !KnownToPacket(f) {
      UnknownKeeps(m, f);
    } else if f.value.Varint? {
      NumberKeeps(m, f);
    } else if f.num == 1 || f.num == 2 || f.num == 11 {
      EmbeddedKeeps(m, f);
    } else {
      StringKeeps(m, f);
    }
  }

  lemma EmbeddedKeeps(m: Packet, f: Field)
    requires f.value.Len? && (f.num == 1 || f.num == 2 || f.num == 11)
    requires SoundPacket(m) && ApplyPacket(m, f).Some?
    ensures SoundPacket(ApplyPacket(m, f).value)
  {
    hide Wf, ParseInto, ValidAddress, ValidAck, Unknowns;
    NothingIsValid();
    if f.num == 1 {
      EmbeddedAddress(1, m.src, f.value.data);
    } else if f.num == 2 {
      EmbeddedAddress(2, m.dest, f.value.data);
    } else {
      EmbeddedAck(11, m.needSeq, f.value.data);
    }
  }

  lemma UnknownKeeps(m: Packet, f: Field)
    requires Wf(f) && SoundPacket(m) && !KnownToPacket(f)
    ensures SoundPacket(ApplyPacket(m, f).value)
  {
    UnknownsPush(m.unknown, f);
    hide Wf, ValidAddress, ValidAck, Unknowns, KnownToPacket;
  }

  lemma NumberKeeps(m: Packet, f: Field)
    requires SoundPacket(m) && KnownToPacket(f) && f.value.Varint?
    ensures SoundPacket(ApplyPacket(m, f).value)
  {
    hide ValidAddress, ValidAck, Unknowns, Fits, ParseInto;
  }

  lemma StringKeeps(m: Packet, f: Field)
    requires SoundPacket(m) && KnownToPacket(f) && f.value.Len? && f.num != 1 && f.num != 2 && f.num != 11
    requires Wf(f)
    ensures SoundPacket(ApplyPacket(m, f).value)
  {
    LenFits(f);
    hide Wf, ValidAddress, ValidAck, Unknowns, ParseInto;
  }

  lemma UnknownsPush(fs: seq<Field>, f: Field)
    requires Unknowns(fs, KnownToPacket) && Wf(f) && !KnownToPacket(f)
    ensures Unknowns(fs + [f], KnownToPacket)
  {
    hide Wf, KnownToPacket;
  }

  lemma NothingIsValid()
    ensures ValidAddress(NO_ADDRESS) && ValidAck(NO_ACK) && SoundPacket(NO_PACKET)
  {
  }

  // A packet parsed from at most 2 GB can be serialised again, and in no more bytes.
  lemma ReserializedIsNoLonger(b: bytes)
    requires |b| < TWO31 && MergeAll(ApplyPacket, NO_PACKET, b).Merged?
    ensures var p := MergeAll(ApplyPacket, NO_PACKET, b).msg;
            ValidPacket(p) && |Serialize(p)| <= MergeAll(ApplyPacket, NO_PACKET, b).consumed
  {
    NothingIsValid();
    PacketCompact();
    PacketKeeps();
    MergeCompact(ApplyPacket, PacketLength, NO_PACKET, b);
    MergeKeeps(ApplyPacket, SoundPacket, NO_PACKET, b);
    var p := MergeAll(ApplyPacket, NO_PACKET, b).msg;
    SerializeSize(NO_PACKET);
    SmallIsValid(p);
  }

  lemma SmallIsValid(p: Packet)
    requires SoundPacket(p) && |Serialize(p)| < TWO31
    ensures ValidPacket(p)
  {
    SerializeSize(p);
    hide Serialize, EncodeFields, ScalarsLength, ValidAddress, ValidAck, SerializeAddress, SerializeAck, EncodeVarint;
    if p.src.Some? { LenWithin(1, SerializeAddress(p.src.value)); }
    if p.dest.Some? { LenWithin(2, SerializeAddress(p.dest.value)); }
    if p.needSeq.Some? { LenWithin(11, SerializeAck(p.needSeq.value)); }
  }

  lemma LenWithin(num: nat, data: bytes)
    ensures |data| <= |EncodeField(Field(num, Len(data)))|
  {
  }
}
