// The state of the generated message objects, as values, and what each of their accessors
// makes of it. A string field points to a string its message owns or to the default that all
// messages share; an embedded message stays allocated when its has-bit is cleared.
module States {
  import opened Bytes
  import opened Wire
  import opened Messages

  const AVIM: bytes := [97, 118, 105, 109]

  // ----- string fields -----

  datatype Text = Shared | Own(text: bytes) {
    function Content(shared: bytes): bytes { if Shared? then shared else text }
  }

  datatype StringField = StringField(bit: bool, text: Text)

  const NEW_TEXT := StringField(false, Shared)

  // The last is a write through the pointer that the third handed out.
  datatype TextCall =
    | Set(value: bytes)
    | Clear
    | Mutable
    | Release
    | SetAllocated(given: Option<bytes>)
    | Write(value: bytes)

  predicate TextPossible(f: StringField, call: TextCall) { call.Write? ==> f.text.Own? }

  function TextAfter(f: StringField, call: TextCall, shared: bytes): StringField {
    match call
    case Set(v) => StringField(true, Own(v))
    case Clear => StringField(false, if f.text.Shared? then Shared else Own(shared))
    case Mutable => StringField(true, Own(f.text.Content(shared)))
    case Release => StringField(false, Shared)
    case SetAllocated(None) => StringField(false, Shared)
    case SetAllocated(Some(v)) => StringField(true, Own(v))
    case Write(v) => StringField(f.bit, Own(v))
  }

  // Clear looks at the has-bit first.
  function TextCleared(f: StringField, shared: bytes): StringField {
    if f.bit then TextAfter(f, TextCall.Clear, shared) else f
  }

  function TextMerged(f: StringField, o: Option<bytes>): StringField {
    if o.Some? then TextAfter(f, TextCall.Set(o.value), []) else f
  }

  function ShownText(f: StringField, shared: bytes): Option<bytes> {
    if f.bit then Some(f.text.Content(shared)) else None
  }

  // A clear has-bit means the default.
  predicate TextTidy(f: StringField, shared: bytes) { f.bit || f.text.Content(shared) == shared }

  // ----- av_address -----

  datatype AddressState = AddressState(
    username: StringField, domain: StringField, resource: StringField, unknown: seq<Field>)

  const NEW_ADDRESS := AddressState(NEW_TEXT, NEW_TEXT, NEW_TEXT, [])

  // The string fields are numbered by their has-bits.
  datatype AddressCall =
    | OnText(i: nat, text: TextCall)
    | Clear
    | MergeFrom(other: Address)
    | Parse(input: bytes)

  function AddressText(a: AddressState, i: nat): StringField {
    if i == 0 then a.username else if i == 1 then a.domain else a.resource
  }

  function WithAddressText(a: AddressState, i: nat, f: StringField): AddressState {
    if i == 0 then a.(username := f) else if i == 1 then a.(domain := f) else a.(resource := f)
  }

  function AddressTextAfter(a: AddressState, i: nat, call: TextCall): AddressState {
    WithAddressText(a, i, TextAfter(AddressText(a, i), call, []))
  }

  function AddressCleared(a: AddressState): AddressState {
    AddressState(TextCleared(a.username, []), TextCleared(a.domain, []), TextCleared(a.resource, []), [])
  }

  function AddressMerged(a: AddressState, m: Address): AddressState {
    AddressState(TextMerged(a.username, m.username), TextMerged(a.domain, m.domain), TextMerged(a.resource, m.resource),
                 a.unknown + m.unknown)
  }

  // The effect of a field that has been read.
  function ApplyToAddress(a: AddressState, f: Field): Option<AddressState> {
    if !KnownToAddress(f) then Some(a.(unknown := a.unknown + [f]))
    else Some(AddressTextAfter(a, f.num - 1, TextCall.Set(f.value.data)))
  }

  predicate AddressPossible(a: AddressState, call: AddressCall) {
    match call
    case OnText(i, c) => i < 3 && TextPossible(AddressText(a, i), c)
    case Parse(b) => MergeAll(ApplyToAddress, a, b).Merged?
    case _ => true
  }

  function AddressAfter(a: AddressState, call: AddressCall): AddressState {
    match call
    case OnText(i, c) => AddressTextAfter(a, i, c)
    case Clear => AddressCleared(a)
    case MergeFrom(m) => AddressMerged(a, m)
    case Parse(b) => Result(MergeAll(ApplyToAddress, a, b), a)
  }

  function Result<M>(r: Parsed<M>, m: M): M { if r.Merged? then r.msg else m }

  function ShownAddress(a: AddressState): Address {
    Address(ShownText(a.username, []), ShownText(a.domain, []), ShownText(a.resource, []), a.unknown)
  }

  predicate AddressTidy(a: AddressState) {
    TextTidy(a.username, []) && TextTidy(a.domain, []) && TextTidy(a.resource, [])
  }

  // Like a new object.
  predicate AddressDefault(a: AddressState) { AddressTidy(a) && ShownAddress(a) == NO_ADDRESS }

  // ----- embedded messages -----

  // The pointer is null or to an object; only then can the has-bit be set.
  datatype Embedded<+T> = Null | Object(bit: bool, message: T)

  // The last is a call through a pointer to the embedded object, which a caller has kept.
  datatype EmbeddedCall<+T, +C> =
    | Mutable
    | Clear
    | Release
    | SetAllocated(given: Option<T>)
    | Through(call: C)

  // The object that mutable_ hands out: the one there is, whatever it holds, or a new one.
  function Exposed<T>(e: Embedded<T>, empty: T): T { if e.Null? then empty else e.message }

  function EmbeddedAfter<T, C>(
      e: Embedded<T>, call: EmbeddedCall<T, C>, empty: T, cleared: T -> T, after: (T, C) -> T): Embedded<T>
  {
    match call
    case Mutable => Object(true, Exposed(e, empty))
    case Clear => if e.Null? then Null else Object(false, cleared(e.message))
    case Release => Null
    case SetAllocated(None) => Null
    case SetAllocated(Some(m)) => Object(true, m)
    case Through(c) => if e.Null? then Null else Object(e.bit, after(e.message, c))
  }

  // Clear looks at the has-bit first.
  function EmbeddedCleared<T>(e: Embedded<T>, cleared: T -> T): Embedded<T> {
    if e.Null? || !e.bit then e else Object(false, cleared(e.message))
  }

  function EmbeddedMerged<T, M>(e: Embedded<T>, o: Option<M>, empty: T, merged: (T, M) -> T): Embedded<T> {
    if o.None? then e else Object(true, merged(Exposed(e, empty), o.value))
  }

  function Show<T, M>(e: Embedded<T>, shown: T -> M): Option<M> {
    if e.Object? && e.bit then Some(shown(e.message)) else None
  }

  // ----- avpacket.ack_control -----

  // Its number has its default whenever its bit is clear, so the message is the whole state.
  datatype AckCall =
    | SetSeq(value: u64)
    | ClearSeq
    | Clear
    | MergeFrom(other: Ack)
    | Parse(input: bytes)

  function AckCleared(a: Ack): Ack { NO_ACK }

  predicate AckPossible(a: Ack, call: AckCall) { call.Parse? ==> MergeAll(ApplyAck, a, call.input).Merged? }

  function AckAfter(a: Ack, call: AckCall): Ack {
    match call
    case SetSeq(v) => a.(seq_ := Some(v))
    case ClearSeq => a.(seq_ := None)
    case Clear => NO_ACK
    case MergeFrom(m) => MergeAck(a, m)
    case Parse(b) => Result(MergeAll(ApplyAck, a, b), a)
  }

  // ----- avpacket -----

  // A number, whose value is its default whenever its bit is clear, is its value or none.
  datatype PacketState = PacketState(
    src: Embedded<AddressState>, dest: Embedded<AddressState>, publickey: StringField, ttl: Option<u32>,
    protocol: StringField, encryptMethod: Option<u32>, payload: StringField,
    dontRoute: Option<bool>, timestamp: Option<u64>, needSeq: Embedded<Ack>, unknown: seq<Field>)

  const NEW_PACKET := PacketState(
    Null, Null, NEW_TEXT, None, NEW_TEXT, None, NEW_TEXT, None, None, Null, [])

  datatype Call =
    | OnText(i: nat, text: TextCall)
    | OnSrc(address: EmbeddedCall<AddressState, AddressCall>)
    | OnDest(address: EmbeddedCall<AddressState, AddressCall>)
    | OnNeedSeq(ack: EmbeddedCall<Ack, AckCall>)
    | SetTimeToLive(number: u32)
    | ClearTimeToLive
    | SetEncryptMethod(number: u32)
    | ClearEncryptMethod
    | SetDontRoute(flag: bool)
    | ClearDontRoute
    | SetTimestamp(time: u64)
    | ClearTimestamp
    | Clear
    | MergeFrom(other: Packet)
    | Parse(input: bytes)

  // The string fields are publickey, upperlayerpotocol and payload.
  predicate IsText(i: nat) { i == 2 || i == 4 || i == 9 }

  function DefaultText(i: nat): bytes { if i == 4 then AVIM else [] }

  function PacketText(s: PacketState, i: nat): StringField {
    if i == 2 then s.publickey else if i == 4 then s.protocol else s.payload
  }

  function WithPacketText(s: PacketState, i: nat, f: StringField): PacketState {
    if i == 2 then s.(publickey := f) else if i == 4 then s.(protocol := f) else s.(payload := f)
  }

  function PacketTextAfter(s: PacketState, i: nat, call: TextCall): PacketState {
    WithPacketText(s, i, TextAfter(PacketText(s, i), call, DefaultText(i)))
  }

  function AddressFieldAfter(
      e: Embedded<AddressState>, call: EmbeddedCall<AddressState, AddressCall>): Embedded<AddressState>
  {
    EmbeddedAfter(e, call, NEW_ADDRESS, AddressCleared, AddressAfter)
  }

  function AckFieldAfter(e: Embedded<Ack>, call: EmbeddedCall<Ack, AckCall>): Embedded<Ack> {
    EmbeddedAfter(e, call, NO_ACK, AckCleared, AckAfter)
  }

  function AddressFieldMerged(e: Embedded<AddressState>, o: Option<Address>): Embedded<AddressState> {
    EmbeddedMerged(e, o, NEW_ADDRESS, AddressMerged)
  }

  function AckFieldMerged(e: Embedded<Ack>, o: Option<Ack>): Embedded<Ack> {
    EmbeddedMerged(e, o, NO_ACK, MergeAck)
  }

  function PacketCleared(s: PacketState): PacketState {
    PacketState(
      EmbeddedCleared(s.src, AddressCleared), EmbeddedCleared(s.dest, AddressCleared),
      TextCleared(s.publickey, []), None,
      TextCleared(s.protocol, AVIM), None, TextCleared(s.payload, []), None, None,
      EmbeddedCleared(s.needSeq, AckCleared), [])
  }

  function PacketMerged(s: PacketState, m: Packet): PacketState {
    PacketState(
      AddressFieldMerged(s.src, m.src), AddressFieldMerged(s.dest, m.dest), TextMerged(s.publickey, m.publickey),
      Or(s.ttl, m.ttl), TextMerged(s.protocol, m.protocol), Or(s.encryptMethod, m.encryptMethod),
      TextMerged(s.payload, m.payload), Or(s.dontRoute, m.dontRoute), Or(s.timestamp, m.timestamp),
      AckFieldMerged(s.needSeq, m.needSeq), s.unknown + m.unknown)
  }

  // An embedded message that has been read is merged into the object that mutable_ exposes.
  function ReadInto<M>(apply: (M, Field) -> Option<M>, e: Embedded<M>, empty: M, data: bytes): Option<Embedded<M>> {
    match ParseInto(apply, Exposed(e, empty), data)
    case None => None
    case Some(m) => Some(Object(true, m))
  }

  function ApplyToPacket(s: PacketState, f: Field): Option<PacketState> {
    if !KnownToPacket(f) then Some(s.(unknown := s.unknown + [f]))
    else
      match f.value
      case Varint(v) =>
        if f.num == 4 then Some(s.(ttl := Some(v % TWO32)))
        else if f.num == 7 then Some(s.(encryptMethod := Some(v % TWO32)))
        else if f.num == 9 then Some(s.(dontRoute := Some(v != 0)))
        else Some(s.(timestamp := Some(v)))
      case Len(data) =>
        if f.num == 1 then
          (match ReadInto(ApplyToAddress, s.src, NEW_ADDRESS, data)
           case None => None case Some(e) => Some(s.(src := e)))
        else if f.num == 2 then
          (match ReadInto(ApplyToAddress, s.dest, NEW_ADDRESS, data)
           case None => None case Some(e) => Some(s.(dest := e)))
        else if f.num == 11 then
          (match ReadInto(ApplyAck, s.needSeq, NO_ACK, data) case None => None case Some(e) => Some(s.(needSeq := e)))
        else if f.num == 3 then Some(PacketTextAfter(s, 2, TextCall.Set(data)))
        else if f.num == 6 then Some(PacketTextAfter(s, 4, TextCall.Set(data)))
        else Some(PacketTextAfter(s, 9, TextCall.Set(data)))
      case _ => None
  }

  function After(s: PacketState, call: Call): PacketState {
    match call
    case OnText(i, c) => PacketTextAfter(s, i, c)
    case OnSrc(c) => s.(src := AddressFieldAfter(s.src, c))
    case OnDest(c) => s.(dest := AddressFieldAfter(s.dest, c))
    case OnNeedSeq(c) => s.(needSeq := AckFieldAfter(s.needSeq, c))
    case SetTimeToLive(n) => s.(ttl := Some(n))
    case ClearTimeToLive => s.(ttl := None)
    case SetEncryptMethod(n) => s.(encryptMethod := Some(n))
    case ClearEncryptMethod => s.(encryptMethod := None)
    case SetDontRoute(b) => s.(dontRoute := Some(b))
    case ClearDontRoute => s.(dontRoute := None)
    case SetTimestamp(t) => s.(timestamp := Some(t))
    case ClearTimestamp => s.(timestamp := None)
    case Clear => PacketCleared(s)
    case MergeFrom(m) => PacketMerged(s, m)
    case Parse(b) => Result(MergeAll(ApplyToPacket, s, b), s)
  }

  // What the has-bits show: the fields as they are serialised, merged from and copied.
  function ShownPacket(s: PacketState): Packet {
    Packet(Show(s.src, ShownAddress), Show(s.dest, ShownAddress), ShownText(s.publickey, []), s.ttl,
           ShownText(s.protocol, AVIM), s.encryptMethod, ShownText(s.payload, []), s.dontRoute, s.timestamp,
           Show(s.needSeq, (a: Ack) => a), s.unknown)
  }

  predicate AddressFieldTidy(e: Embedded<AddressState>) {
    e.Object? ==> if e.bit then AddressTidy(e.message) else AddressDefault(e.message)
  }

  predicate AckFieldTidy(e: Embedded<Ack>) { e.Object? && !e.bit ==> e.message == NO_ACK }

  // A clear has-bit means the default, of every field and of every embedded message.
  predicate PacketTidy(s: PacketState) {
    && AddressFieldTidy(s.src) && AddressFieldTidy(s.dest) && AckFieldTidy(s.needSeq)
    && TextTidy(s.publickey, []) && TextTidy(s.protocol, AVIM) && TextTidy(s.payload, [])
  }

  // Like a new object: nothing is shown, and nothing hidden that is not the default.
  predicate PacketDefault(s: PacketState) { PacketTidy(s) && ShownPacket(s) == NO_PACKET }
}
