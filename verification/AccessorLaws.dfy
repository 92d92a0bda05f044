// What every accessor makes of what a packet shows: the members it serialises, is merged from
// and is copied by. The numbers of the string fields are those of their has-bits.
module AccessorLaws {
  import opened Bytes
  import opened Wire
  import opened Messages
  import opened States
  import opened Accessors
  import opened PacketBytes

  // A new packet shows nothing, and its getters the defaults.
  lemma NewShows()
    ensures ShownPacket(Run([])) == Packet(None, None, None, None, None, None, None, None, None, None, [])
    ensures var s := Run([]);
            && s.publickey.text.Content(DefaultText(2)) == [] && s.payload.text.Content(DefaultText(9)) == []
            && s.protocol.text.Content(DefaultText(4)) == [97, 118, 105, 109]
  {
  }

  // The member that a call leaves in a string field, given what the field shows, what the
  // string it points to holds, and the call.
  function Left(shown: Option<bytes>, held: bytes, call: TextCall): Option<bytes> {
    match call
    case Set(v) => Some(v)
    case Clear => None
    case Mutable => Some(held)
    case Release => None
    case SetAllocated(o) => o
    case Write(v) => if shown.Some? then Some(v) else None
  }

  // What is held is what is shown, if anything is; and what a call writes, when it writes.
  predicate Held(shown: Option<bytes>, held: bytes) { shown.Some? ==> shown.value == held }

  // A call on a string field changes that member alone, and leaves the text that it says.
  lemma TextLaws(s: PacketState, call: TextCall)
    ensures var p := ShownPacket(s);
            && ShownPacket(After(s, Call.OnText(2, call)))
               == p.(publickey := Left(p.publickey, s.publickey.text.Content([]), call))
            && ShownPacket(After(s, Call.OnText(4, call)))
               == p.(protocol := Left(p.protocol, s.protocol.text.Content([97, 118, 105, 109]), call))
            && ShownPacket(After(s, Call.OnText(9, call)))
               == p.(payload := Left(p.payload, s.payload.text.Content([]), call))
            && Held(p.publickey, s.publickey.text.Content([])) && Held(p.payload, s.payload.text.Content([]))
            && Held(p.protocol, s.protocol.text.Content([97, 118, 105, 109]))
  {
  }

  // The string that a field points to after a call: what has been set or written, and the
  // default once it has been cleared, released or given away.
  lemma TextHeld(f: StringField, call: TextCall, shared: bytes)
    ensures TextAfter(f, call, shared).text.Content(shared)
         == match call
            case Set(v) => v
            case Mutable => f.text.Content(shared)
            case SetAllocated(Some(v)) => v
            case Write(v) => v
            case _ => shared
  {
  }

  lemma NumberLaws(s: PacketState, n: u32)
    ensures var p := ShownPacket(s);
            && ShownPacket(After(s, SetTimeToLive(n))) == p.(ttl := Some(n))
            && ShownPacket(After(s, ClearTimeToLive)) == p.(ttl := None)
            && ShownPacket(After(s, SetEncryptMethod(n))) == p.(encryptMethod := Some(n))
            && ShownPacket(After(s, ClearEncryptMethod)) == p.(encryptMethod := None)
  {
    hide Show, ShownText, ShownAddress;
  }

  lemma LateNumberLaws(s: PacketState, t: u64, b: bool)
    ensures var p := ShownPacket(s);
            && ShownPacket(After(s, SetDontRoute(b))) == p.(dontRoute := Some(b))
            && ShownPacket(After(s, ClearDontRoute)) == p.(dontRoute := None)
            && ShownPacket(After(s, SetTimestamp(t))) == p.(timestamp := Some(t))
            && ShownPacket(After(s, ClearTimestamp)) == p.(timestamp := None)
  {
    hide Show, ShownText, ShownAddress;
  }

  // An embedded address that is handed out is shown from then on, as it was; one that is
  // cleared, released or replaced by none is not; and one that is handed over is.
  lemma SrcLaws(s: PacketState, a: AddressState)
    ensures var p := ShownPacket(s);
            && (p.src.Some? ==> ShownPacket(After(s, OnSrc(EmbeddedCall.Mutable))) == p)
            && (AddressFieldTidy(s.src) && p.src.None? ==>
                  ShownPacket(After(s, OnSrc(EmbeddedCall.Mutable)))
                      == p.(src := Some(Address(None, None, None, []))))
            && ShownPacket(After(s, OnSrc(EmbeddedCall.Clear))) == p.(src := None)
            && ShownPacket(After(s, OnSrc(EmbeddedCall.Release))) == p.(src := None)
            && ShownPacket(After(s, OnSrc(EmbeddedCall.SetAllocated(None)))) == p.(src := None)
            && ShownPacket(After(s, OnSrc(EmbeddedCall.SetAllocated(Some(a))))) == p.(src := Some(ShownAddress(a)))
  {
    hide AddressCleared;
  }

  lemma DestLaws(s: PacketState, a: AddressState)
    ensures var p := ShownPacket(s);
            && (p.dest.Some? ==> ShownPacket(After(s, OnDest(EmbeddedCall.Mutable))) == p)
            && (AddressFieldTidy(s.dest) && p.dest.None? ==>
                  ShownPacket(After(s, OnDest(EmbeddedCall.Mutable)))
                      == p.(dest := Some(Address(None, None, None, []))))
            && ShownPacket(After(s, OnDest(EmbeddedCall.Clear))) == p.(dest := None)
            && ShownPacket(After(s, OnDest(EmbeddedCall.Release))) == p.(dest := None)
            && ShownPacket(After(s, OnDest(EmbeddedCall.SetAllocated(None)))) == p.(dest := None)
            && ShownPacket(After(s, OnDest(EmbeddedCall.SetAllocated(Some(a))))) == p.(dest := Some(ShownAddress(a)))
  {
    hide AddressCleared;
  }

  lemma NeedSeqLaws(s: PacketState, a: Ack)
    ensures var p := ShownPacket(s);
            && (p.needSeq.Some? ==> ShownPacket(After(s, OnNeedSeq(EmbeddedCall.Mutable))) == p)
            && (AckFieldTidy(s.needSeq) && p.needSeq.None? ==>
                  ShownPacket(After(s, OnNeedSeq(EmbeddedCall.Mutable))) == p.(needSeq := Some(Ack(None, []))))
            && ShownPacket(After(s, OnNeedSeq(EmbeddedCall.Clear))) == p.(needSeq := None)
            && ShownPacket(After(s, OnNeedSeq(EmbeddedCall.Release))) == p.(needSeq := None)
            && ShownPacket(After(s, OnNeedSeq(EmbeddedCall.SetAllocated(None)))) == p.(needSeq := None)
            && ShownPacket(After(s, OnNeedSeq(EmbeddedCall.SetAllocated(Some(a))))) == p.(needSeq := Some(a))
  {
  }

  lemma SeqLaws(a: Ack, n: u64, m: Ack)
    ensures AckAfter(a, SetSeq(n)) == a.(seq_ := Some(n)) && AckAfter(a, ClearSeq) == a.(seq_ := None)
    ensures AckAfter(a, AckCall.Clear) == Ack(None, [])
    ensures AckAfter(a, AckCall.MergeFrom(m))
         == Ack(if m.seq_.Some? then m.seq_ else a.seq_, a.unknown + m.unknown)
  {
  }

  // A call on a string field of an address.
  lemma NameLaws(a: AddressState, call: TextCall)
    ensures var x := ShownAddress(a);
            && ShownAddress(AddressAfter(a, AddressCall.OnText(0, call)))
               == x.(username := Left(x.username, a.username.text.Content([]), call))
            && ShownAddress(AddressAfter(a, AddressCall.OnText(1, call)))
               == x.(domain := Left(x.domain, a.domain.text.Content([]), call))
            && ShownAddress(AddressAfter(a, AddressCall.OnText(2, call)))
               == x.(resource := Left(x.resource, a.resource.text.Content([]), call))
            && Held(x.username, a.username.text.Content([])) && Held(x.domain, a.domain.text.Content([]))
            && Held(x.resource, a.resource.text.Content([]))
            && ShownAddress(AddressAfter(a, AddressCall.Clear)) == Address(None, None, None, [])
  {
  }

  // A call through the pointer to an embedded message shows in the packet while its has-bit is
  // set, and not otherwise.
  lemma ThroughLaws(s: PacketState, call: AddressCall, ack: AckCall)
    ensures var p := ShownPacket(s);
            && ShownPacket(After(s, OnSrc(Through(call))))
               == (if p.src.None? then p else p.(src := Some(ShownAddress(AddressAfter(s.src.message, call)))))
            && ShownPacket(After(s, OnDest(Through(call))))
               == (if p.dest.None? then p else p.(dest := Some(ShownAddress(AddressAfter(s.dest.message, call)))))
            && ShownPacket(After(s, OnNeedSeq(Through(ack))))
               == (if p.needSeq.None? then p else p.(needSeq := Some(AckAfter(p.needSeq.value, ack))))
            && (p.src.Some? ==> p.src.value == ShownAddress(s.src.message))
            && (p.dest.Some? ==> p.dest.value == ShownAddress(s.dest.message))
  {
    hide AddressAfter, AckAfter, ShownAddress;
  }

  // MergeFrom lays its source over what a packet shows, when nothing is hidden.
  lemma MergeLaw(s: PacketState, m: Packet)
    requires PacketTidy(s)
    ensures ShownPacket(After(s, Call.MergeFrom(m))) == PacketOver(ShownPacket(s), m)
  {
    MergeShows(s, m);
    PacketOverIs(ShownPacket(s), m);
    hide ShownPacket, PacketMerged, PacketTidy, MergePacket, PacketOver;
  }
}
