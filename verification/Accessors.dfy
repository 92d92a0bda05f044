// Runs of accessor calls on a packet: which of them keep what Clear and CopyFrom rely on, that
// a clear has-bit hides nothing but a default.
module Accessors {
  import opened Bytes
  import opened Wire
  import opened Messages
  import opened States

  // ----- one string field -----

  // A pointer that has been kept is written through only while the has-bit is set, or to put
  // the default there.
  predicate TextProper(f: StringField, call: TextCall, shared: bytes) {
    call.Write? ==> f.bit || call.value == shared
  }

  lemma TextStep(f: StringField, call: TextCall, shared: bytes)
    requires TextTidy(f, shared)
    ensures TextTidy(TextAfter(f, call, shared), shared) <==> TextProper(f, call, shared)
  {
  }

  // ----- av_address -----

  predicate AddressProper(a: AddressState, call: AddressCall) {
    call.OnText? ==> TextProper(AddressText(a, call.i), call.text, [])
  }

  lemma {:induction false} ParseKeepsTidy(a: AddressState, b: bytes)
    requires AddressTidy(a)
    ensures var r := MergeAll(ApplyToAddress, a, b); r.Merged? ==> AddressTidy(r.msg)
    decreases |b|
  {
    match NextField(b)
    case Got(f, n) =>
      ParseKeepsTidy(ApplyToAddress(a, f).value, b[n..]);
    case _ =>
  }

  lemma AddressStep(a: AddressState, call: AddressCall)
    requires AddressTidy(a) && AddressPossible(a, call)
    ensures AddressTidy(AddressAfter(a, call)) <==> AddressProper(a, call)
  {
    match call
    case Parse(b) => ParseKeepsTidy(a, b);
    case _ =>
  }

  // What leaves a message that is like a new one as it is.
  predicate TextInert(call: TextCall) {
    match call
    case Clear => true
    case Release => true
    case SetAllocated(o) => o.None?
    case Write(v) => v == []
    case _ => false
  }

  // The input has no field: it is empty, or its first tag ends a message.
  predicate NoField(b: bytes) { NextField(b).AtEnd? || NextField(b).Stop? }

  predicate AddressInert(call: AddressCall) {
    match call
    case OnText(i, c) => TextInert(c)
    case Clear => true
    case MergeFrom(m) => m == NO_ADDRESS
    case Parse(b) => NoField(b)
  }

  predicate Grown(a: AddressState, b: AddressState) {
    && (a.username.bit ==> b.username.bit) && (a.domain.bit ==> b.domain.bit) && (a.resource.bit ==> b.resource.bit)
    && |a.unknown| <= |b.unknown|
  }

  lemma {:induction false} ParseGrows(a: AddressState, b: bytes)
    ensures var r := MergeAll(ApplyToAddress, a, b); r.Merged? ==> Grown(a, r.msg)
    decreases |b|
  {
    match NextField(b)
    case Got(f, n) =>
      ParseGrows(ApplyToAddress(a, f).value, b[n..]);
    case _ =>
  }

  lemma AddressIdle(a: AddressState, call: AddressCall)
    requires AddressDefault(a) && AddressPossible(a, call)
    ensures AddressDefault(AddressAfter(a, call)) <==> AddressInert(call)
  {
    match call
    case Parse(b) =>
      match NextField(b) {
        case Got(f, n) =>
          ParseGrows(ApplyToAddress(a, f).value, b[n..]);
        case _ =>
      }
    case _ =>
  }

  predicate AddressFieldPossible(e: Embedded<AddressState>, call: EmbeddedCall<AddressState, AddressCall>) {
    call.Through? ==> e.Object? && AddressPossible(e.message, call.call)
  }

  // An address that is handed over is tidy; and a call through a kept pointer is proper while
  // the has-bit is set, and does nothing while it is clear.
  predicate AddressFieldProper(e: Embedded<AddressState>, call: EmbeddedCall<AddressState, AddressCall>) {
    && (call.SetAllocated? && call.given.Some? ==> AddressTidy(call.given.value))
    && (call.Through? && e.Object? ==> if e.bit then AddressProper(e.message, call.call) else AddressInert(call.call))
  }

  lemma AddressFieldStep(e: Embedded<AddressState>, call: EmbeddedCall<AddressState, AddressCall>)
    requires AddressFieldTidy(e) && AddressFieldPossible(e, call)
    ensures AddressFieldTidy(AddressFieldAfter(e, call)) <==> AddressFieldProper(e, call)
  {
    hide MergeAll, ApplyToAddress, NextField;
    if call.Through? {
      if e.bit {
        AddressStep(e.message, call.call);
      } else {
        AddressIdle(e.message, call.call);
      }
    }
  }

  // ----- avpacket.ack_control -----

  predicate AckInert(call: AckCall) {
    match call
    case SetSeq(_) => false
    case MergeFrom(m) => m == NO_ACK
    case Parse(b) => NoField(b)
    case _ => true
  }

  lemma {:induction false} AckGrows(a: Ack, b: bytes)
    ensures var r := MergeAll(ApplyAck, a, b);
            r.Merged? ==> (a.seq_.Some? ==> r.msg.seq_.Some?) && |a.unknown| <= |r.msg.unknown|
    decreases |b|
  {
    match NextField(b)
    case Got(f, n) =>
      AckGrows(ApplyAck(a, f).value, b[n..]);
    case _ =>
  }

  lemma AckIdle(call: AckCall)
    requires AckPossible(NO_ACK, call)
    ensures AckAfter(NO_ACK, call) == NO_ACK <==> AckInert(call)
  {
    match call
    case Parse(b) =>
      match NextField(b) {
        case Got(f, n) =>
          AckGrows(ApplyAck(NO_ACK, f).value, b[n..]);
        case _ =>
      }
    case _ =>
  }

  predicate AckFieldPossible(e: Embedded<Ack>, call: EmbeddedCall<Ack, AckCall>) {
    call.Through? ==> e.Object? && AckPossible(e.message, call.call)
  }

  predicate AckFieldProper(e: Embedded<Ack>, call: EmbeddedCall<Ack, AckCall>) {
    call.Through? && e.Object? && !e.bit ==> AckInert(call.call)
  }

  lemma AckFieldStep(e: Embedded<Ack>, call: EmbeddedCall<Ack, AckCall>)
    requires AckFieldTidy(e) && AckFieldPossible(e, call)
    ensures AckFieldTidy(AckFieldAfter(e, call)) <==> AckFieldProper(e, call)
  {
    hide MergeAll, ApplyAck, NextField;
    if call.Through? && !e.bit {
      AckIdle(call.call);
    }
  }

  // ----- avpacket -----

  predicate Possible(s: PacketState, call: Call) {
    match call
    case OnText(i, c) => IsText(i) && TextPossible(PacketText(s, i), c)
    case OnSrc(c) => AddressFieldPossible(s.src, c)
    case OnDest(c) => AddressFieldPossible(s.dest, c)
    case OnNeedSeq(c) => AckFieldPossible(s.needSeq, c)
    case Parse(b) => MergeAll(ApplyToPacket, s, b).Merged?
    case _ => true
  }

  predicate Proper(s: PacketState, call: Call) {
    match call
    case OnText(i, c) => TextProper(PacketText(s, i), c, DefaultText(i))
    case OnSrc(c) => AddressFieldProper(s.src, c)
    case OnDest(c) => AddressFieldProper(s.dest, c)
    case OnNeedSeq(c) => AckFieldProper(s.needSeq, c)
    case _ => true
  }

  // Reading one field of a tidy packet leaves it tidy, and shows what the value of the packet
  // becomes when the field is applied to it.
  lemma FieldShows(s: PacketState, f: Field)
    requires PacketTidy(s)
    ensures var r, p := ApplyToPacket(s, f), ApplyPacket(ShownPacket(s), f);
            if r.None? then p.None? else PacketTidy(r.value) && p == Some(ShownPacket(r.value))
  {
    if KnownToPacket(f) && f.value.Len? {
      if f.num == 1 {
        AddressShows(Exposed(s.src, NEW_ADDRESS), f.value.data);
      } else if f.num == 2 {
        AddressShows(Exposed(s.dest, NEW_ADDRESS), f.value.data);
      }
    }
    hide ParseInto, ApplyToAddress, ApplyAddress;
  }

  // Parsing an address shows what parsing makes of the value it shows.
  lemma {:induction false} AddressParsed(a: AddressState, b: bytes)
    ensures var r, p := MergeAll(ApplyToAddress, a, b), MergeAll(ApplyAddress, ShownAddress(a), b);
            if r.Malformed? then p.Malformed? else p == Merged(ShownAddress(r.msg), r.consumed, r.clean)
    decreases |b|
  {
    match NextField(b)
    case Got(f, n) =>
      assert ApplyAddress(ShownAddress(a), f) == Some(ShownAddress(ApplyToAddress(a, f).value));
      AddressParsed(ApplyToAddress(a, f).value, b[n..]);
    case _ =>
  }

  lemma AddressShows(a: AddressState, b: bytes)
    ensures var r, p := ParseInto(ApplyToAddress, a, b), ParseInto(ApplyAddress, ShownAddress(a), b);
            if r.None? then p.None? else p == Some(ShownAddress(r.value)) && (AddressTidy(a) ==> AddressTidy(r.value))
  {
    AddressParsed(a, b);
    if AddressTidy(a) {
      ParseKeepsTidy(a, b);
    }
  }

  // Parsing into a tidy packet leaves it tidy, and is parsing into the value it shows.
  lemma {:induction false} ParseShows(s: PacketState, b: bytes)
    requires PacketTidy(s)
    ensures var r, p := MergeAll(ApplyToPacket, s, b), MergeAll(ApplyPacket, ShownPacket(s), b);
            if r.Malformed? then p.Malformed?
            else PacketTidy(r.msg) && p == Merged(ShownPacket(r.msg), r.consumed, r.clean)
    decreases |b|
  {
    hide ApplyToPacket, ApplyPacket, PacketTidy, ShownPacket;
    match NextField(b)
    case Got(f, n) =>
      FieldShows(s, f);
      if ApplyToPacket(s, f).Some? {
        ParseShows(ApplyToPacket(s, f).value, b[n..]);
      }
    case _ =>
  }

  // ----- what Clear and CopyFrom make of a packet that hides something -----

  lemma AddressCleans(a: AddressState)
    ensures ShownAddress(AddressCleared(a)) == NO_ADDRESS
    ensures AddressDefault(AddressCleared(a)) <==> AddressTidy(a)
  {
  }

  // Clear always leaves a packet that shows nothing, and one like new exactly when nothing but
  // defaults was hidden.
  lemma ClearShows(s: PacketState)
    ensures ShownPacket(PacketCleared(s)) == NO_PACKET
    ensures PacketDefault(PacketCleared(s)) <==> PacketTidy(s)
  {
    if s.src.Object? { AddressCleans(s.src.message); }
    if s.dest.Object? { AddressCleans(s.dest.message); }
    hide AddressTidy, AddressDefault, AddressCleared, ShownAddress;
  }

  // Everything the first shows is overwritten by the second.
  predicate AddressAbsorbed(x: Address, y: Address) {
    && (x.username.Some? ==> y.username.Some?) && (x.domain.Some? ==> y.domain.Some?)
    && (x.resource.Some? ==> y.resource.Some?) && x.unknown == []
  }

  predicate AckAbsorbed(x: Ack, y: Ack) { (x.seq_.Some? ==> y.seq_.Some?) && x.unknown == [] }

  lemma OnlyEmpty(x: seq<Field>, y: seq<Field>)
    ensures x + y == y <==> x == []
  {
  }

  // A hidden embedded message does not show up in a copy of the packet.
  predicate Unharmed(s: PacketState, m: Packet) {
    && (s.src.Object? && !s.src.bit && m.src.Some? ==> AddressAbsorbed(ShownAddress(s.src.message), m.src.value))
    && (s.dest.Object? && !s.dest.bit && m.dest.Some? ==> AddressAbsorbed(ShownAddress(s.dest.message), m.dest.value))
    && (s.needSeq.Object? && !s.needSeq.bit && m.needSeq.Some? ==> AckAbsorbed(s.needSeq.message, m.needSeq.value))
  }

  lemma AddressOver(a: AddressState, m: Address)
    ensures ShownAddress(AddressMerged(a, m)) == MergeAddress(ShownAddress(a), m)
    ensures MergeAddress(ShownAddress(a), m) == m <==> AddressAbsorbed(ShownAddress(a), m)
  {
    OnlyEmpty(a.unknown, m.unknown);
  }

  lemma AddressCopied(e: Embedded<AddressState>, o: Option<Address>)
    ensures Show(AddressFieldMerged(EmbeddedCleared(e, AddressCleared), o), ShownAddress) == o
       <==> (e.Object? && !e.bit && o.Some? ==> AddressAbsorbed(ShownAddress(e.message), o.value))
  {
    if o.Some? {
      var a := Exposed(EmbeddedCleared(e, AddressCleared), NEW_ADDRESS);
      AddressOver(a, o.value);
      if e.Object? {
        AddressCleans(e.message);
      }
    }
  }

  lemma AckCopied(e: Embedded<Ack>, o: Option<Ack>)
    ensures Show(AckFieldMerged(EmbeddedCleared(e, AckCleared), o), (a: Ack) => a) == o
       <==> (e.Object? && !e.bit && o.Some? ==> AckAbsorbed(e.message, o.value))
  {
    if o.Some? {
      OnlyEmpty(Exposed(EmbeddedCleared(e, AckCleared), NO_ACK).unknown, o.value.unknown);
    }
  }

  // CopyFrom shows what its source shows exactly when no embedded message with a clear has-bit
  // shows up in the copy.
  lemma CopyShows(s: PacketState, m: Packet)
    ensures ShownPacket(PacketMerged(PacketCleared(s), m)) == m <==> Unharmed(s, m)
  {
    AddressCopied(s.src, m.src);
    AddressCopied(s.dest, m.dest);
    AckCopied(s.needSeq, m.needSeq);
    assert [] + m.unknown == m.unknown;
    hide AddressFieldMerged, AckFieldMerged, EmbeddedCleared, AddressAbsorbed, AckAbsorbed;
  }

  lemma AddressFieldMerges(e: Embedded<AddressState>, o: Option<Address>)
    requires AddressFieldTidy(e)
    ensures Show(AddressFieldMerged(e, o), ShownAddress) == OrAddress(Show(e, ShownAddress), o)
  {
    if o.Some? {
      AddressOver(Exposed(e, NEW_ADDRESS), o.value);
    }
  }

  // Into a tidy packet, MergeFrom merges what it shows.
  lemma MergeShows(s: PacketState, m: Packet)
    requires PacketTidy(s)
    ensures ShownPacket(PacketMerged(s, m)) == MergePacket(ShownPacket(s), m)
  {
    AddressFieldMerges(s.src, m.src);
    AddressFieldMerges(s.dest, m.dest);
    hide AddressFieldMerged, AddressFieldTidy, ShownAddress, OrAddress;
  }

  // Of the calls on a tidy packet, the proper ones are those that leave it tidy.
  lemma Step(s: PacketState, call: Call)
    requires PacketTidy(s) && Possible(s, call)
    ensures PacketTidy(After(s, call)) <==> Proper(s, call)
  {
    hide MergeAll, ApplyToPacket, AddressFieldAfter, AckFieldAfter, AddressFieldProper, AckFieldProper, PacketCleared,
      PacketMerged, AddressFieldTidy, AckFieldTidy, TextTidy, TextAfter, TextProper, AddressDefault;
    match call
    case OnText(i, c) => TextStep(PacketText(s, i), c, DefaultText(i));
    case OnSrc(c) => AddressFieldStep(s.src, c);
    case OnDest(c) => AddressFieldStep(s.dest, c);
    case OnNeedSeq(c) => AckFieldStep(s.needSeq, c);
    case Clear => ClearShows(s);
    case MergeFrom(m) => MergeKeepsTidy(s, m);
    case Parse(b) => ParseShows(s, b);
    case _ =>
  }

  lemma MergeKeepsTidy(s: PacketState, m: Packet)
    requires PacketTidy(s)
    ensures PacketTidy(PacketMerged(s, m))
  {
  }

  // ----- runs -----

  function Run(calls: seq<Call>): PacketState {
    if calls == [] then NEW_PACKET else After(Run(calls[..|calls| - 1]), calls[|calls| - 1])
  }

  predicate AllPossible(calls: seq<Call>) {
    forall k :: 0 <= k < |calls| ==> Possible(Run(calls[..k]), calls[k])
  }

  predicate AllProper(calls: seq<Call>) {
    forall k :: 0 <= k < |calls| ==> Proper(Run(calls[..k]), calls[k])
  }

  predicate AlwaysTidy(calls: seq<Call>) {
    forall k :: 0 <= k <= |calls| ==> PacketTidy(Run(calls[..k]))
  }

  lemma RunStep(calls: seq<Call>, k: nat)
    requires k < |calls|
    ensures Run(calls[..k + 1]) == After(Run(calls[..k]), calls[k])
  {
    assert calls[..k + 1][..k] == calls[..k];
    hide After;
  }

  lemma {:induction false} ProperSoFar(calls: seq<Call>, k: nat)
    requires k <= |calls| && AllPossible(calls) && AllProper(calls)
    ensures PacketTidy(Run(calls[..k]))
  {
    if k > 0 {
      ProperSoFar(calls, k - 1);
      RunStep(calls, k - 1);
      Step(Run(calls[..k - 1]), calls[k - 1]);
    }
    hide After, Proper, Possible;
  }

  // In a run from a new packet a clear has-bit always means a default exactly when every call
  // is proper.
  lemma ReachableAreTidy(calls: seq<Call>)
    requires AllPossible(calls)
    ensures AlwaysTidy(calls) <==> AllProper(calls)
  {
    hide Run, After, Proper, Possible, PacketTidy;
    if AllProper(calls) {
      forall k | 0 <= k <= |calls|
        ensures PacketTidy(Run(calls[..k]))
      {
        ProperSoFar(calls, k);
      }
    }
    if AlwaysTidy(calls) {
      forall k | 0 <= k < |calls|
        ensures Proper(Run(calls[..k]), calls[k])
      {
        RunStep(calls, k);
        Step(Run(calls[..k]), calls[k]);
      }
    }
  }

  lemma TidyCopies(s: PacketState, m: Packet)
    requires PacketTidy(s)
    ensures ShownPacket(PacketMerged(PacketCleared(s), m)) == m
  {
    CopyShows(s, m);
    hide ShownPacket, PacketMerged, PacketCleared;
  }

  // ----- when CopyFrom is exact -----

  ghost predicate CopiesExactly(s: PacketState) {
    forall m :: ShownPacket(PacketMerged(PacketCleared(s), m)) == m
  }

  predicate AddressFieldQuiet(e: Embedded<AddressState>) {
    e.Object? && !e.bit ==> ShownAddress(e.message) == NO_ADDRESS
  }

  // No embedded message with a clear has-bit would show anything. Hidden text does not matter.
  predicate Quiet(s: PacketState) { AddressFieldQuiet(s.src) && AddressFieldQuiet(s.dest) && AckFieldTidy(s.needSeq) }

  lemma CopiesWhenQuiet(s: PacketState)
    ensures CopiesExactly(s) <==> Quiet(s)
  {
    forall m
      ensures ShownPacket(PacketMerged(PacketCleared(s), m)) == m <==> Unharmed(s, m)
    {
      CopyShows(s, m);
    }
    if CopiesExactly(s) {
      var m := NO_PACKET.(src := Some(NO_ADDRESS), dest := Some(NO_ADDRESS), needSeq := Some(NO_ACK));
      assert ShownPacket(PacketMerged(PacketCleared(s), m)) == m;
      assert Unharmed(s, m);
    }
    hide PacketMerged, PacketCleared, ShownPacket;
  }

  // What a call does not show on a message that shows nothing.
  predicate TextSilent(call: TextCall) { call.Write? || TextInert(call) }

  predicate AddressSilent(call: AddressCall) { if call.OnText? then TextSilent(call.text) else AddressInert(call) }

  lemma AddressSilence(a: AddressState, call: AddressCall)
    requires ShownAddress(a) == NO_ADDRESS && AddressPossible(a, call)
    ensures ShownAddress(AddressAfter(a, call)) == NO_ADDRESS <==> AddressSilent(call)
  {
    match call
    case Parse(b) =>
      match NextField(b) {
        case Got(f, n) =>
          ParseGrows(ApplyToAddress(a, f).value, b[n..]);
        case _ =>
      }
    case _ =>
  }

  predicate AddressFieldSilent(e: Embedded<AddressState>, call: EmbeddedCall<AddressState, AddressCall>) {
    call.Through? && e.Object? && !e.bit ==> AddressSilent(call.call)
  }

  // A call through a pointer that was kept to an embedded message must not make that show
  // anything while its has-bit is clear.
  predicate Silent(s: PacketState, call: Call) {
    match call
    case OnSrc(c) => AddressFieldSilent(s.src, c)
    case OnDest(c) => AddressFieldSilent(s.dest, c)
    case OnNeedSeq(c) => AckFieldProper(s.needSeq, c)
    case _ => true
  }

  lemma AddressFieldSilence(e: Embedded<AddressState>, call: EmbeddedCall<AddressState, AddressCall>)
    requires AddressFieldQuiet(e) && AddressFieldPossible(e, call)
    ensures AddressFieldQuiet(AddressFieldAfter(e, call)) <==> AddressFieldSilent(e, call)
  {
    if e.Object? {
      AddressCleans(e.message);
    }
    hide MergeAll, ApplyToAddress, NextField, ShownAddress, AddressCleared;
    if call.Through? && !e.bit {
      AddressSilence(e.message, call.call);
    }
  }

  lemma FieldKeepsQuiet(s: PacketState, f: Field)
    requires Quiet(s)
    ensures ApplyToPacket(s, f).Some? ==> Quiet(ApplyToPacket(s, f).value)
  {
    hide ParseInto, ApplyToAddress, ApplyAck, ShownAddress;
  }

  lemma {:induction false} ParseKeepsQuiet(s: PacketState, b: bytes)
    requires Quiet(s)
    ensures var r := MergeAll(ApplyToPacket, s, b); r.Merged? ==> Quiet(r.msg)
    decreases |b|
  {
    hide ApplyToPacket, Quiet;
    match NextField(b)
    case Got(f, n) =>
      FieldKeepsQuiet(s, f);
      if ApplyToPacket(s, f).Some? {
        ParseKeepsQuiet(ApplyToPacket(s, f).value, b[n..]);
      }
    case _ =>
  }

  lemma ClearKeepsQuiet(s: PacketState)
    requires Quiet(s)
    ensures Quiet(PacketCleared(s))
  {
    if s.src.Object? { AddressCleans(s.src.message); }
    if s.dest.Object? { AddressCleans(s.dest.message); }
    hide ShownAddress, AddressCleared;
  }

  lemma QuietStep(s: PacketState, call: Call)
    requires Quiet(s) && Possible(s, call)
    ensures Quiet(After(s, call)) <==> Silent(s, call)
  {
    hide MergeAll, ApplyToPacket, AddressFieldAfter, AckFieldAfter, PacketCleared, AddressMerged, ShownAddress,
      TextAfter, AddressFieldSilent, AckFieldProper, AckFieldTidy, MergeAck;
    match call
    case OnSrc(c) => AddressFieldSilence(s.src, c);
    case OnDest(c) => AddressFieldSilence(s.dest, c);
    case OnNeedSeq(c) => AckFieldStep(s.needSeq, c);
    case Clear => ClearKeepsQuiet(s);
    case MergeFrom(m) => MergeKeepsQuiet(s, m);
    case Parse(b) => ParseKeepsQuiet(s, b);
    case _ =>
  }

  lemma MergeKeepsQuiet(s: PacketState, m: Packet)
    requires Quiet(s)
    ensures Quiet(PacketMerged(s, m))
  {
    hide ShownAddress, AddressMerged, MergeAck;
  }

  predicate AllSilent(calls: seq<Call>) {
    forall k :: 0 <= k < |calls| ==> Silent(Run(calls[..k]), calls[k])
  }

  lemma {:induction false} QuietSoFar(calls: seq<Call>, k: nat)
    requires k <= |calls| && AllPossible(calls) && AllSilent(calls)
    ensures Quiet(Run(calls[..k]))
  {
    if k > 0 {
      QuietSoFar(calls, k - 1);
      RunStep(calls, k - 1);
      QuietStep(Run(calls[..k - 1]), calls[k - 1]);
    }
    hide After, Silent, Possible;
  }

  // CopyFrom is exact at every point of a run, whatever its source, exactly when no call
  // through a kept pointer shows anything in a message with a clear has-bit.
  lemma CopyIsExact(calls: seq<Call>)
    requires AllPossible(calls)
    ensures (forall k :: 0 <= k <= |calls| ==> CopiesExactly(Run(calls[..k]))) <==> AllSilent(calls)
  {
    hide Run, After, Silent, Possible, Quiet, CopiesExactly;
    forall k | 0 <= k <= |calls|
      ensures CopiesExactly(Run(calls[..k])) <==> Quiet(Run(calls[..k]))
    {
      CopiesWhenQuiet(Run(calls[..k]));
    }
    if AllSilent(calls) {
      forall k | 0 <= k <= |calls|
        ensures Quiet(Run(calls[..k]))
      {
        QuietSoFar(calls, k);
      }
    }
    if forall k :: 0 <= k <= |calls| ==> CopiesExactly(Run(calls[..k])) {
      forall k | 0 <= k < |calls|
        ensures Silent(Run(calls[..k]), calls[k])
      {
        RunStep(calls, k);
        assert CopiesExactly(Run(calls[..k])) && CopiesExactly(Run(calls[..k + 1]));
        QuietStep(Run(calls[..k]), calls[k]);
      }
    }
  }

  lemma ClearIsExact(calls: seq<Call>)
    requires AllPossible(calls)
    ensures (forall k :: 0 <= k <= |calls| ==> PacketDefault(After(Run(calls[..k]), Call.Clear))) <==> AllProper(calls)
  {
    ReachableAreTidy(calls);
    hide Run, AllPossible, AllProper, PacketTidy, PacketDefault, PacketCleared;
    forall k | 0 <= k <= |calls|
      ensures PacketDefault(After(Run(calls[..k]), Call.Clear)) <==> PacketTidy(Run(calls[..k]))
    {
      ClearShows(Run(calls[..k]));
    }
  }

  lemma ProperIsSilent(calls: seq<Call>)
    requires AllPossible(calls)
    ensures AllProper(calls) ==> AllSilent(calls)
  {
    ReachableAreTidy(calls);
    CopyIsExact(calls);
    hide Run, AllPossible, AllProper, AllSilent, PacketTidy, CopiesExactly;
    forall k | 0 <= k <= |calls|
      ensures PacketTidy(Run(calls[..k])) ==> CopiesExactly(Run(calls[..k]))
    {
      TidyIsQuiet(Run(calls[..k]));
      CopiesWhenQuiet(Run(calls[..k]));
    }
  }

  // Clear leaves a packet like a new one at every point of a run exactly when every call is
  // proper; CopyFrom is exact at every point exactly when every call is silent; and proper
  // calls are silent.
  lemma ClearAndCopyAreExact(calls: seq<Call>)
    requires AllPossible(calls)
    ensures (forall k :: 0 <= k <= |calls| ==> PacketDefault(After(Run(calls[..k]), Call.Clear))) <==> AllProper(calls)
    ensures (forall k :: 0 <= k <= |calls| ==> CopiesExactly(Run(calls[..k]))) <==> AllSilent(calls)
    ensures AllProper(calls) ==> AllSilent(calls)
  {
    hide *;
    ClearIsExact(calls);
    CopyIsExact(calls);
    ProperIsSilent(calls);
  }

  lemma TidyIsQuiet(s: PacketState)
    ensures PacketTidy(s) ==> Quiet(s)
  {
  }

  // ----- two runs that hide something -----

  lemma Ran(calls: seq<Call>, call: Call)
    ensures Run(calls + [call]) == After(Run(calls), call)
    ensures AllPossible(calls + [call]) <==> AllPossible(calls) && Possible(Run(calls), call)
  {
    hide After, Possible;
    var all := calls + [call];
    assert all[..|calls|] == calls && all[|calls|] == call;
    assert forall k :: 0 <= k < |calls| ==> all[..k] == calls[..k] && all[k] == calls[k];
  }

  lemma RanNone()
    ensures Run([]) == NEW_PACKET && AllPossible([])
  {
  }

  lemma RanThree(c0: Call, c1: Call, c2: Call)
    ensures Run([c0, c1, c2]) == After(After(After(NEW_PACKET, c0), c1), c2)
    ensures AllPossible([c0, c1, c2])
       <==> (Possible(NEW_PACKET, c0) && Possible(After(NEW_PACKET, c0), c1)
             && Possible(After(After(NEW_PACKET, c0), c1), c2))
  {
    hide *;
    RanNone();
    Ran([], c0);
    Ran([c0], c1);
    Ran([c0, c1], c2);
    assert [] + [c0] == [c0] && [c0] + [c1] == [c0, c1] && [c0, c1] + [c2] == [c0, c1, c2];
  }

  // A name set through a kept pointer after clear_src: Clear leaves it behind, mutable_src
  // shows it again, and so does the copy of any packet whose source address has no name.
  lemma StaleName(name: bytes, m: Packet)
    requires name != [] && m.src.Some? && m.src.value.username.None?
    ensures var calls := [OnSrc(EmbeddedCall.Mutable), OnSrc(EmbeddedCall.Clear),
                          OnSrc(Through(AddressCall.OnText(0, TextCall.Set(name))))];
            var s := Run(calls);
            && AllPossible(calls) && ShownPacket(s).src.None? && !PacketTidy(s) && !PacketDefault(PacketCleared(s))
            && ShownPacket(After(PacketCleared(s), OnSrc(EmbeddedCall.Mutable))).src
               == Some(NO_ADDRESS.(username := Some(name)))
            && ShownPacket(PacketMerged(PacketCleared(s), m)).src == Some(m.src.value.(username := Some(name)))
  {
    RanThree(OnSrc(EmbeddedCall.Mutable), OnSrc(EmbeddedCall.Clear),
             OnSrc(Through(AddressCall.OnText(0, TextCall.Set(name)))));
    assert [] + m.src.value.unknown == m.src.value.unknown;
    hide Run, AllPossible;
  }

  // Text written through a kept pointer after clear_publickey: Clear leaves it behind, and
  // mutable_publickey shows it again. CopyFrom is not harmed.
  lemma StaleText(text: bytes)
    requires text != []
    ensures var calls := [Call.OnText(2, TextCall.Mutable), Call.OnText(2, TextCall.Clear),
                          Call.OnText(2, Write(text))];
            var s := Run(calls);
            && AllPossible(calls) && CopiesExactly(s) && ShownPacket(s) == NO_PACKET && !PacketTidy(s)
            && !PacketDefault(PacketCleared(s))
            && ShownPacket(After(PacketCleared(s), Call.OnText(2, TextCall.Mutable))).publickey == Some(text)
  {
    RanThree(Call.OnText(2, TextCall.Mutable), Call.OnText(2, TextCall.Clear), Call.OnText(2, Write(text)));
    CopiesWhenQuiet(Run([Call.OnText(2, TextCall.Mutable), Call.OnText(2, TextCall.Clear),
                         Call.OnText(2, Write(text))]));
    hide Run, AllPossible, CopiesExactly;
  }
}
