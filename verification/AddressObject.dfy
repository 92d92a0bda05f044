// The generated classes av_address and avpacket.ack_control: objects with has-bits whose
// methods are proved against the message values. A bit mask is the set of its bits.
module AddressObject {
  import opened Bytes
  import opened Wire
  import opened Messages
  import opened CodedStream
  import opened States
  import opened Accessors

  // 0, or an end-group tag.
  predicate EndsMessage(tag: u32) { tag == 0 || tag % 8 == 4 }

  function Shift<M>(r: Parsed<M>, k: nat): Parsed<M> {
    match r case Malformed => Malformed case Merged(m, n, clean) => Merged(m, n + k, clean)
  }

  // One turn of the dispatch loop: a field that is applied, one that is malformed, a tag
  // that stops the loop, and the end of the input.
  lemma Turn<M>(apply: (M, Field) -> Option<M>, m: M, b: bytes, k: nat)
    requires NextField(b).Got? && apply(m, NextField(b).field).Some?
    ensures Shift(MergeAll(apply, m, b), k)
         == Shift(MergeAll(apply, apply(m, NextField(b).field).value, b[NextField(b).size..]), k + NextField(b).size)
  {
    hide NextField, Wf;
  }

  lemma LoopBroken<M>(apply: (M, Field) -> Option<M>, m: M, b: bytes, k: nat)
    requires NextField(b).Broken?
    ensures Shift(MergeAll(apply, m, b), k) == Malformed
  {
  }

  lemma LoopStop<M>(apply: (M, Field) -> Option<M>, m: M, b: bytes, k: nat)
    requires ReadTag(b).0 == 0 || ReadTag(b).0 % 8 == 4
    ensures Shift(MergeAll(apply, m, b), k) == Merged(m, k + ReadTag(b).1, b == [])
  {
  }

  lemma LoopAtEnd<M>(apply: (M, Field) -> Option<M>, m: M, k: nat)
    ensures Shift(MergeAll(apply, m, []), k) == Merged(m, k, true)
  {
  }

  // What the fast path and the dispatch agree on: the parse loop is at the field at `start`,
  // and has read nothing of it, or, when it has jumped, its tag.
  ghost predicate AtAddressField(input: CodedInput, start: nat, jumped: bool, tag: u32, within: bool)
    reads input
  {
    && start <= input.limit <= |input.buffer|
    && if jumped then input.TagRead(start, tag) && within && (tag == 18 || tag == 26) else start == input.pos
  }

  class AvAddress {
    var hasBits: set<nat>
    var username: Text
    var domain: Text
    var resource: Text
    var unknown: seq<Field>
    var cachedSize: nat

    function State(): AddressState
      reads this
    {
      AddressState(StringField(0 in hasBits, username), StringField(1 in hasBits, domain),
                   StringField(2 in hasBits, resource), unknown)
    }

    // What the has-bits show.
    function View(): Address
      reads this
    {
      ShownAddress(State())
    }

    constructor ()
      ensures State() == NEW_ADDRESS
    {
      hasBits, username, domain, resource, unknown, cachedSize := {}, Shared, Shared, Shared, [], 0;
    }

    // ----- accessors -----

    // The getters, which look at no has-bit.
    function Username(): bytes
      reads this
    {
      username.Content([])
    }

    function Domain(): bytes
      reads this
    {
      domain.Content([])
    }

    function Resource(): bytes
      reads this
    {
      resource.Content([])
    }

    // A getter returns what is shown; and, when nothing is hidden, the empty string otherwise.
    lemma Getters()
      ensures var a, tidy := View(), AddressTidy(State());
              && (a.username.Some? || tidy ==> Username() == OrDefault(a.username, []))
              && (a.domain.Some? || tidy ==> Domain() == OrDefault(a.domain, []))
              && (a.resource.Some? || tidy ==> Resource() == OrDefault(a.resource, []))
    {
    }

    // The string field with the i-th has-bit.
    function TextAt(i: nat): Text
      reads this
    {
      if i == 0 then username else if i == 1 then domain else resource
    }

    method PutText(i: nat, t: Text)
      requires i < 3
      modifies this`username, this`domain, this`resource
      ensures State() == WithAddressText(old(State()), i, StringField(i in hasBits, t))
    {
      if i == 0 {
        username := t;
      } else if i == 1 {
        domain := t;
      } else {
        resource := t;
      }
    }

    method ClearText(i: nat)
      requires i < 3
      modifies this
      ensures State() == AddressTextAfter(old(State()), i, TextCall.Clear)
    {
      if TextAt(i).Own? { PutText(i, Own([])); }
      hasBits := hasBits - {i};
    }

    method SetText(i: nat, value: bytes)
      requires i < 3
      modifies this
      ensures State() == AddressTextAfter(old(State()), i, TextCall.Set(value))
    {
      hasBits := hasBits + {i};
      if TextAt(i).Shared? { PutText(i, Own([])); }
      PutText(i, Own(value));
    }

    // The pointer this hands out is written through by WriteText.
    method MutableText(i: nat)
      requires i < 3
      modifies this
      ensures State() == AddressTextAfter(old(State()), i, TextCall.Mutable) && TextAt(i).Own?
    {
      hasBits := hasBits + {i};
      if TextAt(i).Shared? { PutText(i, Own([])); }
    }

    method WriteText(i: nat, value: bytes)
      requires i < 3 && TextAt(i).Own?
      modifies this
      ensures State() == AddressTextAfter(old(State()), i, Write(value))
    {
      PutText(i, Own(value));
    }

    method ReleaseText(i: nat) returns (r: Option<bytes>)
      requires i < 3
      modifies this
      ensures State() == AddressTextAfter(old(State()), i, TextCall.Release)
      ensures r == if old(TextAt(i)).Own? then Some(old(TextAt(i)).text) else None
    {
      hasBits := hasBits - {i};
      if TextAt(i).Shared? { return None; }
      r := Some(TextAt(i).text);
      PutText(i, Shared);
    }

    method SetAllocatedText(i: nat, given: Option<bytes>)
      requires i < 3
      modifies this
      ensures State() == AddressTextAfter(old(State()), i, TextCall.SetAllocated(given))
    {
      if given.Some? {
        hasBits := hasBits + {i};
        PutText(i, Own(given.value));
      } else {
        hasBits := hasBits - {i};
        PutText(i, Shared);
      }
    }

    // ----- Clear, MergeFrom, CopyFrom -----

    method Clear()
      modifies this
      ensures State() == AddressCleared(old(State())) && View() == NO_ADDRESS
      ensures AddressDefault(State()) <==> AddressTidy(old(State()))
    {
      if hasBits * {0, 1, 2} != {} {
        if 0 in hasBits { if username.Own? { username := Own([]); } }
        if 1 in hasBits { if domain.Own? { domain := Own([]); } }
        if 2 in hasBits { if resource.Own? { resource := Own([]); } }
      }
      assert 0 in hasBits ==> 0 in hasBits * {0, 1, 2};
      assert 1 in hasBits ==> 1 in hasBits * {0, 1, 2};
      assert 2 in hasBits ==> 2 in hasBits * {0, 1, 2};
      hasBits := {};
      unknown := [];
    }

    method MergeFrom(from: AvAddress)
      requires from != this
      modifies this
      ensures State() == AddressMerged(old(State()), from.View())
      ensures View() == MergeAddress(old(View()), from.View())
    {
      if from.hasBits * {0, 1, 2, 3, 4, 5, 6, 7} != {} {
        if 0 in from.hasBits { SetText(0, from.Username()); }
        if 1 in from.hasBits { SetText(1, from.Domain()); }
        if 2 in from.hasBits { SetText(2, from.Resource()); }
      }
      assert 0 in from.hasBits ==> 0 in from.hasBits * {0, 1, 2, 3, 4, 5, 6, 7};
      assert 1 in from.hasBits ==> 1 in from.hasBits * {0, 1, 2, 3, 4, 5, 6, 7};
      assert 2 in from.hasBits ==> 2 in from.hasBits * {0, 1, 2, 3, 4, 5, 6, 7};
      unknown := unknown + from.unknown;
    }

    method CopyFrom(from: AvAddress)
      modifies this
      ensures View() == old(from.View())
      ensures State() == if from == this then old(State())
                         else AddressMerged(AddressCleared(old(State())), old(from.View()))
    {
      if from == this { return; }
      Clear();
      MergeFrom(from);
      AddressMerges();
    }

    method IsInitialized() returns (ready: bool)
      ensures ready <==> AddressReady(View())
      ensures ready <==> View().username.Some? && View().domain.Some?
    {
      return {0, 1} <= hasBits;
    }

    method SerializeWithCachedSizes(output: CodedOutput)
      modifies output
      ensures output.out == old(output.out) + SerializeAddress(View())
    {
      hide EncodeField, EncodeFields, SerializeAddress, LenField;
      SplitAddress(View());
      if 0 in hasBits { output.Write(EncodeField(Field(1, Len(Username())))); }
      if 1 in hasBits { output.Write(EncodeField(Field(2, Len(Domain())))); }
      if 2 in hasBits { output.Write(EncodeField(Field(3, Len(Resource())))); }
      output.Write(EncodeFields(unknown));
    }

    method SerializeWithCachedSizesToArray(target: array<byte>, pos: nat) returns (end: nat)
      requires pos + |SerializeAddress(View())| <= target.Length
      modifies target
      ensures end == pos + |SerializeAddress(View())|
      ensures target[..end] == old(target[..pos]) + SerializeAddress(View())
      ensures forall i :: end <= i < target.Length ==> target[i] == old(target[i])
    {
      ghost var a := View();
      SplitAddress(a);
      assert a.unknown == unknown;
      hide *;
      end := FieldsToArray(target, pos);
      end := WriteToArray(target, end, EncodeFields(unknown));
      AppendAssoc4(old(target[..pos]), LenBytes(1, a.username), LenBytes(2, a.domain), LenBytes(3, a.resource),
                   EncodeFields(a.unknown));
    }

    method FieldsToArray(target: array<byte>, pos: nat) returns (end: nat)
      requires pos + |LenBytes(1, View().username)| + |LenBytes(2, View().domain)| + |LenBytes(3, View().resource)|
            <= target.Length
      modifies target
      ensures end <= target.Length
      ensures target[..end] == old(target[..pos]) + LenBytes(1, View().username) + LenBytes(2, View().domain)
                             + LenBytes(3, View().resource)
      ensures forall i :: end <= i < target.Length ==> target[i] == old(target[i])
    {
      ghost var a := View();
      assert LenBytes(1, a.username) == if 0 in hasBits then EncodeField(Field(1, Len(Username()))) else [];
      assert LenBytes(2, a.domain) == if 1 in hasBits then EncodeField(Field(2, Len(Domain()))) else [];
      assert LenBytes(3, a.resource) == if 2 in hasBits then EncodeField(Field(3, Len(Resource()))) else [];
      hide *;
      end := WriteFieldToArray(0 in hasBits, Field(1, Len(Username())), target, pos);
      end := WriteFieldToArray(1 in hasBits, Field(2, Len(Domain())), target, end);
      end := WriteFieldToArray(2 in hasBits, Field(3, Len(Resource())), target, end);
    }

    method ByteSize() returns (size: nat)
      requires ValidAddress(View())
      modifies this`cachedSize
      ensures size == cachedSize == |SerializeAddress(View())| && State() == old(State())
    {
      hide EncodeField, EncodeFields, SerializeAddress, LenField, VarintSize;
      SplitAddress(View());
      size := 0;
      if hasBits * {0, 1, 2, 3, 4, 5, 6, 7} != {} {
        if 0 in hasBits { size := size + 1 + BytesSize(Username()); LenFieldSize(1, Username()); }
        if 1 in hasBits { size := size + 1 + BytesSize(Domain()); LenFieldSize(2, Domain()); }
        if 2 in hasBits { size := size + 1 + BytesSize(Resource()); LenFieldSize(3, Resource()); }
      }
      assert 0 in hasBits ==> 0 in hasBits * {0, 1, 2, 3, 4, 5, 6, 7};
      assert 1 in hasBits ==> 1 in hasBits * {0, 1, 2, 3, 4, 5, 6, 7};
      assert 2 in hasBits ==> 2 in hasBits * {0, 1, 2, 3, 4, 5, 6, 7};
      if unknown != [] { size := size + |EncodeFields(unknown)|; }
      cachedSize := size;
    }

    // The labels of the three fields.
    method ParseKnown(input: CodedInput, ghost start: nat, tag: u32) returns (ok: bool, ghost field: Field)
      requires input.TagRead(start, tag) && (tag == 10 || tag == 18 || tag == 26)
      modifies this, input
      ensures input.Valid() && input.limit == old(input.limit) && old(input.pos) <= input.pos
      ensures if ok then input.FieldRead(start, field) && ApplyToAddress(old(State()), field) == Some(State())
              else State() == old(State()) && NextField(input.buffer[start..input.limit]).Broken?
    {
      hide NextField;
      var data;
      ok, data := input.ReadString(start, tag);
      field := Field(tag / 8, Len(data));
      if ok {
        SetText(tag / 8 - 1, data);
      }
    }

    // The label of everything else: the field is kept.
    method ParseUnusual(input: CodedInput, ghost start: nat, tag: u32) returns (ok: bool, ghost field: Field)
      requires input.TagRead(start, tag) && !EndsMessage(tag) && tag != 10 && tag != 18 && tag != 26
      modifies this, input
      ensures input.Valid() && input.limit == old(input.limit) && old(input.pos) <= input.pos
      ensures if ok then input.FieldRead(start, field) && ApplyToAddress(old(State()), field) == Some(State())
              else State() == old(State()) && NextField(input.buffer[start..input.limit]).Broken?
    {
      hide NextField;
      var f;
      ok, f := input.SkipField(start, tag);
      field := f;
      if ok {
        unknown := unknown + [f];
      }
    }

    // A field, after its tag: it is malformed, or leaves the outcome to the rest of the input.
    method OneField(input: CodedInput, ghost start: nat, ghost begin: nat, tag: u32, known: bool) returns (ok: bool)
      requires input.TagRead(start, tag) && (known <==> tag == 10 || tag == 18 || tag == 26)
      requires begin <= start <= input.limit <= |input.buffer| && !EndsMessage(tag)
      modifies this, input
      ensures input.Valid() && input.limit == old(input.limit) && old(input.pos) <= input.pos
      ensures AddressTidy(old(State())) ==> AddressTidy(State())
      ensures ok ==> start < input.pos
      ensures Shift(MergeAll(ApplyToAddress, old(State()), input.buffer[start..input.limit]), start - begin)
           == if ok then Shift(MergeAll(ApplyToAddress, State(), input.buffer[input.pos..input.limit]),
                               input.pos - begin)
              else Malformed
    {
      hide *;
      ghost var s := State();
      ghost var field;
      if known {
        ok, field := ParseKnown(input, start, tag);
      } else {
        ok, field := ParseUnusual(input, start, tag);
      }
      if !ok {
        LoopBroken(ApplyToAddress, s, input.buffer[start..input.limit], start - begin);
      } else {
        AppliedTidy(s, field);
        AddressGoesOn(s, input, start, begin, field);
      }
    }

    // One turn of the loop, after the tag of the field at `start`.
    method Dispatch(input: CodedInput, ghost start: nat, ghost begin: nat, tag: u32, known: bool)
      returns (done: bool, ok: bool)
      requires input.TagRead(start, tag) && begin <= start && (known <==> tag == 10 || tag == 18 || tag == 26)
      requires EndsMessage(tag) ==> (input.legitimateEnd <==> start == input.limit)
      modifies this, input
      ensures input.Valid() && input.limit == old(input.limit) && old(input.pos) <= input.pos
      ensures AddressTidy(old(State())) ==> AddressTidy(State())
      ensures var r := Shift(MergeAll(ApplyToAddress, old(State()), input.buffer[start..input.limit]), start - begin);
              if !done then
                && ok
                && start < input.pos
                && r == Shift(MergeAll(ApplyToAddress, State(), input.buffer[input.pos..input.limit]),
                              input.pos - begin)
              else if ok then r == Merged(State(), input.pos - begin, input.legitimateEnd)
              else r == Malformed
    {
      hide *;
      EndsAddress(State(), input, start, begin, tag);
      if !known && EndsMessage(tag) { return true, true; }
      ok := OneField(input, start, begin, tag, known);
      done := !ok;
    }

    // The parse loop. When `jumped`, the fast path has consumed the tag of the next field
    // and goes to its label, past the dispatch.
    method MergePartialFromCodedStream(input: CodedInput) returns (ok: bool)
      requires input.Valid()
      modifies this, input
      ensures input.Valid() && input.limit == old(input.limit) && old(input.pos) <= input.pos
      ensures AddressTidy(old(State())) ==> AddressTidy(State())
      ensures var r := MergeAll(ApplyToAddress, old(State()), old(input.Rest()));
              && ok == r.Merged?
              && (ok ==> r == Merged(State(), input.pos - old(input.pos), input.legitimateEnd))
      ensures var p := MergeAll(ApplyAddress, old(View()), old(input.Rest()));
              && ok == p.Merged?
              && (ok ==> p == Merged(View(), input.pos - old(input.pos), input.legitimateEnd))
    {
      hide NextField, MergeAll, ReadTag, ApplyToAddress, ApplyAddress, State, AddressTidy, ShownAddress,
        CodedInput.TagRead;
      AddressParsed(State(), input.Rest());
      ghost var goal := MergeAll(ApplyToAddress, State(), input.Rest());
      ghost var start, begin := input.pos, input.pos;
      var tag: u32, within, jumped := 0, true, false;
      while true
        invariant input.Valid() && input.limit == old(input.limit)
        invariant begin <= start && begin <= input.pos && AtAddressField(input, start, jumped, tag, within)
        invariant AddressTidy(old(State())) ==> AddressTidy(State())
        invariant goal == Shift(MergeAll(ApplyToAddress, State(), input.buffer[start..input.limit]), start - begin)
        decreases input.limit - start
      {
        var done, known;
        tag, known := AddressTag(input, start, jumped, tag, within);
        done, ok := Dispatch(input, start, begin, tag, known);
        if done { return; }
        start := input.pos;
        jumped, tag, within, done := ExpectInAddress(input, tag, known);
        if done {
          assert input.buffer[start..input.limit] == [];
          LoopAtEnd(ApplyToAddress, State(), start - begin);
          return;
        }
      }
    }
  }

  lemma EndsAddress(s: AddressState, input: CodedInput, start: nat, begin: nat, tag: u32)
    requires input.TagRead(start, tag) && begin <= start
    ensures input.Valid() && start <= input.limit <= |input.buffer|
    ensures tag == 10 || tag == 18 || tag == 26 ==> !EndsMessage(tag)
    ensures EndsMessage(tag) && (input.legitimateEnd <==> start == input.limit) ==>
              Shift(MergeAll(ApplyToAddress, s, input.buffer[start..input.limit]), start - begin)
              == Merged(s, input.pos - begin, input.legitimateEnd)
  {
    hide ApplyToAddress, MergeAll, ReadTag;
    if EndsMessage(tag) {
      LoopStop(ApplyToAddress, s, input.buffer[start..input.limit], start - begin);
    }
  }

  lemma AddressGoesOn(s: AddressState, input: CodedInput, start: nat, begin: nat, field: Field)
    requires input.FieldRead(start, field) && ApplyToAddress(s, field).Some? && begin <= start
    ensures input.Valid() && start < input.pos
    ensures Shift(MergeAll(ApplyToAddress, s, input.buffer[start..input.limit]), start - begin)
         == Shift(MergeAll(ApplyToAddress, ApplyToAddress(s, field).value, input.buffer[input.pos..input.limit]),
                  input.pos - begin)
  {
    hide ApplyToAddress, MergeAll, NextField;
    Turn(ApplyToAddress, s, input.buffer[start..input.limit], start - begin);
  }

  lemma AppliedTidy(a: AddressState, f: Field)
    ensures ApplyToAddress(a, f).Some? && (AddressTidy(a) ==> AddressTidy(ApplyToAddress(a, f).value))
  {
  }

  // The tag of the field at `start`, read unless the fast path already has, and whether the
  // dispatch knows it.
  method AddressTag(input: CodedInput, ghost start: nat, jumped: bool, tag: u32, within: bool)
    returns (tag': u32, known: bool)
    requires input.Valid() && AtAddressField(input, start, jumped, tag, within)
    modifies input
    ensures input.TagRead(start, tag') && input.limit == old(input.limit) && old(input.pos) <= input.pos
    ensures known <==> tag' == 10 || tag' == 18 || tag' == 26
    ensures EndsMessage(tag') ==> (input.legitimateEnd <==> start == input.limit)
  {
    var within' := within;
    tag' := tag;
    if !jumped {
      tag', within' := input.ReadTagWithCutoff(127);
    }
    known := within' && (tag' == 10 || tag' == 18 || tag' == 26);
  }

  // After a known field: whether the tag that should follow comes next, or else the end.
  method ExpectInAddress(input: CodedInput, tag: u32, known: bool)
    returns (jumped: bool, next: u32, within: bool, end: bool)
    requires input.Valid() && (known ==> tag == 10 || tag == 18 || tag == 26)
    modifies input
    ensures input.Valid() && input.limit == old(input.limit) && old(input.pos) <= input.pos
    ensures AtAddressField(input, old(input.pos), jumped, next, within)
    ensures end ==> input.pos == old(input.pos) == input.limit && input.legitimateEnd
  {
    jumped, next, within, end := false, tag, known, false;
    if known && tag != 26 {
      next := tag + 8;
      jumped := input.ExpectTag(next);
    } else if known {
      end := input.ExpectAtEnd();
    }
  }

  class AckControl {
    var hasBits: set<nat>
    var ackSeq: u64
    var unknown: seq<Field>
    var cachedSize: nat

    function View(): Ack
      reads this
    {
      Ack(if 0 in hasBits then Some(ackSeq) else None, unknown)
    }

    // A clear has-bit means a default number.
    ghost predicate Tidy()
      reads this
    {
      0 !in hasBits ==> ackSeq == 0
    }

    constructor ()
      ensures Tidy() && View() == NO_ACK
    {
      hasBits, ackSeq, unknown, cachedSize := {}, 0, [], 0;
    }

    method Clear()
      modifies this
      ensures Tidy() && View() == AckAfter(old(View()), AckCall.Clear)
    {
      ackSeq := 0;
      hasBits := {};
      unknown := [];
    }

    method SetAckSeq(value: u64)
      modifies this
      ensures Tidy() && View() == AckAfter(old(View()), SetSeq(value))
    {
      hasBits := hasBits + {0};
      ackSeq := value;
    }

    method ClearAckSeq()
      modifies this
      ensures Tidy() && View() == AckAfter(old(View()), ClearSeq)
    {
      ackSeq := 0;
      hasBits := hasBits - {0};
    }

    method MergeFrom(from: AckControl)
      requires from != this && Tidy()
      modifies this
      ensures Tidy() && View() == MergeAck(old(View()), from.View())
    {
      if from.hasBits * {0, 1, 2, 3, 4, 5, 6, 7} != {} {
        if 0 in from.hasBits { SetAckSeq(from.ackSeq); }
      }
      assert 0 in from.hasBits ==> 0 in from.hasBits * {0, 1, 2, 3, 4, 5, 6, 7};
      unknown := unknown + from.unknown;
    }

    method SerializeWithCachedSizes(output: CodedOutput)
      modifies output
      ensures output.out == old(output.out) + SerializeAck(View())
    {
      hide EncodeField, EncodeFields, SerializeAck;
      SplitAck(View());
      if 0 in hasBits { output.Write(EncodeField(Field(1, Varint(ackSeq)))); }
      output.Write(EncodeFields(unknown));
    }

    method SerializeWithCachedSizesToArray(target: array<byte>, pos: nat) returns (end: nat)
      requires pos + |SerializeAck(View())| <= target.Length
      modifies target
      ensures end == pos + |SerializeAck(View())|
      ensures target[..end] == old(target[..pos]) + SerializeAck(View())
      ensures forall i :: end <= i < target.Length ==> target[i] == old(target[i])
    {
      hide EncodeField, EncodeFields, SerializeAck;
      SplitAck(View());
      end := pos;
      if 0 in hasBits { end := WriteToArray(target, end, EncodeField(Field(1, Varint(ackSeq)))); }
      end := WriteToArray(target, end, EncodeFields(unknown));
    }

    method ByteSize() returns (size: nat)
      modifies this`cachedSize
      ensures size == cachedSize == |SerializeAck(View())|
    {
      hide EncodeField, EncodeFields, SerializeAck, VarintSize;
      SplitAck(View());
      size := 0;
      if hasBits * {0, 1, 2, 3, 4, 5, 6, 7} != {} {
        if 0 in hasBits { size := size + 1 + VarintSize(ackSeq); VarintFieldSize(1, ackSeq); }
      }
      assert 0 in hasBits ==> 0 in hasBits * {0, 1, 2, 3, 4, 5, 6, 7};
      if unknown != [] { size := size + |EncodeFields(unknown)|; }
      cachedSize := size;
    }

    // The label of ack_seq, and of everything else.
    method ParseField(input: CodedInput, ghost start: nat, tag: u32) returns (ok: bool, ghost field: Field)
      requires Tidy() && input.TagRead(start, tag) && tag != 0 && tag % 8 != 4
      modifies this, input
      ensures Tidy() && input.Valid() && input.limit == old(input.limit) && old(input.pos) <= input.pos
      ensures if ok then input.FieldRead(start, field) && ApplyAck(old(View()), field) == Some(View())
              else NextField(input.buffer[start..input.limit]).Broken?
    {
      hide NextField;
      if tag == 8 {
        var value;
        ok, value := input.ReadVarint64(start, tag);
        field := Field(1, Varint(value));
        if ok {
          SetAckSeq(value);
        }
      } else {
        var f;
        ok, f := input.SkipField(start, tag);
        field := f;
        if ok {
          unknown := unknown + [f];
        }
      }
    }

    method MergePartialFromCodedStream(input: CodedInput) returns (ok: bool)
      requires Tidy() && input.Valid()
      modifies this, input
      ensures Tidy() && input.Valid() && input.limit == old(input.limit) && old(input.pos) <= input.pos
      ensures var r := MergeAll(ApplyAck, old(View()), old(input.Rest()));
              && ok == r.Merged?
              && (ok ==> r == Merged(View(), input.pos - old(input.pos), input.legitimateEnd))
    {
      hide NextField, MergeAll, ReadTag, ApplyAck, View, Tidy;
      ghost var goal := MergeAll(ApplyAck, View(), input.Rest());
      ghost var start, begin := input.pos, input.pos;
      while true
        invariant Tidy() && input.Valid() && input.limit == old(input.limit)
        invariant begin <= start == input.pos <= input.limit
        invariant goal == Shift(MergeAll(ApplyAck, View(), input.buffer[start..input.limit]), start - begin)
        decreases input.limit - start
      {
        ghost var b, m := input.buffer[start..input.limit], View();
        ghost var field;
        var tag, within := input.ReadTagWithCutoff(127);
        if tag == 0 || tag % 8 == 4 {
          LoopStop(ApplyAck, m, b, start - begin);
          return true;
        }
        ok, field := ParseField(input, start, tag);
        if !ok {
          LoopBroken(ApplyAck, m, b, start - begin);
          return;
        }
        Turn(ApplyAck, m, b, start - begin);
        start := input.pos;
        if within && tag == 8 {
          var end := input.ExpectAtEnd();
          if end {
            LoopAtEnd(ApplyAck, View(), start - begin);
            return;
          }
        }
      }
    }
  }

  lemma SplitAck(a: Ack)
    ensures SerializeAck(a) == VarintBytes(1, a.seq_) + EncodeFields(a.unknown)
    ensures EncodeFields([]) == []
  {
    hide EncodeField, EncodeFields;
    VarintPart(1, a.seq_);
    EncodeFieldsAppend(VarintField(1, a.seq_), a.unknown);
    EncodeNone();
  }

  function VarintBytes(num: nat, n: Option<u64>): bytes {
    match n case None => [] case Some(v) => EncodeField(Field(num, Varint(v)))
  }

  lemma VarintPart(num: nat, n: Option<u64>)
    ensures EncodeFields(VarintField(num, n)) == VarintBytes(num, n)
  {
    if n.Some? { EncodeOne(Field(num, Varint(n.value))); }
  }

  lemma VarintFieldSize(num: nat, v: u64)
    requires 1 <= num < 16
    ensures |EncodeField(Field(num, Varint(v)))| == 1 + VarintSize(v)
  {
    VarintSizeIsLength(v);
  }

  // The size of a length-delimited value, with its length.
  function BytesSize(data: bytes): nat
    requires |data| < TWO31
  {
    VarintSize(|data|) + |data|
  }

  lemma LenFieldSize(num: nat, data: bytes)
    requires 1 <= num < 16 && |data| < TWO31
    ensures |EncodeField(Field(num, Len(data)))| == 1 + BytesSize(data)
  {
    VarintSizeIsLength(|data|);
  }

  lemma SplitAddress(a: Address)
    ensures SerializeAddress(a)
         == LenBytes(1, a.username) + LenBytes(2, a.domain) + LenBytes(3, a.resource) + EncodeFields(a.unknown)
    ensures EncodeFields([]) == []
  {
    hide EncodeField, EncodeFields;
    LenPart(1, a.username);
    LenPart(2, a.domain);
    LenPart(3, a.resource);
    var f1, f2, f3 := LenField(1, a.username), LenField(2, a.domain), LenField(3, a.resource);
    EncodeFieldsAppend(f1, f2);
    EncodeFieldsAppend(f1 + f2, f3);
    EncodeFieldsAppend(f1 + f2 + f3, a.unknown);
    EncodeNone();
  }

  function LenBytes(num: nat, data: Option<bytes>): bytes {
    match data case None => [] case Some(d) => EncodeField(Field(num, Len(d)))
  }

  lemma LenPart(num: nat, data: Option<bytes>)
    ensures EncodeFields(LenField(num, data)) == LenBytes(num, data)
  {
    if data.Some? { EncodeOne(Field(num, Len(data.value))); }
  }

  lemma EncodeNone()
    ensures EncodeFields([]) == []
  {
  }
}
