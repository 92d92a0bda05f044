// The framing of messages: a length, the length of the type name, the type name, and the
// serialised message. How a message of a type is created and parsed is left to a registry.
module Frame {
  import opened Bytes
  import opened Wire

  const HEADER: nat := 4

  // A 32-bit number in network byte order, and the signed number such bytes denote.
  function BE32(n: nat): (b: bytes)
    requires n < TWO31
    ensures |b| == HEADER
  {
    [n / 0x100_0000, n / 0x1_0000 % 0x100, n / 0x100 % 0x100, n % 0x100]
  }

  function FromBE32(b: bytes): int
    requires |b| == HEADER
  {
    var n := b[0] as int * 0x100_0000 + b[1] as int * 0x1_0000 + b[2] as int * 0x100 + b[3] as int;
    if n < TWO31 then n else n - TWO32
  }

  lemma BE32RoundTrip(n: nat)
    requires n < TWO31
    ensures FromBE32(BE32(n)) == n
  {
    assert n / 0x1_0000 == n / 0x100_0000 * 0x100 + n / 0x1_0000 % 0x100;
    assert n / 0x100 == n / 0x1_0000 * 0x100 + n / 0x100 % 0x100;
  }

  lemma BE32Onto(b: bytes)
    requires |b| == HEADER && FromBE32(b) >= 0
    ensures BE32(FromBE32(b)) == b
  {
    var n := FromBE32(b);
    assert n / 0x100_0000 == b[0];
    assert n / 0x1_0000 == b[0] as int * 0x100 + b[1] as int;
    assert n / 0x100 == b[0] as int * 0x1_0000 + b[1] as int * 0x100 + b[2] as int;
  }

  // The size on the wire, which the length field leaves out itself.
  function FrameSize(name: bytes, payload: bytes): nat { 2 * HEADER + |name| + |payload| }

  function FrameOf(name: bytes, payload: bytes): (b: bytes)
    requires FrameSize(name, payload) < TWO31
    ensures |b| == FrameSize(name, payload)
  {
    BE32(HEADER + |name| + |payload|) + BE32(|name|) + name + payload
  }

  // The message types that can be created, and how the payload of each is parsed.
  type Registry<!M> = map<bytes, bytes -> Option<M>>

  // `buf` is a frame of m: its payload is not empty, its type is registered, and its payload
  // is parsed as m.
  ghost predicate IsFrame<M>(registry: Registry<M>, buf: bytes, name: bytes, payload: bytes, m: M) {
    && FrameSize(name, payload) < TWO31 && buf == FrameOf(name, payload)
    && payload != [] && name in registry && registry[name](payload) == Some(m)
  }

  // Two frames are the same only if they are of the same message.
  lemma FrameInjective(name: bytes, payload: bytes, name': bytes, payload': bytes)
    requires FrameSize(name, payload) < TWO31 && FrameSize(name', payload') < TWO31
    requires FrameOf(name, payload) == FrameOf(name', payload')
    ensures name == name' && payload == payload'
  {
    FrameParts(name, payload);
    FrameParts(name', payload');
  }

  lemma FrameParts(name: bytes, payload: bytes)
    requires FrameSize(name, payload) < TWO31
    ensures var b := FrameOf(name, payload);
            && FromBE32(b[..4]) == |b| - HEADER && FromBE32(b[4..8]) == |name|
            && b[8..8 + |name|] == name && b[8 + |name|..] == payload
  {
    var b := FrameOf(name, payload);
    BE32RoundTrip(HEADER + |name| + |payload|);
    BE32RoundTrip(|name|);
    assert b[..4] == BE32(HEADER + |name| + |payload|);
    assert b[4..8] == BE32(|name|);
  }

  // Bytes whose two numbers are consistent with their length are a frame.
  lemma PartsFrame(b: bytes)
    requires 2 * HEADER <= |b| < TWO31
    requires FromBE32(b[..4]) == |b| - HEADER && 0 <= FromBE32(b[4..8]) <= |b| - 8
    ensures var n := FromBE32(b[4..8]); b == FrameOf(b[8..8 + n], b[8 + n..])
  {
    BE32Onto(b[..4]);
    BE32Onto(b[4..8]);
  }

  // A message to be sent: its type name, and its serialisation unless that fails.
  datatype Outgoing = Outgoing(name: bytes, payload: Option<bytes>)

  // The string encode returns: a frame, or nothing when the message cannot be serialised.
  function Encoded(o: Outgoing): bytes
    requires o.payload.Some? ==> FrameSize(o.name, o.payload.value) < TWO31
  {
    if o.payload.Some? then FrameOf(o.name, o.payload.value) else []
  }

  method Encode(o: Outgoing) returns (result: bytes)
    requires |o.name| < TWO31
    requires o.payload.Some? ==> FrameSize(o.name, o.payload.value) < TWO31
    ensures result == Encoded(o)
  {
    result := [NUL, NUL, NUL, NUL];
    result := result + BE32(|o.name|);
    result := result + o.name;
    if o.payload.Some? {
      result := result + o.payload.value;
      var len := BE32(|result| - HEADER);
      var i := 0;
      ghost var body := result[HEADER..];
      while i < HEADER
        invariant 0 <= i <= HEADER
        invariant |result| == HEADER + |body| && result[..i] == len[..i] && result[HEADER..] == body
      {
        result := result[i := len[i]];
        i := i + 1;
      }
      assert result == result[..HEADER] + body;
    } else {
      result := [];
    }
  }

  // The buffer holds what decode reads of it: its two numbers, and a name of non-negative
  // length.
  predicate Decodable(buf: bytes) {
    && HEADER <= |buf| < TWO31
    && (FromBE32(buf[..4]) == |buf| - HEADER ==> 2 * HEADER <= |buf| && 0 <= FromBE32(buf[4..8]))
  }

  // decode returns a message exactly when the buffer is a frame of it.
  method Decode<M(!new)>(registry: Registry<M>, buf: bytes) returns (result: Option<M>)
    requires Decodable(buf)
    ensures result.Some? ==> exists name, payload :: IsFrame(registry, buf, name, payload, result.value)
    ensures result.None? ==> forall name, payload, m :: !IsFrame(registry, buf, name, payload, m)
    ensures result == DecodedAs(registry, buf)
  {
    var len := |buf|;
    if len != FromBE32(buf[..4]) + HEADER {
      NotAFrame(registry, buf);
      return None;
    }
    var nameLen := FromBE32(buf[4..8]);
    if nameLen >= len - 2 * HEADER {
      NotAFrame(registry, buf);
      return None;
    }
    var name := buf[8..8 + nameLen];
    var data := buf[8 + nameLen..];
    PartsFrame(buf);
    OnlyFrame(registry, buf, name, data);
    if name !in registry {
      return None;
    }
    result := registry[name](data);
    if result.Some? {
      assert IsFrame(registry, buf, name, data, result.value);
    }
  }

  lemma NotAFrame<M>(registry: Registry<M>, buf: bytes)
    requires Decodable(buf)
    requires |buf| != FromBE32(buf[..4]) + HEADER || FromBE32(buf[4..8]) >= |buf| - 2 * HEADER
    ensures forall name, payload, m :: !IsFrame(registry, buf, name, payload, m)
  {
    forall name, payload, m
      ensures !IsFrame(registry, buf, name, payload, m)
    {
      if IsFrame(registry, buf, name, payload, m) {
        FrameParts(name, payload);
        assert false;
      }
    }
  }

  // A buffer that is a frame is the frame of one name and one payload only.
  lemma OnlyFrame<M>(registry: Registry<M>, buf: bytes, name: bytes, payload: bytes)
    requires FrameSize(name, payload) < TWO31 && buf == FrameOf(name, payload)
    ensures forall name', payload', m :: IsFrame(registry, buf, name', payload', m) ==>
                name' == name && payload' == payload && name in registry && registry[name](payload) == Some(m)
  {
    forall name', payload', m | IsFrame(registry, buf, name', payload', m)
      ensures name' == name && payload' == payload
    {
      FrameInjective(name, payload, name', payload');
    }
  }

  // The message a buffer is a frame of, if there is one.
  ghost function DecodedAs<M(!new)>(registry: Registry<M>, buf: bytes): Option<M> {
    if exists name, payload, m :: IsFrame(registry, buf, name, payload, m) then
      var name, payload, m :| IsFrame(registry, buf, name, payload, m);
      Some(m)
    else None
  }

  // What decode makes of the frame of a message: the message, when its payload is not empty
  // and its type is registered and parses it.
  function Received<M>(registry: Registry<M>, o: Outgoing): Option<M> {
    if o.payload.None? || o.payload.value == [] || o.name !in registry then None else registry[o.name](o.payload.value)
  }

  // decode(encode(m)): the round trip holds exactly for messages that are not serialised to
  // nothing and whose type is registered and parses its own serialisation.
  lemma FrameRoundTrip<M(!new)>(registry: Registry<M>, o: Outgoing, m: M)
    requires o.payload.Some? && FrameSize(o.name, o.payload.value) < TWO31
    ensures Decodable(Encoded(o))
    ensures (exists name, payload :: IsFrame(registry, Encoded(o), name, payload, m))
        <==> Received(registry, o) == Some(m)
    ensures DecodedAs(registry, Encoded(o)) == Received(registry, o)
  {
    FrameParts(o.name, o.payload.value);
    OnlyFrame(registry, Encoded(o), o.name, o.payload.value);
    if Received(registry, o) == Some(m) {
      assert IsFrame(registry, Encoded(o), o.name, o.payload.value, m);
    }
    if Received(registry, o).Some? {
      assert IsFrame(registry, Encoded(o), o.name, o.payload.value, Received(registry, o).value);
    }
  }

  // ----- the bytes of a frame -----

  // The number that four bytes of b from k on are in network order: the first one is the most
  // significant.
  function NetworkOrder(b: bytes, k: nat): nat
    requires k + 4 <= |b|
  {
    b[k] as int * 0x100_0000 + b[k + 1] as int * 0x1_0000 + b[k + 2] as int * 0x100 + b[k + 3] as int
  }

  lemma InNetworkOrder(b: bytes, k: nat, n: nat)
    requires n < TWO31 && k + 4 <= |b| && b[k..k + 4] == BE32(n)
    ensures NetworkOrder(b, k) == n
  {
    var d := b[k..k + 4];
    assert d[0] == b[k] && d[1] == b[k + 1] && d[2] == b[k + 2] && d[3] == b[k + 3];
    BE32RoundTrip(n);
  }

  // A frame is the length of what follows, the length of the name, both in network order, the
  // name, and the payload.
  lemma FrameBytes(o: Outgoing)
    requires o.payload.Some? && FrameSize(o.name, o.payload.value) < TWO31
    ensures var b, n := Encoded(o), |o.name|;
            && |b| == 8 + n + |o.payload.value|
            && NetworkOrder(b, 0) == |b| - 4
            && NetworkOrder(b, 4) == n
            && b[8..8 + n] == o.name && b[8 + n..] == o.payload.value
  {
    var b := Encoded(o);
    FrameParts(o.name, o.payload.value);
    assert b[0..4] == BE32(|b| - 4) && b[4..8] == BE32(|o.name|);
    InNetworkOrder(b, 0, |b| - 4);
    InNetworkOrder(b, 4, |o.name|);
    hide BE32, FromBE32;
  }

  lemma NumberOf(b: bytes, k: nat)
    requires k + 4 <= |b|
    ensures var n := NetworkOrder(b, k); FromBE32(b[k..k + 4]) == if n < 0x8000_0000 then n else n - 0x1_0000_0000
  {
    var d := b[k..k + 4];
    assert d[0] == b[k] && d[1] == b[k + 1] && d[2] == b[k + 2] && d[3] == b[k + 3];
  }

  // decode makes m of exactly the buffers whose first number is the length of the rest, whose
  // second one leaves room for a payload, and whose payload the registered parser makes m of.
  lemma DecodedBytes<M(!new)>(registry: Registry<M>, b: bytes, m: M)
    ensures DecodedAs(registry, b) == Some(m)
       <==> && 8 <= |b| < 0x8000_0000
            && NetworkOrder(b, 0) == |b| - 4
            && var n := NetworkOrder(b, 4);
            && 8 + n < |b| && b[8..8 + n] in registry && registry[b[8..8 + n]](b[8 + n..]) == Some(m)
  {
    if 8 <= |b| < TWO31 && NetworkOrder(b, 0) == |b| - 4 && 8 + NetworkOrder(b, 4) < |b| {
      var n := NetworkOrder(b, 4);
      NumberOf(b, 0);
      NumberOf(b, 4);
      assert b[0..4] == b[..4];
      hide FromBE32, BE32, FrameOf;
      PartsFrame(b);
      OnlyFrame(registry, b, b[8..8 + n], b[8 + n..]);
      if b[8..8 + n] in registry && registry[b[8..8 + n]](b[8 + n..]) == Some(m) {
        assert IsFrame(registry, b, b[8..8 + n], b[8 + n..], m);
      }
    } else {
      NoFrame(registry, b);
    }
  }

  lemma NoFrame<M(!new)>(registry: Registry<M>, b: bytes)
    requires !(8 <= |b| < TWO31) || NetworkOrder(b, 0) != |b| - 4 || 8 + NetworkOrder(b, 4) >= |b|
    ensures DecodedAs(registry, b) == None
  {
    forall name, payload, m
      ensures !IsFrame(registry, b, name, payload, m)
    {
      if IsFrame(registry, b, name, payload, m) {
        FrameBytes(Outgoing(name, Some(payload)));
        assert false;
      }
    }
  }
}
