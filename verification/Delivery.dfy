// Two connections and the byte pipe between them: every interleaving of posts, executor
// tasks, partial transfers, completions, errors and stops. What the receiving end dispatches
// is what the sending end posted, in order, up to the first message it refuses.
module Delivery {
  import opened Bytes
  import opened Wire
  import opened Frame
  import opened Connection

  // `sent` is all that has entered the pipe, of which the receiving end has read `received`
  // bytes. `posted` are the messages posted so far, `broken` whether anything has gone wrong
  // on the way, and `failed` how much of the front of the queue a failed write had sent.
  datatype System<M> = System(
    out: Outbox, sent: bytes, received: nat, inbox: Inbox<M>,
    posted: seq<Outgoing>, broken: bool, failed: Option<nat>)

  datatype Event =
    | Post(o: Outgoing)                 // write_msg(encode(o))
    | RunTask                           // do_write
    | Transfer(i: nat, n: nat)          // the network takes n more bytes of a write
    | WriteDone(i: nat, error: bool)    // handle_write
    | StopSender
    | Deliver(n: nat)                   // the read under way gets n more bytes
    | ReadDone(error: bool)             // handle_read_header or handle_read_body
    | StopReceiver

  function Start<M>(): System<M> {
    System(Outbox([], [], [], true), [], 0, Inbox(Header, [], false, []), [], false, None)
  }

  // How many bytes the read under way waits for in all.
  function Wanted(r: Reading): nat {
    match r case Header => HEADER case Body(length) => HEADER + length case Stopped => 0
  }

  // What may happen next, by the rules of sockets and executors.
  predicate Enabled<M>(s: System<M>, e: Event) {
    match e
    case Post(o) =>
      |o.name| < TWO31 && (o.payload.Some? ==> FrameSize(o.name, o.payload.value) < TWO31)
    case RunTask => s.out.tasks != []
    case Transfer(i, n) => i < |s.out.writes| && s.out.open && n <= |s.out.writes[i].data| - s.out.writes[i].done
    case WriteDone(i, error) =>
      i < |s.out.writes| && (!error ==> s.out.writes[i].done == |s.out.writes[i].data|)
    case StopSender => true
    case Deliver(n) =>
      !s.inbox.reading.Stopped? && s.received + n <= |s.sent| && |s.inbox.response| + n <= Wanted(s.inbox.reading)
    case ReadDone(error) =>
      !s.inbox.reading.Stopped? && (!error ==> |s.inbox.response| == Wanted(s.inbox.reading))
    case StopReceiver => true
  }

  // What must hold of the state a handler runs in: handle_write finds a message in its queue,
  // the read loop never takes a negative length for a size, and decode can read its buffer.
  predicate Safe<M>(s: System<M>, e: Event) {
    match e
    case WriteDone(_, error) => !error ==> s.out.queue != []
    case ReadDone(error) =>
      !error ==> if s.inbox.reading.Header? then |s.inbox.response| == HEADER && FromBE32(s.inbox.response) >= 0
                 else Decodable(s.inbox.response)
    case _ => true
  }

  ghost function Next<M(!new)>(registry: Registry<M>, s: System<M>, e: Event): System<M>
    requires Enabled(s, e) && Safe(s, e)
  {
    match e
    case Post(o) =>
      var s' := s.(out := Posted(s.out, Encoded(o)));
      if o.payload.Some? then s'.(posted := s.posted + [o]) else s'
    case RunTask => s.(out := TaskRun(s.out))
    case Transfer(i, n) =>
      var w := s.out.writes[i];
      s.(out := s.out.(writes := s.out.writes[i := w.(done := w.done + n)]),
         sent := s.sent + w.data[w.done..w.done + n])
    case WriteDone(i, error) =>
      if error then s.(out := WriteFailed(s.out, i), broken := true, failed := Some(s.out.writes[i].done))
      else s.(out := Written(s.out, i))
    case StopSender => s.(out := s.out.(open := false), broken := true)
    case Deliver(n) =>
      s.(received := s.received + n,
         inbox := s.inbox.(response := s.inbox.response + s.sent[s.received..s.received + n]))
    case ReadDone(error) =>
      if error then s.(inbox := ReadFailed(s.inbox), broken := true)
      else if s.inbox.reading.Header? then s.(inbox := HeaderRead(s.inbox))
      else s.(inbox := BodyRead(registry, s.inbox))
    case StopReceiver => s.(inbox := Aborted(s.inbox), broken := true)
  }

  // ----- the sending end -----

  // The frames of a list of messages, one after the other.
  function Stream(os: seq<Outgoing>): bytes
    requires Sendable(os)
  {
    if os == [] then [] else Encoded(os[0]) + Stream(os[1..])
  }

  predicate Sendable(os: seq<Outgoing>) {
    forall o <- os :: o.payload.Some? && FrameSize(o.name, o.payload.value) < TWO31
  }

  lemma {:induction false} StreamPush(os: seq<Outgoing>, o: Outgoing)
    requires Sendable(os) && Sendable([o])
    ensures Stream(os + [o]) == Stream(os) + Encoded(o)
  {
    if os == [] {
      assert [o][1..] == [];
    } else {
      assert (os + [o])[1..] == os[1..] + [o];
      StreamPush(os[1..], o);
    }
  }

  // How much of the front of the queue has been sent.
  function Done<M>(s: System<M>): nat {
    if s.out.writes != [] then s.out.writes[0].done else if s.failed.Some? then s.failed.value else 0
  }

  function Unsent(queue: seq<bytes>, done: nat): bytes
    requires queue != [] ==> done <= |queue[0]|
  {
    if queue == [] then [] else queue[0][done..] + Concat(queue[1..])
  }

  // One write is under way exactly when the queue is not empty, and it is of the front of the
  // queue; after an error nothing is under way and nothing will be.
  predicate OneWrite<M>(s: System<M>) {
    && (s.failed.None? ==> |s.out.writes| == if s.out.queue == [] then 0 else 1)
    && (s.failed.Some? ==> s.broken && s.out.writes == [] && s.out.queue != [])
    && (s.out.writes != [] ==> s.out.writes[0].data == s.out.queue[0])
    && (s.out.queue != [] ==> Done(s) <= |s.out.queue[0]|)
  }

  // Bytes sent, then bytes queued, then bytes still to be queued, are the bytes posted.
  predicate NothingLost<M>(s: System<M>)
    requires OneWrite(s)
  {
    Sendable(s.posted) && s.sent + Unsent(s.out.queue, Done(s)) + Concat(s.out.tasks) == Stream(s.posted)
  }

  predicate OutInv<M>(s: System<M>) { OneWrite(s) && NothingLost(s) }

  lemma OutPost<M(!new)>(registry: Registry<M>, s: System<M>, e: Event)
    requires OutInv(s) && Enabled(s, e) && e.Post?
    ensures OutInv(Next(registry, s, e))
  {
    var o := e.o;
    ConcatAppend(s.out.tasks, [Encoded(o)]);
    ConcatSingle(Encoded(o));
    AppendAssoc(s.sent + Unsent(s.out.queue, Done(s)), Concat(s.out.tasks), Encoded(o));
    if o.payload.Some? {
      StreamPush(s.posted, o);
    }
  }

  lemma UnsentPush(queue: seq<bytes>, msg: bytes, done: nat)
    requires if queue == [] then done == 0 else done <= |queue[0]|
    ensures (queue + [msg])[0] == if queue == [] then msg else queue[0]
    ensures Unsent(queue + [msg], done) == Unsent(queue, done) + msg
  {
    if queue == [] {
      assert msg[0..] == msg;
    } else {
      assert (queue + [msg])[1..] == queue[1..] + [msg];
      ConcatAppend(queue[1..], [msg]);
      ConcatSingle(msg);
      AppendAssoc(queue[0][done..], Concat(queue[1..]), msg);
    }
  }

  lemma UnsentAdvance(queue: seq<bytes>, done: nat, n: nat)
    requires queue != [] && done + n <= |queue[0]|
    ensures Unsent(queue, done) == queue[0][done..done + n] + Unsent(queue, done + n)
  {
    var part, rest, others := queue[0][done..done + n], queue[0][done + n..], Concat(queue[1..]);
    assert queue[0][done..] == part + rest;
    hide *;
    AppendAssoc(part, rest, others);
  }

  lemma OutTask<M(!new)>(registry: Registry<M>, s: System<M>, e: Event)
    requires OutInv(s) && Enabled(s, e) && e.RunTask?
    ensures OutInv(Next(registry, s, e))
  {
    var msg, q := s.out.tasks[0], s.out.queue;
    UnsentPush(q, msg, Done(s));
    assert Done(Next(registry, s, e)) == Done(s);
    var rest := Concat(s.out.tasks[1..]);
    AppendAssoc(s.sent, Unsent(q, Done(s)), msg);
    AppendAssoc(s.sent + Unsent(q, Done(s)), msg, rest);
    hide Unsent, Concat, Stream, Sendable;
  }

  // What a transfer has given to the network.
  lemma TransferFacts<M(!new)>(registry: Registry<M>, s: System<M>, e: Event) returns (part: bytes)
    requires OneWrite(s) && Enabled(s, e) && e.Transfer?
    ensures var s' := Next(registry, s, e);
            && s'.sent == s.sent + part && OneWrite(s') && s'.out.tasks == s.out.tasks && s'.posted == s.posted
            && Unsent(s.out.queue, Done(s)) == part + Unsent(s'.out.queue, Done(s'))
  {
    var w, q := s.out.writes[0], s.out.queue;
    part := q[0][w.done..w.done + e.n];
    UnsentAdvance(q, w.done, e.n);
    hide Unsent;
  }

  lemma OutInvIs<M>(s: System<M>)
    requires OneWrite(s) && Sendable(s.posted)
    ensures OutInv(s) <==> s.sent + Unsent(s.out.queue, Done(s)) + Concat(s.out.tasks) == Stream(s.posted)
  {
    hide Unsent, Concat, Stream, Sendable, OneWrite, Done;
  }

  lemma Transferred<M>(s: System<M>, s': System<M>, part: bytes)
    requires OutInv(s) && OneWrite(s') && s'.sent == s.sent + part && s'.posted == s.posted
    requires s'.out.tasks == s.out.tasks && Unsent(s.out.queue, Done(s)) == part + Unsent(s'.out.queue, Done(s'))
    ensures OutInv(s')
  {
    assert OneWrite(s) && Sendable(s.posted);
    hide *;
    OutInvIs(s);
    OutInvIs(s');
    AppendAssoc(s.sent, part, Unsent(s'.out.queue, Done(s')));
  }

  lemma OutTransfer<M(!new)>(registry: Registry<M>, s: System<M>, e: Event)
    requires OutInv(s) && Enabled(s, e) && e.Transfer?
    ensures OutInv(Next(registry, s, e))
  {
    assert OneWrite(s);
    hide *;
    var part := TransferFacts(registry, s, e);
    Transferred(s, Next(registry, s, e), part);
  }

  lemma OutDone<M(!new)>(registry: Registry<M>, s: System<M>, e: Event)
    requires OutInv(s) && Enabled(s, e) && e.WriteDone?
    ensures Safe(s, e) && OutInv(Next(registry, s, e))
  {
    var q := s.out.queue;
    assert s.out.writes[..0] + s.out.writes[1..] == [];
    if !e.error {
      assert q[0][s.out.writes[0].done..] == [];
      assert Unsent(q, Done(s)) == Concat(q[1..]);
      assert Unsent(q[1..], 0) == Concat(q[1..]);
    }
  }

  // ----- the receiving end -----

  // The receiving end refuses a message that is too big, or that decode rejects.
  predicate Refused<M>(registry: Registry<M>, o: Outgoing)
    requires o.payload.Some?
  {
    FrameSize(o.name, o.payload.value) - HEADER > MAX_PACKET || Received(registry, o).None?
  }

  // The messages dispatched are the first ones posted, none of them refused; and what has
  // been read is their frames and the part of the next one in the buffer.
  ghost predicate InOrder<M(!new)>(registry: Registry<M>, s: System<M>) {
    var n := |s.inbox.messages|;
    && n <= |s.posted| && Sendable(s.posted)
    && forall i :: 0 <= i < n ==>
         !Refused(registry, s.posted[i]) && Received(registry, s.posted[i]) == Some(s.inbox.messages[i])
  }

  predicate Buffered<M>(s: System<M>)
    requires |s.inbox.messages| <= |s.posted| && Sendable(s.posted)
  {
    && s.received <= |s.sent|
    && Stream(s.posted[..|s.inbox.messages|]) + s.inbox.response == s.sent[..s.received]
    && |s.inbox.response| <= Wanted(s.inbox.reading)
    && match s.inbox.reading
       case Header => true
       case Body(length) =>
         |s.inbox.response| >= HEADER && FromBE32(s.inbox.response[..HEADER]) == length
             && HEADER <= length <= MAX_PACKET
       case Stopped => true
  }

  // Left to itself, the receiving end stops only at a message that it refuses.
  predicate StopsRightly<M>(registry: Registry<M>, s: System<M>)
    requires |s.inbox.messages| <= |s.posted| && Sendable(s.posted)
  {
    && (s.inbox.abort ==> s.inbox.reading.Stopped? || s.broken)
    && (s.inbox.reading.Stopped? && !s.broken ==>
          |s.inbox.messages| < |s.posted| && Refused(registry, s.posted[|s.inbox.messages|]))
  }

  ghost predicate InInv<M(!new)>(registry: Registry<M>, s: System<M>) {
    && InOrder(registry, s)
    && (!s.inbox.reading.Stopped? ==> Buffered(s))
    && StopsRightly(registry, s)
  }

  lemma {:induction false} StreamAppend(a: seq<Outgoing>, b: seq<Outgoing>)
    requires Sendable(a) && Sendable(b)
    ensures Stream(a + b) == Stream(a) + Stream(b)
  {
    if a == [] {
      assert a + b == b;
    } else {
      assert (a + b)[1..] == a[1..] + b;
      StreamAppend(a[1..], b);
    }
  }

  lemma PrefixCancel(a: bytes, b: bytes, c: bytes)
    requires a + b <= a + c
    ensures b <= c
  {
    assert (a + b)[|a|..] == b;
    assert (a + c)[|a|..|a| + |b|] == c[..|b|];
  }

  // A buffer that continues the frames of the first n messages holds the beginning of the
  // frame of the next one.
  lemma NextFrame(posted: seq<Outgoing>, n: nat, response: bytes)
    requires Sendable(posted) && n <= |posted| && response != []
    requires Stream(posted[..n]) + response <= Stream(posted)
    ensures n < |posted|
    ensures response <= Encoded(posted[n]) + Stream(posted[n + 1..])
  {
    var a, b := posted[..n], posted[n..];
    StreamCut(posted, n);
    hide *;
    PrefixCancel(Stream(a), response, Stream(b));
  }

  lemma SendableCut(posted: seq<Outgoing>, n: nat)
    requires Sendable(posted) && n <= |posted|
    ensures Sendable(posted[..n]) && Sendable(posted[n..])
    ensures n < |posted| ==> Sendable([posted[n]]) && Sendable(posted[n + 1..])
  {
  }

  lemma StreamCut(posted: seq<Outgoing>, n: nat)
    requires Sendable(posted) && n <= |posted|
    ensures Sendable(posted[..n]) && Sendable(posted[n..]) && (n < |posted| ==> Sendable(posted[n + 1..]))
    ensures Stream(posted) == Stream(posted[..n]) + Stream(posted[n..])
    ensures Stream(posted[n..]) == if n == |posted| then [] else Encoded(posted[n]) + Stream(posted[n + 1..])
  {
    SendableCut(posted, n);
    hide Sendable, Encoded;
    assert posted == posted[..n] + posted[n..];
    StreamAppend(posted[..n], posted[n..]);
    if n < |posted| {
      assert posted[n..][1..] == posted[n + 1..];
    }
  }

  // The sent bytes are the beginning of the posted ones.
  lemma SentIsPrefix<M>(s: System<M>)
    requires OutInv(s) && s.received <= |s.sent|
    ensures s.sent[..s.received] <= Stream(s.posted)
  {
  }

  // The length that has been read is that of the frame of the next message.
  lemma HeaderIsNext<M(!new)>(registry: Registry<M>, s: System<M>)
    requires OutInv(s) && InInv(registry, s) && !s.inbox.reading.Stopped? && |s.inbox.response| >= HEADER
    ensures |s.inbox.messages| < |s.posted|
    ensures var o := s.posted[|s.inbox.messages|];
            FromBE32(s.inbox.response[..HEADER]) == FrameSize(o.name, o.payload.value) - HEADER >= HEADER
    ensures s.inbox.response <= Encoded(s.posted[|s.inbox.messages|]) + Stream(s.posted[|s.inbox.messages| + 1..])
  {
    SentIsPrefix(s);
    var n := |s.inbox.messages|;
    NextFrame(s.posted, n, s.inbox.response);
    var o := s.posted[n];
    FrameParts(o.name, o.payload.value);
    assert s.inbox.response[..HEADER] == Encoded(o)[..HEADER];
  }

  lemma ReadDoneSafe<M(!new)>(registry: Registry<M>, s: System<M>, e: Event)
    requires OutInv(s) && InInv(registry, s) && Enabled(s, e) && e.ReadDone?
    ensures Safe(s, e)
    ensures !e.error && s.inbox.reading.Body? ==>
              |s.inbox.messages| < |s.posted| && s.inbox.response == Encoded(s.posted[|s.inbox.messages|])
  {
    if !e.error {
      HeaderIsNext(registry, s);
      var o := s.posted[|s.inbox.messages|];
      assert s.inbox.response[..|s.inbox.response|] == s.inbox.response;
      if s.inbox.reading.Body? {
        assert |s.inbox.response| == |Encoded(o)|;
        assert s.inbox.response == Encoded(o);
        FrameParts(o.name, o.payload.value);
      }
    }
  }

  // The steps of the sending end, and of the pipe.
  lemma InKept<M(!new)>(registry: Registry<M>, s: System<M>, e: Event)
    requires OutInv(s) && InInv(registry, s) && Enabled(s, e) && Safe(s, e)
    requires e.Post? || e.RunTask? || e.Transfer? || e.WriteDone? || e.StopSender? || e.StopReceiver?
    ensures InInv(registry, Next(registry, s, e))
  {
    hide Stream, Refused, Received, TaskRun, Written, Encoded, FrameOf, FrameSize, OutInv;
    var s', n := Next(registry, s, e), |s.inbox.messages|;
    assert s'.posted[..n] == s.posted[..n];
    assert s.received <= |s.sent| ==> s'.sent[..s.received] == s.sent[..s.received];
  }

  lemma InDeliver<M(!new)>(registry: Registry<M>, s: System<M>, e: Event)
    requires OutInv(s) && InInv(registry, s) && Enabled(s, e) && e.Deliver?
    ensures InInv(registry, Next(registry, s, e))
  {
    hide Stream, Refused, Received, OutInv;
    var part := s.sent[s.received..s.received + e.n];
    AppendAssoc(Stream(s.posted[..|s.inbox.messages|]), s.inbox.response, part);
    assert s.sent[..s.received + e.n] == s.sent[..s.received] + part;
    if s.inbox.reading.Body? {
      assert (s.inbox.response + part)[..HEADER] == s.inbox.response[..HEADER];
    }
  }

  lemma InReadError<M(!new)>(registry: Registry<M>, s: System<M>, e: Event)
    requires InInv(registry, s) && Enabled(s, e) && e.ReadDone? && e.error
    ensures InInv(registry, Next(registry, s, e))
  {
    hide Stream, Received, Encoded, FrameOf, FrameSize;
  }

  lemma InHeader<M(!new)>(registry: Registry<M>, s: System<M>, e: Event)
    requires OutInv(s) && InInv(registry, s) && Enabled(s, e) && Safe(s, e)
    requires e.ReadDone? && !e.error && s.inbox.reading.Header?
    ensures InInv(registry, Next(registry, s, e))
  {
    HeaderIsNext(registry, s);
    assert s.inbox.response[..HEADER] == s.inbox.response;
    var s' := s.(inbox := HeaderRead(s.inbox));
    assert Next(registry, s, e) == s';
    HeaderCases(registry, s);
    hide *;
    if s'.inbox.reading.Stopped? {
      InStopped(registry, s);
    } else {
      InGoesOn(registry, s, FromBE32(s.inbox.response));
    }
  }

  lemma InStopped<M(!new)>(registry: Registry<M>, s: System<M>)
    requires InInv(registry, s) && |s.inbox.messages| < |s.posted| && !s.inbox.reading.Stopped?
    requires s.inbox.abort || Refused(registry, s.posted[|s.inbox.messages|])
    ensures InInv(registry, s.(inbox := ReadFailed(s.inbox)))
  {
    hide Stream, Received, Encoded, FrameOf, FrameSize, FromBE32, Refused;
  }

  lemma InGoesOn<M(!new)>(registry: Registry<M>, s: System<M>, length: nat)
    requires InInv(registry, s) && s.inbox.reading.Header? && |s.inbox.response| == HEADER && !s.inbox.abort
    requires FromBE32(s.inbox.response) == length && HEADER <= length <= MAX_PACKET
    ensures InInv(registry, s.(inbox := s.inbox.(reading := Body(length))))
  {
    assert s.inbox.response[..HEADER] == s.inbox.response;
    hide Stream, Received, Encoded, FrameOf, FrameSize, FromBE32, Refused;
  }

  lemma HeaderCases<M(!new)>(registry: Registry<M>, s: System<M>)
    requires |s.inbox.messages| < |s.posted| && Sendable(s.posted) && |s.inbox.response| == HEADER
    requires var o := s.posted[|s.inbox.messages|];
             FromBE32(s.inbox.response) == FrameSize(o.name, o.payload.value) - HEADER >= HEADER
    ensures var i := HeaderRead(s.inbox);
            if i.reading.Stopped? then
              i == ReadFailed(s.inbox) && (s.inbox.abort || Refused(registry, s.posted[|s.inbox.messages|]))
            else
              !s.inbox.abort && HEADER <= FromBE32(s.inbox.response) <= MAX_PACKET
              && i == s.inbox.(reading := Body(FromBE32(s.inbox.response)))
  {
  }

  lemma InBody<M(!new)>(registry: Registry<M>, s: System<M>, e: Event)
    requires OutInv(s) && InInv(registry, s) && Enabled(s, e) && Safe(s, e)
    requires e.ReadDone? && !e.error && s.inbox.reading.Body?
    ensures InInv(registry, Next(registry, s, e))
  {
    ReadDoneSafe(registry, s, e);
    BodyIsNext(registry, s);
    var s' := s.(inbox := BodyRead(registry, s.inbox));
    assert Next(registry, s, e) == s';
    if s.inbox.abort || Received(registry, s.posted[|s.inbox.messages|]).None? {
      InRefused(registry, s);
    } else {
      InDispatched(registry, s);
    }
  }

  lemma InRefused<M(!new)>(registry: Registry<M>, s: System<M>)
    requires InInv(registry, s) && |s.inbox.messages| < |s.posted| && s.inbox.reading.Body?
    requires s.inbox.abort
          || (DecodedAs(registry, s.inbox.response).None? && Refused(registry, s.posted[|s.inbox.messages|]))
    ensures InInv(registry, s.(inbox := BodyRead(registry, s.inbox)))
  {
    hide Stream, Received, Encoded, FrameOf, FrameSize, FromBE32, Refused, DecodedAs;
  }

  lemma InDispatched<M(!new)>(registry: Registry<M>, s: System<M>)
    requires InInv(registry, s) && |s.inbox.messages| < |s.posted| && s.inbox.reading.Body? && !s.inbox.abort
    requires s.inbox.response == Encoded(s.posted[|s.inbox.messages|])
    requires var o := s.posted[|s.inbox.messages|];
             DecodedAs(registry, s.inbox.response) == Received(registry, o) && Received(registry, o).Some?
             && !Refused(registry, o)
    ensures InInv(registry, s.(inbox := BodyRead(registry, s.inbox)))
  {
    var n := |s.inbox.messages|;
    hide Stream, Received, Encoded, FrameOf, FrameSize, FromBE32, Refused, DecodedAs;
    FrameConsumed(s.posted, n, s.inbox.response, s.sent[..s.received]);
    var i := s.inbox.(reading := Header, response := [],
                      messages := s.inbox.messages + [Received(registry, s.posted[n]).value]);
    assert BodyRead(registry, s.inbox) == i;
    hide BodyRead;
    assert InOrder(registry, s.(inbox := i));
  }

  lemma FrameConsumed(posted: seq<Outgoing>, n: nat, response: bytes, read: bytes)
    requires Sendable(posted) && n < |posted| && response == Encoded(posted[n])
    requires Stream(posted[..n]) + response == read
    ensures Stream(posted[..n + 1]) + [] == read
  {
    hide *;
    SendableCut(posted, n);
    SendableCut(posted, n + 1);
    StreamPush(posted[..n], posted[n]);
    assert posted[..n + 1] == posted[..n] + [posted[n]];
    assert read + [] == read;
  }

  // A complete frame in the buffer is that of the next message, which is refused exactly
  // when decode rejects it.
  lemma BodyIsNext<M(!new)>(registry: Registry<M>, s: System<M>)
    requires OutInv(s) && InInv(registry, s) && s.inbox.reading.Body?
    requires |s.inbox.messages| < |s.posted| && s.inbox.response == Encoded(s.posted[|s.inbox.messages|])
    ensures var o := s.posted[|s.inbox.messages|];
            && DecodedAs(registry, s.inbox.response) == Received(registry, o)
            && (Refused(registry, o) <==> Received(registry, o).None?)
  {
    HeaderIsNext(registry, s);
    var o := s.posted[|s.inbox.messages|];
    if Received(registry, o).Some? {
      FrameRoundTrip(registry, o, Received(registry, o).value);
    } else {
      NotReceived(registry, o);
    }
  }

  lemma NotReceived<M(!new)>(registry: Registry<M>, o: Outgoing)
    requires o.payload.Some? && FrameSize(o.name, o.payload.value) < TWO31 && Received(registry, o).None?
    ensures DecodedAs(registry, Encoded(o)).None?
  {
    OnlyFrame(registry, Encoded(o), o.name, o.payload.value);
  }

  // ----- every run -----

  // The state after a sequence of events, if each could happen when it did.
  ghost function After<M(!new)>(registry: Registry<M>, es: seq<Event>): Option<System<M>> {
    if es == [] then Some(Start())
    else
      match After(registry, es[..|es| - 1])
      case None => None
      case Some(s) =>
        var e := es[|es| - 1];
        if Enabled(s, e) && Safe(s, e) then Some(Next(registry, s, e)) else None
  }

  lemma StepKeeps<M(!new)>(registry: Registry<M>, s: System<M>, e: Event)
    requires OutInv(s) && InInv(registry, s) && Enabled(s, e)
    ensures Safe(s, e) && OutInv(Next(registry, s, e)) && InInv(registry, Next(registry, s, e))
  {
    hide OutInv, InInv;
    match e
    case Post(_) => OutPost(registry, s, e); InKept(registry, s, e);
    case RunTask => OutTask(registry, s, e); InKept(registry, s, e);
    case Transfer(_, _) => OutTransfer(registry, s, e); InKept(registry, s, e);
    case WriteDone(_, _) => OutDone(registry, s, e); InKept(registry, s, e);
    case Deliver(_) => InDeliver(registry, s, e); OutKept(registry, s, e);
    case ReadDone(error) =>
      ReadDoneSafe(registry, s, e);
      if !error && s.inbox.reading.Body? {
        InBody(registry, s, e);
      } else if !error {
        InHeader(registry, s, e);
      } else {
        InReadError(registry, s, e);
      }
      OutKept(registry, s, e);
    case _ => InKept(registry, s, e); OutKept(registry, s, e);
  }

  lemma OutKept<M(!new)>(registry: Registry<M>, s: System<M>, e: Event)
    requires OutInv(s) && Enabled(s, e) && Safe(s, e)
    requires e.StopSender? || e.StopReceiver? || e.Deliver? || e.ReadDone?
    ensures OutInv(Next(registry, s, e))
  {
    hide Unsent, Stream, Concat, HeaderRead, BodyRead;
  }

  lemma {:induction false} Reachable<M(!new)>(registry: Registry<M>, es: seq<Event>)
    requires After(registry, es).Some?
    ensures OutInv(After(registry, es).value) && InInv(registry, After(registry, es).value)
  {
    if es != [] {
      Reachable(registry, es[..|es| - 1]);
      StepKeeps(registry, After(registry, es[..|es| - 1]).value, es[|es| - 1]);
    }
  }

  // The handlers never run in a state they are not made for: no interleaving makes
  // handle_write pop an empty queue, or the read loop see a negative length or a frame whose
  // numbers are outside it.
  lemma NeverUnsafe<M(!new)>(registry: Registry<M>, es: seq<Event>, e: Event)
    requires After(registry, es).Some? && Enabled(After(registry, es).value, e)
    ensures After(registry, es + [e]).Some?
  {
    Reachable(registry, es);
    hide OutInv, InInv, Enabled, Safe, Next;
    StepKeeps(registry, After(registry, es).value, e);
    assert (es + [e])[..|es|] == es;
  }

  // At most one write is under way, and one is exactly while the queue is not empty, until a
  // write fails; from then on none is started. What has been sent and what is queued is what
  // has been posted.
  lemma OneWriteAtATime<M(!new)>(registry: Registry<M>, es: seq<Event>)
    requires After(registry, es).Some?
    ensures var s := After(registry, es).value;
            && |s.out.writes| <= 1
            && (s.failed.None? ==> (s.out.writes != [] <==> s.out.queue != []))
            && (s.failed.Some? ==> s.out.writes == [])
            && (s.out.queue != [] ==> Done(s) <= |s.out.queue[0]|) && Sendable(s.posted)
            && s.sent + Unsent(s.out.queue, Done(s)) + Concat(s.out.tasks) == Stream(s.posted)
  {
    Reachable(registry, es);
  }

  // Whatever happens, the messages dispatched are the first ones posted, in order, each as
  // decode makes of it, and none of them is one to be refused.
  lemma OrderedDelivery<M(!new)>(registry: Registry<M>, es: seq<Event>)
    requires After(registry, es).Some?
    ensures var s := After(registry, es).value;
            && |s.inbox.messages| <= |s.posted| && Sendable(s.posted)
            && forall i :: 0 <= i < |s.inbox.messages| ==>
                 !Refused(registry, s.posted[i]) && Received(registry, s.posted[i]) == Some(s.inbox.messages[i])
  {
    Reachable(registry, es);
  }

  // No task to run, no write under way, nothing to deliver and no read complete.
  predicate Quiet<M>(s: System<M>) {
    && s.out.tasks == [] && s.out.writes == [] && s.received == |s.sent|
    && (s.inbox.reading.Stopped? || |s.inbox.response| != Wanted(s.inbox.reading))
  }

  // When nothing has gone wrong and nothing is left to happen, every message has been
  // dispatched, or every message before the first one that is refused.
  lemma AllDelivered<M(!new)>(registry: Registry<M>, es: seq<Event>)
    requires After(registry, es).Some?
    requires Quiet(After(registry, es).value) && !After(registry, es).value.broken
    ensures var s := After(registry, es).value;
            && Sendable(s.posted) && |s.inbox.messages| <= |s.posted|
            && (|s.inbox.messages| == |s.posted| || Refused(registry, s.posted[|s.inbox.messages|]))
  {
    Reachable(registry, es);
    var s := After(registry, es).value;
    if !s.inbox.reading.Stopped? {
      EverythingRead(registry, s);
    }
  }

  lemma EverythingRead<M(!new)>(registry: Registry<M>, s: System<M>)
    requires OutInv(s) && InInv(registry, s) && Quiet(s) && !s.broken && !s.inbox.reading.Stopped?
    ensures |s.inbox.messages| == |s.posted|
  {
    var n := |s.inbox.messages|;
    assert s.sent[..s.received] == s.sent == Stream(s.posted);
    StreamCut(s.posted, n);
    if n < |s.posted| {
      PrefixCancel(Stream(s.posted[..n]), Stream(s.posted[n..]), s.inbox.response);
      HeaderIsNext(registry, s);
      assert false;
    }
  }

  // ----- runs in plain terms -----

  // What has been posted, but for the messages that could not be serialised.
  function Posts(es: seq<Event>): seq<Outgoing> {
    if es == [] then []
    else
      var e := es[|es| - 1];
      Posts(es[..|es| - 1]) + if e.Post? && e.o.payload.Some? then [e.o] else []
  }

  predicate Fault(e: Event) {
    e.StopSender? || e.StopReceiver? || (e.WriteDone? && e.error) || (e.ReadDone? && e.error)
  }

  predicate WriteFault(e: Event) { e.WriteDone? && e.error }

  // What a step adds to the history.
  lemma StepHistory<M(!new)>(registry: Registry<M>, s: System<M>, e: Event)
    requires Enabled(s, e) && Safe(s, e)
    ensures var s' := Next(registry, s, e);
            && s'.posted == s.posted + (if e.Post? && e.o.payload.Some? then [e.o] else [])
            && (s'.broken <==> s.broken || Fault(e))
            && (s'.failed.Some? <==> s.failed.Some? || WriteFault(e))
            && (s'.out.open <==> s.out.open && !e.StopSender? && !WriteFault(e))
            && (!s.out.open ==> s'.sent == s.sent)
  {
    hide DecodedAs, Encoded, FromBE32, Decodable, Received;
  }

  lemma LastEvent<M(!new)>(registry: Registry<M>, es: seq<Event>)
    requires es != [] && After(registry, es).Some?
    ensures var before, e := After(registry, es[..|es| - 1]), es[|es| - 1];
            && before.Some? && Enabled(before.value, e) && Safe(before.value, e)
            && After(registry, es).value == Next(registry, before.value, e)
  {
    hide Enabled, Safe, Next;
  }

  predicate Closing(e: Event) { e.StopSender? || WriteFault(e) }

  // An event of one of these kinds is the last one or one before.
  lemma KindsOf(es: seq<Event>)
    requires es != []
    ensures var before, e := es[..|es| - 1], es[|es| - 1];
            && ((exists x <- es :: Fault(x)) <==> (exists x <- before :: Fault(x)) || Fault(e))
            && ((exists x <- es :: WriteFault(x)) <==> (exists x <- before :: WriteFault(x)) || WriteFault(e))
            && ((exists x <- es :: Closing(x)) <==> (exists x <- before :: Closing(x)) || Closing(e))
            && Posts(es) == Posts(before) + if e.Post? && e.o.payload.Some? then [e.o] else []
  {
    var before, e := es[..|es| - 1], es[|es| - 1];
    assert forall x :: x in es <==> x in before || x == e by {
      assert es == before + [e];
    }
    hide Fault, WriteFault, Closing;
  }

  // The history of a run is its events: what was posted, whether anything went wrong, and
  // whether a write failed, after which, as after a stop, the socket is closed.
  lemma {:induction false} HistoryIsEvents<M(!new)>(registry: Registry<M>, es: seq<Event>)
    requires After(registry, es).Some?
    ensures var s := After(registry, es).value;
            && s.posted == Posts(es)
            && (s.broken <==> exists e <- es :: Fault(e))
            && (s.failed.Some? <==> exists e <- es :: WriteFault(e))
            && (s.out.open <==> !exists e <- es :: Closing(e))
  {
    if es != [] {
      var before := es[..|es| - 1];
      LastEvent(registry, es);
      HistoryIsEvents(registry, before);
      StepHistory(registry, After(registry, before).value, es[|es| - 1]);
      KindsOf(es);
      hide After, Next, Enabled, Safe, Fault, WriteFault, Posts;
    }
  }

  // After a stop or a failed write the socket is closed and the peer gets nothing more,
  // whatever happens then.
  lemma {:induction false} NothingOnceClosed<M(!new)>(registry: Registry<M>, es: seq<Event>, more: seq<Event>)
    requires After(registry, es + more).Some? && exists e <- es :: e.StopSender? || (e.WriteDone? && e.error)
    ensures After(registry, es).Some?
    ensures !After(registry, es + more).value.out.open
    ensures After(registry, es + more).value.sent == After(registry, es).value.sent
    decreases |more|
  {
    HistoryIsEvents(registry, es + more);
    var e :| e in es && (e.StopSender? || (e.WriteDone? && e.error));
    assert e in es + more && Closing(e);
    if more == [] {
      assert es + more == es;
    } else {
      var n := |more| - 1;
      assert es + more == es + more[..n] + [more[n]];
      assert (es + more)[..|es + more| - 1] == es + more[..n];
      LastEvent(registry, es + more);
      NothingOnceClosed(registry, es, more[..n]);
      StepHistory(registry, After(registry, es + more[..n]).value, more[n]);
      hide After, Next, Enabled, Safe, Posts;
    }
  }

  // Delivery without the terms of the model: what has been dispatched is what the registered
  // parsers make of the first payloads posted, each of them within 64 KiB; left to itself the
  // receiving end stops only at a message that is too big, has no payload, or is of a type
  // that is not registered or does not parse; and if it does not stop, it gets everything.
  lemma WhatArrives<M(!new)>(registry: Registry<M>, es: seq<Event>)
    requires After(registry, es).Some?
    ensures var s, os := After(registry, es).value, Posts(es);
            && |s.inbox.messages| <= |os| && (forall o <- os :: o.payload.Some?)
            && (forall i :: 0 <= i < |s.inbox.messages| ==>
                  && 4 + |os[i].name| + |os[i].payload.value| <= 65536 && os[i].payload.value != []
                  && os[i].name in registry && registry[os[i].name](os[i].payload.value) == Some(s.inbox.messages[i]))
            && (s.inbox.reading.Stopped? && !(exists e <- es :: Fault(e)) ==>
                  && |s.inbox.messages| < |os|
                  && var o := os[|s.inbox.messages|];
                     || 4 + |o.name| + |o.payload.value| > 65536 || o.payload.value == []
                     || o.name !in registry || registry[o.name](o.payload.value).None?)
            && (Quiet(s) && !s.inbox.reading.Stopped? && !(exists e <- es :: Fault(e)) ==>
                  |s.inbox.messages| == |os|)
  {
    Reachable(registry, es);
    HistoryIsEvents(registry, es);
    if Quiet(After(registry, es).value) && !After(registry, es).value.inbox.reading.Stopped?
       && !After(registry, es).value.broken
    {
      EverythingRead(registry, After(registry, es).value);
    }
    hide After, OutInv, Buffered, Posts, Quiet;
  }
}
