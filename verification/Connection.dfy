// One connection: its queue of messages to be written, of which one is written at a time,
// and its read loop, which reads a length and then that many bytes. The socket and the
// executor are modelled by what they hold: the tasks posted, the writes under way.
module Connection {
  import opened Bytes
  import opened Wire
  import opened Frame

  // A write under way, of which `done` bytes have been given to the network.
  datatype Write = Write(data: bytes, done: nat)

  datatype Outbox = Outbox(tasks: seq<bytes>, queue: seq<bytes>, writes: seq<Write>, open: bool)

  // What the read under way waits for.
  datatype Reading = Header | Body(length: nat) | Stopped

  datatype Inbox<M> = Inbox(reading: Reading, response: bytes, abort: bool, messages: seq<M>)

  const MAX_PACKET: nat := 65536

  // ----- the handlers, on values -----

  function Posted(o: Outbox, msg: bytes): Outbox { o.(tasks := o.tasks + [msg]) }

  function TaskRun(o: Outbox): Outbox
    requires o.tasks != []
  {
    var o' := o.(tasks := o.tasks[1..], queue := o.queue + [o.tasks[0]]);
    if o.queue == [] then o'.(writes := o.writes + [Write(o'.queue[0], 0)]) else o'
  }

  // The i-th write under way has ended.
  function Written(o: Outbox, i: nat): Outbox
    requires i < |o.writes| && o.queue != []
  {
    var o' := o.(queue := o.queue[1..], writes := o.writes[..i] + o.writes[i + 1..]);
    if o'.queue != [] then o'.(writes := o'.writes + [Write(o'.queue[0], 0)]) else o'
  }

  function WriteFailed(o: Outbox, i: nat): Outbox
    requires i < |o.writes|
  {
    o.(writes := o.writes[..i] + o.writes[i + 1..], open := false)
  }

  function Aborted<M>(i: Inbox<M>): Inbox<M> { i.(abort := true) }

  // The read under way has ended with an error or after an abort: no other is started.
  function ReadFailed<M>(i: Inbox<M>): Inbox<M> { i.(abort := true, reading := Stopped) }

  // A number of bytes to read, converted to the unsigned 64-bit type of sizes: a negative one
  // becomes one that no peer ever sends.
  function Size(n: int): (r: nat)
    requires n + TWO31 >= 0
    ensures n < 0 ==> r >= TWO31
  {
    if n < 0 then n + TWO64 else n
  }

  // The four bytes of the length are there.
  function HeaderRead<M>(i: Inbox<M>): Inbox<M>
    requires |i.response| == HEADER
  {
    var length := FromBE32(i.response);
    if i.abort || length > MAX_PACKET then ReadFailed(i) else i.(reading := Body(Size(length)))
  }

  // The whole frame is there.
  ghost function BodyRead<M(!new)>(registry: Registry<M>, i: Inbox<M>): Inbox<M> {
    var msg := DecodedAs(registry, i.response);
    if i.abort then ReadFailed(i)
    else if msg.None? then ReadFailed(i.(response := []))
    else i.(reading := Header, response := [], messages := i.messages + [msg.value])
  }

  // What the read loop makes of the four bytes: a number in network order up to 64 KiB is that
  // many bytes more, a bigger one ends the connection, and one with its highest bit set, which
  // is negative for the code, is a size that never arrives.
  lemma LengthRead<M>(i: Inbox<M>)
    requires |i.response| == 4 && !i.abort
    ensures var n := NetworkOrder(i.response, 0);
            HeaderRead(i)
            == if n <= 65536 then i.(reading := Body(n))
               else if n < 0x8000_0000 then i.(reading := Stopped, abort := true)
               else i.(reading := Body(n + 0xffff_ffff_0000_0000))
  {
    NumberOf(i.response, 0);
    assert i.response[0..4] == i.response;
    hide FromBE32, NetworkOrder;
  }

  // ----- the connection -----

  class Connection<M(!new)> {
    const registry: Registry<M>
    var tasks: seq<bytes>
    var writeQueue: seq<bytes>
    var writes: seq<Write>
    var open: bool
    var abort: bool
    var reading: Reading
    var response: bytes
    var messages: seq<M>
    // The notifications of the modules: 0 for a start, 1 for a stop.
    var notices: seq<nat>

    function Out(): Outbox
      reads this
    {
      Outbox(tasks, writeQueue, writes, open)
    }

    function In(): Inbox<M>
      reads this
    {
      Inbox(reading, response, abort, messages)
    }

    constructor (types: Registry<M>)
      ensures Out() == Outbox([], [], [], true) && In() == Inbox(Stopped, [], false, []) && registry == types
      ensures notices == []
    {
      registry, tasks, writeQueue, writes, open := types, [], [], [], true;
      reading, response, abort, messages, notices := Stopped, [], false, [], [];
    }

    method Start()
      modifies this
      ensures Out() == old(Out()) && In() == Inbox(Header, [], false, old(messages)) && notices == old(notices) + [0]
    {
      response := [];
      abort := false;
      notices := notices + [0];
      reading := Header;
    }

    // Closes the socket; the operations under way then end with errors.
    method Stop()
      modifies this
      ensures Out() == old(Out()).(open := false) && In() == Aborted(old(In())) && notices == old(notices) + [1]
    {
      notices := notices + [1];
      abort := true;
      open := false;
    }

    method HandleReadHeader(error: bool)
      requires reading == Header && (!error ==> |response| == HEADER)
      modifies this
      ensures In() == if error then ReadFailed(old(In())) else HeaderRead(old(In()))
      ensures Out() == old(Out()).(open := old(open) && reading != Stopped)
      ensures notices == if reading == Stopped then old(notices) + [1] else old(notices)
    {
      if error || abort {
        reading := Stopped;
        Stop();
        return;
      }
      var length := FromBE32(response[..HEADER]);
      assert response[..HEADER] == response;
      if length > MAX_PACKET {
        reading := Stopped;
        Stop();
        return;
      }
      reading := Body(Size(length));
    }

    method HandleReadBody(error: bool)
      requires reading.Body? && (!error ==> |response| == HEADER + reading.length && Decodable(response))
      modifies this
      ensures In() == if error then ReadFailed(old(In())) else BodyRead(registry, old(In()))
      ensures Out() == old(Out()).(open := old(open) && reading != Stopped)
      ensures notices == if reading == Stopped then old(notices) + [1] else old(notices)
    {
      if error || abort {
        reading := Stopped;
        Stop();
        return;
      }
      var message := response[..HEADER + reading.length];
      response := response[HEADER + reading.length..];
      assert message == old(response) && response == [];
      var msg := Decode(registry, message);
      if msg.None? {
        reading := Stopped;
        Stop();
        return;
      }
      messages := messages + [msg.value];
      reading := Header;
    }

    method WriteMsg(msg: bytes)
      modifies this
      ensures Out() == Posted(old(Out()), msg) && In() == old(In()) && notices == old(notices)
    {
      tasks := tasks + [msg];
    }

    // The executor runs the next task.
    method DoWrite()
      requires tasks != []
      modifies this
      ensures Out() == TaskRun(old(Out())) && In() == old(In()) && notices == old(notices)
    {
      var msg := tasks[0];
      tasks := tasks[1..];
      var inProgress := writeQueue != [];
      writeQueue := writeQueue + [msg];
      if !inProgress {
        writes := writes + [Write(writeQueue[0], 0)];
      }
    }

    // The i-th write under way has ended.
    method HandleWrite(i: nat, error: bool)
      requires i < |writes| && (!error ==> writeQueue != [])
      modifies this
      ensures Out() == if error then WriteFailed(old(Out()), i) else Written(old(Out()), i)
      ensures error ==> !open && abort && writes == old(writes[..i] + writes[i + 1..]) && writeQueue == old(writeQueue)
      ensures In() == if error then Aborted(old(In())) else old(In())
      ensures notices == if error then old(notices) + [1] else old(notices)
    {
      writes := writes[..i] + writes[i + 1..];
      if !error {
        writeQueue := writeQueue[1..];
        if writeQueue != [] {
          writes := writes + [Write(writeQueue[0], 0)];
        }
      } else {
        Stop();
      }
    }
  }
}
