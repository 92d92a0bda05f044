// The routing table over whole runs of connections opening, packets arriving, connections
// being closed and objects being destroyed.
module Routing {
  import opened Bytes
  import opened Wire
  import opened Messages
  import opened AddressObject
  import opened PacketObject
  import opened Forward

  // `open` are the connections not yet notified closed, `ever` all there have been, and
  // `heard` the sources received so far, each with the connection it was received on.
  datatype Net = Net(r: Router, open: set<Id>, ever: set<Id>, heard: set<(bytes, Id)>)

  datatype Event =
    | Open(c: Id)               // a connection is accepted
    | Arrives(c: Id, p: Packet) // process_packet
    | Closed(c: Id)             // connection_notify with a type other than 0
    | Destroyed(c: Id)          // no reference to the connection is left

  const START: Net := Net(Router(map[], map[], {}, []), {}, {}, {})

  predicate Enabled(s: Net, e: Event) {
    match e
    case Open(c) => c !in s.ever
    case Arrives(c, p) => c in s.r.alive && Writable(p)
    case Closed(c) => c in s.r.alive
    case Destroyed(c) => c in s.r.alive && c !in s.open
  }

  function Next(s: Net, e: Event): Net
    requires Enabled(s, e)
  {
    match e
    case Open(c) => s.(r := s.r.(alive := s.r.alive + {c}), open := s.open + {c}, ever := s.ever + {c})
    case Arrives(c, p) => s.(r := Processed(s.r, p, c), heard := s.heard + {(UsernameOf(p.src), c)})
    case Closed(c) => s.(r := Notified(s.r, c), open := s.open - {c})
    case Destroyed(c) => s.(r := s.r.(alive := s.r.alive - {c}))
  }

  // The state after a sequence of events, if each could happen when it did.
  function After(es: seq<Event>): Option<Net> {
    if es == [] then Some(START)
    else
      match After(es[..|es| - 1])
      case None => None
      case Some(s) => if Enabled(s, es[|es| - 1]) then Some(Next(s, es[|es| - 1])) else None
  }

  lemma AfterPush(es: seq<Event>, e: Event)
    ensures After(es + [e]) == if After(es).None? || !Enabled(After(es).value, e) then None
                               else Some(Next(After(es).value, e))
  {
    assert (es + [e])[..|es|] == es;
  }

  // What processing a packet does to the routes and the stored names.
  lemma ProcessedLearns(r: Router, p: Packet, c: Id)
    requires Writable(p)
    ensures var r', u := Processed(r, p, c), UsernameOf(p.src);
            && r'.alive == r.alive
            && r'.table == (if u in r.table then r.table else r.table[u := c])
            && r'.names == (if u in r.table then r.names else r.names[c := u])
  {
    ProcessedIs(r, p, c);
  }

  // ----- routes are learned, and kept -----

  predicate Truthful(s: Net) {
    && (forall u <- s.r.table :: (u, s.r.table[u]) in s.heard)
    && (forall c <- s.r.names :: (s.r.names[c], c) in s.heard)
    && s.open <= s.r.alive <= s.ever
    && (forall h <- s.heard :: h.1 in s.ever)
  }

  lemma StepTruthful(s: Net, e: Event)
    requires Truthful(s) && Enabled(s, e)
    ensures Truthful(Next(s, e))
  {
    if e.Arrives? {
      ProcessedLearns(s.r, e.p, e.c);
    }
    hide Processed, Writable, UsernameOf;
  }

  // In every run, every route was learned from a packet with that source, received on that
  // connection; so was every stored name.
  lemma {:induction false} RoutesWereHeard(es: seq<Event>)
    requires After(es).Some?
    ensures Truthful(After(es).value)
  {
    if es != [] {
      RoutesWereHeard(es[..|es| - 1]);
      StepTruthful(After(es[..|es| - 1]).value, es[|es| - 1]);
    }
  }

  // A packet that is forwarded goes to a connection that still exists and on which a packet
  // from the user it is for has been received.
  lemma TargetWasHeard(es: seq<Event>, c: Id, p: Packet)
    requires After(es).Some? && Enabled(After(es).value, Arrives(c, p)) && Forwards(After(es).value.r, p, c)
    ensures var s, s' := After(es).value, Next(After(es).value, Arrives(c, p));
            && |s'.r.written| == |s.r.written| + 1
            && (UsernameOf(p.dest), s'.r.written[|s.r.written|].0) in s'.heard
            && s'.r.written[|s.r.written|].0 in s'.r.alive
  {
    RoutesWereHeard(es);
    ProcessedIs(After(es).value.r, p, c);
    hide Writable, UsernameOf, Serialize, PacketFrame;
  }

  // What an arrival and a close do after any run, in the names of the packets.
  lemma NextByNames(es: seq<Event>, c: Id, p: Packet)
    requires After(es).Some?
    ensures var s := After(es).value;
            && (Enabled(s, Arrives(c, p)) ==>
                  && p.src.Some? && p.src.value.username.Some?
                  && p.dest.Some? && p.dest.value.username.Some? && p.ttl.Some?
                  && var u, d, t := p.src.value.username.value, p.dest.value.username.value, p.ttl.value;
                     var s' := After(es + [Arrives(c, p)]);
                  && s'.Some?
                  && s'.value.r.table == (if u in s.r.table then s.r.table else s.r.table[u := c])
                  && s'.value.r.names == (if u in s.r.table then s.r.names else s.r.names[c := u])
                  && |s'.value.r.written| == |s.r.written| +
                       (if d in s'.value.r.table && s'.value.r.table[d] in s.r.alive && t > 1 then 1 else 0)
                  && (|s'.value.r.written| > |s.r.written| ==>
                        s'.value.r.written[|s.r.written|].0 == s'.value.r.table[d]))
            && (Enabled(s, Closed(c)) ==>
                  var s' := After(es + [Closed(c)]);
                  && s'.Some? && s'.value.r.names == s.r.names && s'.value.r.written == s.r.written
                  && s'.value.r.table == if c in s.r.names then s.r.table - {s.r.names[c]} else s.r.table)
  {
    AfterPush(es, Arrives(c, p));
    AfterPush(es, Closed(c));
    var s := After(es).value;
    hide After, Writable, Processed, LookupFinds, PacketFrame;
    if Enabled(s, Arrives(c, p)) {
      ByNames(s.r, p, c);
    }
  }

  // The event takes away the route of u: a connection that stored u is closed.
  predicate Drops(s: Net, e: Event, u: bytes) { e.Closed? && e.c in s.r.names && s.r.names[e.c] == u }

  // A route is never overwritten, and it goes exactly when a connection that stored its name
  // is closed.
  lemma NeverOverwritten(s: Net, e: Event, u: bytes)
    requires Enabled(s, e) && u in s.r.table
    ensures u in Next(s, e).r.table <==> !Drops(s, e, u)
    ensures u in Next(s, e).r.table ==> Next(s, e).r.table[u] == s.r.table[u]
  {
    if e.Arrives? {
      ProcessedLearns(s.r, e.p, e.c);
    }
    hide Processed, Writable, UsernameOf;
  }

  // Over a whole run: a route that nothing drops leads to the connection it was learned from.
  lemma {:induction false} RouteStays(es: seq<Event>, more: seq<Event>, u: bytes)
    requires After(es).Some? && u in After(es).value.r.table && After(es + more).Some?
    requires forall k :: 0 <= k < |more| && After(es + more[..k]).Some? ==>
               !Drops(After(es + more[..k]).value, more[k], u)
    ensures u in After(es + more).value.r.table
    ensures After(es + more).value.r.table[u] == After(es).value.r.table[u]
    decreases |more|
  {
    if more == [] {
      assert es + more == es;
    } else {
      var n := |more| - 1;
      var before := more[..n];
      assert es + more == es + before + [more[n]];
      AfterPush(es + before, more[n]);
      forall k | 0 <= k < n && After(es + before[..k]).Some?
        ensures !Drops(After(es + before[..k]).value, before[k], u)
      {
        assert before[..k] == more[..k];
      }
      RouteStays(es, before, u);
      NeverOverwritten(After(es + before).value, more[n], u);
    }
  }

  // ----- when the table is exactly the open connections -----

  // table[u] is c exactly when c is open and has u stored.
  predicate Exact(s: Net) {
    && (forall u <- s.r.table :: s.r.table[u] in s.open && s.r.table[u] in s.r.names && s.r.names[s.r.table[u]] == u)
    && (forall c <- s.r.names :: c in s.open ==> s.r.names[c] in s.r.table && s.r.table[s.r.names[c]] == c)
  }

  // What keeps it so: a packet with an unrouted source comes on an open connection that has
  // stored no name, and a connection closed again has no name that is routed.
  predicate Orderly(s: Net, e: Event) {
    match e
    case Arrives(c, p) => UsernameOf(p.src) in s.r.table || (c in s.open && c !in s.r.names)
    case Closed(c) => c in s.open || c !in s.r.names || s.r.names[c] !in s.r.table
    case _ => true
  }

  lemma StepExact(s: Net, e: Event)
    requires Truthful(s) && Exact(s) && Enabled(s, e)
    ensures Exact(Next(s, e)) <==> Orderly(s, e)
  {
    if e.Arrives? {
      ProcessedLearns(s.r, e.p, e.c);
    }
    hide Processed, Writable, UsernameOf;
    var s' := Next(s, e);
    match e
    case Arrives(c, p) =>
      var u := UsernameOf(p.src);
      if u !in s.r.table {
        assert s'.r.table[u] == c && s'.r.names[c] == u;
        if c in s.open && c in s.r.names {
          assert s'.r.table[s.r.names[c]] == c;
        }
      }
    case Closed(c) =>
      if c !in s.open && c in s.r.names && s.r.names[c] in s.r.table {
        var d := s.r.table[s.r.names[c]];
        assert s'.r.names[d] !in s'.r.table;
      }
    case _ =>
  }

  predicate ExactAt(es: seq<Event>, k: nat)
    requires k <= |es|
  {
    After(es[..k]).Some? && Exact(After(es[..k]).value)
  }

  predicate OrderlyAt(es: seq<Event>, k: nat)
    requires k < |es|
  {
    After(es[..k]).Some? && Orderly(After(es[..k]).value, es[k])
  }

  // Over whole runs: the table has been exact all along if and only if every event was
  // orderly where it happened.
  lemma {:induction false} AlwaysExact(es: seq<Event>)
    requires After(es).Some?
    ensures (forall k :: 0 <= k <= |es| ==> ExactAt(es, k)) <==> (forall k :: 0 <= k < |es| ==> OrderlyAt(es, k))
  {
    if es == [] {
      assert After(es[..0]) == Some(START);
    } else {
      var n := |es| - 1;
      var before := es[..n];
      AlwaysExact(before);
      RoutesWereHeard(before);
      LastStep(es);
      hide ExactAt, OrderlyAt, After;
      forall k | 0 <= k <= n
        ensures ExactAt(es, k) <==> ExactAt(before, k)
        ensures k < n ==> (OrderlyAt(es, k) <==> OrderlyAt(before, k))
      {
        SameAt(es, n, k);
      }
    }
  }

  lemma SameAt(es: seq<Event>, n: nat, k: nat)
    requires k <= n < |es|
    ensures ExactAt(es, k) <==> ExactAt(es[..n], k)
    ensures k < n ==> (OrderlyAt(es, k) <==> OrderlyAt(es[..n], k))
  {
    assert es[..n][..k] == es[..k];
    hide After, Exact, Orderly;
  }

  lemma LastStep(es: seq<Event>)
    requires After(es).Some? && es != [] && Truthful(After(es[..|es| - 1]).value)
    ensures ExactAt(es[..|es| - 1], |es| - 1) ==> (ExactAt(es, |es|) <==> OrderlyAt(es, |es| - 1))
  {
    var before := es[..|es| - 1];
    assert es[..|es|] == es && before[..|before|] == before;
    hide Exact, Orderly, Truthful;
    if Exact(After(before).value) {
      StepExact(After(before).value, es[|es| - 1]);
    }
  }

  // Each connection uses one source name.
  predicate OneSource(es: seq<Event>) {
    forall i, j :: 0 <= i < j < |es| && es[i].Arrives? && es[j].Arrives? && es[i].c == es[j].c ==>
      UsernameOf(es[i].p.src) == UsernameOf(es[j].p.src)
  }

  // Each connection is closed at most once.
  predicate ClosedOnce(es: seq<Event>) {
    forall i, j :: 0 <= i < j < |es| && es[i].Closed? && es[j].Closed? ==> es[i].c != es[j].c
  }

  // Nothing arrives on a connection once it has been closed.
  predicate SilentOnceClosed(es: seq<Event>) {
    forall i, j :: 0 <= i < j < |es| && es[i].Closed? && es[j].Arrives? ==> es[i].c != es[j].c
  }

  predicate HeardIn(es: seq<Event>, u: bytes, c: Id) {
    exists i :: 0 <= i < |es| && es[i].Arrives? && es[i].c == c && UsernameOf(es[i].p.src) == u
  }

  lemma {:induction false} HeardArrived(es: seq<Event>, u: bytes, c: Id)
    requires After(es).Some? && (u, c) in After(es).value.heard
    ensures HeardIn(es, u, c)
  {
    if es != [] {
      var before, e := es[..|es| - 1], es[|es| - 1];
      if (u, c) in After(before).value.heard {
        HeardArrived(before, u, c);
        var i :| 0 <= i < |before| && before[i].Arrives? && before[i].c == c && UsernameOf(before[i].p.src) == u;
        assert es[i] == before[i];
      } else {
        assert es[|es| - 1] == e;
      }
    }
  }

  lemma {:induction false} ArrivedWritable(es: seq<Event>, i: nat)
    requires After(es).Some? && i < |es| && es[i].Arrives?
    ensures Writable(es[i].p)
  {
    if i < |es| - 1 {
      assert es[..|es| - 1][i] == es[i];
      ArrivedWritable(es[..|es| - 1], i);
    }
    hide Writable;
  }

  // A route is that of the user name that a packet of the run had as its source, on the
  // connection it came on.
  lemma RoutesByName(es: seq<Event>, u: bytes)
    requires After(es).Some? && u in After(es).value.r.table
    ensures exists i :: 0 <= i < |es| && es[i].Arrives? && es[i].c == After(es).value.r.table[u]
                        && es[i].p.src.Some? && es[i].p.src.value.username == Some(u)
  {
    RoutesWereHeard(es);
    var c := After(es).value.r.table[u];
    HeardArrived(es, u, c);
    var i :| 0 <= i < |es| && es[i].Arrives? && es[i].c == c && UsernameOf(es[i].p.src) == u;
    ArrivedWritable(es, i);
    NamesThere(es[i].p);
    hide After, Writable;
  }

  lemma NamesThere(p: Packet)
    requires Writable(p)
    ensures p.src.Some? && p.src.value.username == Some(UsernameOf(p.src))
  {
  }

  lemma {:induction false} NeverClosedIsOpen(es: seq<Event>, c: Id)
    requires After(es).Some? && c in After(es).value.r.alive
    requires forall i :: 0 <= i < |es| ==> es[i] != Closed(c)
    ensures c in After(es).value.open
  {
    if es != [] {
      var before, e := es[..|es| - 1], es[|es| - 1];
      if e.Arrives? {
        ProcessedLearns(After(before).value.r, e.p, e.c);
      }
      if e != Open(c) {
        NeverClosedIsOpen(before, c);
      }
    }
  }

  lemma DisciplineIsOrderly(es: seq<Event>, e: Event)
    requires After(es).Some? && Enabled(After(es).value, e)
    requires OneSource(es + [e]) && ClosedOnce(es + [e]) && SilentOnceClosed(es + [e])
    requires Truthful(After(es).value) && Exact(After(es).value)
    ensures Orderly(After(es).value, e)
  {
    var s, n, all := After(es).value, |es|, es + [e];
    assert all[n] == e && forall i :: 0 <= i < n ==> all[i] == es[i];
    if e.Arrives? || e.Closed? {
      hide After, Writable, UsernameOf;
      forall i | 0 <= i < n
        ensures es[i] != Closed(e.c)
      {
        assert all[i] == es[i];
      }
      NeverClosedIsOpen(es, e.c);
      if e.Arrives? && e.c in s.r.names {
        var v := s.r.names[e.c];
        HeardArrived(es, v, e.c);
        var i :| 0 <= i < |es| && es[i].Arrives? && es[i].c == e.c && UsernameOf(es[i].p.src) == v;
        assert all[i] == es[i];
      }
    }
  }

  // When each connection uses one source name, is closed at most once, and is silent from
  // then on, the table maps u to c exactly when c is open with u stored.
  lemma {:induction false} RoutesAreOpenConnections(es: seq<Event>)
    requires After(es).Some? && OneSource(es) && ClosedOnce(es) && SilentOnceClosed(es)
    ensures Exact(After(es).value)
  {
    if es != [] {
      var before, e := es[..|es| - 1], es[|es| - 1];
      assert es == before + [e];
      RoutesAreOpenConnections(before);
      RoutesWereHeard(before);
      DisciplineIsOrderly(before, e);
      StepExact(After(before).value, e);
    }
  }

  // Such a run looks up a target that has a route exactly when the packet is for its own
  // sender or for the name that an open connection has stored.
  lemma LookupFindsWhenStored(es: seq<Event>, c: Id, p: Packet)
    requires After(es).Some? && Enabled(After(es).value, Arrives(c, p))
    requires OneSource(es) && ClosedOnce(es) && SilentOnceClosed(es)
    ensures var s, d := After(es).value, UsernameOf(p.dest);
            LookupFinds(s.r, p, c) <==>
              d == UsernameOf(p.src) || exists c' :: c' in s.open && c' in s.r.names && s.r.names[c'] == d
  {
    RoutesAreOpenConnections(es);
    hide After, UsernameOf, Writable;
  }

  // ----- all three conditions are needed -----

  function Call(u: bytes, v: bytes): Packet {
    var a := NO_ADDRESS.(username := Some(u), domain := Some([]));
    var b := NO_ADDRESS.(username := Some(v), domain := Some([]));
    NO_PACKET.(src := Some(a), dest := Some(b), ttl := Some(1), protocol := Some([]))
  }

  function From(u: bytes): Packet { Call(u, u) }

  const ALICE: bytes := [97]
  const BOB: bytes := [98]

  lemma NamedIsShort(a: Address)
    requires a.username.Some? && |a.username.value| < 128
    requires a == NO_ADDRESS.(username := a.username, domain := Some([]))
    ensures |SerializeAddress(a)| < 200
  {
    SplitAddress(a);
    LenBytesSize(1, a.username);
    LenBytesSize(2, a.domain);
    hide SerializeAddress, EncodeField, LenBytes, VarintBytes;
  }

  lemma CallIsWritable(u: bytes, v: bytes)
    requires |u| < 128 && |v| < 128
    ensures var p := Call(u, v); Writable(p) && UsernameOf(p.src) == u && UsernameOf(p.dest) == v
  {
    var p := Call(u, v);
    NamedIsShort(p.src.value);
    NamedIsShort(p.dest.value);
    LenFieldSize(1, SerializeAddress(p.src.value));
    LenFieldSize(2, SerializeAddress(p.dest.value));
    SerializeSize(p);
    VarintBytesSize(4, Wide(p.ttl));
    LenBytesSize(6, p.protocol);
    hide Serialize, SerializeAddress, EncodeField, LenBytes, VarintBytes;
  }

  // A packet from an unrouted source.
  lemma FirstPacket(es: seq<Event>, c: Id, u: bytes)
    requires |u| < 128 && After(es).Some? && c in After(es).value.r.alive && u !in After(es).value.r.table
    ensures var s, all := After(es).value, After(es + [Arrives(c, From(u))]);
            && all.Some? && all.value.r.table == s.r.table[u := c] && all.value.r.names == s.r.names[c := u]
            && all.value.r.alive == s.r.alive && all.value.open == s.open && all.value.ever == s.ever
  {
    CallIsWritable(u, u);
    AfterPush(es, Arrives(c, From(u)));
    ProcessedLearns(After(es).value.r, From(u), c);
    hide Writable, Processed, From;
  }

  // The first packet of a run, from Alice to Bob: the look-up finds nothing.
  lemma NoRouteYet()
    ensures var s := After([Open(0)]);
            s.Some? && Enabled(s.value, Arrives(0, Call(ALICE, BOB))) && !LookupFinds(s.value.r, Call(ALICE, BOB), 0)
  {
    AfterPush([], Open(0));
    assert [] + [Open(0)] == [Open(0)];
    CallIsWritable(ALICE, BOB);
    assert ALICE[0] != BOB[0];
    hide Writable, Call;
  }

  // A first connection, heard as Alice.
  lemma AliceCalls()
    ensures var es := [Open(0), Arrives(0, From(ALICE))];
            && After(es).Some? && After(es).value.r.table == map[ALICE := 0]
            && After(es).value.r.names == map[0 := ALICE]
            && After(es).value.r.alive == After(es).value.open == After(es).value.ever == {0}
  {
    AfterPush([], Open(0));
    assert [] + [Open(0)] == [Open(0)];
    FirstPacket([Open(0)], 0, ALICE);
    assert [Open(0)] + [Arrives(0, From(ALICE))] == [Open(0), Arrives(0, From(ALICE))];
  }

  // A connection that uses two names leaves the route of the first behind when it closes.
  lemma TwoNames()
    ensures var es := [Open(0), Arrives(0, From(ALICE)), Arrives(0, From(BOB)), Closed(0)];
            ClosedOnce(es) && SilentOnceClosed(es) && After(es).Some? && !Exact(After(es).value)
            && ALICE in After(es).value.r.table && 0 !in After(es).value.open
  {
    hide After, From;
    AliceCalls();
    var es := [Open(0), Arrives(0, From(ALICE))];
    FirstPacket(es, 0, BOB);
    AfterPush(es + [Arrives(0, From(BOB))], Closed(0));
    assert es + [Arrives(0, From(BOB))] + [Closed(0)]
        == [Open(0), Arrives(0, From(ALICE)), Arrives(0, From(BOB)), Closed(0)];
    var s := After([Open(0), Arrives(0, From(ALICE)), Arrives(0, From(BOB)), Closed(0)]).value;
    assert ALICE[0] != BOB[0];
    assert ALICE in s.r.table && s.r.table[ALICE] !in s.open;
  }

  // A connection closed a second time takes away the route of the one that uses its name now.
  lemma ClosedTwice()
    ensures var es := [Open(0), Arrives(0, From(ALICE)), Closed(0), Open(1), Arrives(1, From(ALICE)), Closed(0)];
            OneSource(es) && SilentOnceClosed(es) && After(es).Some? && !Exact(After(es).value)
            && 1 in After(es).value.open && 1 in After(es).value.r.names && ALICE !in After(es).value.r.table
  {
    hide After, From;
    AliceCalls();
    var es := [Open(0), Arrives(0, From(ALICE))];
    AfterPush(es, Closed(0));
    AfterPush(es + [Closed(0)], Open(1));
    FirstPacket(es + [Closed(0)] + [Open(1)], 1, ALICE);
    AfterPush(es + [Closed(0)] + [Open(1)] + [Arrives(1, From(ALICE))], Closed(0));
    assert es + [Closed(0)] + [Open(1)] + [Arrives(1, From(ALICE))] + [Closed(0)]
        == [Open(0), Arrives(0, From(ALICE)), Closed(0), Open(1), Arrives(1, From(ALICE)), Closed(0)];
    var s := After([Open(0), Arrives(0, From(ALICE)), Closed(0), Open(1), Arrives(1, From(ALICE)), Closed(0)]).value;
    assert s.r.names[1] !in s.r.table;
  }

  // A packet that arrives after the close brings the route back, and nothing takes it away.
  lemma HeardAfterClose()
    ensures var es := [Open(0), Arrives(0, From(ALICE)), Closed(0), Arrives(0, From(ALICE))];
            OneSource(es) && ClosedOnce(es) && After(es).Some? && !Exact(After(es).value)
            && ALICE in After(es).value.r.table && 0 !in After(es).value.open
  {
    hide After, From;
    AliceCalls();
    var es := [Open(0), Arrives(0, From(ALICE))];
    AfterPush(es, Closed(0));
    FirstPacket(es + [Closed(0)], 0, ALICE);
    assert es + [Closed(0)] + [Arrives(0, From(ALICE))]
        == [Open(0), Arrives(0, From(ALICE)), Closed(0), Arrives(0, From(ALICE))];
    var s := After([Open(0), Arrives(0, From(ALICE)), Closed(0), Arrives(0, From(ALICE))]).value;
    assert s.r.table[ALICE] !in s.open;
  }
}
