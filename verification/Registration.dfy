// Registrations running side by side over one user table. Each is a chain of steps: SELECT,
// INSERT, the answer of the certificate authority, and then UPDATE or, to undo the
// registration, DELETE. Every SQL statement is atomic and may fail; everything else happens
// in any order.
module Registration {
  import opened Bytes

  type Id = nat

  // A row of the user table, and the registration whose INSERT made it.
  datatype Row = Row(user: bytes, pubkey: bytes, mail: bytes, phone: bytes, cert: Option<bytes>, owner: Id)

  // How far register_user has come: its statements, its result waiting in the executor, the
  // request to the certificate authority.
  datatype Phase = Selecting | Inserting | Result(taken: bool) | Asking | Over

  // The calls of the handler of async_send_csr: -1, 1, and 0 with a certificate.
  datatype Answer = Down | Pending | Signed(cert: bytes)

  datatype Reply = NameTaken | CaDown | PendingCert | Succeed(cert: bytes)

  // `calls` are handler calls waiting in the executor, `rollback` and `update` statements
  // under way, and `callbacks` replies waiting to be written. The rest is history: the result
  // that register_user has reported, the certificate that the authority has issued, and
  // whether the INSERT and the DELETE of this registration have taken effect.
  datatype Task = Task(
    user: bytes, pubkey: bytes, mail: bytes, phone: bytes, phase: Phase, calls: seq<Answer>,
    rollback: bool, update: Option<bytes>, callbacks: seq<Reply>, replies: seq<Reply>,
    reported: Option<bool>, signed: Option<bytes>, inserted: bool, removed: bool)

  datatype State = State(rows: seq<Row>, tasks: seq<Task>)

  datatype Event =
    | Begin(user: bytes, pubkey: bytes, mail: bytes, phone: bytes)
    | Select(i: Id, error: bool)
    | Insert(i: Id, error: bool)
    | Report(i: Id)               // the result of register_user is handled
    | Answers(i: Id, a: Answer)   // the end of async_send_csr_coro
    | Call(i: Id)                 // a call of its handler runs
    | Delete(i: Id, error: bool)
    | Update(i: Id, error: bool)
    | Write(i: Id)                // a reply is written to the connection

  const START: State := State([], [])

  // ----- the statements -----

  predicate Has(rows: seq<Row>, user: bytes) { exists k :: 0 <= k < |rows| && rows[k].user == user }

  // DELETE ... WHERE user_id = :name
  function Without(rows: seq<Row>, user: bytes): seq<Row> {
    if rows == [] then []
    else if rows[0].user == user then Without(rows[1..], user)
    else [rows[0]] + Without(rows[1..], user)
  }

  // UPDATE ... SET cert WHERE user_id = :name
  function Certified(rows: seq<Row>, user: bytes, cert: bytes): seq<Row> {
    seq(|rows|, k requires 0 <= k < |rows| => if rows[k].user == user then rows[k].(cert := Some(cert)) else rows[k])
  }

  // ----- the steps -----

  predicate Enabled(s: State, e: Event) {
    match e
    case Begin(user, _, _, _) => user != []
    case Select(i, _) => i < |s.tasks| && s.tasks[i].phase.Selecting?
    case Insert(i, _) => i < |s.tasks| && s.tasks[i].phase.Inserting?
    case Report(i) => i < |s.tasks| && s.tasks[i].phase.Result?
    case Answers(i, _) => i < |s.tasks| && s.tasks[i].phase.Asking?
    case Call(i) => i < |s.tasks| && s.tasks[i].calls != []
    case Delete(i, _) => i < |s.tasks| && s.tasks[i].rollback
    case Update(i, _) => i < |s.tasks| && s.tasks[i].update.Some?
    case Write(i) => i < |s.tasks| && s.tasks[i].callbacks != []
  }

  function With(s: State, i: Id, t: Task): State
    requires i < |s.tasks|
  {
    s.(tasks := s.tasks[i := t])
  }

  function Stepped(s: State, e: Event): State
    requires Enabled(s, e)
  {
    match e
    case Begin(user, pubkey, mail, phone) =>
      s.(tasks := s.tasks
         + [Task(user, pubkey, mail, phone, Selecting, [], false, None, [], [], None, None, false, false)])
    case Select(i, error) =>
      var t := s.tasks[i];
      With(s, i, if error || Has(s.rows, t.user) then t.(phase := Result(true), reported := Some(false))
                 else t.(phase := Inserting))
    case Insert(i, error) =>
      // The primary key refuses a second row of the same user.
      var t := s.tasks[i];
      if error || Has(s.rows, t.user) then With(s, i, t.(phase := Result(true), reported := Some(false)))
      else With(s, i, t.(phase := Result(false), reported := Some(true), inserted := true))
             .(rows := s.rows + [Row(t.user, t.pubkey, t.mail, t.phone, None, i)])
    case Report(i) =>
      var t := s.tasks[i];
      With(s, i, if t.phase.taken then t.(phase := Over, replies := t.replies + [NameTaken]) else t.(phase := Asking))
    case Answers(i, a) =>
      // A certificate is followed by a second call, which says that it is pending.
      var t := s.tasks[i];
      With(s, i, if a.Signed? then t.(phase := Over, calls := t.calls + [a, Pending], signed := Some(a.cert))
                 else t.(phase := Over, calls := t.calls + [a]))
    case Call(i) =>
      var t := s.tasks[i];
      var t' := t.(calls := t.calls[1..]);
      With(s, i, match t.calls[0]
                 case Down => t'.(rollback := true)
                 case Pending => t'.(replies := t.replies + [PendingCert])
                 case Signed(cert) => t'.(update := Some(cert)))
    case Delete(i, error) =>
      // The reply does not depend on whether the statement has worked.
      var t := s.tasks[i];
      var s' := With(s, i, t.(rollback := false, callbacks := t.callbacks + [CaDown], removed := t.removed || !error));
      if error then s' else s'.(rows := Without(s.rows, t.user))
    case Update(i, error) =>
      var t := s.tasks[i];
      var s' := With(s, i, t.(update := None, callbacks := t.callbacks + [Succeed(t.update.value)]));
      if error then s' else s'.(rows := Certified(s.rows, t.user, t.update.value))
    case Write(i) =>
      var t := s.tasks[i];
      With(s, i, t.(callbacks := t.callbacks[1..], replies := t.replies + [t.callbacks[0]]))
  }

  // The state after a sequence of events, if each could happen when it did.
  function After(es: seq<Event>): Option<State> {
    if es == [] then Some(START)
    else
      match After(es[..|es| - 1])
      case None => None
      case Some(s) => if Enabled(s, es[|es| - 1]) then Some(Stepped(s, es[|es| - 1])) else None
  }

  // ----- the module -----

  // The table, and the registrations under way. What each step leaves to the database, an
  // error, comes back from it.
  class RegisterModule {
    var rows: seq<Row>
    var tasks: seq<Task>

    function View(): State
      reads this
    {
      State(rows, tasks)
    }

    constructor ()
      ensures View() == START
    {
      rows, tasks := [], [];
    }

    // Nothing is done for an empty name; a request that does not verify is refused at once,
    // and no registration begins.
    method UserRegister(user: bytes, pubkey: bytes, mail: bytes, phone: bytes, verified: bool) returns (refused: bool)
      modifies this
      ensures refused <==> user != [] && !verified
      ensures View() == if user == [] || !verified then old(View())
                        else Stepped(old(View()), Begin(user, pubkey, mail, phone))
      ensures rows == old(rows)
      ensures user != [] && verified ==>
                && |tasks| == |old(tasks)| + 1 && tasks[..|old(tasks)|] == old(tasks)
                && var t := tasks[|old(tasks)|];
                && t.user == user && t.pubkey == pubkey && t.mail == mail && t.phone == phone && t.phase.Selecting?
    {
      if user == [] { return false; }
      if !verified { return true; }
      tasks := tasks + [Applicant(user).(pubkey := pubkey, mail := mail, phone := phone)];
      return false;
    }

    method SelectStatement(i: Id) returns (error: bool)
      requires Enabled(View(), Select(i, false))
      modifies this
      ensures View() == Stepped(old(View()), Select(i, error))
    {
      var failed: bool := *;
      error := failed;
      var t := tasks[i];
      if error {
        tasks := tasks[i := t.(phase := Result(true), reported := Some(false))];
        return;
      }
      if Has(rows, t.user) {
        tasks := tasks[i := t.(phase := Result(true), reported := Some(false))];
        return;
      }
      tasks := tasks[i := t.(phase := Inserting)];
    }

    method InsertStatement(i: Id) returns (error: bool)
      requires Enabled(View(), Insert(i, false))
      modifies this
      ensures View() == Stepped(old(View()), Insert(i, error))
    {
      var failed: bool := *;
      error := failed;
      var t := tasks[i];
      if error || Has(rows, t.user) {
        tasks := tasks[i := t.(phase := Result(true), reported := Some(false))];
        return;
      }
      rows := rows + [Row(t.user, t.pubkey, t.mail, t.phone, None, i)];
      tasks := tasks[i := t.(phase := Result(false), reported := Some(true), inserted := true)];
    }

    // The handler of register_user.
    method OnRegistered(i: Id)
      requires Enabled(View(), Report(i))
      modifies this
      ensures View() == Stepped(old(View()), Report(i))
    {
      var t := tasks[i];
      if !t.phase.taken {
        tasks := tasks[i := t.(phase := Asking)];
      } else {
        tasks := tasks[i := t.(phase := Over, replies := t.replies + [NameTaken])];
      }
    }

    // The end of async_send_csr_coro, after the authority's two messages: the fingerprints of
    // the requests it has taken, and the fingerprint and text of a certificate, each if a
    // message of that kind has come. The handler is posted with -1; or with 0 if the
    // certificate is the one asked for, and then with 1 in any case.
    method SendCsr(i: Id, fingerprint: bytes, taken: Option<seq<bytes>>, readable: bool, pushed: Option<(bytes, bytes)>)
      requires Enabled(View(), Answers(i, Down))
      modifies this
      ensures View() == Stepped(old(View()), Answers(i,
                if taken.None? || fingerprint !in taken.value then Down
                else if readable && pushed.Some? && pushed.value.0 == fingerprint then Signed(pushed.value.1)
                else Pending))
    {
      var t := tasks[i];
      var ready := false;
      if taken.Some? {
        for k := 0 to |taken.value|
          invariant ready <==> fingerprint in taken.value[..k]
        {
          if taken.value[k] == fingerprint { ready := true; }
          assert taken.value[..k + 1] == taken.value[..k] + [taken.value[k]];
        }
        assert taken.value[..|taken.value|] == taken.value;
      }
      if !ready {
        tasks := tasks[i := t.(phase := Over, calls := t.calls + [Down])];
        return;
      }
      var calls, signed := t.calls, t.signed;
      if readable && pushed.Some? && pushed.value.0 == fingerprint {
        calls, signed := calls + [Signed(pushed.value.1)], Some(pushed.value.1);
        assert calls + [Pending] == t.calls + [Signed(pushed.value.1), Pending];
      }
      calls := calls + [Pending];
      tasks := tasks[i := t.(phase := Over, calls := calls, signed := signed)];
    }

    // The handler of async_send_csr.
    method OnCsrSent(i: Id)
      requires Enabled(View(), Call(i))
      modifies this
      ensures View() == Stepped(old(View()), Call(i))
    {
      var t := tasks[i];
      var t' := t.(calls := t.calls[1..]);
      match t.calls[0]
      case Signed(cert) => tasks := tasks[i := t'.(update := Some(cert))];
      case Pending => tasks := tasks[i := t'.(replies := t.replies + [PendingCert])];
      case Down => tasks := tasks[i := t'.(rollback := true)];
    }

    method DeleteStatement(i: Id) returns (error: bool)
      requires Enabled(View(), Delete(i, false))
      modifies this
      ensures View() == Stepped(old(View()), Delete(i, error))
    {
      var failed: bool := *;
      error := failed;
      var t := tasks[i];
      if !error {
        rows := Without(rows, t.user);
      }
      tasks := tasks[i := t.(rollback := false, callbacks := t.callbacks + [CaDown], removed := t.removed || !error)];
    }

    method UpdateStatement(i: Id) returns (error: bool)
      requires Enabled(View(), Update(i, false))
      modifies this
      ensures View() == Stepped(old(View()), Update(i, error))
    {
      var failed: bool := *;
      error := failed;
      var t := tasks[i];
      if !error {
        rows := Certified(rows, t.user, t.update.value);
      }
      tasks := tasks[i := t.(update := None, callbacks := t.callbacks + [Succeed(t.update.value)])];
    }

    method WriteResponse(i: Id)
      requires Enabled(View(), Write(i))
      modifies this
      ensures View() == Stepped(old(View()), Write(i))
    {
      var t := tasks[i];
      tasks := tasks[i := t.(callbacks := t.callbacks[1..], replies := t.replies + [t.callbacks[0]])];
    }
  }

  // ----- what holds in every state -----

  predicate Unique(rows: seq<Row>) {
    forall k, l :: 0 <= k < l < |rows| ==> rows[k].user != rows[l].user
  }

  // The row is that of a registration whose INSERT has taken effect and whose DELETE has not,
  // with what was registered, and with no certificate but the one issued for it.
  predicate IsOf(row: Row, t: Task) {
    && t.inserted && !t.removed
    && row.user == t.user && row.pubkey == t.pubkey && row.mail == t.mail && row.phone == t.phone
    && (row.cert.Some? ==> row.cert == t.signed)
  }

  predicate Owned(s: State) {
    forall k :: 0 <= k < |s.rows| ==> s.rows[k].owner < |s.tasks| && IsOf(s.rows[k], s.tasks[s.rows[k].owner])
  }

  predicate Owns(rows: seq<Row>, i: Id) { exists k :: 0 <= k < |rows| && rows[k].owner == i }

  predicate Present(s: State) {
    forall i :: 0 <= i < |s.tasks| && s.tasks[i].inserted && !s.tasks[i].removed ==> Owns(s.rows, i)
  }

  // A registration reports true exactly when its INSERT has taken effect, asks for a
  // certificate only then, and then has one of the three answers to deal with.
  predicate Consistent(t: Task) {
    && (t.reported == Some(true) <==> t.inserted)
    && (t.phase.Selecting? || t.phase.Inserting? ==> t.reported.None? && t.replies == [])
    && (t.phase.Result? ==> t.reported == Some(!t.phase.taken) && t.replies == [])
    && (t.phase.Asking? ==> t.inserted && t.replies == [])
    && (!t.phase.Over?
        ==> t.calls == [] && !t.rollback && t.update.None? && t.callbacks == [] && t.signed.None? && !t.removed)
    && (t.phase.Over? ==> if t.inserted then Answered(t) else Rejected(t))
  }

  predicate Rejected(t: Task) {
    t.calls == [] && !t.rollback && t.update.None? && t.callbacks == [] && t.replies == [NameTaken] && t.signed.None?
    && !t.removed
  }

  predicate Answered(t: Task) {
    if t.signed.Some? then AnsweredSigned(t, t.signed.value)
    else if t.calls == [Pending] || PendingCert in t.replies then AnsweredPending(t)
    else AnsweredDown(t)
  }

  predicate AnsweredPending(t: Task) {
    && !t.removed && !t.rollback && t.update.None? && t.callbacks == []
    && ((t.calls == [Pending] && t.replies == []) || (t.calls == [] && t.replies == [PendingCert]))
  }

  predicate AnsweredDown(t: Task) {
    && t.update.None?
    && (t.removed ==> t.calls == [] && !t.rollback)
    && (   (t.calls == [Down] && !t.rollback && t.callbacks == [] && t.replies == [])
        || (t.calls == [] && t.rollback && t.callbacks == [] && t.replies == [])
        || (t.calls == [] && !t.rollback && t.callbacks == [CaDown] && t.replies == [])
        || (t.calls == [] && !t.rollback && t.callbacks == [] && t.replies == [CaDown]))
  }

  predicate AnsweredSigned(t: Task, cert: bytes) {
    && !t.removed && !t.rollback
    && (t.update.Some? ==> t.update.value == cert)
    && (   (t.calls == [Signed(cert), Pending] && t.update.None? && t.callbacks == [] && t.replies == [])
        || (t.calls == [Pending] && t.update.Some? && t.callbacks == [] && t.replies == [])
        || (t.calls == [Pending] && t.update.None? && t.callbacks == [Succeed(cert)] && t.replies == [])
        || (t.calls == [Pending] && t.update.None? && t.callbacks == [] && t.replies == [Succeed(cert)])
        || (t.calls == [] && t.update.Some? && t.callbacks == [] && t.replies == [PendingCert])
        || (t.calls == [] && t.update.None? && t.callbacks == [Succeed(cert)] && t.replies == [PendingCert])
        || (t.calls == [] && t.update.None? && t.callbacks == [] && t.replies == [PendingCert, Succeed(cert)])
        || (t.calls == [] && t.update.None? && t.callbacks == [] && t.replies == [Succeed(cert), PendingCert]))
  }

  predicate Inv(s: State) {
    Unique(s.rows) && Owned(s) && Present(s) && forall i :: 0 <= i < |s.tasks| ==> Consistent(s.tasks[i])
  }

  // The registration the event is about.
  function Actor(e: Event): Id {
    match e
    case Begin(_, _, _, _) => 0
    case Select(i, _) => i
    case Insert(i, _) => i
    case Report(i) => i
    case Answers(i, _) => i
    case Call(i) => i
    case Delete(i, _) => i
    case Update(i, _) => i
    case Write(i) => i
  }

  // ----- each step keeps it -----

  lemma TaskConsistent(s: State, e: Event)
    requires Enabled(s, e) && !e.Begin? && Consistent(s.tasks[Actor(e)])
    ensures Consistent(Stepped(s, e).tasks[Actor(e)])
  {
    if e.Select? || e.Insert? || e.Report? || e.Answers? {
      EarlyConsistent(s, e);
    } else if e.Call? || e.Write? {
      CallConsistent(s, e);
    } else {
      StatementConsistent(s, e);
    }
  }

  lemma EarlyConsistent(s: State, e: Event)
    requires Enabled(s, e) && (e.Select? || e.Insert? || e.Report? || e.Answers?) && Consistent(s.tasks[Actor(e)])
    ensures Consistent(Stepped(s, e).tasks[Actor(e)])
  {
    hide Without, Certified, Has;
  }

  lemma CallConsistent(s: State, e: Event)
    requires Enabled(s, e) && (e.Call? || e.Write?) && Consistent(s.tasks[Actor(e)])
    ensures Consistent(Stepped(s, e).tasks[Actor(e)])
  {
    hide Without, Certified, Has;
  }

  lemma StatementConsistent(s: State, e: Event)
    requires Enabled(s, e) && (e.Delete? || e.Update?) && Consistent(s.tasks[Actor(e)])
    ensures Consistent(Stepped(s, e).tasks[Actor(e)])
  {
    hide Without, Certified, Has;
  }

  // The rows of the other registrations.
  function Others(rows: seq<Row>, i: Id): seq<Row> {
    if rows == [] then []
    else if rows[0].owner == i then Others(rows[1..], i)
    else [rows[0]] + Others(rows[1..], i)
  }

  // In a table without two rows of one user, the row of task i is the only one with its name.
  lemma OwnName(s: State, i: Id)
    requires Inv(s) && i < |s.tasks| && s.tasks[i].inserted && !s.tasks[i].removed
    ensures forall k :: 0 <= k < |s.rows| ==> (s.rows[k].user == s.tasks[i].user <==> s.rows[k].owner == i)
  {
    hide Consistent;
    var k :| 0 <= k < |s.rows| && s.rows[k].owner == i;
    assert IsOf(s.rows[k], s.tasks[i]);
  }

  lemma {:induction false} WithoutIsOthers(rows: seq<Row>, user: bytes, i: Id)
    requires forall k :: 0 <= k < |rows| ==> (rows[k].user == user <==> rows[k].owner == i)
    ensures Without(rows, user) == Others(rows, i)
  {
    if rows != [] {
      assert forall k :: 0 <= k < |rows| - 1 ==> rows[1..][k] == rows[k + 1];
      WithoutIsOthers(rows[1..], user, i);
    }
  }

  lemma {:induction false} CertifiedKeepsOthers(rows: seq<Row>, user: bytes, i: Id, cert: bytes)
    requires forall k :: 0 <= k < |rows| ==> (rows[k].user == user <==> rows[k].owner == i)
    ensures Others(Certified(rows, user, cert), i) == Others(rows, i)
  {
    if rows != [] {
      assert forall k :: 0 <= k < |rows| - 1 ==> rows[1..][k] == rows[k + 1];
      CertifiedKeepsOthers(rows[1..], user, i, cert);
      assert Certified(rows, user, cert)[1..] == Certified(rows[1..], user, cert);
    }
  }

  // What is left after a DELETE: rows that were there, in a table that is still unique, of
  // every other name.
  lemma {:induction false} WithoutFacts(rows: seq<Row>, user: bytes)
    ensures forall r <- Without(rows, user) :: r in rows && r.user != user
    ensures forall r <- rows :: r.user != user ==> r in Without(rows, user)
    ensures Unique(rows) ==> Unique(Without(rows, user))
  {
    if rows != [] {
      WithoutFacts(rows[1..], user);
      assert Unique(rows) ==> Unique(rows[1..]);
      if Unique(rows) {
        forall r <- Without(rows[1..], user)
          ensures r.user != rows[0].user
        {
          var k :| 0 <= k < |rows[1..]| && rows[1..][k] == r;
          assert rows[k + 1] == r;
        }
      }
    }
  }

  lemma RowsBegin(s: State, e: Event)
    requires Inv(s) && Enabled(s, e) && e.Begin?
    ensures Inv(Stepped(s, e))
  {
    var t := Task(e.user, e.pubkey, e.mail, e.phone, Selecting, [], false, None, [], [], None, None, false, false);
    assert Stepped(s, e) == s.(tasks := s.tasks + [t]) && Consistent(t);
    TaskAdded(s, t);
  }

  lemma TaskAdded(s: State, t: Task)
    requires Inv(s) && Consistent(t) && !t.inserted
    ensures Inv(s.(tasks := s.tasks + [t]))
  {
    hide Consistent;
  }

  // The steps that run no statement of their own.
  lemma RowsKept(s: State, i: Id, t': Task)
    requires Inv(s) && i < |s.tasks| && Consistent(t')
    requires var t := s.tasks[i];
             && t'.inserted == t.inserted && t'.removed == t.removed
             && t'.user == t.user && t'.pubkey == t.pubkey && t'.mail == t.mail && t'.phone == t.phone
             && (t.signed.Some? ==> t'.signed == t.signed)
    ensures Inv(With(s, i, t'))
  {
    hide Consistent, Unique;
  }

  lemma RowsInsert(s: State, e: Event)
    requires Inv(s) && Enabled(s, e) && e.Insert? && !e.error && !Has(s.rows, s.tasks[e.i].user)
    ensures Inv(Stepped(s, e))
  {
    TaskConsistent(s, e);
    var t, s' := s.tasks[e.i], Stepped(s, e);
    assert Consistent(t);
    hide Consistent;
    forall k | 0 <= k < |s.rows|
      ensures s.rows[k].owner != e.i
    {
      assert IsOf(s.rows[k], s.tasks[s.rows[k].owner]);
    }
    assert s'.rows[|s.rows|].owner == e.i;
    assert forall k :: 0 <= k < |s.rows| ==> s'.rows[k] == s.rows[k];
    forall i | 0 <= i < |s.tasks| && s'.tasks[i].inserted && !s'.tasks[i].removed
      ensures Owns(s'.rows, i)
    {
      if i != e.i {
        var k :| 0 <= k < |s.rows| && s.rows[k].owner == i;
        assert s'.rows[k].owner == i;
      }
    }
  }

  lemma RowsDelete(s: State, e: Event)
    requires Inv(s) && Enabled(s, e) && e.Delete? && !e.error
    ensures Inv(Stepped(s, e))
  {
    TaskConsistent(s, e);
    var t, s' := s.tasks[e.i], Stepped(s, e);
    assert Consistent(t) && t.inserted && !t.removed;
    OwnName(s, e.i);
    WithoutFacts(s.rows, t.user);
    hide Consistent, Unique, Without;
    forall k | 0 <= k < |s'.rows|
      ensures s'.rows[k].owner < |s'.tasks| && IsOf(s'.rows[k], s'.tasks[s'.rows[k].owner])
    {
      assert s'.rows[k] in s'.rows;
      var l :| 0 <= l < |s.rows| && s.rows[l] == s'.rows[k];
    }
    forall i | 0 <= i < |s.tasks| && s'.tasks[i].inserted && !s'.tasks[i].removed
      ensures Owns(s'.rows, i)
    {
      var k :| 0 <= k < |s.rows| && s.rows[k].owner == i;
      assert s.rows[k] in s'.rows;
    }
  }

  lemma RowsUpdate(s: State, e: Event)
    requires Inv(s) && Enabled(s, e) && e.Update? && !e.error
    ensures Inv(Stepped(s, e))
  {
    TaskConsistent(s, e);
    var t, s' := s.tasks[e.i], Stepped(s, e);
    assert Consistent(t) && t.inserted && !t.removed && t.signed == t.update;
    OwnName(s, e.i);
    hide Consistent;
    assert forall k :: 0 <= k < |s.rows| ==> s'.rows[k].user == s.rows[k].user && s'.rows[k].owner == s.rows[k].owner;
    forall i | 0 <= i < |s.tasks| && s'.tasks[i].inserted && !s'.tasks[i].removed
      ensures Owns(s'.rows, i)
    {
      var k :| 0 <= k < |s.rows| && s.rows[k].owner == i;
      assert s'.rows[k].owner == i;
    }
  }

  lemma StepKeeps(s: State, e: Event)
    requires Inv(s) && Enabled(s, e)
    ensures Inv(Stepped(s, e))
  {
    if e.Begin? {
      RowsBegin(s, e);
    } else {
      TaskConsistent(s, e);
      if e.Insert? && !e.error && !Has(s.rows, s.tasks[e.i].user) {
        RowsInsert(s, e);
      } else if e.Delete? && !e.error {
        RowsDelete(s, e);
      } else if e.Update? && !e.error {
        RowsUpdate(s, e);
      } else {
        StepIsQuiet(s, e);
        RowsKept(s, Actor(e), Stepped(s, e).tasks[Actor(e)]);
      }
    }
  }

  lemma StepIsQuiet(s: State, e: Event)
    requires Enabled(s, e) && !e.Begin? && Consistent(s.tasks[Actor(e)])
    requires e.Insert? ==> e.error || Has(s.rows, s.tasks[e.i].user)
    requires e.Delete? || e.Update? ==> e.error
    ensures var t, t' := s.tasks[Actor(e)], Stepped(s, e).tasks[Actor(e)];
            && t'.inserted == t.inserted && t'.removed == t.removed
            && t'.user == t.user && t'.pubkey == t.pubkey && t'.mail == t.mail && t'.phone == t.phone
            && (t.signed.Some? ==> t'.signed == t.signed)
    ensures Stepped(s, e) == With(s, Actor(e), Stepped(s, e).tasks[Actor(e)])
  {
    hide Without, Certified, Has, Answered, Rejected;
  }

  lemma {:induction false} Reachable(es: seq<Event>)
    requires After(es).Some?
    ensures Inv(After(es).value)
  {
    if es != [] {
      Reachable(es[..|es| - 1]);
      StepKeeps(After(es[..|es| - 1]).value, es[|es| - 1]);
    }
  }

  // ----- what this means for registrations -----

  // A rollback or a certificate update that is under way finds exactly one row, that of its
  // own registration; and it leaves the rows of all others as they are.
  lemma OwnRowOnly(es: seq<Event>, e: Event)
    requires After(es).Some? && Enabled(After(es).value, e) && (e.Delete? || e.Update?)
    ensures var s, s' := After(es).value, Stepped(After(es).value, e);
            && Owns(s.rows, e.i) && s.tasks[e.i].inserted
            && (forall k :: 0 <= k < |s.rows| ==> (s.rows[k].user == s.tasks[e.i].user <==> s.rows[k].owner == e.i))
            && Others(s'.rows, e.i) == Others(s.rows, e.i)
            && (e.Delete? && !e.error ==> s'.rows == Others(s.rows, e.i))
            && (e.Update? && !e.error ==> |s'.rows| == |s.rows|)
            && (e.Update? && !e.error ==> forall k :: 0 <= k < |s.rows| && s.rows[k].owner == e.i ==>
                  s'.rows[k] == s.rows[k].(cert := s.tasks[e.i].signed))
  {
    Reachable(es);
    var s := After(es).value;
    assert Consistent(s.tasks[e.i]);
    OwnName(s, e.i);
    WithoutIsOthers(s.rows, s.tasks[e.i].user, e.i);
    if e.Delete? {
      OthersTwice(s.rows, e.i);
    } else {
      CertifiedKeepsOthers(s.rows, s.tasks[e.i].user, e.i, s.tasks[e.i].update.value);
    }
  }

  lemma {:induction false} OthersTwice(rows: seq<Row>, i: Id)
    ensures Others(Others(rows, i), i) == Others(rows, i)
  {
    if rows != [] {
      OthersTwice(rows[1..], i);
    }
  }

  // Nothing is left to happen to the registration.
  predicate Done(t: Task) { t.phase.Over? && t.calls == [] && !t.rollback && t.update.None? && t.callbacks == [] }

  // A finished registration has been answered once, or, exactly when the authority has
  // signed, twice: that it has succeeded and, before or after, that the certificate is pending.
  lemma RepliesWhenDone(es: seq<Event>, i: Id)
    requires After(es).Some? && i < |After(es).value.tasks| && Done(After(es).value.tasks[i])
    ensures var t := After(es).value.tasks[i];
            && (|t.replies| == 2 <==> t.signed.Some?) && (|t.replies| == 1 <==> t.signed.None?)
            && (t.signed.Some? ==> Succeed(t.signed.value) in t.replies && PendingCert in t.replies)
            && (t.replies == [NameTaken] <==> !t.inserted) && (NameTaken in t.replies <==> !t.inserted)
            && (CaDown in t.replies ==> t.inserted) && (t.removed ==> t.replies == [CaDown])
  {
    Reachable(es);
    assert Consistent(After(es).value.tasks[i]);
    hide Stepped;
  }

  // ----- what a reply says of the table -----

  predicate Stored(rows: seq<Row>, i: Id, cert: bytes) {
    exists k :: 0 <= k < |rows| && rows[k].owner == i && rows[k].cert == Some(cert)
  }

  predicate Certificated(rows: seq<Row>, i: Id) {
    exists k :: 0 <= k < |rows| && rows[k].owner == i && rows[k].cert.Some?
  }

  // A registration that has not begun has no events.
  lemma {:induction false} BegunFirst(es: seq<Event>, e: Event)
    requires After(es).Some? && e in es && !e.Begin?
    ensures Actor(e) < |After(es).value.tasks|
  {
    var before, last := es[..|es| - 1], es[|es| - 1];
    hide Without, Certified, Has;
    if e in before {
      BegunFirst(before, e);
    }
  }

  lemma InLast(es: seq<Event>, e: Event)
    requires es != []
    ensures e in es <==> e in es[..|es| - 1] || e == es[|es| - 1]
  {
    assert es == es[..|es| - 1] + [es[|es| - 1]];
  }

  // The history flag of a removal is the DELETE that has worked.
  lemma {:induction false} RemovedByDelete(es: seq<Event>, i: Id)
    requires After(es).Some? && i < |After(es).value.tasks|
    ensures After(es).value.tasks[i].removed <==> Delete(i, false) in es
  {
    var before, e := es[..|es| - 1], es[|es| - 1];
    InLast(es, Delete(i, false));
    var s := After(before).value;
    hide Without, Certified, Has;
    if i < |s.tasks| {
      RemovedByDelete(before, i);
    } else if Delete(i, false) in before {
      BegunFirst(before, Delete(i, false));
    }
  }

  predicate Asks(e: Event, i: Id) { e == Select(i, false) || e == Insert(i, false) }

  // The table had a row of the name before the k-th event.
  predicate HadName(es: seq<Event>, k: nat, user: bytes)
    requires k <= |es|
  {
    After(es[..k]).Some? && Has(After(es[..k]).value.rows, user)
  }

  // A statement of the registration has worked and found the name in the table.
  predicate FoundName(es: seq<Event>, i: Id, user: bytes) {
    exists k :: 0 <= k < |es| && Asks(es[k], i) && HadName(es, k, user)
  }

  // The INSERT of the registration has worked and found the name free.
  predicate InsertedName(es: seq<Event>, i: Id, user: bytes) {
    exists k :: 0 <= k < |es| && es[k] == Insert(i, false) && !HadName(es, k, user)
  }

  predicate Erred(es: seq<Event>, i: Id) { Select(i, true) in es || Insert(i, true) in es }

  // What the last event adds.
  lemma LastFound(es: seq<Event>, i: Id, user: bytes)
    requires es != []
    ensures var n := |es| - 1;
            FoundName(es, i, user) <==> FoundName(es[..n], i, user) || (Asks(es[n], i) && HadName(es, n, user))
  {
    var before, n := es[..|es| - 1], |es| - 1;
    assert forall k :: 0 <= k < n ==> before[..k] == es[..k] && before[k] == es[k];
    hide After, Has;
    if FoundName(before, i, user) {
      var k :| 0 <= k < n && Asks(before[k], i) && HadName(before, k, user);
      assert Asks(es[k], i) && HadName(es, k, user);
    }
    if FoundName(es, i, user) {
      var k :| 0 <= k < |es| && Asks(es[k], i) && HadName(es, k, user);
      assert k < n ==> Asks(before[k], i) && HadName(before, k, user);
    }
  }

  lemma LastInserted(es: seq<Event>, i: Id, user: bytes)
    requires es != []
    ensures var n := |es| - 1;
            InsertedName(es, i, user)
            <==> InsertedName(es[..n], i, user) || (es[n] == Insert(i, false) && !HadName(es, n, user))
  {
    var before, n := es[..|es| - 1], |es| - 1;
    assert forall k :: 0 <= k < n ==> before[..k] == es[..k] && before[k] == es[k];
    hide After, Has;
    if InsertedName(before, i, user) {
      var k :| 0 <= k < n && before[k] == Insert(i, false) && !HadName(before, k, user);
      assert es[k] == Insert(i, false) && !HadName(es, k, user);
    }
    if InsertedName(es, i, user) {
      var k :| 0 <= k < |es| && es[k] == Insert(i, false) && !HadName(es, k, user);
      assert k < n ==> before[k] == Insert(i, false) && !HadName(before, k, user);
    }
  }

  lemma LastErred(es: seq<Event>, i: Id)
    requires es != []
    ensures Erred(es, i)
       <==> Erred(es[..|es| - 1], i) || es[|es| - 1] == Select(i, true) || es[|es| - 1] == Insert(i, true)
  {
    InLast(es, Select(i, true));
    InLast(es, Insert(i, true));
  }

  // A registration that has not begun has no history.
  lemma NoHistory(es: seq<Event>, i: Id, user: bytes)
    requires After(es).Some? && i >= |After(es).value.tasks|
    ensures !FoundName(es, i, user) && !InsertedName(es, i, user) && !Erred(es, i)
  {
    hide After, HadName;
    forall e | e in es && !e.Begin?
      ensures Actor(e) != i
    {
      BegunFirst(es, e);
    }
    assert forall k :: 0 <= k < |es| ==> es[k] in es;
  }

  predicate Recorded(t: Task, found: bool, inserted: bool, erred: bool) {
    && (t.inserted <==> inserted)
    && (t.reported == Some(false) <==> found || erred) && !(found && erred)
    && (t.reported.None? <==> t.phase.Selecting? || t.phase.Inserting?)
  }

  lemma RecordStep(s: State, e: Event, i: Id, found: bool, inserted: bool, erred: bool)
    requires Enabled(s, e) && i < |s.tasks| && Consistent(s.tasks[i]) && Recorded(s.tasks[i], found, inserted, erred)
    ensures var t, t' := s.tasks[i], Stepped(s, e).tasks[i];
            && t'.user == t.user
            && Recorded(t', found || (Asks(e, i) && Has(s.rows, t.user)),
                        inserted || (e == Insert(i, false) && !Has(s.rows, t.user)),
                        erred || e == Select(i, true) || e == Insert(i, true))
  {
    hide Without, Certified, Has, Rejected, Answered;
    if e.Begin? || Actor(e) != i {
      OthersAlone(s, e, i);
      hide Stepped;
    }
  }

  lemma OthersAlone(s: State, e: Event, i: Id)
    requires Enabled(s, e) && i < |s.tasks| && (e.Begin? || Actor(e) != i)
    ensures Stepped(s, e).tasks[i] == s.tasks[i]
  {
    hide Without, Certified, Has;
  }

  // The history flags of a registration are its events: its INSERT has worked on a free name;
  // and it has been refused for a name that was there or for a failed statement, never both.
  lemma {:induction false} History(es: seq<Event>, i: Id)
    requires After(es).Some? && i < |After(es).value.tasks|
    ensures var t := After(es).value.tasks[i];
            Recorded(t, FoundName(es, i, t.user), InsertedName(es, i, t.user), Erred(es, i))
  {
    var before, e := es[..|es| - 1], es[|es| - 1];
    var s, t := After(before).value, After(es).value.tasks[i];
    LastFound(es, i, t.user);
    LastInserted(es, i, t.user);
    LastErred(es, i);
    hide Without, Certified, Has, FoundName, InsertedName, Erred, Consistent;
    if i < |s.tasks| {
      History(before, i);
      Reachable(before);
      RecordStep(s, e, i, FoundName(before, i, s.tasks[i].user), InsertedName(before, i, s.tasks[i].user),
                 Erred(before, i));
      hide Stepped, Recorded;
    } else {
      NoHistory(before, i, t.user);
    }
  }

  // However registrations interleave: no two rows have the same name; a registration has
  // reported true exactly when its own INSERT has worked on a free name; and there is a row of
  // it exactly while that INSERT has not been undone by its own DELETE.
  lemma OneRowPerName(es: seq<Event>, i: Id)
    requires After(es).Some? && i < |After(es).value.tasks|
    ensures Unique(After(es).value.rows)
    ensures var t := After(es).value.tasks[i];
            && (t.reported == Some(true) <==> t.inserted) && (t.inserted <==> InsertedName(es, i, t.user))
            && (Owns(After(es).value.rows, i) <==> t.inserted && !t.removed)
            && (Owns(After(es).value.rows, i) <==> InsertedName(es, i, t.user) && Delete(i, false) !in es)
  {
    Reachable(es);
    History(es, i);
    RemovedByDelete(es, i);
    hide Stepped, After, InsertedName;
    var s := After(es).value;
    assert Consistent(s.tasks[i]);
    if Owns(s.rows, i) {
      var k :| 0 <= k < |s.rows| && s.rows[k].owner == i;
      assert IsOf(s.rows[k], s.tasks[s.rows[k].owner]);
    }
  }

  // A row has a certificate when the UPDATE of its registration has worked.
  lemma {:induction false} CertificateByUpdate(es: seq<Event>, i: Id)
    requires After(es).Some?
    ensures Certificated(After(es).value.rows, i) <==> Update(i, false) in es
  {
    if es != [] {
      var before, e := es[..|es| - 1], es[|es| - 1];
      InLast(es, Update(i, false));
      CertificateByUpdate(before, i);
      Reachable(before);
      CertificateStep(After(before).value, e, i);
    }
  }

  lemma CertificateStep(s: State, e: Event, i: Id)
    requires Inv(s) && Enabled(s, e)
    ensures Certificated(Stepped(s, e).rows, i) <==> Certificated(s.rows, i) || e == Update(i, false)
  {
    var rows' := Stepped(s, e).rows;
    if e.Insert? && rows' != s.rows {
      assert rows'[..|s.rows|] == s.rows && rows'[|s.rows|].cert.None?;
      assert forall k :: 0 <= k < |s.rows| ==> rows'[k] == s.rows[k];
    } else if e.Delete? && !e.error {
      DeleteCertificate(s, e, i);
    } else if e.Update? && !e.error {
      UpdateCertificate(s, e, i);
    }
  }

  lemma DeleteCertificate(s: State, e: Event, i: Id)
    requires Inv(s) && Enabled(s, e) && e.Delete? && !e.error
    ensures Certificated(Stepped(s, e).rows, i) <==> Certificated(s.rows, i)
  {
    var t, rows' := s.tasks[e.i], Stepped(s, e).rows;
    assert Consistent(t) && t.inserted && !t.removed && t.signed.None?;
    OwnName(s, e.i);
    WithoutFacts(s.rows, t.user);
    hide Consistent, Without, Unique;
    if Certificated(s.rows, i) {
      var k :| 0 <= k < |s.rows| && s.rows[k].owner == i && s.rows[k].cert.Some?;
      assert IsOf(s.rows[k], s.tasks[i]);
      assert s.rows[k] in rows';
    }
    if Certificated(rows', i) {
      var k :| 0 <= k < |rows'| && rows'[k].owner == i && rows'[k].cert.Some?;
      assert rows'[k] in rows';
    }
  }

  lemma UpdateCertificate(s: State, e: Event, i: Id)
    requires Inv(s) && Enabled(s, e) && e.Update? && !e.error
    ensures Certificated(Stepped(s, e).rows, i) <==> Certificated(s.rows, i) || e == Update(i, false)
  {
    var t, rows' := s.tasks[e.i], Stepped(s, e).rows;
    assert Consistent(t) && t.inserted && !t.removed;
    OwnName(s, e.i);
    hide Consistent, Unique;
    assert forall k :: 0 <= k < |s.rows| ==> rows'[k].owner == s.rows[k].owner;
    assert forall k :: 0 <= k < |s.rows| && s.rows[k].owner != e.i ==> rows'[k] == s.rows[k];
    var own :| 0 <= own < |s.rows| && s.rows[own].owner == e.i;
    assert rows'[own].owner == e.i && rows'[own].cert.Some?;
  }

  lemma RefusalIsRecorded(es: seq<Event>, i: Id)
    requires After(es).Some? && i < |After(es).value.tasks| && After(es).value.tasks[i].phase.Over?
    ensures var t := After(es).value.tasks[i]; !t.inserted ==> (FoundName(es, i, t.user) <==> !Erred(es, i))
  {
    History(es, i);
    Reachable(es);
    var t := After(es).value.tasks[i];
    assert Consistent(t);
    hide After, FoundName, InsertedName, Erred;
    assert t.reported.Some? && (t.reported.value || t.reported == Some(false));
  }

  // What the user has been told, against the table. A registration that has been told that
  // the name is taken has found it in the table exactly when neither of its statements has
  // failed; one that has been told that the authority is down has no row exactly when its
  // DELETE has worked; one that has been told that it has succeeded has its certificate stored
  // exactly when its UPDATE has worked.
  lemma RepliesAgainstTable(es: seq<Event>, i: Id)
    requires After(es).Some? && i < |After(es).value.tasks| && Done(After(es).value.tasks[i])
    ensures var s := After(es).value;
            && (NameTaken in s.tasks[i].replies ==> (FoundName(es, i, s.tasks[i].user) <==> !Erred(es, i)))
            && (CaDown in s.tasks[i].replies ==> (Owns(s.rows, i) <==> Delete(i, false) !in es))
            && (forall cert :: Succeed(cert) in s.tasks[i].replies ==>
                  (Stored(s.rows, i, cert) <==> Update(i, false) in es))
  {
    Reachable(es);
    RemovedByDelete(es, i);
    CertificateByUpdate(es, i);
    OneRowPerName(es, i);
    RepliesWhenDone(es, i);
    RefusalIsRecorded(es, i);
    var s := After(es).value;
    assert Consistent(s.tasks[i]);
    hide After, Stepped, Unique, FoundName, InsertedName, Erred;
    forall cert | Succeed(cert) in s.tasks[i].replies
      ensures Stored(s.rows, i, cert) <==> Certificated(s.rows, i)
    {
      assert s.tasks[i].signed == Some(cert);
      if Certificated(s.rows, i) {
        var k :| 0 <= k < |s.rows| && s.rows[k].owner == i && s.rows[k].cert.Some?;
        assert IsOf(s.rows[k], s.tasks[i]);
      }
    }
  }

  // ----- runs -----

  ghost predicate Leads(s: State, e: Event, s': State) { Enabled(s, e) && Stepped(s, e) == s' }

  lemma Step(es: seq<Event>, s: State, e: Event, s': State, es': seq<Event>)
    requires After(es) == Some(s) && Leads(s, e, s') && es' == es + [e]
    ensures After(es') == Some(s')
  {
    assert es'[..|es|] == es;
  }

  function Applicant(user: bytes): Task {
    Task(user, [], [], [], Selecting, [], false, None, [], [], None, None, false, false)
  }

  // A registration that is about to ask for its certificate.
  function Accepted(user: bytes): Task { Applicant(user).(phase := Asking, reported := Some(true), inserted := true) }

  function RowOf(user: bytes, cert: Option<bytes>): Row { Row(user, [], [], [], cert, 0) }

  // The first four events.
  function Opening(user: bytes): seq<Event> { [Begin(user, [], [], []), Select(0, false), Insert(0, false), Report(0)] }

  lemma Opens(user: bytes)
    requires user != []
    ensures After(Opening(user)) == Some(State([RowOf(user, None)], [Accepted(user)]))
  {
    hide After, Stepped, Enabled, Leads, Opened;
    var begin := Begin(user, [], [], []);
    StartIsEmpty();
    OpeningSteps(user);
    Step([], START, begin, Opened(user, 1), [begin]);
    Step([begin], Opened(user, 1), Select(0, false), Opened(user, 2), [begin, Select(0, false)]);
    Step([begin, Select(0, false)], Opened(user, 2), Insert(0, false), Opened(user, 3),
         [begin, Select(0, false), Insert(0, false)]);
    Step([begin, Select(0, false), Insert(0, false)], Opened(user, 3), Report(0),
         State([RowOf(user, None)], [Accepted(user)]), Opening(user));
  }

  lemma StartIsEmpty()
    ensures After([]) == Some(START)
  {
  }

  // The states on the way.
  function Opened(user: bytes, n: nat): State {
    var t := Applicant(user);
    if n == 1 then State([], [t])
    else if n == 2 then State([], [t.(phase := Inserting)])
    else State([RowOf(user, None)], [t.(phase := Result(false), reported := Some(true), inserted := true)])
  }

  lemma OpeningSteps(user: bytes)
    requires user != []
    ensures Leads(START, Begin(user, [], [], []), Opened(user, 1))
        && Leads(Opened(user, 1), Select(0, false), Opened(user, 2))
    ensures Leads(Opened(user, 2), Insert(0, false), Opened(user, 3))
    ensures Leads(Opened(user, 3), Report(0), State([RowOf(user, None)], [Accepted(user)]))
  {
    hide Without, Certified;
  }

  // A statement fails: the user is told that the name is taken, with no row in the table.
  lemma TakenByError(user: bytes, inserting: bool)
    requires user != []
    ensures var begin := Begin(user, [], [], []);
            var es := if inserting then [begin, Select(0, false), Insert(0, true), Report(0)]
                      else [begin, Select(0, true), Report(0)];
            && After(es).Some? && Done(After(es).value.tasks[0]) && After(es).value.tasks[0].replies == [NameTaken]
            && After(es).value.rows == []
  {
    var begin, t := Begin(user, [], [], []), Applicant(user).(reported := Some(false));
    var s2, s3 := State([], [t.(phase := Result(true))]), State([], [t.(phase := Over, replies := [NameTaken])]);
    OpeningSteps(user);
    ErrorSteps(user);
    StartIsEmpty();
    hide After, Stepped, Enabled, Leads, Opened;
    Step([], START, begin, Opened(user, 1), [begin]);
    if inserting {
      Step([begin], Opened(user, 1), Select(0, false), Opened(user, 2), [begin, Select(0, false)]);
      Step([begin, Select(0, false)], Opened(user, 2), Insert(0, true), s2, [begin, Select(0, false), Insert(0, true)]);
      Step([begin, Select(0, false), Insert(0, true)], s2, Report(0), s3,
           [begin, Select(0, false), Insert(0, true), Report(0)]);
    } else {
      Step([begin], Opened(user, 1), Select(0, true), s2, [begin, Select(0, true)]);
      Step([begin, Select(0, true)], s2, Report(0), s3, [begin, Select(0, true), Report(0)]);
    }
  }

  lemma ErrorSteps(user: bytes)
    ensures var t := Applicant(user).(reported := Some(false));
            && Leads(Opened(user, 1), Select(0, true), State([], [t.(phase := Result(true))]))
            && Leads(Opened(user, 2), Insert(0, true), State([], [t.(phase := Result(true))]))
            && Leads(State([], [t.(phase := Result(true))]), Report(0),
                     State([], [t.(phase := Over, replies := [NameTaken])]))
  {
    hide Without, Certified, Has;
    assert Applicant(user).replies + [NameTaken] == [NameTaken];
  }

  // The authority is down: the user is told so, whether the row is gone or, because the
  // DELETE has failed, still there.
  lemma RollbackMayFail(user: bytes, error: bool)
    requires user != []
    ensures var es := Opening(user) + [Answers(0, Down)] + [Call(0)] + [Delete(0, error)] + [Write(0)];
            && After(es).Some? && Done(After(es).value.tasks[0]) && After(es).value.tasks[0].replies == [CaDown]
            && After(es).value.rows == if error then [RowOf(user, None)] else []
  {
    var t, row, es := Accepted(user), RowOf(user, None), Opening(user);
    var over, rows := t.(phase := Over), if error then [row] else [];
    var s5 := State([row], [over.(calls := [Down])]);
    var s6 := State([row], [over.(rollback := true)]);
    var s7 := State(rows, [over.(callbacks := [CaDown], removed := !error)]);
    var s8 := State(rows, [over.(replies := [CaDown], removed := !error)]);
    Opens(user);
    RollbackSteps(t, row, rows, error);
    hide After, Stepped, Enabled, Opening, Accepted;
    Step(es, State([row], [t]), Answers(0, Down), s5, es + [Answers(0, Down)]);
    es := es + [Answers(0, Down)];
    Step(es, s5, Call(0), s6, es + [Call(0)]);
    es := es + [Call(0)];
    Step(es, s6, Delete(0, error), s7, es + [Delete(0, error)]);
    es := es + [Delete(0, error)];
    Step(es, s7, Write(0), s8, es + [Write(0)]);
  }

  lemma RollbackSteps(t: Task, row: Row, rows: seq<Row>, error: bool)
    requires t == Accepted(row.user) && rows == if error then [row] else []
    ensures var over := t.(phase := Over);
            && Leads(State([row], [t]), Answers(0, Down), State([row], [over.(calls := [Down])]))
            && Leads(State([row], [over.(calls := [Down])]), Call(0), State([row], [over.(rollback := true)]))
            && Leads(State([row], [over.(rollback := true)]), Delete(0, error),
                     State(rows, [over.(callbacks := [CaDown], removed := !error)]))
            && Leads(State(rows, [over.(callbacks := [CaDown], removed := !error)]), Write(0),
                     State(rows, [over.(replies := [CaDown], removed := !error)]))
  {
    hide Certified, Has;
    var none: seq<Answer>, quiet: seq<Reply> := [], [];
    assert none + [Down] == [Down] && [Down][1..] == none;
    assert quiet + [CaDown] == [CaDown] && [CaDown][1..] == quiet;
    assert Without([row], row.user) == [];
  }

  // The authority signs: the user is told twice, and told of a success whether the
  // certificate is stored or, because the UPDATE has failed, not.
  lemma SignedTwice(user: bytes, cert: bytes, error: bool)
    requires user != []
    ensures var es := Opening(user) + [Answers(0, Signed(cert))] + [Call(0)] + [Update(0, error)] + [Write(0)]
        + [Call(0)];
            && After(es).Some? && Done(After(es).value.tasks[0])
            && After(es).value.tasks[0].replies == [Succeed(cert), PendingCert]
            && After(es).value.rows == [RowOf(user, if error then None else Some(cert))]
  {
    var t, row, es := Accepted(user), RowOf(user, None), Opening(user);
    var row', over := row.(cert := if error then None else Some(cert)), t.(phase := Over, signed := Some(cert));
    var s5 := State([row], [over.(calls := [Signed(cert), Pending])]);
    var s6 := State([row], [over.(calls := [Pending], update := Some(cert))]);
    var s7 := State([row'], [over.(calls := [Pending], callbacks := [Succeed(cert)])]);
    var s8 := State([row'], [over.(calls := [Pending], replies := [Succeed(cert)])]);
    var s9 := State([row'], [over.(replies := [Succeed(cert), PendingCert])]);
    Opens(user);
    SigningSteps(t, row, row', cert, error);
    SignedReplies(over, row', cert);
    hide After, Stepped, Enabled, Opening, Accepted;
    Step(es, State([row], [t]), Answers(0, Signed(cert)), s5, es + [Answers(0, Signed(cert))]);
    es := es + [Answers(0, Signed(cert))];
    Step(es, s5, Call(0), s6, es + [Call(0)]);
    es := es + [Call(0)];
    Step(es, s6, Update(0, error), s7, es + [Update(0, error)]);
    es := es + [Update(0, error)];
    Step(es, s7, Write(0), s8, es + [Write(0)]);
    es := es + [Write(0)];
    Step(es, s8, Call(0), s9, es + [Call(0)]);
  }

  lemma SigningSteps(t: Task, row: Row, row': Row, cert: bytes, error: bool)
    requires t == Accepted(row.user) && row.cert.None? && row' == row.(cert := if error then None else Some(cert))
    ensures var over := t.(phase := Over, signed := Some(cert));
            && Leads(State([row], [t]), Answers(0, Signed(cert)),
                     State([row], [over.(calls := [Signed(cert), Pending])]))
            && Leads(State([row], [over.(calls := [Signed(cert), Pending])]), Call(0),
                     State([row], [over.(calls := [Pending], update := Some(cert))]))
            && Leads(State([row], [over.(calls := [Pending], update := Some(cert))]), Update(0, error),
                     State([row'], [over.(calls := [Pending], callbacks := [Succeed(cert)])]))
  {
    hide Without, Has;
    var none: seq<Answer>, quiet: seq<Reply> := [], [];
    assert none + [Signed(cert), Pending] == [Signed(cert), Pending];
    assert [Signed(cert), Pending][1..] == [Pending];
    assert quiet + [Succeed(cert)] == [Succeed(cert)];
    assert Certified([row], row.user, cert) == [row.(cert := Some(cert))];
  }

  lemma SignedReplies(over: Task, row: Row, cert: bytes)
    requires over.replies == [] && over.callbacks == [] && over.calls == []
    ensures Leads(State([row], [over.(calls := [Pending], callbacks := [Succeed(cert)])]), Write(0),
                  State([row], [over.(calls := [Pending], replies := [Succeed(cert)])]))
    ensures Leads(State([row], [over.(calls := [Pending], replies := [Succeed(cert)])]), Call(0),
                  State([row], [over.(replies := [Succeed(cert), PendingCert])]))
  {
    hide Without, Has, Certified;
    var none: seq<Answer>, quiet: seq<Reply> := [], [];
    assert [Pending][1..] == none && quiet + [Succeed(cert)] == [Succeed(cert)] && [Succeed(cert)][1..] == quiet;
    assert [Succeed(cert)] + [PendingCert] == [Succeed(cert), PendingCert];
  }
}
