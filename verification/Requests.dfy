// Registrations against the requests that began them: what is stored is what was sent, what is
// signed is what the authority has signed, and what is replied is its answer.
module Requests {
  import opened Bytes
  import opened Registration

  // The requests of a run, in order; the i-th one began registration i.
  function Begun(es: seq<Event>): (rs: seq<Event>)
    ensures forall r <- rs :: r.Begin?
  {
    if es == [] then [] else Begun(es[..|es| - 1]) + if es[|es| - 1].Begin? then [es[|es| - 1]] else []
  }

  // The registration is for what the request holds.
  predicate IsFor(t: Task, r: Event)
    requires r.Begin?
  {
    t.user == r.user && t.pubkey == r.pubkey && t.mail == r.mail && t.phone == r.phone
  }

  lemma LastStep(es: seq<Event>)
    requires es != [] && After(es).Some?
    ensures var before, e := After(es[..|es| - 1]), es[|es| - 1];
            before.Some? && Enabled(before.value, e) && After(es).value == Stepped(before.value, e)
  {
    hide Stepped, Enabled;
  }

  lemma StepCounts(s: State, e: Event)
    requires Enabled(s, e)
    ensures |Stepped(s, e).tasks| == |s.tasks| + if e.Begin? then 1 else 0
    ensures e.Begin? ==> IsFor(Stepped(s, e).tasks[|s.tasks|], e)
  {
    hide Without, Certified, Has;
  }

  lemma StepKeepsRequest(s: State, e: Event, i: Id, r: Event)
    requires Enabled(s, e) && i < |s.tasks| && r.Begin? && IsFor(s.tasks[i], r)
    ensures i < |Stepped(s, e).tasks| && IsFor(Stepped(s, e).tasks[i], r)
  {
    hide Without, Certified, Has;
  }

  lemma {:induction false} OneEach(es: seq<Event>)
    requires After(es).Some?
    ensures |After(es).value.tasks| == |Begun(es)|
  {
    if es != [] {
      OneEach(es[..|es| - 1]);
      LastStep(es);
      StepCounts(After(es[..|es| - 1]).value, es[|es| - 1]);
      hide After, Stepped, Enabled;
    }
  }

  lemma {:induction false} TaskIsFor(es: seq<Event>, i: Id)
    requires After(es).Some? && i < |Begun(es)|
    ensures i < |After(es).value.tasks| && IsFor(After(es).value.tasks[i], Begun(es)[i])
  {
    var before, e := es[..|es| - 1], es[|es| - 1];
    LastStep(es);
    OneEach(before);
    hide After, Stepped, Enabled, IsFor;
    if i < |Begun(before)| {
      TaskIsFor(before, i);
      StepKeepsRequest(After(before).value, e, i, Begun(before)[i]);
    } else {
      StepCounts(After(before).value, e);
    }
  }

  // ----- the authority's answers -----

  // The answer that the registration has had.
  function Had(t: Task): Option<Answer> {
    if !t.phase.Over? || !t.inserted then None
    else if t.signed.Some? then Some(Signed(t.signed.value))
    else if t.calls == [Pending] || PendingCert in t.replies then Some(Pending)
    else Some(Down)
  }

  lemma StepHad(s: State, e: Event, i: Id)
    requires Inv(s) && Enabled(s, e) && i < |s.tasks|
    ensures i < |Stepped(s, e).tasks|
    ensures Had(Stepped(s, e).tasks[i]) == if e.Answers? && e.i == i then Some(e.a) else Had(s.tasks[i])
    ensures e.Answers? && e.i == i ==> Had(s.tasks[i]).None?
  {
    assert Consistent(s.tasks[i]);
    StepCounts(s, e);
    if e.Begin? || Actor(e) != i {
      OthersAlone(s, e, i);
    } else {
      OwnStepHad(s, e);
    }
    hide Stepped, Consistent, Had;
  }

  lemma OwnStepHad(s: State, e: Event)
    requires Enabled(s, e) && !e.Begin? && Consistent(s.tasks[Actor(e)])
    ensures var t, t' := s.tasks[Actor(e)], Stepped(s, e).tasks[Actor(e)];
            if e.Answers? then Had(t).None? && Had(t') == Some(e.a) else Had(t') == Had(t)
  {
    if e.Answers? {
      HadByAnswer(s, e);
    } else if e.Select? || e.Insert? || e.Report? {
      HadEarly(s, e);
    } else {
      HadLate(s, e);
    }
    hide *;
  }

  lemma HadByAnswer(s: State, e: Event)
    requires Enabled(s, e) && e.Answers? && Consistent(s.tasks[e.i])
    ensures Had(s.tasks[e.i]).None? && Had(Stepped(s, e).tasks[e.i]) == Some(e.a)
  {
    assert s.tasks[e.i].calls + [e.a] == [e.a];
    hide Answered, Rejected;
  }

  lemma HadEarly(s: State, e: Event)
    requires Enabled(s, e) && (e.Select? || e.Insert? || e.Report?) && Consistent(s.tasks[Actor(e)])
    ensures Had(s.tasks[Actor(e)]).None? && Had(Stepped(s, e).tasks[Actor(e)]).None?
  {
    hide Has, Answered, Rejected;
  }

  lemma HadLate(s: State, e: Event)
    requires Enabled(s, e) && (e.Call? || e.Delete? || e.Update? || e.Write?) && Consistent(s.tasks[Actor(e)])
    ensures Had(Stepped(s, e).tasks[Actor(e)]) == Had(s.tasks[Actor(e)])
  {
    hide Without, Certified;
    var t := s.tasks[Actor(e)];
    match e
    case Call(_) =>
      assert t.calls == [t.calls[0]] + t.calls[1..];
    case Write(_) =>
      assert t.callbacks == [t.callbacks[0]] + t.callbacks[1..];
    case _ =>
  }

  // A registration has had an answer exactly when that is an event of the run, and it has one
  // at most.
  lemma {:induction false} AnswersAreEvents(es: seq<Event>, i: Id, a: Answer)
    requires After(es).Some? && i < |After(es).value.tasks|
    ensures Answers(i, a) in es <==> Had(After(es).value.tasks[i]) == Some(a)
  {
    var before, e := es[..|es| - 1], es[|es| - 1];
    LastStep(es);
    InLast(es, Answers(i, a));
    var s := After(before).value;
    Reachable(before);
    if i < |s.tasks| {
      AnswersAreEvents(before, i, a);
      StepHad(s, e, i);
    } else {
      if Answers(i, a) in before {
        BegunFirst(before, Answers(i, a));
      }
      StepCounts(s, e);
    }
    hide After, Inv, Without, Certified, Has;
  }

  // ----- what is stored and what is replied -----

  // Every row is of a request of the run, and holds what that sent; and it holds the certificate
  // that the authority has signed for that request, exactly when an UPDATE has stored it.
  lemma RowsAreRequests(es: seq<Event>, k: nat)
    requires After(es).Some? && k < |After(es).value.rows|
    ensures var row := After(es).value.rows[k];
            && row.owner < |Begun(es)| && Begun(es)[row.owner] == Begin(row.user, row.pubkey, row.mail, row.phone)
            && (row.cert.Some? ==> Answers(row.owner, Signed(row.cert.value)) in es)
            && (row.cert.Some? <==> Update(row.owner, false) in es)
  {
    Reachable(es);
    OneEach(es);
    var s := After(es).value;
    var row := s.rows[k];
    assert IsOf(row, s.tasks[row.owner]);
    TaskIsFor(es, row.owner);
    assert Begun(es)[row.owner] in Begun(es);
    if row.cert.Some? {
      SignedBy(es, row.owner, row.cert.value);
    }
    CertificateByUpdate(es, row.owner);
    OnlyRow(s, k);
    hide After, Inv;
  }

  // A certificate that a registration has had is one that the authority has signed for it.
  lemma SignedBy(es: seq<Event>, i: Id, cert: bytes)
    requires After(es).Some? && i < |After(es).value.tasks| && After(es).value.tasks[i].signed == Some(cert)
    ensures Answers(i, Signed(cert)) in es
  {
    Reachable(es);
    assert Consistent(After(es).value.tasks[i]);
    AnswersAreEvents(es, i, Signed(cert));
  }

  lemma OnlyRow(s: State, k: nat)
    requires Inv(s) && k < |s.rows|
    ensures Certificated(s.rows, s.rows[k].owner) <==> s.rows[k].cert.Some?
  {
    var i := s.rows[k].owner;
    assert IsOf(s.rows[k], s.tasks[i]);
    forall l | 0 <= l < |s.rows| && s.rows[l].owner == i
      ensures l == k
    {
      assert IsOf(s.rows[l], s.tasks[i]);
    }
  }

  // There is a row of a request exactly when its INSERT has worked on a free name and its
  // DELETE has not; with RowsAreRequests, this is what the table is after any run.
  lemma RequestIsStored(es: seq<Event>, i: Id)
    requires After(es).Some? && i < |Begun(es)|
    ensures (exists k :: 0 <= k < |After(es).value.rows| && After(es).value.rows[k].owner == i)
       <==> InsertedName(es, i, Begun(es)[i].user) && Delete(i, false) !in es
  {
    OneEach(es);
    TaskIsFor(es, i);
    OneRowPerName(es, i);
    hide After, InsertedName;
  }

  // The statements of register_user: SELECT stores nothing and refuses a name that a row has;
  // INSERT stores the request, unless a row has its name; and either refuses when it fails.
  lemma StatementsOf(es: seq<Event>, i: Id, error: bool)
    requires After(es).Some? && i < |Begun(es)|
    ensures var s, r := After(es).value, Begun(es)[i];
            var refused := error || exists k :: 0 <= k < |s.rows| && s.rows[k].user == r.user;
            && (Enabled(s, Select(i, error)) ==>
                  var s' := After(es + [Select(i, error)]);
                  && s'.Some? && s'.value.rows == s.rows && i < |s'.value.tasks|
                  && s'.value.tasks[i].phase == (if refused then Result(true) else Inserting))
            && (Enabled(s, Insert(i, error)) ==>
                  var s' := After(es + [Insert(i, error)]);
                  && s'.Some? && i < |s'.value.tasks| && s'.value.tasks[i].phase == Result(refused)
                  && s'.value.rows
                     == if refused then s.rows else s.rows + [Row(r.user, r.pubkey, r.mail, r.phone, None, i)])
  {
    OneEach(es);
    TaskIsFor(es, i);
    assert (es + [Select(i, error)])[..|es|] == es && (es + [Insert(i, error)])[..|es|] == es;
  }

  // A finished registration has been told exactly what the authority has answered; and that
  // its name is taken, if it was not stored and the authority was never asked.
  lemma RepliesAreAnswers(es: seq<Event>, i: Id)
    requires After(es).Some? && i < |Begun(es)| && i < |After(es).value.tasks| && Done(After(es).value.tasks[i])
    ensures var replies := After(es).value.tasks[i].replies;
            && (Answers(i, Down) in es <==> replies == [CaDown])
            && (Answers(i, Pending) in es <==> replies == [PendingCert])
            && (forall cert :: Answers(i, Signed(cert)) in es <==>
                  replies == [Succeed(cert), PendingCert] || replies == [PendingCert, Succeed(cert)])
            && ((forall a :: Answers(i, a) !in es) <==> replies == [NameTaken])
  {
    Reachable(es);
    var t := After(es).value.tasks[i];
    assert Consistent(t);
    forall a
      ensures Answers(i, a) in es <==> Had(t) == Some(a)
    {
      AnswersAreEvents(es, i, a);
    }
    hide After, Inv;
  }
}
