// The two header automata compared. On every header section the request parser accepts,
// `parse_http_headers` accepts as well if and only if no header name contains a backquote, a
// caret or a bar, and then it yields the same names, with the values trimmed.
module HttpAgreement {
  import opened Bytes
  import G = HttpGrammar
  import L = HttpLanguage
  import R = HttpRequest
  import H = HttpHeaders

  // The characters a token may contain for the request parser only.
  predicate Clean(b: bytes) { forall i :: 0 <= i < |b| ==> b[i] != 96 && b[i] != 94 && b[i] != 124 }

  predicate AllClean(hs: seq<R.Header>) { forall i :: 0 <= i < |hs| ==> Clean(hs[i].name) }

  predicate Named(hs: seq<R.Header>) { forall i :: 0 <= i < |hs| ==> R.AllToken(hs[i].name) }

  // What the second automaton records for the headers of the first.
  function TrimAll(hs: seq<R.Header>): seq<R.Header> {
    if hs == [] then []
    else
      var h := hs[|hs| - 1];
      TrimAll(hs[..|hs| - 1]) + [R.Header(h.name, H.Trim(h.value))]
  }

  function InfoOf(info: H.Info, hs: seq<R.Header>): H.Info {
    if hs == [] then info
    else
      var h := hs[|hs| - 1];
      H.CheckHeader(h.name, H.Trim(h.value), InfoOf(info, hs[..|hs| - 1]))
  }

  // The second automaton with all of hs recorded, in state st.
  function Closed(st: H.State, k0: H.Scan, hs: seq<R.Header>): H.Scan {
    H.Scan(st, [], [], InfoOf(k0.info, hs), k0.headers + TrimAll(hs))
  }

  // The second automaton with the last header of hs still open. Its value starts with the
  // SP after the colon, which the missing `else` lets through.
  function Open(st: H.State, k0: H.Scan, hs: seq<R.Header>): H.Scan
    requires hs != []
  {
    var h := hs[|hs| - 1];
    var value := if st == H.Name || st == H.SpaceBefore then [] else [SP] + h.value;
    Closed(st, k0, hs[..|hs| - 1]).(name := h.name, value := value)
  }

  // The state of the second automaton that goes with a state of the request parser.
  function Counterpart(s: R.State): H.State {
    match s
    case HeaderLineStart => H.LineStart
    case HeaderLws => H.Lws
    case HeaderName => H.Name
    case SpaceBeforeValue => H.SpaceBefore
    case HeaderValue => H.Value
    case Newline2 => H.Linefeed
    case _ => H.FinalLinefeed
  }

  predicate InHeaders(s: R.State) { R.InsideHeader(s) || s == R.HeaderLineStart || s == R.Newline3 }

  function Image(s: R.State, k0: H.Scan, hs: seq<R.Header>): H.Scan {
    if s == R.HeaderLineStart && hs == [] then Closed(H.FirstLineStart, k0, hs)
    else if s == R.Newline3 || hs == [] then Closed(H.FinalLinefeed, k0, hs)
    else Open(Counterpart(s), k0, hs)
  }

  lemma TrimRightSpace(v: bytes)
    ensures H.Trim([SP] + v) == H.Trim(v)
    decreases v
  {
    var w := [SP] + v;
    if v == [] {
      assert w[..0] == [];
    } else if H.IsSpace(v[|v| - 1]) {
      assert w[..|w| - 1] == [SP] + v[..|v| - 1];
      TrimRightSpace(v[..|v| - 1]);
    } else {
      assert w[1..] == v;
    }
  }

  lemma TrimToken(b: bytes)
    requires R.AllToken(b)
    ensures H.Trim(b) == b
  {
    assert H.TrimRight(b) == b;
  }

  // Recording the open header closes it.
  lemma RecordOpen(k0: H.Scan, hs: seq<R.Header>)
    requires hs != [] && Named(hs)
    ensures H.Record(Open(H.LineStart, k0, hs)) == Closed(H.LineStart, k0, hs)
  {
    var h := hs[|hs| - 1];
    TrimToken(h.name);
    TrimRightSpace(h.value);
  }

  // What holds of the request parser whenever it is inside the header section.
  ghost predicate Good(s: R.State, hs: seq<R.Header>) {
    && InHeaders(s) && Named(hs) && (R.InsideHeader(s) ==> hs != [])
    && (s == R.HeaderName || s == R.SpaceBeforeValue ==> hs[|hs| - 1].value == [])
  }

  lemma CleanLast(hs: seq<R.Header>, h: R.Header)
    ensures AllClean(hs + [h]) <==> AllClean(hs) && Clean(h.name)
    ensures Named(hs + [h]) <==> Named(hs) && R.AllToken(h.name)
    ensures (hs + [h])[..|hs|] == hs
  {
    assert forall i :: 0 <= i < |hs| ==> (hs + [h])[i] == hs[i];
    assert (hs + [h])[|hs|] == h;
  }

  lemma CleanPush(b: bytes, c: byte)
    ensures Clean(b + [c]) <==> Clean(b) && c != 96 && c != 94 && c != 124
    ensures R.AllToken(b + [c]) <==> R.AllToken(b) && R.IsToken(c)
  {
    assert (b + [c])[|b|] == c;
    assert forall i :: 0 <= i < |b| ==> (b + [c])[i] == b[i];
  }

  // The second automaton takes every token character of the first but three.
  lemma TokenBut(c: byte)
    requires R.IsToken(c)
    ensures H.IsToken(c) <==> c != 96 && c != 94 && c != 124
  {
  }

  // The start of a line: the open header, if any, is closed, continued or followed.
  lemma NewFacts(hs: seq<R.Header>, c: byte)
    requires Named(hs) && AllClean(hs) && R.IsToken(c)
    ensures var us := hs + [R.Header([c], [])];
            && Good(R.HeaderName, us) && us[..|us| - 1] == hs
            && (AllClean(us) <==> H.IsToken(c)) && c != CR && c != SP && c != HT
  {
    CleanLast(hs, R.Header([c], []));
    CleanPush([], c);
    TokenBut(c);
    assert [] + [c] == [c];
    hide AllClean, Named, Clean, R.AllToken, H.IsToken;
  }

  lemma LineCharacter(k: H.Scan, c: byte)
    requires c != CR && c != SP && c != HT && (k.state == H.LineStart || k.state == H.FirstLineStart)
    requires k.state == H.FirstLineStart ==> k.name == []
    ensures H.Step(k, c)
         == if !H.IsToken(c) then k.(state := H.Fail)
            else (if k.state == H.LineStart then H.Record(k) else k).(state := H.Name, name := [c])
  {
    assert [] + [c] == [c];
    hide H.Record;
  }

  lemma ClosedThenNew(k0: H.Scan, hs: seq<R.Header>, c: byte)
    requires Named(hs)
    ensures var k, us := Image(R.HeaderLineStart, k0, hs), hs + [R.Header([c], [])];
            && (k.state == H.LineStart || (k.state == H.FirstLineStart && k.name == []))
            && Image(R.HeaderName, k0, us)
               == (if k.state == H.LineStart then H.Record(k) else k).(state := H.Name, name := [c])
  {
    hide *;
    NewIsOpen(k0, hs, c);
    if hs == [] {
      StartIsClosed(k0, hs);
    } else {
      StartIsOpen(k0, hs);
    }
    ClosedState(k0, hs);
  }

  lemma StartIsOpen(k0: H.Scan, hs: seq<R.Header>)
    requires hs != [] && Named(hs)
    ensures var k := Image(R.HeaderLineStart, k0, hs);
            k.state == H.LineStart && H.Record(k) == Closed(H.LineStart, k0, hs)
  {
    RecordOpen(k0, hs);
    hide TrimAll, InfoOf, H.Record;
    assert Image(R.HeaderLineStart, k0, hs) == Open(H.LineStart, k0, hs);
  }

  lemma NewIsOpen(k0: H.Scan, hs: seq<R.Header>, c: byte)
    ensures Image(R.HeaderName, k0, hs + [R.Header([c], [])]) == Closed(H.Name, k0, hs).(name := [c])
  {
    var us := hs + [R.Header([c], [])];
    assert us[..|us| - 1] == hs && us[|us| - 1].name == [c];
    hide *;
    NameIsOpen(k0, us);
  }

  lemma NameIsOpen(k0: H.Scan, us: seq<R.Header>)
    requires us != []
    ensures Image(R.HeaderName, k0, us) == Closed(H.Name, k0, us[..|us| - 1]).(name := us[|us| - 1].name)
  {
    hide TrimAll, InfoOf;
    assert Image(R.HeaderName, k0, us) == Open(H.Name, k0, us);
  }

  lemma StartIsClosed(k0: H.Scan, hs: seq<R.Header>)
    requires hs == []
    ensures Image(R.HeaderLineStart, k0, hs) == Closed(H.FirstLineStart, k0, hs)
    ensures Closed(H.FirstLineStart, k0, hs).state == H.FirstLineStart && Closed(H.FirstLineStart, k0, hs).name == []
  {
  }

  lemma ClosedState(k0: H.Scan, hs: seq<R.Header>)
    ensures Closed(H.Name, k0, hs) == Closed(H.LineStart, k0, hs).(state := H.Name)
    ensures Closed(H.Name, k0, hs) == Closed(H.FirstLineStart, k0, hs).(state := H.Name)
  {
    hide TrimAll, InfoOf;
  }

  lemma NewName(k0: H.Scan, hs: seq<R.Header>, c: byte)
    requires Named(hs) && AllClean(hs) && R.IsToken(c)
    ensures var us := hs + [R.Header([c], [])];
            && Good(R.HeaderName, us)
            && (if AllClean(us)
                then H.Step(Image(R.HeaderLineStart, k0, hs), c) == Image(R.HeaderName, k0, us)
                else H.Step(Image(R.HeaderLineStart, k0, hs), c).state == H.Fail)
  {
    hide *;
    NewFacts(hs, c);
    ClosedThenNew(k0, hs, c);
    LineCharacter(Image(R.HeaderLineStart, k0, hs), c);
  }

  lemma ContinueOrEnd(k0: H.Scan, hs: seq<R.Header>, c: byte)
    requires Named(hs) && (c == CR || (hs != [] && (c == SP || c == HT)))
    ensures H.Step(Image(R.HeaderLineStart, k0, hs), c)
         == Image(if c == CR then R.Newline3 else R.HeaderLws, k0, hs)
  {
    hide R.AllToken, TrimAll, InfoOf;
    if hs != [] {
      RecordOpen(k0, hs);
    }
  }

  // One more character of a name: whether the names stay clean, and what the second
  // automaton does with it.
  lemma NameFacts(hs: seq<R.Header>, c: byte)
    requires Good(R.HeaderName, hs) && AllClean(hs) && R.IsToken(c)
    ensures var us := R.PushName(hs, c);
            && Good(R.HeaderName, us) && |us| == |hs| && us[..|us| - 1] == hs[..|hs| - 1]
            && us[|us| - 1] == hs[|hs| - 1].(name := hs[|hs| - 1].name + [c])
            && (AllClean(us) <==> H.IsToken(c))
  {
    var init, h := hs[..|hs| - 1], hs[|hs| - 1];
    assert hs == init + [h];
    CleanLast(init, h);
    CleanLast(init, h.(name := h.name + [c]));
    CleanPush(h.name, c);
    TokenBut(c);
    hide AllClean, Named, Clean, R.AllToken, H.IsToken;
  }

  lemma NameCharacter(k: H.Scan, c: byte)
    requires k.state == H.Name && c != COLON
    ensures H.Step(k, c) == if H.IsToken(c) then k.(name := k.name + [c]) else k.(state := H.Fail)
  {
  }

  lemma OpenName(k0: H.Scan, hs: seq<R.Header>, us: seq<R.Header>, c: byte)
    requires hs != [] && us != [] && us[..|us| - 1] == hs[..|hs| - 1]
    requires us[|us| - 1] == hs[|hs| - 1].(name := hs[|hs| - 1].name + [c])
    ensures Image(R.HeaderName, k0, hs).state == H.Name
    ensures Image(R.HeaderName, k0, us)
         == Image(R.HeaderName, k0, hs).(name := Image(R.HeaderName, k0, hs).name + [c])
  {
    hide TrimAll, InfoOf;
  }

  lemma ExtendName(k0: H.Scan, hs: seq<R.Header>, c: byte)
    requires Good(R.HeaderName, hs) && AllClean(hs) && R.IsToken(c)
    ensures var us := R.PushName(hs, c);
            && Good(R.HeaderName, us)
            && (if AllClean(us)
                then H.Step(Image(R.HeaderName, k0, hs), c) == Image(R.HeaderName, k0, us)
                else H.Step(Image(R.HeaderName, k0, hs), c).state == H.Fail)
  {
    assert hs != [] && c != COLON;
    NameFacts(hs, c);
    hide *;
    OpenName(k0, hs, R.PushName(hs, c), c);
    NameCharacter(Image(R.HeaderName, k0, hs), c);
  }

  lemma ValueFacts(s: R.State, hs: seq<R.Header>, c: byte)
    requires (s == R.HeaderValue || s == R.HeaderLws) && Good(s, hs) && AllClean(hs)
    ensures var us := R.PushValue(hs, c);
            && hs != [] && us != [] && Good(R.HeaderValue, us) && AllClean(us)
            && us[..|us| - 1] == hs[..|hs| - 1]
            && us[|us| - 1] == hs[|hs| - 1].(value := hs[|hs| - 1].value + [c])
  {
    var init, h := hs[..|hs| - 1], hs[|hs| - 1];
    assert hs == init + [h];
    CleanLast(init, h);
    CleanLast(init, h.(value := h.value + [c]));
    hide AllClean, Named, Clean, R.AllToken;
  }

  lemma ValueCharacter(k: H.Scan, c: byte)
    requires !R.IsCtl(c) && (k.state == H.Value || (k.state == H.Lws && c != SP && c != HT))
    ensures H.Step(k, c) == k.(state := H.Value, value := k.value + [c])
  {
  }

  lemma OpenValue(s: R.State, k0: H.Scan, hs: seq<R.Header>, us: seq<R.Header>, c: byte)
    requires s == R.HeaderValue || s == R.HeaderLws
    requires hs != [] && us != [] && us[..|us| - 1] == hs[..|hs| - 1]
    requires us[|us| - 1] == hs[|hs| - 1].(value := hs[|hs| - 1].value + [c])
    ensures Image(s, k0, hs).state == Counterpart(s)
    ensures Image(R.HeaderValue, k0, us)
         == Image(s, k0, hs).(state := H.Value, value := Image(s, k0, hs).value + [c])
  {
    AppendAssoc([SP], hs[|hs| - 1].value, [c]);
    hide TrimAll, InfoOf;
  }

  lemma ExtendValue(s: R.State, k0: H.Scan, hs: seq<R.Header>, c: byte)
    requires s == R.HeaderValue || (s == R.HeaderLws && c != SP && c != HT)
    requires Good(s, hs) && AllClean(hs) && !R.IsCtl(c)
    ensures var us := R.PushValue(hs, c);
            && Good(R.HeaderValue, us) && AllClean(us)
            && H.Step(Image(s, k0, hs), c) == Image(R.HeaderValue, k0, us)
  {
    assert Counterpart(R.HeaderValue) == H.Value && Counterpart(R.HeaderLws) == H.Lws;
    hide *;
    ValueFacts(s, hs, c);
    OpenValue(s, k0, hs, R.PushValue(hs, c), c);
    ValueCharacter(Image(s, k0, hs), c);
  }

  // One character that is neither of a name nor of a value nor the first of a line.
  lemma BetweenInStep(s: R.State, q: R.Fields, k0: H.Scan, c: byte)
    requires R.Safe(s, q) && Good(s, q.headers) && s != R.HeaderLineStart && (s == R.HeaderName ==> c == COLON)
    requires (s == R.HeaderValue ==> c == CR) && (s == R.HeaderLws ==> c == CR || c == SP || c == HT)
    requires R.Next(s, q, c).result == R.Indeterminate
    ensures var n := R.Next(s, q, c);
            && Good(n.state, n.fields.headers) && n.fields.headers == q.headers
            && H.Step(Image(s, k0, q.headers), c) == Image(n.state, k0, q.headers)
  {
    hide TrimAll, InfoOf, Named, H.Record, H.Trim;
  }

  // One character: either both automata go on, still in step, or the character is one of
  // the three in a name, and the second automaton fails.
  lemma InStep(s: R.State, q: R.Fields, k0: H.Scan, c: byte)
    requires R.Safe(s, q) && Good(s, q.headers) && AllClean(q.headers)
    requires R.Next(s, q, c).result == R.Indeterminate
    ensures var n := R.Next(s, q, c);
            && Good(n.state, n.fields.headers)
            && (if AllClean(n.fields.headers)
                then H.Step(Image(s, k0, q.headers), c) == Image(n.state, k0, n.fields.headers)
                else H.Step(Image(s, k0, q.headers), c).state == H.Fail)
  {
    hide AllClean, TrimAll, InfoOf, Named, H.Record, H.Trim, R.AllToken, Clean;
    var hs := q.headers;
    if s == R.HeaderLineStart {
      if c == CR || (hs != [] && (c == SP || c == HT)) {
        ContinueOrEnd(k0, hs, c);
      } else {
        NewName(k0, hs, c);
      }
    } else if s == R.HeaderName && c != COLON {
      ExtendName(k0, hs, c);
    } else if (s == R.HeaderValue && c != CR) || (s == R.HeaderLws && c != CR && c != SP && c != HT) {
      ExtendValue(s, k0, hs, c);
    } else {
      BetweenInStep(s, q, k0, c);
    }
    hide Image, H.Step, Good;
  }

  lemma DirtyKept(hs: seq<R.Header>, c: byte)
    requires !AllClean(hs)
    ensures hs != [] && !AllClean(hs + [R.Header([c], [])])
    ensures !AllClean(R.PushName(hs, c)) && !AllClean(R.PushValue(hs, c))
  {
    var init, h := hs[..|hs| - 1], hs[|hs| - 1];
    assert hs == init + [h];
    CleanLast(init, h);
    CleanLast(init, h.(name := h.name + [c]));
    CleanLast(init, h.(value := h.value + [c]));
    CleanLast(hs, R.Header([c], []));
    CleanPush(h.name, c);
    hide AllClean, Clean;
  }

  lemma HeadersAfter(s: R.State, q: R.Fields, c: byte)
    requires R.Safe(s, q) && q.headers != [] && InHeaders(s)
    ensures var us := R.Next(s, q, c).fields.headers;
            us == q.headers || us == q.headers + [R.Header([c], [])]
            || us == R.PushName(q.headers, c) || us == R.PushValue(q.headers, c)
    ensures R.Next(s, q, c).result == R.Indeterminate ==> InHeaders(R.Next(s, q, c).state)
  {
  }

  lemma DirtyStep(s: R.State, q: R.Fields, c: byte)
    requires R.Safe(s, q) && !AllClean(q.headers) && InHeaders(s)
    requires R.Next(s, q, c).result == R.Indeterminate
    ensures !AllClean(R.Next(s, q, c).fields.headers) && InHeaders(R.Next(s, q, c).state)
  {
    hide *;
    DirtyKept(q.headers, c);
    HeadersAfter(s, q, c);
  }

  lemma {:induction false} DirtyStays(s: R.State, q: R.Fields, b: bytes)
    requires R.Safe(s, q) && !AllClean(q.headers) && InHeaders(s) && R.Parse(s, q, b).result == R.True
    ensures !AllClean(R.Parse(s, q, b).fields.headers)
    decreases b
  {
    hide R.Next, AllClean;
    var n := R.Next(s, q, b[0]);
    if n.result == R.Indeterminate {
      DirtyStep(s, q, b[0]);
      DirtyStays(n.state, n.fields, b[1..]);
    } else {
      SameFields(s, q, b[0]);
    }
  }

  lemma SameFields(s: R.State, q: R.Fields, c: byte)
    requires R.Safe(s, q) && R.Next(s, q, c).result == R.True
    ensures s == R.Newline3 && c == LF && R.Next(s, q, c).fields == q
  {
  }

  // What the second automaton makes of an accepted run of the first.
  ghost predicate Agreement(s: R.State, q: R.Fields, k0: H.Scan, b: bytes)
    requires R.Safe(s, q)
  {
    var us := R.Parse(s, q, b).fields.headers;
    var r := H.Run(Image(s, k0, q.headers), b);
    if AllClean(us) then r == (true, Closed(H.FinalLinefeed, k0, us)) else !r.0
  }

  lemma {:induction false} Agree(s: R.State, q: R.Fields, k0: H.Scan, b: bytes)
    requires R.Safe(s, q) && Good(s, q.headers) && AllClean(q.headers)
    requires R.Parse(s, q, b).result == R.True
    ensures Agreement(s, q, k0, b)
    decreases b, 1
  {
    hide R.Next, AllClean, Good, InfoOf, TrimAll;
    if R.Next(s, q, b[0]).result == R.Indeterminate {
      AgreeStep(s, q, k0, b);
    } else {
      SameFields(s, q, b[0]);
    }
  }

  lemma AgreeStep(s: R.State, q: R.Fields, k0: H.Scan, b: bytes)
    requires R.Safe(s, q) && Good(s, q.headers) && AllClean(q.headers)
    requires R.Parse(s, q, b).result == R.True && b != [] && R.Next(s, q, b[0]).result == R.Indeterminate
    ensures Agreement(s, q, k0, b)
    decreases b, 0
  {
    var n, k := R.Next(s, q, b[0]), Image(s, k0, q.headers);
    Running(s, k0, q.headers);
    R.ParseCons(s, q, b);
    InStep(s, q, k0, b[0]);
    RunCons(k, b);
    hide R.Next, AllClean, Good, Closed, R.Parse, Image, H.Step;
    if AllClean(n.fields.headers) {
      Agree(n.state, n.fields, k0, b[1..]);
    } else {
      DirtyStays(n.state, n.fields, b[1..]);
    }
  }

  lemma Running(s: R.State, k0: H.Scan, hs: seq<R.Header>)
    requires Good(s, hs)
    ensures Image(s, k0, hs).state != H.Fail
    ensures Image(s, k0, hs).state == H.FinalLinefeed ==> s == R.Newline3
  {
    hide InfoOf, TrimAll, Named;
  }

  lemma RunCons(k: H.Scan, b: bytes)
    requires b != [] && k.state != H.Fail && k.state != H.FinalLinefeed
    ensures H.Run(k, b) == H.Run(H.Step(k, b[0]), b[1..])
    ensures H.Step(k, b[0]).state == H.Fail ==> !H.Run(k, b).0
  {
    hide H.Step;
  }

  // The header section of any request the request parser accepts.
  lemma HeaderSections(q: R.Fields, info: H.Info, headers: seq<R.Header>, b: bytes)
    requires q.headers == [] && R.Parse(R.HeaderLineStart, q, b).result == R.True
    ensures var us := R.Parse(R.HeaderLineStart, q, b).fields.headers;
            var r := H.Run(H.Start(info, headers), b);
            && (r.0 <==> AllClean(us))
            && (r.0 ==> r.1.headers == headers + TrimAll(us) && r.1.info == InfoOf(info, us))
  {
    var k0 := H.Start(info, headers);
    assert headers + TrimAll([]) == headers;
    Agree(R.HeaderLineStart, q, k0, b);
  }

  // A header section that only the first automaton accepts: its one name is a caret.
  lemma CaretName(info: H.Info, headers: seq<R.Header>)
    ensures var b := [94, COLON, SP, 120, CR, LF, CR, LF];
            && R.Parse(R.HeaderLineStart, G.Meaning(G.EMPTY), b).result == R.True
            && !H.Run(H.Start(info, headers), b).0
  {
    var l := G.Line([94], [120], []);
    var b := [94, COLON, SP, 120, CR, LF, CR, LF];
    assert [l][..0] == [] && G.ValidLines([l]);
    assert G.LineBytes(l) == [94, COLON, SP, 120];
    assert G.LinesBytes([l]) == [94, COLON, SP, 120, CR, LF];
    assert G.LinesBytes([l]) + CRLF + [] == b;
    assert G.HeadersOf([l])[0].name == [94];
    L.SectionAccepted([l], []);
    HeaderSections(G.Meaning(G.EMPTY), info, headers, b);
    hide *;
    HasCaret(G.HeadersOf([l]));
  }

  lemma HasCaret(hs: seq<R.Header>)
    requires |hs| > 0 && hs[0].name == [94]
    ensures !AllClean(hs)
  {
    assert hs[0].name[0] == 94;
    assert !Clean(hs[0].name);
  }
}
