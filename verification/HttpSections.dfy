// Which header sections the two automata accept, line by line, and so exactly when they agree.
module HttpSections {
  import opened Bytes
  import R = HttpRequest
  import H = HttpHeaders
  import A = HttpAgreement

  // ----- a section, line by line -----

  predicate AllText(b: bytes) { forall i :: 0 <= i < |b| ==> !R.IsCtl(b[i]) }

  predicate AllIn(b: bytes, tok: byte -> bool) { forall i :: 0 <= i < |b| ==> tok(b[i]) }

  // The position of the first CR, or the length.
  function LineEnd(b: bytes): (n: nat)
    ensures n <= |b| && (n < |b| ==> b[n] == CR) && CR !in b[..n]
  {
    if b == [] || b[0] == CR then 0
    else
      var n := 1 + LineEnd(b[1..]);
      PrefixCons(b, n - 1);
      n
  }

  // The position of the first colon from k on, or the length.
  function ColonFrom(p: bytes, k: nat): (n: nat)
    requires k <= |p|
    ensures k <= n <= |p| && (n < |p| ==> p[n] == COLON) && forall i :: k <= i < n ==> p[i] != COLON
    decreases |p| - k
  {
    if k == |p| || p[k] == COLON then k else ColonFrom(p, k + 1)
  }

  // Neither automaton looks for the colon in the first character of a line.
  function NameOf(p: bytes): bytes { if p == [] then [] else p[..ColonFrom(p, 1)] }

  predicate SpaceAfterName(p: bytes) { p != [] && ColonFrom(p, 1) + 1 < |p| && p[ColonFrom(p, 1) + 1] == SP }

  // A name of the given characters, a colon, after it a space where one is demanded, and text.
  predicate HeaderLine(p: bytes, tok: byte -> bool, spaced: bool) {
    && p != [] && ColonFrom(p, 1) < |p| && AllIn(NameOf(p), tok) && AllText(p[ColonFrom(p, 1) + 1..])
    && (spaced ==> SpaceAfterName(p))
  }

  predicate IsLws(c: byte) { c == SP || c == HT }

  // Blanks, and then text.
  predicate Folded(p: bytes) {
    if p != [] && IsLws(p[0]) then Folded(p[1..]) else AllText(p)
  }

  // Header lines and, after the first one, continuations, up to the empty line.
  predicate Section(b: bytes, first: bool, tok: byte -> bool, spaced: bool)
    decreases |b|
  {
    var n := LineEnd(b);
    && n + 1 < |b| && b[n + 1] == LF
    && (n > 0 ==>
          && (if !first && IsLws(b[0]) then Folded(b[..n]) else HeaderLine(b[..n], tok, spaced))
          && Section(b[n + 2..], false, tok, spaced))
  }

  // The lines before the empty one that are not continuations.
  function HeaderLines(b: bytes): (ps: seq<bytes>)
    ensures forall p <- ps :: p != []
    decreases |b|
  {
    var n := LineEnd(b);
    if n == 0 then []
    else (if IsLws(b[0]) then [] else [b[..n]]) + if n + 2 <= |b| then HeaderLines(b[n + 2..]) else []
  }

  // ----- the two automata as one -----

  datatype State = First | Start | Lws | Name | Before | Value | Linefeed | Final

  function Move(s: State, c: byte, tok: byte -> bool, spaced: bool): Option<State>
    requires s != Final
  {
    match s
    case First => if c == CR then Some(Final) else if tok(c) then Some(Name) else None
    case Start => if c == CR then Some(Final) else if IsLws(c) then Some(Lws) else if tok(c) then Some(Name) else None
    case Lws =>
      if c == CR then Some(Linefeed) else if IsLws(c) then Some(Lws) else if R.IsCtl(c) then None else Some(Value)
    case Name => if c == COLON then Some(Before) else if tok(c) then Some(Name) else None
    case Before =>
      if spaced then (if c == SP then Some(Value) else None)
      else if c == CR then Some(Linefeed) else if R.IsCtl(c) then None else Some(Value)
    case Value => if c == CR then Some(Linefeed) else if R.IsCtl(c) then None else Some(Value)
    case Linefeed => if c == LF then Some(Start) else None
  }

  predicate Accepts(s: State, b: bytes, tok: byte -> bool, spaced: bool)
    decreases |b|
  {
    b != [] &&
    if s == Final then b[0] == LF
    else var n := Move(s, b[0], tok, spaced); n.Some? && Accepts(n.value, b[1..], tok, spaced)
  }

  function OfRequest(s: R.State, first: bool): State {
    match s
    case HeaderLineStart => if first then First else Start
    case HeaderLws => Lws
    case HeaderName => Name
    case SpaceBeforeValue => Before
    case HeaderValue => Value
    case Newline2 => Linefeed
    case _ => Final
  }

  lemma RequestMoves(s: R.State, q: R.Fields, c: byte)
    requires R.Safe(s, q) && A.InHeaders(s) && s != R.Newline3
    ensures var n, m := R.Next(s, q, c), Move(OfRequest(s, q.headers == []), c, R.IsToken, true);
            && (m.None? ==> n.result == R.False)
            && (m.Some? ==> n.result == R.Indeterminate && A.InHeaders(n.state))
            && (m.Some? ==> m.value == OfRequest(n.state, n.fields.headers == []))
  {
    assert !R.IsToken(SP) && !R.IsToken(HT);
    hide R.IsToken, R.IsCtl;
  }

  lemma {:induction false} RequestAccepts(s: R.State, q: R.Fields, b: bytes)
    requires R.Safe(s, q) && A.InHeaders(s)
    ensures R.Parse(s, q, b).result == R.True <==> Accepts(OfRequest(s, q.headers == []), b, R.IsToken, true)
    decreases b
  {
    if b != [] && s != R.Newline3 {
      RequestMoves(s, q, b[0]);
      hide R.Next, Move, A.InHeaders, OfRequest;
      var n := R.Next(s, q, b[0]);
      if n.result == R.Indeterminate {
        RequestAccepts(n.state, n.fields, b[1..]);
      }
    }
  }

  function OfHeaders(s: H.State): State
    requires s != H.Fail
  {
    match s
    case FirstLineStart => First
    case LineStart => Start
    case Lws => Lws
    case Name => Name
    case SpaceBefore => Before
    case Value => Value
    case Linefeed => Linefeed
    case FinalLinefeed => Final
  }

  lemma {:induction false} HeadersAccept(k: H.Scan, b: bytes)
    requires k.state != H.Fail
    ensures H.Run(k, b).0 <==> Accepts(OfHeaders(k.state), b, H.IsToken, false)
    decreases b
  {
    hide H.Record;
    if b != [] && k.state != H.FinalLinefeed {
      var n := H.Step(k, b[0]);
      if n.state != H.Fail {
        HeadersAccept(n, b[1..]);
      }
    }
  }

  // ----- the automaton, line by line -----

  // What is left after a line of the given text.
  predicate RestAccepted(b: bytes, tok: byte -> bool, spaced: bool) {
    var n := LineEnd(b);
    n + 1 < |b| && b[n + 1] == LF && Accepts(Start, b[n + 2..], tok, spaced)
  }

  lemma {:induction false} ValueLine(b: bytes, tok: byte -> bool, spaced: bool)
    ensures Accepts(Value, b, tok, spaced) <==> AllText(b[..LineEnd(b)]) && RestAccepted(b, tok, spaced)
    decreases b
  {
    if b != [] && b[0] != CR {
      ValueLine(b[1..], tok, spaced);
      LineCons(b, tok, spaced);
      TextCons(b[0], b[1..][..LineEnd(b[1..])]);
    }
  }

  lemma TextCons(c: byte, p: bytes)
    ensures AllText([c] + p) <==> !R.IsCtl(c) && AllText(p)
  {
    var q := [c] + p;
    assert q[0] == c && forall i :: 0 <= i < |p| ==> q[i + 1] == p[i];
    if AllText(q) {
      forall i | 0 <= i < |p|
        ensures !R.IsCtl(p[i])
      {
        assert q[i + 1] == p[i];
      }
    }
  }

  lemma BeforeLine(b: bytes, tok: byte -> bool, spaced: bool)
    ensures var p := b[..LineEnd(b)];
            Accepts(Before, b, tok, spaced)
            <==> AllText(p) && (spaced ==> p != [] && p[0] == SP) && RestAccepted(b, tok, spaced)
  {
    if b != [] && b[0] != CR {
      ValueLine(b[1..], tok, spaced);
      LineCons(b, tok, spaced);
      TextCons(b[0], b[1..][..LineEnd(b[1..])]);
    }
  }

  lemma FoldedCons(c: byte, p: bytes)
    ensures Folded([c] + p) <==> if IsLws(c) then Folded(p) else !R.IsCtl(c) && AllText(p)
  {
    TextCons(c, p);
    assert ([c] + p)[1..] == p;
  }

  // One character more at the front of a line.
  lemma LineCons(b: bytes, tok: byte -> bool, spaced: bool)
    requires b != [] && b[0] != CR
    ensures LineEnd(b) == 1 + LineEnd(b[1..]) && b[..LineEnd(b)] == [b[0]] + b[1..][..LineEnd(b[1..])]
    ensures RestAccepted(b, tok, spaced) <==> RestAccepted(b[1..], tok, spaced)
  {
    hide Accepts;
    var n := LineEnd(b[1..]);
    PrefixCons(b, n);
    assert n + 1 < |b[1..]| ==> b[1..][n + 1] == b[n + 2] && b[1..][n + 2..] == b[n + 3..];
  }

  lemma AcceptsCons(s: State, b: bytes, tok: byte -> bool, spaced: bool)
    requires b != [] && s != Final
    ensures var n := Move(s, b[0], tok, spaced);
            Accepts(s, b, tok, spaced) <==> n.Some? && Accepts(n.value, b[1..], tok, spaced)
  {
    hide Move;
  }

  lemma LineBreak(s: State, b: bytes, tok: byte -> bool, spaced: bool)
    requires s == Lws || s == Value || (s == Before && !spaced)
    requires b == [] || b[0] == CR
    ensures Accepts(s, b, tok, spaced) <==> RestAccepted(b, tok, spaced)
    ensures b[..LineEnd(b)] == []
  {
    if b != [] {
      assert |b| >= 2 ==> b[1..][0] == b[1] && b[1..][1..] == b[2..];
    }
  }

  lemma {:induction false} LwsLine(b: bytes, tok: byte -> bool, spaced: bool)
    ensures Accepts(Lws, b, tok, spaced) <==> Folded(b[..LineEnd(b)]) && RestAccepted(b, tok, spaced)
    decreases b
  {
    hide Accepts, RestAccepted, LineEnd, AllText;
    if b == [] || b[0] == CR {
      LineBreak(Lws, b, tok, spaced);
      assert AllText([]) by { NoText(); }
    } else {
      AcceptsCons(Lws, b, tok, spaced);
      LineCons(b, tok, spaced);
      FoldedCons(b[0], b[1..][..LineEnd(b[1..])]);
      if IsLws(b[0]) {
        LwsLine(b[1..], tok, spaced);
      } else {
        ValueLine(b[1..], tok, spaced);
      }
    }
  }

  lemma NoText()
    ensures AllText([])
  {
  }

  // The rest of a header line, within its name.
  predicate NameRest(p: bytes, tok: byte -> bool, spaced: bool) {
    var k := ColonFrom(p, 0);
    k < |p| && AllIn(p[..k], tok) && AllText(p[k + 1..]) && (spaced ==> k + 1 < |p| && p[k + 1] == SP)
  }

  lemma {:induction false} ColonShift(c: byte, p: bytes, k: nat)
    requires k <= |p|
    ensures ColonFrom([c] + p, k + 1) == ColonFrom(p, k) + 1
    decreases |p| - k
  {
    if k < |p| && p[k] != COLON {
      ColonShift(c, p, k + 1);
    }
  }

  lemma InCons(c: byte, p: bytes, tok: byte -> bool)
    ensures AllIn([c] + p, tok) <==> tok(c) && AllIn(p, tok)
  {
    var q := [c] + p;
    assert q[0] == c && forall i :: 0 <= i < |p| ==> q[i + 1] == p[i];
    if AllIn(q, tok) {
      forall i | 0 <= i < |p|
        ensures tok(p[i])
      {
        assert q[i + 1] == p[i];
      }
    }
  }

  lemma NameCons(c: byte, p: bytes, tok: byte -> bool, spaced: bool)
    ensures NameRest([c] + p, tok, spaced)
       <==> if c == COLON then AllText(p) && (spaced ==> p != [] && p[0] == SP)
            else tok(c) && NameRest(p, tok, spaced)
  {
    var q, k := [c] + p, ColonFrom(p, 0);
    ColonShift(c, p, 0);
    InCons(c, p[..k], tok);
    assert q[..k + 1] == [c] + p[..k] && q[1..] == p;
    assert k < |p| ==> q[k + 2..] == p[k + 1..];
    assert q[..0] == [];
    hide AllText, AllIn;
    assert AllIn([], tok) by { NoneIn(tok); }
  }

  lemma NoneIn(tok: byte -> bool)
    ensures AllIn([], tok)
  {
  }

  lemma HeaderCons(c: byte, p: bytes, tok: byte -> bool, spaced: bool)
    ensures HeaderLine([c] + p, tok, spaced) <==> tok(c) && NameRest(p, tok, spaced)
  {
    var q, k := [c] + p, ColonFrom(p, 0);
    ColonShift(c, p, 0);
    InCons(c, p[..k], tok);
    assert q[..k + 1] == [c] + p[..k];
    assert k < |p| ==> q[k + 2..] == p[k + 1..];
    hide AllText, AllIn;
  }

  lemma {:induction false} NameLine(b: bytes, tok: byte -> bool, spaced: bool)
    requires !tok(CR)
    ensures Accepts(Name, b, tok, spaced) <==> NameRest(b[..LineEnd(b)], tok, spaced) && RestAccepted(b, tok, spaced)
    decreases b
  {
    if b != [] && b[0] != CR {
      if b[0] == COLON {
        BeforeLine(b[1..], tok, spaced);
      } else {
        NameLine(b[1..], tok, spaced);
      }
      LineCons(b, tok, spaced);
      NameCons(b[0], b[1..][..LineEnd(b[1..])], tok, spaced);
    }
  }

  predicate LineOk(b: bytes, first: bool, tok: byte -> bool, spaced: bool)
    requires LineEnd(b) > 0
  {
    var p := b[..LineEnd(b)];
    if !first && IsLws(b[0]) then Folded(p) else HeaderLine(p, tok, spaced)
  }

  lemma SectionCons(b: bytes, first: bool, tok: byte -> bool, spaced: bool)
    requires LineEnd(b) > 0
    ensures var n := LineEnd(b);
            Section(b, first, tok, spaced)
            <==> && n + 1 < |b| && b[n + 1] == LF && LineOk(b, first, tok, spaced)
                 && Section(b[n + 2..], false, tok, spaced)
  {
    hide HeaderLine, Folded, LineEnd;
  }

  lemma RestIs(b: bytes, tok: byte -> bool, spaced: bool)
    ensures var n := LineEnd(b);
            RestAccepted(b, tok, spaced) <==> n + 1 < |b| && b[n + 1] == LF && Accepts(Start, b[n + 2..], tok, spaced)
  {
    hide Accepts, LineEnd;
  }

  // A section is what the automaton accepts.
  lemma {:induction false} SectionAccepted(b: bytes, first: bool, tok: byte -> bool, spaced: bool)
    requires !tok(CR)
    ensures Accepts(if first then First else Start, b, tok, spaced) <==> Section(b, first, tok, spaced)
    decreases |b|
  {
    hide *;
    var n := LineEnd(b);
    if n == 0 {
      EmptyLine(b, first, tok, spaced);
    } else {
      LineStep(b, first, tok, spaced);
      SectionCons(b, first, tok, spaced);
      RestIs(b, tok, spaced);
      if n + 1 < |b| && b[n + 1] == LF {
        SectionAccepted(b[n + 2..], false, tok, spaced);
      }
    }
  }

  lemma EmptyLine(b: bytes, first: bool, tok: byte -> bool, spaced: bool)
    requires LineEnd(b) == 0
    ensures Accepts(if first then First else Start, b, tok, spaced) <==> Section(b, first, tok, spaced)
  {
    assert |b| >= 2 ==> b[1..][0] == b[1];
  }

  lemma LineStep(b: bytes, first: bool, tok: byte -> bool, spaced: bool)
    requires !tok(CR) && LineEnd(b) > 0
    ensures Accepts(if first then First else Start, b, tok, spaced)
       <==> LineOk(b, first, tok, spaced) && RestAccepted(b, tok, spaced)
  {
    assert b != [] && b[0] != CR;
    FirstMove(b[0], first, tok, spaced);
    assert LineOk(b, first, tok, spaced)
      <==> if !first && IsLws(b[0]) then Folded(b[..LineEnd(b)]) else HeaderLine(b[..LineEnd(b)], tok, spaced);
    hide *;
    var r := b[1..];
    LwsLine(r, tok, spaced);
    NameLine(r, tok, spaced);
    FoldedCons(b[0], r[..LineEnd(r)]);
    HeaderCons(b[0], r[..LineEnd(r)], tok, spaced);
    LineCons(b, tok, spaced);
    AcceptsCons(if first then First else Start, b, tok, spaced);
  }

  lemma FirstMove(c: byte, first: bool, tok: byte -> bool, spaced: bool)
    requires c != CR
    ensures Move(if first then First else Start, c, tok, spaced)
         == if !first && IsLws(c) then Some(Lws) else if tok(c) then Some(Name) else None
  {
  }

  // ----- the two languages, and where they agree -----

  // The sections each automaton accepts: the second one takes more characters but three in a
  // name, and does not ask for a space after the colon.
  lemma Sections(q: R.Fields, info: H.Info, headers: seq<R.Header>, b: bytes)
    requires q.headers == []
    ensures R.Parse(R.HeaderLineStart, q, b).result == R.True <==> Section(b, true, R.IsToken, true)
    ensures H.Run(H.Start(info, headers), b).0 <==> Section(b, true, H.IsToken, false)
  {
    RequestAccepts(R.HeaderLineStart, q, b);
    HeadersAccept(H.Start(info, headers), b);
    SectionAccepted(b, true, R.IsToken, true);
    SectionAccepted(b, true, H.IsToken, false);
    hide Accepts, Section, R.Parse, H.Run;
  }

  // What the first automaton asks of a header line besides, and what the second one does.
  predicate Strict(p: bytes) { R.AllToken(NameOf(p)) && SpaceAfterName(p) }

  lemma LinesAgree(p: bytes)
    ensures HeaderLine(p, H.IsToken, false) ==> (HeaderLine(p, R.IsToken, true) <==> Strict(p))
    ensures HeaderLine(p, R.IsToken, true) ==> (HeaderLine(p, H.IsToken, false) <==> A.Clean(NameOf(p)))
  {
    var n := NameOf(p);
    assert AllIn(n, R.IsToken) <==> R.AllToken(n);
    if R.AllToken(n) {
      forall i | 0 <= i < |n|
        ensures H.IsToken(n[i]) <==> n[i] != 96 && n[i] != 94 && n[i] != 124
      {
        A.TokenBut(n[i]);
      }
    }
    hide R.IsToken, H.IsToken, AllText, NameOf;
  }

  lemma NoBlankFirst(p: bytes)
    requires p != [] && (HeaderLine(p, H.IsToken, false) || HeaderLine(p, R.IsToken, true))
    ensures !IsLws(p[0])
  {
    assert NameOf(p)[0] == p[0];
  }

  lemma LineDecides(b: bytes, first: bool)
    requires LineEnd(b) > 0
    ensures LineOk(b, first, H.IsToken, false) ==>
              (LineOk(b, first, R.IsToken, true) <==> ((first || !IsLws(b[0])) ==> Strict(b[..LineEnd(b)])))
    ensures LineOk(b, first, R.IsToken, true) ==>
              (LineOk(b, first, H.IsToken, false) <==> ((first || !IsLws(b[0])) ==> A.Clean(NameOf(b[..LineEnd(b)]))))
    ensures first && (LineOk(b, first, H.IsToken, false) || LineOk(b, first, R.IsToken, true)) ==> !IsLws(b[0])
  {
    var p := b[..LineEnd(b)];
    LinesAgree(p);
    if HeaderLine(p, H.IsToken, false) || HeaderLine(p, R.IsToken, true) {
      NoBlankFirst(p);
    }
    hide HeaderLine, Folded, Strict, A.Clean, NameOf, LineEnd;
  }

  lemma HeaderLinesCons(b: bytes)
    requires LineEnd(b) > 0 && LineEnd(b) + 2 <= |b|
    ensures HeaderLines(b) == (if IsLws(b[0]) then [] else [b[..LineEnd(b)]]) + HeaderLines(b[LineEnd(b) + 2..])
  {
    hide LineEnd;
  }

  lemma NoHeaderLines(b: bytes, first: bool, tok: byte -> bool, spaced: bool)
    ensures LineEnd(b) == 0 ==> HeaderLines(b) == []
    ensures LineEnd(b) == 0 ==> (Section(b, first, tok, spaced) <==> |b| > 1 && b[1] == LF)
    ensures Section(b, first, tok, spaced) ==> LineEnd(b) + 1 < |b|
  {
    hide LineEnd;
  }

  // The header lines decide: those of a section that the second automaton accepts are all
  // accepted by the first one exactly if they are strict, and the other way round exactly if
  // their names have none of the three characters.
  lemma {:induction false} LinesDecide(b: bytes, first: bool)
    ensures Section(b, first, H.IsToken, false) ==>
              (Section(b, first, R.IsToken, true) <==> forall p <- HeaderLines(b) :: Strict(p))
    ensures Section(b, first, R.IsToken, true) ==>
              (Section(b, first, H.IsToken, false) <==> forall p <- HeaderLines(b) :: A.Clean(NameOf(p)))
    decreases |b|
  {
    hide *;
    var n := LineEnd(b);
    NoHeaderLines(b, first, H.IsToken, false);
    NoHeaderLines(b, first, R.IsToken, true);
    if n > 0 && n + 1 < |b| {
      LinesDecide(b[n + 2..], false);
      LineDecides(b, first);
      HeaderLinesCons(b);
      SectionCons(b, first, H.IsToken, false);
      SectionCons(b, first, R.IsToken, true);
    }
  }

  // Exactly when one automaton accepts a header section that the other one accepts.
  lemma Agreement(q: R.Fields, info: H.Info, headers: seq<R.Header>, b: bytes)
    requires q.headers == []
    ensures var first, second := R.Parse(R.HeaderLineStart, q, b).result == R.True, H.Run(H.Start(info, headers), b).0;
            && (second ==> (first <==> forall p <- HeaderLines(b) :: Strict(p)))
            && (first ==> (second <==> forall p <- HeaderLines(b) :: A.Clean(NameOf(p))))
  {
    Sections(q, info, headers, b);
    LinesDecide(b, true);
    hide Section, HeaderLines, Strict, NameOf, R.Parse, H.Run;
  }

  lemma {:induction false} EndOfLine(p: bytes, rest: bytes)
    requires CR !in p && rest != [] && rest[0] == CR
    ensures LineEnd(p + rest) == |p|
  {
    if p == [] {
      assert p + rest == rest;
    } else {
      assert (p + rest)[1..] == p[1..] + rest;
      EndOfLine(p[1..], rest);
    }
  }

  lemma OneLine(p: bytes, tok: byte -> bool, spaced: bool)
    requires p != [] && CR !in p
    ensures Section(p + (CRLF + CRLF), true, tok, spaced) <==> HeaderLine(p, tok, spaced)
  {
    var b := p + (CRLF + CRLF);
    EndOfLine(p, CRLF + CRLF);
    assert b[..|p|] == p && b[|p| + 2..] == CRLF && b[|p| + 1] == LF;
    assert LineEnd(CRLF) == 0;
    hide HeaderLine;
  }

  // A section that only the second automaton accepts, for the lack of a space after the colon.
  lemma NoSpace(q: R.Fields, info: H.Info, headers: seq<R.Header>)
    requires q.headers == []
    ensures var b := [97, COLON, CR, LF, CR, LF];
            H.Run(H.Start(info, headers), b).0 && R.Parse(R.HeaderLineStart, q, b).result == R.False
  {
    var p, b := [97, COLON], [97, COLON, CR, LF, CR, LF];
    assert p + (CRLF + CRLF) == b && ColonFrom(p, 1) == 1;
    assert HeaderLine(p, H.IsToken, false);
    NoSpaceRefused(q);
    OneLine(p, H.IsToken, false);
    Sections(q, info, headers, b);
    hide HeaderLine, Section, H.Run;
  }

  lemma NoSpaceRefused(q: R.Fields)
    ensures R.Parse(R.HeaderLineStart, q, [97, COLON, CR, LF, CR, LF]).result == R.False
  {
    var b := [97, COLON, CR, LF, CR, LF];
    var r := R.Next(R.HeaderLineStart, q, 97).fields;
    assert R.Parse(R.SpaceBeforeValue, r, b[1..][1..]).result == R.False;
    assert R.Parse(R.HeaderName, r, b[1..]).result == R.False;
  }

  // And one for a character that only the second one takes in a name, an opening parenthesis.
  lemma LooseName(q: R.Fields, info: H.Info, headers: seq<R.Header>)
    requires q.headers == []
    ensures var b := [40, COLON, SP, CR, LF, CR, LF];
            H.Run(H.Start(info, headers), b).0 && R.Parse(R.HeaderLineStart, q, b).result == R.False
  {
    var p, b := [40, COLON, SP], [40, COLON, SP, CR, LF, CR, LF];
    assert p + (CRLF + CRLF) == b && ColonFrom(p, 1) == 1;
    assert HeaderLine(p, H.IsToken, false);
    assert R.Parse(R.HeaderLineStart, q, b).result == R.False;
    OneLine(p, H.IsToken, false);
    Sections(q, info, headers, b);
    hide HeaderLine, Section, H.Run;
  }
}
