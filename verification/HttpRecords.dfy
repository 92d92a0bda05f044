// What the second header automaton records: for every section that it accepts, the headers line
// by line, and what the headers of interest say.
module HttpRecords {
  import opened Bytes
  import R = HttpRequest
  import H = HttpHeaders
  import S = HttpSections

  // ----- the headers of a section -----

  function Unblanked(p: bytes): bytes { if p != [] && S.IsLws(p[0]) then Unblanked(p[1..]) else p }

  function Trimmed(name: bytes, value: bytes): R.Header { R.Header(H.Trim(name), H.Trim(value)) }

  function ValueOf(p: bytes): bytes
    requires p != [] && S.ColonFrom(p, 1) < |p|
  {
    p[S.ColonFrom(p, 1) + 1..]
  }

  // The headers of the lines of b, behind a header whose name and value have been read so far.
  function Records(b: bytes, name: bytes, value: bytes): seq<R.Header>
    requires S.Section(b, false, H.IsToken, false)
    decreases |b|
  {
    var n := S.LineEnd(b);
    if n == 0 then [Trimmed(name, value)]
    else if S.IsLws(b[0]) then Records(b[n + 2..], name, value + Unblanked(b[..n]))
    else [Trimmed(name, value)] + Records(b[n + 2..], S.NameOf(b[..n]), ValueOf(b[..n]))
  }

  // The headers of a section: what is before the colon of each line, and what is behind it and
  // in the continuations, all trimmed.
  function SectionHeaders(b: bytes): seq<R.Header>
    requires S.Section(b, true, H.IsToken, false)
  {
    var n := S.LineEnd(b);
    if n == 0 then [] else Records(b[n + 2..], S.NameOf(b[..n]), ValueOf(b[..n]))
  }

  function Noted(info: H.Info, hs: seq<R.Header>): H.Info
    decreases |hs|
  {
    if hs == [] then info else Noted(H.CheckHeader(hs[0].name, hs[0].value, info), hs[1..])
  }

  lemma RunStep(k: H.Scan, c: byte, rest: bytes)
    requires k.state != H.Fail && k.state != H.FinalLinefeed
    ensures H.Run(k, [c] + rest) == H.Run(H.Step(k, c), rest)
  {
    assert ([c] + rest)[1..] == rest;
    hide H.Step;
  }

  lemma LineBreak(k: H.Scan, rest: bytes)
    requires k.state == H.Value || k.state == H.Lws || k.state == H.SpaceBefore
    ensures H.Run(k, CRLF + rest) == H.Run(k.(state := H.LineStart), rest)
  {
    assert CRLF + rest == [CR] + ([LF] + rest);
    RunStep(k, CR, [LF] + rest);
    RunStep(k.(state := H.Linefeed), LF, rest);
    hide H.Run;
  }

  lemma {:induction false} ValueRead(k: H.Scan, p: bytes, rest: bytes)
    requires k.state == H.Value && S.AllText(p)
    ensures H.Run(k, p + (CRLF + rest)) == H.Run(k.(state := H.LineStart, value := k.value + p), rest)
    decreases p
  {
    if p == [] {
      LineBreak(k, rest);
      assert p + (CRLF + rest) == CRLF + rest && k.value + p == k.value;
    } else {
      var t := p[1..];
      assert p + (CRLF + rest) == [p[0]] + (t + (CRLF + rest)) && k.value + [p[0]] + t == k.value + p;
      RunStep(k, p[0], t + (CRLF + rest));
      ValueRead(H.PushValue(k, p[0]), t, rest);
      hide H.Run;
    }
  }

  lemma BeforeRead(k: H.Scan, p: bytes, rest: bytes)
    requires k.state == H.SpaceBefore && S.AllText(p)
    ensures H.Run(k, p + (CRLF + rest)) == H.Run(k.(state := H.LineStart, value := k.value + p), rest)
  {
    if p == [] {
      LineBreak(k, rest);
      assert p + (CRLF + rest) == CRLF + rest && k.value + p == k.value;
    } else {
      var t := p[1..];
      assert p + (CRLF + rest) == [p[0]] + (t + (CRLF + rest)) && k.value + [p[0]] + t == k.value + p;
      RunStep(k, p[0], t + (CRLF + rest));
      ValueRead(H.PushValue(k, p[0]), t, rest);
      hide H.Run;
    }
  }

  lemma {:induction false} BlanksRead(k: H.Scan, p: bytes, rest: bytes)
    requires k.state == H.Lws && S.Folded(p)
    ensures H.Run(k, p + (CRLF + rest)) == H.Run(k.(state := H.LineStart, value := k.value + Unblanked(p)), rest)
    decreases p
  {
    if p == [] {
      LineBreak(k, rest);
      assert p + (CRLF + rest) == CRLF + rest && k.value + p == k.value;
    } else {
      var t := p[1..];
      assert p + (CRLF + rest) == [p[0]] + (t + (CRLF + rest));
      RunStep(k, p[0], t + (CRLF + rest));
      if S.IsLws(p[0]) {
        BlanksRead(k, t, rest);
      } else {
        assert k.value + [p[0]] + t == k.value + p;
        ValueRead(H.PushValue(k, p[0]), t, rest);
      }
      hide H.Run;
    }
  }

  lemma NameParts(c: byte, t: bytes)
    requires S.NameRest([c] + t, H.IsToken, false)
    ensures var p := [c] + t;
            if c == COLON then S.AllText(t) && S.ColonFrom(p, 0) == 0 && p[..0] == [] && p[1..] == t
            else
              var n := S.ColonFrom(t, 0);
              && H.IsToken(c) && S.NameRest(t, H.IsToken, false) && S.ColonFrom(p, 0) == n + 1
              && p[..n + 1] == [c] + t[..n] && p[n + 2..] == t[n + 1..]
  {
    S.NameCons(c, t, H.IsToken, false);
    S.ColonShift(c, t, 0);
  }

  // The rest of a name, and the text behind the colon.
  lemma {:induction false} NameRead(k: H.Scan, p: bytes, rest: bytes)
    requires k.state == H.Name && S.NameRest(p, H.IsToken, false)
    ensures var n := S.ColonFrom(p, 0);
            H.Run(k, p + (CRLF + rest))
            == H.Run(k.(state := H.LineStart, name := k.name + p[..n], value := k.value + p[n + 1..]), rest)
    decreases p
  {
    var c, t := p[0], p[1..];
    assert p == [c] + t && p + (CRLF + rest) == [c] + (t + (CRLF + rest));
    RunStep(k, c, t + (CRLF + rest));
    NameParts(c, t);
    hide H.Run, S.NameRest, S.AllText, S.ColonFrom, H.IsToken;
    if c == COLON {
      assert k.name + [] == k.name;
      BeforeRead(k.(state := H.SpaceBefore), t, rest);
    } else {
      NameRead(k.(name := k.name + [c]), t, rest);
      AppendAssoc(k.name, [c], t[..S.ColonFrom(t, 0)]);
    }
  }

  // ----- a whole section -----

  lemma SplitAt(b: bytes, n: nat)
    requires n + 1 < |b| && b[n] == CR && b[n + 1] == LF
    ensures b == b[..n] + (CRLF + b[n + 2..])
    ensures n > 0 ==> b == [b[0]] + (b[..n][1..] + (CRLF + b[n + 2..]))
  {
    assert b == b[..n] + b[n..];
    BreakFirst(b[n..]);
    assert b[n..][2..] == b[n + 2..];
    if n > 0 {
      assert b[..n] == [b[0]] + b[..n][1..];
      AppendAssoc([b[0]], b[..n][1..], CRLF + b[n + 2..]);
    }
  }

  lemma BreakFirst(b: bytes)
    requires |b| >= 2 && b[0] == CR && b[1] == LF
    ensures b == CRLF + b[2..]
  {
  }

  // A header line, from its first character on.
  lemma HeaderRead(k: H.Scan, p: bytes, rest: bytes)
    requires k.state == H.Name && k.value == [] && S.HeaderLine(p, H.IsToken, false) && k.name == [p[0]]
    ensures H.Run(k, p[1..] + (CRLF + rest))
         == H.Run(k.(state := H.LineStart, name := S.NameOf(p), value := ValueOf(p)), rest)
  {
    var c, t := p[0], p[1..];
    assert p == [c] + t;
    S.HeaderCons(c, t, H.IsToken, false);
    S.ColonShift(c, t, 0);
    var n := S.ColonFrom(t, 0);
    assert [c] + t[..n] == p[..n + 1] && t[n + 1..] == p[n + 2..] && [] + t[n + 1..] == t[n + 1..];
    NameRead(k, t, rest);
    hide H.Run, S.ColonFrom, S.NameRest, S.HeaderLine;
  }

  // A line of a section: a continuation, or a header.
  lemma LineFacts(b: bytes)
    requires S.Section(b, false, H.IsToken, false) && S.LineEnd(b) > 0
    ensures var n := S.LineEnd(b);
            && n + 2 <= |b| && b == [b[0]] + (b[..n][1..] + (CRLF + b[n + 2..]))
            && S.Section(b[n + 2..], false, H.IsToken, false) && b[..n] != [] && b[..n][0] == b[0] && b[0] != CR
            && (S.IsLws(b[0]) ==> S.Folded(b[..n][1..]) && Unblanked(b[..n][1..]) == Unblanked(b[..n]))
            && (!S.IsLws(b[0]) ==> S.HeaderLine(b[..n], H.IsToken, false) && H.IsToken(b[0]))
  {
    var n := S.LineEnd(b);
    SplitAt(b, n);
    S.SectionCons(b, false, H.IsToken, false);
    if !S.IsLws(b[0]) {
      assert S.NameOf(b[..n])[0] == b[0];
    }
    hide S.LineEnd;
  }

  lemma FoldStep(k: H.Scan, b: bytes)
    requires k.state == H.LineStart && S.Section(b, false, H.IsToken, false) && S.LineEnd(b) > 0 && S.IsLws(b[0])
    ensures var n := S.LineEnd(b);
            n + 2 <= |b| && H.Run(k, b) == H.Run(k.(value := k.value + Unblanked(b[..n])), b[n + 2..])
  {
    LineFacts(b);
    var n := S.LineEnd(b);
    var p, rest := b[..n], b[n + 2..];
    assert H.Step(k, b[0]) == k.(state := H.Lws);
    hide H.Run, H.Step, Unblanked, S.Section, S.LineEnd, S.Folded;
    RunStep(k, b[0], p[1..] + (CRLF + rest));
    BlanksRead(k.(state := H.Lws), p[1..], rest);
  }

  lemma HeaderStep(k: H.Scan, b: bytes)
    requires k.state == H.LineStart && S.Section(b, false, H.IsToken, false) && S.LineEnd(b) > 0 && !S.IsLws(b[0])
    ensures var n := S.LineEnd(b);
            n + 2 <= |b| && b[..n] != [] && S.ColonFrom(b[..n], 1) < |b[..n]|
            && H.Run(k, b)
               == H.Run(H.Record(k).(name := S.NameOf(b[..n]), value := ValueOf(b[..n])), b[n + 2..])
  {
    LineFacts(b);
    var n := S.LineEnd(b);
    var p, rest := b[..n], b[n + 2..];
    var k' := H.Record(k).(state := H.Name, name := [b[0]]);
    assert H.Step(k, b[0]) == k';
    assert S.ColonFrom(p, 1) < |p|;
    hide H.Run, H.Step, S.Section, S.LineEnd, S.HeaderLine;
    RunStep(k, b[0], p[1..] + (CRLF + rest));
    HeaderRead(k', p, rest);
  }

  lemma RecordsEnd(b: bytes, name: bytes, value: bytes)
    requires S.Section(b, false, H.IsToken, false) && S.LineEnd(b) == 0
    ensures |b| >= 2 && b[0] == CR && b[1] == LF && Records(b, name, value) == [Trimmed(name, value)]
  {
    hide Trimmed;
  }

  lemma RecordsFold(b: bytes, name: bytes, value: bytes)
    requires S.Section(b, false, H.IsToken, false) && S.LineEnd(b) > 0 && S.IsLws(b[0])
    ensures var n := S.LineEnd(b);
            && n + 2 <= |b| && S.Section(b[n + 2..], false, H.IsToken, false)
            && Records(b, name, value) == Records(b[n + 2..], name, value + Unblanked(b[..n]))
  {
    hide S.LineEnd, S.Section, Trimmed, Unblanked, S.Folded, S.HeaderLine, S.ColonFrom, S.NameOf, ValueOf, S.IsLws,
      H.IsToken;
    LineFacts(b);
  }

  lemma RecordsHeader(b: bytes, name: bytes, value: bytes)
    requires S.Section(b, false, H.IsToken, false) && S.LineEnd(b) > 0 && !S.IsLws(b[0])
    ensures var n := S.LineEnd(b);
            && n + 2 <= |b| && S.Section(b[n + 2..], false, H.IsToken, false)
            && b[..n] != [] && S.ColonFrom(b[..n], 1) < |b[..n]|
            && Records(b, name, value)
               == [Trimmed(name, value)] + Records(b[n + 2..], S.NameOf(b[..n]), ValueOf(b[..n]))
  {
    hide S.LineEnd, S.Section, Trimmed, Unblanked, S.Folded, S.HeaderLine, S.ColonFrom, S.NameOf, ValueOf, S.IsLws,
      H.IsToken;
    LineFacts(b);
    HasColon(b[..S.LineEnd(b)]);
  }

  lemma HasColon(p: bytes)
    requires S.HeaderLine(p, H.IsToken, false)
    ensures p != [] && S.ColonFrom(p, 1) < |p|
  {
  }

  lemma NotedCons(info: H.Info, h: R.Header, hs: seq<R.Header>)
    ensures Noted(info, [h] + hs) == Noted(H.CheckHeader(h.name, h.value, info), hs)
    ensures Noted(info, []) == info
  {
    assert ([h] + hs)[1..] == hs;
  }

  // What a run reads, as headers and as notes.
  ghost predicate Reads(r: (bool, H.Scan), k: H.Scan, hs: seq<R.Header>) {
    r.0 && r.1.headers == k.headers + hs && r.1.info == Noted(k.info, hs)
  }

  lemma ReadsCons(r: (bool, H.Scan), k: H.Scan, k': H.Scan, hs: seq<R.Header>)
    requires Reads(r, k', hs) && k'.headers == H.Record(k).headers && k'.info == H.Record(k).info
    ensures Reads(r, k, [Trimmed(k.name, k.value)] + hs)
  {
    NotedCons(k.info, Trimmed(k.name, k.value), hs);
    AppendAssoc3(k.headers, [Trimmed(k.name, k.value)], hs);
    hide Noted, H.CheckHeader, H.Trim;
  }

  lemma AppendAssoc3(a: seq<R.Header>, b: seq<R.Header>, c: seq<R.Header>)
    ensures a + (b + c) == a + b + c
  {
  }

  lemma ReadsFold(r: (bool, H.Scan), k: H.Scan, v: bytes, hs: seq<R.Header>)
    requires Reads(r, k.(value := v), hs)
    ensures Reads(r, k, hs)
  {
  }

  lemma {:induction false} RecordsRead(k: H.Scan, b: bytes)
    requires k.state == H.LineStart && S.Section(b, false, H.IsToken, false)
    ensures Reads(H.Run(k, b), k, Records(b, k.name, k.value))
    decreases |b|
  {
    hide *;
    var n := S.LineEnd(b);
    if n == 0 {
      RecordsEnd(b, k.name, k.value);
      EmptyRead(k, b);
    } else if S.IsLws(b[0]) {
      RecordsFold(b, k.name, k.value);
      FoldStep(k, b);
      var v := k.value + Unblanked(b[..n]);
      RecordsRead(k.(value := v), b[n + 2..]);
      ReadsFold(H.Run(k, b), k, v, Records(b, k.name, k.value));
    } else {
      RecordsHeader(b, k.name, k.value);
      HeaderStep(k, b);
      var k' := H.Record(k).(name := S.NameOf(b[..n]), value := ValueOf(b[..n]));
      RecordedState(k);
      RecordsRead(k', b[n + 2..]);
      ReadsCons(H.Run(k, b), k, k', Records(b[n + 2..], k'.name, k'.value));
    }
  }

  lemma RecordedState(k: H.Scan)
    ensures H.Record(k).state == k.state
  {
  }

  lemma EmptyRead(k: H.Scan, b: bytes)
    requires k.state == H.LineStart && |b| >= 2 && b[0] == CR && b[1] == LF
    ensures Reads(H.Run(k, b), k, [Trimmed(k.name, k.value)])
  {
    assert b[1..][0] == LF;
    NotedCons(k.info, Trimmed(k.name, k.value), []);
    assert [Trimmed(k.name, k.value)] + [] == [Trimmed(k.name, k.value)];
    hide H.CheckHeader, H.Trim, Noted;
  }

  // What parse_http_headers makes of any input: it accepts the sections, and then the headers are
  // those of their lines, behind the ones there were, and the headers of interest are noted in
  // order.
  lemma Recorded(info: H.Info, headers: seq<R.Header>, b: bytes)
    ensures var r := H.Run(H.Start(info, headers), b);
            && (r.0 <==> S.Section(b, true, H.IsToken, false))
            && (r.0 ==>
                  var hs := SectionHeaders(b); r.1.headers == headers + hs && r.1.info == Noted(info, hs))
  {
    S.Sections(R.Fields([], [], 0, 0, []), info, headers, b);
    if S.Section(b, true, H.IsToken, false) {
      var k := H.Start(info, headers);
      if S.LineEnd(b) == 0 {
        NothingRead(k, b);
        assert headers + [] == headers && Noted(info, []) == info;
      } else {
        FirstStep(k, b);
        var n := S.LineEnd(b);
        var p := b[..n];
        RecordsRead(k.(state := H.LineStart, name := S.NameOf(p), value := ValueOf(p)), b[n + 2..]);
      }
    }
    hide H.Run, Records, S.Section, S.LineEnd, Noted, S.NameOf, S.ColonFrom;
  }

  lemma NothingRead(k: H.Scan, b: bytes)
    requires k.state == H.FirstLineStart && S.Section(b, true, H.IsToken, false) && S.LineEnd(b) == 0
    ensures H.Run(k, b) == (true, k.(state := H.FinalLinefeed))
  {
    assert b[1..][0] == LF;
  }

  lemma FirstStep(k: H.Scan, b: bytes)
    requires k.state == H.FirstLineStart && k.name == [] && k.value == []
    requires S.Section(b, true, H.IsToken, false) && S.LineEnd(b) > 0
    ensures var n := S.LineEnd(b);
            && n + 2 <= |b| && S.Section(b[n + 2..], false, H.IsToken, false)
            && b[..n] != [] && S.ColonFrom(b[..n], 1) < |b[..n]|
            && H.Run(k, b)
               == H.Run(k.(state := H.LineStart, name := S.NameOf(b[..n]), value := ValueOf(b[..n])), b[n + 2..])
  {
    var n := S.LineEnd(b);
    var p, rest := b[..n], b[n + 2..];
    SplitAt(b, n);
    S.SectionCons(b, true, H.IsToken, false);
    assert S.ColonFrom(p, 1) < |p| && S.NameOf(p)[0] == b[0];
    var k' := k.(state := H.Name, name := [b[0]]);
    assert [] + [b[0]] == [b[0]] && H.Step(k, b[0]) == k';
    hide H.Run, H.Step, S.Section, S.LineEnd, S.HeaderLine;
    RunStep(k, b[0], p[1..] + (CRLF + rest));
    HeaderRead(k', p, rest);
  }

  // ----- trimming -----

  predicate IsWhite(c: byte) { (c as char) in {' ', '\t', '\n', '\r'} || c == 11 || c == 12 }

  predicate AllWhite(b: bytes) { forall i :: 0 <= i < |b| ==> IsWhite(b[i]) }

  // White space at both ends, and none at the ends of what is between.
  lemma TrimIs(b: bytes) returns (l: bytes, r: bytes)
    ensures b == l + H.Trim(b) + r && AllWhite(l) && AllWhite(r)
    ensures var t := H.Trim(b); t != [] ==> !IsWhite(t[0]) && !IsWhite(t[|t| - 1])
  {
    var m;
    m, r := TrimRightIs(b);
    l := TrimLeftIs(m);
  }

  lemma {:induction false} TrimRightIs(b: bytes) returns (m: bytes, r: bytes)
    ensures m == H.TrimRight(b) && b == m + r && AllWhite(r) && (m != [] ==> !IsWhite(m[|m| - 1]))
    decreases |b|
  {
    m, r := b, [];
    if b != [] && H.IsSpace(b[|b| - 1]) {
      var n := |b| - 1;
      m, r := TrimRightIs(b[..n]);
      assert b == m + (r + [b[n]]);
      r := r + [b[n]];
    }
  }

  lemma {:induction false} TrimLeftIs(b: bytes) returns (l: bytes)
    ensures b == l + H.TrimLeft(b) && AllWhite(l) && (H.TrimLeft(b) != [] ==> !IsWhite(H.TrimLeft(b)[0]))
    ensures H.TrimLeft(b) != [] ==> b != [] && H.TrimLeft(b)[|H.TrimLeft(b)| - 1] == b[|b| - 1]
    decreases |b|
  {
    l := [];
    if b != [] && H.IsSpace(b[0]) {
      l := TrimLeftIs(b[1..]);
      assert b == [b[0]] + l + H.TrimLeft(b[1..]);
      l := [b[0]] + l;
    }
  }

  // ----- numbers -----

  predicate AllFigures(b: bytes) { forall i :: 0 <= i < |b| ==> '0' <= b[i] as char <= '9' }

  lemma {:induction false} LeadingIs(d: bytes, rest: bytes)
    requires AllFigures(d) && (rest == [] || !('0' <= rest[0] as char <= '9'))
    ensures H.LeadingDigits(d + rest) == d
    decreases d
  {
    if d == [] {
      assert d + rest == rest;
    } else {
      assert (d + rest)[1..] == d[1..] + rest;
      LeadingIs(d[1..], rest);
    }
  }

  lemma {:induction false} WhiteFirst(w: bytes, b: bytes)
    requires AllWhite(w) && (b == [] || !IsWhite(b[0]))
    ensures H.TrimLeft(w + b) == b
    decreases w
  {
    if w == [] {
      assert w + b == b;
    } else {
      assert (w + b)[1..] == w[1..] + b;
      WhiteFirst(w[1..], b);
    }
  }

  // The number at the start of a text: white space, one sign or none, and figures up to the first
  // other character; outside of 64 bits it is the nearest number within.
  lemma NumberIs(w: bytes, sign: bytes, d: bytes, rest: bytes)
    requires AllWhite(w) && AllFigures(d) && (sign == [] || sign == ['-' as int] || sign == ['+' as int])
    requires rest == [] || !('0' <= rest[0] as char <= '9')
    requires sign == [] && d == [] && rest != [] ==> !IsWhite(rest[0]) && rest[0] != '-' as int && rest[0] != '+' as int
    ensures var n := if sign == ['-' as int] then -Decimal(d) else Decimal(d);
            H.Atoi64(w + (sign + (d + rest)))
            == if n > 0x7fff_ffff_ffff_ffff then 0x7fff_ffff_ffff_ffff
               else if n < -0x8000_0000_0000_0000 then -0x8000_0000_0000_0000 else n
  {
    var t := sign + (d + rest);
    LeadingIs(d, rest);
    NotNegative(d);
    assert sign != [] ==> t[1..] == d + rest;
    assert sign == [] ==> t == d + rest;
    assert d != [] ==> (d + rest)[0] == d[0];
    assert d == [] ==> d + rest == rest;
    WhiteFirst(w, t);
    hide H.TrimLeft, H.LeadingDigits, Decimal;
  }

  lemma {:induction false} NotNegative(d: bytes)
    requires AllFigures(d)
    ensures Decimal(d) >= 0
  {
    if d != [] {
      NotNegative(d[..|d| - 1]);
    }
  }

  // ----- the headers of interest -----

  // The name is the given one, in any case; the given one is in lower case.
  predicate Named(name: bytes, text: string) {
    |name| == |text|
    && forall i :: 0 <= i < |text| ==>
         name[i] == text[i] as int || ('a' <= text[i] <= 'z' && name[i] == text[i] as int - 32)
  }

  predicate LowerOf(lower: string, text: string) {
    && |lower| == |text|
    && forall i :: 0 <= i < |text| ==>
         text[i] < 128 as char && lower[i] as int == H.ToLower(text[i] as int)
  }

  lemma EqualIsNamed(name: bytes, text: string, lower: string)
    requires LowerOf(lower, text)
    ensures H.HeadersEqual(name, H.Ascii(text)) <==> Named(name, lower)
  {
  }

  lemma TypeName(name: bytes)
    ensures H.HeadersEqual(name, H.CONTENT_TYPE) <==> Named(name, "content-type")
  {
    EqualIsNamed(name, "Content-Type", "content-type");
    hide H.HeadersEqual, Named, H.Ascii;
  }

  lemma LengthName(name: bytes)
    ensures H.HeadersEqual(name, H.CONTENT_LENGTH) <==> Named(name, "content-length")
  {
    EqualIsNamed(name, "Content-Length", "content-length");
    hide H.HeadersEqual, Named, H.Ascii;
  }

  lemma LocationName(name: bytes)
    ensures H.HeadersEqual(name, H.LOCATION) <==> Named(name, "location")
  {
    EqualIsNamed(name, "Location", "location");
    hide H.HeadersEqual, Named, H.Ascii;
  }

  lemma RangeName(name: bytes)
    ensures H.HeadersEqual(name, H.CONTENT_RANGE) <==> Named(name, "content-range")
  {
    EqualIsNamed(name, "Content-Range", "content-range");
    hide H.HeadersEqual, Named, H.Ascii;
  }

  lemma {:induction false} SlashAt(a: bytes, after: bytes)
    requires '/' as int !in a
    ensures H.AfterSlash(a + ['/' as int] + after) == after && H.AfterSlash(a) == []
    decreases a
  {
    var b := a + ['/' as int] + after;
    if a == [] {
      assert b[1..] == after;
    } else {
      assert b[1..] == a[1..] + ['/' as int] + after;
      SlashAt(a[1..], after);
    }
  }

  // What a header tells: the type, the place, and the length, which is the greatest one that a
  // length or the part of a range behind its slash has told.
  lemma Interest(name: bytes, value: bytes, info: H.Info, before: bytes, after: bytes)
    requires '/' as int !in before
    requires value == if '/' as int in value then before + ['/' as int] + after else before
    ensures var r := H.CheckHeader(name, value, info);
            && r.contentType == (if Named(name, "content-type") then value else info.contentType)
            && r.location == (if Named(name, "location") then value else info.location)
            && var told := if Named(name, "content-length") then Some(H.Atoi64(value))
                           else if Named(name, "content-range") && '/' as int in value && after != []
                           then Some(H.Atoi64(after)) else None;
               r.contentLength
               == if told.Some? && told.value > info.contentLength then told.value else info.contentLength
  {
    TypeName(name);
    LengthName(name);
    LocationName(name);
    RangeName(name);
    DifferentNames(name);
    SlashAt(before, after);
    hide H.HeadersEqual, Named, H.AfterSlash, H.Atoi64;
  }

  lemma DifferentNames(name: bytes)
    ensures Named(name, "content-type") ==> !Named(name, "location")
    ensures Named(name, "content-length") ==> !Named(name, "location") && !Named(name, "content-type")
    ensures Named(name, "content-range") ==> !Named(name, "location") && !Named(name, "content-type")
                                             && !Named(name, "content-length")
  {
    assert "content-range"[8] == 'r';
  }
}
