// The response printer of the HTTP connection, read back by the repository's own
// status-line and header parsers.
module HttpResponse {
  import opened Bytes
  import R = HttpRequest
  import G = HttpGrammar
  import L = HttpLanguage
  import H = HttpHeaders
  import A = HttpAgreement

  // ----- the status-line automaton -----

  datatype State =
    | VersionH | VersionT1 | VersionT2 | VersionP | VersionSlash | MajorStart | Major
    | MinorStart | Minor | StatusStart | Status | ReasonPhrase | Linefeed | Fail

  datatype Line = Line(state: State, major: int, minor: int, status: int)

  function Expect(k: Line, c: byte, wanted: byte, next: State): Line {
    k.(state := if c == wanted then next else Fail)
  }

  function Step(k: Line, c: byte): Line {
    match k.state
    case VersionH => Expect(k, c, 72, VersionT1)
    case VersionT1 => Expect(k, c, 84, VersionT2)
    case VersionT2 => Expect(k, c, 84, VersionP)
    case VersionP => Expect(k, c, 80, VersionSlash)
    case VersionSlash => Expect(k, c, SLASH, MajorStart)
    case MajorStart =>
      if IsDigit(c) then k.(major := k.major * 10 + c - 48, state := Major) else k.(state := Fail)
    case Major =>
      if c == DOT then k.(state := MinorStart)
      else if IsDigit(c) then k.(major := k.major * 10 + c - 48) else k.(state := Fail)
    case MinorStart =>
      if IsDigit(c) then k.(minor := k.minor * 10 + c - 48, state := Minor) else k.(state := Fail)
    case Minor =>
      if c == SP then k.(state := StatusStart)
      else if IsDigit(c) then k.(minor := k.minor * 10 + c - 48) else k.(state := Fail)
    case StatusStart =>
      if IsDigit(c) then k.(status := k.status * 10 + c - 48, state := Status) else k.(state := Fail)
    case Status =>
      if c == SP then k.(state := ReasonPhrase)
      else if IsDigit(c) then k.(status := k.status * 10 + c - 48) else k.(state := Fail)
    case ReasonPhrase =>
      if c == CR then k.(state := Linefeed) else if R.IsCtl(c) then k.(state := Fail) else k
    case Linefeed => k
    case Fail => k
  }

  function Run(k: Line, b: bytes): (bool, Line)
    decreases b
  {
    if b == [] || k.state == Fail then (false, k)
    else if k.state == Linefeed then (b[0] == LF, k)
    else Run(Step(k, b[0]), b[1..])
  }

  method ParseHttpStatusLine(b: bytes, major: int, minor: int, status: int)
    returns (ok: bool, major': int, minor': int, status': int)
    ensures var r := Run(Line(VersionH, major, minor, status), b);
            ok == r.0 && major' == r.1.major && minor' == r.1.minor && status' == r.1.status
  {
    major', minor', status' := major, minor, status;
    var state := VersionH;
    var pos := 0;
    while pos < |b| && state != Fail
      invariant 0 <= pos <= |b|
      invariant Run(Line(state, major', minor', status'), b[pos..]) == Run(Line(VersionH, major, minor, status), b)
    {
      assert b[pos..][1..] == b[pos + 1..];
      var c := b[pos];
      pos := pos + 1;
      match state {
        case VersionH => state := if c == 72 then VersionT1 else Fail;
        case VersionT1 => state := if c == 84 then VersionT2 else Fail;
        case VersionT2 => state := if c == 84 then VersionP else Fail;
        case VersionP => state := if c == 80 then VersionSlash else Fail;
        case VersionSlash => state := if c == SLASH then MajorStart else Fail;
        case MajorStart =>
          if IsDigit(c) { major', state := major' * 10 + c - 48, Major; } else { state := Fail; }
        case Major =>
          if c == DOT { state := MinorStart; }
          else if IsDigit(c) { major' := major' * 10 + c - 48; } else { state := Fail; }
        case MinorStart =>
          if IsDigit(c) { minor', state := minor' * 10 + c - 48, Minor; } else { state := Fail; }
        case Minor =>
          if c == SP { state := StatusStart; }
          else if IsDigit(c) { minor' := minor' * 10 + c - 48; } else { state := Fail; }
        case StatusStart =>
          if IsDigit(c) { status', state := status' * 10 + c - 48, Status; } else { state := Fail; }
        case Status =>
          if c == SP { state := ReasonPhrase; }
          else if IsDigit(c) { status' := status' * 10 + c - 48; } else { state := Fail; }
        case ReasonPhrase =>
          if c == CR { state := Linefeed; } else if R.IsCtl(c) { state := Fail; }
        case Linefeed => return c == LF, major', minor', status';
      }
    }
    return false, major', minor', status';
  }

  // ----- printing -----

  function Print(n: nat): (d: bytes)
    ensures d != [] && Decimal(d) == n
    ensures forall i :: 0 <= i < |d| ==> IsDigit(d[i])
  {
    if n < 10 then
      assert Decimal([48 + n]) == Decimal([]) * 10 + n;
      [48 + n]
    else
      DecimalPush(Print(n / 10), 48 + n % 10);
      Print(n / 10) + [48 + n % 10]
  }

  const OK: bytes := [79, 75]
  const APPLICATION_JSON: bytes := H.Ascii("application/json")

  function StatusLine(major: bytes, minor: bytes, status: bytes, reason: bytes): bytes {
    G.HTTP_SLASH + (major + ([DOT] + (minor + ([SP] + (status + ([SP] + (reason + CRLF)))))))
  }

  function ResponseLines(length: nat): seq<G.Line> {
    [G.Line(H.CONTENT_TYPE, APPLICATION_JSON, []), G.Line(H.CONTENT_LENGTH, Print(length), [])]
  }

  function Response(major: nat, minor: nat, body: bytes): bytes {
    StatusLine(Print(major), Print(minor), Print(200), OK)
    + (G.LinesBytes(ResponseLines(|body|)) + CRLF + body)
  }

  // ----- the status line is recovered -----

  // The number a state accumulates digits into.
  function WithNumber(k: Line, s: State, v: int): Line {
    if s == Major then k.(state := s, major := v)
    else if s == Minor then k.(state := s, minor := v)
    else k.(state := s, status := v)
  }

  predicate Accumulates(s: State) { s == Major || s == Minor || s == Status }

  lemma {:induction false} DigitRun(k: Line, s: State, digits: bytes, prefix: bytes, rest: bytes)
    requires Accumulates(s) && forall i :: 0 <= i < |digits| ==> IsDigit(digits[i])
    ensures Run(WithNumber(k, s, Decimal(prefix)), digits + rest)
         == Run(WithNumber(k, s, Decimal(prefix + digits)), rest)
    decreases digits
  {
    if digits == [] {
      assert prefix + digits == prefix && digits + rest == rest;
    } else {
      hide Step, WithNumber;
      assert (digits + rest)[1..] == digits[1..] + rest;
      DecimalPush(prefix, digits[0]);
      OneDigit(k, s, Decimal(prefix), digits[0]);
      DigitRun(k, s, digits[1..], prefix + [digits[0]], rest);
      assert prefix + [digits[0]] + digits[1..] == prefix + digits;
    }
  }

  lemma OneDigit(k: Line, s: State, n: int, d: byte)
    requires Accumulates(s) && IsDigit(d)
    ensures Step(WithNumber(k, s, n), d) == WithNumber(k, s, n * 10 + d - 48)
    ensures WithNumber(k, s, n).state == s
  {
  }

  lemma NumberRun(k: Line, s: State, digits: bytes, rest: bytes)
    requires digits != [] && forall i :: 0 <= i < |digits| ==> IsDigit(digits[i])
    requires || (k.state == MajorStart && s == Major && k.major == 0)
             || (k.state == MinorStart && s == Minor && k.minor == 0)
             || (k.state == StatusStart && s == Status && k.status == 0)
    ensures Run(k, digits + rest) == Run(WithNumber(k, s, Decimal(digits)), rest)
  {
    var d := digits[0];
    assert [] + [d] == [d] && [d] + digits[1..] == digits;
    assert (digits + rest)[1..] == digits[1..] + rest;
    DecimalPush([], d);
    assert Step(k, d) == WithNumber(k, s, Decimal([d]));
    DigitRun(k, s, digits[1..], [d], rest);
  }

  lemma {:induction false} ReasonRun(k: Line, reason: bytes, rest: bytes)
    requires k.state == ReasonPhrase && forall i :: 0 <= i < |reason| ==> !R.IsCtl(reason[i])
    ensures Run(k, reason + (CRLF + rest)) == (true, k.(state := Linefeed))
    decreases reason
  {
    if reason == [] {
      var b := CRLF + rest;
      assert reason + b == b && b[0] == CR && b[1..][0] == LF;
    } else {
      assert reason + (CRLF + rest) == [reason[0]] + (reason[1..] + (CRLF + rest));
      assert Step(k, reason[0]) == k;
      MarkRun(k, reason[0], reason[1..] + (CRLF + rest));
      ReasonRun(k, reason[1..], rest);
      hide Run, Step;
    }
  }

  lemma MarkRun(k: Line, c: byte, rest: bytes)
    requires k.state != Fail && k.state != Linefeed
    ensures Run(k, [c] + rest) == Run(Step(k, c), rest)
  {
    assert ([c] + rest)[1..] == rest;
  }

  lemma SlashRun(k: Line, rest: bytes)
    requires k.state == VersionH
    ensures Run(k, G.HTTP_SLASH + rest) == Run(k.(state := MajorStart), rest)
  {
    assert G.HTTP_SLASH + rest == [72] + ([84] + ([84] + ([80] + ([SLASH] + rest))));
    MarkRun(k, 72, [84] + ([84] + ([80] + ([SLASH] + rest))));
    MarkRun(k.(state := VersionT1), 84, [84] + ([80] + ([SLASH] + rest)));
    MarkRun(k.(state := VersionT2), 84, [80] + ([SLASH] + rest));
    MarkRun(k.(state := VersionP), 80, [SLASH] + rest);
    MarkRun(k.(state := VersionSlash), SLASH, rest);
  }

  // Every status line, whatever follows it, is accepted and its three numbers recovered.
  lemma StatusLineRecovered(major: bytes, minor: bytes, status: bytes, reason: bytes, rest: bytes)
    requires major != [] && forall i :: 0 <= i < |major| ==> IsDigit(major[i])
    requires minor != [] && forall i :: 0 <= i < |minor| ==> IsDigit(minor[i])
    requires status != [] && forall i :: 0 <= i < |status| ==> IsDigit(status[i])
    requires forall i :: 0 <= i < |reason| ==> !R.IsCtl(reason[i])
    ensures Run(Line(VersionH, 0, 0, 0), StatusLine(major, minor, status, reason) + rest)
         == (true, Line(Linefeed, Decimal(major), Decimal(minor), Decimal(status)))
  {
    hide Run, Decimal;
    var M, m, n := Decimal(major), Decimal(minor), Decimal(status);
    var b1 := reason + (CRLF + rest);
    var b2 := status + ([SP] + b1);
    var b3 := minor + ([SP] + b2);
    var b4 := major + ([DOT] + b3);
    assert StatusLine(major, minor, status, reason) + rest == G.HTTP_SLASH + b4;
    SlashRun(Line(VersionH, 0, 0, 0), b4);
    NumberRun(Line(MajorStart, 0, 0, 0), Major, major, [DOT] + b3);
    MarkRun(Line(Major, M, 0, 0), DOT, b3);
    NumberRun(Line(MinorStart, M, 0, 0), Minor, minor, [SP] + b2);
    MarkRun(Line(Minor, M, m, 0), SP, b2);
    NumberRun(Line(StatusStart, M, m, 0), Status, status, [SP] + b1);
    MarkRun(Line(Status, M, m, n), SP, b1);
    ReasonRun(Line(ReasonPhrase, M, m, n), reason, rest);
  }

  // ----- and nothing else is accepted -----

  datatype Parts = Parts(major: bytes, minor: bytes, status: bytes, reason: bytes)

  predicate Number(d: bytes) { d != [] && forall i :: 0 <= i < |d| ==> IsDigit(d[i]) }

  predicate ValidParts(p: Parts) {
    Number(p.major) && Number(p.minor) && Number(p.status) && forall i :: 0 <= i < |p.reason| ==> !R.IsCtl(p.reason[i])
  }

  predicate BeginsWith(b: bytes, p: Parts) { ValidParts(p) && StatusLine(p.major, p.minor, p.status, p.reason) <= b }

  // The mark that ends a number, and the state behind it.
  function Mark(s: State): byte { if s == Major then DOT else SP }

  function Behind(s: State): State {
    if s == Major then MinorStart else if s == Minor then StatusStart else ReasonPhrase
  }

  lemma RunHead(k: Line, b: bytes)
    requires Run(k, b).0 && k.state != Linefeed
    ensures b != [] && Run(Step(k, b[0]), b[1..]).0 && Step(k, b[0]).state != Fail
  {
    hide Step;
  }

  lemma DigitOrMark(k: Line, c: byte)
    requires Accumulates(k.state) && Step(k, c).state != Fail
    ensures if c == Mark(k.state) then Step(k, c).state == Behind(k.state)
            else IsDigit(c) && Step(k, c).state == k.state
  {
  }

  lemma PrefixLine(b: bytes, digits: bytes, rest: bytes)
    requires b != [] && b[1..] == digits + rest
    ensures b == [b[0]] + digits + rest
  {
    assert b == [b[0]] + b[1..];
  }

  lemma {:induction false} DigitsRead(k: Line, b: bytes) returns (digits: bytes, rest: bytes, k': Line)
    requires Accumulates(k.state) && Run(k, b).0
    ensures b == digits + ([Mark(k.state)] + rest) && forall i :: 0 <= i < |digits| ==> IsDigit(digits[i])
    ensures k'.state == Behind(k.state) && Run(k', rest).0
    decreases b
  {
    RunHead(k, b);
    DigitOrMark(k, b[0]);
    hide Run, Step;
    if b[0] == Mark(k.state) {
      digits, rest, k' := [], b[1..], Step(k, b[0]);
      assert [] + ([Mark(k.state)] + rest) == b;
    } else {
      digits, rest, k' := DigitsRead(Step(k, b[0]), b[1..]);
      PrefixLine(b, digits, [Mark(k.state)] + rest);
      digits := [b[0]] + digits;
    }
  }

  lemma NumberRead(k: Line, s: State, b: bytes) returns (digits: bytes, rest: bytes, k': Line)
    requires (k.state == MajorStart && s == Major) || (k.state == MinorStart && s == Minor)
        || (k.state == StatusStart && s == Status)
    requires Run(k, b).0
    ensures b == digits + ([Mark(s)] + rest) && Number(digits) && k'.state == Behind(s) && Run(k', rest).0
  {
    RunHead(k, b);
    assert Step(k, b[0]).state == s && IsDigit(b[0]);
    hide Run, Step;
    digits, rest, k' := DigitsRead(Step(k, b[0]), b[1..]);
    PrefixLine(b, digits, [Mark(s)] + rest);
    digits := [b[0]] + digits;
  }

  lemma {:induction false} ReasonRead(k: Line, b: bytes) returns (reason: bytes, rest: bytes)
    requires k.state == ReasonPhrase && Run(k, b).0
    ensures b == reason + (CRLF + rest) && forall i :: 0 <= i < |reason| ==> !R.IsCtl(reason[i])
    decreases b
  {
    if b[0] == CR {
      reason, rest := [], b[2..];
      assert b[1..][0] == b[1] == LF;
      assert [] + (CRLF + rest) == b;
    } else {
      reason, rest := ReasonRead(Step(k, b[0]), b[1..]);
      reason := [b[0]] + reason;
      assert b == [b[0]] + b[1..];
    }
  }

  lemma MarkRead(k: Line, c: byte, next: State, b: bytes) returns (rest: bytes)
    requires Run(k, b).0 && k.state != Linefeed
    requires forall d: byte :: Step(k, d) == Expect(k, d, c, next)
    ensures b == [c] + rest && Run(k.(state := next), rest).0
  {
    rest := b[1..];
    assert Step(k, b[0]) == Expect(k, b[0], c, next);
    assert b == [b[0]] + rest;
  }

  lemma SlashRead(k: Line, b: bytes) returns (rest: bytes)
    requires k.state == VersionH && Run(k, b).0
    ensures b == G.HTTP_SLASH + rest && Run(k.(state := MajorStart), rest).0
  {
    hide Run;
    var b1 := MarkRead(k, 72, VersionT1, b);
    var b2 := MarkRead(k.(state := VersionT1), 84, VersionT2, b1);
    var b3 := MarkRead(k.(state := VersionT2), 84, VersionP, b2);
    var b4 := MarkRead(k.(state := VersionP), 80, VersionSlash, b3);
    rest := MarkRead(k.(state := VersionSlash), SLASH, MajorStart, b4);
    assert b == [72] + ([84] + ([84] + ([80] + ([SLASH] + rest))));
  }

  lemma StatusLineRead(b: bytes) returns (p: Parts)
    requires Run(Line(VersionH, 0, 0, 0), b).0
    ensures BeginsWith(b, p)
  {
    hide Run, Step;
    var b1 := SlashRead(Line(VersionH, 0, 0, 0), b);
    var major, b2, k2 := NumberRead(Line(MajorStart, 0, 0, 0), Major, b1);
    var minor, b3, k3 := NumberRead(k2, Minor, b2);
    var status, b4, k4 := NumberRead(k3, Status, b3);
    var reason, rest := ReasonRead(k4, b4);
    p := Parts(major, minor, status, reason);
    LineThenRest(p, rest);
  }

  lemma LineThenRest(p: Parts, rest: bytes)
    ensures StatusLine(p.major, p.minor, p.status, p.reason) + rest
         == G.HTTP_SLASH + (p.major + ([DOT] + (p.minor + ([SP] + (p.status + ([SP] + (p.reason + (CRLF + rest))))))))
  {
  }

  lemma {:induction false} SameUpTo(d: bytes, e: bytes, m: byte, x: bytes, y: bytes)
    requires m !in d && m !in e && d + ([m] + x) == e + ([m] + y)
    ensures d == e && x == y
    decreases d
  {
    var s, t := d + ([m] + x), e + ([m] + y);
    if d == [] || e == [] {
      assert s[0] == t[0];
      assert d == e;
      assert s[1..] == x && t[1..] == y;
    } else {
      assert s[0] == d[0] && t[0] == e[0] && s[1..] == d[1..] + ([m] + x) && t[1..] == e[1..] + ([m] + y);
      SameUpTo(d[1..], e[1..], m, x, y);
      assert d == [d[0]] + d[1..] && e == [e[0]] + e[1..];
    }
  }

  lemma PartsFacts(b: bytes, p: Parts) returns (rest: bytes)
    requires BeginsWith(b, p)
    ensures DOT !in p.major && SP !in p.minor && SP !in p.status && CR !in p.reason
    ensures b == G.HTTP_SLASH
                 + (p.major + ([DOT] + (p.minor + ([SP] + (p.status + ([SP] + (p.reason + ([CR] + rest))))))))
  {
    var line := StatusLine(p.major, p.minor, p.status, p.reason);
    var r := b[|line|..];
    LineThenRest(p, r);
    rest := [LF] + r;
    assert CRLF + r == [CR] + rest;
    assert line + r == b;
  }

  lemma SameBehind(a: bytes, x: bytes, y: bytes)
    requires a + x == a + y
    ensures x == y
  {
    assert x == (a + x)[|a|..] == (a + y)[|a|..] == y;
  }

  lemma OneStatusLine(b: bytes, p: Parts, q: Parts)
    requires BeginsWith(b, p) && BeginsWith(b, q)
    ensures p == q
  {
    hide *;
    var r := PartsFacts(b, p);
    var t := PartsFacts(b, q);
    var p4, q4 := p.reason + ([CR] + r), q.reason + ([CR] + t);
    var p3, q3 := p.status + ([SP] + p4), q.status + ([SP] + q4);
    var p2, q2 := p.minor + ([SP] + p3), q.minor + ([SP] + q3);
    SameBehind(G.HTTP_SLASH, p.major + ([DOT] + p2), q.major + ([DOT] + q2));
    SameUpTo(p.major, q.major, DOT, p2, q2);
    SameUpTo(p.minor, q.minor, SP, p3, q3);
    SameUpTo(p.status, q.status, SP, p4, q4);
    SameUpTo(p.reason, q.reason, CR, r, t);
  }

  // The language of the status-line automaton: it accepts exactly what begins with a status
  // line, there is one such line only, and its numbers are what comes out.
  lemma StatusLines(b: bytes)
    ensures Run(Line(VersionH, 0, 0, 0), b).0 <==> exists p :: BeginsWith(b, p)
    ensures forall p, q :: BeginsWith(b, p) && BeginsWith(b, q) ==> p == q
    ensures forall p :: BeginsWith(b, p) ==>
              Run(Line(VersionH, 0, 0, 0), b)
                  == (true, Line(Linefeed, Decimal(p.major), Decimal(p.minor), Decimal(p.status)))
  {
    forall p, q | BeginsWith(b, p) && BeginsWith(b, q)
      ensures p == q
    {
      OneStatusLine(b, p, q);
    }
    forall p | BeginsWith(b, p)
      ensures Run(Line(VersionH, 0, 0, 0), b)
          == (true, Line(Linefeed, Decimal(p.major), Decimal(p.minor), Decimal(p.status)))
    {
      var line := StatusLine(p.major, p.minor, p.status, p.reason);
      StatusLineRecovered(p.major, p.minor, p.status, p.reason, b[|line|..]);
      assert line + b[|line|..] == b;
    }
    if Run(Line(VersionH, 0, 0, 0), b).0 {
      var p := StatusLineRead(b);
    }
    hide Run, BeginsWith, Decimal;
  }

  // ----- the headers are recovered -----

  predicate Letters(s: string) {
    forall i :: 0 <= i < |s| ==> 'a' <= s[i] <= 'z' || 'A' <= s[i] <= 'Z' || s[i] == '-' || s[i] == '/'
  }

  lemma LettersAreText(s: string)
    requires Letters(s)
    ensures G.AllText(H.Ascii(s)) && A.Clean(H.Ascii(s))
    ensures (forall i :: 0 <= i < |s| ==> s[i] != '/') ==> R.AllToken(H.Ascii(s))
    ensures H.Trim(H.Ascii(s)) == H.Ascii(s)
  {
    assert H.TrimRight(H.Ascii(s)) == H.Ascii(s);
  }

  lemma {:induction false} LeadingRead(d: bytes)
    requires forall i :: 0 <= i < |d| ==> IsDigit(d[i])
    ensures H.LeadingDigits(d) == d && H.TrimLeft(d) == d && H.TrimRight(d) == d
    decreases d
  {
    if d != [] {
      LeadingRead(d[1..]);
    }
  }

  lemma PrintRead(n: nat)
    ensures H.Trim(Print(n)) == Print(n)
    ensures H.Atoi64(Print(n)) == if n > H.INT64_MAX then H.INT64_MAX else n
    ensures G.AllText(Print(n))
  {
    LeadingRead(Print(n));
  }

  lemma NamesDiffer()
    ensures |H.CONTENT_TYPE| == 12 && |H.CONTENT_LENGTH| == 14
    ensures forall v, info :: H.CheckHeader(H.CONTENT_TYPE, v, info) == info.(contentType := v)
    ensures forall v, info :: H.CheckHeader(H.CONTENT_LENGTH, v, info)
                           == info.(contentLength := H.Max(H.Atoi64(v), info.contentLength))
  {
    assert !H.HeadersEqual(H.CONTENT_LENGTH, H.CONTENT_TYPE);
  }

  lemma HeadersOfTwo(a: G.Line, b: G.Line)
    requires a.folds == [] && b.folds == []
    ensures G.HeadersOf([a, b]) == [R.Header(a.name, a.value), R.Header(b.name, b.value)]
  {
    assert [a, b][..1] == [a] && [a][..0] == [];
    assert a.value + [] == a.value && b.value + [] == b.value;
    assert G.HeadersOf([a]) == G.HeadersOf([]) + [G.HeaderOf(a)];
  }

  lemma LinesValid(length: nat)
    ensures var ls := ResponseLines(length);
            && G.ValidLines(ls)
            && G.HeadersOf(ls)
                == [R.Header(H.CONTENT_TYPE, APPLICATION_JSON), R.Header(H.CONTENT_LENGTH, Print(length))]
  {
    var a, b := G.Line(H.CONTENT_TYPE, APPLICATION_JSON, []), G.Line(H.CONTENT_LENGTH, Print(length), []);
    assert ResponseLines(length) == [a, b] && a.folds == [] && b.folds == [];
    NamesAreTokens();
    PrintRead(length);
    hide *;
    PlainLine(H.CONTENT_TYPE, APPLICATION_JSON);
    PlainLine(H.CONTENT_LENGTH, Print(length));
    TwoLines(a, b);
    HeadersOfTwo(a, b);
  }

  lemma NamesAreTokens()
    ensures H.CONTENT_TYPE != [] && R.AllToken(H.CONTENT_TYPE) && H.CONTENT_LENGTH != [] && R.AllToken(H.CONTENT_LENGTH)
    ensures G.AllText(APPLICATION_JSON)
  {
    LettersAreText("Content-Type");
    LettersAreText("Content-Length");
    LettersAreText("application/json");
    hide H.Ascii, G.AllText, R.AllToken, H.Trim, A.Clean;
    assert |"Content-Type"| == 12 && |"Content-Length"| == 14;
    NamesDiffer();
  }

  lemma TwoLines(a: G.Line, b: G.Line)
    requires G.ValidLine(a) && G.ValidLine(b)
    ensures G.ValidLines([a, b])
  {
    hide G.ValidLine;
  }

  lemma PlainLine(name: bytes, value: bytes)
    requires name != [] && R.AllToken(name) && G.AllText(value)
    ensures G.ValidLine(G.Line(name, value, []))
  {
  }

  // Two headers, one after the other.
  lemma RecordsOfTwo(info: H.Info, a: R.Header, b: R.Header)
    requires A.Clean(a.name) && A.Clean(b.name) && H.Trim(a.value) == a.value && H.Trim(b.value) == b.value
    ensures A.AllClean([a, b]) && A.TrimAll([a, b]) == [a, b]
    ensures A.InfoOf(info, [a, b]) == H.CheckHeader(b.name, b.value, H.CheckHeader(a.name, a.value, info))
  {
    assert [a, b][..1] == [a] && [a][..0] == [];
    hide H.Trim, H.CheckHeader, A.Clean;
    assert A.TrimAll([a]) == A.TrimAll([]) + [a];
    assert A.InfoOf(info, [a]) == H.CheckHeader(a.name, a.value, A.InfoOf(info, []));
  }

  // What the second header automaton makes of the two headers of a response.
  lemma RecordsOfResponse(info: H.Info, length: nat)
    ensures var hs := [R.Header(H.CONTENT_TYPE, APPLICATION_JSON), R.Header(H.CONTENT_LENGTH, Print(length))];
            && A.AllClean(hs) && A.TrimAll(hs) == hs
            && A.InfoOf(info, hs)
            == H.Info(APPLICATION_JSON,
                      H.Max(if length > H.INT64_MAX then H.INT64_MAX else length, info.contentLength),
                      info.location)
  {
    LettersAreText("Content-Type");
    LettersAreText("Content-Length");
    LettersAreText("application/json");
    PrintRead(length);
    NamesDiffer();
    hide H.Ascii, H.Trim, H.CheckHeader, Print, A.Clean, H.Atoi64, A.AllClean, A.TrimAll, A.InfoOf;
    RecordsOfTwo(info, R.Header(H.CONTENT_TYPE, APPLICATION_JSON), R.Header(H.CONTENT_LENGTH, Print(length)));
  }

  // Whatever `write_response` prints is read back by the repository's own parsers: the
  // status line gives the version and 200, the headers give the media type and the length
  // of the body, for every body and every version.
  lemma ResponseRecovered(major: nat, minor: nat, body: bytes, info: H.Info, headers: seq<R.Header>)
    ensures var status := StatusLine(Print(major), Print(minor), Print(200), OK);
            var response := Response(major, minor, body);
            && status <= response
            && Run(Line(VersionH, 0, 0, 0), response) == (true, Line(Linefeed, major, minor, 200))
            && var r := H.Run(H.Start(info, headers), response[|status|..]);
            && r.0
            && r.1.headers == headers + [R.Header(H.CONTENT_TYPE, APPLICATION_JSON),
                                         R.Header(H.CONTENT_LENGTH, Print(|body|))]
            && r.1.info == H.Info(APPLICATION_JSON,
                                  H.Max(if |body| > H.INT64_MAX then H.INT64_MAX else |body|, info.contentLength),
                                  info.location)
  {
    var ls := ResponseLines(|body|);
    var section := G.LinesBytes(ls) + CRLF + body;
    var status := StatusLine(Print(major), Print(minor), Print(200), OK);
    assert Response(major, minor, body) == status + section;
    assert (status + section)[|status|..] == section;
    hide *;
    assert forall i :: 0 <= i < |OK| ==> !R.IsCtl(OK[i]) by { OkIsText(); }
    StatusLineRecovered(Print(major), Print(minor), Print(200), OK, section);
    LinesValid(|body|);
    L.SectionAccepted(ls, body);
    EmptyHasNoHeaders();
    A.HeaderSections(G.Meaning(G.EMPTY), info, headers, section);
    RecordsOfResponse(info, |body|);
  }

  lemma EmptyHasNoHeaders()
    ensures G.Meaning(G.EMPTY).headers == []
  {
  }

  lemma OkIsText()
    ensures forall i :: 0 <= i < |OK| ==> !R.IsCtl(OK[i])
  {
  }

  // The connection's printer: the response is built piece by piece on the output stream.
  method WriteResponse(req: R.Request, body: bytes) returns (response: bytes)
    requires 0 <= req.versionMajor && 0 <= req.versionMinor
    ensures response == Response(req.versionMajor, req.versionMinor, body)
  {
    hide Print, H.Ascii;
    response := G.HTTP_SLASH + Print(req.versionMajor) + [DOT] + Print(req.versionMinor);
    response := response + [SP] + Print(200) + [SP] + OK + CRLF;
    assert response == StatusLine(Print(req.versionMajor), Print(req.versionMinor), Print(200), OK);
    var type_ := H.CONTENT_TYPE + [COLON, SP] + APPLICATION_JSON + CRLF;
    var length := H.CONTENT_LENGTH + [COLON, SP] + Print(|body|) + CRLF;
    LinesPrinted(|body|);
    response := response + type_ + length + CRLF + body;
  }

  lemma LinesPrinted(length: nat)
    ensures G.LinesBytes(ResponseLines(length))
         == H.CONTENT_TYPE + [COLON, SP] + APPLICATION_JSON + CRLF
          + (H.CONTENT_LENGTH + [COLON, SP] + Print(length) + CRLF)
  {
    var ls := ResponseLines(length);
    assert ls[..1] == [ls[0]] && ls[..1][..0] == [];
    hide Print, H.Ascii;
    assert G.FoldsBytes([]) == [];
    assert G.LinesBytes(ls[..1]) == G.LinesBytes([]) + (G.LineBytes(ls[0]) + CRLF);
  }

  // ----- in characters -----

  // Numbers are printed in decimal, without leading zeros.
  lemma {:induction false} Printed(n: nat)
    ensures var d := Print(n);
            && Decimal(d) == n && (forall i :: 0 <= i < |d| ==> '0' <= d[i] as char <= '9')
            && (|d| > 1 ==> d[0] != '0' as int) && (n > 0 ==> d[0] != '0' as int)
    decreases n
  {
    if n >= 10 {
      Printed(n / 10);
    }
  }

  // A status line: the version, the status, and the reason.
  lemma StatusLineText(major: bytes, minor: bytes, status: bytes, reason: bytes)
    ensures StatusLine(major, minor, status, reason)
         == ['H' as int, 'T' as int, 'T' as int, 'P' as int, '/' as int] + major + ['.' as int] + minor + [' ' as int]
          + status + [' ' as int] + reason + ['\r' as int, '\n' as int]
  {
    assert G.HTTP_SLASH == ['H' as int, 'T' as int, 'T' as int, 'P' as int, '/' as int];
    hide *;
    Nested(G.HTTP_SLASH, major, [DOT], minor, [SP], status, reason, CRLF);
  }

  lemma Nested(a: bytes, b: bytes, c: bytes, d: bytes, e: bytes, f: bytes, g: bytes, h: bytes)
    ensures a + (b + (c + (d + (e + (f + (e + (g + h))))))) == a + b + c + d + e + f + e + g + h
  {
  }

  // The response, piece by piece as it is put on the stream.
  lemma ResponseText(major: nat, minor: nat, body: bytes)
    ensures Response(major, minor, body)
         == H.Ascii("HTTP/") + Print(major) + H.Ascii(".") + Print(minor) + H.Ascii(" 200 OK\r\n")
          + (H.Ascii("Content-Type") + H.Ascii(": ") + H.Ascii("application/json") + H.Ascii("\r\n"))
          + (H.Ascii("Content-Length") + H.Ascii(": ") + Print(|body|) + H.Ascii("\r\n"))
          + H.Ascii("\r\n") + body
  {
    StatusLineText(Print(major), Print(minor), Print(200), OK);
    LinesPrinted(|body|);
    FirstLineText(Print(major), Print(minor));
    assert H.Ascii(": ") == [COLON, SP] && H.Ascii("\r\n") == CRLF;
    hide Print, H.Ascii, StatusLine, G.LinesBytes;
  }

  lemma FirstLineText(major: bytes, minor: bytes)
    ensures StatusLine(major, minor, Print(200), OK)
         == H.Ascii("HTTP/") + major + H.Ascii(".") + minor + H.Ascii(" 200 OK\r\n")
  {
    StatusLineText(major, minor, Print(200), OK);
    assert H.Ascii("HTTP/") == G.HTTP_SLASH && H.Ascii(".") == [DOT];
    assert Print(2) == [50] && Print(20) == [50, 48] && Print(200) == [50, 48, 48];
    assert H.Ascii(" 200 OK\r\n") == [SP] + [50, 48, 48] + [SP] + OK + CRLF;
    hide *;
    Tail(G.HTTP_SLASH + major + [DOT] + minor, [SP], [50, 48, 48], OK, CRLF);
  }

  lemma Tail(a: bytes, b: bytes, c: bytes, d: bytes, e: bytes)
    ensures a + (b + c + b + d + e) == a + b + c + b + d + e
  {
  }
}
