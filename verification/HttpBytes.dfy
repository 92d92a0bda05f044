// The HTTP parsers in characters: what a well-formed request looks like, which characters its
// parts are made of, and what its numbers are.
module HttpBytes {
  import opened Bytes
  import R = HttpRequest
  import G = HttpGrammar
  import L = HttpLanguage
  import H = HttpHeaders

  // ----- characters -----

  predicate IsLetterOrDigit(c: byte) {
    var ch := c as char;
    'a' <= ch <= 'z' || 'A' <= ch <= 'Z' || '0' <= ch <= '9'
  }

  predicate IsTokenCharacter(c: byte) {
    IsLetterOrDigit(c)
    || (c as char) in {'!', '#', '$', '%', '&', '\'', '*', '+', '-', '.', '^', '_', '`', '|', '~'}
  }

  predicate IsPrintable(c: byte) { c >= ' ' as int && c != 127 }

  // The characters of a token for the request parser, and for the second header automaton.
  lemma TokenCharacters(c: byte)
    ensures R.IsToken(c) <==> IsTokenCharacter(c)
    ensures H.IsToken(c) <==> '!' <= c as char <= '~' && (c as char) !in {'`', '{', '}', '^', '|'}
  {
  }

  lemma OtherCharacters(c: byte)
    ensures R.IsCtl(c) <==> !IsPrintable(c)
    ensures H.IsSpace(c) <==> (c as char) in {' ', '\t', '\n', '\r'} || c == 11 || c == 12
    ensures IsDigit(c) <==> '0' <= c as char <= '9'
    ensures IsAlnum(c) <==> IsLetterOrDigit(c)
  {
  }

  // ----- numbers -----

  function Pow10(k: nat): (p: nat)
    ensures p > 0
  {
    if k == 0 then 1 else 10 * Pow10(k - 1)
  }

  // The value of a string of digits: the sum of its digits by their places.
  lemma {:induction false} NumberByPlaces(d: bytes, c: byte)
    ensures Decimal([c] + d) == (c - 48) * Pow10(|d|) + Decimal(d)
    decreases |d|
  {
    if d == [] {
      assert [c] + d == [c] && [c][..0] == [];
      assert Decimal([c]) == Decimal([]) * 10 + c - 48;
    } else {
      var n := |d| - 1;
      assert ([c] + d)[..n + 1] == [c] + d[..n] && ([c] + d)[n + 1] == d[n];
      NumberByPlaces(d[..n], c);
      assert Pow10(|d|) == 10 * Pow10(n);
      assert Decimal([c] + d) == Decimal([c] + d[..n]) * 10 + d[n] - 48;
    }
  }

  // ----- requests -----

  // A line break, blanks, and more text.
  function FoldTexts(fs: seq<G.Fold>): seq<bytes> {
    seq(|fs|, i requires 0 <= i < |fs| => ['\r' as int, '\n' as int] + fs[i].lws + fs[i].text)
  }

  // A header with its continuations, and the line break that ends it.
  function HeaderText(l: G.Line): bytes {
    l.name + [':' as int, ' ' as int] + l.value
    + Concat(FoldTexts(l.folds))
    + ['\r' as int, '\n' as int]
  }

  function HeaderTexts(ls: seq<G.Line>): seq<bytes> { seq(|ls|, i requires 0 <= i < |ls| => HeaderText(ls[i])) }

  function RequestText(t: G.Syntax): bytes {
    t.verb + [' ' as int] + t.uri + [' ' as int, 'H' as int, 'T' as int, 'T' as int, 'P' as int, '/' as int]
    + t.major + ['.' as int] + t.minor + ['\r' as int, '\n' as int]
    + Concat(HeaderTexts(t.lines))
    + ['\r' as int, '\n' as int]
  }

  lemma {:induction false} FoldsConcat(fs: seq<G.Fold>)
    ensures G.FoldsBytes(fs) == Concat(FoldTexts(fs))
    decreases |fs|
  {
    if fs != [] {
      var n := |fs| - 1;
      FoldsConcat(fs[..n]);
      var last := ['\r' as int, '\n' as int] + fs[n].lws + fs[n].text;
      assert FoldTexts(fs) == FoldTexts(fs[..n]) + [last];
      ConcatAppend(FoldTexts(fs[..n]), [last]);
      ConcatSingle(last);
      AppendAssoc(G.FoldsBytes(fs[..n]), CRLF, fs[n].lws);
      AppendAssoc(G.FoldsBytes(fs[..n]), CRLF + fs[n].lws, fs[n].text);
    }
  }

  lemma LineText(l: G.Line)
    ensures G.LineBytes(l) + CRLF == HeaderText(l)
  {
    FoldsConcat(l.folds);
    var folds := G.FoldsBytes(l.folds);
    hide G.FoldsBytes;
    assert G.LineBytes(l) == l.name + [COLON, SP] + l.value + folds;
  }

  lemma {:induction false} LinesConcat(ls: seq<G.Line>)
    ensures G.LinesBytes(ls) == Concat(HeaderTexts(ls))
    decreases |ls|
  {
    if ls != [] {
      var n := |ls| - 1;
      LinesConcat(ls[..n]);
      LineText(ls[n]);
      hide HeaderText, G.LineBytes;
      assert HeaderTexts(ls) == HeaderTexts(ls[..n]) + [HeaderText(ls[n])];
      ConcatAppend(HeaderTexts(ls[..n]), [HeaderText(ls[n])]);
      ConcatSingle(HeaderText(ls[n]));
    }
  }

  lemma RequestIsText(t: G.Syntax)
    ensures G.Render(t) == RequestText(t)
  {
    LinesConcat(t.lines);
    hide G.LinesBytes, HeaderText, Concat;
    var headers := G.LinesBytes(t.lines);
    assert [' ' as int, 'H' as int, 'T' as int, 'T' as int, 'P' as int, '/' as int] == [SP] + G.HTTP_SLASH;
    var target := t.verb + [SP] + t.uri;
    assert RequestText(t) == target + ([SP] + G.HTTP_SLASH) + t.major + [DOT] + t.minor + CRLF + headers + CRLF;
    assert G.Render(t) == target + [SP] + (G.HTTP_SLASH + t.major + [DOT] + t.minor + CRLF + (headers + CRLF));
    hide *;
    Regrouped(target, [SP], G.HTTP_SLASH, t.major, [DOT], t.minor, CRLF, headers);
  }

  lemma Regrouped(a: bytes, b: bytes, c: bytes, d: bytes, e: bytes, f: bytes, g: bytes, h: bytes)
    ensures a + (b + c) + d + e + f + g + h + g == a + b + (c + d + e + f + g + (h + g))
  {
  }

  // ----- the language of the request parser, in characters -----

  // Every character of the string is of the given kind.
  predicate All(b: bytes, kind: byte -> bool) { forall i :: 0 <= i < |b| ==> kind(b[i]) }

  predicate IsBlank(c: byte) { c == ' ' as int || c == '\t' as int }

  predicate IsTargetCharacter(c: byte) { IsPrintable(c) && c != ' ' as int }

  predicate IsFigure(c: byte) { '0' <= c as char <= '9' }

  predicate WellFormedFold(f: G.Fold) {
    f.lws != [] && All(f.lws, IsBlank) && All(f.text, IsPrintable) && (f.text != [] ==> f.text[0] != ' ' as int)
  }

  predicate WellFormedLine(l: G.Line) {
    && l.name != [] && All(l.name, IsTokenCharacter) && All(l.value, IsPrintable)
    && forall i :: 0 <= i < |l.folds| ==> WellFormedFold(l.folds[i])
  }

  predicate WellFormed(t: G.Syntax) {
    && t.verb != [] && All(t.verb, IsTokenCharacter) && All(t.uri, IsTargetCharacter)
    && t.major != [] && All(t.major, IsFigure) && t.minor != [] && All(t.minor, IsFigure)
    && forall i :: 0 <= i < |t.lines| ==> WellFormedLine(t.lines[i])
  }

  lemma TokensAre(b: bytes)
    ensures R.AllToken(b) <==> All(b, IsTokenCharacter)
  {
    forall i | 0 <= i < |b|
      ensures R.IsToken(b[i]) <==> IsTokenCharacter(b[i])
    {
      TokenCharacters(b[i]);
    }
    hide R.IsToken, IsTokenCharacter;
  }

  lemma ValidFoldIs(f: G.Fold)
    ensures G.ValidFold(f) <==> WellFormedFold(f)
  {
  }

  lemma ValidLineIs(l: G.Line)
    ensures G.ValidLine(l) <==> WellFormedLine(l)
  {
    TokensAre(l.name);
    assert G.AllText(l.value) <==> All(l.value, IsPrintable);
    forall i | 0 <= i < |l.folds|
      ensures G.ValidFold(l.folds[i]) <==> WellFormedFold(l.folds[i])
    {
      ValidFoldIs(l.folds[i]);
    }
    hide R.AllToken, IsTokenCharacter, G.ValidFold, WellFormedFold, All, G.AllText;
  }

  lemma ValidIs(t: G.Syntax)
    ensures G.Valid(t) <==> WellFormed(t)
  {
    TokensAre(t.verb);
    assert G.AllUri(t.uri) <==> All(t.uri, IsTargetCharacter);
    assert G.AllDigit(t.major) <==> All(t.major, IsFigure);
    assert G.AllDigit(t.minor) <==> All(t.minor, IsFigure);
    forall i | 0 <= i < |t.lines|
      ensures G.ValidLine(t.lines[i]) <==> WellFormedLine(t.lines[i])
    {
      ValidLineIs(t.lines[i]);
    }
    hide R.AllToken, IsTokenCharacter, G.ValidLine, WellFormedLine, All, G.AllUri, G.AllDigit;
  }

  function Texts(fs: seq<G.Fold>): seq<bytes> { seq(|fs|, i requires 0 <= i < |fs| => fs[i].text) }

  // The request holds what was written, by name: the method, the target, the two numbers, and
  // the headers in order, each with the text of its continuations behind its value.
  predicate Holds(q: R.Fields, t: G.Syntax) {
    && q.verb == t.verb && q.uri == t.uri && q.major == Decimal(t.major) && q.minor == Decimal(t.minor)
    && |q.headers| == |t.lines|
    && forall i :: 0 <= i < |t.lines| ==>
         q.headers[i] == R.Header(t.lines[i].name, t.lines[i].value + Concat(Texts(t.lines[i].folds)))
  }

  lemma {:induction false} TextsConcat(fs: seq<G.Fold>)
    ensures G.FoldsText(fs) == Concat(Texts(fs))
    decreases |fs|
  {
    if fs != [] {
      var n := |fs| - 1;
      TextsConcat(fs[..n]);
      assert Texts(fs) == Texts(fs[..n]) + [fs[n].text];
      ConcatAppend(Texts(fs[..n]), [fs[n].text]);
      ConcatSingle(fs[n].text);
    }
  }

  lemma {:induction false} HeaderAt(ls: seq<G.Line>, i: nat)
    requires i < |ls|
    ensures G.HeadersOf(ls)[i] == R.Header(ls[i].name, ls[i].value + Concat(Texts(ls[i].folds)))
    decreases |ls|
  {
    if i == |ls| - 1 {
      TextsConcat(ls[i].folds);
    } else {
      HeaderAt(ls[..|ls| - 1], i);
    }
  }

  lemma MeaningHolds(t: G.Syntax)
    ensures Holds(G.Meaning(t), t)
  {
    forall i | 0 <= i < |t.lines|
      ensures G.HeadersOf(t.lines)[i] == R.Header(t.lines[i].name, t.lines[i].value + Concat(Texts(t.lines[i].folds)))
    {
      HeaderAt(t.lines, i);
    }
  }

  // A fresh parser accepts exactly the inputs that begin with a well-formed request, stops at
  // its end, and fills in what it says.
  lemma Requests(q: R.Fields, b: bytes)
    requires R.Blank(q)
    ensures var o := R.Parse(R.MethodStart, q, b);
            && (o.result == R.True <==> exists t :: WellFormed(t) && RequestText(t) <= b)
            && forall t :: WellFormed(t) && RequestText(t) <= b ==> o.consumed == |RequestText(t)| && Holds(o.fields, t)
  {
    L.Language(q, b);
    forall t
      ensures G.Valid(t) <==> WellFormed(t)
      ensures G.Render(t) == RequestText(t)
      ensures Holds(G.Meaning(t), t)
    {
      ValidIs(t);
      RequestIsText(t);
      MeaningHolds(t);
    }
    hide *;
  }

  // ----- when it is refused, and when more is wanted -----

  // How far a state is from the end of the shortest request.
  function Distance(s: R.State): nat {
    match s
    case Newline3 => 1 case HeaderLineStart => 2 case Newline1 => 3 case Newline2 => 3
    case HeaderValue => 4 case HeaderLws => 4 case SpaceBeforeValue => 5 case HeaderName => 6
    case Minor => 4 case MinorStart => 5 case Major => 6 case MajorStart => 7
    case VersionSlash => 8 case VersionP => 9 case VersionT2 => 10 case VersionT1 => 11 case VersionH => 12
    case Uri => 13 case UriStart => 14 case Method => 14 case MethodStart => 15
  }

  // A character that brings it nearer.
  function Nearer(s: R.State): byte {
    match s
    case MethodStart => 'A' as int
    case Method => SP
    case UriStart => SLASH
    case Uri => SP
    case VersionH => 'H' as int
    case VersionT1 => 'T' as int
    case VersionT2 => 'T' as int
    case VersionP => 'P' as int
    case VersionSlash => SLASH
    case MajorStart => '1' as int
    case Major => DOT
    case MinorStart => '1' as int
    case Minor => CR
    case HeaderName => COLON
    case SpaceBeforeValue => SP
    case HeaderValue => CR
    case HeaderLws => CR
    case HeaderLineStart => CR
    case _ => LF
  }

  lemma OneNearer(s: R.State, q: R.Fields)
    requires R.Safe(s, q)
    ensures var n := R.Next(s, q, Nearer(s));
            if s == R.Newline3 then n.result == R.True
            else n.result == R.Indeterminate && Distance(n.state) < Distance(s)
  {
  }

  lemma {:induction false} CanFinish(s: R.State, q: R.Fields) returns (rest: bytes)
    requires R.Safe(s, q)
    ensures R.Parse(s, q, rest).result == R.True
    decreases Distance(s)
  {
    OneNearer(s, q);
    var n := R.Next(s, q, Nearer(s));
    rest := [Nearer(s)];
    if s != R.Newline3 {
      var more := CanFinish(n.state, n.fields);
      rest := [Nearer(s)] + more;
      assert rest[1..] == more;
    }
    hide R.Next, Nearer, Distance;
  }

  // A parser that has not accepted wants more exactly if there is more with which it accepts,
  // and has refused otherwise.
  lemma WantsMore(s: R.State, q: R.Fields, b: bytes)
    requires R.Safe(s, q) && R.Parse(s, q, b).result != R.True
    ensures R.Parse(s, q, b).result == R.Indeterminate <==> exists rest :: R.Parse(s, q, b + rest).result == R.True
    ensures R.Parse(s, q, b).result == R.False <==> forall rest :: R.Parse(s, q, b + rest).result == R.False
  {
    var o := R.Parse(s, q, b);
    hide R.Parse, R.Safe;
    forall rest
      ensures o.result == R.False ==> R.Parse(s, q, b + rest).result == R.False
    {
      R.ParseAppend(s, q, b, rest);
    }
    if o.result == R.Indeterminate {
      var rest := CanFinish(o.state, o.fields);
      R.ParseAppend(s, q, b, rest);
    } else {
      assert R.Parse(s, q, b + []).result == R.False;
    }
  }
}
