// The language of the request parser, as a grammar: syntax trees, the bytes a tree
// renders to, the request it means, and the proof that the parser recognises exactly
// the rendered trees, each of them with one tree only.
module HttpGrammar {
  import opened Bytes
  import opened HttpRequest

  // A continuation: a line break, at least one SP or HT, and more of the value.
  datatype Fold = Fold(lws: bytes, text: bytes)
  datatype Line = Line(name: bytes, value: bytes, folds: seq<Fold>)
  datatype Syntax = Syntax(verb: bytes, uri: bytes, major: bytes, minor: bytes, lines: seq<Line>)

  const HTTP_SLASH: bytes := [72, 84, 84, 80, SLASH]

  predicate AllUri(b: bytes) { forall i :: 0 <= i < |b| ==> !IsCtl(b[i]) && b[i] != SP }
  predicate AllDigit(b: bytes) { forall i :: 0 <= i < |b| ==> IsDigit(b[i]) }
  predicate AllText(b: bytes) { forall i :: 0 <= i < |b| ==> !IsCtl(b[i]) }
  predicate AllLws(b: bytes) { forall i :: 0 <= i < |b| ==> b[i] == SP || b[i] == HT }

  predicate ValidFold(f: Fold) {
    f.lws != [] && AllLws(f.lws) && AllText(f.text) && (f.text != [] ==> f.text[0] != SP)
  }

  predicate ValidFolds(fs: seq<Fold>) { forall i :: 0 <= i < |fs| ==> ValidFold(fs[i]) }

  predicate ValidLine(l: Line) {
    l.name != [] && AllToken(l.name) && AllText(l.value) && ValidFolds(l.folds)
  }

  predicate ValidLines(ls: seq<Line>) { forall i :: 0 <= i < |ls| ==> ValidLine(ls[i]) }

  predicate Valid(t: Syntax) {
    && t.verb != [] && AllToken(t.verb) && AllUri(t.uri)
    && t.major != [] && AllDigit(t.major) && t.minor != [] && AllDigit(t.minor)
    && ValidLines(t.lines)
  }

  // ----- what a tree renders to -----

  function FoldsBytes(fs: seq<Fold>): bytes {
    if fs == [] then []
    else var f := fs[|fs| - 1]; FoldsBytes(fs[..|fs| - 1]) + CRLF + f.lws + f.text
  }

  // A header line without the line break that ends it.
  function LineBytes(l: Line): bytes { l.name + [COLON, SP] + l.value + FoldsBytes(l.folds) }

  function LinesBytes(ls: seq<Line>): bytes {
    if ls == [] then [] else LinesBytes(ls[..|ls| - 1]) + (LineBytes(ls[|ls| - 1]) + CRLF)
  }

  function TargetBytes(t: Syntax): bytes { t.verb + [SP] + t.uri + [SP] }

  function VersionBytes(t: Syntax): bytes { HTTP_SLASH + t.major + [DOT] + t.minor + CRLF }

  function Render(t: Syntax): bytes {
    TargetBytes(t) + (VersionBytes(t) + (LinesBytes(t.lines) + CRLF))
  }

  // ----- what a tree means -----

  function FoldsText(fs: seq<Fold>): bytes {
    if fs == [] then [] else FoldsText(fs[..|fs| - 1]) + fs[|fs| - 1].text
  }

  function HeaderOf(l: Line): Header { Header(l.name, l.value + FoldsText(l.folds)) }

  function HeadersOf(ls: seq<Line>): (hs: seq<Header>)
    ensures |hs| == |ls|
  {
    if ls == [] then [] else HeadersOf(ls[..|ls| - 1]) + [HeaderOf(ls[|ls| - 1])]
  }

  function Meaning(t: Syntax): Fields {
    Fields(t.verb, t.uri, Decimal(t.major), Decimal(t.minor), HeadersOf(t.lines))
  }

  const EMPTY := Syntax([], [], [], [], [])

  // ----- partial trees: what has been read so far, state by state -----

  function Rank(s: State): nat {
    match s
    case MethodStart => 0 case Method => 1 case UriStart => 2 case Uri => 2
    case VersionH => 3 case VersionT1 => 3 case VersionT2 => 3 case VersionP => 3 case VersionSlash => 3
    case MajorStart => 4 case Major => 5 case MinorStart => 6 case Minor => 7 case Newline1 => 8
    case _ => 9
  }

  predicate OpenLine(s: State, l: Line) {
    match s
    case HeaderName => l.name != [] && AllToken(l.name) && l.value == [] && l.folds == []
    case SpaceBeforeValue => l.name != [] && AllToken(l.name) && l.value == [] && l.folds == []
    case HeaderValue => ValidLine(l) && (l.folds != [] ==> l.folds[|l.folds| - 1].text != [])
    case HeaderLws => ValidLine(l) && l.folds != [] && l.folds[|l.folds| - 1].text == []
    case _ => ValidLine(l)
  }

  // The header lines read so far, the last of them still open inside a header.
  predicate LinesShape(s: State, ls: seq<Line>) {
    match InsideHeader(s)
    case true => ls != [] && ValidLines(ls[..|ls| - 1]) && OpenLine(s, ls[|ls| - 1])
    case false => ValidLines(ls)
  }

  // The request line read so far, before the first header line.
  predicate TargetShape(s: State, t: Syntax) {
    && s != UriStart && Rank(s) < 9
    && AllToken(t.verb) && (t.verb != [] <==> Rank(s) >= 1)
    && AllUri(t.uri) && (Rank(s) < 2 ==> t.uri == [])
    && AllDigit(t.major) && (t.major != [] <==> Rank(s) >= 5)
    && AllDigit(t.minor) && (t.minor != [] <==> Rank(s) >= 7)
    && t.lines == []
  }

  function ReadTarget(s: State, t: Syntax): bytes {
    match s
    case MethodStart => []
    case Method => t.verb
    case _ => t.verb + [SP] + t.uri
  }

  function ReadVersion(s: State, t: Syntax): bytes {
    match s
    case VersionT1 => [72]
    case VersionT2 => [72, 84]
    case VersionP => [72, 84, 84]
    case VersionSlash => [72, 84, 84, 80]
    case MajorStart => HTTP_SLASH
    case Major => HTTP_SLASH + t.major
    case MinorStart => HTTP_SLASH + t.major + [DOT]
    case Minor => HTTP_SLASH + t.major + [DOT] + t.minor
    case Newline1 => HTTP_SLASH + t.major + [DOT] + t.minor + [CR]
    case _ => []
  }

  function OpenBytes(s: State, l: Line): bytes {
    match s
    case HeaderName => l.name
    case SpaceBeforeValue => l.name + [COLON]
    case Newline2 => LineBytes(l) + [CR]
    case _ => LineBytes(l)
  }

  function ReadHeaders(s: State, ls: seq<Line>): bytes {
    if InsideHeader(s) && ls != [] then LinesBytes(ls[..|ls| - 1]) + OpenBytes(s, ls[|ls| - 1])
    else if s == Newline3 then LinesBytes(ls) + [CR]
    else LinesBytes(ls)
  }

  // The bytes consumed before the first header line.
  function ReadLine(s: State, t: Syntax): bytes {
    if Rank(s) < 3 then ReadTarget(s, t) else TargetBytes(t) + ReadVersion(s, t)
  }

  function SetLast<T>(xs: seq<T>, x: T): seq<T>
    requires xs != []
  {
    xs[..|xs| - 1] + [x]
  }

  // One more byte of the value, or of the text of its last continuation.
  function PushText(l: Line, c: byte): Line {
    if l.folds == [] then l.(value := l.value + [c])
    else
      var f := l.folds[|l.folds| - 1];
      l.(folds := SetLast(l.folds, f.(text := f.text + [c])))
  }

  function PushLws(l: Line, c: byte): Line {
    if l.folds == [] then l
    else
      var f := l.folds[|l.folds| - 1];
      l.(folds := SetLast(l.folds, f.(lws := f.lws + [c])))
  }

  // How the header lines grow with a character the parser does not reject.
  function GrowLines(s: State, ls: seq<Line>, c: byte): seq<Line> {
    if s == HeaderLineStart && (ls == [] || (c != SP && c != HT)) then
      if c == CR then ls else ls + [Line([c], [], [])]
    else if c == CR || c == LF || ls == [] then ls
    else
      var l := ls[|ls| - 1];
      match s
      case HeaderLineStart => SetLast(ls, l.(folds := l.folds + [Fold([c], [])]))
      case HeaderName => if c == COLON then ls else SetLast(ls, l.(name := l.name + [c]))
      case HeaderValue => SetLast(ls, PushText(l, c))
      case HeaderLws => SetLast(ls, if c == SP || c == HT then PushLws(l, c) else PushText(l, c))
      case _ => ls
  }

  // How the tree grows with a character the parser does not reject.
  function Grow(s: State, t: Syntax, c: byte): Syntax {
    match s
    case MethodStart => t.(verb := t.verb + [c])
    case Method => if c == SP then t else t.(verb := t.verb + [c])
    case Uri => if c == SP then t else t.(uri := t.uri + [c])
    case MajorStart => t.(major := t.major + [c])
    case Major => if c == DOT then t else t.(major := t.major + [c])
    case MinorStart => t.(minor := t.minor + [c])
    case Minor => if c == CR then t else t.(minor := t.minor + [c])
    case _ => if Rank(s) < 9 then t else t.(lines := GrowLines(s, t.lines, c))
  }

  // ----- soundness: one step of the parser is one step of the tree -----

  lemma PushTextLemma(s: State, l: Line, c: byte)
    requires s == HeaderValue || s == HeaderLws
    requires OpenLine(s, l) && !IsCtl(c) && (s == HeaderLws ==> c != SP)
    ensures OpenLine(HeaderValue, PushText(l, c))
    ensures LineBytes(PushText(l, c)) == LineBytes(l) + [c]
    ensures HeaderOf(PushText(l, c)) == Header(l.name, HeaderOf(l).value + [c])
  {
    if l.folds != [] {
      var m := PushText(l, c);
      assert m.folds[..|m.folds| - 1] == l.folds[..|l.folds| - 1];
    } else {
      assert l.value + [c] + [] == l.value + [] + [c];
    }
  }

  lemma PushLwsLemma(l: Line, c: byte)
    requires OpenLine(HeaderLws, l) && (c == SP || c == HT)
    ensures OpenLine(HeaderLws, PushLws(l, c))
    ensures LineBytes(PushLws(l, c)) == LineBytes(l) + [c]
    ensures HeaderOf(PushLws(l, c)) == HeaderOf(l)
  {
    var m := PushLws(l, c);
    assert m.folds[..|m.folds| - 1] == l.folds[..|l.folds| - 1];
  }

  lemma NewFoldLemma(l: Line, c: byte)
    requires ValidLine(l) && (c == SP || c == HT)
    ensures var m := l.(folds := l.folds + [Fold([c], [])]);
            && OpenLine(HeaderLws, m) && HeaderOf(m) == HeaderOf(l)
            && LineBytes(m) == LineBytes(l) + CRLF + [c]
  {
    var m := l.(folds := l.folds + [Fold([c], [])]);
    assert m.folds[..|m.folds| - 1] == l.folds;
    assert FoldsText(m.folds) == FoldsText(l.folds) + [];
  }

  // Replacing the last line.
  lemma SetLastLemma(ls: seq<Line>, m: Line)
    requires ls != []
    ensures var us := SetLast(ls, m);
            && us[..|us| - 1] == ls[..|ls| - 1] && us[|us| - 1] == m
            && |us| == |ls|
            && HeadersOf(us) == SetLast(HeadersOf(ls), HeaderOf(m))
  {
    assert SetLast(ls, m)[..|ls| - 1] == ls[..|ls| - 1];
  }

  // The transitions inside the header section, on lines: what each does to the shape,
  // to the headers the lines mean and to the bytes they have read.
  lemma ContinueLine(ls: seq<Line>, c: byte)
    requires ls != [] && ValidLines(ls) && (c == SP || c == HT)
    ensures var us := GrowLines(HeaderLineStart, ls, c);
            && LinesShape(HeaderLws, us) && HeadersOf(us) == HeadersOf(ls)
            && ReadHeaders(HeaderLws, us) == ReadHeaders(HeaderLineStart, ls) + [c]
  {
    var l := ls[|ls| - 1];
    var m := l.(folds := l.folds + [Fold([c], [])]);
    assert GrowLines(HeaderLineStart, ls, c) == SetLast(ls, m) && ValidLine(l) && ValidLines(ls[..|ls| - 1]);
    hide *;
    NewFoldLemma(l, c);
    SetLastLemma(ls, m);
    SameHeaders(ls, m);
    ReadOpen(SetLast(ls, m));
    ReadClosed(ls);
    AppendAssoc(LinesBytes(ls[..|ls| - 1]), LineBytes(l) + CRLF, [c]);
  }

  lemma SameHeaders(ls: seq<Line>, m: Line)
    requires ls != [] && HeaderOf(m) == HeaderOf(ls[|ls| - 1])
    ensures HeadersOf(SetLast(ls, m)) == HeadersOf(ls)
  {
    SetLastLemma(ls, m);
    hide HeaderOf;
  }

  lemma ReadOpen(us: seq<Line>)
    requires us != []
    ensures ReadHeaders(HeaderLws, us) == LinesBytes(us[..|us| - 1]) + LineBytes(us[|us| - 1])
    ensures LinesShape(HeaderLws, us) <==> ValidLines(us[..|us| - 1]) && OpenLine(HeaderLws, us[|us| - 1])
  {
    hide LinesBytes, LineBytes, ValidLines, OpenLine;
  }

  lemma ReadClosed(ls: seq<Line>)
    requires ls != []
    ensures ReadHeaders(HeaderLineStart, ls) == LinesBytes(ls[..|ls| - 1]) + (LineBytes(ls[|ls| - 1]) + CRLF)
  {
    hide LineBytes;
  }

  lemma OpenNewLine(ls: seq<Line>, c: byte)
    requires ValidLines(ls) && IsToken(c)
    ensures var us := GrowLines(HeaderLineStart, ls, c);
            && LinesShape(HeaderName, us) && HeadersOf(us) == HeadersOf(ls) + [Header([c], [])]
            && ReadHeaders(HeaderName, us) == ReadHeaders(HeaderLineStart, ls) + [c]
  {
    var us := GrowLines(HeaderLineStart, ls, c);
    assert us[..|us| - 1] == ls;
    assert HeaderOf(Line([c], [], [])) == Header([c], []);
  }

  lemma ExtendName(ls: seq<Line>, c: byte)
    requires LinesShape(HeaderName, ls) && IsToken(c)
    ensures var us := GrowLines(HeaderName, ls, c);
            && LinesShape(HeaderName, us) && HeadersOf(us) == PushName(HeadersOf(ls), c)
            && ReadHeaders(HeaderName, us) == ReadHeaders(HeaderName, ls) + [c]
  {
    var l := ls[|ls| - 1];
    var m := l.(name := l.name + [c]);
    SetLastLemma(ls, m);
    assert HeaderOf(m) == HeaderOf(l).(name := m.name);
  }

  lemma EndName(ls: seq<Line>)
    requires LinesShape(HeaderName, ls)
    ensures GrowLines(HeaderName, ls, COLON) == ls && LinesShape(SpaceBeforeValue, ls)
    ensures ReadHeaders(SpaceBeforeValue, ls) == ReadHeaders(HeaderName, ls) + [COLON]
  {
  }

  lemma StartValue(ls: seq<Line>)
    requires LinesShape(SpaceBeforeValue, ls)
    ensures GrowLines(SpaceBeforeValue, ls, SP) == ls && LinesShape(HeaderValue, ls)
    ensures ReadHeaders(HeaderValue, ls) == ReadHeaders(SpaceBeforeValue, ls) + [SP]
  {
    var l := ls[|ls| - 1];
    assert LineBytes(l) == l.name + [COLON] + [SP];
  }

  lemma SkipLws(ls: seq<Line>, c: byte)
    requires LinesShape(HeaderLws, ls) && (c == SP || c == HT)
    ensures var us := GrowLines(HeaderLws, ls, c);
            && LinesShape(HeaderLws, us) && HeadersOf(us) == HeadersOf(ls)
            && ReadHeaders(HeaderLws, us) == ReadHeaders(HeaderLws, ls) + [c]
  {
    var l := ls[|ls| - 1];
    PushLwsLemma(l, c);
    SetLastLemma(ls, PushLws(l, c));
  }

  lemma ExtendValue(s: State, ls: seq<Line>, c: byte)
    requires s == HeaderValue || (s == HeaderLws && c != SP)
    requires LinesShape(s, ls) && !IsCtl(c)
    ensures var us := GrowLines(s, ls, c);
            && LinesShape(HeaderValue, us) && HeadersOf(us) == PushValue(HeadersOf(ls), c)
            && ReadHeaders(HeaderValue, us) == ReadHeaders(s, ls) + [c]
  {
    var l := ls[|ls| - 1];
    PushTextLemma(s, l, c);
    SetLastLemma(ls, PushText(l, c));
    PushedHeader(ls, PushText(l, c), c);
    AppendAssoc(LinesBytes(ls[..|ls| - 1]), LineBytes(l), [c]);
    hide LinesBytes, LineBytes, ValidLines, PushText, ValidLine, HeaderOf, HeadersOf, PushValue, OpenLine, SetLast;
  }

  lemma PushedHeader(ls: seq<Line>, m: Line, c: byte)
    requires ls != []
    requires var h := HeaderOf(ls[|ls| - 1]); HeaderOf(m) == h.(value := h.value + [c])
    ensures HeadersOf(ls) != [] && SetLast(HeadersOf(ls), HeaderOf(m)) == PushValue(HeadersOf(ls), c)
  {
    hide HeaderOf;
  }

  lemma EndValue(s: State, ls: seq<Line>)
    requires s == HeaderValue || s == HeaderLws
    requires LinesShape(s, ls)
    ensures GrowLines(s, ls, CR) == ls && LinesShape(Newline2, ls)
    ensures ReadHeaders(Newline2, ls) == ReadHeaders(s, ls) + [CR]
  {
    AppendAssoc(LinesBytes(ls[..|ls| - 1]), LineBytes(ls[|ls| - 1]), [CR]);
  }

  lemma EndLine(ls: seq<Line>)
    requires LinesShape(Newline2, ls)
    ensures GrowLines(Newline2, ls, LF) == ls && LinesShape(HeaderLineStart, ls)
    ensures ReadHeaders(HeaderLineStart, ls) == ReadHeaders(Newline2, ls) + [LF]
  {
    assert ls == ls[..|ls| - 1] + [ls[|ls| - 1]];
  }

  lemma EndHeaders(ls: seq<Line>)
    requires ValidLines(ls)
    ensures GrowLines(HeaderLineStart, ls, CR) == ls && LinesShape(Newline3, ls)
    ensures ReadHeaders(Newline3, ls) == ReadHeaders(HeaderLineStart, ls) + [CR]
  {
  }

  lemma LinesFacts(s: State, ls: seq<Line>)
    requires LinesShape(s, ls)
    ensures InsideHeader(s) ==> ls != []
    ensures !InsideHeader(s) ==> ValidLines(ls)
  {
  }

  // One step of the parser inside the header section.
  lemma GrowLinesStep(s: State, q: Fields, ls: seq<Line>, c: byte)
    requires Rank(s) >= 9
    requires LinesShape(s, ls) && q.headers == HeadersOf(ls)
    requires Next(s, q, c).result == Indeterminate
    ensures var n := Next(s, q, c);
            var us := GrowLines(s, ls, c);
            && Rank(n.state) == 9 && LinesShape(n.state, us)
            && n.fields == q.(headers := HeadersOf(us))
            && ReadHeaders(n.state, us) == ReadHeaders(s, ls) + [c]
  {
    hide HeadersOf, ReadHeaders, GrowLines, LinesShape, OpenLine, ValidLine;
    LinesFacts(s, ls);
    match s
    case HeaderLineStart =>
      if c == CR {
        EndHeaders(ls);
      } else if ls != [] && (c == SP || c == HT) {
        ContinueLine(ls, c);
      } else {
        OpenNewLine(ls, c);
      }
    case HeaderName => if c == COLON { EndName(ls); } else { ExtendName(ls, c); }
    case SpaceBeforeValue => StartValue(ls);
    case HeaderValue => if c == CR { EndValue(s, ls); } else { ExtendValue(s, ls, c); }
    case HeaderLws =>
      if c == CR { EndValue(s, ls); }
      else if c == SP || c == HT { SkipLws(ls, c); }
      else { ExtendValue(s, ls, c); }
    case Newline2 => EndLine(ls);
    case Newline3 =>
  }

  // The transitions in the request line.
  lemma GrowTarget(s: State, t: Syntax, c: byte)
    requires TargetShape(s, t) && Rank(s) < 3
    requires Next(s, Meaning(t), c).result == Indeterminate
    ensures var n := Next(s, Meaning(t), c);
            var u := Grow(s, t, c);
            TargetShape(n.state, u) && n.fields == Meaning(u) && ReadLine(n.state, u) == ReadLine(s, t) + [c]
  {
  }

  lemma GrowMajor(s: State, t: Syntax, c: byte)
    requires TargetShape(s, t) && (s == MajorStart || s == Major) && IsDigit(c)
    ensures var u := t.(major := t.major + [c]);
            && TargetShape(Major, u) && Meaning(u) == Meaning(t).(major := Decimal(t.major) * 10 + c - 48)
            && ReadVersion(Major, u) == ReadVersion(s, t) + [c]
  {
    DecimalPush(t.major, c);
  }

  lemma GrowMinor(s: State, t: Syntax, c: byte)
    requires TargetShape(s, t) && (s == MinorStart || s == Minor) && IsDigit(c)
    ensures var u := t.(minor := t.minor + [c]);
            && TargetShape(Minor, u) && Meaning(u) == Meaning(t).(minor := Decimal(t.minor) * 10 + c - 48)
            && ReadVersion(Minor, u) == ReadVersion(s, t) + [c]
  {
    DecimalPush(t.minor, c);
  }

  // The transitions on the letters and marks of the version.
  lemma GrowMark(s: State, t: Syntax, c: byte)
    requires TargetShape(s, t) && 3 <= Rank(s) < 8
    requires Next(s, Meaning(t), c).result == Indeterminate && (IsDigit(c) ==> Rank(s) == 3)
    ensures var n := Next(s, Meaning(t), c);
            && Grow(s, t, c) == t && n.fields == Meaning(t) && 3 <= Rank(n.state) < 9
            && TargetShape(n.state, t)
            && ReadVersion(n.state, t) == ReadVersion(s, t) + [c]
  {
  }

  lemma VersionGrows(s: State, t: Syntax, c: byte)
    requires TargetShape(s, t) && 3 <= Rank(s) < 8
    requires Next(s, Meaning(t), c).result == Indeterminate
    ensures var n := Next(s, Meaning(t), c);
            var u := Grow(s, t, c);
            && TargetShape(n.state, u) && n.fields == Meaning(u) && ReadVersion(n.state, u) == ReadVersion(s, t) + [c]
            && t.verb == u.verb && t.uri == u.uri && 3 <= Rank(n.state)
  {
    if IsDigit(c) && Rank(s) != 3 {
      if s == MajorStart || s == Major {
        GrowMajor(s, t, c);
      } else {
        GrowMinor(s, t, c);
      }
    } else {
      GrowMark(s, t, c);
    }
    hide Decimal, ReadVersion, TargetShape, Meaning;
  }

  lemma GrowVersion(s: State, t: Syntax, c: byte)
    requires TargetShape(s, t) && 3 <= Rank(s) < 8
    requires Next(s, Meaning(t), c).result == Indeterminate
    ensures var n := Next(s, Meaning(t), c);
            var u := Grow(s, t, c);
            TargetShape(n.state, u) && n.fields == Meaning(u) && ReadLine(n.state, u) == ReadLine(s, t) + [c]
  {
    assert Safe(s, Meaning(t));
    hide *;
    VersionGrows(s, t, c);
    SameTarget(t, Grow(s, t, c));
    ReadLineIs(s, t);
    ReadLineIs(Next(s, Meaning(t), c).state, Grow(s, t, c));
    AppendAssoc(TargetBytes(t), ReadVersion(s, t), [c]);
  }

  lemma ReadLineIs(s: State, t: Syntax)
    requires 3 <= Rank(s)
    ensures ReadLine(s, t) == TargetBytes(t) + ReadVersion(s, t)
  {
  }

  lemma SameTarget(t: Syntax, u: Syntax)
    requires t.verb == u.verb && t.uri == u.uri
    ensures TargetBytes(t) == TargetBytes(u)
  {
  }

  // ----- the tree the parser builds -----

  // The tree a run of the parser reads, starting from the partial tree t.
  function TreeOf(s: State, t: Syntax, b: bytes): Syntax
    decreases b
  {
    if b == [] || !Safe(s, Meaning(t)) then t
    else
      var n := Next(s, Meaning(t), b[0]);
      if n.result != Indeterminate then t else TreeOf(n.state, Grow(s, t, b[0]), b[1..])
  }

  lemma TreeOfCons(s: State, t: Syntax, b: bytes)
    requires Safe(s, Meaning(t)) && b != [] && Next(s, Meaning(t), b[0]).result == Indeterminate
    ensures TreeOf(s, t, b) == TreeOf(Next(s, Meaning(t), b[0]).state, Grow(s, t, b[0]), b[1..])
  {
    hide Next, Meaning, Grow;
  }

  // ----- soundness: whatever is accepted is the rendering of the tree built -----

  lemma SoundHeadersStep(s: State, t: Syntax, b: bytes)
    requires Rank(s) == 9 && LinesShape(s, t.lines) && b != []
    requires Parse(s, Meaning(t), b).result == True
    requires Safe(s, Meaning(t)) && Next(s, Meaning(t), b[0]).result == Indeterminate
    ensures var o := Parse(s, Meaning(t), b);
            var u := TreeOf(s, t, b);
            && u == t.(lines := u.lines) && ValidLines(u.lines)
            && o.fields == Meaning(u) && o.state == Newline3
            && ReadHeaders(s, t.lines) + b[..o.consumed] == LinesBytes(u.lines) + CRLF
    decreases b, 0
  {
    ParseCons(s, Meaning(t), b);
    TreeOfCons(s, t, b);
    GrowLinesStep(s, Meaning(t), t.lines, b[0]);
    var n := Next(s, Meaning(t), b[0]);
    var u := Grow(s, t, b[0]);
    assert u == t.(lines := GrowLines(s, t.lines, b[0])) && n.fields == Meaning(u);
    hide *;
    SoundHeaders(n.state, u, b[1..]);
    AppendAssoc(ReadHeaders(s, t.lines), [b[0]], b[1..][..Parse(n.state, n.fields, b[1..]).consumed]);
  }

  lemma {:induction false} SoundHeaders(s: State, t: Syntax, b: bytes)
    requires Rank(s) == 9 && LinesShape(s, t.lines)
    requires Safe(s, Meaning(t)) && Parse(s, Meaning(t), b).result == True
    ensures var o := Parse(s, Meaning(t), b);
            var u := TreeOf(s, t, b);
            && u == t.(lines := u.lines) && ValidLines(u.lines)
            && o.fields == Meaning(u) && o.state == Newline3
            && ReadHeaders(s, t.lines) + b[..o.consumed] == LinesBytes(u.lines) + CRLF
    decreases b, 1
  {
    LinesFacts(s, t.lines);
    var n := Next(s, Meaning(t), b[0]);
    if n.result == Indeterminate {
      SoundHeadersStep(s, t, b);
    } else {
      assert b[..1] == [LF];
      AppendAssoc(LinesBytes(t.lines), [CR], [LF]);
    }
  }

  lemma LineEndFacts(t: Syntax, c: byte)
    requires TargetShape(Newline1, t) && Next(Newline1, Meaning(t), c).result != False
    ensures c == LF && Next(Newline1, Meaning(t), c) == Step(Indeterminate, HeaderLineStart, Meaning(t))
    ensures Grow(Newline1, t, c) == t && Rank(HeaderLineStart) == 9
    ensures t.lines == [] && LinesShape(HeaderLineStart, t.lines) && ReadHeaders(HeaderLineStart, t.lines) == []
    ensures t.verb != [] && t.major != [] && t.minor != []
    ensures AllToken(t.verb) && AllUri(t.uri) && AllDigit(t.major) && AllDigit(t.minor)
    ensures ReadLine(Newline1, t) == TargetBytes(t) + ReadVersion(Newline1, t)
  {
  }

  lemma VersionEnds(t: Syntax, u: Syntax)
    requires t.verb == u.verb && t.uri == u.uri && t.major == u.major && t.minor == u.minor
    ensures ReadVersion(Newline1, t) + [LF] == VersionBytes(u) && TargetBytes(u) == TargetBytes(t)
    ensures && t.verb != [] && t.major != [] && t.minor != [] && AllToken(t.verb) && AllUri(t.uri)
            && AllDigit(t.major) && AllDigit(t.minor) && ValidLines(u.lines)
            ==> Valid(u)
    ensures Render(u) == TargetBytes(u) + (VersionBytes(u) + (LinesBytes(u.lines) + CRLF))
  {
  }

  lemma SoundLineEnd(t: Syntax, b: bytes)
    requires TargetShape(Newline1, t)
    requires Parse(Newline1, Meaning(t), b).result == True
    ensures var o := Parse(Newline1, Meaning(t), b);
            var u := TreeOf(Newline1, t, b);
            && Valid(u) && o.fields == Meaning(u) && o.state == Newline3
            && ReadLine(Newline1, t) + b[..o.consumed] == Render(u)
  {
    hide *;
    OutsideHeader(Meaning(t));
    AcceptedHead(Newline1, Meaning(t), b);
    LineEndFacts(t, b[0]);
    ParseCons(Newline1, Meaning(t), b);
    TreeOfCons(Newline1, t, b);
    SoundHeaders(HeaderLineStart, t, b[1..]);
    var u := TreeOf(Newline1, t, b);
    VersionEnds(t, u);
    var tail := b[1..][..Parse(HeaderLineStart, Meaning(t), b[1..]).consumed];
    assert [] + tail == tail;
    AppendAssoc(TargetBytes(t), ReadVersion(Newline1, t), [LF]);
    AppendAssoc(TargetBytes(t), ReadVersion(Newline1, t), [LF] + tail);
    AppendAssoc(ReadVersion(Newline1, t), [LF], tail);
    assert b[..1 + |tail|] == [LF] + tail;
  }

  lemma OutsideHeader(q: Fields)
    ensures Safe(Newline1, q) && Safe(HeaderLineStart, q)
  {
  }

  lemma AcceptedHead(s: State, q: Fields, b: bytes)
    requires Safe(s, q) && Parse(s, q, b).result == True
    ensures b != [] && Next(s, q, b[0]).result != False
  {
    hide Next;
  }

  lemma SoundLineStep(s: State, t: Syntax, b: bytes)
    requires TargetShape(s, t) && s != Newline1 && b != []
    requires Safe(s, Meaning(t)) && Parse(s, Meaning(t), b).result == True
    requires Next(s, Meaning(t), b[0]).result == Indeterminate
    ensures var o := Parse(s, Meaning(t), b);
            var u := TreeOf(s, t, b);
            && Valid(u) && o.fields == Meaning(u) && o.state == Newline3
            && ReadLine(s, t) + b[..o.consumed] == Render(u)
    decreases b, 0
  {
    ParseCons(s, Meaning(t), b);
    TreeOfCons(s, t, b);
    if Rank(s) < 3 { GrowTarget(s, t, b[0]); } else { GrowVersion(s, t, b[0]); }
    hide *;
    var n := Next(s, Meaning(t), b[0]);
    SoundLine(n.state, Grow(s, t, b[0]), b[1..]);
    AppendAssoc(ReadLine(s, t), [b[0]], b[1..][..Parse(n.state, n.fields, b[1..]).consumed]);
  }

  lemma {:induction false} SoundLine(s: State, t: Syntax, b: bytes)
    requires TargetShape(s, t)
    requires Safe(s, Meaning(t)) && Parse(s, Meaning(t), b).result == True
    ensures var o := Parse(s, Meaning(t), b);
            var u := TreeOf(s, t, b);
            && Valid(u) && o.fields == Meaning(u) && o.state == Newline3
            && ReadLine(s, t) + b[..o.consumed] == Render(u)
    decreases b, 1
  {
    if s == Newline1 {
      SoundLineEnd(t, b);
    } else {
      SoundLineStep(s, t, b);
    }
  }
}
