// The incremental request parser of include/http_helper.hpp: its transition
// function on values, and the class whose methods are proved against it.
module HttpRequest {
  import opened Bytes

  // ----- character classes (the parser's own, which differ from detail's) -----

  predicate IsChar(c: byte) { c <= 127 }

  predicate IsCtl(c: byte) { c <= 31 || c == 127 }

  predicate IsTspecial(c: byte) {
    || c == 40 || c == 41 || c == 60 || c == 62 || c == 64
    || c == 44 || c == 59 || c == 58 || c == 92 || c == 34
    || c == 47 || c == 91 || c == 93 || c == 63 || c == 61
    || c == 123 || c == 125 || c == 32 || c == 9
  }

  predicate IsToken(c: byte) { IsChar(c) && !IsCtl(c) && !IsTspecial(c) }

  predicate AllToken(b: bytes) { forall i :: 0 <= i < |b| ==> IsToken(b[i]) }

  // ----- the parser's state and the request it fills -----

  datatype State =
    | MethodStart | Method | UriStart | Uri
    | VersionH | VersionT1 | VersionT2 | VersionP | VersionSlash
    | MajorStart | Major | MinorStart | Minor | Newline1
    | HeaderLineStart | HeaderLws | HeaderName | SpaceBeforeValue | HeaderValue
    | Newline2 | Newline3

  datatype Header = Header(name: bytes, value: bytes)

  datatype Fields = Fields(verb: bytes, uri: bytes, major: int, minor: int, headers: seq<Header>)

  datatype Tribool = True | False | Indeterminate

  datatype Step = Step(result: Tribool, state: State, fields: Fields)

  // The states in which the parser may touch `headers.back()`.
  predicate InsideHeader(s: State) {
    s.HeaderLws? || s.HeaderName? || s.SpaceBeforeValue? || s.HeaderValue? || s.Newline2?
  }

  // What makes the next character safe to consume: `back()` of an empty vector is undefined.
  predicate Safe(s: State, q: Fields) { InsideHeader(s) ==> q.headers != [] }

  function PushName(hs: seq<Header>, c: byte): seq<Header>
    requires hs != []
  {
    var last := hs[|hs| - 1];
    hs[..|hs| - 1] + [last.(name := last.name + [c])]
  }

  function PushValue(hs: seq<Header>, c: byte): seq<Header>
    requires hs != []
  {
    var last := hs[|hs| - 1];
    hs[..|hs| - 1] + [last.(value := last.value + [c])]
  }

  function Go(s: State, q: Fields): Step { Step(Indeterminate, s, q) }

  // One character: the table the switch of `consume` implements.
  function Next(s: State, q: Fields, c: byte): (r: Step)
    requires Safe(s, q)
    ensures Safe(r.state, r.fields)
  {
    var reject := Step(False, s, q);
    match s
    case MethodStart => if IsToken(c) then Go(Method, q.(verb := q.verb + [c])) else reject
    case Method =>
      if c == SP then Go(Uri, q)
      else if IsToken(c) then Go(Method, q.(verb := q.verb + [c])) else reject
    case UriStart => if IsCtl(c) then reject else Go(Uri, q.(uri := q.uri + [c]))
    case Uri =>
      if c == SP then Go(VersionH, q)
      else if IsCtl(c) then reject else Go(Uri, q.(uri := q.uri + [c]))
    case VersionH => if c == 72 then Go(VersionT1, q) else reject
    case VersionT1 => if c == 84 then Go(VersionT2, q) else reject
    case VersionT2 => if c == 84 then Go(VersionP, q) else reject
    case VersionP => if c == 80 then Go(VersionSlash, q) else reject
    case VersionSlash => if c == SLASH then Go(MajorStart, q.(major := 0, minor := 0)) else reject
    case MajorStart => if IsDigit(c) then Go(Major, q.(major := q.major * 10 + c - 48)) else reject
    case Major =>
      if c == DOT then Go(MinorStart, q)
      else if IsDigit(c) then Go(Major, q.(major := q.major * 10 + c - 48)) else reject
    case MinorStart => if IsDigit(c) then Go(Minor, q.(minor := q.minor * 10 + c - 48)) else reject
    case Minor =>
      if c == CR then Go(Newline1, q)
      else if IsDigit(c) then Go(Minor, q.(minor := q.minor * 10 + c - 48)) else reject
    case Newline1 => if c == LF then Go(HeaderLineStart, q) else reject
    case HeaderLineStart =>
      if c == CR then Go(Newline3, q)
      else if q.headers != [] && (c == SP || c == HT) then Go(HeaderLws, q)
      else if IsToken(c) then Go(HeaderName, q.(headers := q.headers + [Header([c], [])])) else reject
    case HeaderLws =>
      if c == CR then Go(Newline2, q)
      else if c == SP || c == HT then Go(HeaderLws, q)
      else if IsCtl(c) then reject else Go(HeaderValue, q.(headers := PushValue(q.headers, c)))
    case HeaderName =>
      if c == COLON then Go(SpaceBeforeValue, q)
      else if IsToken(c) then Go(HeaderName, q.(headers := PushName(q.headers, c))) else reject
    case SpaceBeforeValue => if c == SP then Go(HeaderValue, q) else reject
    case HeaderValue =>
      if c == CR then Go(Newline2, q)
      else if IsCtl(c) then reject else Go(HeaderValue, q.(headers := PushValue(q.headers, c)))
    case Newline2 => if c == LF then Go(HeaderLineStart, q) else reject
    case Newline3 => Step(if c == LF then True else False, s, q)
  }

  // ----- a whole call of `parse` -----

  datatype Outcome = Outcome(result: Tribool, consumed: nat, state: State, fields: Fields)

  function Parse(s: State, q: Fields, b: bytes): (o: Outcome)
    requires Safe(s, q)
    ensures o.consumed <= |b|
    ensures Safe(o.state, o.fields)
    ensures o.result == Indeterminate ==> o.consumed == |b|
    decreases b
  {
    if b == [] then Outcome(Indeterminate, 0, s, q)
    else
      var n := Next(s, q, b[0]);
      if n.result == Indeterminate then
        var o := Parse(n.state, n.fields, b[1..]);
        o.(consumed := o.consumed + 1)
      else Outcome(n.result, 1, n.state, n.fields)
  }

  // One step of `parse`, with the bytes it has consumed.
  lemma ParseCons(s: State, q: Fields, b: bytes)
    requires Safe(s, q) && b != [] && Next(s, q, b[0]).result == Indeterminate
    ensures var n := Next(s, q, b[0]);
            var o := Parse(n.state, n.fields, b[1..]);
            && Parse(s, q, b) == o.(consumed := o.consumed + 1)
            && b[..o.consumed + 1] == [b[0]] + b[1..][..o.consumed]
  {
    hide Next, Safe;
    var n := Next(s, q, b[0]);
    var o := Parse(n.state, n.fields, b[1..]);
    assert Parse(s, q, b) == o.(consumed := o.consumed + 1);
    hide *;
    PrefixCons(b, o.consumed);
  }

  // A request no character has been written to; the two version numbers are uninitialised.
  predicate Blank(q: Fields) { q.verb == [] && q.uri == [] && q.headers == [] }

  // Parsing a ++ b is parsing a, then, if a did not decide, going on with b.
  lemma {:induction false} ParseAppend(s: State, q: Fields, a: bytes, b: bytes)
    requires Safe(s, q)
    ensures var o := Parse(s, q, a);
            Parse(s, q, a + b) ==
            if o.result == Indeterminate
            then var p := Parse(o.state, o.fields, b); p.(consumed := |a| + p.consumed)
            else o
    decreases a
  {
    if a == [] {
      assert a + b == b;
    } else {
      assert (a + b)[1..] == a[1..] + b;
      var n := Next(s, q, a[0]);
      if n.result == Indeterminate {
        ParseAppend(n.state, n.fields, a[1..], b);
      }
    }
  }

  // What `parse` decides depends only on the bytes it reports as consumed.
  lemma {:induction false} ParsePrefix(s: State, q: Fields, b: bytes)
    requires Safe(s, q)
    ensures var o := Parse(s, q, b);
            o.result != Indeterminate ==> 0 < o.consumed && Parse(s, q, b[..o.consumed]) == o
    decreases b
  {
    if b != [] {
      var n := Next(s, q, b[0]);
      if n.result == Indeterminate {
        ParsePrefix(n.state, n.fields, b[1..]);
        var o := Parse(s, q, b);
        assert o.result != Indeterminate ==> b[..o.consumed][1..] == b[1..][..o.consumed - 1];
      }
    }
  }

  // ----- the objects -----

  class Request {
    var verb: bytes
    var uri: bytes
    var versionMajor: int
    var versionMinor: int
    var headers: seq<Header>

    constructor ()
      ensures Blank(View())
    {
      verb, uri, headers := [], [], [];
    }

    function View(): Fields
      reads this
    {
      Fields(verb, uri, versionMajor, versionMinor, headers)
    }
  }

  class RequestParser {
    var state: State

    constructor ()
      ensures state == MethodStart
    {
      state := MethodStart;
    }

    method Reset()
      modifies this
      ensures state == MethodStart
    {
      state := MethodStart;
    }

    method Consume(req: Request, input: byte) returns (result: Tribool)
      requires Safe(state, req.View())
      modifies this, req
      ensures Step(result, state, req.View()) == Next(old(state), old(req.View()), input)
    {
      result := Indeterminate;
      match state {
        case MethodStart =>
          if !IsChar(input) || IsCtl(input) || IsTspecial(input) { return False; }
          state := Method;
          req.verb := req.verb + [input];
        case Method =>
          if input == SP {
            state := Uri;
          } else if !IsChar(input) || IsCtl(input) || IsTspecial(input) {
            return False;
          } else {
            req.verb := req.verb + [input];
          }
        case UriStart =>
          if IsCtl(input) { return False; }
          state := Uri;
          req.uri := req.uri + [input];
        case Uri =>
          if input == SP {
            state := VersionH;
          } else if IsCtl(input) {
            return False;
          } else {
            req.uri := req.uri + [input];
          }
        case VersionH => if input != 72 { return False; } state := VersionT1;
        case VersionT1 => if input != 84 { return False; } state := VersionT2;
        case VersionT2 => if input != 84 { return False; } state := VersionP;
        case VersionP => if input != 80 { return False; } state := VersionSlash;
        case VersionSlash =>
          if input != SLASH { return False; }
          req.versionMajor := 0;
          req.versionMinor := 0;
          state := MajorStart;
        case MajorStart =>
          if !IsDigit(input) { return False; }
          req.versionMajor := req.versionMajor * 10 + input - 48;
          state := Major;
        case Major =>
          if input == DOT {
            state := MinorStart;
          } else if IsDigit(input) {
            req.versionMajor := req.versionMajor * 10 + input - 48;
          } else {
            return False;
          }
        case MinorStart =>
          if !IsDigit(input) { return False; }
          req.versionMinor := req.versionMinor * 10 + input - 48;
          state := Minor;
        case Minor =>
          if input == CR {
            state := Newline1;
          } else if IsDigit(input) {
            req.versionMinor := req.versionMinor * 10 + input - 48;
          } else {
            return False;
          }
        case Newline1 => if input != LF { return False; } state := HeaderLineStart;
        case HeaderLineStart =>
          if input == CR {
            state := Newline3;
          } else if req.headers != [] && (input == SP || input == HT) {
            state := HeaderLws;
          } else if !IsChar(input) || IsCtl(input) || IsTspecial(input) {
            return False;
          } else {
            req.headers := req.headers + [Header([], [])];
            assert req.headers[..|req.headers| - 1] == old(req.headers) && [] + [input] == [input];
            req.headers := PushName(req.headers, input);
            state := HeaderName;
          }
        case HeaderLws =>
          if input == CR {
            state := Newline2;
          } else if input == SP || input == HT {
          } else if IsCtl(input) {
            return False;
          } else {
            state := HeaderValue;
            req.headers := PushValue(req.headers, input);
          }
        case HeaderName =>
          if input == COLON {
            state := SpaceBeforeValue;
          } else if !IsChar(input) || IsCtl(input) || IsTspecial(input) {
            return False;
          } else {
            req.headers := PushName(req.headers, input);
          }
        case SpaceBeforeValue => if input != SP { return False; } state := HeaderValue;
        case HeaderValue =>
          if input == CR {
            state := Newline2;
          } else if IsCtl(input) {
            return False;
          } else {
            req.headers := PushValue(req.headers, input);
          }
        case Newline2 => if input != LF { return False; } state := HeaderLineStart;
        case Newline3 => return if input == LF then True else False;
      }
    }

    // `parse` over the range [begin, end) of a buffer; `pos` is the iterator it returns.
    method ParseRange(req: Request, buffer: bytes, begin: nat, end: nat) returns (result: Tribool, pos: nat)
      requires begin <= end <= |buffer|
      requires Safe(state, req.View())
      modifies this, req
      ensures begin <= pos
      ensures Outcome(result, pos - begin, state, req.View())
           == Parse(old(state), old(req.View()), buffer[begin..end])
    {
      pos := begin;
      while pos != end
        invariant begin <= pos <= end
        invariant Safe(state, req.View())
        invariant var o := Parse(state, req.View(), buffer[pos..end]);
                  o.(consumed := o.consumed + pos - begin) == Parse(old(state), old(req.View()), buffer[begin..end])
      {
        assert buffer[pos..end][1..] == buffer[pos + 1..end];
        result := Consume(req, buffer[pos]);
        pos := pos + 1;
        if result != Indeterminate {
          return;
        }
      }
      result := Indeterminate;
    }
  }
}
