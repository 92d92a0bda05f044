// The second header automaton of include/http_helper.hpp, `parse_http_headers`, and its
// agreement with the request parser on header sections.
module HttpHeaders {
  import opened Bytes
  import E = EscapePath
  import R = HttpRequest

  // ----- detail's character classes -----

  predicate IsToken(c: byte) { R.IsChar(c) && !R.IsCtl(c) && !E.IsTspecial(c) }

  predicate IsSpace(c: byte) { c == SP || 9 <= c <= 13 }

  function ToLower(c: byte): byte { if IsUpper(c) then c + 32 else c }

  // ----- trimming, numbers and the headers of interest -----

  function TrimLeft(b: bytes): bytes {
    if b != [] && IsSpace(b[0]) then TrimLeft(b[1..]) else b
  }

  function TrimRight(b: bytes): bytes {
    if b != [] && IsSpace(b[|b| - 1]) then TrimRight(b[..|b| - 1]) else b
  }

  function Trim(b: bytes): bytes { TrimLeft(TrimRight(b)) }

  function LeadingDigits(b: bytes): bytes {
    if b == [] || !IsDigit(b[0]) then [] else [b[0]] + LeadingDigits(b[1..])
  }

  const INT64_MAX := 0x7fff_ffff_ffff_ffff
  const INT64_MIN := -0x8000_0000_0000_0000

  // `strtoll` in base 10: white space, a sign, digits; out of range saturates.
  function Atoi64(b: bytes): int {
    var t := TrimLeft(b);
    var negative := t != [] && t[0] == MINUS;
    var signed := negative || (t != [] && t[0] == PLUS);
    var n := Decimal(LeadingDigits(if signed then t[1..] else t));
    if negative then (if -n < INT64_MIN then INT64_MIN else -n)
    else if n > INT64_MAX then INT64_MAX else n
  }

  predicate HeadersEqual(a: bytes, b: bytes) {
    |a| == |b| && forall i :: 0 <= i < |a| ==> ToLower(a[i]) == ToLower(b[i])
  }

  function Ascii(s: string): (b: bytes)
    requires forall i :: 0 <= i < |s| ==> s[i] < 128 as char
    ensures |b| == |s| && forall i :: 0 <= i < |s| ==> b[i] == s[i] as int
  {
    seq(|s|, i requires 0 <= i < |s| => s[i] as int)
  }

  const CONTENT_TYPE: bytes := Ascii("Content-Type")
  const CONTENT_LENGTH: bytes := Ascii("Content-Length")
  const LOCATION: bytes := Ascii("Location")
  const CONTENT_RANGE: bytes := Ascii("Content-Range")

  datatype Info = Info(contentType: bytes, contentLength: int, location: bytes)

  function Max(a: int, b: int): int { if a < b then b else a }

  // The bytes after the first '/', if there is one.
  function AfterSlash(b: bytes): bytes {
    if b == [] then [] else if b[0] == SLASH then b[1..] else AfterSlash(b[1..])
  }

  function CheckHeader(name: bytes, value: bytes, info: Info): Info {
    if HeadersEqual(name, CONTENT_TYPE) then info.(contentType := value)
    else if HeadersEqual(name, CONTENT_LENGTH) then
      info.(contentLength := Max(Atoi64(value), info.contentLength))
    else if HeadersEqual(name, LOCATION) then info.(location := value)
    else if HeadersEqual(name, CONTENT_RANGE) && AfterSlash(value) != [] then
      info.(contentLength := Max(Atoi64(AfterSlash(value)), info.contentLength))
    else info
  }

  // ----- the automaton -----

  datatype State =
    | FirstLineStart | LineStart | Lws | Name | SpaceBefore | Value | Linefeed | FinalLinefeed | Fail

  datatype Scan = Scan(state: State, name: bytes, value: bytes, info: Info, headers: seq<R.Header>)

  // Recording the header that has just ended.
  function Record(k: Scan): Scan {
    var n, v := Trim(k.name), Trim(k.value);
    Scan(k.state, [], [], CheckHeader(n, v, k.info), k.headers + [R.Header(n, v)])
  }

  function PushValue(k: Scan, c: byte): Scan { k.(state := Value, value := k.value + [c]) }

  function Step(k: Scan, c: byte): Scan {
    match k.state
    case FirstLineStart =>
      if c == CR then k.(state := FinalLinefeed)
      else if !IsToken(c) then k.(state := Fail)
      else k.(state := Name, name := k.name + [c])
    case LineStart =>
      if c == CR then Record(k).(state := FinalLinefeed)
      else if c == SP || c == HT then k.(state := Lws)
      else if !IsToken(c) then k.(state := Fail)
      else Record(k).(state := Name, name := [c])
    case Lws =>
      if c == CR then k.(state := Linefeed)
      else if c == SP || c == HT then k
      else if R.IsCtl(c) then k.(state := Fail) else PushValue(k, c)
    case Name =>
      if c == COLON then k.(state := SpaceBefore)
      else if !IsToken(c) then k.(state := Fail)
      else k.(name := k.name + [c])
    case SpaceBefore =>
      if c == CR then k.(state := Linefeed)
      else if R.IsCtl(c) then k.(state := Fail) else PushValue(k, c)
    case Value =>
      if c == CR then k.(state := Linefeed)
      else if R.IsCtl(c) then k.(state := Fail) else PushValue(k, c)
    case Linefeed => k.(state := if c == LF then LineStart else Fail)
    case FinalLinefeed => k
    case Fail => k
  }

  function Run(k: Scan, b: bytes): (bool, Scan)
    decreases b
  {
    if b == [] || k.state == Fail then (false, k)
    else if k.state == FinalLinefeed then (b[0] == LF, k)
    else Run(Step(k, b[0]), b[1..])
  }

  function Start(info: Info, headers: seq<R.Header>): Scan {
    Scan(FirstLineStart, [], [], info, headers)
  }

  // The loop of `parse_http_headers`; the reference parameters are returned.
  method ParseHttpHeaders(b: bytes, info: Info, headers: seq<R.Header>)
    returns (ok: bool, info': Info, headers': seq<R.Header>)
    ensures var r := Run(Start(info, headers), b);
            ok == r.0 && info' == r.1.info && headers' == r.1.headers
  {
    info', headers' := info, headers;
    var state, name, value := FirstLineStart, [], [];
    var pos := 0;
    while pos < |b| && state != Fail
      invariant 0 <= pos <= |b|
      invariant Run(Scan(state, name, value, info', headers'), b[pos..]) == Run(Start(info, headers), b)
    {
      assert b[pos..][1..] == b[pos + 1..];
      var c := b[pos];
      pos := pos + 1;
      match state {
        case FirstLineStart =>
          if c == CR {
            state := FinalLinefeed;
          } else if !IsToken(c) {
            state := Fail;
          } else {
            name := name + [c];
            state := Name;
          }
        case LineStart =>
          if c == SP || c == HT {
            state := Lws;
          } else if c != CR && !IsToken(c) {
            state := Fail;
          } else {
            name, value := Trim(name), Trim(value);
            info' := CheckHeader(name, value, info');
            headers' := headers' + [R.Header(name, value)];
            name, value := [], [];
            if c == CR {
              state := FinalLinefeed;
            } else {
              name := [c];
              state := Name;
            }
          }
        case Lws =>
          if c == CR {
            state := Linefeed;
          } else if c == SP || c == HT {
          } else if R.IsCtl(c) {
            state := Fail;
          } else {
            state, value := Value, value + [c];
          }
        case Name =>
          if c == COLON {
            state := SpaceBefore;
          } else if !IsToken(c) {
            state := Fail;
          } else {
            name := name + [c];
          }
        case SpaceBefore =>
          if c == SP {
            state := Value;
          }
          if c == CR {
            state := Linefeed;
          } else if R.IsCtl(c) {
            state := Fail;
          } else {
            value, state := value + [c], Value;
          }
        case Value =>
          if c == CR {
            state := Linefeed;
          } else if R.IsCtl(c) {
            state := Fail;
          } else {
            value := value + [c];
          }
        case Linefeed => state := if c == LF then LineStart else Fail;
        case FinalLinefeed => return c == LF, info', headers';
      }
    }
    return false, info', headers';
  }
}
