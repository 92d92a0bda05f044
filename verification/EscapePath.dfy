// Percent-escaping of the characters that a path may not hold, and its undoing.
module EscapePath {
  import opened Bytes

  // ' ', '`', '{', '}', '^' and '|'
  predicate IsTspecial(c: byte) { c == SP || c == 96 || c == 123 || c == 125 || c == 94 || c == 124 }

  // The characters that unescape_path copies, besides letters and digits:
  // - _ . ! ~ * ' ( ) : @ & = $ , / ;
  predicate IsLiteral(c: byte) {
    c == MINUS || c == 95 || c == DOT || c == 33 || c == 126 || c == 42 || c == 39 || c == 40 || c == 41 || c == COLON
    || c == 64 || c == AMPERSAND || c == EQUALS || c == 36 || c == 44 || c == SLASH || c == 59
  }

  function HexDigit(n: nat): byte
    requires n < 16
  {
    if n < 10 then 48 + n else 87 + n
  }

  // The value of a hexadecimal digit of either case.
  function HexValue(c: byte): (r: int)
    ensures -1 <= r < 16
    ensures r >= 0 ==> IsAlnum(c)
  {
    if 48 <= c <= 57 then c - 48 else if 97 <= c <= 102 then c - 87 else if 65 <= c <= 70 then c - 55 else -1
  }

  predicate IsEscaped(c: byte) { c >= 128 || IsTspecial(c) }

  function EscapeChar(c: byte): (r: bytes)
    ensures r != []
  {
    if IsEscaped(c) then [PERCENT, HexDigit(c / 16), HexDigit(c % 16)] else [c]
  }

  function Escape(s: bytes): bytes {
    if s == [] then [] else EscapeChar(s[0]) + Escape(s[1..])
  }

  lemma {:induction false} EscapeAppend(a: bytes, b: bytes)
    ensures Escape(a + b) == Escape(a) + Escape(b)
  {
    if a == [] {
      assert a + b == b;
    } else {
      assert (a + b)[1..] == a[1..] + b;
      EscapeAppend(a[1..], b);
    }
  }

  method ToHex(s: bytes) returns (ret: bytes)
    ensures |ret| == 2 * |s|
    ensures forall k :: 0 <= k < |s| ==> ret[2 * k] == HexDigit(s[k] / 16) && ret[2 * k + 1] == HexDigit(s[k] % 16)
  {
    ret := [];
    var i := 0;
    while i < |s|
      invariant 0 <= i <= |s| && |ret| == 2 * i
      invariant forall k :: 0 <= k < i ==> ret[2 * k] == HexDigit(s[k] / 16) && ret[2 * k + 1] == HexDigit(s[k] % 16)
    {
      ret := ret + [HexDigit(s[i] / 16)];
      ret := ret + [HexDigit(s[i] % 16)];
      i := i + 1;
    }
  }

  method EscapePathString(s: bytes) returns (ret: bytes)
    ensures ret == Escape(s)
  {
    ret := [];
    var i := 0;
    while i < |s|
      invariant 0 <= i <= |s|
      invariant ret == Escape(s[..i])
    {
      var h := [s[i]];
      if !(s[i] < 128) || IsTspecial(s[i]) {
        var hex := ToHex(h);
        assert hex[2 * 0] == HexDigit(h[0] / 16) && hex[2 * 0 + 1] == HexDigit(h[0] % 16);
        h := [PERCENT] + hex;
      }
      assert h == EscapeChar(s[i]);
      assert s[..i + 1] == s[..i] + [s[i]] && [s[i]][1..] == [];
      EscapeAppend(s[..i], [s[i]]);
      ret := ret + h;
      i := i + 1;
    }
    assert s[..i] == s;
  }

  // The first character of an escaped string, and how many bytes it is written in.
  datatype First = Char(c: byte, size: nat) | Bad

  function Unescape1(b: bytes): (r: First)
    requires b != []
    ensures r.Char? ==> 0 < r.size <= |b|
  {
    if b[0] == PERCENT then
      if 3 <= |b| && HexValue(b[1]) >= 0 && HexValue(b[2]) >= 0
      then Char(HexValue(b[1]) * 16 + HexValue(b[2]), 3)
      else Bad
    else if b[0] == PLUS then Char(SP, 1)
    else if IsLiteral(b[0]) || IsAlnum(b[0]) then Char(b[0], 1)
    else Bad
  }

  // Whether the whole string can be unescaped, and what has been by the end or by the first
  // character that cannot.
  function Unescape(b: bytes): (bool, bytes) {
    if b == [] then (true, [])
    else
      match Unescape1(b)
      case Bad => (false, [])
      case Char(c, n) => var (ok, out) := Unescape(b[n..]); (ok, [c] + out)
  }

  // The two digits after the '%' at i.
  method UnescapeHex(text: bytes, i: nat) returns (ok: bool, value: nat)
    requires i + 3 <= |text|
    ensures ok <==> HexValue(text[i + 1]) >= 0 && HexValue(text[i + 2]) >= 0
    ensures ok ==> value == HexValue(text[i + 1]) * 16 + HexValue(text[i + 2])
  {
    value := 0;
    var j := i + 1;
    while j < i + 3
      invariant i + 1 <= j <= i + 3
      invariant forall k :: i + 1 <= k < j ==> HexValue(text[k]) >= 0
      invariant value == if j == i + 1 then 0
                         else HexValue(text[i + 1]) * 16 + if j == i + 3 then HexValue(text[i + 2]) else 0
    {
      if HexValue(text[j]) < 0 { return false, 0; }
      value := value + HexValue(text[j]);
      if j == i + 1 {
        value := value * 16;
      }
      j := j + 1;
    }
    return true, value;
  }

  // Where unescaping stands after the bytes before i: `out` has been written.
  ghost predicate UnescapedTo(text: bytes, i: nat, out: bytes)
    requires i <= |text|
  {
    Unescape(text) == (Unescape(text[i..]).0, out + Unescape(text[i..]).1)
  }

  lemma UnescapedOne(text: bytes, i: nat, out: bytes)
    requires i < |text| && UnescapedTo(text, i, out)
    ensures var r := Unescape1(text[i..]);
            if r.Bad? then Unescape(text) == (false, out) else UnescapedTo(text, i + r.size, out + [r.c])
  {
    var b := text[i..];
    var r := Unescape1(b);
    if r.Bad? {
      assert out + [] == out;
    } else {
      assert b[r.size..] == text[i + r.size..];
      AppendAssoc(out, [r.c], Unescape(text[i + r.size..]).1);
    }
  }

  lemma UnescapedAll(text: bytes, out: bytes)
    requires UnescapedTo(text, |text|, out)
    ensures Unescape(text) == (true, out)
  {
    assert out + [] == out;
  }

  method UnescapePathString(text: bytes) returns (ok: bool, out: bytes)
    ensures (ok, out) == Unescape(text)
  {
    out := [];
    var i := 0;
    assert text[0..] == text && [] + Unescape(text).1 == Unescape(text).1;
    while i < |text|
      invariant 0 <= i <= |text|
      invariant UnescapedTo(text, i, out)
    {
      hide Unescape, UnescapedTo;
      UnescapedOne(text, i, out);
      assert forall k :: 0 <= k < |text| - i ==> text[i..][k] == text[i + k];
      if text[i] == PERCENT {
        if i + 3 <= |text| {
          var value;
          ok, value := UnescapeHex(text, i);
          if !ok { return; }
          out := out + [value % 256];
          i := i + 2;
        } else {
          return false, out;
        }
      } else if text[i] == PLUS {
        out := out + [SP];
      } else if IsLiteral(text[i]) {
        out := out + [text[i]];
      } else {
        if !IsAlnum(text[i]) { return false, out; }
        out := out + [text[i]];
      }
      i := i + 1;
    }
    UnescapedAll(text, out);
    return true, out;
  }

  // ----- when escaping is undone -----

  // The characters that come through unchanged.
  predicate Survives(c: byte) { IsAlnum(c) || IsLiteral(c) || IsEscaped(c) }

  predicate AllSurvive(s: bytes) { forall c <- s :: Survives(c) }

  lemma HexRoundTrip(c: byte)
    ensures HexValue(HexDigit(c / 16)) == c / 16 && HexValue(HexDigit(c % 16)) == c % 16
  {
  }

  // A surviving character in front.
  lemma SurvivorFirst(c: byte, rest: bytes)
    requires Survives(c)
    ensures Unescape(EscapeChar(c) + rest) == (Unescape(rest).0, [c] + Unescape(rest).1)
  {
    HexRoundTrip(c);
    var b := EscapeChar(c) + rest;
    assert b[|EscapeChar(c)|..] == rest;
    assert Unescape1(b) == Char(c, |EscapeChar(c)|);
  }

  // What an unescaped '%' runs into: an error, or two hexadecimal digits that are the next
  // two characters.
  lemma PercentFirst(s: bytes)
    requires s != [] && s[0] == PERCENT
    ensures Unescape(Escape(s)) == (false, [])
         || (3 <= |s|
             && exists c :: Unescape(Escape(s)) == (Unescape(Escape(s[3..])).0, [c] + Unescape(Escape(s[3..])).1))
  {
    hide Escape, EscapeChar, Unescape, HexValue;
    var b, t := Escape(s), s[1..];
    PercentStays(s);
    UnescapeStep(b);
    if Unescape1(b).Char? {
      assert b[1] == Escape(t)[0];
      DigitIsItself(t);
      assert b[2] == Escape(t[1..])[0];
      DigitIsItself(t[1..]);
      assert t[1..][1..] == s[3..] && b[3..] == Escape(s[3..]);
    }
  }

  lemma PercentStays(s: bytes)
    requires s != [] && s[0] == PERCENT
    ensures Escape(s) == [PERCENT] + Escape(s[1..])
  {
  }

  lemma UnescapeStep(b: bytes)
    requires b != []
    ensures var r := Unescape1(b);
            Unescape(b) == if r.Bad? then (false, []) else (Unescape(b[r.size..]).0, [r.c] + Unescape(b[r.size..]).1)
  {
    hide Unescape1;
  }

  // An escaped string that begins with a digit is of a string that does.
  lemma DigitIsItself(s: bytes)
    ensures Escape(s) != [] && HexValue(Escape(s)[0]) >= 0 ==>
              s != [] && Escape(s) == [s[0]] + Escape(s[1..])
  {
  }

  // A character that does not survive, in front, with what it makes of the string.
  lemma LostFirst(s: bytes)
    requires s != [] && !Survives(s[0])
    ensures Unescape(Escape(s)) == (false, [])
         || (s[0] == PLUS && Unescape(Escape(s)) == (Unescape(Escape(s[1..])).0, [SP] + Unescape(Escape(s[1..])).1))
         || (s[0] == PERCENT && 3 <= |s|
             && exists c :: Unescape(Escape(s)) == (Unescape(Escape(s[3..])).0, [c] + Unescape(Escape(s[3..])).1))
  {
    if s[0] == PERCENT {
      PercentFirst(s);
    } else {
      assert Escape(s)[1..] == Escape(s[1..]);
    }
  }

  // Unescaping never makes a string longer than the one that was escaped.
  lemma {:induction false} NoLonger(s: bytes)
    ensures |Unescape(Escape(s)).1| <= |s|
    decreases |s|
  {
    if s != [] {
      NoLonger(s[1..]);
      if Survives(s[0]) {
        SurvivorFirst(s[0], Escape(s[1..]));
      } else {
        LostFirst(s);
        if 3 <= |s| { NoLonger(s[3..]); }
      }
    }
  }

  // unescape_path(escape_path(s)) gives s back, whether or not its result is looked at, if
  // and only if every character of s is one that survives.
  lemma {:induction false} EscapeRoundTrip(s: bytes)
    ensures Unescape(Escape(s)).1 == s <==> AllSurvive(s)
    ensures Unescape(Escape(s)) == (true, s) <==> AllSurvive(s)
    decreases |s|
  {
    if s != [] {
      assert s == [s[0]] + s[1..];
      EscapeRoundTrip(s[1..]);
      assert AllSurvive(s) <==> Survives(s[0]) && AllSurvive(s[1..]);
      if Survives(s[0]) {
        SurvivorFirst(s[0], Escape(s[1..]));
      } else {
        LostFirst(s);
        if 3 <= |s| { NoLonger(s[3..]); }
      }
    }
  }

  // ----- the characters, one by one -----

  // The character is the hexadecimal digit of value x, of either case.
  predicate HexIs(c: byte, x: nat) {
    x < 16 && (c == "0123456789abcdef"[x] as int || c == "0123456789ABCDEF"[x] as int)
  }

  lemma HexIsValue(c: byte, x: nat)
    ensures HexIs(c, x) <==> HexValue(c) == x
  {
  }

  lemma TwoDigits(h: byte, l: byte, rest: bytes)
    ensures Unescape([37, h, l] + rest)
         == if HexValue(h) >= 0 && HexValue(l) >= 0
            then (Unescape(rest).0, [16 * HexValue(h) + HexValue(l)] + Unescape(rest).1) else (false, [])
  {
    assert ([37, h, l] + rest)[3..] == rest;
    UnescapeStep([37, h, l] + rest);
    hide HexValue, Unescape;
  }

  lemma TooShort(rest: bytes)
    requires |rest| < 2
    ensures Unescape([37] + rest) == (false, [])
  {
    UnescapeStep([37] + rest);
    hide HexValue, Unescape;
  }

  lemma DigitIs(n: nat)
    requires n < 16
    ensures HexDigit(n) == "0123456789abcdef"[n] as int
  {
  }

  // A '%' and two hexadecimal digits of either case are the character of that number; without
  // two digits behind it, it ends the unescaping.
  lemma PercentUnescaped(h: byte, l: byte, x: nat, y: nat, rest: bytes)
    ensures HexIs(h, x) && HexIs(l, y) ==>
              Unescape([37, h, l] + rest) == (Unescape(rest).0, [16 * x + y] + Unescape(rest).1)
    ensures (forall z :: !HexIs(h, z)) || (forall z :: !HexIs(l, z)) ==> Unescape([37, h, l] + rest) == (false, [])
    ensures |rest| < 2 ==> Unescape([37] + rest) == (false, [])
  {
    hide *;
    TwoDigits(h, l, rest);
    HexIsValue(h, x);
    HexIsValue(l, y);
    if HexValue(h) >= 0 { HexIsValue(h, HexValue(h)); }
    if HexValue(l) >= 0 { HexIsValue(l, HexValue(l)); }
    if |rest| < 2 { TooShort(rest); }
  }

  // Of the others, a plus is a space; letters, digits and some marks are themselves; and
  // everything else ends the unescaping.
  lemma CharacterUnescaped(c: byte, rest: bytes)
    requires c != '%' as int
    ensures var ch, r := c as char, Unescape([c] + rest);
            if ch == '+' then r == (Unescape(rest).0, [' ' as int] + Unescape(rest).1)
            else if 'a' <= ch <= 'z' || 'A' <= ch <= 'Z' || '0' <= ch <= '9'
                    || ch in {'-', '_', '.', '!', '~', '*', '\'', '(', ')', ':', '@', '&', '=', '$', ',', '/', ';'}
            then r == (Unescape(rest).0, [c] + Unescape(rest).1)
            else r == (false, [])
  {
    assert ([c] + rest)[1..] == rest;
    UnescapeStep([c] + rest);
    hide Unescape;
  }

  // Escaping writes six characters and everything beyond ASCII with a '%' and two lower-case
  // digits, and the others as they are.
  lemma CharacterEscaped(c: byte, rest: bytes)
    ensures Escape([c] + rest)
         == (if c >= 128 || (c as char) in {' ', '`', '{', '}', '^', '|'}
             then [37, "0123456789abcdef"[c / 16] as int, "0123456789abcdef"[c % 16] as int] else [c]) + Escape(rest)
  {
    assert ([c] + rest)[1..] == rest;
    DigitIs(c / 16);
    DigitIs(c % 16);
    hide HexDigit;
  }

  // What comes back from escaping and unescaping, in characters.
  lemma SurvivingCharacters(c: byte)
    ensures var ch := c as char;
            Survives(c) <==> || c >= 128 || 'a' <= ch <= 'z' || 'A' <= ch <= 'Z' || '0' <= ch <= '9'
                             || ch in {' ', '`', '{', '}', '^', '|'}
                             || ch in {'-', '_', '.', '!', '~', '*', '\'', '(', ')'}
                             || ch in {':', '@', '&', '=', '$', ',', '/', ';'}
  {
  }
}
