// Bytes, byte strings and optional values. The program's `char` data is modelled by its
// unsigned value, so a `char` that C++ sees as negative is a byte of 128 or more.
module Bytes {

  datatype Option<+T> = None | Some(value: T)

  type byte = b: int | 0 <= b < 256
  type bytes = seq<byte>

  const NUL: byte := 0
  const HT: byte := 9
  const LF: byte := 10
  const CR: byte := 13
  const SP: byte := 32
  const QUOTE: byte := 34
  const PERCENT: byte := 37
  const AMPERSAND: byte := 38
  const PLUS: byte := 43
  const MINUS: byte := 45
  const DOT: byte := 46
  const SLASH: byte := 47
  const COLON: byte := 58
  const EQUALS: byte := 61

  const CRLF: bytes := [CR, LF]

  predicate IsDigit(c: byte) { 48 <= c <= 57 }

  predicate IsUpper(c: byte) { 65 <= c <= 90 }

  predicate IsLower(c: byte) { 97 <= c <= 122 }

  predicate IsAlnum(c: byte) { IsDigit(c) || IsUpper(c) || IsLower(c) }

  // The concatenation of a list of byte strings.
  function Concat(parts: seq<bytes>): bytes {
    if parts == [] then [] else parts[0] + Concat(parts[1..])
  }

  lemma {:induction false} ConcatAppend(a: seq<bytes>, b: seq<bytes>)
    ensures Concat(a + b) == Concat(a) + Concat(b)
  {
    if a == [] {
      assert a + b == b;
    } else {
      assert (a + b)[1..] == a[1..] + b;
      ConcatAppend(a[1..], b);
    }
  }

  lemma ConcatSingle(x: bytes)
    ensures Concat([x]) == x
  {
    assert Concat([x]) == x + Concat([]);
  }

  lemma AppendAssoc(a: bytes, b: bytes, c: bytes)
    ensures a + (b + c) == a + b + c
  {
  }

  lemma AppendAssoc4(o: bytes, a: bytes, b: bytes, c: bytes, d: bytes)
    ensures o + (a + b + c + d) == o + a + b + c + d
  {
    AppendAssoc(o, a + b + c, d);
    AppendAssoc(o, a + b, c);
    AppendAssoc(o, a, b);
  }

  // A slice of a slice.
  lemma SliceOfSlice(b: bytes, low: nat, high: nat, from: nat, to: nat)
    requires low <= high <= |b| && from <= to <= high - low
    ensures b[low..high][from..to] == b[low + from..low + to]
  {
    var x, y := b[low..high][from..to], b[low + from..low + to];
    assert forall k :: 0 <= k < |x| ==> x[k] == b[low..high][from + k] == b[low + from + k] == y[k];
    assert x == y;
  }

  lemma AppendAssoc5(o: bytes, a: bytes, b: bytes, c: bytes, d: bytes, e: bytes)
    ensures o + (a + b + c + d + e) == o + a + b + c + d + e
  {
    AppendAssoc(o, a + b + c + d, e);
    AppendAssoc(o, a + b + c, d);
    AppendAssoc(o, a + b, c);
    AppendAssoc(o, a, b);
  }

  lemma PrefixCons(b: bytes, k: nat)
    requires k < |b|
    ensures b[..k + 1] == [b[0]] + b[1..][..k]
  {
  }

  // The number a string of digits denotes, most significant digit first.
  function Decimal(digits: bytes): int {
    if digits == [] then 0
    else Decimal(digits[..|digits| - 1]) * 10 + digits[|digits| - 1] - 48
  }

  lemma DecimalPush(digits: bytes, c: byte)
    ensures Decimal(digits + [c]) == Decimal(digits) * 10 + c - 48
  {
    assert (digits + [c])[..|digits|] == digits;
  }
}
