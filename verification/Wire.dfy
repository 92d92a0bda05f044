// The wire format of Protocol Buffers: varints, tags, fields and unknown fields, and the
// generic loop that merges the fields of a byte string into a message. The library that
// implements these primitives is not part of the repository; they are defined here from
// the Protocol Buffers encoding specification.
module Wire {
  import opened Bytes

  const TWO31: nat := 0x8000_0000
  const TWO32: nat := 0x1_0000_0000
  const TWO64: nat := 0x1_0000_0000_0000_0000

  type u32 = n: nat | n < TWO32
  type u64 = n: nat | n < TWO64

  // ----- varints -----

  function EncodeVarint(n: nat): (b: bytes)
    ensures b != []
  {
    if n < 128 then [n] else [n % 128 + 128] + EncodeVarint(n / 128)
  }

  // The number and the size of the varint at the start of b, of at most `most` bytes.
  function DecodeVarint(b: bytes, most: nat): (r: Option<(nat, nat)>)
    ensures r.Some? ==> 0 < r.value.1 <= |b| && r.value.1 <= most
    decreases most
  {
    if b == [] || most == 0 then None
    else if b[0] < 128 then Some((b[0], 1))
    else
      match DecodeVarint(b[1..], most - 1)
      case None => None
      case Some((v, n)) => Some((b[0] - 128 + 128 * v, n + 1))
  }

  const MAX_VARINT: nat := 10

  function Pow128(k: nat): (p: nat)
    ensures p > 0
  {
    if k == 0 then 1 else 128 * Pow128(k - 1)
  }

  lemma {:induction false} VarintRoundTrip(n: nat, most: nat, rest: bytes)
    requires 0 < most && n < Pow128(most)
    ensures DecodeVarint(EncodeVarint(n) + rest, most) == Some((n, |EncodeVarint(n)|))
    decreases most
  {
    if n >= 128 {
      assert most > 1;
      VarintRoundTrip(n / 128, most - 1, rest);
      assert (EncodeVarint(n) + rest)[1..] == EncodeVarint(n / 128) + rest;
    }
  }

  lemma Pow128Bound()
    ensures TWO64 <= Pow128(MAX_VARINT)
  {
    assert Pow128(4) == 268435456;
    assert Pow128(6) == 128 * (128 * Pow128(4));
    assert Pow128(8) == 128 * (128 * Pow128(6));
    assert Pow128(10) == 128 * (128 * Pow128(8));
  }

  lemma Varint64RoundTrip(n: u64, rest: bytes)
    ensures DecodeVarint(EncodeVarint(n) + rest, MAX_VARINT) == Some((n, |EncodeVarint(n)|))
  {
    Pow128Bound();
    VarintRoundTrip(n, MAX_VARINT, rest);
  }

  lemma {:induction false} VarintExtend(b: bytes, most: nat, rest: bytes)
    requires DecodeVarint(b, most).Some?
    ensures DecodeVarint(b + rest, most) == DecodeVarint(b, most)
    decreases most
  {
    if b[0] >= 128 {
      assert (b + rest)[1..] == b[1..] + rest;
      VarintExtend(b[1..], most - 1, rest);
    }
  }

  // ----- what the bytes of a varint mean -----

  // The first k bytes of b, seven bits each, the least significant ones first.
  function SevenBits(b: bytes, k: nat): nat
    requires k <= |b|
  {
    if k == 0 then 0 else SevenBits(b, k - 1) + b[k - 1] % 128 * Pow128(k - 1)
  }

  // The first byte below 128 is the k-th.
  predicate EndsAfter(b: bytes, k: nat) {
    0 < k <= |b| && b[k - 1] < 128 && forall j :: 0 <= j < k - 1 ==> b[j] >= 128
  }

  lemma {:induction false} SevenBitsCons(c: byte, b: bytes, k: nat)
    requires k <= |b|
    ensures SevenBits([c] + b, k + 1) == c % 128 + 128 * SevenBits(b, k)
  {
    if k == 0 {
      assert SevenBits([c] + b, 1) == SevenBits([c] + b, 0) + c % 128 * Pow128(0);
    } else {
      SevenBitsCons(c, b, k - 1);
      assert ([c] + b)[k] == b[k - 1];
    }
  }

  lemma EndsAfterCons(c: byte, b: bytes, k: nat)
    ensures c >= 128 ==> (EndsAfter([c] + b, k + 1) <==> EndsAfter(b, k))
  {
    if c >= 128 && EndsAfter([c] + b, k + 1) && 0 < k {
      assert b[k - 1] == ([c] + b)[k];
      assert forall j :: 0 <= j < k - 1 ==> b[j] == ([c] + b)[j + 1];
    }
  }

  lemma DivideTwice(n: nat, m: nat)
    requires m > 0
    ensures n / (128 * m) == n / 128 / m
  {
    var q, r := n / 128, n % 128;
    var t, u := q / m, q % m;
    assert n == 128 * (m * t + u) + r == t * (128 * m) + (128 * u + r);
    assert 128 * u + r < 128 * m;
    QuotientIs(n, 128 * m, t, 128 * u + r);
  }

  lemma AtLeast(k: int, m: nat)
    requires k != 0
    ensures k * m >= m || k * m + m <= 0
  {
  }

  lemma QuotientIs(n: nat, m: nat, q: nat, r: nat)
    requires n == q * m + r && r < m
    ensures n / m == q
  {
    if n / m != q {
      AtLeast(n / m - q, m);
      assert false;
    }
  }

  lemma {:induction false} EncodedSum(n: nat)
    ensures var b := EncodeVarint(n); EndsAfter(b, |b|) && SevenBits(b, |b|) == n
    decreases n
  {
    if n >= 128 {
      var rest := EncodeVarint(n / 128);
      EncodedSum(n / 128);
      SevenBitsCons(n % 128 + 128, rest, |rest|);
      EndsAfterCons(n % 128 + 128, rest, |rest|);
    } else {
      assert SevenBits([n], 1) == SevenBits([n], 0) + n % 128 * Pow128(0);
    }
  }

  lemma {:induction false} EncodedDigit(n: nat, i: nat)
    requires i < |EncodeVarint(n)|
    ensures EncodeVarint(n)[i] % 128 == n / Pow128(i) % 128
    decreases i
  {
    if i > 0 {
      EncodedDigit(n / 128, i - 1);
      DivideTwice(n, Pow128(i - 1));
    }
  }

  // The bytes of a number: its digits to the base of 128, the least significant one first, and
  // all but the last one marked.
  lemma EncodedDigits(n: nat)
    ensures var b := EncodeVarint(n);
            && SevenBits(b, |b|) == n
            && forall i :: 0 <= i < |b| ==> b[i] % 128 == n / Pow128(i) % 128 && (b[i] >= 128 <==> i < |b| - 1)
  {
    EncodedSum(n);
    forall i | 0 <= i < |EncodeVarint(n)|
      ensures EncodeVarint(n)[i] % 128 == n / Pow128(i) % 128
    {
      EncodedDigit(n, i);
    }
    hide EncodeVarint, SevenBits, Pow128;
  }

  lemma DecodeStep(c: byte, rest: bytes, most: nat)
    requires most > 0
    ensures DecodeVarint([c] + rest, most)
         == if c < 128 then Some((c, 1))
            else match DecodeVarint(rest, most - 1)
                 case None => None case Some((v, n)) => Some((c % 128 + 128 * v, n + 1))
    ensures SevenBits([c] + rest, 1) == c % 128
  {
    assert ([c] + rest)[1..] == rest;
    assert SevenBits([c] + rest, 0) == 0;
  }

  lemma {:induction false} DecodedFrom(b: bytes, most: nat, k: nat)
    requires k <= most && EndsAfter(b, k)
    ensures k <= |b| && DecodeVarint(b, most) == Some((SevenBits(b, k), k))
    decreases most
  {
    var rest := b[1..];
    assert b == [b[0]] + rest;
    DecodeStep(b[0], rest, most);
    if b[0] >= 128 {
      EndsAfterCons(b[0], rest, k - 1);
      assert k - 1 <= |rest| by { assert EndsAfter(rest, k - 1); }
      SevenBitsCons(b[0], rest, k - 1);
      DecodedFrom(rest, most - 1, k - 1);
    }
    hide DecodeVarint, SevenBits;
  }

  lemma {:induction false} DecodedEnds(b: bytes, most: nat)
    ensures var r := DecodeVarint(b, most); r.Some? ==> r.value.1 <= most && EndsAfter(b, r.value.1)
    decreases most
  {
    if b != [] && most > 0 && b[0] >= 128 {
      DecodedEnds(b[1..], most - 1);
      assert b == [b[0]] + b[1..];
      if DecodeVarint(b, most).Some? {
        EndsAfterCons(b[0], b[1..], DecodeVarint(b, most).value.1 - 1);
      }
    }
  }

  // A varint ends with its first byte below 128, if that is among the first `most`, and is the
  // number of those bytes.
  lemma DecodedDigits(b: bytes, most: nat)
    ensures DecodeVarint(b, most).Some? <==> exists k: nat :: k <= most && EndsAfter(b, k)
    ensures forall k: nat :: k <= most && EndsAfter(b, k) ==> DecodeVarint(b, most) == Some((SevenBits(b, k), k))
  {
    hide *;
    DecodedEnds(b, most);
    forall k: nat | k <= most && EndsAfter(b, k)
      ensures k <= |b| && DecodeVarint(b, most) == Some((SevenBits(b, k), k))
    {
      DecodedFrom(b, most, k);
    }
  }

  // The size function of the library, by thresholds.
  function VarintSize(n: u64): nat {
    if n < 0x80 then 1
    else if n < 0x4000 then 2
    else if n < 0x20_0000 then 3
    else if n < 0x1000_0000 then 4
    else if n < 0x8_0000_0000 then 5
    else if n < 0x400_0000_0000 then 6
    else if n < 0x2_0000_0000_0000 then 7
    else if n < 0x100_0000_0000_0000 then 8
    else if n < 0x8000_0000_0000_0000 then 9
    else 10
  }

  lemma {:induction false} VarintSizeIsLength(n: u64)
    ensures |EncodeVarint(n)| == VarintSize(n)
    decreases n
  {
    if n >= 128 {
      VarintSizeIsLength(n / 128);
    }
  }

  // ----- fields -----

  datatype Value = Varint(v: u64) | I64(raw: bytes) | Len(data: bytes) | Group(fields: seq<Field>) | I32(raw: bytes)

  datatype Field = Field(num: nat, value: Value)

  function WireType(v: Value): nat {
    match v case Varint(_) => 0 case I64(_) => 1 case Len(_) => 2 case Group(_) => 3 case I32(_) => 5
  }

  function Tag(f: Field): nat { f.num * 8 + WireType(f.value) }

  function EncodeField(f: Field): (b: bytes)
    ensures b != []
    decreases f, 1
  {
    EncodeVarint(Tag(f)) + EncodeValue(f.num, f.value)
  }

  function EncodeValue(num: nat, v: Value): bytes
    decreases v, 0
  {
    match v
    case Varint(n) => EncodeVarint(n)
    case I64(raw) => raw
    case Len(data) => EncodeVarint(|data|) + data
    case Group(fields) => EncodeFields(fields) + EncodeVarint(num * 8 + 4)
    case I32(raw) => raw
  }

  function EncodeFields(fs: seq<Field>): bytes
    decreases fs, 2
  {
    if fs == [] then [] else EncodeField(fs[0]) + EncodeFields(fs[1..])
  }

  // What a field read from the wire satisfies.
  predicate Wf(f: Field)
    decreases f
  {
    && f.num < 0x2000_0000 && Tag(f) != 0
    && match f.value
       case Varint(_) => true
       case I64(raw) => |raw| == 8
       case Len(data) => |data| < TWO31
       case Group(fields) => forall i :: 0 <= i < |fields| ==> Wf(fields[i])
       case I32(raw) => |raw| == 4
  }

  predicate AllWf(fs: seq<Field>) { forall i :: 0 <= i < |fs| ==> Wf(fs[i]) }

  // A tag, as its low 32 bits; 0 when there is none.
  function ReadTag(b: bytes): (r: (u32, nat))
    ensures r.1 <= |b| && (r.0 != 0 ==> 0 < r.1)
  {
    match DecodeVarint(b, MAX_VARINT)
    case None => (0, 0)
    case Some((v, n)) => (v % TWO32, n)
  }

  // What follows in the input: the end, a tag that ends the message (0 or an end-group
  // tag), a malformed field, or a field.
  datatype Next = AtEnd | Stop(tag: u32, size: nat) | Broken | Got(field: Field, size: nat)

  function NextField(b: bytes): (r: Next)
    ensures r.Got? ==> 0 < r.size <= |b| && Wf(r.field)
    ensures r.Stop? ==> r.size <= |b| && b != [] && (r.tag != 0 ==> 0 < r.size)
    decreases |b|, 1
  {
    if b == [] then AtEnd
    else
      var (tag, n) := ReadTag(b);
      if tag == 0 || tag % 8 == 4 then Stop(tag, n)
      else
        match ReadValue(tag / 8, tag % 8, b[n..])
        case None => Broken
        case Some((v, m)) => Got(Field(tag / 8, v), n + m)
  }

  function ReadValue(num: nat, wireType: nat, b: bytes): (r: Option<(Value, nat)>)
    requires num < 0x2000_0000 && wireType < 8 && num * 8 + wireType != 0
    ensures r.Some? ==> r.value.1 <= |b| && WireType(r.value.0) == wireType && Wf(Field(num, r.value.0))
    decreases |b|, 3
  {
    if wireType == 0 then
      match DecodeVarint(b, MAX_VARINT)
      case None => None
      case Some((v, n)) => Some((Varint(v % TWO64), n))
    else if wireType == 1 then (if |b| < 8 then None else Some((I64(b[..8]), 8)))
    else if wireType == 2 then
      match DecodeVarint(b, MAX_VARINT)
      case None => None
      case Some((v, n)) =>
        var len := v % TWO32;
        if len < TWO31 && len <= |b| - n then Some((Len(b[n..n + len]), n + len)) else None
    else if wireType == 3 then
      match ReadGroup(num, b)
      case None => None
      case Some((fs, n)) => Some((Group(fs), n))
    else if wireType == 5 then (if |b| < 4 then None else Some((I32(b[..4]), 4)))
    else None
  }

  function ReadGroup(num: nat, b: bytes): (r: Option<(seq<Field>, nat)>)
    ensures r.Some? ==> r.value.1 <= |b| && AllWf(r.value.0)
    decreases |b|, 2
  {
    match NextField(b)
    case Got(f, n) =>
      (match ReadGroup(num, b[n..])
       case None => None
       case Some((fs, m)) => Some(([f] + fs, n + m)))
    case Stop(tag, n) => if tag == num * 8 + 4 then Some(([], n)) else None
    case _ => None
  }

  // ----- a field, once read, does not depend on what follows it -----

  lemma NextExtend(b: bytes, rest: bytes)
    requires NextField(b).Got?
    ensures NextField(b + rest) == NextField(b)
    decreases |b|, 1
  {
    VarintExtend(b, MAX_VARINT, rest);
    var (tag, n) := ReadTag(b);
    assert (b + rest)[n..] == b[n..] + rest;
    ValueExtend(tag / 8, tag % 8, b[n..], rest);
  }

  lemma ValueExtend(num: nat, wireType: nat, b: bytes, rest: bytes)
    requires num < 0x2000_0000 && wireType < 8 && num * 8 + wireType != 0
    requires ReadValue(num, wireType, b).Some?
    ensures ReadValue(num, wireType, b + rest) == ReadValue(num, wireType, b)
    decreases |b|, 3
  {
    hide DecodeVarint, ReadGroup, Wf;
    if wireType == 0 {
      VarintExtend(b, MAX_VARINT, rest);
    } else if wireType == 1 {
      assert (b + rest)[..8] == b[..8];
    } else if wireType == 2 {
      LenExtend(num, b, rest);
    } else if wireType == 3 {
      GroupExtend(num, b, rest);
    } else {
      assert (b + rest)[..4] == b[..4];
    }
  }

  lemma LenExtend(num: nat, b: bytes, rest: bytes)
    requires num < 0x2000_0000 && ReadValue(num, 2, b).Some?
    ensures ReadValue(num, 2, b + rest) == ReadValue(num, 2, b)
  {
    VarintExtend(b, MAX_VARINT, rest);
    hide DecodeVarint, Wf;
    var (v, n) := DecodeVarint(b, MAX_VARINT).value;
    assert (b + rest)[n..n + v % TWO32] == b[n..n + v % TWO32];
  }

  lemma GroupExtend(num: nat, b: bytes, rest: bytes)
    requires ReadGroup(num, b).Some?
    ensures ReadGroup(num, b + rest) == ReadGroup(num, b)
    decreases |b|, 2
  {
    GroupUnfold(num, b);
    GroupUnfold(num, b + rest);
    hide ReadGroup, NextField;
    match NextField(b)
    case Got(f, n) =>
      NextExtend(b, rest);
      assert (b + rest)[n..] == b[n..] + rest;
      GroupExtend(num, b[n..], rest);
    case Stop(tag, n) => StopExtend(b, rest);
    case _ =>
  }

  lemma GroupUnfold(num: nat, b: bytes)
    ensures NextField(b).Got? ==>
              var rest := ReadGroup(num, b[NextField(b).size..]);
              ReadGroup(num, b) == if rest.None? then None
                                   else Some(([NextField(b).field] + rest.value.0, NextField(b).size + rest.value.1))
    ensures NextField(b).Stop? ==>
              ReadGroup(num, b) == if NextField(b).tag == num * 8 + 4 then Some(([], NextField(b).size)) else None
    ensures NextField(b).AtEnd? || NextField(b).Broken? ==> ReadGroup(num, b).None?
  {
    hide NextField, Wf, AllWf;
  }

  lemma StopExtend(b: bytes, rest: bytes)
    requires NextField(b).Stop? && NextField(b).tag != 0
    ensures NextField(b + rest) == NextField(b)
  {
    VarintExtend(b, MAX_VARINT, rest);
  }

  // ----- what is written is read back -----

  lemma TagRoundTrip(tag: nat, rest: bytes)
    requires tag < TWO32
    ensures ReadTag(EncodeVarint(tag) + rest) == (tag, |EncodeVarint(tag)|)
  {
    Varint64RoundTrip(tag, rest);
  }

  lemma FieldRoundTrip(f: Field, rest: bytes)
    requires Wf(f)
    ensures NextField(EncodeField(f) + rest) == Got(f, |EncodeField(f)|)
    decreases f, 1
  {
    hide EncodeValue, ReadValue, EncodeVarint, DecodeVarint, ReadTag;
    var tag := EncodeVarint(Tag(f));
    var value := EncodeValue(f.num, f.value);
    TagRoundTrip(Tag(f), value + rest);
    ValueRoundTrip(f.num, f.value, rest);
    assert EncodeField(f) + rest == tag + (value + rest);
    assert (tag + (value + rest))[|tag|..] == value + rest;
  }

  lemma LenRoundTrip(num: nat, data: bytes, rest: bytes)
    requires num < 0x2000_0000 && |data| < TWO31
    ensures ReadValue(num, 2, EncodeVarint(|data|) + data + rest)
         == Some((Len(data), |EncodeVarint(|data|) + data|))
  {
    assert |data| < TWO31 < TWO64;
    hide *;
    Varint64RoundTrip(|data|, data + rest);
    var size := EncodeVarint(|data|);
    AppendAssoc(size, data, rest);
    assert (size + data + rest)[|size|..|size| + |data|] == data;
    ReadLen(num, size + data + rest, |data|, |size|);
  }

  lemma ReadLen(num: nat, b: bytes, n: nat, size: nat)
    requires num < 0x2000_0000 && n < TWO31 && size + n <= |b| && DecodeVarint(b, MAX_VARINT) == Some((n, size))
    ensures ReadValue(num, 2, b) == Some((Len(b[size..size + n]), size + n))
  {
    hide DecodeVarint;
  }

  lemma ValueRoundTrip(num: nat, v: Value, rest: bytes)
    requires Wf(Field(num, v))
    ensures ReadValue(num, WireType(v), EncodeValue(num, v) + rest) == Some((v, |EncodeValue(num, v)|))
    decreases v, 0
  {
    hide EncodeVarint, DecodeVarint, EncodeFields, ReadGroup;
    match v
    case Varint(n) => Varint64RoundTrip(n, rest);
    case I64(raw) => assert (raw + rest)[..8] == raw;
    case Len(data) => LenRoundTrip(num, data, rest);
    case Group(fields) =>
      var end := EncodeVarint(num * 8 + 4);
      GroupRoundTrip(num, fields, rest);
      AppendAssoc(EncodeFields(fields), end, rest);
    case I32(raw) => assert (raw + rest)[..4] == raw;
  }

  lemma GroupRoundTrip(num: nat, fs: seq<Field>, rest: bytes)
    requires num < 0x2000_0000 && AllWf(fs)
    ensures var end := EncodeVarint(num * 8 + 4);
            ReadGroup(num, EncodeFields(fs) + (end + rest)) == Some((fs, |EncodeFields(fs)| + |end|))
    decreases fs, 2
  {
    var end := EncodeVarint(num * 8 + 4);
    GroupUnfold(num, EncodeFields(fs) + (end + rest));
    hide NextField, ReadGroup, EncodeVarint, EncodeField, Wf;
    if fs == [] {
      GroupEnd(num, rest);
      assert EncodeFields(fs) + (end + rest) == end + rest;
    } else {
      GroupConsRoundTrip(num, fs, rest);
    }
  }

  lemma GroupConsRoundTrip(num: nat, fs: seq<Field>, rest: bytes)
    requires num < 0x2000_0000 && AllWf(fs) && fs != []
    ensures var end := EncodeVarint(num * 8 + 4);
            ReadGroup(num, EncodeFields(fs) + (end + rest)) == Some((fs, |EncodeFields(fs)| + |end|))
    decreases fs, 1
  {
    hide NextField, ReadGroup, EncodeVarint, EncodeField, Wf;
    var end := EncodeVarint(num * 8 + 4);
    var first, others := EncodeField(fs[0]), EncodeFields(fs[1..]);
    assert EncodeFields(fs) == first + others && Wf(fs[0]) && AllWf(fs[1..]);
    hide *;
    GroupUnfold(num, first + others + (end + rest));
    FieldRoundTrip(fs[0], others + (end + rest));
    GroupRoundTrip(num, fs[1..], rest);
    AppendAssoc(first, others, end + rest);
    assert [fs[0]] + fs[1..] == fs;
    assert (first + (others + (end + rest)))[|first|..] == others + (end + rest);
  }

  lemma GroupEnd(num: nat, rest: bytes)
    requires num < 0x2000_0000
    ensures var end := EncodeVarint(num * 8 + 4); NextField(end + rest) == Stop(num * 8 + 4, |end|)
  {
    assert num * 8 + 4 < TWO32 && (num * 8 + 4) % 8 == 4;
    hide *;
    TagRoundTrip(num * 8 + 4, rest);
    EndStops(EncodeVarint(num * 8 + 4) + rest);
  }

  lemma EndStops(b: bytes)
    requires b != [] && ReadTag(b).0 % 8 == 4
    ensures NextField(b) == Stop(ReadTag(b).0, ReadTag(b).1)
  {
    hide ReadTag, ReadValue;
  }

  lemma {:induction false} EncodeFieldsAppend(a: seq<Field>, b: seq<Field>)
    ensures EncodeFields(a + b) == EncodeFields(a) + EncodeFields(b)
    decreases |a|
  {
    if a == [] {
      assert a + b == b;
    } else {
      assert (a + b)[1..] == a[1..] + b;
      EncodeFieldsAppend(a[1..], b);
    }
  }

  lemma EncodeOne(f: Field)
    ensures EncodeFields([f]) == EncodeField(f)
  {
    assert EncodeFields([f]) == EncodeField(f) + EncodeFields([]);
  }

  // ----- merging the fields of a byte string into a message -----

  // The result of the parse loop of a message: malformed, or the message, the bytes
  // consumed, and whether the loop stopped at the end of the input.
  datatype Parsed<+M> = Malformed | Merged(msg: M, consumed: nat, clean: bool)

  // The plain tag-dispatch loop, for a message whose fields are handled by `apply`.
  function MergeAll<M>(apply: (M, Field) -> Option<M>, m: M, b: bytes): (r: Parsed<M>)
    ensures r.Merged? ==> r.consumed <= |b| && (r.clean ==> r.consumed == |b|)
    decreases |b|
  {
    match NextField(b)
    case AtEnd => Merged(m, 0, true)
    case Stop(_, n) => Merged(m, n, false)
    case Broken => Malformed
    case Got(f, n) =>
      match apply(m, f)
      case None => Malformed
      case Some(m') =>
        match MergeAll(apply, m', b[n..])
        case Malformed => Malformed
        case Merged(m'', k, clean) => Merged(m'', n + k, clean)
  }

  // A byte string that parses to its end may be followed by more.
  lemma {:induction false} MergeAppend<M>(apply: (M, Field) -> Option<M>, m: M, a: bytes, b: bytes)
    requires var r := MergeAll(apply, m, a); r.Merged? && r.clean
    ensures MergeAll(apply, m, a + b)
         == match MergeAll(apply, MergeAll(apply, m, a).msg, b)
            case Malformed => Malformed
            case Merged(m', k, clean) => Merged(m', |a| + k, clean)
    decreases |a|
  {
    AtEndIsEmpty(a);
    hide NextField, Wf;
    match NextField(a)
    case AtEnd => assert a + b == b;
    case Got(f, n) =>
      NextExtend(a, b);
      assert (a + b)[n..] == a[n..] + b;
      MergeAppend(apply, apply(m, f).value, a[n..], b);
    case _ =>
  }

  lemma AtEndIsEmpty(a: bytes)
    ensures NextField(a).AtEnd? <==> a == []
  {
  }

  // `merge` with unit `unit` is what applying a field amounts to: applying it to the unit,
  // and merging the result.
  ghost predicate Merges<M(!new)>(apply: (M, Field) -> Option<M>, merge: (M, M) -> M, unit: M) {
    && (forall m: M :: merge(m, unit) == m && merge(unit, m) == m)
    && (forall a: M, b: M, c: M :: merge(merge(a, b), c) == merge(a, merge(b, c)))
    && (forall m: M, f: Field ::
          apply(m, f) == match apply(unit, f) case None => None case Some(d) => Some(merge(m, d)))
  }

  // Parsing into a message is parsing into an empty one and merging.
  lemma {:induction false} ParseIsMerge<M(!new)>(
      apply: (M, Field) -> Option<M>, merge: (M, M) -> M, unit: M, m: M, b: bytes)
    requires Merges(apply, merge, unit)
    ensures MergeAll(apply, m, b)
         == match MergeAll(apply, unit, b)
            case Malformed => Malformed
            case Merged(d, k, clean) => Merged(merge(m, d), k, clean)
    decreases |b|
  {
    match NextField(b)
    case Got(f, n) =>
      match apply(unit, f) {
        case None =>
        case Some(d) =>
          ParseIsMerge(apply, merge, unit, merge(m, d), b[n..]);
          ParseIsMerge(apply, merge, unit, d, b[n..]);
      }
    case _ =>
  }

  // Hence the parse of a concatenation is the merge of the separate parses.
  lemma Homomorphism<M(!new)>(apply: (M, Field) -> Option<M>, merge: (M, M) -> M, unit: M, a: bytes, b: bytes)
    requires Merges(apply, merge, unit)
    requires var r := MergeAll(apply, unit, a); r.Merged? && r.clean
    requires var r := MergeAll(apply, unit, b); r.Merged? && r.clean
    ensures MergeAll(apply, unit, a + b)
         == Merged(merge(MergeAll(apply, unit, a).msg, MergeAll(apply, unit, b).msg), |a + b|, true)
  {
    MergeAppend(apply, unit, a, b);
    ParseIsMerge(apply, merge, unit, MergeAll(apply, unit, a).msg, b);
  }

  function ApplyAll<M>(apply: (M, Field) -> Option<M>, m: M, fs: seq<Field>): Option<M>
    decreases |fs|
  {
    if fs == [] then Some(m)
    else match apply(m, fs[0]) case None => None case Some(m') => ApplyAll(apply, m', fs[1..])
  }

  lemma {:induction false} ApplyAppend<M>(apply: (M, Field) -> Option<M>, m: M, a: seq<Field>, b: seq<Field>)
    requires ApplyAll(apply, m, a).Some?
    ensures ApplyAll(apply, m, a + b) == ApplyAll(apply, ApplyAll(apply, m, a).value, b)
    decreases |a|
  {
    if a == [] {
      assert a + b == b;
    } else {
      assert (a + b)[1..] == a[1..] + b;
      ApplyAppend(apply, apply(m, a[0]).value, a[1..], b);
    }
  }

  // Parsing the encoding of a list of fields applies the fields, one by one, to its end.
  lemma {:induction false} ParseEncoded<M>(apply: (M, Field) -> Option<M>, m: M, fs: seq<Field>)
    requires AllWf(fs) && ApplyAll(apply, m, fs).Some?
    ensures MergeAll(apply, m, EncodeFields(fs))
         == Merged(ApplyAll(apply, m, fs).value, |EncodeFields(fs)|, true)
    decreases |fs|
  {
    if fs != [] {
      var first, others := EncodeField(fs[0]), EncodeFields(fs[1..]);
      FieldRoundTrip(fs[0], others);
      assert (first + others)[|first|..] == others;
      ParseEncoded(apply, apply(m, fs[0]).value, fs[1..]);
    }
  }
}
