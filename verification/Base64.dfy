// Base64, as section 4 of RFC 4648 has it: encoding by groups of three bytes, and a decoder
// that stops at the first character outside the alphabet.
module Base64 {
  import opened Bytes

  type sextet = n: nat | n < 64

  // ----- the alphabet -----

  function Letter(n: sextet): (c: byte)
    ensures IsBase64(c) && c != EQUALS
  {
    if n < 26 then 65 + n else if n < 52 then 71 + n else if n < 62 then n - 4 else if n == 62 then PLUS else SLASH
  }

  predicate IsBase64(c: byte) { IsAlnum(c) || c == PLUS || c == SLASH }

  // The position of a character in the alphabet, as an unsigned char; 255 when it is in none.
  function Position(c: byte): (n: byte)
    ensures IsBase64(c) ==> n < 64
    ensures !IsBase64(c) ==> n == 255
  {
    if IsUpper(c) then c - 65
    else if IsLower(c) then c - 71
    else if IsDigit(c) then c + 4
    else if c == PLUS then 62
    else if c == SLASH then 63
    else 255
  }

  lemma AlphabetRoundTrip(n: sextet, c: byte)
    ensures Position(Letter(n)) == n
    ensures IsBase64(c) ==> Letter(Position(c)) == c
  {
  }

  // ----- groups -----

  function Split(a: byte, b: byte, c: byte): (r: seq<sextet>)
    ensures |r| == 4
  {
    [a / 4, a % 4 * 16 + b / 16, b % 16 * 4 + c / 64, c % 64]
  }

  // The three bytes the decoder makes of four positions, with the carries of unsigned chars.
  function Join(p: byte, q: byte, r: byte, s: byte): (b: bytes)
    ensures |b| == 3
  {
    [(p * 4 + q / 16 % 4) % 256, (q % 16 * 16 + r / 4 % 16) % 256, (r % 4 * 64 + s) % 256]
  }

  // The digits of a number to the base of 4, 16 or 64.
  lemma Digits(x: nat, y: nat)
    ensures y < 4 ==> (x * 4 + y) / 4 == x && (x * 4 + y) % 4 == y
    ensures y < 16 ==> (x * 16 + y) / 16 == x && (x * 16 + y) % 16 == y
  {
  }

  lemma JoinSplit(a: byte, b: byte, c: byte)
    ensures var s := Split(a, b, c); Join(s[0], s[1], s[2], s[3]) == [a, b, c]
  {
    Digits(a % 4, b / 16);
    Digits(b % 16, c / 64);
    var s := Split(a, b, c);
    var q, r := s[1], s[2];
    assert q / 16 == a % 4 && q % 16 == b / 16 && r / 4 == b % 16 && r % 4 == c / 64;
    assert s[0] as int * 4 + q / 16 % 4 == a;
    assert (q % 16) as int * 16 + r / 4 % 16 == b;
    assert (r % 4) as int * 64 + s[3] == c;
  }

  // Missing positions do not reach the bytes that are kept.
  lemma JoinPartly(a: byte, b: byte, r: byte, s: byte)
    ensures var t := Split(a, 0, 0); Join(t[0], t[1], r, s)[..1] == [a]
    ensures var t := Split(a, b, 0); Join(t[0], t[1], t[2], s)[..2] == [a, b]
  {
    JoinSplit(a, 0, 0);
    JoinSplit(a, b, 0);
    var t, u := Split(a, 0, 0), Split(a, b, 0);
    assert Join(t[0], t[1], r, s)[0] == Join(t[0], t[1], t[2], t[3])[0];
    assert Join(u[0], u[1], u[2], s)[0] == Join(u[0], u[1], u[2], u[3])[0];
    assert Join(u[0], u[1], u[2], s)[1] == Join(u[0], u[1], u[2], u[3])[1];
    hide Join, Split;
  }

  // ----- encoding -----

  function Sextets(b: bytes): seq<sextet> {
    if |b| == 0 then []
    else if |b| == 1 then Split(b[0], 0, 0)[..2]
    else if |b| == 2 then Split(b[0], b[1], 0)[..3]
    else Split(b[0], b[1], b[2]) + Sextets(b[3..])
  }

  function Letters(ns: seq<sextet>): (s: bytes)
    ensures |s| == |ns| && forall k :: 0 <= k < |ns| ==> s[k] == Letter(ns[k])
  {
    if ns == [] then [] else [Letter(ns[0])] + Letters(ns[1..])
  }

  function Padding(n: nat): bytes {
    if n % 3 == 0 then [] else if n % 3 == 1 then [EQUALS, EQUALS] else [EQUALS]
  }

  function Encoding(b: bytes): bytes { Letters(Sextets(b)) + Padding(|b|) }

  lemma {:induction false} SextetsAppend(a: bytes, b: bytes)
    requires |a| % 3 == 0
    ensures Sextets(a + b) == Sextets(a) + Sextets(b)
    decreases |a|
  {
    if a == [] {
      assert a + b == b;
    } else {
      assert (a + b)[3..] == a[3..] + b;
      SextetsAppend(a[3..], b);
      var g := Split(a[0], a[1], a[2]);
      assert g + (Sextets(a[3..]) + Sextets(b)) == g + Sextets(a[3..]) + Sextets(b);
    }
  }

  lemma LettersAppend(a: seq<sextet>, b: seq<sextet>)
    ensures Letters(a + b) == Letters(a) + Letters(b)
  {
  }

  lemma GroupDone(data: bytes, groups: nat)
    requires 3 * groups + 3 <= |data|
    ensures var n := 3 * groups;
            Letters(Sextets(data[..n + 3]))
                == Letters(Sextets(data[..n])) + Letters(Split(data[n], data[n + 1], data[n + 2]))
  {
    var n := 3 * groups;
    var g := data[n..n + 3];
    assert data[..n + 3] == data[..n] + g;
    SextetsAppend(data[..n], g);
    assert g[3..] == [] && Sextets(g) == Split(g[0], g[1], g[2]) + Sextets([]);
    LettersAppend(Sextets(data[..n]), Sextets(g));
  }

  method Encode(data: bytes) returns (ret: bytes)
    ensures ret == Encoding(data)
  {
    hide *;
    ret := [];
    var three, four := new byte[3], new byte[4];
    var i, k := 0, 0;
    ghost var groups := 0;
    NothingEncoded(data);
    while k < |data|
      invariant 0 <= i < 3 && 0 <= groups && k == 3 * groups + i <= |data|
      invariant three[..i] == data[3 * groups..k]
      invariant ret == Letters(Sextets(data[..3 * groups]))
      invariant fresh(three) && fresh(four)
    {
      three[i] := data[k];
      OneMore(data, 3 * groups, k);
      assert three[..i + 1] == three[..i] + [data[k]];
      i, k := i + 1, k + 1;
      if i == 3 {
        FillFour(three, four);
        ret := AppendLetters(ret, four, 4);
        FullGroup(three[..], four[..], data, k, groups);
        i, groups := 0, groups + 1;
      }
    }
    TailDone(data, groups);
    assert three[..i] == data[3 * groups..];
    if i != 0 {
      var tail := EncodeTail(three, four, i);
      ret := ret + tail;
    } else {
      NothingLeft(ret, data, groups);
    }
  }

  lemma OneMore(s: bytes, from: nat, k: nat)
    requires from <= k < |s|
    ensures s[from..k + 1] == s[from..k] + [s[k]]
  {
  }

  lemma NothingEncoded(data: bytes)
    ensures Letters(Sextets(data[..3 * 0])) == []
  {
  }

  lemma NothingLeft(ret: bytes, data: bytes, groups: nat)
    requires 3 * groups == |data| && ret == Letters(Sextets(data[..3 * groups]))
    ensures ret + Encoding(data[3 * groups..]) == ret
  {
  }

  lemma FullGroup(three: bytes, four: seq<byte>, data: bytes, k: nat, groups: nat)
    requires k == 3 * groups + 3 <= |data| && |three| == 3 && three[..3] == data[k - 3..k]
    requires |four| == 4 && four == Split(three[0], three[1], three[2])
    ensures Letters(Sextets(data[..k])) == Letters(Sextets(data[..k - 3])) + Letters(four[..4])
  {
    GroupDone(data, groups);
    assert three[..3] == three && four[..4] == four;
    hide Letters, Sextets, Split;
    assert three[0] == data[k - 3] && three[1] == data[k - 2] && three[2] == data[k - 1];
  }

  // The last one or two bytes.
  method EncodeTail(three: array<byte>, four: array<byte>, i: nat) returns (ret: bytes)
    requires three.Length == 3 && four.Length == 4 && three != four && (i == 1 || i == 2)
    modifies three, four
    ensures ret == Encoding(old(three[..i]))
  {
    ghost var rest := three[..i];
    var j := i;
    while j < 3
      invariant i <= j <= 3 && three[..i] == rest && forall n :: i <= n < j ==> three[n] == 0
    {
      three[j] := 0;
      j := j + 1;
    }
    FillFour(three, four);
    assert rest[0] == three[0] && (i == 2 ==> rest[1] == three[1]);
    assert Sextets(rest) == Split(three[0], three[1], three[2])[..i + 1];
    hide *;
    ret := AppendLetters([], four, i + 1);
    assert four[..i + 1] == four[..][..i + 1];
    ret := AppendPadding(ret, i);
    TailEncoding(rest);
  }

  method AppendPadding(text: bytes, i: nat) returns (ret: bytes)
    requires i == 1 || i == 2
    ensures ret == text + Padding(i)
  {
    ret := text;
    var n := i;
    while n < 3
      invariant i <= n <= 3 && ret == text + Padding(i)[..n - i]
    {
      n := n + 1;
      ret := ret + [EQUALS];
    }
    assert Padding(i)[..3 - i] == Padding(i);
  }

  lemma TailEncoding(rest: bytes)
    ensures Encoding(rest) == [] + Letters(Sextets(rest)) + Padding(|rest|)
  {
    assert [] + Letters(Sextets(rest)) == Letters(Sextets(rest));
  }

  lemma TailDone(data: bytes, groups: nat)
    requires 3 * groups <= |data|
    ensures var n := 3 * groups; Encoding(data) == Letters(Sextets(data[..n])) + Encoding(data[n..])
  {
    var n := 3 * groups;
    assert data == data[..n] + data[n..];
    SextetsAppend(data[..n], data[n..]);
    LettersAppend(Sextets(data[..n]), Sextets(data[n..]));
    SamePadding(|data[n..]|, groups);
    hide Sextets, Letters, Padding;
    AppendAssoc(Letters(Sextets(data[..n])), Letters(Sextets(data[n..])), Padding(|data|));
  }

  lemma SamePadding(rest: nat, groups: nat)
    ensures Padding(3 * groups + rest) == Padding(rest)
  {
    assert 3 * groups + rest == 3 * (groups + rest / 3) + rest % 3;
  }

  method FillFour(three: array<byte>, four: array<byte>)
    requires three.Length == 3 && four.Length == 4 && three != four
    modifies four
    ensures four[..] == Split(three[0], three[1], three[2])
  {
    four[0] := three[0] / 4;
    four[1] := three[0] % 4 * 16 + three[1] / 16;
    four[2] := three[1] % 16 * 4 + three[2] / 64;
    four[3] := three[2] % 64;
  }

  method AppendLetters(text: bytes, four: array<byte>, n: nat) returns (ret: bytes)
    requires four.Length == 4 && n <= 4 && forall j :: 0 <= j < 4 ==> four[j] < 64
    ensures ret == text + Letters(four[..n])
  {
    ret := text;
    var j := 0;
    while j < n
      invariant 0 <= j <= n && ret == text + Letters(four[..j])
    {
      ret := ret + [Letter(four[j])];
      assert four[..j + 1] == four[..j] + [four[j]];
      LettersAppend(four[..j], [four[j]]);
      j := j + 1;
    }
  }

  // ----- the bits -----

  function Bits8(b: byte): (r: seq<int>)
    ensures |r| == 8
  {
    [b / 128 % 2, b / 64 % 2, b / 32 % 2, b / 16 % 2, b / 8 % 2, b / 4 % 2, b / 2 % 2, b % 2]
  }

  function Bits6(n: sextet): (r: seq<int>)
    ensures |r| == 6
  {
    [n / 32 % 2, n / 16 % 2, n / 8 % 2, n / 4 % 2, n / 2 % 2, n % 2]
  }

  function BytesBits(b: bytes): seq<int> { if b == [] then [] else Bits8(b[0]) + BytesBits(b[1..]) }

  function SextetsBits(ns: seq<sextet>): seq<int> { if ns == [] then [] else Bits6(ns[0]) + SextetsBits(ns[1..]) }

  // How many bits n bytes lack to whole groups of six.
  function MissingBits(n: nat): (r: nat)
    ensures r < 6 && (8 * n + r) % 6 == 0
  {
    var q := n / 3;
    assert n == 3 * q + n % 3;
    var r := if n % 3 == 0 then 0 else if n % 3 == 1 then 4 else 2;
    assert 8 * n + r == 6 * (4 * q + if n % 3 == 0 then 0 else if n % 3 == 1 then 2 else 3);
    r
  }

  function Zeros(n: nat): seq<int> { seq(n, _ => 0) }

  // A number is the sum of its bits.
  lemma SumOfBits8(b: byte)
    ensures var s := Bits8(b);
            && (forall k :: 0 <= k < 8 ==> 0 <= s[k] <= 1)
            && b == 128 * s[0] + 64 * s[1] + 32 * s[2] + 16 * s[3] + 8 * s[4] + 4 * s[5] + 2 * s[6] + s[7]
            && b / 4 == 32 * s[0] + 16 * s[1] + 8 * s[2] + 4 * s[3] + 2 * s[4] + s[5] && b % 4 == 2 * s[6] + s[7]
            && b / 16 == 8 * s[0] + 4 * s[1] + 2 * s[2] + s[3] && b % 16 == 8 * s[4] + 4 * s[5] + 2 * s[6] + s[7]
            && b / 64 == 2 * s[0] + s[1] && b % 64 == 32 * s[2] + 16 * s[3] + 8 * s[4] + 4 * s[5] + 2 * s[6] + s[7]
  {
    assert b / 64 == 2 * (b / 128) + b / 64 % 2;
    assert b / 32 == 2 * (b / 64) + b / 32 % 2;
    assert b / 16 == 2 * (b / 32) + b / 16 % 2;
    assert b / 8 == 2 * (b / 16) + b / 8 % 2;
    assert b / 4 == 2 * (b / 8) + b / 4 % 2;
    assert b / 2 == 2 * (b / 4) + b / 2 % 2;
    assert b == 2 * (b / 2) + b % 2;
    assert b / 128 % 2 == b / 128;
  }

  predicate Bit(x: int) { 0 <= x <= 1 }

  lemma BitsOfSum6(n: sextet, a: int, b: int, c: int, d: int, e: int, f: int)
    requires Bit(a) && Bit(b) && Bit(c) && Bit(d) && Bit(e) && Bit(f)
    requires n == 32 * a + 16 * b + 8 * c + 4 * d + 2 * e + f
    ensures Bits6(n) == [a, b, c, d, e, f]
  {
    assert n / 32 == a;
    assert n / 16 == 2 * a + b;
    assert n / 8 == 4 * a + 2 * b + c;
    assert n / 4 == 8 * a + 4 * b + 2 * c + d;
    assert n / 2 == 16 * a + 8 * b + 4 * c + 2 * d + e;
  }

  lemma Assoc<T>(a: seq<T>, b: seq<T>, c: seq<T>)
    ensures a + (b + c) == a + b + c
  {
  }

  lemma Regroup(x: seq<int>, y: seq<int>, z: seq<int>)
    requires |x| == |y| == |z| == 8
    ensures x[..6] + (x[6..] + y[..4]) + (y[4..] + z[..2]) + z[2..] == x + y + z
  {
    assert x == x[..6] + x[6..] && y == y[..4] + y[4..] && z == z[..2] + z[2..];
    var x0, x1, y0, y1, z0, z1 := x[..6], x[6..], y[..4], y[4..], z[..2], z[2..];
    Assoc(x0, x1, y0);
    Assoc(x, y0, y1);
    Assoc(x + y0, y1, z0);
    Assoc(x + y, z0, z1);
  }

  lemma GroupBits(a: byte, b: byte, c: byte)
    ensures var s := Split(a, b, c);
            Bits6(s[0]) + Bits6(s[1]) + Bits6(s[2]) + Bits6(s[3]) == Bits8(a) + Bits8(b) + Bits8(c)
  {
    SumOfBits8(a);
    SumOfBits8(b);
    SumOfBits8(c);
    var s, x, y, z := Split(a, b, c), Bits8(a), Bits8(b), Bits8(c);
    hide Bits6, Bits8;
    BitsOfSum6(s[0], x[0], x[1], x[2], x[3], x[4], x[5]);
    BitsOfSum6(s[1], x[6], x[7], y[0], y[1], y[2], y[3]);
    BitsOfSum6(s[2], y[4], y[5], y[6], y[7], z[0], z[1]);
    BitsOfSum6(s[3], z[2], z[3], z[4], z[5], z[6], z[7]);
    Pieces(x, y, z);
    Regroup(x, y, z);
  }

  lemma Pieces(x: seq<int>, y: seq<int>, z: seq<int>)
    requires |x| == |y| == |z| == 8
    ensures [x[0], x[1], x[2], x[3], x[4], x[5]] == x[..6]
    ensures [x[6], x[7], y[0], y[1], y[2], y[3]] == x[6..] + y[..4]
    ensures [y[4], y[5], y[6], y[7], z[0], z[1]] == y[4..] + z[..2]
    ensures [z[2], z[3], z[4], z[5], z[6], z[7]] == z[2..]
  {
  }

  lemma SextetsBitsAppend(a: seq<sextet>, b: seq<sextet>)
    ensures SextetsBits(a + b) == SextetsBits(a) + SextetsBits(b)
  {
    if a == [] {
      assert a + b == b;
    } else {
      assert (a + b)[1..] == a[1..] + b;
      SextetsBitsAppend(a[1..], b);
      hide Bits6;
    }
  }

  lemma SextetsBitsOf4(s: seq<sextet>)
    requires |s| == 4
    ensures SextetsBits(s) == Bits6(s[0]) + Bits6(s[1]) + Bits6(s[2]) + Bits6(s[3])
    ensures SextetsBits(s[..2]) == Bits6(s[0]) + Bits6(s[1])
    ensures SextetsBits(s[..3]) == Bits6(s[0]) + Bits6(s[1]) + Bits6(s[2])
  {
    hide Bits6;
    SextetsBitsOf1(s[0]);
    SextetsBitsOf1(s[1]);
    SextetsBitsOf1(s[2]);
    SextetsBitsOf1(s[3]);
    SextetsBitsAppend([s[0]], [s[1]]);
    SextetsBitsAppend([s[0], s[1]], [s[2]]);
    SextetsBitsAppend([s[0], s[1], s[2]], [s[3]]);
    assert s[..2] == [s[0], s[1]] == [s[0]] + [s[1]];
    assert s[..3] == [s[0], s[1], s[2]] == [s[0], s[1]] + [s[2]];
    assert s == [s[0], s[1], s[2]] + [s[3]];
  }

  lemma SextetsBitsOf1(n: sextet)
    ensures SextetsBits([n]) == Bits6(n)
  {
    assert SextetsBits([n]) == Bits6(n) + SextetsBits([]);
  }

  // The groups of six bits of the output are the bits of the input, padded with zeros.
  lemma {:induction false} SixBitGroups(b: bytes)
    ensures SextetsBits(Sextets(b)) == BytesBits(b) + Zeros(MissingBits(|b|))
    decreases |b|
  {
    hide Bits6, Bits8, Split;
    if |b| >= 3 {
      var s := Split(b[0], b[1], b[2]);
      GroupBits(b[0], b[1], b[2]);
      SextetsBitsOf4(s);
      SextetsBitsAppend(s, Sextets(b[3..]));
      SixBitGroups(b[3..]);
      BytesBitsOf3(b);
      hide *;
      assert MissingBits(|b|) == MissingBits(|b[3..]|);
    } else if |b| > 0 {
      LastGroupBits(b);
    } else {
      assert Zeros(0) == [];
    }
  }

  lemma BytesBitsOf3(b: bytes)
    requires |b| >= 3
    ensures BytesBits(b) == Bits8(b[0]) + Bits8(b[1]) + Bits8(b[2]) + BytesBits(b[3..])
  {
    hide Bits8;
    assert b[1..][1..] == b[2..] && b[2..][1..] == b[3..];
    assert BytesBits(b) == Bits8(b[0]) + BytesBits(b[1..]) && BytesBits(b[1..]) == Bits8(b[1]) + BytesBits(b[2..]);
    assert BytesBits(b[2..]) == Bits8(b[2]) + BytesBits(b[3..]);
    hide BytesBits;
    Assoc(Bits8(b[0]), Bits8(b[1]), BytesBits(b[2..]));
    Assoc(Bits8(b[0]) + Bits8(b[1]), Bits8(b[2]), BytesBits(b[3..]));
  }

  lemma LastGroupBits(b: bytes)
    requires |b| == 1 || |b| == 2
    ensures SextetsBits(Sextets(b)) == BytesBits(b) + Zeros(MissingBits(|b|))
  {
    var second: byte := if |b| == 2 then b[1] else 0;
    var s := Split(b[0], second, 0);
    GroupBits(b[0], second, 0);
    SextetsBitsOf4(s);
    OneOrTwoBytes(b);
    assert Bits8(0) == Zeros(8);
    var p, q, r, t := Bits6(s[0]), Bits6(s[1]), Bits6(s[2]), Bits6(s[3]);
    assert MissingBits(|b|) == if |b| == 1 then 4 else 2;
    hide *;
    if |b| == 1 {
      FirstTwo(p, q, r, t, Bits8(b[0]));
    } else {
      FirstThree(p, q, r, t, Bits8(b[0]), Bits8(b[1]));
    }
  }

  lemma OneOrTwoBytes(b: bytes)
    ensures |b| == 1 ==> BytesBits(b) == Bits8(b[0]) && Sextets(b) == Split(b[0], 0, 0)[..2]
    ensures |b| == 2 ==> BytesBits(b) == Bits8(b[0]) + Bits8(b[1]) && Sextets(b) == Split(b[0], b[1], 0)[..3]
  {
    hide Bits8;
    assert BytesBits([]) == [];
    if |b| == 1 {
      assert b[1..] == [];
    } else if |b| == 2 {
      assert b[1..][1..] == [] && BytesBits(b[1..]) == Bits8(b[1]) + [];
    }
  }

  lemma FirstTwo(p: seq<int>, q: seq<int>, r: seq<int>, t: seq<int>, x: seq<int>)
    requires |p| == |q| == |r| == |t| == 6 && |x| == 8 && p + q + r + t == x + Zeros(8) + Zeros(8)
    ensures p + q == x + Zeros(4)
  {
    assert p + q == (p + q + r + t)[..12];
    assert x + Zeros(4) == (x + Zeros(8) + Zeros(8))[..12];
  }

  lemma FirstThree(p: seq<int>, q: seq<int>, r: seq<int>, t: seq<int>, x: seq<int>, y: seq<int>)
    requires |p| == |q| == |r| == |t| == 6 && |x| == |y| == 8 && p + q + r + t == x + y + Zeros(8)
    ensures p + q + r == x + y + Zeros(2)
  {
    assert p + q + r == (p + q + r + t)[..18];
    assert x + y + Zeros(2) == (x + y + Zeros(8))[..18];
  }

  // ----- decoding -----

  // How many characters of the alphabet come first.
  function Run(s: bytes): (n: nat)
    ensures n <= |s| && (forall k :: 0 <= k < n ==> IsBase64(s[k])) && (n < |s| ==> !IsBase64(s[n]))
  {
    if s == [] || !IsBase64(s[0]) then 0 else 1 + Run(s[1..])
  }

  // What groups of four characters decode to, and what is left of one in the end.
  function Decoded(s: bytes): bytes {
    if |s| == 0 then []
    else if |s| < 4 then
      Join(At(s, 0), At(s, 1), At(s, 2), At(s, 3))[..|s| - 1]
    else Join(At(s, 0), At(s, 1), At(s, 2), At(s, 3)) + Decoded(s[4..])
  }

  // What a text decodes to: its longest prefix over the alphabet.
  function Decoding(text: bytes): bytes { Decoded(text[..Run(text)]) }

  lemma DecodingIs(text: bytes)
    ensures Decoding(text) == Decoded(text[..Run(text)])
  {
  }

  // A character that is not there counts as NUL, which is in no alphabet.
  function At(s: bytes, k: nat): byte { if k < |s| then Position(s[k]) else Position(NUL) }

  lemma {:induction false} DecodedAppend(a: bytes, b: bytes)
    requires |a| % 4 == 0
    ensures Decoded(a + b) == Decoded(a) + Decoded(b)
    decreases |a|
  {
    if a == [] {
      assert a + b == b;
    } else {
      assert (a + b)[4..] == a[4..] + b;
      DecodedAppend(a[4..], b);
      AppendAssoc(Join(At(a, 0), At(a, 1), At(a, 2), At(a, 3)), Decoded(a[4..]), Decoded(b));
    }
  }

  method Decode(text: bytes) returns (ret: bytes)
    ensures ret == Decoding(text)
  {
    hide *;
    ret := [];
    var four, three := new byte[4], new byte[3];
    var i, k := 0, 0;
    ghost var groups := 0;
    NothingDecoded(text);
    while k < |text| && text[k] != EQUALS && IsBase64(text[k])
      invariant 0 <= i < 4 && 0 <= groups && k == 4 * groups + i <= |text|
      invariant forall j :: 0 <= j < k ==> IsBase64(text[j])
      invariant four[..i] == text[4 * groups..k]
      invariant ret == Decoded(text[..4 * groups])
      invariant fresh(four) && fresh(three)
    {
      four[i] := text[k];
      OneMore(text, 4 * groups, k);
      assert four[..i + 1] == four[..i] + [text[k]];
      i, k := i + 1, k + 1;
      if i == 4 {
        ghost var chars := four[..];
        FindAll(four);
        FillThree(four, three);
        ret := AppendBytes(ret, three, 3);
        GroupDecoded(text, groups, chars, three[..]);
        i, groups := 0, groups + 1;
      }
    }
    RunIs(text, k);
    DecodingIs(text);
    if i != 0 {
      ghost var rest := four[..i];
      var j := i;
      while j < 4
        invariant i <= j <= 4 && four[..i] == rest && forall n :: i <= n < j ==> four[n] == NUL
      {
        four[j] := NUL;
        j := j + 1;
      }
      ghost var chars := four[..];
      FindAll(four);
      FillThree(four, three);
      ret := AppendBytes(ret, three, i - 1);
      TailDecoded(text, groups, i, chars, three[..]);
    } else {
      assert text[..k] == text[..4 * groups];
    }
  }

  method FindAll(four: array<byte>)
    requires four.Length == 4
    modifies four
    ensures forall j :: 0 <= j < 4 ==> four[j] == Position(old(four[j]))
  {
    var i := 0;
    while i < 4
      invariant 0 <= i <= 4
      invariant forall j :: 0 <= j < i ==> four[j] == Position(old(four[j]))
      invariant forall j :: i <= j < 4 ==> four[j] == old(four[j])
    {
      four[i] := Position(four[i]);
      i := i + 1;
    }
  }

  method FillThree(four: array<byte>, three: array<byte>)
    requires four.Length == 4 && three.Length == 3 && three != four
    modifies three
    ensures three[..] == Join(four[0], four[1], four[2], four[3])
  {
    three[0] := (four[0] as int * 4 + four[1] / 16 % 4) % 256;
    three[1] := ((four[1] % 16) as int * 16 + four[2] / 4 % 16) % 256;
    three[2] := ((four[2] % 4) as int * 64 + four[3]) % 256;
  }

  method AppendBytes(text: bytes, three: array<byte>, n: nat) returns (ret: bytes)
    requires three.Length == 3 && n <= 3
    ensures ret == text + three[..n]
  {
    ret := text;
    var j := 0;
    while j < n
      invariant 0 <= j <= n && ret == text + three[..j]
    {
      ret := ret + [three[j]];
      j := j + 1;
    }
  }

  lemma NothingDecoded(text: bytes)
    ensures Decoded(text[..4 * 0]) == []
  {
  }

  lemma {:induction false} RunIs(s: bytes, k: nat)
    requires k <= |s| && (forall j :: 0 <= j < k ==> IsBase64(s[j]))
    requires k == |s| || s[k] == EQUALS || !IsBase64(s[k])
    ensures Run(s) == k
    decreases k
  {
    if k > 0 {
      RunIs(s[1..], k - 1);
    }
  }

  lemma GroupDecoded(text: bytes, groups: nat, chars: bytes, three: bytes)
    requires 4 * groups + 4 <= |text| && |chars| == 4 && chars[..4] == text[4 * groups..4 * groups + 4]
    requires three == Join(Position(chars[0]), Position(chars[1]), Position(chars[2]), Position(chars[3]))
    ensures Decoded(text[..4 * groups + 4]) == Decoded(text[..4 * groups]) + three[..3]
  {
    var n := 4 * groups;
    assert text[..n + 4] == text[..n] + chars;
    DecodedAppend(text[..n], chars);
    hide Join, Position;
    assert chars[4..] == [] && three[..3] == three && Decoded(chars) == three + Decoded([]);
  }

  lemma TailDecoded(text: bytes, groups: nat, i: nat, chars: bytes, three: bytes)
    requires 0 < i < 4 && 4 * groups + i <= |text| && |chars| == 4 && chars[..i] == text[4 * groups..4 * groups + i]
    requires forall n :: i <= n < 4 ==> chars[n] == NUL
    requires three == Join(Position(chars[0]), Position(chars[1]), Position(chars[2]), Position(chars[3]))
    ensures Decoded(text[..4 * groups + i]) == Decoded(text[..4 * groups]) + three[..i - 1]
  {
    var n := 4 * groups;
    assert text[..n + i] == text[..n] + chars[..i];
    DecodedAppend(text[..n], chars[..i]);
    hide Join, Position;
  }

  // ----- decoding undoes encoding -----

  lemma RunOfLetters(ns: seq<sextet>, rest: bytes)
    requires rest == [] || rest[0] == EQUALS
    ensures Run(Letters(ns) + rest) == |ns|
  {
    RunIs(Letters(ns) + rest, |ns|);
  }

  lemma {:induction false} DecodedLetters(b: bytes)
    ensures Decoded(Letters(Sextets(b))) == b
    decreases |b|
  {
    if |b| >= 3 {
      var s := Split(b[0], b[1], b[2]);
      LettersAppend(s, Sextets(b[3..]));
      JoinSplit(b[0], b[1], b[2]);
      LettersFound(s);
      DecodedLetters(b[3..]);
      assert b == [b[0], b[1], b[2]] + b[3..];
      hide Join, Split, Position, Letter;
      var t := Letters(s) + Letters(Sextets(b[3..]));
      assert t[4..] == Letters(Sextets(b[3..]));
    } else if |b| == 2 {
      LettersFound(Split(b[0], b[1], 0)[..3]);
      JoinPartly(b[0], b[1], 0, Position(NUL));
      hide Join, Split, Position, Letter;
    } else if |b| == 1 {
      LettersFound(Split(b[0], 0, 0)[..2]);
      JoinPartly(b[0], 0, Position(NUL), Position(NUL));
      hide Join, Split, Position, Letter;
    }
  }

  lemma LettersFound(ns: seq<sextet>)
    ensures forall k :: 0 <= k < |ns| ==> Position(Letters(ns)[k]) == ns[k]
  {
    forall k | 0 <= k < |ns|
      ensures Position(Letters(ns)[k]) == ns[k]
    {
      AlphabetRoundTrip(ns[k], 0);
    }
  }

  // base64_decode(base64_encode(b)) is b, for every b.
  lemma RoundTrip(b: bytes)
    ensures Decoding(Encoding(b)) == b
  {
    RunOfLetters(Sextets(b), Padding(|b|));
    DecodedLetters(b);
    assert Encoding(b)[..|Sextets(b)|] == Letters(Sextets(b));
  }

  // The encoding takes four characters for every three bytes begun.
  lemma {:induction false} EncodingLength(b: bytes)
    ensures |Encoding(b)| == 4 * ((|b| + 2) / 3)
    decreases |b|
  {
    if |b| >= 3 {
      EncodingLength(b[3..]);
      assert (|b| + 2) / 3 == (|b| - 3 + 2) / 3 + 1;
      SamePadding(|b| - 3, 1);
    }
  }

  // Decoding depends on the longest prefix over the alphabet alone: what follows it, from a
  // character outside the alphabet on, changes nothing.
  lemma RestIgnored(a: bytes, rest: bytes)
    requires (forall c <- a :: IsBase64(c)) && (rest == [] || !IsBase64(rest[0]))
    ensures Run(a + rest) == |a| && Decoding(a + rest) == Decoding(a)
  {
    RunIs(a + rest, |a|);
    RunIs(a, |a|);
    assert (a + rest)[..|a|] == a && a[..|a|] == a;
  }

  // The alphabet, written out; and the character that pads.
  lemma AlphabetIs(n: sextet)
    ensures n < 26 ==> Letter(n) == "ABCDEFGHIJKLMNOPQRSTUVWXYZ"[n] as int
    ensures 26 <= n < 52 ==> Letter(n) == "abcdefghijklmnopqrstuvwxyz"[n - 26] as int
    ensures 52 <= n ==> Letter(n) == "0123456789+/"[n - 52] as int
    ensures EQUALS == '=' as int
  {
  }

  lemma JoinIs(p: sextet, q: sextet, r: sextet, s: sextet)
    ensures Join(p, q, r, s) == [p * 4 + q / 16, q % 16 * 16 + r / 4, r % 4 * 64 + s]
  {
  }

  lemma JoinStarts(p: sextet, q: sextet, r: byte, s: byte)
    ensures Join(p, q, r, s)[0] == p * 4 + q / 16
    ensures r < 64 ==> Join(p, q, r, s)[1] == q % 16 * 16 + r / 4
  {
  }

  // Four letters are the three bytes of their number to the base of 64; three letters the first
  // two of them, two letters the first one, and one letter none.
  lemma LettersDecoded(p: sextet, q: sextet, r: sextet, s: sextet, rest: bytes)
    ensures var b := Decoded([Letter(p), Letter(q), Letter(r), Letter(s)] + rest);
            && |b| >= 3 && b[3..] == Decoded(rest)
            && b[0] as int * 65536 + b[1] as int * 256 + b[2] as int == p * 262144 + q * 4096 + r * 64 + s
    ensures var b := Decoded([Letter(p), Letter(q), Letter(r)]);
            |b| == 2 && b[0] as int * 256 + b[1] as int == (p * 4096 + q * 64 + r) / 4
    ensures var b := Decoded([Letter(p), Letter(q)]); |b| == 1 && b[0] == (p * 64 + q) / 16
    ensures Decoded([Letter(p)]) == []
  {
    AlphabetRoundTrip(p, 0);
    AlphabetRoundTrip(q, 0);
    AlphabetRoundTrip(r, 0);
    AlphabetRoundTrip(s, 0);
    JoinIs(p, q, r, s);
    JoinStarts(p, q, r, Position(NUL));
    JoinStarts(p, q, Position(NUL), Position(NUL));
    hide Join, Letter, Position;
    assert ([Letter(p), Letter(q), Letter(r), Letter(s)] + rest)[4..] == rest;
  }
}
