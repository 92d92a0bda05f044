// HTTP forms: the multipart body, cut at its boundary.
module Multipart {
  import opened Bytes
  import opened EscapePath
  import opened Forms

  const BLANK_LINE: bytes := [CR, LF, CR, LF]

  // Content-Disposition: form-data; name="
  const DISPOSITION: bytes := [
    67, 111, 110, 116, 101, 110, 116, 45, 68, 105, 115, 112, 111, 115, 105, 116, 105, 111, 110, 58, 32, 102, 111, 114,
    109, 45, 100, 97, 116, 97, 59, 32, 110, 97, 109, 101, 61, 34]

  // ----- searching -----

  predicate Occurs(s: bytes, pat: bytes, k: nat) { k + |pat| <= |s| && s[k..k + |pat|] == pat }

  // The first occurrence at or after `from`.
  function Find(s: bytes, pat: bytes, from: nat): (r: Option<nat>)
    ensures r.Some? ==> from <= r.value && Occurs(s, pat, r.value)
    ensures r.Some? ==> forall k :: from <= k < r.value ==> !Occurs(s, pat, k)
    ensures r.None? ==> forall k :: from <= k ==> !Occurs(s, pat, k)
    decreases |s| - from
  {
    if from + |pat| > |s| then None
    else if s[from..from + |pat|] == pat then Some(from)
    else if from == |s| then None
    else Find(s, pat, from + 1)
  }

  lemma FindIs(s: bytes, pat: bytes, from: nat, k: nat)
    requires from <= k && Occurs(s, pat, k) && forall j :: from <= j < k ==> !Occurs(s, pat, j)
    ensures Find(s, pat, from) == Some(k)
  {
  }

  // substr: from a position to a count of characters or the end; a count that has gone below
  // zero has wrapped around to a huge one.
  function Substr(s: bytes, from: nat, count: int): bytes
    requires from <= |s|
  {
    if count < 0 || from + count > |s| then s[from..] else s[from..from + count]
  }

  // ----- the parser -----

  function Parts(formdata: bytes, boundary: bytes, from: nat): seq<bytes>
    requires boundary != []
    decreases |formdata| - from
  {
    match Find(formdata, boundary, from)
    case None => []
    case Some(k) => [Substr(formdata, from, k - from - 2)] + Parts(formdata, boundary, k + |boundary| + 2)
  }

  // The name of a header: the text after name=" up to the next quote, if there is any, at
  // the first place where it matches.
  function NameIn(h: bytes, from: nat): Option<bytes>
    decreases |h| - from
  {
    match Find(h, DISPOSITION, from)
    case None => None
    case Some(k) =>
      var begin := k + |DISPOSITION|;
      match Find(h, [QUOTE], begin)
      case None => None
      case Some(end) => if end > begin then Some(h[begin..end]) else NameIn(h, k + 1)
  }

  // What a part contributes: nothing, when it has no name; or an exception, when it has no
  // blank line and is too short for the value to be cut out.
  datatype Contribution = Throws | Nothing | One(pair: Pair)

  function Contributed(part: bytes): Contribution {
    var k := Find(part, BLANK_LINE, 0);
    if k.None? && |part| < 3 then Throws
    else
      var h, v := if k.Some? then part[..k.value] else part, if k.Some? then part[k.value + 4..] else part[3..];
      match NameIn(h, 0)
      case None => Nothing
      case Some(key) => One((Unescaped(key), v))
  }

  function Contributions(parts: seq<bytes>): Option<seq<Pair>> {
    if parts == [] then Some([])
    else
      var c, rest := Contributed(parts[0]), Contributions(parts[1..]);
      if c.Throws? || rest.None? then None
      else if c.Nothing? then rest
      else Some([c.pair] + rest.value)
  }

  // The parts, and the headers made of them; None for the exception that substr throws.
  method ParseMultipart(formdata: bytes, boundary: bytes) returns (headers: Option<seq<Pair>>)
    requires boundary != []
    ensures headers == Contributions(Parts(formdata, boundary, |boundary| + 2))
  {
    hide *;
    var parts: seq<bytes> := [];
    var searchPos := |boundary| + 2;
    var found := Find(formdata, boundary, searchPos);
    assert parts + Parts(formdata, boundary, searchPos) == Parts(formdata, boundary, searchPos);
    while found.Some?
      invariant found == Find(formdata, boundary, searchPos)
      invariant Parts(formdata, boundary, |boundary| + 2) == parts + Parts(formdata, boundary, searchPos)
      decreases |formdata| - searchPos
    {
      FoundWithin(formdata, boundary, searchPos);
      PartsUnfold(formdata, boundary, searchPos);
      var part := Substr(formdata, searchPos, found.value - searchPos - 2);
      PartsAssoc(parts, part, Parts(formdata, boundary, found.value + |boundary| + 2));
      parts := parts + [part];
      searchPos := found.value + |boundary| + 2;
      found := Find(formdata, boundary, searchPos);
    }
    NothingFound(formdata, boundary, searchPos);
    assert parts + [] == parts;
    headers := Extract(parts);
  }

  lemma FoundWithin(formdata: bytes, boundary: bytes, from: nat)
    requires Find(formdata, boundary, from).Some?
    ensures from <= Find(formdata, boundary, from).value
        && Find(formdata, boundary, from).value + |boundary| <= |formdata|
  {
  }

  lemma PartsAssoc(a: seq<bytes>, p: bytes, b: seq<bytes>)
    ensures a + ([p] + b) == a + [p] + b
  {
  }

  method Extract(parts: seq<bytes>) returns (headers: Option<seq<Pair>>)
    ensures headers == Contributions(parts)
  {
    var pairs: seq<Pair> := [];
    var i := 0;
    ExtractNone(parts);
    while i < |parts|
      invariant 0 <= i <= |parts|
      invariant Contributions(parts) == Prepended(pairs, Contributions(parts[i..]))
    {
      hide Contributions, Contributed, Prepended;
      var c := ExtractOne(parts[i]);
      ExtractMore(parts, i, pairs, c);
      if c.Throws? { return None; }
      if c.One? {
        pairs := pairs + [c.pair];
      }
      i := i + 1;
    }
    assert pairs + [] == pairs;
    return Some(pairs);
  }

  function Prepended(pairs: seq<Pair>, rest: Option<seq<Pair>>): Option<seq<Pair>> {
    if rest.None? then None else Some(pairs + rest.value)
  }

  lemma ExtractNone(parts: seq<bytes>)
    ensures Contributions(parts) == Prepended([], Contributions(parts[0..]))
  {
    var all := Contributions(parts);
    assert parts[0..] == parts && (all.Some? ==> [] + all.value == all.value);
  }

  lemma ExtractMore(parts: seq<bytes>, i: nat, pairs: seq<Pair>, c: Contribution)
    requires i < |parts| && c == Contributed(parts[i])
    requires Contributions(parts) == Prepended(pairs, Contributions(parts[i..]))
    ensures Contributions(parts) == if c.Throws? then None
                                    else Prepended(if c.One? then pairs + [c.pair] else pairs,
                                                   Contributions(parts[i + 1..]))
  {
    hide Contributed;
    assert parts[i..][1..] == parts[i + 1..];
    var rest := Contributions(parts[i + 1..]);
    if c.One? && rest.Some? {
      assert pairs + ([c.pair] + rest.value) == pairs + [c.pair] + rest.value;
    }
  }

  method ExtractOne(p: bytes) returns (c: Contribution)
    ensures c == Contributed(p)
  {
    var pos := Find(p, BLANK_LINE, 0);
    var h := if pos.Some? then p[..pos.value] else p;
    if pos.None? && 3 > |p| { return Throws; }
    var v := if pos.Some? then p[pos.value + 4..] else p[3..];
    var w := NameIn(h, 0);
    if w.None? { return Nothing; }
    var ok;
    ok, h := UnescapePathString(w.value);
    return One((h, v));
  }

  // ----- what is rendered is recovered -----

  function PartOf(p: Pair): bytes { DISPOSITION + Escape(p.0) + [QUOTE] + BLANK_LINE + p.1 }

  function Rendering(boundary: bytes, pairs: seq<Pair>): bytes {
    if pairs == [] then boundary + [MINUS, MINUS] + CRLF
    else boundary + CRLF + PartOf(pairs[0]) + CRLF + Rendering(boundary, pairs[1..])
  }

  // No line break in the boundary, and no part that holds it.
  predicate Renderable(boundary: bytes, pairs: seq<Pair>) {
    && boundary != [] && CR !in boundary && LF !in boundary
    && forall p <- pairs :: Find(PartOf(p), boundary, 0).None?
  }

  // A name, of characters that survive escaping.
  predicate WellNamed(p: Pair) { p.0 != [] && AllSurvive(p.0) }

  // The escaped name has no quote and no line break in it.
  lemma {:induction false} EscapedIsTame(s: bytes)
    requires AllSurvive(s)
    ensures QUOTE !in Escape(s) && CR !in Escape(s) && (s != [] ==> Escape(s) != [])
  {
    if s != [] {
      assert Survives(s[0]) && s == [s[0]] + s[1..];
      EscapedIsTame(s[1..]);
      assert forall c <- EscapeChar(s[0]) :: c != QUOTE && c != CR;
      hide EscapeChar, Survives;
      assert Escape(s) == EscapeChar(s[0]) + Escape(s[1..]);
    }
  }

  lemma DispositionIsTame()
    ensures CR !in DISPOSITION
  {
  }

  lemma OccursAt(s: bytes, pat: bytes, j: nat, i: nat)
    requires Occurs(s, pat, j) && j <= i < j + |pat|
    ensures i < |s| && s[i] == pat[i - j]
  {
    assert s[j..j + |pat|][i - j] == s[i];
  }

  // A pattern is not found before a character it begins with, or where there is none.
  lemma FindAt(s: bytes, pat: bytes, from: nat, k: nat)
    requires pat != [] && from <= k && Occurs(s, pat, k) && forall j :: from <= j < k ==> s[j] != pat[0]
    ensures Find(s, pat, from) == Some(k)
  {
    forall j | from <= j < k
      ensures !Occurs(s, pat, j)
    {
      hide Occurs;
      if Occurs(s, pat, j) {
        OccursAt(s, pat, j, j);
      }
    }
    FindIs(s, pat, from, k);
  }

  // The header of a part is what is before the blank line, and its name is what was rendered.
  lemma PartContributes(p: Pair)
    requires WellNamed(p)
    ensures Contributed(PartOf(p)) == One(p)
  {
    var h := DISPOSITION + Escape(p.0) + [QUOTE];
    var part := PartOf(p);
    EscapedIsTame(p.0);
    DispositionIsTame();
    EscapeRoundTrip(p.0);
    HeaderName(p.0);
    hide *;
    PartCut(h, p.1);
    assert part == h + BLANK_LINE + p.1 by { PartIs(p); }
    ContributedIs(part, h, p.1, Escape(p.0));
    UnescapedIs(p.0);
  }

  lemma PartIs(p: Pair)
    ensures PartOf(p) == DISPOSITION + Escape(p.0) + [QUOTE] + BLANK_LINE + p.1
  {
  }

  lemma UnescapedIs(s: bytes)
    requires Unescape(Escape(s)).1 == s
    ensures Unescaped(Escape(s)) == s
  {
  }

  lemma ContributedIs(part: bytes, h: bytes, v: bytes, key: bytes)
    requires Find(part, BLANK_LINE, 0) == Some(|h|) && |h| + 4 <= |part| && part[..|h|] == h && part[|h| + 4..] == v
    requires NameIn(h, 0) == Some(key)
    ensures Contributed(part) == One((Unescaped(key), v))
  {
    hide Find, NameIn, Unescaped;
  }

  lemma PartCut(h: bytes, v: bytes)
    requires CR !in h
    ensures var part := h + BLANK_LINE + v;
            Find(part, BLANK_LINE, 0) == Some(|h|) && part[..|h|] == h && part[|h| + 4..] == v
  {
    var part := h + BLANK_LINE + v;
    assert part[|h|..|h| + 4] == BLANK_LINE;
    assert forall j :: 0 <= j < |h| ==> part[j] == h[j];
    FindAt(part, BLANK_LINE, 0, |h|);
  }

  lemma HeaderName(name: bytes)
    requires name != [] && AllSurvive(name)
    ensures var h := DISPOSITION + Escape(name) + [QUOTE]; NameIn(h, 0) == Some(Escape(name)) && CR !in h
  {
    EscapedIsTame(name);
    DispositionIsTame();
    NameBetween(Escape(name));
  }

  lemma NameBetween(key: bytes)
    requires key != [] && QUOTE !in key
    ensures NameIn(DISPOSITION + key + [QUOTE], 0) == Some(key)
  {
    var n := |DISPOSITION|;
    var h := DISPOSITION + key + [QUOTE];
    assert h[0..n] == DISPOSITION && h[n..n + |key|] == key && h[n + |key|..n + |key| + 1] == [QUOTE];
    assert forall j :: n <= j < n + |key| ==> h[j] == key[j - n];
    hide DISPOSITION;
    FindIs(h, DISPOSITION, 0, 0);
    FindAt(h, [QUOTE], n, n + |key|);
  }

  // A character that the pattern does not have keeps it from occurring over it.
  lemma CannotOccur(s: bytes, pat: bytes, j: nat, i: nat)
    requires j <= i < j + |pat| && (i < |s| ==> s[i] !in pat)
    ensures !Occurs(s, pat, j)
  {
    hide Occurs;
    if Occurs(s, pat, j) {
      OccursAt(s, pat, j, i);
    }
  }

  lemma OccursIn(s: bytes, part: bytes, n: nat, pat: bytes, j: nat)
    requires n + |part| <= |s| && s[n..n + |part|] == part
    requires n <= j && j + |pat| <= n + |part| && Occurs(s, pat, j)
    ensures Occurs(part, pat, j - n)
  {
    assert forall i :: 0 <= i < |part| ==> part[i] == s[n..n + |part|][i] == s[n + i];
    forall i | 0 <= i < |pat|
      ensures part[j - n + i] == pat[i]
    {
      OccursAt(s, pat, j, j + i);
    }
    assert part[j - n..j - n + |pat|] == pat;
  }

  lemma Slice(a: bytes, b: bytes, c: bytes)
    ensures (a + b + c)[|a|..|a| + |b|] == b
  {
  }

  // What is where in a part, a line break and a rest.
  lemma Layout(before: bytes, part: bytes, rest: bytes, m: nat)
    requires m <= |rest|
    ensures var s, k := before + part + CRLF + rest, |before| + |part|;
            && |s| == k + 2 + |rest| && s[|before|..k] == part && s[k] == CR && s[k + 1] == LF
            && s[k + 2..k + 2 + m] == rest[..m]
  {
    var all := before + part + CRLF;
    assert all[|before| + |part|] == CR && all[|before| + |part| + 1] == LF;
    AppendAssoc(before + part, CRLF, rest);
    Slice(before, part, CRLF + rest);
    assert rest == rest[..m] + rest[m..];
    AppendAssoc(all, rest[..m], rest[m..]);
    Slice(all, rest[..m], rest[m..]);
  }

  // Not within the part, and not over the line break behind it.
  lemma NotYet(s: bytes, n: nat, part: bytes, boundary: bytes, j: nat)
    requires CR !in boundary && LF !in boundary && Find(part, boundary, 0).None?
    requires var k := n + |part|; k + 2 <= |s| && s[n..k] == part && s[k] == CR && s[k + 1] == LF && n <= j < k + 2
    ensures boundary != [] ==> !Occurs(s, boundary, j)
  {
    hide *;
    if j + |boundary| <= n + |part| {
      if Occurs(s, boundary, j) {
        OccursIn(s, part, n, boundary, j);
      }
    } else if boundary != [] {
      CannotOccur(s, boundary, j, if j <= n + |part| then n + |part| else n + |part| + 1);
    }
  }

  lemma NotBefore(s: bytes, n: nat, part: bytes, boundary: bytes)
    requires boundary != [] && CR !in boundary && LF !in boundary && Find(part, boundary, 0).None?
    requires var k := n + |part|; k + 2 <= |s| && s[n..k] == part && s[k] == CR && s[k + 1] == LF
    ensures forall j :: n <= j < n + |part| + 2 ==> !Occurs(s, boundary, j)
  {
    hide *;
    forall j | n <= j < n + |part| + 2
      ensures !Occurs(s, boundary, j)
    {
      NotYet(s, n, part, boundary, j);
    }
  }

  lemma FoundAt(s: bytes, n: nat, k: nat, part: bytes, boundary: bytes)
    requires boundary != [] && CR !in boundary && LF !in boundary && Find(part, boundary, 0).None?
    requires k == n + |part| && k + 2 <= |s| && s[n..k] == part && s[k] == CR && s[k + 1] == LF
    requires Occurs(s, boundary, k + 2)
    ensures Find(s, boundary, n) == Some(k + 2)
  {
    hide *;
    NotBefore(s, n, part, boundary);
    FindIs(s, boundary, n, k + 2);
  }

  // From position n on there are the part, a line break and the boundary.
  predicate LaidOut(s: bytes, n: nat, part: bytes, boundary: bytes) {
    var k := n + |part|;
    && k + 2 <= |s| && s[n..k] == part && s[k] == CR && s[k + 1] == LF
    && Occurs(s, boundary, k + 2) && Substr(s, n, |part|) == part
  }

  lemma PartIsLaidOut(before: bytes, part: bytes, boundary: bytes, rest: bytes)
    requires boundary <= rest
    ensures LaidOut(before + part + CRLF + rest, |before|, part, boundary)
  {
    Layout(before, part, rest, |boundary|);
    assert rest[..|boundary|] == boundary;
  }

  lemma FoundWhereLaidOut(s: bytes, n: nat, part: bytes, boundary: bytes)
    requires boundary != [] && CR !in boundary && LF !in boundary && Find(part, boundary, 0).None?
    requires LaidOut(s, n, part, boundary)
    ensures Find(s, boundary, n) == Some(n + |part| + 2) && Substr(s, n, |part|) == part
  {
    hide Find, Occurs, Substr;
    FoundAt(s, n, n + |part|, part, boundary);
  }

  // The boundary is next found right after the line break that ends the part.
  lemma BoundaryNext(before: bytes, part: bytes, boundary: bytes, rest: bytes)
    requires boundary != [] && CR !in boundary && LF !in boundary && Find(part, boundary, 0).None? && boundary <= rest
    ensures var s, k := before + part + CRLF + rest, |before| + |part| + 2;
            Find(s, boundary, |before|) == Some(k) && Substr(s, |before|, |part|) == part
  {
    hide *;
    PartIsLaidOut(before, part, boundary, rest);
    FoundWhereLaidOut(before + part + CRLF + rest, |before|, part, boundary);
  }

  // After the last boundary there are only the two hyphens and a line break.
  lemma NoBoundaryLeft(before: bytes, boundary: bytes)
    requires boundary != [] && CR !in boundary && LF !in boundary
    ensures Find(before + CRLF, boundary, |before|).None?
  {
    var s := before + CRLF;
    assert forall j :: |before| <= j < |s| ==> s[j] == CR || s[j] == LF;
    forall j: nat | |before| <= j
      ensures !Occurs(s, boundary, j)
    {
      CannotOccur(s, boundary, j, j);
    }
    hide Occurs;
  }

  function PartsOf(pairs: seq<Pair>): seq<bytes> {
    if pairs == [] then [] else [PartOf(pairs[0])] + PartsOf(pairs[1..])
  }

  lemma {:induction false} PartsRecovered(before: bytes, boundary: bytes, pairs: seq<Pair>)
    requires Renderable(boundary, pairs)
    ensures Parts(before + Rendering(boundary, pairs), boundary, |before| + |boundary| + 2) == PartsOf(pairs)
    decreases |pairs|
  {
    hide *;
    if pairs == [] {
      PartsEnd(before, boundary);
    } else {
      RenderableFacts(boundary, pairs);
      PartsRecovered(before + boundary + CRLF + PartOf(pairs[0]) + CRLF, boundary, pairs[1..]);
      PartsStep(before, boundary, pairs);
      PartsOfCons(pairs);
    }
  }

  lemma PartsOfCons(pairs: seq<Pair>)
    requires pairs != []
    ensures PartsOf(pairs) == [PartOf(pairs[0])] + PartsOf(pairs[1..])
  {
  }

  lemma RenderableFacts(boundary: bytes, pairs: seq<Pair>)
    requires Renderable(boundary, pairs)
    ensures boundary != [] && CR !in boundary && LF !in boundary && |CRLF| == 2
    ensures pairs != [] ==> Find(PartOf(pairs[0]), boundary, 0).None? && Renderable(boundary, pairs[1..])
  {
    hide Find, PartOf;
  }

  lemma PartsEnd(before: bytes, boundary: bytes)
    requires Renderable(boundary, [])
    ensures Parts(before + Rendering(boundary, []), boundary, |before| + |boundary| + 2) == PartsOf([])
  {
    hide *;
    RenderableFacts(boundary, []);
    EndOf(before, boundary);
    NoBoundaryLeft(before + boundary + [MINUS, MINUS], boundary);
    NothingFound(before + boundary + [MINUS, MINUS] + CRLF, boundary, |before + boundary + [MINUS, MINUS]|);
  }

  lemma NothingFound(formdata: bytes, boundary: bytes, from: nat)
    requires boundary != [] && Find(formdata, boundary, from).None?
    ensures Parts(formdata, boundary, from) == PartsOf([]) == []
  {
  }

  lemma EndOf(before: bytes, boundary: bytes)
    ensures before + Rendering(boundary, []) == before + boundary + [MINUS, MINUS] + CRLF
  {
    var hyphens := [MINUS, MINUS];
    var all := boundary + hyphens + CRLF;
    assert Rendering(boundary, []) == all;
    hide *;
    AppendAssoc(before, boundary + hyphens, CRLF);
    AppendAssoc(before, boundary, hyphens);
  }

  lemma PartsStep(before: bytes, boundary: bytes, pairs: seq<Pair>)
    requires Renderable(boundary, pairs) && pairs != []
    ensures var part, rest := PartOf(pairs[0]), Rendering(boundary, pairs[1..]);
            var before' := before + boundary + CRLF + part + CRLF;
            Parts(before + Rendering(boundary, pairs), boundary, |before| + |boundary| + 2)
            == [part] + Parts(before' + rest, boundary, |before'| + |boundary| + 2)
  {
    hide *;
    RenderableFacts(boundary, pairs);
    FirstPartOf(before, boundary, pairs);
    RenderingStarts(boundary, pairs[1..]);
    var part, rest := PartOf(pairs[0]), Rendering(boundary, pairs[1..]);
    BoundaryNext(before + boundary + CRLF, part, boundary, rest);
    PartThenRest(before + boundary + CRLF + part + CRLF + rest, |before + boundary + CRLF|, part, boundary);
  }

  lemma PartThenRest(formdata: bytes, from: nat, part: bytes, boundary: bytes)
    requires boundary != [] && Find(formdata, boundary, from) == Some(from + |part| + 2)
    requires from <= |formdata| && Substr(formdata, from, |part|) == part
    ensures Parts(formdata, boundary, from)
         == [part] + Parts(formdata, boundary, from + |part| + 2 + |boundary| + 2)
  {
    hide *;
    PartsUnfold(formdata, boundary, from);
  }

  lemma PartsUnfold(formdata: bytes, boundary: bytes, from: nat)
    requires boundary != [] && Find(formdata, boundary, from).Some?
    ensures var k := Find(formdata, boundary, from).value;
            Parts(formdata, boundary, from)
            == [Substr(formdata, from, k - from - 2)] + Parts(formdata, boundary, k + |boundary| + 2)
  {
  }

  lemma FirstPartOf(before: bytes, boundary: bytes, pairs: seq<Pair>)
    requires pairs != []
    ensures before + Rendering(boundary, pairs)
         == before + boundary + CRLF + PartOf(pairs[0]) + CRLF + Rendering(boundary, pairs[1..])
  {
    var part, rest := PartOf(pairs[0]), Rendering(boundary, pairs[1..]);
    assert Rendering(boundary, pairs) == boundary + CRLF + part + CRLF + rest;
    hide *;
    AppendAssoc(before, boundary + CRLF + part + CRLF, rest);
    AppendAssoc(before, boundary + CRLF + part, CRLF);
    AppendAssoc(before, boundary + CRLF, part);
    AppendAssoc(before, boundary, CRLF);
  }

  lemma RenderingStarts(boundary: bytes, pairs: seq<Pair>)
    ensures boundary <= Rendering(boundary, pairs)
  {
  }

  // ----- and only then -----

  lemma {:induction false} NoSpace(s: bytes)
    ensures SP !in Escape(s)
  {
    if s != [] {
      NoSpace(s[1..]);
      assert SP !in EscapeChar(s[0]);
    }
  }

  // The text up to a quote within an escaped name is that of a shorter name.
  lemma QuoteCuts(s: bytes, n: nat)
    requires n < |Escape(s)| && Escape(s)[n] == QUOTE && QUOTE !in Escape(s)[..n]
    ensures Unescaped(Escape(s)[..n]) != s
  {
    EscapeKeeps(s, QUOTE);
    var k := FirstOf(s, QUOTE);
    EscapeAround(s, k);
    EscapeKeeps(s[..k], QUOTE);
    var key := Escape(s[..k]);
    NoLonger(s[..k]);
    hide Escape;
    assert Escape(s)[..|key|] == key && Escape(s)[|key|] == QUOTE;
    Before(Escape(s), n);
    Before(Escape(s), |key|);
    assert n == |key|;
  }

  lemma Before(s: bytes, n: nat)
    requires n <= |s| && QUOTE !in s[..n]
    ensures forall k :: 0 <= k < n ==> s[k] != QUOTE
  {
    assert forall k :: 0 <= k < n ==> s[k] == s[..n][k];
  }

  // The fixed text has its two spaces at 20 and 31, so it occurs only once where there are no
  // others.
  lemma OccursOnce(t: bytes, k: nat)
    requires SP !in t && k > 0
    ensures !Occurs(DISPOSITION + t, DISPOSITION, k)
  {
    var h := DISPOSITION + t;
    assert forall j :: 38 <= j < |h| ==> h[j] == t[j - 38];
    if Occurs(h, DISPOSITION, k) {
      OccursAt(h, DISPOSITION, k, k + 20);
      OccursAt(h, DISPOSITION, k, k + 31);
    }
  }

  // The only name in a header that begins with the fixed text is what follows that.
  lemma NameFound(t: bytes, key: bytes)
    requires SP !in t && NameIn(DISPOSITION + t, 0) == Some(key)
    ensures key != [] && |key| < |t| && t[..|key|] == key && t[|key|] == QUOTE && QUOTE !in key
  {
    hide *;
    FoundOnce(t);
    NameIsNext(DISPOSITION + t, |DISPOSITION|, key);
    Behind(DISPOSITION, t, |key|);
  }

  lemma FoundOnce(t: bytes)
    requires SP !in t
    ensures Find(DISPOSITION + t, DISPOSITION, 0) == Some(0) && Find(DISPOSITION + t, DISPOSITION, 1).None?
  {
    var h := DISPOSITION + t;
    assert h[0..|DISPOSITION|] == DISPOSITION;
    forall k | 1 <= k
      ensures !Occurs(h, DISPOSITION, k)
    {
      OccursOnce(t, k);
    }
    FindIs(h, DISPOSITION, 0, 0);
    hide DISPOSITION, Occurs;
  }

  lemma NameIsNext(h: bytes, n: nat, key: bytes)
    requires n == |DISPOSITION| && Find(h, DISPOSITION, 0) == Some(0) && Find(h, DISPOSITION, 1).None?
    requires NameIn(h, 0) == Some(key)
    ensures key != [] && n + |key| < |h| && h[n..n + |key|] == key && h[n + |key|] == QUOTE && QUOTE !in key
  {
    hide *;
    UpToQuote(h, n);
    NameUnfold(h, n, key);
  }

  lemma NameUnfold(h: bytes, n: nat, key: bytes)
    requires n == |DISPOSITION| && Find(h, DISPOSITION, 0) == Some(0) && Find(h, DISPOSITION, 1).None?
    requires NameIn(h, 0) == Some(key)
    ensures var end := Find(h, [QUOTE], n); end.Some? && n < end.value <= |h| && key == h[n..end.value]
  {
    hide DISPOSITION, Find;
  }

  lemma UpToQuote(h: bytes, n: nat)
    ensures var end := Find(h, [QUOTE], n);
            end.Some? ==> n <= end.value < |h| && h[end.value] == QUOTE && QUOTE !in h[n..end.value]
  {
    var end := Find(h, [QUOTE], n);
    if end.Some? {
      assert h[end.value..end.value + 1][0] == QUOTE;
      forall j | n <= j < end.value
        ensures h[j] != QUOTE
      {
        assert !Occurs(h, [QUOTE], j);
        assert h[j..j + 1] == [h[j]];
      }
    }
  }

  lemma Behind(a: bytes, t: bytes, n: nat)
    requires |a| + n < |a + t|
    ensures n < |t| && (a + t)[|a|..|a| + n] == t[..n] && (a + t)[|a| + n] == t[n]
  {
  }

  // Where the header of a rendered part is cut off: within its name, if that has a blank line
  // in it, and otherwise behind its quote.
  lemma HeaderCut(p: Pair) returns (t: bytes)
    ensures t <= Escape(p.0) + [QUOTE] && Find(PartOf(p), BLANK_LINE, 0) == Some(|DISPOSITION + t|)
    ensures |DISPOSITION + t| + 4 <= |PartOf(p)| && PartOf(p)[..|DISPOSITION + t|] == DISPOSITION + t
  {
    DispositionIsTame();
    PartIs(p);
    var n, name, part := |DISPOSITION|, Escape(p.0) + [QUOTE], PartOf(p);
    hide DISPOSITION, PartOf, Escape;
    assert part == DISPOSITION + name + BLANK_LINE + p.1;
    assert part[n + |name|..n + |name| + 4] == BLANK_LINE;
    assert Occurs(part, BLANK_LINE, n + |name|);
    var q := Find(part, BLANK_LINE, 0).value;
    assert part[q..q + 4][0] == CR;
    assert forall j :: 0 <= j < n ==> part[j] == DISPOSITION[j];
    t := name[..q - n];
    assert part[..q] == DISPOSITION + t;
  }

  lemma BadName(p: Pair)
    requires !WellNamed(p)
    ensures !Contributed(PartOf(p)).Throws? && Contributed(PartOf(p)) != One(p)
  {
    var t := HeaderCut(p);
    var h := DISPOSITION + t;
    NoSpace(p.0);
    assert SP !in t;
    EscapeRoundTrip(p.0);
    hide DISPOSITION, PartOf, Find, Escape, Unescape;
    if NameIn(h, 0).Some? {
      var key := NameIn(h, 0).value;
      NameFound(t, key);
      if |key| < |Escape(p.0)| {
        assert Escape(p.0)[|key|] == t[|key|] && Escape(p.0)[..|key|] == key;
        QuoteCuts(p.0, |key|);
      } else {
        assert key == Escape(p.0);
        NotEmptied(p.0);
      }
    }
  }

  lemma NotEmptied(s: bytes)
    requires Escape(s) != []
    ensures s != []
  {
  }

  predicate AllWellNamed(pairs: seq<Pair>) { forall p <- pairs :: WellNamed(p) }

  // A part contributes one pair at most, and its own exactly when that is well named.
  lemma {:induction false} AllContribute(pairs: seq<Pair>)
    ensures var r := Contributions(PartsOf(pairs));
            r.Some? && |r.value| <= |pairs| && (r.value == pairs <==> AllWellNamed(pairs))
  {
    hide *;
    if pairs == [] {
      NoContributions();
    } else {
      var p := pairs[0];
      AllContribute(pairs[1..]);
      if WellNamed(p) {
        PartContributes(p);
      } else {
        BadName(p);
      }
      assert pairs == [p] + pairs[1..];
      ContributionsStep(pairs);
      WellNamedCons(pairs);
      var c, rest := Contributed(PartOf(p)), Contributions(PartsOf(pairs[1..])).value;
      if c.One? {
        SameCons(c.pair, rest, p, pairs[1..]);
      }
    }
  }

  lemma NoContributions()
    ensures Contributions(PartsOf([])) == Some([]) && AllWellNamed([])
  {
  }

  lemma WellNamedCons(pairs: seq<Pair>)
    requires pairs != []
    ensures AllWellNamed(pairs) <==> WellNamed(pairs[0]) && AllWellNamed(pairs[1..])
  {
    hide WellNamed;
    assert pairs == [pairs[0]] + pairs[1..];
  }

  lemma ContributionsStep(pairs: seq<Pair>)
    requires pairs != []
    ensures var c, rest := Contributed(PartOf(pairs[0])), Contributions(PartsOf(pairs[1..]));
            Contributions(PartsOf(pairs))
            == if c.Throws? || rest.None? then None
               else if c.Nothing? then rest else Some([c.pair] + rest.value)
  {
    hide PartOf, Contributed;
    assert PartsOf(pairs)[1..] == PartsOf(pairs[1..]);
  }

  // parse_multipart undoes rendering, every pair in order, exactly when every name is not
  // empty and survives escaping.
  lemma MultipartRoundTrip(boundary: bytes, pairs: seq<Pair>)
    requires Renderable(boundary, pairs)
    ensures Contributions(Parts(Rendering(boundary, pairs), boundary, |boundary| + 2)) == Some(pairs)
       <==> AllWellNamed(pairs)
  {
    hide *;
    PartsRecovered([], boundary, pairs);
    AllContribute(pairs);
    assert [] + Rendering(boundary, pairs) == Rendering(boundary, pairs);
  }

  // ----- the form of a request -----

  // boundary=
  const BOUNDARY_IS: bytes := [98, 111, 117, 110, 100, 97, 114, 121, 61]

  // The text after boundary= up to the next space, if there is any, at the first place where
  // it matches.
  function BoundaryIn(contentType: bytes, from: nat): Option<bytes>
    decreases |contentType| - from
  {
    match Find(contentType, BOUNDARY_IS, from)
    case None => None
    case Some(k) =>
      var begin := k + |BOUNDARY_IS|;
      var space := Find(contentType, [SP], begin);
      var end := if space.Some? then space.value else |contentType|;
      if end > begin then Some(contentType[begin..end]) else BoundaryIn(contentType, k + 1)
  }

  function FormOf(formdata: bytes, contentType: bytes): Option<seq<Pair>> {
    match BoundaryIn(contentType, 0)
    case Some(b) =>
      var boundary := [MINUS, MINUS] + b;
      Contributions(Parts(formdata, boundary, |boundary| + 2))
    case None => Some(Pairs(formdata, [], [], true))
  }

  method HttpForm(formdata: bytes, contentType: bytes) returns (headers: Option<seq<Pair>>)
    ensures headers == FormOf(formdata, contentType)
  {
    var w := BoundaryIn(contentType, 0);
    if w.Some? {
      headers := ParseMultipart(formdata, [MINUS, MINUS] + w.value);
    } else {
      var pairs := ParseFormString(formdata);
      headers := Some(pairs);
    }
  }

  // multipart/form-data; boundary=
  function MultipartType(b: bytes): bytes {
    [109, 117, 108, 116, 105, 112, 97, 114, 116, 47, 102, 111, 114, 109, 45, 100, 97, 116, 97, 59, 32] + BOUNDARY_IS + b
  }

  lemma BoundaryFound(b: bytes)
    requires b != [] && SP !in b
    ensures BoundaryIn(MultipartType(b), 0) == Some(b)
  {
    var t := MultipartType(b);
    assert t[21..30] == BOUNDARY_IS && t[30..] == b;
    assert forall j :: 0 <= j < 21 ==> t[j] != BOUNDARY_IS[0];
    FindAt(t, BOUNDARY_IS, 0, 21);
    forall j: nat | 30 <= j
      ensures !Occurs(t, [SP], j)
    {
      assert j < |t| ==> t[j] == b[j - 30];
      CannotOccur(t, [SP], j, j);
    }
    assert |BOUNDARY_IS| == 9 && |t| == 30 + |b| && |[SP]| == 1;
    hide *;
    assert Find(t, [SP], 30).None?;
    BoundaryInIs(t, 21, b);
  }

  lemma BoundaryInIs(t: bytes, k: nat, b: bytes)
    requires Find(t, BOUNDARY_IS, 0) == Some(k) && k + 9 <= |t| && t[k + 9..] == b && b != []
    requires Find(t, [SP], k + 9).None?
    ensures BoundaryIn(t, 0) == Some(b)
  {
    hide Find, Occurs;
    assert |BOUNDARY_IS| == 9 && t[k + 9..|t|] == t[k + 9..];
  }

  // A form sent as multipart is recovered from its body and its content type exactly when its
  // names are.
  lemma FormRecovered(b: bytes, pairs: seq<Pair>)
    requires b != [] && SP !in b && Renderable([MINUS, MINUS] + b, pairs)
    ensures FormOf(Rendering([MINUS, MINUS] + b, pairs), MultipartType(b)) == Some(pairs) <==> AllWellNamed(pairs)
  {
    BoundaryFound(b);
    MultipartRoundTrip([MINUS, MINUS] + b, pairs);
    hide Parts, Contributions, Rendering, BoundaryIn, MultipartType, Renderable;
  }

  // ----- any body -----

  // The fixed texts, as the code spells them.
  lemma FixedTexts()
    ensures var d, b := "Content-Disposition: form-data; name=\"", "boundary=";
            && |DISPOSITION| == |d| && (forall i :: 0 <= i < |d| ==> DISPOSITION[i] == d[i] as int)
            && |BOUNDARY_IS| == |b| && (forall i :: 0 <= i < |b| ==> BOUNDARY_IS[i] == b[i] as int)
            && BLANK_LINE == ['\r' as int, '\n' as int, '\r' as int, '\n' as int]
  {
  }

  // A part ends two characters before the boundary, unless that is less than two characters
  // away: then it is all of the rest.
  lemma PartAt(formdata: bytes, boundary: bytes, from: nat)
    requires boundary != []
    ensures match Find(formdata, boundary, from)
            case None => Parts(formdata, boundary, from) == []
            case Some(k) =>
              && from <= k && k + |boundary| <= |formdata|
              && Parts(formdata, boundary, from)
                 == [if k >= from + 2 then formdata[from..k - 2] else formdata[from..]]
                    + Parts(formdata, boundary, k + |boundary| + 2)
  {
    if Find(formdata, boundary, from).Some? {
      PartsUnfold(formdata, boundary, from);
      FoundWithin(formdata, boundary, from);
    }
    hide Find;
  }

  // A part with a blank line has its header before the first one and its value behind it; one
  // without is its own header and, from its fourth character on, its value; and if it has no
  // three characters either, the parser throws.
  lemma AnyPart(part: bytes)
    ensures var name := (h: bytes, v: bytes) =>
                match NameIn(h, 0) case None => Nothing case Some(key) => One((Unescape(key).1, v));
            match Find(part, ['\r' as int, '\n' as int, '\r' as int, '\n' as int], 0)
            case Some(k) => k + 4 <= |part| && Contributed(part) == name(part[..k], part[k + 4..])
            case None => Contributed(part) == if |part| < 3 then Throws else name(part, part[3..])
  {
    hide Find, NameIn, Unescape;
  }

  // The name of a header is what is quoted behind the first fixed text; an empty one is passed
  // over, and one without an end is none.
  lemma AnyName(h: bytes, from: nat)
    ensures match Find(h, DISPOSITION, from)
            case None => NameIn(h, from).None?
            case Some(k) =>
              match Find(h, ['"' as int], k + 38)
              case None => NameIn(h, from).None?
              case Some(end) =>
                k + 38 <= end <= |h|
                && NameIn(h, from) == if end > k + 38 then Some(h[k + 38..end]) else NameIn(h, k + 1)
  {
    hide Find;
  }

  // The boundary of a content type goes on to the next space.
  lemma AnyBoundary(t: bytes, from: nat)
    ensures match Find(t, BOUNDARY_IS, from)
            case None => BoundaryIn(t, from).None?
            case Some(k) =>
              && k + 9 <= |t|
              && var space := Find(t, [' ' as int], k + 9);
                 var end := if space.Some? then space.value else |t|;
              && end <= |t|
              && BoundaryIn(t, from) == if end > k + 9 then Some(t[k + 9..end]) else BoundaryIn(t, k + 1)
  {
    hide Find;
  }
}
