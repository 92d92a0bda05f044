// Runs of the request parser over a connection: chunked input, several requests in a row,
// and the block of headers that the HTTP connection cuts out of its receive buffer.
module HttpPipeline {
  import opened Bytes
  import opened HttpRequest
  import opened HttpGrammar
  import opened HttpLanguage

  const BLANK := Meaning(EMPTY)

  // A parser with the request it is filling and the requests completed so far. After each
  // complete request the parser is reset and a new request is used.
  datatype Feed = Feed(state: State, fields: Fields, done: seq<Fields>, failed: bool)

  const FRESH := Feed(MethodStart, BLANK, [], false)

  predicate Ready(f: Feed) { Safe(f.state, f.fields) }

  function FeedChunk(f: Feed, b: bytes): (g: Feed)
    requires Ready(f)
    ensures Ready(g)
    decreases b
  {
    if f.failed || b == [] then f
    else
      var o := Parse(f.state, f.fields, b);
      if o.result == False then Feed(o.state, o.fields, f.done, true)
      else if o.result == True && 0 < o.consumed then
        FeedChunk(Feed(MethodStart, BLANK, f.done + [o.fields], false), b[o.consumed..])
      else Feed(o.state, o.fields, f.done, false)
  }

  function FeedAll(f: Feed, chunks: seq<bytes>): Feed
    requires Ready(f)
    decreases |chunks|
  {
    if chunks == [] then f else FeedAll(FeedChunk(f, chunks[0]), chunks[1..])
  }

  lemma FeedStep(f: Feed, b: bytes)
    requires Ready(f) && !f.failed && b != []
    ensures var o := Parse(f.state, f.fields, b);
            FeedChunk(f, b)
            == if o.result == False then Feed(o.state, o.fields, f.done, true)
               else if o.result == True && 0 < o.consumed then
                 FeedChunk(Feed(MethodStart, BLANK, f.done + [o.fields], false), b[o.consumed..])
               else Feed(o.state, o.fields, f.done, false)
  {
    hide Parse;
  }

  lemma FeedNothing(f: Feed, b: bytes)
    requires Ready(f) && (f.failed || b == [])
    ensures FeedChunk(f, b) == f
  {
  }

  lemma {:induction false} FeedAppend(f: Feed, a: bytes, b: bytes)
    requires Ready(f)
    ensures FeedChunk(FeedChunk(f, a), b) == FeedChunk(f, a + b)
    decreases a
  {
    hide Parse, FeedChunk;
    if f.failed || a == [] {
      FeedNothing(f, a);
      assert f.failed || a + b == b;
      if f.failed {
        FeedNothing(f, b);
        FeedNothing(f, a + b);
      }
    } else {
      var o := Parse(f.state, f.fields, a);
      ParseAppend(f.state, f.fields, a, b);
      ParsePrefix(f.state, f.fields, a);
      FeedStep(f, a);
      FeedStep(f, a + b);
      if o.result == True {
        assert (a + b)[o.consumed..] == a[o.consumed..] + b;
        FeedAppend(Feed(MethodStart, BLANK, f.done + [o.fields], false), a[o.consumed..], b);
      } else if o.result == False {
        FeedNothing(Feed(o.state, o.fields, f.done, true), b);
      } else {
        FeedOn(f, a, b);
      }
    }
  }

  // The first chunk has not decided.
  lemma FeedOn(f: Feed, a: bytes, b: bytes)
    requires Ready(f) && !f.failed && a != [] && Parse(f.state, f.fields, a).result == Indeterminate
    ensures FeedChunk(FeedChunk(f, a), b) == FeedChunk(f, a + b)
  {
    hide Parse, FeedChunk;
    var o := Parse(f.state, f.fields, a);
    FeedStep(f, a);
    if b == [] {
      FeedNothing(FeedChunk(f, a), b);
      assert a + b == a;
    } else {
      ParseAppend(f.state, f.fields, a, b);
      ParsePrefix(o.state, o.fields, b);
      FeedStep(f, a + b);
      FeedStep(FeedChunk(f, a), b);
      var p := Parse(o.state, o.fields, b);
      assert (a + b)[|a| + p.consumed..] == b[p.consumed..];
    }
  }

  // How the input is cut into chunks does not matter.
  lemma {:induction false} ChunksDoNotMatter(f: Feed, chunks: seq<bytes>)
    requires Ready(f)
    ensures FeedAll(f, chunks) == FeedChunk(f, Concat(chunks))
    decreases |chunks|
  {
    if chunks != [] {
      FeedAppend(f, chunks[0], Concat(chunks[1..]));
      ChunksDoNotMatter(FeedChunk(f, chunks[0]), chunks[1..]);
    }
  }

  function Renderings(ts: seq<Syntax>): seq<bytes> { seq(|ts|, i requires 0 <= i < |ts| => Render(ts[i])) }

  function Meanings(ts: seq<Syntax>): seq<Fields> { seq(|ts|, i requires 0 <= i < |ts| => Meaning(ts[i])) }

  lemma {:induction false} FeedRenderings(done: seq<Fields>, ts: seq<Syntax>)
    requires forall t <- ts :: Valid(t)
    ensures FeedChunk(FRESH.(done := done), Concat(Renderings(ts))) == FRESH.(done := done + Meanings(ts))
    decreases |ts|
  {
    if ts == [] {
      assert done + Meanings(ts) == done;
    } else {
      var t, rest := ts[0], ts[1..];
      var b := Concat(Renderings(rest));
      assert Renderings(ts)[1..] == Renderings(rest);
      assert Concat(Renderings(ts)) == Render(t) + b;
      Complete(t, b);
      assert (Render(t) + b)[|Render(t)|..] == b;
      assert |Render(t)| > 0;
      hide Render, Meaning, Valid, Parse;
      FeedRenderings(done + [Meaning(t)], rest);
      MeaningsCons(done, ts);
    }
  }

  lemma MeaningsCons(done: seq<Fields>, ts: seq<Syntax>)
    requires ts != []
    ensures done + [Meaning(ts[0])] + Meanings(ts[1..]) == done + Meanings(ts)
  {
    hide Meaning;
    assert Meanings(ts) == [Meaning(ts[0])] + Meanings(ts[1..]);
  }

  // Any list of well-formed requests, cut into any chunks, is recovered exactly, and leaves
  // the parser ready for the next one.
  lemma Pipeline(ts: seq<Syntax>, chunks: seq<bytes>)
    requires forall t <- ts :: Valid(t)
    requires Concat(chunks) == Concat(Renderings(ts))
    ensures FeedAll(FRESH, chunks) == FRESH.(done := Meanings(ts))
  {
    ChunksDoNotMatter(FRESH, chunks);
    FeedRenderings([], ts);
    assert [] + Meanings(ts) == Meanings(ts);
  }

  // ----- the header block of an HTTP connection -----

  lemma NulRejected(s: State, q: Fields)
    requires Safe(s, q)
    ensures Next(s, q, NUL).result == False
  {
  }

  // Every state rejects NUL, so a block that ends with one is always decided.
  lemma SentinelDecides(s: State, q: Fields, b: bytes)
    requires Safe(s, q)
    ensures Parse(s, q, b + [NUL]).result != Indeterminate
  {
    ParseAppend(s, q, b, [NUL]);
    var o := Parse(s, q, b);
    NulRejected(o.state, o.fields);
    hide Next;
    assert Parse(o.state, o.fields, [NUL]).result == False;
  }

  // The first m bytes of p end with an empty line.
  predicate BreakAt(p: bytes, m: nat) {
    4 <= m <= |p| && p[m - 4] == CR && p[m - 3] == LF && p[m - 2] == CR && p[m - 1] == LF
  }

  // n bytes of b are a block as `async_read_until` delimits it: they end with the first
  // empty line.
  ghost predicate FirstBlock(b: bytes, n: nat) {
    BreakAt(b, n) && NoBreak(b[..n - 1])
  }

  ghost predicate NoBreak(p: bytes) { forall m :: 0 <= m <= |p| ==> !BreakAt(p, m) }

  // What the state tells about the last bytes consumed.
  ghost predicate Tail(s: State, p: bytes) {
    var n := |p|;
    if s == Newline1 || s == Newline2 then n >= 1 && p[n - 1] == CR && (n >= 2 ==> p[n - 2] != LF)
    else if s == HeaderLineStart then n >= 2 && p[n - 2] == CR && p[n - 1] == LF
    else if s == Newline3 then n >= 3 && p[n - 3] == CR && p[n - 2] == LF && p[n - 1] == CR
    else n == 0 || p[n - 1] != LF
  }

  lemma TailStep(s: State, q: Fields, p: bytes, c: byte)
    requires Safe(s, q) && Tail(s, p) && NoBreak(p)
    requires Next(s, q, c).result == Indeterminate
    ensures Tail(Next(s, q, c).state, p + [c]) && NoBreak(p + [c])
  {
    var r := p + [c];
    forall m | 0 <= m <= |r|
      ensures !BreakAt(r, m)
    {
      if m < |r| {
        assert BreakAt(r, m) == BreakAt(p, m);
      }
    }
  }

  lemma {:induction false} StopsAtBreak(s: State, q: Fields, p: bytes, b: bytes)
    requires Safe(s, q) && Tail(s, p) && NoBreak(p)
    requires Parse(s, q, b).result == True
    ensures FirstBlock(p + b, |p| + Parse(s, q, b).consumed)
    decreases b, 1
  {
    hide Next, Tail, NoBreak;
    if Next(s, q, b[0]).result == Indeterminate {
      StopsAtBreakStep(s, q, p, b);
    } else {
      AcceptedLast(s, q, p, b);
    }
  }

  lemma StopsAtBreakStep(s: State, q: Fields, p: bytes, b: bytes)
    requires Safe(s, q) && Tail(s, p) && NoBreak(p) && b != []
    requires Parse(s, q, b).result == True && Next(s, q, b[0]).result == Indeterminate
    ensures FirstBlock(p + b, |p| + Parse(s, q, b).consumed)
    decreases b, 0
  {
    hide *;
    TailStep(s, q, p, b[0]);
    ParseCons(s, q, b);
    var n := Next(s, q, b[0]);
    StopsAtBreak(n.state, n.fields, p + [b[0]], b[1..]);
    assert p + [b[0]] + b[1..] == p + b;
  }

  lemma AcceptedLast(s: State, q: Fields, p: bytes, b: bytes)
    requires Safe(s, q) && Tail(s, p) && NoBreak(p)
    requires b != [] && Next(s, q, b[0]).result == True
    ensures FirstBlock(p + b, |p| + 1)
  {
    assert s == Newline3 && b[0] == LF;
    hide Next;
    assert (p + b)[..|p|] == p;
  }

  // The block `async_read_until` delimits, with the NUL the connection appends: a fresh
  // parser accepts it exactly when all of it is one rendered request, and never stops short.
  lemma Block(q: Fields, b: bytes, n: nat)
    requires Blank(q) && FirstBlock(b, n)
    ensures var o := Parse(MethodStart, q, b[..n] + [NUL]);
            && o.result != Indeterminate
            && (o.result == True <==> exists t :: Valid(t) && Render(t) == b[..n])
            && (o.result == True ==> o.consumed == n)
            && (forall t :: Valid(t) && Render(t) == b[..n] ==> o.fields == Meaning(t))
  {
    var block := b[..n] + [NUL];
    SentinelDecides(MethodStart, q, b[..n]);
    Language(q, block);
    BlockEnd(q, b, n);
    hide *;
    assert block[..n] == b[..n];
    var o := Parse(MethodStart, q, block);
    forall t | Valid(t) && Render(t) == b[..n]
      ensures Render(t) <= block && o.fields == Meaning(t)
    {
      assert Render(t) <= block;
    }
  }

  lemma BlockEnd(q: Fields, b: bytes, n: nat)
    requires Blank(q) && FirstBlock(b, n)
    ensures var o := Parse(MethodStart, q, b[..n] + [NUL]);
            o.result == True ==> o.consumed == n && exists t :: Valid(t) && Render(t) == b[..n]
  {
    hide Parse, Render, Valid, Meaning, TreeOf;
    var block := b[..n] + [NUL];
    var o := Parse(MethodStart, q, block);
    if o.result == True {
      StopsAtBreak(MethodStart, q, [], block);
      assert [] + block == block;
      BlocksAgree(b, n, o.consumed);
      Sound(q, block);
      assert block[..n] == b[..n];
    }
  }

  lemma BlocksAgree(b: bytes, n: nat, k: nat)
    requires FirstBlock(b, n) && FirstBlock(b[..n] + [NUL], k)
    ensures k == n
  {
    var block := b[..n] + [NUL];
    assert !BreakAt(block, n + 1);
    assert k < n ==> BreakAt(b[..n - 1], k) == BreakAt(block, k);
  }

  // A connection that is kept alive goes on with the parser as the last request left it: what
  // comes next is accepted after one byte if that is a line feed, and refused after one byte
  // otherwise.
  lemma AfterAccepted(q: Fields, b: bytes)
    requires b != []
    ensures Parse(Newline3, q, b) == Outcome(if b[0] == LF then True else False, 1, Newline3, q)
  {
  }

  // So the second request on a connection is refused, whatever the two requests are, and
  // whatever has been made of the first one in between.
  lemma SecondIsRefused(q: Fields, t: Syntax, r: Fields, u: Syntax)
    requires Blank(q) && Valid(t) && Valid(u)
    ensures var o := Parse(MethodStart, q, Render(t) + [NUL]);
            o.result == True && o.state == Newline3 && Parse(o.state, r, Render(u) + [NUL]).result == False
  {
    VerbFirst(u);
    hide Render, Valid, Parse, Meaning, TreeOf;
    var b := Render(t) + [NUL];
    assert Render(t) <= b;
    Language(q, b);
    Sound(q, b);
    AfterAccepted(r, Render(u) + [NUL]);
  }

  lemma VerbFirst(u: Syntax)
    requires Valid(u)
    ensures Render(u) != [] && Render(u)[0] != LF
  {
    hide LinesBytes, ValidLines, VersionBytes;
    assert Render(u)[0] == TargetBytes(u)[0] == u.verb[0];
  }

  // The part of the HTTP connection that copies the header block and runs the parser on it. The
  // parser and the request are new for the first block, and as the last one left them later.
  method ParseBlock(parser: RequestParser, req: Request, received: bytes, transferred: nat) returns (accepted: bool)
    requires transferred <= |received| && Safe(parser.state, req.View())
    modifies parser, req
    ensures var o := Parse(old(parser.state), old(req.View()), received[..transferred] + [NUL]);
            (accepted <==> o.result == True) && parser.state == o.state && req.View() == o.fields
    ensures old(parser.state) == MethodStart && Blank(old(req.View())) && FirstBlock(received, transferred) ==>
              && (accepted <==> exists t :: Valid(t) && Render(t) == received[..transferred])
              && (accepted ==>
                    forall t :: Valid(t) && Render(t) == received[..transferred] ==> req.View() == Meaning(t))
  {
    hide Parse, Render, Valid, Meaning, FirstBlock;
    SentinelDecides(parser.state, req.View(), received[..transferred]);
    if parser.state == MethodStart && Blank(req.View()) && FirstBlock(received, transferred) {
      Block(req.View(), received, transferred);
    }
    var buffer := new byte[transferred + 1];
    buffer[transferred] := NUL;
    forall i | 0 <= i < transferred {
      buffer[i] := received[i];
    }
    assert buffer[..] == received[..transferred] + [NUL];
    var result, pos := parser.ParseRange(req, buffer[..], 0, transferred + 1);
    assert buffer[..][0..transferred + 1] == buffer[..];
    return result != False && result != Indeterminate;
  }
}
