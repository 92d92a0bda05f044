// HTTP forms: the url-encoded string of pairs.
module Forms {
  import opened Bytes
  import opened EscapePath

  type Pair = (bytes, bytes)

  // What unescape_path leaves in its output; the parsers do not look at its result.
  function Unescaped(s: bytes): bytes { Unescape(s).1 }

  // The pairs of the rest of a form, when `key` and `value` have been collected so far.
  function Pairs(b: bytes, key: bytes, value: bytes, inKey: bool): seq<Pair>
    decreases |b|
  {
    if b == [] then (if inKey then [] else [(Unescaped(key), Unescaped(value))])
    else if inKey then
      if b[0] != EQUALS then Pairs(b[1..], key + [b[0]], value, true) else Pairs(b[1..], key, value, false)
    else if b[0] != AMPERSAND then Pairs(b[1..], key, value + [b[0]], false)
    else [(Unescaped(key), Unescaped(value))] + Pairs(b[1..], [], [], true)
  }

  method ParseFormString(formdata: bytes) returns (headers: seq<Pair>)
    ensures headers == Pairs(formdata, [], [], true)
  {
    headers := [];
    var key, value, parseKey := [], [], true;
    var i := 0;
    assert formdata[0..] == formdata && [] + Pairs(formdata, [], [], true) == Pairs(formdata, [], [], true);
    while i < |formdata|
      invariant 0 <= i <= |formdata|
      invariant Pairs(formdata, [], [], true) == headers + Pairs(formdata[i..], key, value, parseKey)
    {
      hide Unescaped;
      var c := formdata[i];
      assert formdata[i..][1..] == formdata[i + 1..] && formdata[i..][0] == c;
      ghost var before := headers;
      if parseKey {
        if c != EQUALS {
          key := key + [c];
        } else {
          parseKey := false;
        }
      } else {
        if c != AMPERSAND {
          value := value + [c];
        } else {
          parseKey := true;
          var k, v := UnescapeBoth(key, value);
          headers := headers + [(k, v)];
          PairsAssoc(before, (k, v), Pairs(formdata[i + 1..], [], [], true));
          key, value := [], [];
        }
      }
      i := i + 1;
    }
    if !parseKey {
      var k, v := UnescapeBoth(key, value);
      headers := headers + [(k, v)];
    } else {
      assert headers + [] == headers;
    }
  }

  method UnescapeBoth(key: bytes, value: bytes) returns (k: bytes, v: bytes)
    ensures k == Unescaped(key) && v == Unescaped(value)
  {
    var ok;
    ok, k := UnescapePathString(key);
    ok, v := UnescapePathString(value);
  }

  lemma PairsAssoc(a: seq<Pair>, p: Pair, b: seq<Pair>)
    ensures a + ([p] + b) == a + [p] + b
  {
  }

  // ----- joining escaped pairs -----

  function Rendered(pairs: seq<Pair>): bytes {
    if pairs == [] then []
    else
      var text := Escape(pairs[0].0) + [EQUALS] + Escape(pairs[0].1);
      if |pairs| == 1 then text else text + [AMPERSAND] + Rendered(pairs[1..])
  }

  lemma {:induction false} KeyRead(k: bytes, rest: bytes, key: bytes, value: bytes)
    requires EQUALS !in k
    ensures Pairs(k + rest, key, value, true) == Pairs(rest, key + k, value, true)
    decreases |k|
  {
    if k == [] {
      assert k + rest == rest && key + k == key;
    } else {
      assert (k + rest)[1..] == k[1..] + rest;
      KeyRead(k[1..], rest, key + [k[0]], value);
      assert key + [k[0]] + k[1..] == key + k;
    }
  }

  lemma {:induction false} ValueRead(v: bytes, rest: bytes, key: bytes, value: bytes)
    requires AMPERSAND !in v
    ensures Pairs(v + rest, key, value, false) == Pairs(rest, key, value + v, false)
    decreases |v|
  {
    if v == [] {
      assert v + rest == rest && value + v == value;
    } else {
      assert (v + rest)[1..] == v[1..] + rest;
      ValueRead(v[1..], rest, key, value + [v[0]]);
      assert value + [v[0]] + v[1..] == value + v;
    }
  }

  // Once the key has been read it is the key of the first pair, whatever follows.
  lemma {:induction false} FirstKey(b: bytes, key: bytes, value: bytes)
    ensures Pairs(b, key, value, false) != [] && Pairs(b, key, value, false)[0].0 == Unescaped(key)
    decreases |b|
  {
    if b != [] && b[0] != AMPERSAND {
      FirstKey(b[1..], key, value + [b[0]]);
    }
  }

  // Escaping neither makes nor hides an '=', an '&' or a quote.
  lemma {:induction false} EscapeKeeps(s: bytes, c: byte)
    requires c == EQUALS || c == AMPERSAND || c == QUOTE
    ensures c in Escape(s) <==> c in s
  {
    if s != [] {
      EscapeKeeps(s[1..], c);
      assert c in EscapeChar(s[0]) <==> c == s[0];
      assert s == [s[0]] + s[1..];
    }
  }

  // A string with an '=' or an '&' is one without it, then that, and then a rest.
  lemma FirstOf(s: bytes, c: byte) returns (n: nat)
    requires c in s
    ensures n < |s| && s[n] == c && c !in s[..n]
  {
    if s[0] == c {
      n := 0;
    } else {
      assert s == [s[0]] + s[1..];
      n := FirstOf(s[1..], c);
      n := n + 1;
      assert s[..n] == [s[0]] + s[1..][..n - 1];
    }
  }

  lemma EscapeAround(s: bytes, n: nat)
    requires n < |s| && !IsEscaped(s[n])
    ensures Escape(s) == Escape(s[..n]) + [s[n]] + Escape(s[n + 1..])
  {
    assert s == s[..n] + ([s[n]] + s[n + 1..]);
    EscapeAppend(s[..n], [s[n]] + s[n + 1..]);
    assert ([s[n]] + s[n + 1..])[1..] == s[n + 1..];
    AppendAssoc(Escape(s[..n]), [s[n]], Escape(s[n + 1..]));
  }

  // The pair comes through unchanged: its characters survive, its key has no '=' and its
  // value no '&'.
  predicate Clean(p: Pair) { AllSurvive(p.0) && AllSurvive(p.1) && EQUALS !in p.0 && AMPERSAND !in p.1 }

  // A key with an '=' comes back shorter.
  lemma KeyCut(k: bytes, rest: bytes)
    requires EQUALS in k
    ensures var r := Pairs(Escape(k) + [EQUALS] + rest, [], [], true); r != [] && r[0].0 != k
  {
    var n := FirstOf(k, EQUALS);
    EscapeAround(k, n);
    EscapeKeeps(k[..n], EQUALS);
    var key, more := Escape(k[..n]), Escape(k[n + 1..]) + [EQUALS] + rest;
    assert Escape(k) + [EQUALS] + rest == key + ([EQUALS] + more);
    KeyRead(key, [EQUALS] + more, [], []);
    assert ([EQUALS] + more)[1..] == more && [] + key == key;
    FirstKey(more, key, []);
    NoLonger(k[..n]);
  }

  // A value with an '&' comes back shorter.
  lemma ValueCut(k: bytes, v: bytes, rest: bytes)
    requires AMPERSAND in v
    ensures var r := Pairs(Escape(v) + rest, k, [], false); r != [] && r[0].1 != v
  {
    var n := FirstOf(v, AMPERSAND);
    EscapeAround(v, n);
    EscapeKeeps(v[..n], AMPERSAND);
    var value, more := Escape(v[..n]), Escape(v[n + 1..]) + rest;
    assert Escape(v) + rest == value + ([AMPERSAND] + more);
    ValueRead(value, [AMPERSAND] + more, k, []);
    assert [] + value == value;
    NoLonger(v[..n]);
  }

  // The key read from a joined form is the escaped key, when it has no '='.
  lemma KeyWhole(k: bytes, rest: bytes)
    requires EQUALS !in k
    ensures Pairs(Escape(k) + [EQUALS] + rest, [], [], true) == Pairs(rest, Escape(k), [], false)
  {
    EscapeKeeps(k, EQUALS);
    AppendAssoc(Escape(k), [EQUALS], rest);
    KeyRead(Escape(k), [EQUALS] + rest, [], []);
    assert [] + Escape(k) == Escape(k) && ([EQUALS] + rest)[1..] == rest;
  }

  lemma ValueWhole(k: bytes, v: bytes, rest: bytes)
    requires AMPERSAND !in v && (rest == [] || rest[0] == AMPERSAND)
    ensures Pairs(Escape(v) + rest, k, [], false)
         == [(Unescaped(k), Unescaped(Escape(v)))] + if rest == [] then [] else Pairs(rest[1..], [], [], true)
  {
    EscapeKeeps(v, AMPERSAND);
    ValueRead(Escape(v), rest, k, []);
    assert [] + Escape(v) == Escape(v);
    hide Escape, Unescaped;
  }

  // The first pair of a joined form.
  lemma FirstPair(p: Pair, rest: bytes)
    requires rest == [] || rest[0] == AMPERSAND
    ensures var r := Pairs(Escape(p.0) + [EQUALS] + (Escape(p.1) + rest), [], [], true);
            if EQUALS in p.0 || AMPERSAND in p.1 then r != [] && r[0] != p
            else r == [(Unescaped(Escape(p.0)), Unescaped(Escape(p.1)))]
                    + if rest == [] then [] else Pairs(rest[1..], [], [], true)
  {
    hide Escape, Unescaped, Pairs;
    if EQUALS in p.0 {
      KeyCut(p.0, Escape(p.1) + rest);
    } else {
      KeyWhole(p.0, Escape(p.1) + rest);
      if AMPERSAND in p.1 {
        ValueCut(Escape(p.0), p.1, rest);
      } else {
        ValueWhole(Escape(p.0), p.1, rest);
      }
    }
  }

  lemma RenderedParts(pairs: seq<Pair>)
    requires pairs != []
    ensures var tail := if |pairs| == 1 then [] else [AMPERSAND] + Rendered(pairs[1..]);
            Rendered(pairs) == Escape(pairs[0].0) + [EQUALS] + (Escape(pairs[0].1) + tail)
  {
    var head, value := Escape(pairs[0].0) + [EQUALS], Escape(pairs[0].1);
    hide Escape;
    if |pairs| == 1 {
      assert value + [] == value;
    } else {
      AppendAssoc(head, value, [AMPERSAND] + Rendered(pairs[1..]));
      AppendAssoc(head + value, [AMPERSAND], Rendered(pairs[1..]));
    }
  }

  // parse_form_string undoes joining escaped pairs exactly when every pair is one that comes
  // through unchanged.
  lemma {:induction false} FormRoundTrip(pairs: seq<Pair>)
    ensures Pairs(Rendered(pairs), [], [], true) == pairs <==> forall p <- pairs :: Clean(p)
    decreases |pairs|
  {
    if pairs != [] {
      var p := pairs[0];
      var tail := if |pairs| == 1 then [] else [AMPERSAND] + Rendered(pairs[1..]);
      assert tail != [] ==> tail[1..] == Rendered(pairs[1..]);
      assert |pairs| == 1 ==> pairs[1..] == [];
      assert pairs == [p] + pairs[1..];
      FormRoundTrip(pairs[1..]);
      RenderedParts(pairs);
      EscapeRoundTrip(p.0);
      EscapeRoundTrip(p.1);
      FirstPair(p, tail);
      hide Escape, AllSurvive, Unescape;
      var rest := if tail == [] then [] else Pairs(tail[1..], [], [], true);
      assert rest == Pairs(Rendered(pairs[1..]), [], [], true);
      assert (forall x <- pairs :: Clean(x)) <==> Clean(p) && forall x <- pairs[1..] :: Clean(x);
      hide *;
      SameCons((Unescaped(Escape(p.0)), Unescaped(Escape(p.1))), rest, p, pairs[1..]);
    }
  }

  lemma SameCons(q: Pair, a: seq<Pair>, p: Pair, b: seq<Pair>)
    ensures [q] + a == [p] + b <==> q == p && a == b
  {
    assert ([q] + a)[1..] == a && ([p] + b)[1..] == b;
    assert ([q] + a)[0] == q && ([p] + b)[0] == p;
  }

  // ----- any form -----

  // Whatever a form was escaped by: up to the first '=' it is a key, up to the next '&' a value,
  // each unescaped as far as that goes; and a key without an '=' is dropped.
  lemma AnyForm(k: bytes, v: bytes, rest: bytes)
    requires '=' as int !in k && '&' as int !in v
    ensures Pairs(k, [], [], true) == []
    ensures Pairs(k + ['=' as int] + v, [], [], true) == [(Unescape(k).1, Unescape(v).1)]
    ensures Pairs(k + ['=' as int] + v + ['&' as int] + rest, [], [], true)
         == [(Unescape(k).1, Unescape(v).1)] + Pairs(rest, [], [], true)
  {
    assert k + [] == k && [] + k == k && v + [] == v && [] + v == v;
    KeyRead(k, [], [], []);
    KeyAndValue(k, v, []);
    KeyAndValue(k, v, [AMPERSAND] + rest);
    assert k + [EQUALS] + v + [] == k + [EQUALS] + v;
    AppendAssoc(k + [EQUALS] + v, [AMPERSAND], rest);
    assert ([AMPERSAND] + rest)[1..] == rest;
  }

  lemma KeyAndValue(k: bytes, v: bytes, rest: bytes)
    requires EQUALS !in k && AMPERSAND !in v
    ensures Pairs(k + [EQUALS] + v + rest, [], [], true) == Pairs(rest, k, v, false)
  {
    AppendAssoc(k, [EQUALS], v + rest);
    AppendAssoc(k + [EQUALS], v, rest);
    KeyRead(k, [EQUALS] + (v + rest), [], []);
    assert [] + k == k && [] + v == v && ([EQUALS] + (v + rest))[1..] == v + rest;
    assert Pairs([EQUALS] + (v + rest), k, [], true) == Pairs(v + rest, k, [], false);
    ValueRead(v, rest, k, []);
  }
}
