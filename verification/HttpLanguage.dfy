// The language theorem of the request parser: a fresh parser accepts exactly the renderings
// of valid trees, fills in what the tree means, and no byte string has two trees.
module HttpLanguage {
  import opened Bytes
  import opened HttpRequest
  import opened HttpGrammar

  // From state s and partial tree t, the bytes a lead, undecided, to s' and t'.
  ghost predicate LeadsTo(s: State, t: Syntax, a: bytes, s': State, t': Syntax)
    decreases a
  {
    if a == [] then s == s' && t == t'
    else
      && Safe(s, Meaning(t))
      && Next(s, Meaning(t), a[0]).result == Indeterminate
      && LeadsTo(Next(s, Meaning(t), a[0]).state, Grow(s, t, a[0]), a[1..], s', t')
  }

  lemma {:induction false} Join(s: State, t: Syntax, a: bytes, s': State, t': Syntax,
                                b: bytes, s'': State, t'': Syntax)
    requires LeadsTo(s, t, a, s', t') && LeadsTo(s', t', b, s'', t'')
    ensures LeadsTo(s, t, a + b, s'', t'')
    decreases a
  {
    hide Next, Grow, Meaning, Safe;
    if a == [] {
      assert a + b == b;
    } else {
      assert (a + b)[1..] == a[1..] + b;
      Join(Next(s, Meaning(t), a[0]).state, Grow(s, t, a[0]), a[1..], s', t', b, s'', t'');
    }
  }

  lemma One(s: State, t: Syntax, c: byte)
    requires Safe(s, Meaning(t)) && Next(s, Meaning(t), c).result == Indeterminate
    ensures LeadsTo(s, t, [c], Next(s, Meaning(t), c).state, Grow(s, t, c))
  {
    hide Next, Grow, Meaning, Safe;
    assert [c][1..] == [];
  }

  // A partial tree that fits the state.
  ghost predicate Shaped(s: State, t: Syntax) {
    if Rank(s) < 9 then TargetShape(s, t) else LinesShape(s, t.lines)
  }

  lemma OneStep(s: State, t: Syntax, c: byte)
    requires Shaped(s, t)
    ensures Safe(s, Meaning(t))
    ensures var n := Next(s, Meaning(t), c);
            n.result == Indeterminate ==>
              Shaped(n.state, Grow(s, t, c)) && n.fields == Meaning(Grow(s, t, c))
  {
    if Rank(s) == 9 {
      LinesFacts(s, t.lines);
      if Next(s, Meaning(t), c).result == Indeterminate {
        GrowLinesStep(s, Meaning(t), t.lines, c);
      }
    } else if Next(s, Meaning(t), c).result == Indeterminate {
      if Rank(s) < 3 {
        GrowTarget(s, t, c);
      } else if Rank(s) < 8 {
        GrowVersion(s, t, c);
      } else {
        assert t.lines == [];
      }
    }
  }

  // What a path means for the parser: it consumes the path and goes on from its end.
  lemma {:induction false} Follow(s: State, t: Syntax, a: bytes, s': State, t': Syntax, b: bytes)
    requires Shaped(s, t) && LeadsTo(s, t, a, s', t')
    ensures Safe(s, Meaning(t)) && Safe(s', Meaning(t')) && Shaped(s', t')
    ensures TreeOf(s, t, a + b) == TreeOf(s', t', b)
    ensures var o := Parse(s', Meaning(t'), b);
            Parse(s, Meaning(t), a + b) == o.(consumed := |a| + o.consumed)
    decreases a
  {
    hide Next, Grow, Meaning, Safe, Shaped, TreeOf, Parse;
    if a == [] {
      OneStep(s, t, 0);
      assert a + b == b;
    } else {
      assert (a + b)[1..] == a[1..] + b;
      OneStep(s, t, a[0]);
      ParseCons(s, Meaning(t), a + b);
      TreeOfCons(s, t, a + b);
      Follow(Next(s, Meaning(t), a[0]).state, Grow(s, t, a[0]), a[1..], s', t', b);
    }
  }

  lemma Cons(s: State, t: Syntax, a: bytes, s1: State, t1: Syntax, s': State, t': Syntax)
    requires a != [] && Safe(s, Meaning(t)) && Next(s, Meaning(t), a[0]).result == Indeterminate
    requires Next(s, Meaning(t), a[0]).state == s1 && Grow(s, t, a[0]) == t1
    requires LeadsTo(s1, t1, a[1..], s', t')
    ensures LeadsTo(s, t, a, s', t')
  {
    hide Next, Grow, Meaning, Safe;
  }

  // ----- the loops of the machine -----

  // The states that stay while a part of the request line grows, the characters it grows by,
  // and the tree with more of them.
  predicate Loops(s: State, c: byte) {
    match s
    case Method => IsToken(c)
    case Uri => !IsCtl(c) && c != SP
    case Major => IsDigit(c)
    case Minor => IsDigit(c)
    case _ => false
  }

  function Extended(s: State, t: Syntax, m: bytes): Syntax {
    if s == Method then t.(verb := t.verb + m)
    else if s == Uri then t.(uri := t.uri + m)
    else if s == Major then t.(major := t.major + m)
    else t.(minor := t.minor + m)
  }

  lemma ExtendedTwice(s: State, t: Syntax, m: bytes)
    ensures m == [] ==> Extended(s, t, m) == t
    ensures m != [] ==> Extended(s, Extended(s, t, [m[0]]), m[1..]) == Extended(s, t, m)
  {
    if m == [] {
      assert t.verb + m == t.verb && t.uri + m == t.uri && t.major + m == t.major && t.minor + m == t.minor;
    } else {
      assert t.verb + [m[0]] + m[1..] == t.verb + m && t.uri + [m[0]] + m[1..] == t.uri + m;
      assert t.major + [m[0]] + m[1..] == t.major + m && t.minor + [m[0]] + m[1..] == t.minor + m;
    }
  }

  lemma LoopStep(s: State, t: Syntax, c: byte)
    requires Loops(s, c)
    ensures Safe(s, Meaning(t))
    ensures var n := Next(s, Meaning(t), c); n.result == Indeterminate && n.state == s
    ensures Grow(s, t, c) == Extended(s, t, [c])
  {
    hide Decimal, HeadersOf;
  }

  lemma {:induction false} LoopRun(s: State, t: Syntax, m: bytes)
    requires forall i :: 0 <= i < |m| ==> Loops(s, m[i])
    ensures LeadsTo(s, t, m, s, Extended(s, t, m))
    decreases m
  {
    ExtendedTwice(s, t, m);
    hide Next, Grow, Meaning, Safe, Extended, Loops;
    if m != [] {
      var u := Extended(s, t, [m[0]]);
      LoopStep(s, t, m[0]);
      LoopRun(s, u, m[1..]);
      Cons(s, t, m, s, u, s, Extended(s, t, m));
    }
  }

  function Last(t: Syntax): Line
    requires t.lines != []
  {
    t.lines[|t.lines| - 1]
  }

  function WithLast(t: Syntax, l: Line): Syntax
    requires t.lines != []
  {
    t.(lines := SetLast(t.lines, l))
  }

  lemma WithLastTwice(t: Syntax, l: Line, m: Line)
    requires t.lines != []
    ensures WithLast(t, l).lines != [] && Last(WithLast(t, l)) == l
    ensures WithLast(WithLast(t, l), m) == WithLast(t, m)
    ensures WithLast(t, Last(t)) == t
  {
    assert SetLast(t.lines, l)[..|t.lines| - 1] == t.lines[..|t.lines| - 1];
  }

  function PushAll(l: Line, v: bytes): Line {
    if l.folds == [] then l.(value := l.value + v)
    else
      var f := l.folds[|l.folds| - 1];
      l.(folds := SetLast(l.folds, f.(text := f.text + v)))
  }

  function PushAllLws(l: Line, w: bytes): Line {
    if l.folds == [] then l
    else
      var f := l.folds[|l.folds| - 1];
      l.(folds := SetLast(l.folds, f.(lws := f.lws + w)))
  }

  lemma PushAllCons(l: Line, v: bytes)
    ensures v == [] ==> PushAll(l, v) == l && PushAllLws(l, v) == l
    ensures v != [] ==> PushAll(PushText(l, v[0]), v[1..]) == PushAll(l, v)
    ensures v != [] ==> PushAllLws(PushLws(l, v[0]), v[1..]) == PushAllLws(l, v)
  {
    if v == [] {
      assert l.value + v == l.value;
      if l.folds != [] {
        var f := l.folds[|l.folds| - 1];
        assert f.text + v == f.text && f.lws + v == f.lws;
      }
    } else {
      assert l.value + [v[0]] + v[1..] == l.value + v;
      if l.folds != [] {
        var f := l.folds[|l.folds| - 1];
        assert f.text + [v[0]] + v[1..] == f.text + v;
        assert f.lws + [v[0]] + v[1..] == f.lws + v;
      }
    }
  }

  lemma NameStep(t: Syntax, c: byte)
    requires t.lines != [] && IsToken(c)
    ensures Safe(HeaderName, Meaning(t))
    ensures var n := Next(HeaderName, Meaning(t), c); n.result == Indeterminate && n.state == HeaderName
    ensures Grow(HeaderName, t, c) == WithLast(t, Last(t).(name := Last(t).name + [c]))
  {
    hide Decimal, HeadersOf;
  }

  lemma NameParts(t: Syntax, m: bytes)
    requires t.lines != [] && AllToken(m)
    ensures m == [] ==> WithLast(t, Last(t).(name := Last(t).name + m)) == t
    ensures m != [] ==>
              var u := WithLast(t, Last(t).(name := Last(t).name + [m[0]]));
              && u.lines != [] && IsToken(m[0]) && AllToken(m[1..])
              && WithLast(u, Last(u).(name := Last(u).name + m[1..])) == WithLast(t, Last(t).(name := Last(t).name + m))
  {
    var l := Last(t);
    WithLastTwice(t, l, l);
    if m == [] {
      assert l.name + m == l.name;
    } else {
      assert l.name + [m[0]] + m[1..] == l.name + m;
      WithLastTwice(t, l.(name := l.name + [m[0]]), l.(name := l.name + m));
      hide WithLast, Last;
    }
  }

  lemma {:induction false} NameRun(t: Syntax, m: bytes)
    requires t.lines != [] && AllToken(m)
    ensures LeadsTo(HeaderName, t, m, HeaderName, WithLast(t, Last(t).(name := Last(t).name + m)))
    decreases m
  {
    NameParts(t, m);
    hide Next, Grow, Meaning, Safe, WithLast, Last;
    if m != [] {
      hide *;
      NameStep(t, m[0]);
      var u := WithLast(t, Last(t).(name := Last(t).name + [m[0]]));
      NameRun(u, m[1..]);
      Cons(HeaderName, t, m, HeaderName, u, HeaderName, WithLast(t, Last(t).(name := Last(t).name + m)));
    }
  }

  lemma {:induction false} ValueRun(t: Syntax, v: bytes)
    requires t.lines != [] && AllText(v)
    ensures LeadsTo(HeaderValue, t, v, HeaderValue, WithLast(t, PushAll(Last(t), v)))
    decreases v
  {
    var l := Last(t);
    PushAllCons(l, v);
    WithLastTwice(t, l, l);
    if v != [] {
      ValueRun(WithLast(t, PushText(l, v[0])), v[1..]);
      WithLastTwice(t, PushText(l, v[0]), PushAll(l, v));
      Cons(HeaderValue, t, v, HeaderValue, WithLast(t, PushText(l, v[0])), HeaderValue, WithLast(t, PushAll(l, v)));
    }
  }

  lemma {:induction false} LwsRun(t: Syntax, w: bytes)
    requires t.lines != [] && AllLws(w)
    ensures LeadsTo(HeaderLws, t, w, HeaderLws, WithLast(t, PushAllLws(Last(t), w)))
    decreases w
  {
    var l := Last(t);
    PushAllCons(l, w);
    WithLastTwice(t, l, l);
    if w != [] {
      LwsRun(WithLast(t, PushLws(l, w[0])), w[1..]);
      WithLastTwice(t, PushLws(l, w[0]), PushAllLws(l, w));
      Cons(HeaderLws, t, w, HeaderLws, WithLast(t, PushLws(l, w[0])), HeaderLws, WithLast(t, PushAllLws(l, w)));
    }
  }

  // ----- one continuation, one header line, all of them -----

  // The state in which the parser is left by the text of a line, before its CR.
  function TextState(l: Line): State {
    if l.folds != [] && l.folds[|l.folds| - 1].text == [] then HeaderLws else HeaderValue
  }

  function AddFold(l: Line, f: Fold): Line { l.(folds := l.folds + [f]) }

  lemma FoldStart(t: Syntax, s: State, c: byte)
    requires t.lines != [] && (s == HeaderValue || s == HeaderLws) && (c == SP || c == HT)
    ensures LeadsTo(s, t, CRLF + [c], HeaderLws, WithLast(t, AddFold(Last(t), Fold([c], []))))
  {
    hide Decimal, HeadersOf;
    One(s, t, CR);
    One(Newline2, t, LF);
    One(HeaderLineStart, t, c);
    var u := WithLast(t, AddFold(Last(t), Fold([c], [])));
    hide Next, Grow, Meaning, Safe, LeadsTo;
    Join(s, t, [CR], Newline2, t, [LF], HeaderLineStart, t);
    Join(s, t, [CR] + [LF], HeaderLineStart, t, [c], HeaderLws, u);
  }

  lemma FoldText(t: Syntax, v: bytes)
    requires t.lines != [] && AllText(v) && (v != [] ==> v[0] != SP)
    requires Last(t).folds != []
    ensures LeadsTo(HeaderLws, t, v, if v == [] then HeaderLws else HeaderValue, WithLast(t, PushAll(Last(t), v)))
  {
    hide Decimal, HeadersOf;
    var l := Last(t);
    PushAllCons(l, v);
    WithLastTwice(t, l, l);
    if v != [] {
      hide PushAll;
      WithLastTwice(t, PushText(l, v[0]), PushAll(l, v));
      ValueRun(WithLast(t, PushText(l, v[0])), v[1..]);
      Cons(HeaderLws, t, v, HeaderValue, WithLast(t, PushText(l, v[0])), HeaderValue, WithLast(t, PushAll(l, v)));
    }
  }

  // A line grown by a continuation, in the three stages in which it is read.
  lemma FoldStages(l: Line, f: Fold)
    requires ValidFold(f)
    ensures f.lws[..1] == [f.lws[0]] && CRLF + f.lws[..1] + f.lws[1..] == CRLF + f.lws
    ensures PushAllLws(AddFold(l, Fold(f.lws[..1], [])), f.lws[1..]) == AddFold(l, Fold(f.lws, []))
    ensures PushAll(AddFold(l, Fold(f.lws, [])), f.text) == AddFold(l, f)
    ensures TextState(AddFold(l, f)) == if f.text == [] then HeaderLws else HeaderValue
    ensures AllLws(f.lws[1..]) && AddFold(l, Fold(f.lws, [])).folds != []
  {
    assert f.lws[..1] + f.lws[1..] == f.lws && [] + f.text == f.text;
  }

  lemma FoldRun(t: Syntax, f: Fold)
    requires t.lines != [] && ValidFold(f)
    ensures var m := AddFold(Last(t), f);
            LeadsTo(TextState(Last(t)), t, CRLF + f.lws + f.text, TextState(m), WithLast(t, m))
  {
    var l := Last(t);
    var s := TextState(l);
    var l1 := AddFold(l, Fold(f.lws[..1], []));
    var l2 := AddFold(l, Fold(f.lws, []));
    var m := AddFold(l, f);
    assert s == HeaderLws || s == HeaderValue;
    FoldStages(l, f);
    WithLastTwice(t, l1, l2);
    WithLastTwice(t, l2, m);
    hide LeadsTo, WithLast, AddFold, TextState, PushAll, PushAllLws, Last;
    FoldStart(t, s, f.lws[0]);
    LwsRun(WithLast(t, l1), f.lws[1..]);
    FoldText(WithLast(t, l2), f.text);
    hide *;
    Join(s, t, CRLF + f.lws[..1], HeaderLws, WithLast(t, l1), f.lws[1..], HeaderLws, WithLast(t, l2));
    Join(s, t, CRLF + f.lws, HeaderLws, WithLast(t, l2), f.text, TextState(m), WithLast(t, m));
  }

  lemma FoldsSplit(l: Line, fs: seq<Fold>)
    requires fs != [] && ValidFolds(fs)
    ensures var l1 := l.(folds := fs[..|fs| - 1]);
            AddFold(l1, fs[|fs| - 1]) == l.(folds := fs) && ValidFolds(l1.folds) && ValidFold(fs[|fs| - 1])
    ensures FoldsBytes(fs)
         == FoldsBytes(fs[..|fs| - 1]) + (CRLF + fs[|fs| - 1].lws + fs[|fs| - 1].text)
  {
    assert fs[..|fs| - 1] + [fs[|fs| - 1]] == fs;
  }

  lemma {:induction false} FoldsRun(t: Syntax, fs: seq<Fold>)
    requires t.lines != [] && Last(t).folds == [] && ValidFolds(fs)
    ensures var m := Last(t).(folds := fs);
            LeadsTo(HeaderValue, t, FoldsBytes(fs), TextState(m), WithLast(t, m))
    decreases |fs|
  {
    var l := Last(t);
    WithLastTwice(t, l, l);
    if fs != [] {
      var init, f := fs[..|fs| - 1], fs[|fs| - 1];
      var l1 := l.(folds := init);
      FoldsSplit(l, fs);
      WithLastTwice(t, l1, l.(folds := fs));
      hide *;
      FoldsRun(t, init);
      FoldRun(WithLast(t, l1), f);
      Join(HeaderValue, t, FoldsBytes(init), TextState(l1), WithLast(t, l1),
           CRLF + f.lws + f.text, TextState(l.(folds := fs)), WithLast(t, l.(folds := fs)));
    }
  }

  function AddLine(t: Syntax, l: Line): Syntax { t.(lines := t.lines + [l]) }

  lemma AddLineLast(t: Syntax, x: Line, y: Line)
    ensures AddLine(t, x).lines != [] && Last(AddLine(t, x)) == x
    ensures WithLast(AddLine(t, x), y) == AddLine(t, y)
  {
    assert AddLine(t, x).lines[..|t.lines|] == t.lines;
  }

  lemma LineStages(l: Line)
    requires ValidLine(l)
    ensures l.name[..1] == [l.name[0]] && AllToken(l.name[1..]) && IsToken(l.name[0])
    ensures Line([l.name[0]], [], []).(name := [l.name[0]] + l.name[1..]) == Line(l.name, [], [])
    ensures PushAll(Line(l.name, [], []), l.value) == Line(l.name, l.value, [])
    ensures Line(l.name, l.value, []).(folds := l.folds) == l
    ensures TextState(l) == HeaderValue || TextState(l) == HeaderLws
    ensures LineBytes(l) + CRLF
         == [l.name[0]] + l.name[1..] + [COLON] + [SP] + l.value + FoldsBytes(l.folds) + [CR] + [LF]
  {
    assert [l.name[0]] + l.name[1..] == l.name && [] + l.value == l.value;
  }

  // The single steps on the marks of a header line.
  lemma LineMarks(t: Syntax, u: Syntax, c: byte, s: State)
    requires IsToken(c) && u.lines != [] && (s == HeaderValue || s == HeaderLws)
    ensures LeadsTo(HeaderLineStart, t, [c], HeaderName, AddLine(t, Line([c], [], [])))
    ensures LeadsTo(HeaderName, u, [COLON], SpaceBeforeValue, u)
    ensures LeadsTo(SpaceBeforeValue, u, [SP], HeaderValue, u)
    ensures LeadsTo(s, u, [CR], Newline2, u)
    ensures LeadsTo(Newline2, u, [LF], HeaderLineStart, u)
  {
    hide Decimal, HeadersOf, LeadsTo;
    One(HeaderLineStart, t, c);
    One(HeaderName, u, COLON);
    One(SpaceBeforeValue, u, SP);
    One(s, u, CR);
    One(Newline2, u, LF);
  }

  lemma LineRun(t: Syntax, l: Line)
    requires ValidLine(l)
    ensures LeadsTo(HeaderLineStart, t, LineBytes(l) + CRLF, HeaderLineStart, AddLine(t, l))
  {
    var c, H := l.name[0], HeaderLineStart;
    var l0, l1, l2 := Line([c], [], []), Line(l.name, [], []), Line(l.name, l.value, []);
    var t0, t1, t2, t3 := AddLine(t, l0), AddLine(t, l1), AddLine(t, l2), AddLine(t, l);
    LineStages(l);
    AddLineLast(t, l0, l1);
    AddLineLast(t, l1, l2);
    AddLineLast(t, l2, l);
    AddLineLast(t, l, l);
    assert AllText(l.value) && ValidFolds(l.folds);
    hide *;
    LineMarks(t, t1, c, HeaderValue);
    LineMarks(t, t3, c, TextState(l));
    NameRun(t0, l.name[1..]);
    ValueRun(t1, l.value);
    FoldsRun(t2, l.folds);
    Join(H, t, [c], HeaderName, t0, l.name[1..], HeaderName, t1);
    var b := [c] + l.name[1..];
    Join(H, t, b, HeaderName, t1, [COLON], SpaceBeforeValue, t1);
    Join(H, t, b + [COLON], SpaceBeforeValue, t1, [SP], HeaderValue, t1);
    Join(H, t, b + [COLON] + [SP], HeaderValue, t1, l.value, HeaderValue, t2);
    b := b + [COLON] + [SP] + l.value;
    Join(H, t, b, HeaderValue, t2, FoldsBytes(l.folds), TextState(l), t3);
    Join(H, t, b + FoldsBytes(l.folds), TextState(l), t3, [CR], Newline2, t3);
    Join(H, t, b + FoldsBytes(l.folds) + [CR], Newline2, t3, [LF], H, t3);
  }

  lemma AddLineIs(t: Syntax, l: Line)
    ensures AddLine(t, l) == t.(lines := t.lines + [l])
  {
  }

  lemma {:induction false} LinesRun(t: Syntax, ls: seq<Line>)
    requires t.lines == [] && ValidLines(ls)
    ensures LeadsTo(HeaderLineStart, t, LinesBytes(ls), HeaderLineStart, t.(lines := ls))
    decreases |ls|
  {
    if ls != [] {
      var init, l := ls[..|ls| - 1], ls[|ls| - 1];
      var u := t.(lines := init);
      assert ValidLines(init) && ValidLine(l);
      assert LinesBytes(ls) == LinesBytes(init) + (LineBytes(l) + CRLF);
      hide *;
      assert init + [l] == ls;
      assert AddLine(u, l) == t.(lines := ls) by { AddLineIs(u, l); }
      LinesRun(t, init);
      LineRun(u, l);
      Join(HeaderLineStart, t, LinesBytes(init), HeaderLineStart, u,
           LineBytes(l) + CRLF, HeaderLineStart, t.(lines := ls));
    }
  }

  // ----- the request line -----

  lemma TargetRun(t: Syntax)
    requires Valid(t)
    ensures LeadsTo(MethodStart, EMPTY, TargetBytes(t), VersionH, EMPTY.(verb := t.verb, uri := t.uri))
  {
    hide Decimal, HeadersOf, LeadsTo, LinesBytes, ValidLines;
    var c := t.verb[0];
    var t0, t1 := EMPTY.(verb := [c]), EMPTY.(verb := t.verb);
    var t2 := t1.(uri := t.uri);
    One(MethodStart, EMPTY, c);
    One(Method, t1, SP);
    One(Uri, t2, SP);
    assert [c] + t.verb[1..] == t.verb && [] + t.uri == t.uri && [] + [c] == [c];
    assert TargetBytes(t) == t.verb + [SP] + t.uri + [SP];
    LoopRun(Method, t0, t.verb[1..]);
    LoopRun(Uri, t1, t.uri);
    hide *;
    Join(MethodStart, EMPTY, [c], Method, t0, t.verb[1..], Method, t1);
    Join(MethodStart, EMPTY, t.verb, Method, t1, [SP], Uri, t1);
    Join(MethodStart, EMPTY, t.verb + [SP], Uri, t1, t.uri, Uri, t2);
    Join(MethodStart, EMPTY, t.verb + [SP] + t.uri, Uri, t2, [SP], VersionH, t2);
  }

  lemma SlashRun(t: Syntax)
    ensures LeadsTo(VersionH, t, HTTP_SLASH, MajorStart, t)
  {
    hide Decimal, HeadersOf, LeadsTo;
    One(VersionH, t, 72);
    One(VersionT1, t, 84);
    One(VersionT2, t, 84);
    One(VersionP, t, 80);
    One(VersionSlash, t, SLASH);
    assert HTTP_SLASH == [72] + [84] + [84] + [80] + [SLASH];
    hide *;
    Join(VersionH, t, [72], VersionT1, t, [84], VersionT2, t);
    Join(VersionH, t, [72] + [84], VersionT2, t, [84], VersionP, t);
    Join(VersionH, t, [72] + [84] + [84], VersionP, t, [80], VersionSlash, t);
    Join(VersionH, t, [72] + [84] + [84] + [80], VersionSlash, t, [SLASH], MajorStart, t);
  }

  lemma MajorMarks(t: Syntax, u: Syntax, c: byte)
    requires t.major == [] && IsDigit(c)
    ensures LeadsTo(MajorStart, t, [c], Major, t.(major := [c])) && LeadsTo(Major, u, [DOT], MinorStart, u)
  {
    hide Meaning, LeadsTo;
    assert [] + [c] == [c];
    One(MajorStart, t, c);
    One(Major, u, DOT);
  }

  lemma MinorMarks(u: Syntax, v: Syntax, d: byte)
    requires u.minor == [] && IsDigit(d)
    ensures LeadsTo(MinorStart, u, [d], Minor, u.(minor := [d])) && LeadsTo(Minor, v, [CR], Newline1, v)
    ensures LeadsTo(Newline1, v, [LF], HeaderLineStart, v)
  {
    hide Meaning, LeadsTo;
    assert [] + [d] == [d];
    One(MinorStart, u, d);
    One(Minor, v, CR);
    One(Newline1, v, LF);
  }

  lemma NumberLoops(t: Syntax, u: Syntax, major: bytes, minor: bytes)
    requires major != [] && AllDigit(major) && minor != [] && AllDigit(minor)
    ensures IsDigit(major[0]) && IsDigit(minor[0])
    ensures LeadsTo(Major, t.(major := [major[0]]), major[1..], Major, t.(major := major))
    ensures LeadsTo(Minor, u.(minor := [minor[0]]), minor[1..], Minor, u.(minor := minor))
  {
    assert [major[0]] + major[1..] == major && [minor[0]] + minor[1..] == minor;
    hide LeadsTo;
    LoopRun(Major, t.(major := [major[0]]), major[1..]);
    LoopRun(Minor, u.(minor := [minor[0]]), minor[1..]);
  }

  lemma MajorRun(t: Syntax, major: bytes)
    requires t.major == [] && major != [] && AllDigit(major)
    ensures LeadsTo(MajorStart, t, major + [DOT], MinorStart, t.(major := major))
  {
    hide *;
    var c, t1 := major[0], t.(major := major);
    NumberLoops(t, t, major, major);
    MajorMarks(t, t1, c);
    assert [c] + major[1..] == major;
    Join(MajorStart, t, [c], Major, t.(major := [c]), major[1..], Major, t1);
    Join(MajorStart, t, major, Major, t1, [DOT], MinorStart, t1);
  }

  lemma MinorRun(t: Syntax, minor: bytes)
    requires t.minor == [] && minor != [] && AllDigit(minor)
    ensures LeadsTo(MinorStart, t, minor + CRLF, HeaderLineStart, t.(minor := minor))
  {
    assert [CR] + [LF] == CRLF;
    hide *;
    var d, t1 := minor[0], t.(minor := minor);
    NumberLoops(t, t, minor, minor);
    MinorMarks(t, t1, d);
    assert [d] + minor[1..] == minor;
    Join(MinorStart, t, [d], Minor, t.(minor := [d]), minor[1..], Minor, t1);
    Join(MinorStart, t, minor, Minor, t1, [CR], Newline1, t1);
    Join(MinorStart, t, minor + [CR], Newline1, t1, [LF], HeaderLineStart, t1);
    AppendAssoc(minor, [CR], [LF]);
  }

  lemma NumbersRun(t: Syntax, major: bytes, minor: bytes)
    requires t.major == [] && t.minor == []
    requires major != [] && AllDigit(major) && minor != [] && AllDigit(minor)
    ensures LeadsTo(MajorStart, t, major + [DOT] + minor + CRLF, HeaderLineStart,
                    t.(major := major, minor := minor))
  {
    hide *;
    MajorRun(t, major);
    MinorRun(t.(major := major), minor);
    Join(MajorStart, t, major + [DOT], MinorStart, t.(major := major), minor + CRLF, HeaderLineStart,
         t.(major := major, minor := minor));
    AppendAssoc(major + [DOT], minor, CRLF);
  }

  lemma VersionSplit(t: Syntax)
    ensures VersionBytes(t) == HTTP_SLASH + (t.major + [DOT] + t.minor + CRLF)
  {
  }

  lemma RequestRun(t: Syntax)
    requires Valid(t)
    ensures LeadsTo(MethodStart, EMPTY, TargetBytes(t) + VersionBytes(t) + LinesBytes(t.lines) + [CR], Newline3, t)
  {
    var t1 := EMPTY.(verb := t.verb, uri := t.uri);
    var t2 := t.(lines := []);
    assert t1.(major := t.major, minor := t.minor) == t2 && t2.(lines := t.lines) == t;
    assert Safe(HeaderLineStart, Meaning(t)) && Grow(HeaderLineStart, t, CR) == t by { hide HeadersOf; }
    One(HeaderLineStart, t, CR);
    VersionSplit(t);
    hide LeadsTo, LinesBytes, HeadersOf, TargetBytes, VersionBytes;
    TargetRun(t);
    SlashRun(t1);
    NumbersRun(t1, t.major, t.minor);
    LinesRun(t2, t.lines);
    hide *;
    Join(VersionH, t1, HTTP_SLASH, MajorStart, t1, t.major + [DOT] + t.minor + CRLF, HeaderLineStart, t2);
    Join(MethodStart, EMPTY, TargetBytes(t), VersionH, t1, VersionBytes(t), HeaderLineStart, t2);
    Join(MethodStart, EMPTY, TargetBytes(t) + VersionBytes(t), HeaderLineStart, t2,
         LinesBytes(t.lines), HeaderLineStart, t);
    Join(MethodStart, EMPTY, TargetBytes(t) + VersionBytes(t) + LinesBytes(t.lines), HeaderLineStart, t,
         [CR], Newline3, t);
  }

  // ----- the theorems -----

  lemma RenderSplit(t: Syntax, rest: bytes)
    ensures Render(t) + rest == TargetBytes(t) + VersionBytes(t) + LinesBytes(t.lines) + [CR] + ([LF] + rest)
    ensures |Render(t)| == |TargetBytes(t) + VersionBytes(t) + LinesBytes(t.lines) + [CR]| + 1
  {
    hide TargetBytes, VersionBytes, LinesBytes;
  }

  // Completeness: every rendering is accepted, to its end, whatever follows it.
  lemma Complete(t: Syntax, rest: bytes)
    requires Valid(t)
    ensures Parse(MethodStart, Meaning(EMPTY), Render(t) + rest)
         == Outcome(True, |Render(t)|, Newline3, Meaning(t))
    ensures TreeOf(MethodStart, EMPTY, Render(t) + rest) == t
  {
    var a := TargetBytes(t) + VersionBytes(t) + LinesBytes(t.lines) + [CR];
    RequestRun(t);
    RenderSplit(t, rest);
    assert Shaped(MethodStart, EMPTY);
    Follow(MethodStart, EMPTY, a, Newline3, t, [LF] + rest);
    assert Parse(Newline3, Meaning(t), [LF] + rest) == Outcome(True, 1, Newline3, Meaning(t));
    assert TreeOf(Newline3, t, [LF] + rest) == t;
  }

  // The version numbers of a blank request are uninitialised, and do not matter.
  lemma {:induction false} VersionIrrelevant(s: State, q: Fields, r: Fields, b: bytes)
    requires Safe(s, q) && Rank(s) < 4 && r == q.(major := r.major, minor := r.minor)
    ensures var o, p := Parse(s, q, b), Parse(s, r, b);
            o.result == p.result && o.consumed == p.consumed && o.state == p.state
            && (o.result == True ==> o.fields == p.fields)
    decreases b
  {
    if b != [] {
      var n, m := Next(s, q, b[0]), Next(s, r, b[0]);
      assert n.state == m.state && n.result == m.result && n.result != True;
      if n.result == Indeterminate {
        if Rank(n.state) < 4 {
          VersionIrrelevant(n.state, n.fields, m.fields, b[1..]);
        } else {
          assert n.fields == m.fields;
        }
      }
    }
  }

  // Soundness: an accepted request is the rendering of the tree the parser built.
  lemma Sound(q: Fields, b: bytes)
    requires Blank(q) && Parse(MethodStart, q, b).result == True
    ensures var o := Parse(MethodStart, q, b);
            var t := TreeOf(MethodStart, EMPTY, b);
            Valid(t) && Render(t) == b[..o.consumed] && o.fields == Meaning(t) && o.state == Newline3
  {
    VersionIrrelevant(MethodStart, q, Meaning(EMPTY), b);
    SoundLine(MethodStart, EMPTY, b);
    assert ReadLine(MethodStart, EMPTY) == [];
  }

  // The language of the request parser. A fresh parser on a blank request accepts exactly when
  // a rendered tree is a prefix of the input; the tree is unique, the parser stops at its
  // end, and the request is what the tree means. In particular no accepted request is a
  // proper prefix of another.
  lemma Language(q: Fields, b: bytes)
    requires Blank(q)
    ensures var o := Parse(MethodStart, q, b);
            && (o.result == True <==> exists t :: Valid(t) && Render(t) <= b)
            && (forall t :: Valid(t) && Render(t) <= b ==>
                  t == TreeOf(MethodStart, EMPTY, b) && o.consumed == |Render(t)| && o.fields == Meaning(t))
  {
    var o := Parse(MethodStart, q, b);
    if o.result == True {
      Sound(q, b);
    }
    forall t | Valid(t) && Render(t) <= b
      ensures o.result == True && t == TreeOf(MethodStart, EMPTY, b)
      ensures o.consumed == |Render(t)| && o.fields == Meaning(t)
    {
      var rest := b[|Render(t)|..];
      assert b == Render(t) + rest;
      Complete(t, rest);
      VersionIrrelevant(MethodStart, q, Meaning(EMPTY), b);
    }
  }

  // A header section rendered from lines is accepted on its own.
  lemma SectionAccepted(ls: seq<Line>, rest: bytes)
    requires ValidLines(ls)
    ensures var o := Parse(HeaderLineStart, Meaning(EMPTY), LinesBytes(ls) + CRLF + rest);
            o.result == True && o.fields.headers == HeadersOf(ls)
  {
    hide HeadersOf, LinesBytes;
    var t := EMPTY.(lines := ls);
    LinesRun(EMPTY, ls);
    One(HeaderLineStart, t, CR);
    var a := LinesBytes(ls);
    Join(HeaderLineStart, EMPTY, a, HeaderLineStart, t, [CR], Newline3, t);
    Follow(HeaderLineStart, EMPTY, a + [CR], Newline3, t, [LF] + rest);
    LineFeedEnds(t, rest);
    AppendAssoc(a + [CR], [LF], rest);
    assert a + [CR] + [LF] == a + CRLF;
  }

  lemma LineFeedEnds(t: Syntax, rest: bytes)
    ensures Parse(Newline3, Meaning(t), [LF] + rest) == Outcome(True, 1, Newline3, Meaning(t))
    ensures Meaning(t).headers == HeadersOf(t.lines)
  {
    hide HeadersOf;
  }
}
