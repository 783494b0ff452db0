/** What patterns mean, in byte values and places of the text: the elements one by one, the reading
    of the characters that stand for them, and a forward search. */
module MagicMeaning {
  import opened Bytes
  import opened CircularText
  import opened MagicMatch
  import opened MagicScan
  import opened MagicMirror
  import opened MagicCompile
  import Text
  import TextEdits

  // ---- One element, one character ----

  /** An upper-case letter and the lower-case one 32 above it, in either order. */
  predicate Twins(c: Byte, d: Byte, upTo: Byte) {
    || (d == c + 32 && (65 <= c <= 90 || 192 <= c <= upTo))
    || (c == d + 32 && (65 <= d <= 90 || 192 <= d <= upTo))
  }

  lemma OneTakes(r: Ring, dir: Direction, a: Atom, p: Cursor)
    requires On(r, p)
    ensures MatchesAt(r, dir, [One(a)], p) <==> Mceq(r.exact, Passed(r, dir, p), a)
    ensures forall q :: Spans(r, dir, [One(a)], p, q) ==> q == Step(r, dir, p)
  {
    var q := Step(r, dir, p);
    assert [One(a)][1..] == [];
    assert Spans(r, dir, [One(a)], p, q) <==> Mceq(r.exact, Passed(r, dir, p), a);
  }

  /** A class takes its members and, when case does not matter, the ASCII letters whose other case
      is a member; a negated class takes exactly what the class does not. */
  lemma ClassTakes(r: Ring, dir: Direction, m: set<Byte>, p: Cursor)
    requires On(r, p)
    ensures var c := Passed(r, dir, p);
      MatchesAt(r, dir, [One(Ccl(m))], p)
      <==> (c in m || (!r.exact && ((65 <= c <= 90 && c + 32 in m) || (97 <= c <= 122 && c - 32 in m))))
    ensures MatchesAt(r, dir, [One(Nccl(m))], p) <==> !MatchesAt(r, dir, [One(Ccl(m))], p)
  {
    OneTakes(r, dir, Ccl(m), p);
    OneTakes(r, dir, Nccl(m), p);
  }

  /** Any character but the end of a line; and a literal, which when case does not matter also takes
      its other case, Latin-1 included. */
  lemma CharacterTakes(r: Ring, dir: Direction, ch: Byte, p: Cursor)
    requires On(r, p)
    ensures MatchesAt(r, dir, [One(Any)], p) <==> Passed(r, dir, p) != 10
    ensures var c := Passed(r, dir, p);
      MatchesAt(r, dir, [One(Lit(ch))], p) <==> (c == ch || (!r.exact && Twins(c, ch, 220)))
  {
    OneTakes(r, dir, Any, p);
    OneTakes(r, dir, Lit(ch), p);
  }

  // ---- A whole pattern ----

  /** What a pattern spans, element by element: the tests look at the offset, a character moves one
      step, and a closure takes as many characters as it likes that are no line ends. */
  lemma SpansMeaning(r: Ring, dir: Direction, a: Atom, rest: Program, p: Cursor, q: Cursor)
    requires On(r, p)
    ensures Spans(r, dir, [], p, q) <==> p == q
    ensures Spans(r, dir, [Bol] + rest, p, q) <==> p.off == 0 && Spans(r, dir, rest, p, q)
    ensures Spans(r, dir, [Eol] + rest, p, q) <==> p.off == |r.lines[p.line]| && Spans(r, dir, rest, p, q)
    ensures Spans(r, dir, [One(a)] + rest, p, q)
       <==> MatchesAt(r, dir, [One(a)], p) && Spans(r, dir, rest, Step(r, dir, p), q)
    ensures Spans(r, dir, [Star(a)] + rest, p, q)
       <==> (Spans(r, dir, rest, p, q)
             || (Passed(r, dir, p) != 10 && MatchesAt(r, dir, [One(a)], p)
                 && Spans(r, dir, [Star(a)] + rest, Step(r, dir, p), q)))
  {
    OneTakes(r, dir, a, p);
    assert ([Bol] + rest)[1..] == rest && ([Eol] + rest)[1..] == rest && ([One(a)] + rest)[1..] == rest;
    ClosureUnfolds(r, dir, a, rest, p, q);
  }

  lemma ClosureUnfolds(r: Ring, dir: Direction, a: Atom, rest: Program, p: Cursor, q: Cursor)
    requires On(r, p)
    ensures Spans(r, dir, [Star(a)] + rest, p, q)
       <==> (Spans(r, dir, rest, p, q) || (Takes(r, dir, a, p) && Spans(r, dir, [Star(a)] + rest, Step(r, dir, p), q)))
  {
    var prog, s := [Star(a)] + rest, Step(r, dir, p);
    assert prog[0] == Star(a) && prog[1..] == rest;
    if Spans(r, dir, prog, p, q) {
      var k: nat :| Run(r, dir, a, p, k) && Spans(r, dir, rest, Advance(r, dir, p, k), q);
      if k > 0 {
        assert Run(r, dir, a, s, k - 1) && Advance(r, dir, s, k - 1) == Advance(r, dir, p, k);
      }
    }
    if Spans(r, dir, rest, p, q) {
      assert Run(r, dir, a, p, 0) && Advance(r, dir, p, 0) == p;
    }
    if Takes(r, dir, a, p) && Spans(r, dir, prog, s, q) {
      var k: nat :| Run(r, dir, a, s, k) && Spans(r, dir, rest, Advance(r, dir, s, k), q);
      assert Run(r, dir, a, p, k + 1) && Advance(r, dir, p, k + 1) == Advance(r, dir, s, k);
    }
  }

  /** The text of a ring: its lines without the header. */
  function TextOf(r: Ring): Text.Lines {
    r.lines[..|r.lines| - 1]
  }

  function Place(c: Cursor): Text.Pos {
    Text.Pos(c.line, c.off)
  }

  /** Read forward from a place in the text, the ring gives the bytes of the text one by one, and
      behind the last newline stands the header. */
  lemma ReadsText(r: Ring, p: Cursor)
    requires On(r, p) && p.line < |r.lines| - 1
    ensures var (t, q) := (TextOf(r), Step(r, Forward, p));
      && Text.OkPos(t, Place(p)) && Text.OkPos(t, Place(q))
      && Text.Linear(t, Place(p)) < |Text.Flat(t)|
      && Passed(r, Forward, p) == Text.Flat(t)[Text.Linear(t, Place(p))]
      && Text.Linear(t, Place(q)) == Text.Linear(t, Place(p)) + 1
  {
    var t := TextOf(r);
    Text.FlatAround(t, p.line);
    if p.off == |r.lines[p.line]| {
      var upTo: Text.Lines := t[..p.line + 1];
      Text.FlatAround(upTo, p.line);
      assert upTo[..p.line] == t[..p.line] && |upTo[p.line + 1..]| == 0;
    }
  }

  // ---- Plain text as a pattern ----

  function Literals(s: seq<Byte>): (prog: Program)
    ensures |prog| == |s| && forall i :: 0 <= i < |s| ==> prog[i] == One(Lit(s[i]))
  {
    seq(|s|, i requires 0 <= i < |s| => One(Lit(s[i])))
  }

  /** In a buffer where case matters, plain text matches where the text has just these bytes, and the
      match ends behind them. */
  lemma {:induction false} LiteralsSpan(r: Ring, s: seq<Byte>, p: Cursor, q: Cursor)
    requires r.exact && On(r, p) && Text.OkPos(TextOf(r), Place(p))
    requires Text.Linear(TextOf(r), Place(p)) + |s| <= |Text.Flat(TextOf(r))|
    ensures var (t, at) := (TextOf(r), Text.Linear(TextOf(r), Place(p)));
      Spans(r, Forward, Literals(s), p, q)
      <==> (On(r, q) && Text.Flat(t)[at..at + |s|] == s && Text.Linear(t, Place(q)) == at + |s|)
    decreases |s|
  {
    hide Spans, MatchesAt, Text.Flat, Text.Linear, Step, Passed;
    var t := TextOf(r);
    var f, at := Text.Flat(t), Text.Linear(t, Place(p));
    if s == [] {
      assert Literals(s) == [];
      SpansMeaning(r, Forward, Any, [], p, q);
      SamePlace(r, p, q);
    } else {
      Text.NotAtEnd(t, Place(p));
      ReadsText(r, p);
      assert Literals(s) == [One(Lit(s[0]))] + Literals(s[1..]);
      SpansMeaning(r, Forward, Lit(s[0]), Literals(s[1..]), p, q);
      CharacterTakes(r, Forward, s[0], p);
      LiteralsSpan(r, s[1..], Step(r, Forward, p), q);
      StretchAt(f, at, s);
    }
  }

  lemma StretchAt(f: seq<Byte>, at: nat, s: seq<Byte>)
    requires s != [] && at + |s| <= |f|
    ensures f[at..at + |s|] == s <==> f[at] == s[0] && f[at + 1..at + 1 + |s[1..]|] == s[1..]
  {
    assert f[at..at + |s|] == [f[at]] + f[at + 1..at + |s|] && s == [s[0]] + s[1..];
  }

  /** Two places with as many bytes before them are one. */
  lemma SamePlace(r: Ring, p: Cursor, q: Cursor)
    requires On(r, p)
    ensures p == q <==> On(r, q) && Text.Linear(TextOf(r), Place(p)) == Text.Linear(TextOf(r), Place(q))
  {
    if On(r, q) {
      TextEdits.LinearOrder(TextOf(r), Place(p), Place(q));
      TextEdits.LinearOrder(TextOf(r), Place(q), Place(p));
    }
  }

  // ---- Searching forward ----

  /** The places a forward search from `dot` tries: from dot to before the end of the last line; from
      the header line dot itself and then the text from its start. */
  predicate Tried(r: Ring, dot: Cursor, p: Cursor) {
    var h := |r.lines| - 1;
    && h > 0 && On(r, p)
    && if p.line == h then p == dot
       else (dot.line == h || p.line > dot.line || (p.line == dot.line && p.off >= dot.off))
            && !(p.line == h - 1 && p.off == |r.lines[h - 1]|)
  }

  /** One MAGIC pass of `forwsearch`: search for the pattern, leaving dot behind it. */
  method ForwSearch(s: Searcher, prog: Program) returns (ok: bool)
    requires s.Valid() && WellPlaced(prog)
    modifies s
    ensures s.Valid()
    ensures ok <==> exists p :: Tried(s.text, old(s.dot), p) && MatchesAt(s.text, Forward, prog, p)
    // the match found starts before every other, or at dot on the header line
    ensures ok ==> Tried(s.text, old(s.dot), s.found)
    ensures ok ==> forall p :: Tried(s.text, old(s.dot), p) && MatchesAt(s.text, Forward, prog, p) ==>
        s.found == old(s.dot) || s.found.line < p.line || (s.found.line == p.line && s.found.off <= p.off)
    // dot is left at its end, after as many characters as the closures can take
    ensures ok ==> Spans(s.text, Forward, prog, s.found, s.dot) && LongestFirst(s.text, Forward, prog, s.found, s.dot)
    ensures !ok ==> s.dot == old(s.dot)
  {
    hide MatchesAt, LongestFirst, Spans;
    TriedIsScan(s.text, s.dot);
    ok := s.McScanner(prog, Forward, PtEnd);
    if ok {
      GreedyIsLongestFirst(s.text, Forward, prog, s.found);
    }
  }

  lemma TriedIsScan(r: Ring, dot: Cursor)
    requires On(r, dot)
    ensures forall p :: Tried(r, dot, p) <==> InScan(r, Forward, dot, p)
  {
  }

  // ---- How the characters of a pattern are read ----

  /** Text without any of `$*.[\^` is a pattern for itself. */
  lemma PlainPattern(s: seq<Byte>)
    requires forall i :: 0 <= i < |s| ==> s[i] !in {36, 42, 46, 91, 92, 94}
    ensures Compile(s) == Some(Literals(s))
  {
    PlainRest(s, []);
    assert [] + Literals(s) == Literals(s);
  }

  lemma {:induction false} PlainRest(s: seq<Byte>, prog: Program)
    requires forall i :: 0 <= i < |s| ==> s[i] !in {36, 42, 46, 91, 92, 94}
    ensures CompileRest(s, prog) == Some(prog + Literals(s))
    decreases |s|
  {
    if s == [] {
      assert prog + Literals(s) == prog;
    } else {
      PlainRest(s[1..], prog + [One(Lit(s[0]))]);
      assert prog + [One(Lit(s[0]))] + Literals(s[1..]) == prog + Literals(s);
    }
  }

  /** A class without ranges or escapes holds the bytes that are written in it. */
  lemma PlainClass(s: seq<Byte>)
    requires s != [] && 93 !in s && 45 !in s && 92 !in s
    ensures s[0] != 94 ==> Compile([91] + s + [93]) == Some([One(Ccl(set c | c in s))])
    ensures Compile([91, 94] + s + [93]) == Some([One(Nccl(set c | c in s))])
  {
    hide Compile, ClassFirst;
    var body, members := s + [93], set c | c in s;
    PlainBody(s);
    if s[0] != 94 {
      ClassAlone([91], body, members);
      assert [91] + s + [93] == [91] + body;
    }
    ClassAlone([91, 94], body, members);
    assert [91, 94] + s + [93] == [91, 94] + body;
  }

  lemma PlainBody(s: seq<Byte>)
    requires s != [] && 93 !in s && 45 !in s && 92 !in s
    ensures var c := ClassFirst(s + [93]);
      c.Some? && c.value.0 == (set c | c in s) && |c.value.1| == 0
  {
    var body := s + [93];
    assert s == [s[0]] + s[1..] && body[1..] == s[1..] + [93];
    PlainItems(s[1..], {s[0]}, s[0]);
    assert {s[0]} + (set c | c in s[1..]) == (set c | c in s);
  }

  /** A pattern that is one class. */
  lemma ClassAlone(open: seq<Byte>, body: seq<Byte>, members: set<Byte>)
    requires open == [91, 94] || (open == [91] && body != [] && body[0] != 94)
    requires ClassFirst(body).Some? && ClassFirst(body).value.0 == members && |ClassFirst(body).value.1| == 0
    ensures Compile(open + body) == Some([One(if |open| == 2 then Nccl(members) else Ccl(members))])
  {
    ClassOpens(open, body);
    var none: seq<Byte>, a := ClassFirst(body).value.1, if |open| == 2 then Nccl(members) else Ccl(members);
    assert CompileRest(none, [One(a)]) == Some([One(a)]);
    assert [] + [One(a)] == [One(a)];
  }

  lemma {:induction false} PlainItems(s: seq<Byte>, members: set<Byte>, last: Byte)
    requires 93 !in s && 45 !in s && 92 !in s
    ensures var c := ClassRest(s + [93], members, last);
      c.Some? && c.value.0 == members + (set c | c in s) && |c.value.1| == 0
    decreases |s|
  {
    var body := s + [93];
    if s == [] {
      assert members + (set c | c in s) == members;
    } else {
      assert body[1..] == s[1..] + [93];
      PlainItems(s[1..], members + {s[0]}, s[0]);
      assert members + {s[0]} + (set c | c in s[1..]) == members + (set c | c in s);
    }
  }

  /** A range holds both its ends and what lies between them, bytes from 128 on counting as negative. */
  lemma RangeClass(lo: Byte, hi: Byte) returns (m: set<Byte>)
    requires lo !in {92, 93, 94} && hi != 93
    ensures Compile([91, lo, 45, hi, 93]) == Some([One(Ccl(m))])
    ensures forall c: Byte :: c in m <==>
        c == lo || ((if lo < 128 then lo + 256 else lo) < (if c < 128 then c + 256 else c) <= (if hi < 128 then hi + 256 else hi))
  {
    m := {lo} + RangeAfter(lo, hi);
    var body, none: seq<Byte> := [lo, 45, hi, 93], [];
    assert body[1..] == [45, hi, 93] && body[1..][2..] == [93];
    assert ClassRest([93], m, hi) == Some((m, none));
    ClassAlone([91], body, m);
    assert [91, lo, 45, hi, 93] == [91] + body;
  }

  /** The characters with a meaning of their own where they stand, and the backslash that takes it away. */
  lemma MetaCharacters(c: Byte, d: Byte)
    requires c !in {36, 42, 46, 91, 92, 94}
    ensures Compile([46]) == Some([One(Any)]) && Compile([94]) == Some([Bol]) && Compile([36]) == Some([Eol])
    ensures Compile([c]) == Some([One(Lit(c))]) && Compile([42]) == Some([One(Lit(42))])
    ensures Compile([94, c]) == Some([Bol, One(Lit(c))]) && Compile([c, 94]) == Some([One(Lit(c)), One(Lit(94))])
    ensures Compile([c, 36]) == Some([One(Lit(c)), Eol]) && Compile([36, c]) == Some([One(Lit(36)), One(Lit(c))])
    ensures c != 10 ==> Compile([c, 42]) == Some([Star(Lit(c))])
    ensures Compile([92]) == Some([One(Lit(92))]) && Compile([92, d]) == Some([One(Lit(d))])
  {
    hide CompileRest;
    Sole(46);
    Sole(94);
    Sole(36);
    Sole(c);
    Sole(42);
    Sole(92);
    Couple(94, c);
    Couple(c, 94);
    Couple(c, 36);
    Couple(36, c);
    Couple(c, 42);
    Couple(92, d);
  }

  lemma Sole(c: Byte)
    requires c != 91
    ensures Compile([c]) == Some([if c == 94 then Bol else if c == 36 then Eol else if c == 46 then One(Any) else One(Lit(c))])
  {
    hide CompileRest;
    var none: Program := [];
    LastRead(c, none);
    assert none + [Eol] == [Eol] && none + [One(Any)] == [One(Any)] && none + [One(Lit(c))] == [One(Lit(c))];
  }

  lemma Couple(c: Byte, d: Byte)
    requires c !in {46, 91} && (c != 92 ==> d !in {46, 91})
    ensures c == 92 ==> Compile([c, d]) == Some([One(Lit(d))])
    ensures c == 94 && d !in {36, 42, 46} ==> Compile([c, d]) == Some([Bol, One(Lit(d))])
    ensures c !in {92, 94} && d == 36 ==> Compile([c, d]) == Some([One(Lit(c)), Eol])
    ensures c !in {10, 92, 94} && d == 42 ==> Compile([c, d]) == Some([Star(Lit(c))])
    ensures c !in {92, 94} && d !in {36, 42, 46} ==> Compile([c, d]) == Some([One(Lit(c)), One(Lit(d))])
  {
    hide CompileRest;
    FirstRead(c, d);
    if c != 92 {
      var e := if c == 94 then Bol else One(Lit(c));
      LastRead(d, [e]);
      assert [e] + [Eol] == [e, Eol] && [e] + [One(Lit(d))] == [e, One(Lit(d))];
      assert [One(Lit(c))][..0] + [Star(Lit(c))] == [Star(Lit(c))];
    }
  }

  lemma LastRead(c: Byte, prog: Program)
    requires c != 91
    ensures CompileRest([c], prog) == Some(
      if c == 94 && prog == [] then [Bol]
      else if c == 36 then prog + [Eol]
      else if c == 46 then prog + [One(Any)]
      else if c == 42 && MayClose(prog) then Enclose(prog)
      else prog + [One(Lit(c))])
  {
    assert |[c][1..]| == 0;
  }

  lemma FirstRead(c: Byte, d: Byte)
    requires c !in {46, 91}
    ensures Compile([c, d]) ==
      if c == 92 then Some([One(Lit(d))]) else CompileRest([d], [if c == 94 then Bol else One(Lit(c))])
  {
    var none: Program := [];
    assert [c, d][1..] == [d] && |[c, d][2..]| == 0;
    if c == 92 {
      assert CompileRest([c, d], none) == CompileRest([c, d][2..], none + [One(Lit(d))]);
      assert none + [One(Lit(d))] == [One(Lit(d))];
    } else {
      assert CompileRest([c, d], none) == CompileRest([d], if c == 94 then [Bol] else none + [One(Lit(c))]);
      assert none + [One(Lit(c))] == [One(Lit(c))];
    }
  }
}
