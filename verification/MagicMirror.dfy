/** Searching backward with the mirrored program finds exactly the matches of the forward program. */
module MagicMirror {
  import opened Bytes
  import opened CircularText
  import opened MagicMatch
  import opened MagicScan

  /** A pattern cut in two spans what its parts span one after the other. */
  lemma {:induction false} SpansSplits(r: Ring, dir: Direction, a: Program, b: Program, p: Cursor, q: Cursor)
    requires On(r, p)
    ensures Spans(r, dir, a + b, p, q) <==> exists m :: On(r, m) && Spans(r, dir, a, p, m) && Spans(r, dir, b, m, q)
    decreases |a|
  {
    if a == [] {
      assert a + b == b;
    } else {
      assert (a + b)[0] == a[0] && (a + b)[1..] == a[1..] + b;
      match a[0]
      case Bol => SpansSplits(r, dir, a[1..], b, p, q);
      case Eol => SpansSplits(r, dir, a[1..], b, p, q);
      case One(at) => SpansSplits(r, dir, a[1..], b, Step(r, dir, p), q);
      case Star(at) =>
        forall k: nat {
          SpansSplits(r, dir, a[1..], b, Advance(r, dir, p, k), q);
        }
        if Spans(r, dir, a + b, p, q) {
          var k: nat :| Run(r, dir, at, p, k) && Spans(r, dir, a[1..] + b, Advance(r, dir, p, k), q);
          var m :| On(r, m) && Spans(r, dir, a[1..], Advance(r, dir, p, k), m) && Spans(r, dir, b, m, q);
          assert Spans(r, dir, a, p, m);
        }
        forall m | On(r, m) && Spans(r, dir, a, p, m) && Spans(r, dir, b, m, q) ensures Spans(r, dir, a + b, p, q) {
          var k: nat :| Run(r, dir, at, p, k) && Spans(r, dir, a[1..], Advance(r, dir, p, k), m);
          assert Spans(r, dir, a[1..] + b, Advance(r, dir, p, k), q);
        }
    }
  }

  /** A closure run read backward is the same run. */
  lemma {:induction false} RunFlips(r: Ring, dir: Direction, a: Atom, p: Cursor, k: nat)
    requires On(r, p) && Run(r, dir, a, p, k)
    ensures Run(r, Opposite(dir), a, Advance(r, dir, p, k), k)
    ensures Advance(r, Opposite(dir), Advance(r, dir, p, k), k) == p
    decreases k
  {
    if k > 0 {
      var s := Step(r, dir, p);
      RunFlips(r, dir, a, s, k - 1);
      StepsAreInverse(r, dir, p);
      RunExtends(r, Opposite(dir), a, Advance(r, dir, p, k), k - 1);
    }
  }

  /** A run can be extended at its far end. */
  lemma {:induction false} RunExtends(r: Ring, dir: Direction, a: Atom, p: Cursor, k: nat)
    requires On(r, p) && Run(r, dir, a, p, k) && Takes(r, dir, a, Advance(r, dir, p, k))
    ensures Run(r, dir, a, p, k + 1)
    ensures Advance(r, dir, p, k + 1) == Step(r, dir, Advance(r, dir, p, k))
    decreases k
  {
    if k > 0 {
      RunExtends(r, dir, a, Step(r, dir, p), k - 1);
    }
  }

  lemma ElementFlips(r: Ring, dir: Direction, e: Elem, p: Cursor, q: Cursor)
    requires On(r, p) && On(r, q) && Spans(r, dir, [e], p, q)
    ensures Spans(r, Opposite(dir), [e], q, p)
  {
    match e
    case Bol =>
    case Eol =>
    case One(a) => StepsAreInverse(r, dir, p);
    case Star(a) =>
      var k: nat :| Run(r, dir, a, p, k) && Spans(r, dir, [e][1..], Advance(r, dir, p, k), q);
      RunFlips(r, dir, a, p, k);
  }

  /** Every match of a program, walked the other way, is a match of its mirror. */
  lemma {:induction false} MirrorSpans(r: Ring, dir: Direction, prog: Program, p: Cursor, q: Cursor)
    requires On(r, p) && On(r, q)
    requires Spans(r, dir, prog, p, q)
    ensures Spans(r, Opposite(dir), Mirror(prog), q, p)
    decreases |prog|
  {
    if prog != [] {
      var e, rest := [prog[0]], prog[1..];
      assert prog == e + rest && Mirror(prog) == Mirror(rest) + e;
      SpansSplits(r, dir, e, rest, p, q);
      var m :| On(r, m) && Spans(r, dir, e, p, m) && Spans(r, dir, rest, m, q);
      ElementFlips(r, dir, prog[0], p, m);
      MirrorSpans(r, dir, rest, m, q);
      SpansSplits(r, Opposite(dir), Mirror(rest), e, q, p);
    } else {
      assert Mirror(prog) == [];
    }
  }

  /** Reversal preserves meaning: the mirrored program leads back from `q` to `p` iff the forward
      program has a match from `p` to `q`. */
  lemma ReversalPreservesMeaning(r: Ring, prog: Program, p: Cursor, q: Cursor)
    requires On(r, p) && On(r, q)
    ensures Spans(r, Reverse, Mirror(prog), q, p) <==> Spans(r, Forward, prog, p, q)
  {
    if Spans(r, Forward, prog, p, q) {
      MirrorSpans(r, Forward, prog, p, q);
    }
    if Spans(r, Reverse, Mirror(prog), q, p) {
      MirrorSpans(r, Reverse, Mirror(prog), q, p);
      assert Mirror(Mirror(prog)) == prog;
    }
  }

  lemma {:induction false} SpansStaysOn(r: Ring, dir: Direction, prog: Program, p: Cursor, q: Cursor)
    requires On(r, p) && Spans(r, dir, prog, p, q)
    ensures On(r, q)
    decreases |prog|
  {
    if prog != [] {
      match prog[0]
      case Bol => SpansStaysOn(r, dir, prog[1..], p, q);
      case Eol => SpansStaysOn(r, dir, prog[1..], p, q);
      case One(a) => SpansStaysOn(r, dir, prog[1..], Step(r, dir, p), q);
      case Star(a) =>
        var k: nat :| Run(r, dir, a, p, k) && Spans(r, dir, prog[1..], Advance(r, dir, p, k), q);
        SpansStaysOn(r, dir, prog[1..], Advance(r, dir, p, k), q);
    }
  }

  /** The mirror matches backward from `q` iff some forward match ends at `q`. */
  lemma MirrorMatchesAt(r: Ring, prog: Program, q: Cursor)
    requires On(r, q)
    ensures MatchesAt(r, Reverse, Mirror(prog), q) <==> EndsMatch(r, prog, q)
  {
    forall p | On(r, p) {
      ReversalPreservesMeaning(r, prog, p, q);
    }
    forall p | Spans(r, Reverse, Mirror(prog), q, p) ensures On(r, p) {
      SpansStaysOn(r, Reverse, Mirror(prog), q, p);
    }
  }

  /** Some match of the forward pattern ends at `q`. */
  ghost predicate EndsMatch(r: Ring, prog: Program, q: Cursor) {
    exists p :: On(r, p) && Spans(r, Forward, prog, p, q)
  }

  /** `backsearch` in MAGIC mode: search with the mirrored program, leaving dot at the beginning. */
  method BackSearch(s: Searcher, prog: Program) returns (ok: bool)
    requires s.Valid() && WellPlaced(prog)
    modifies s
    ensures s.Valid()
    // it succeeds iff the forward pattern has a match that ends at some visited position
    ensures ok <==> exists q :: InScan(s.text, Reverse, old(s.dot), q) && EndsMatch(s.text, prog, q)
    // and then dot starts such a match, ending as close before the old dot as any does
    ensures ok ==> InScan(s.text, Reverse, old(s.dot), s.found) && Spans(s.text, Forward, prog, s.dot, s.found)
    ensures ok ==> forall q :: InScan(s.text, Reverse, old(s.dot), q) && EndsMatch(s.text, prog, q) ==> !Before(s.found, q)
    ensures !ok ==> s.dot == old(s.dot)
  {
    hide MatchesAt, EndsMatch, LongestFirst, Spans, Mirror, Placed, WellPlaced, Passed, Step;
    MirrorIsPlaced(prog);
    MirrorEverywhere(s.text, prog);
    ok := s.McScanner(Mirror(prog), Reverse, PtBeg);
    if ok {
      FoundSpans(s.text, prog, s.found, s.dot);
    }
  }

  lemma MirrorIsPlaced(prog: Program)
    requires WellPlaced(prog)
    ensures Placed(Reverse, Mirror(prog))
  {
    assert Mirror(Mirror(prog)) == prog;
  }

  lemma MirrorEverywhere(r: Ring, prog: Program)
    ensures forall q :: On(r, q) ==> (MatchesAt(r, Reverse, Mirror(prog), q) <==> EndsMatch(r, prog, q))
  {
    hide MatchesAt, EndsMatch, Mirror;
    forall q | On(r, q) ensures MatchesAt(r, Reverse, Mirror(prog), q) <==> EndsMatch(r, prog, q) {
      MirrorMatchesAt(r, prog, q);
    }
  }

  /** The longest-first match of the mirror is a match of the pattern from its end to its start. */
  lemma FoundSpans(r: Ring, prog: Program, found: Cursor, dot: Cursor)
    requires On(r, found) && LongestFirst(r, Reverse, Mirror(prog), found, dot)
    ensures On(r, dot) && Spans(r, Forward, prog, dot, found)
  {
    hide LongestFirst, Spans, Mirror, Greedy;
    GreedyIsLongestFirst(r, Reverse, Mirror(prog), found);
    SpansStaysOn(r, Reverse, Mirror(prog), found, dot);
    ReversalPreservesMeaning(r, prog, dot, found);
  }
}
