/** MAGIC patterns: what they mean, the greedy order in which matches are tried, and the
    backtracking matcher of search.c proved against both. */
module MagicMatch {
  import opened Bytes
  import opened CircularText

  /** The part of `struct magic` compared with one character. */
  datatype Atom =
    | Lit(ch: Byte)
    | Any
    | Ccl(members: set<Byte>)
    | Nccl(members: set<Byte>)

  /** `struct magic`; `Star` is an element with the CLOSURE bit set. The end of the sequence plays MCNIL. */
  datatype Elem = Bol | Eol | One(atom: Atom) | Star(atom: Atom)

  type Program = seq<Elem>

  /** `mceq`: does a character match one element? */
  predicate Mceq(exact: bool, bc: Byte, a: Atom) {
    match a
    case Lit(ch) => Eq(exact, bc, ch)
    case Any => bc != NEWLINE
    case Ccl(m) => bc in m || (!exact && IsLetter(bc) && ToggleCase(bc) in m)
    case Nccl(m) => bc !in m && (!exact && IsLetter(bc) ==> ToggleCase(bc) !in m)
  }

  // ---- Meaning: a pattern relates the two ends of the text it spans ----

  /** The cursor `k` steps on. */
  function Advance(r: Ring, dir: Direction, p: Cursor, k: nat): (q: Cursor)
    requires On(r, p)
    ensures On(r, q)
    decreases k
  {
    if k == 0 then p else Advance(r, dir, Step(r, dir, p), k - 1)
  }

  /** The next `k` characters can be swallowed by a closure of `a`, which never takes a newline. */
  predicate Run(r: Ring, dir: Direction, a: Atom, p: Cursor, k: nat)
    requires On(r, p)
    decreases k
  {
    k == 0 || (Takes(r, dir, a, p) && Run(r, dir, a, Step(r, dir, p), k - 1))
  }

  predicate Takes(r: Ring, dir: Direction, a: Atom, p: Cursor)
    requires On(r, p)
  {
    Passed(r, dir, p) != NEWLINE && Mceq(r.exact, Passed(r, dir, p), a)
  }

  /** Some way of repeating the closures takes `prog`, walked in direction `dir`, from `p` to `q`. */
  ghost predicate Spans(r: Ring, dir: Direction, prog: Program, p: Cursor, q: Cursor)
    requires On(r, p)
    decreases |prog|
  {
    if prog == [] then p == q
    else
      match prog[0]
      case Bol => AtLineStart(p) && Spans(r, dir, prog[1..], p, q)
      case Eol => AtLineEnd(r, p) && Spans(r, dir, prog[1..], p, q)
      case One(a) => Mceq(r.exact, Passed(r, dir, p), a) && Spans(r, dir, prog[1..], Step(r, dir, p), q)
      case Star(a) => exists k: nat :: Run(r, dir, a, p, k) && Spans(r, dir, prog[1..], Advance(r, dir, p, k), q)
  }

  /** There is a match anchored at `p`. */
  ghost predicate MatchesAt(r: Ring, dir: Direction, prog: Program, p: Cursor)
    requires On(r, p)
  {
    exists q :: Spans(r, dir, prog, p, q)
  }

  /** As `Spans`, with the number of repetitions of each closure spelled out from left to right. */
  predicate SpansWith(r: Ring, dir: Direction, prog: Program, p: Cursor, ks: seq<nat>, q: Cursor)
    requires On(r, p)
    decreases |prog|
  {
    if prog == [] then p == q && ks == []
    else
      match prog[0]
      case Bol => AtLineStart(p) && SpansWith(r, dir, prog[1..], p, ks, q)
      case Eol => AtLineEnd(r, p) && SpansWith(r, dir, prog[1..], p, ks, q)
      case One(a) => Mceq(r.exact, Passed(r, dir, p), a) && SpansWith(r, dir, prog[1..], Step(r, dir, p), ks, q)
      case Star(a) =>
        ks != [] && Run(r, dir, a, p, ks[0]) && SpansWith(r, dir, prog[1..], Advance(r, dir, p, ks[0]), ks[1..], q)
  }

  /** Lexicographic order on equally long vectors of repetition counts. */
  predicate LexLeq(a: seq<nat>, b: seq<nat>) {
    if a == [] || b == [] then a == []
    else a[0] < b[0] || (a[0] == b[0] && LexLeq(a[1..], b[1..]))
  }

  /** `q` is where the match ends that repeats the first closure as often as any match from `p`
      does, then the second as often as is left, and so on. */
  ghost predicate LongestFirst(r: Ring, dir: Direction, prog: Program, p: Cursor, q: Cursor)
    requires On(r, p)
  {
    exists ks :: IsLongest(r, dir, prog, p, ks, q)
  }

  ghost predicate IsLongest(r: Ring, dir: Direction, prog: Program, p: Cursor, ks: seq<nat>, q: Cursor)
    requires On(r, p)
  {
    && SpansWith(r, dir, prog, p, ks, q)
    && forall ks', q' :: SpansWith(r, dir, prog, p, ks', q') ==> LexLeq(ks', ks)
  }

  // ---- The greedy search as a function ----

  /** How far a step in direction `dir` can go before the line runs out. */
  function Room(r: Ring, dir: Direction, p: Cursor): nat
    requires On(r, p)
  {
    if dir == Forward then |r.lines[p.line]| - p.off else p.off
  }

  /** The longest run a closure of `a` can swallow from `p`. */
  function MaxRun(r: Ring, dir: Direction, a: Atom, p: Cursor): (k: nat)
    requires On(r, p)
    ensures Run(r, dir, a, p, k)
    ensures forall j: nat :: Run(r, dir, a, p, j) <==> j <= k
    decreases Room(r, dir, p)
  {
    if Takes(r, dir, a, p)
    then
      var k' := MaxRun(r, dir, a, Step(r, dir, p));
      assert forall j: nat :: j > 0 ==> (Run(r, dir, a, p, j) <==> Run(r, dir, a, Step(r, dir, p), j - 1));
      1 + k'
    else 0
  }

  /** Where the first match in greedy order ends, if there is one. */
  function Greedy(r: Ring, dir: Direction, prog: Program, p: Cursor): (q: Option<Cursor>)
    requires On(r, p)
    ensures q.Some? ==> On(r, q.value)
    decreases |prog|, 0
  {
    if prog == [] then Some(p)
    else
      match prog[0]
      case Bol => if AtLineStart(p) then Greedy(r, dir, prog[1..], p) else None
      case Eol => if AtLineEnd(r, p) then Greedy(r, dir, prog[1..], p) else None
      case One(a) =>
        if Mceq(r.exact, Passed(r, dir, p), a) then Greedy(r, dir, prog[1..], Step(r, dir, p)) else None
      case Star(a) => BackOff(r, dir, prog[1..], p, MaxRun(r, dir, a, p))
  }

  /** Try the rest of the pattern `k` steps on, then `k - 1`, down to none. */
  function BackOff(r: Ring, dir: Direction, rest: Program, p: Cursor, k: nat): (q: Option<Cursor>)
    requires On(r, p)
    ensures q.Some? ==> On(r, q.value)
    decreases |rest|, k + 1
  {
    var here := Greedy(r, dir, rest, Advance(r, dir, p, k));
    if here.Some? || k == 0 then here else BackOff(r, dir, rest, p, k - 1)
  }

  // ---- The greedy function finds exactly the longest-first match ----

  /** The repetition counts of the greedy match. */
  lemma {:induction false} GreedyCounts(r: Ring, dir: Direction, prog: Program, p: Cursor) returns (ks: seq<nat>)
    requires On(r, p) && Greedy(r, dir, prog, p).Some?
    ensures IsLongest(r, dir, prog, p, ks, Greedy(r, dir, prog, p).value)
    decreases |prog|, 1, 0
  {
    if prog == [] {
      ks := [];
    } else {
      match prog[0]
      case Bol => ks := GreedyCounts(r, dir, prog[1..], p);
      case Eol => ks := GreedyCounts(r, dir, prog[1..], p);
      case One(a) => ks := GreedyCounts(r, dir, prog[1..], Step(r, dir, p));
      case Star(a) =>
        ks := BackOffCounts(r, dir, prog, p, MaxRun(r, dir, a, p));
    }
  }

  lemma {:induction false} BackOffCounts(r: Ring, dir: Direction, prog: Program, p: Cursor, k: nat) returns (ks: seq<nat>)
    requires On(r, p) && prog != [] && prog[0].Star?
    requires Run(r, dir, prog[0].atom, p, k)
    requires forall ks', q' :: SpansWith(r, dir, prog, p, ks', q') ==> ks'[0] <= k
    requires BackOff(r, dir, prog[1..], p, k).Some?
    ensures IsLongest(r, dir, prog, p, ks, BackOff(r, dir, prog[1..], p, k).value)
    decreases |prog|, 0, k
  {
    var rest, at := prog[1..], Advance(r, dir, p, k);
    if Greedy(r, dir, rest, at).Some? {
      var tail := GreedyCounts(r, dir, rest, at);
      ks := [k] + tail;
      assert ks[1..] == tail;
      forall ks', q' | SpansWith(r, dir, prog, p, ks', q') ensures LexLeq(ks', ks) {
        if ks'[0] == k {
          assert SpansWith(r, dir, rest, at, ks'[1..], q');
        }
      }
    } else {
      RunShrinks(r, dir, prog[0].atom, p, k);
      forall ks', q' | SpansWith(r, dir, prog, p, ks', q') ensures ks'[0] <= k - 1 {
        if ks'[0] == k {
          GreedyComplete(r, dir, rest, at, ks'[1..], q');
        }
      }
      ks := BackOffCounts(r, dir, prog, p, k - 1);
    }
  }

  lemma RunShrinks(r: Ring, dir: Direction, a: Atom, p: Cursor, k: nat)
    requires On(r, p) && Run(r, dir, a, p, k) && k > 0
    ensures Run(r, dir, a, p, k - 1)
    decreases k
  {
    if k > 1 {
      RunShrinks(r, dir, a, Step(r, dir, p), k - 1);
    }
  }

  /** Any match is enough for the greedy search to find one. */
  lemma {:induction false} GreedyComplete(r: Ring, dir: Direction, prog: Program, p: Cursor, ks: seq<nat>, q: Cursor)
    requires On(r, p) && SpansWith(r, dir, prog, p, ks, q)
    ensures Greedy(r, dir, prog, p).Some?
    decreases |prog|
  {
    if prog != [] {
      match prog[0]
      case Bol => GreedyComplete(r, dir, prog[1..], p, ks, q);
      case Eol => GreedyComplete(r, dir, prog[1..], p, ks, q);
      case One(a) => GreedyComplete(r, dir, prog[1..], Step(r, dir, p), ks, q);
      case Star(a) =>
        GreedyComplete(r, dir, prog[1..], Advance(r, dir, p, ks[0]), ks[1..], q);
        BackOffReaches(r, dir, prog[1..], p, MaxRun(r, dir, a, p), ks[0]);
    }
  }

  lemma {:induction false} BackOffReaches(r: Ring, dir: Direction, rest: Program, p: Cursor, k: nat, j: nat)
    requires On(r, p) && j <= k && Greedy(r, dir, rest, Advance(r, dir, p, j)).Some?
    ensures BackOff(r, dir, rest, p, k).Some?
    decreases k
  {
    if j < k {
      BackOffReaches(r, dir, rest, p, k - 1, j);
    }
  }

  lemma {:induction false} SpansHasCounts(r: Ring, dir: Direction, prog: Program, p: Cursor, q: Cursor) returns (ks: seq<nat>)
    requires On(r, p) && Spans(r, dir, prog, p, q)
    ensures SpansWith(r, dir, prog, p, ks, q)
    decreases |prog|
  {
    if prog == [] {
      ks := [];
    } else {
      match prog[0]
      case Bol => ks := SpansHasCounts(r, dir, prog[1..], p, q);
      case Eol => ks := SpansHasCounts(r, dir, prog[1..], p, q);
      case One(a) => ks := SpansHasCounts(r, dir, prog[1..], Step(r, dir, p), q);
      case Star(a) =>
        var k: nat :| Run(r, dir, a, p, k) && Spans(r, dir, prog[1..], Advance(r, dir, p, k), q);
        var tail := SpansHasCounts(r, dir, prog[1..], Advance(r, dir, p, k), q);
        ks := [k] + tail;
        assert ks[1..] == tail;
    }
  }

  lemma {:induction false} CountsGiveSpan(r: Ring, dir: Direction, prog: Program, p: Cursor, ks: seq<nat>, q: Cursor)
    requires On(r, p) && SpansWith(r, dir, prog, p, ks, q)
    ensures Spans(r, dir, prog, p, q)
    decreases |prog|
  {
    if prog != [] {
      match prog[0]
      case Bol => CountsGiveSpan(r, dir, prog[1..], p, ks, q);
      case Eol => CountsGiveSpan(r, dir, prog[1..], p, ks, q);
      case One(a) => CountsGiveSpan(r, dir, prog[1..], Step(r, dir, p), ks, q);
      case Star(a) => CountsGiveSpan(r, dir, prog[1..], Advance(r, dir, p, ks[0]), ks[1..], q);
    }
  }

  /** Soundness and completeness: the search succeeds iff the text matches at `p`, and what it
      returns is the end of the longest-first match and of no other. */
  lemma GreedyIsLongestFirst(r: Ring, dir: Direction, prog: Program, p: Cursor)
    requires On(r, p)
    ensures Greedy(r, dir, prog, p).Some? <==> MatchesAt(r, dir, prog, p)
    ensures forall q :: LongestFirst(r, dir, prog, p, q) <==> Greedy(r, dir, prog, p) == Some(q)
    ensures forall q :: Greedy(r, dir, prog, p) == Some(q) ==> Spans(r, dir, prog, p, q)
  {
    forall q | Spans(r, dir, prog, p, q) ensures Greedy(r, dir, prog, p).Some? {
      var ks := SpansHasCounts(r, dir, prog, p, q);
      GreedyComplete(r, dir, prog, p, ks, q);
    }
    if Greedy(r, dir, prog, p).Some? {
      var ks := GreedyCounts(r, dir, prog, p);
      CountsGiveSpan(r, dir, prog, p, ks, Greedy(r, dir, prog, p).value);
      forall q | LongestFirst(r, dir, prog, p, q) ensures Greedy(r, dir, prog, p) == Some(q) {
        var ks' :| IsLongest(r, dir, prog, p, ks', q);
        LexAntisymmetric(ks, ks');
        CountsDetermineEnd(r, dir, prog, p, ks, Greedy(r, dir, prog, p).value, q);
      }
    }
    forall q | LongestFirst(r, dir, prog, p, q) ensures Greedy(r, dir, prog, p).Some? {
      var ks' :| IsLongest(r, dir, prog, p, ks', q);
      GreedyComplete(r, dir, prog, p, ks', q);
    }
  }

  lemma LexAntisymmetric(a: seq<nat>, b: seq<nat>)
    requires LexLeq(a, b) && LexLeq(b, a)
    ensures a == b
  {
    if a != [] {
      LexAntisymmetric(a[1..], b[1..]);
      assert a == [a[0]] + a[1..] && b == [b[0]] + b[1..];
    }
  }

  lemma {:induction false} CountsDetermineEnd(r: Ring, dir: Direction, prog: Program, p: Cursor, ks: seq<nat>, q: Cursor, q': Cursor)
    requires On(r, p) && SpansWith(r, dir, prog, p, ks, q) && SpansWith(r, dir, prog, p, ks, q')
    ensures q == q'
    decreases |prog|
  {
    if prog != [] {
      match prog[0]
      case Bol => CountsDetermineEnd(r, dir, prog[1..], p, ks, q, q');
      case Eol => CountsDetermineEnd(r, dir, prog[1..], p, ks, q, q');
      case One(a) => CountsDetermineEnd(r, dir, prog[1..], Step(r, dir, p), ks, q, q');
      case Star(a) => CountsDetermineEnd(r, dir, prog[1..], Advance(r, dir, p, ks[0]), ks[1..], q, q');
    }
  }
}
