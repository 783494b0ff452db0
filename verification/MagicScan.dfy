/** The matcher `amatch` and the buffer search `mcscanner`, as the loops search.c runs, proved
    against the meaning of patterns in MagicMatch. */
module MagicScan {
  import opened Bytes
  import opened CircularText
  import opened MagicMatch

  /** What `mcstr` guarantees of the forward program; the reversed program is its mirror. */
  predicate WellPlaced(prog: Program) {
    && (forall i :: 0 <= i < |prog| && prog[i].Bol? ==> i == 0)
    && (forall i :: 0 <= i < |prog| && prog[i].Eol? ==> i == |prog| - 1)
  }

  function Mirror(prog: Program): (m: Program)
    ensures |m| == |prog|
    ensures forall i :: 0 <= i < |m| ==> m[i] == prog[|prog| - 1 - i]
  {
    seq(|prog|, i requires 0 <= i < |prog| => prog[|prog| - 1 - i])
  }

  predicate Placed(dir: Direction, prog: Program) {
    if dir == Forward then WellPlaced(prog) else WellPlaced(Mirror(prog))
  }

  lemma PlacedPositions(dir: Direction, prog: Program, i: nat)
    requires Placed(dir, prog) && i < |prog|
    ensures prog[i].Bol? ==> i == (if dir == Forward then 0 else |prog| - 1)
    ensures prog[i].Eol? ==> i == (if dir == Forward then |prog| - 1 else 0)
  {
    if dir == Reverse {
      var m := Mirror(prog);
      assert m[|prog| - 1 - i] == prog[i];
    }
  }

  /** The position test a BOL or EOL makes after a character has been stepped over. */
  lemma TestsAfterStep(r: Ring, dir: Direction, p: Cursor)
    requires On(r, p)
    ensures dir == Forward ==> (Step(r, dir, p).off == 0 <==> AtLineEnd(r, p))
    ensures dir == Reverse ==> (AtLineEnd(r, Step(r, dir, p)) <==> AtLineStart(p))
  {
  }

  /** `amatch`: anchored match of `prog[j..]`. The recursive calls start after a closure. */
  method AMatch(r: Ring, prog: Program, j: nat, dir: Direction, cur: Cursor) returns (ok: bool, end: Cursor)
    requires On(r, cur) && j <= |prog| && Placed(dir, prog)
    ensures ok <==> Greedy(r, dir, prog[j..], cur).Some?
    ensures ok ==> Greedy(r, dir, prog[j..], cur) == Some(end)
    decreases |prog| - j
  {
    var here, mc := cur, j;
    end := cur;
    if mc < |prog| && prog[mc].Bol? {
      if here.off != 0 {
        return false, cur;
      }
      mc := mc + 1;
    }
    assert Greedy(r, dir, prog[j..], cur) == Greedy(r, dir, prog[mc..], here);
    if mc < |prog| && prog[mc].Eol? {
      if here.off != |r.lines[here.line]| {
        return false, cur;
      }
      mc := mc + 1;
    }
    while mc < |prog|
      invariant j <= mc <= |prog| && On(r, here)
      invariant Greedy(r, dir, prog[j..], cur) == Greedy(r, dir, prog[mc..], here)
    {
      PlacedPositions(dir, prog, mc);
      assert prog[mc..][0] == prog[mc] && prog[mc..][1..] == prog[mc + 1..];
      var c, next := NextCh(r, here, dir);
      if prog[mc].Star? {
        ok, end := Closure(r, prog, mc, dir, here, c, next);
        return;
      }
      if prog[mc].Bol? {
        assert mc > j || dir == Reverse;
        TestsAfterStep(r, dir, here);
        assert prog[mc + 1..] == [];
        if next.off == |r.lines[next.line]| {
          c, next := NextCh(r, next, Opposite(dir));
          return true, next;
        }
        return false, cur;
      }
      if prog[mc].Eol? {
        TestsAfterStep(r, dir, here);
        assert prog[mc + 1..] == [];
        if next.off == 0 {
          c, next := NextCh(r, next, Opposite(dir));
          return true, next;
        }
        return false, cur;
      }
      if !Mceq(r.exact, c, prog[mc].atom) {
        return false, cur;
      }
      here, mc := next, mc + 1;
    }
    return true, here;
  }

  /** The closure branch of `amatch`: swallow all that matches, then give back one character at a
      time until the rest of the pattern matches. `c` has been read from `here`, ending at `next`. */
  method Closure(r: Ring, prog: Program, mc: nat, dir: Direction, here: Cursor, c: Byte, next: Cursor)
    returns (ok: bool, end: Cursor)
    requires On(r, here) && mc < |prog| && prog[mc].Star? && Placed(dir, prog)
    requires c == Passed(r, dir, here) && next == Step(r, dir, here)
    ensures ok <==> Greedy(r, dir, prog[mc..], here).Some?
    ensures ok ==> Greedy(r, dir, prog[mc..], here) == Some(end)
    decreases |prog| - mc, 0
  {
    var nchars, cur := Swallow(r, prog[mc].atom, dir, here, c, next);
    var ch;
    assert prog[mc..][1..] == prog[mc + 1..];
    while true
      invariant On(r, cur) && cur == Step(r, dir, Advance(r, dir, here, nchars))
      invariant Greedy(r, dir, prog[mc..], here) == BackOff(r, dir, prog[mc + 1..], here, nchars)
      decreases nchars
    {
      StepsAreInverse(r, dir, Advance(r, dir, here, nchars));
      ch, cur := NextCh(r, cur, Opposite(dir));
      ok, end := AMatch(r, prog, mc + 1, dir, cur);
      if ok {
        return;
      }
      if nchars == 0 {
        return false, here;
      }
      nchars := nchars - 1;
      AdvanceOneMore(r, dir, here, nchars);
    }
  }

  /** The first half of it: how many characters match, and the place behind the first that does not. */
  method Swallow(r: Ring, a: Atom, dir: Direction, here: Cursor, c: Byte, next: Cursor) returns (nchars: nat, cur: Cursor)
    requires On(r, here) && c == Passed(r, dir, here) && next == Step(r, dir, here)
    ensures nchars == MaxRun(r, dir, a, here) && On(r, cur) && cur == Step(r, dir, Advance(r, dir, here, nchars))
  {
    var ch := c;
    cur, nchars := next, 0;
    ghost var last := here;  // where `ch` was read
    while ch != NEWLINE && Mceq(r.exact, ch, a)
      invariant On(r, last) && ch == Passed(r, dir, last) && cur == Step(r, dir, last)
      invariant last == Advance(r, dir, here, nchars)
      invariant MaxRun(r, dir, a, here) == nchars + MaxRun(r, dir, a, last)
      decreases Room(r, dir, last)
    {
      AdvanceOneMore(r, dir, here, nchars);
      last := cur;
      ch, cur := NextCh(r, cur, dir);
      nchars := nchars + 1;
    }
  }

  lemma AdvanceOneMore(r: Ring, dir: Direction, p: Cursor, k: nat)
    requires On(r, p)
    ensures Advance(r, dir, p, k + 1) == Step(r, dir, Advance(r, dir, p, k))
    decreases k
  {
    if k > 0 {
      AdvanceOneMore(r, dir, Step(r, dir, p), k - 1);
    }
  }

  // ---- The cursors a search visits ----

  /** The end of the last line of text: where a forward search stops. */
  function TextEnd(r: Ring): Cursor {
    if Header(r) == 0 then Cursor(0, 0) else Cursor(Header(r) - 1, |r.lines[Header(r) - 1]|)
  }

  /** A forward search from `dot` tries every position up to, not including, the end of the text;
      from the header line it wraps to the first line. A backward search tries every position down
      to, not including, the start of the buffer. */
  predicate InScan(r: Ring, dir: Direction, dot: Cursor, p: Cursor)
    requires On(r, dot)
  {
    && On(r, p)
    && if dir == Reverse then !Before(dot, p) && p != Cursor(0, 0)
       else if dot.line < Header(r) then !Before(p, dot) && Before(p, TextEnd(r))
       else Header(r) > 0 && (p == dot || Before(p, TextEnd(r)))
  }

  /** `a` is tried before `b` by a search from `dot`. */
  predicate TriedBefore(r: Ring, dir: Direction, dot: Cursor, a: Cursor, b: Cursor) {
    if dir == Reverse then Before(b, a)
    else if dot.line == Header(r) && a == dot then b != dot
    else Before(a, b) && b.line < Header(r)
  }

  lemma ScanUnfolds(r: Ring, dir: Direction, cur: Cursor)
    requires On(r, cur)
    ensures Boundary(r, cur, dir) ==> forall p :: !InScan(r, dir, cur, p)
    ensures !Boundary(r, cur, dir) ==>
      forall p :: InScan(r, dir, cur, p) <==> p == cur || InScan(r, dir, Step(r, dir, cur), p)
    ensures forall p :: InScan(r, dir, cur, p) && p != cur ==> TriedBefore(r, dir, cur, cur, p)
  {
  }

  /** Lines still to be entered by a search at `c`. */
  function LinesLeft(r: Ring, dir: Direction, c: Cursor): nat
    requires On(r, c)
  {
    if dir == Reverse then c.line
    else if c.line == Header(r) then |r.lines| + 1
    else |r.lines| - c.line
  }

  datatype LeavePoint = PtBeg | PtEnd

  /** `beg_or_end ^= direct`: searching backward, the start of the text is the end of the scan. */
  function Toggle(where: LeavePoint, dir: Direction): LeavePoint {
    if dir == Forward then where else if where == PtBeg then PtEnd else PtBeg
  }

  /** The state `mcscanner` works on: the window's dot and the globals `matchline`/`matchoff`. */
  class Searcher {
    const text: Ring
    var dot: Cursor
    var found: Cursor

    predicate Valid()
      reads this
    {
      On(text, dot)
    }

    constructor (text: Ring, dot: Cursor)
      requires On(text, dot)
      ensures Valid() && this.text == text && this.dot == dot
    {
      this.text, this.dot, this.found := text, dot, dot;
    }

    /** `mcscanner`: search for a meta-pattern in either direction. */
    method McScanner(prog: Program, dir: Direction, where: LeavePoint) returns (ok: bool)
      requires Valid() && Placed(dir, prog)
      modifies this
      ensures Valid()
      // it succeeds iff some visited position has a match ...
      ensures ok <==> exists p :: InScan(text, dir, old(dot), p) && MatchesAt(text, dir, prog, p)
      // ... takes the first such position ...
      ensures ok ==> InScan(text, dir, old(dot), found) && MatchesAt(text, dir, prog, found)
      ensures ok ==> forall p :: InScan(text, dir, old(dot), p) && MatchesAt(text, dir, prog, p) ==>
          p == found || TriedBefore(text, dir, old(dot), found, p)
      // ... and leaves dot at one end of the longest-first match there
      ensures ok && Toggle(where, dir) == PtBeg ==> dot == found
      ensures ok && Toggle(where, dir) == PtEnd ==> LongestFirst(text, dir, prog, found, dot)
      ensures !ok ==> dot == old(dot)
    {
      var cur := dot;
      while !Boundary(text, cur, dir)
        invariant On(text, cur) && dot == old(dot)
        invariant forall p :: InScan(text, dir, cur, p) ==> InScan(text, dir, dot, p)
        invariant forall p :: InScan(text, dir, dot, p) && !InScan(text, dir, cur, p) ==>
            !MatchesAt(text, dir, prog, p)
        invariant forall p, q :: InScan(text, dir, cur, p) && TriedBefore(text, dir, cur, p, q) && InScan(text, dir, cur, q) ==>
            TriedBefore(text, dir, dot, p, q)
        decreases LinesLeft(text, dir, cur), Room(text, dir, cur)
      {
        found := cur;
        ScanUnfolds(text, dir, cur);
        var hit, end := AMatch(text, prog, 0, dir, cur);
        assert prog[0..] == prog;
        GreedyIsLongestFirst(text, dir, prog, cur);
        if hit {
          assert forall p :: InScan(text, dir, old(dot), p) && MatchesAt(text, dir, prog, p) ==> InScan(text, dir, cur, p);
          if Toggle(where, dir) == PtEnd {
            dot := end;
          } else {
            dot := found;
          }
          return true;
        }
        var c;
        c, cur := NextCh(text, cur, dir);
      }
      ScanUnfolds(text, dir, cur);
      return false;
    }
  }
}
