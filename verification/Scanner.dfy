/** Forward literal search: the fast paths of `scanner` against its plain character loop. */
module Scanner {
  import opened Bytes
  import opened CircularText
  import opened BoyerMoore

  // ---- The plain loop ----

  /** Where the pattern, read character by character from `p`, ends. */
  function LiteralEnd(r: Ring, pat: seq<Byte>, p: Cursor): (e: Option<Cursor>)
    requires On(r, p)
    ensures e.Some? ==> On(r, e.value)
    decreases |pat|
  {
    if pat == [] then Some(p)
    else if Eq(r.exact, CharAt(r, p), pat[0]) then LiteralEnd(r, pat[1..], Ahead(r, p))
    else None
  }

  /** What a search leaves: its status, the match position, and the end of the match. */
  datatype Outcome = Outcome(status: bool, found: Cursor, end: Cursor)

  /** The number of lines a forward scan has still to enter. */
  function LinesToGo(r: Ring, c: Cursor): nat
    requires On(r, c)
  {
    if c.line == Header(r) then |r.lines| + 1 else |r.lines| - c.line
  }

  function BytesToGo(r: Ring, c: Cursor): nat
    requires On(r, c)
  {
    |r.lines[c.line]| - c.off
  }

  /** The character loop: `matchline`/`matchoff` follow the scan even when it fails. */
  function PlainScan(r: Ring, pat: seq<Byte>, cur: Cursor, found: Cursor): (o: Outcome)
    requires On(r, cur)
    ensures On(r, o.end) && (o.status ==> On(r, o.found))
    decreases LinesToGo(r, cur), BytesToGo(r, cur)
  {
    if Boundary(r, cur, Forward) then Outcome(false, found, cur)
    else if LiteralEnd(r, pat, cur).Some? then Outcome(true, cur, LiteralEnd(r, pat, cur).value)
    else PlainScan(r, pat, Ahead(r, cur), cur)
  }

  // ---- The fast paths ----

  /** The pattern stands inside one line, compared with ASCII case folding only. */
  predicate LineMatch(r: Ring, pat: seq<Byte>, c: Cursor) {
    c.line < Header(r) && MatchAt(r.lines[c.line], c.off, pat, r.exact)
  }

  /** The first match of a fast path at or after `dot`, if any. */
  ghost predicate IsFastMatch(r: Ring, pat: seq<Byte>, dot: Cursor, m: Cursor) {
    LineMatch(r, pat, m) && !Before(m, dot) && forall c :: LineMatch(r, pat, c) && !Before(c, dot) ==> !Before(c, m)
  }

  /** The outcome of a match inside one line. */
  function Hit(pat: seq<Byte>, m: Cursor): Outcome {
    Outcome(true, m, Cursor(m.line, m.off + |pat|))
  }

  ghost predicate NoFastMatch(r: Ring, pat: seq<Byte>, dot: Cursor) {
    forall m :: LineMatch(r, pat, m) ==> Before(m, dot)
  }

  /** What `scanner` leaves: a fast path's match if one runs and has one, else what the plain loop
      finds. Patterns too long for Horspool's table go to the plain loop at once. */
  ghost predicate IsScanResult(r: Ring, pat: seq<Byte>, dot: Cursor, found: Cursor, o: Outcome)
    requires On(r, dot)
  {
    || (|pat| <= BM_MAX_PATTERN && exists m :: IsFastMatch(r, pat, dot, m) && o == Hit(pat, m))
    || ((|pat| <= BM_MAX_PATTERN ==> NoFastMatch(r, pat, dot)) && o == PlainScan(r, pat, dot, found))
  }

  /** A pattern the fast paths take: not empty, and no line end in it. */
  predicate Simple(pat: seq<Byte>) {
    pat != [] && NEWLINE !in pat && 13 !in pat
  }

  /** The editor's own case folding (`eq`) covers Latin-1 letters; the fast paths fold ASCII only. */
  predicate IsLatin(b: Byte) {
    192 <= b <= 220 || 224 <= b <= 252
  }

  predicate SameFolding(exact: bool, pat: seq<Byte>) {
    exact || forall i :: 0 <= i < |pat| ==> !IsLatin(pat[i])
  }

  lemma EqIsNormal(exact: bool, bc: Byte, pc: Byte)
    ensures exact || !IsLatin(pc) ==> (Eq(exact, bc, pc) <==> Normalize(bc, exact) == Normalize(pc, exact))
    ensures Normalize(bc, exact) == Normalize(pc, exact) ==> Eq(exact, bc, pc)
  {
  }

  /** A fast match is a match of the plain loop. */
  lemma {:induction false} FastIsPlain(r: Ring, pat: seq<Byte>, p: Cursor)
    requires On(r, p) && LineMatch(r, pat, p)
    ensures LiteralEnd(r, pat, p) == Some(Cursor(p.line, p.off + |pat|))
    decreases |pat|
  {
    if pat != [] {
      var line := r.lines[p.line];
      assert Normalize(line[p.off + 0], r.exact) == Normalize(pat[0], r.exact);
      EqIsNormal(r.exact, line[p.off], pat[0]);
      forall j | 0 <= j < |pat[1..]| ensures Normalize(line[p.off + 1 + j], r.exact) == Normalize(pat[1..][j], r.exact) {
        assert Normalize(line[p.off + (j + 1)], r.exact) == Normalize(pat[j + 1], r.exact);
      }
      FastIsPlain(r, pat[1..], Ahead(r, p));
    }
  }

  /** A match of the plain loop lies within one line, and where the foldings agree it is a fast match. */
  lemma {:induction false} PlainIsFast(r: Ring, pat: seq<Byte>, p: Cursor)
    requires On(r, p) && NEWLINE !in pat && LiteralEnd(r, pat, p).Some?
    ensures p.off + |pat| <= |r.lines[p.line]|
    ensures forall j :: 0 <= j < |pat| ==> Eq(r.exact, r.lines[p.line][p.off + j], pat[j])
    ensures SameFolding(r.exact, pat) ==> MatchAt(r.lines[p.line], p.off, pat, r.exact)
    decreases |pat|
  {
    if pat != [] {
      var line := r.lines[p.line];
      PlainIsFast(r, pat[1..], Ahead(r, p));
      assert p.off < |line|;
      forall j | 0 <= j < |pat|
        ensures Eq(r.exact, line[p.off + j], pat[j])
        ensures SameFolding(r.exact, pat) ==> Normalize(line[p.off + j], r.exact) == Normalize(pat[j], r.exact)
      {
        if j > 0 {
          assert Eq(r.exact, line[p.off + 1 + (j - 1)], pat[1..][j - 1]);
        }
        EqIsNormal(r.exact, line[p.off + j], pat[j]);
      }
    }
  }

  /** The plain loop stops at the first match it comes to. */
  lemma {:induction false} PlainFindsFirst(r: Ring, pat: seq<Byte>, cur: Cursor, found: Cursor, m: Cursor)
    requires OnText(r, cur) && OnText(r, m) && !Before(m, cur) && pat != [] && NEWLINE !in pat
    requires LiteralEnd(r, pat, m).Some?
    requires forall c :: OnText(r, c) && !Before(c, cur) && Before(c, m) ==> LiteralEnd(r, pat, c).None?
    ensures PlainScan(r, pat, cur, found) == Outcome(true, m, LiteralEnd(r, pat, m).value)
    decreases LinesToGo(r, cur), BytesToGo(r, cur)
  {
    PlainIsFast(r, pat, m);
    if cur != m {
      assert LiteralEnd(r, pat, cur).None?;
      PlainFindsFirst(r, pat, Ahead(r, cur), cur, m);
    }
  }

  /** Whichever fast path runs, and whether or not it finds anything, `scanner` leaves what its plain
      loop alone would leave -- if the pattern's letters fold alike in both. */
  lemma FastPathsAgree(r: Ring, pat: seq<Byte>, dot: Cursor, found: Cursor, o: Outcome)
    requires On(r, dot) && Simple(pat) && SameFolding(r.exact, pat)
    requires IsScanResult(r, pat, dot, found, o)
    ensures o == PlainScan(r, pat, dot, found)
  {
    if exists m :: IsFastMatch(r, pat, dot, m) && o == Hit(pat, m) {
      var m :| IsFastMatch(r, pat, dot, m) && o == Hit(pat, m);
      FastIsPlain(r, pat, m);
      forall c | OnText(r, c) && !Before(c, dot) && Before(c, m) ensures LiteralEnd(r, pat, c).None? {
        if LiteralEnd(r, pat, c).Some? {
          PlainIsFast(r, pat, c);
          assert LineMatch(r, pat, c);
        }
      }
      PlainFindsFirst(r, pat, dot, found, m);
    }
  }

  /** The letter with its case changed as `eq` sees it. */
  function OtherCase(b: Byte): Byte
    requires IsLatin(b)
  {
    if b <= 220 then b + 32 else b - 32
  }

  /** A buffer whose first line holds the pattern with one Latin-1 letter in the other case, and
      whose second holds the pattern itself. */
  function TwoCases(pat: seq<Byte>, i: nat): Ring
    requires i < |pat| && IsLatin(pat[i])
  {
    RawRing.Ring([pat[i := OtherCase(pat[i])], pat, []], false)
  }

  lemma {:induction false} EqualTextMatches(r: Ring, pat: seq<Byte>, p: Cursor)
    requires On(r, p) && p.off + |pat| <= |r.lines[p.line]|
    requires forall j :: 0 <= j < |pat| ==> Eq(r.exact, r.lines[p.line][p.off + j], pat[j])
    ensures LiteralEnd(r, pat, p) == Some(Cursor(p.line, p.off + |pat|))
    decreases |pat|
  {
    if pat != [] {
      assert Eq(r.exact, r.lines[p.line][p.off + 0], pat[0]);
      forall j | 0 <= j < |pat[1..]| ensures Eq(r.exact, r.lines[p.line][p.off + 1 + j], pat[1..][j]) {
        assert Eq(r.exact, r.lines[p.line][p.off + (j + 1)], pat[j + 1]);
      }
      EqualTextMatches(r, pat[1..], Ahead(r, p));
    }
  }

  /** With a Latin-1 letter in the pattern and case folding on, there is a buffer in which the fast
      path skips the first match: the plain loop finds it in line 0, `scanner` in line 1. */
  lemma LatinPatternsDisagree(pat: seq<Byte>, i: nat, found: Cursor)
    requires Simple(pat) && i < |pat| <= BM_MAX_PATTERN && IsLatin(pat[i])
    ensures var r, dot := TwoCases(pat, i), Cursor(0, 0);
      && IsScanResult(r, pat, dot, found, Outcome(true, Cursor(1, 0), Cursor(1, |pat|)))
      && PlainScan(r, pat, dot, found) == Outcome(true, Cursor(0, 0), Cursor(0, |pat|))
  {
    var r, dot := TwoCases(pat, i), Cursor(0, 0);
    forall j | 0 <= j < |pat| ensures Eq(false, r.lines[0][0 + j], pat[j]) {
    }
    EqualTextMatches(r, pat, dot);
    var m := Cursor(1, 0);
    assert LineMatch(r, pat, m);
    assert Normalize(r.lines[0][0 + i], false) != Normalize(pat[i], false);
    assert !MatchAt(r.lines[0], 0, pat, false);
    assert IsFastMatch(r, pat, dot, m);
  }

  /** The fast paths are invisible for a pattern, in every buffer that folds case, iff it has no
      Latin-1 letter or is too long for them. */
  lemma FastPathsInvisible(pat: seq<Byte>)
    requires Simple(pat)
    ensures (forall r: Ring, dot, found, o | !r.exact && On(r, dot) && IsScanResult(r, pat, dot, found, o) ::
              o == PlainScan(r, pat, dot, found))
       <==> (SameFolding(false, pat) || |pat| > BM_MAX_PATTERN)
  {
    forall r: Ring, dot, found, o | !r.exact && On(r, dot) && IsScanResult(r, pat, dot, found, o)
      && (SameFolding(false, pat) || |pat| > BM_MAX_PATTERN)
      ensures o == PlainScan(r, pat, dot, found)
    {
      if |pat| <= BM_MAX_PATTERN {
        FastPathsAgree(r, pat, dot, found, o);
      }
    }
    if !SameFolding(false, pat) && |pat| <= BM_MAX_PATTERN {
      var i :| 0 <= i < |pat| && IsLatin(pat[i]);
      LatinPatternsDisagree(pat, i, Cursor(0, 0));
    }
  }

  // ---- The searches as loops over the lines ----

  const BMH_MIN_LEN := 5

  function Lower(b: Byte): Byte {
    if 65 <= b <= 90 then b + 32 else b
  }

  /** The comparison of the short path: first character, then the other one to three. */
  method ShortMatch(text: seq<Byte>, i: nat, pat: seq<Byte>, exact: bool) returns (hit: bool)
    requires 1 <= |pat| <= 4 && i + |pat| <= |text|
    ensures hit <==> MatchAt(text, i, pat, exact)
  {
    var first := if exact then pat[0] else Lower(pat[0]);
    var c0 := if exact then text[i] else Lower(text[i]);
    if c0 != first {
      hit := false;
    } else if |pat| == 1 {
      hit := true;
    } else if exact {
      hit := text[i..i + |pat|] == pat;
      forall j | hit && 0 <= j < |pat| ensures text[i + j] == pat[j] {
        assert text[i..i + |pat|][j] == text[i + j];
      }
    } else {
      hit := Lower(text[i + 1]) == Lower(pat[1])
        && (|pat| < 3 || Lower(text[i + 2]) == Lower(pat[2]))
        && (|pat| < 4 || Lower(text[i + 3]) == Lower(pat[3]));
    }
    if MatchAt(text, i, pat, exact) {
      assert Normalize(text[i + 0], exact) == Normalize(pat[0], exact);
      assert exact ==> text[i..i + |pat|] == pat;
      assert |pat| > 1 ==> Normalize(text[i + 1], exact) == Normalize(pat[1], exact);
      assert |pat| > 2 ==> Normalize(text[i + 2], exact) == Normalize(pat[2], exact);
      assert |pat| > 3 ==> Normalize(text[i + 3], exact) == Normalize(pat[3], exact);
    }
  }

  /** No fast match from `dot` begins before `c`. */
  ghost predicate NoneUpTo(r: Ring, pat: seq<Byte>, dot: Cursor, c: Cursor) {
    forall m :: LineMatch(r, pat, m) && !Before(m, dot) ==> !Before(m, c)
  }

  /** The fast path for short patterns: every offset of every line from dot to the end. */
  method ShortSearch(r: Ring, pat: seq<Byte>, dot: Cursor) returns (m: Option<Cursor>)
    requires On(r, dot) && 1 <= |pat| <= 4
    ensures m.Some? ==> IsFastMatch(r, pat, dot, m.value)
    ensures m.None? ==> NoFastMatch(r, pat, dot)
  {
    var lp := dot.line;
    while lp < Header(r)
      invariant dot.line <= lp <= Header(r)
      invariant NoneUpTo(r, pat, dot, Cursor(lp, if lp == dot.line then dot.off else 0))
    {
      var n := |r.lines[lp]|;
      if n >= |pat| {
        var i := if lp == dot.line then dot.off else 0;
        while i <= n - |pat|
          invariant i >= (if lp == dot.line then dot.off else 0)
          invariant NoneUpTo(r, pat, dot, Cursor(lp, i))
        {
          var hit := ShortMatch(r.lines[lp], i, pat, r.exact);
          if hit {
            return Some(Cursor(lp, i));
          }
          i := i + 1;
        }
      }
      lp := lp + 1;
    }
    return None;
  }

  /** The fast path for longer patterns: Horspool's search, line by line from dot. */
  method HorspoolSearch(r: Ring, pat: seq<Byte>, dot: Cursor) returns (m: Option<Cursor>)
    requires On(r, dot) && BMH_MIN_LEN <= |pat| <= BM_MAX_PATTERN
    ensures m.Some? ==> IsFastMatch(r, pat, dot, m.value)
    ensures m.None? ==> NoFastMatch(r, pat, dot)
  {
    var bm := new Context();
    var ok := bm.Init(pat, r.exact);
    var lp := dot.line;
    while lp < Header(r)
      invariant dot.line <= lp <= Header(r) && bm.Ready() && bm.pattern == pat && bm.caseSensitive == r.exact
      invariant NoneUpTo(r, pat, dot, Cursor(lp, if lp == dot.line then dot.off else 0))
    {
      var n := |r.lines[lp]|;
      if n > 0 {
        var start := if lp == dot.line then dot.off else 0;
        // dot may stand behind the last character, where no match of five can begin
        var idx := bm.Search(r.lines[lp], if start < n then start else n - 1);
        if idx >= 0 {
          return Some(Cursor(lp, idx));
        }
      }
      lp := lp + 1;
    }
    return None;
  }

  /** The character loop of `scanner`. */
  method PlainLoop(r: Ring, pat: seq<Byte>, dot: Cursor, found: Cursor) returns (o: Outcome)
    requires On(r, dot) && pat != []
    ensures o == PlainScan(r, pat, dot, found)
  {
    var cur, match_ := dot, found;
    while !Boundary(r, cur, Forward)
      invariant On(r, cur) && PlainScan(r, pat, cur, match_) == PlainScan(r, pat, dot, found)
      decreases LinesToGo(r, cur), BytesToGo(r, cur)
    {
      match_ := cur;
      var c, next := NextCh(r, cur, Forward);
      if Eq(r.exact, c, pat[0]) {
        var scan, k := next, 1;
        var fail := false;
        assert pat[1..] == pat[k..];
        while k < |pat| && !fail
          invariant 1 <= k <= |pat| && On(r, scan)
          invariant !fail ==> LiteralEnd(r, pat, cur) == LiteralEnd(r, pat[k..], scan)
          invariant fail ==> LiteralEnd(r, pat, cur).None?
          decreases |pat| - k, !fail
        {
          assert pat[k..][0] == pat[k] && pat[k..][1..] == pat[k + 1..];
          c, scan := NextCh(r, scan, Forward);
          if Eq(r.exact, c, pat[k]) {
            k := k + 1;
          } else {
            fail := true;
          }
        }
        if !fail {
          return Outcome(true, match_, scan);
        }
      }
      cur := next;
    }
    return Outcome(false, match_, cur);
  }

  /** The fast paths of `scanner`, if the pattern is of a length they take. */
  method FastSearch(r: Ring, pat: seq<Byte>, dot: Cursor) returns (m: Option<Cursor>)
    requires On(r, dot) && pat != []
    ensures m.Some? ==> |pat| <= BM_MAX_PATTERN && IsFastMatch(r, pat, dot, m.value)
    ensures m.None? && |pat| <= BM_MAX_PATTERN ==> NoFastMatch(r, pat, dot)
  {
    if |pat| > BM_MAX_PATTERN {
      m := None;
    } else if |pat| >= BMH_MIN_LEN {
      m := HorspoolSearch(r, pat, dot);
    } else {
      m := ShortSearch(r, pat, dot);
    }
  }

  /** The window's dot and the globals `matchline`/`matchoff`. */
  class Literal {
    const text: Ring
    var dot: Cursor
    var found: Cursor

    constructor (text: Ring, dot: Cursor)
      requires On(text, dot)
      ensures this.text == text && this.dot == dot && this.found == dot
    {
      this.text, this.dot, this.found := text, dot, dot;
    }

    /** A search from `was` ended with `o`: dot moves to the asked side of a match, and only then. */
    ghost predicate Shows(status: bool, was: Cursor, toEnd: bool, o: Outcome)
      reads this
    {
      status == o.status && found == o.found && dot == (if !status then was else if toEnd then o.end else o.found)
    }

    /** `scanner(patrn, FORWARD, beg_or_end)` for a pattern without line ends, outside MAGIC mode. */
    method ScanForward(pat: seq<Byte>, toEnd: bool) returns (status: bool)
      requires On(text, dot) && Simple(pat)
      modifies this
      ensures On(text, dot)
      ensures exists o :: IsScanResult(text, pat, old(dot), old(found), o) && Shows(status, old(dot), toEnd, o)
      // so, when letters fold alike, status, dot and match position are those of the plain loop
      ensures SameFolding(text.exact, pat) ==> Shows(status, old(dot), toEnd, PlainScan(text, pat, old(dot), old(found)))
    {
      hide PlainScan, LiteralEnd, IsFastMatch, NoFastMatch, SameFolding, On;
      var m := FastSearch(text, pat, dot);
      var o: Outcome;
      if m.Some? {
        o := Hit(pat, m.value);
        HitIsOn(text, pat, dot, m.value);
      } else {
        o := PlainLoop(text, pat, dot, found);
      }
      assert IsScanResult(text, pat, dot, found, o);
      if SameFolding(text.exact, pat) {
        FastPathsAgree(text, pat, dot, found, o);
      }
      status, found := o.status, o.found;
      if status {
        dot := if toEnd then o.end else o.found;
      }
    }
  }

  lemma HitIsOn(r: Ring, pat: seq<Byte>, dot: Cursor, m: Cursor)
    requires IsFastMatch(r, pat, dot, m)
    ensures On(r, m) && On(r, Hit(pat, m).end)
  {
  }
}
