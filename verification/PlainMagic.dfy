/** A plain search and a MAGIC search for the same text are one search. */
module PlainMagic {
  import opened Bytes
  import opened CircularText
  import opened MagicMatch
  import opened MagicScan
  import opened MagicMeaning
  import S = Scanner

  /** What the character comparison of `scanner` accepts is what the pattern of literals spans. */
  lemma {:induction false} PlainIsMagic(r: Ring, pat: seq<Byte>, p: Cursor, q: Cursor)
    requires On(r, p)
    ensures S.LiteralEnd(r, pat, p) == Some(q) <==> Spans(r, Forward, Literals(pat), p, q)
    decreases |pat|
  {
    hide MatchesAt;
    if pat == [] {
      assert Literals(pat) == [];
    } else {
      assert Literals(pat) == [One(Lit(pat[0]))] + Literals(pat[1..]);
      SpansMeaning(r, Forward, Lit(pat[0]), Literals(pat[1..]), p, q);
      OneTakes(r, Forward, Lit(pat[0]), p);
      PlainIsMagic(r, pat[1..], Ahead(r, p), q);
    }
  }

  lemma PlainMatchesAt(r: Ring, pat: seq<Byte>, p: Cursor)
    requires On(r, p)
    ensures S.LiteralEnd(r, pat, p).Some? <==> MatchesAt(r, Forward, Literals(pat), p)
  {
    hide Spans, S.LiteralEnd;
    forall q {
      PlainIsMagic(r, pat, p, q);
    }
    if S.LiteralEnd(r, pat, p).Some? {
      assert Spans(r, Forward, Literals(pat), p, S.LiteralEnd(r, pat, p).value);
    }
  }

  /** The character loop stops at the first place tried at which the text matches. */
  ghost predicate FirstMatch(r: Ring, pat: seq<Byte>, dot: Cursor, o: S.Outcome)
    requires On(r, dot)
  {
    && (o.status <==> exists p :: InScan(r, Forward, dot, p) && MatchesAt(r, Forward, Literals(pat), p))
    && (o.status ==>
        && InScan(r, Forward, dot, o.found) && Spans(r, Forward, Literals(pat), o.found, o.end)
        && forall p :: InScan(r, Forward, dot, p) && MatchesAt(r, Forward, Literals(pat), p) ==>
             p == o.found || TriedBefore(r, Forward, dot, o.found, p))
  }

  lemma {:induction false} ScanIsFirstMatch(r: Ring, pat: seq<Byte>, cur: Cursor, found: Cursor)
    requires On(r, cur)
    ensures FirstMatch(r, pat, cur, S.PlainScan(r, pat, cur, found))
    decreases S.LinesToGo(r, cur), S.BytesToGo(r, cur)
  {
    hide MatchesAt, Spans, S.LiteralEnd, InScan, TriedBefore;
    ScanUnfolds(r, Forward, cur);
    if !Boundary(r, cur, Forward) {
      PlainMatchesAt(r, pat, cur);
      if S.LiteralEnd(r, pat, cur).Some? {
        PlainIsMagic(r, pat, cur, S.LiteralEnd(r, pat, cur).value);
      } else {
        ScanIsFirstMatch(r, pat, Ahead(r, cur), cur);
        StaysBefore(r, cur);
      }
    }
  }

  lemma StaysBefore(r: Ring, cur: Cursor)
    requires On(r, cur) && !Boundary(r, cur, Forward)
    ensures var next := Ahead(r, cur);
      forall a, b | InScan(r, Forward, next, a) && InScan(r, Forward, next, b) && TriedBefore(r, Forward, next, a, b) ::
        a == cur || b == cur || TriedBefore(r, Forward, cur, a, b)
  {
  }

  /** The loop of `scanner` finds the text iff a forward MAGIC search for it as a pattern would, at the
      same first place, with the same end. */
  lemma PlainSearchIsMagic(r: Ring, pat: seq<Byte>, dot: Cursor, found: Cursor)
    requires On(r, dot)
    ensures var o := S.PlainScan(r, pat, dot, found);
      && (o.status <==> exists p :: Tried(r, dot, p) && MatchesAt(r, Forward, Literals(pat), p))
      && (o.status ==>
          && Tried(r, dot, o.found) && Spans(r, Forward, Literals(pat), o.found, o.end)
          && forall p :: Tried(r, dot, p) && MatchesAt(r, Forward, Literals(pat), p) ==>
               o.found == dot || o.found.line < p.line || (o.found.line == p.line && o.found.off <= p.off))
  {
    hide MatchesAt, Spans, S.PlainScan;
    ScanIsFirstMatch(r, pat, dot, found);
    TriedIsScan(r, dot);
  }
}
