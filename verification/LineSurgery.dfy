/** What each group of pointer assignments in line.c does to the ring of lines and to the windows. */
module LineSurgery {
  import opened Bytes
  import opened Text
  import opened LineMemory

  /** A line pointer and a byte offset: `w_dotp`/`w_doto`, `w_markp`/`w_marko`. */
  datatype Place = Place(p: Ptr, off: nat)

  /** The pointers a `struct window` holds into the lines. */
  datatype Win = Win(linep: Ptr, dot: Place, mark: Option<Place>)

  predicate PlaceOk(m: Memory, pl: Place) {
    pl.p in m && pl.off <= |m[pl.p].text|
  }

  predicate WinOk(m: Memory, w: Win) {
    w.linep in m && PlaceOk(m, w.dot) && (w.mark.Some? ==> PlaceOk(m, w.mark.value))
  }

  predicate WinIn(order: seq<Ptr>, w: Win) {
    w.linep in order && w.dot.p in order && (w.mark.Some? ==> w.mark.value.p in order)
  }

  ghost function PosOf(order: seq<Ptr>, pl: Place): Pos
    requires pl.p in order
  {
    Pos(IndexOf(order, pl.p), pl.off)
  }

  ghost function ViewOf(order: seq<Ptr>, w: Win): View
    requires WinIn(order, w)
  {
    View(IndexOf(order, w.linep), PosOf(order, w.dot), if w.mark.Some? then Some(PosOf(order, w.mark.value)) else None)
  }

  const BLOCK_SIZE := 16

  /** `lalloc` rounds the requested size up to whole blocks, and never to none. */
  function LineSize(used: nat): (size: nat)
    ensures used <= size && size > 0
  {
    if used == 0 then BLOCK_SIZE else (used + BLOCK_SIZE - 1) / BLOCK_SIZE * BLOCK_SIZE
  }

  /** The size is the least positive multiple of 16 that holds the bytes. */
  lemma LineSizeIsLeast(used: nat)
    ensures LineSize(used) % 16 == 0 && forall k: nat :: 16 * k >= used && k > 0 ==> 16 * k >= LineSize(used)
  {
    var n := (used + 15) / 16;
    assert (16 * n) % 16 == 0;
  }

  function NewLine(used: nat, text: seq<Byte>): Node {
    Node(0, 0, LineSize(used), text)
  }

  lemma SetTextRing(m: Memory, order: seq<Ptr>, p: Ptr, s: seq<Byte>)
    requires Ring(m, order) && p in m && |s| <= m[p].size && (p == order[|order| - 1] ==> s == [])
    ensures Ring(SetText(m, p, s), order)
    ensures p != order[|order| - 1] ==> IndexOf(order, p) < |order| - 1
    ensures p != order[|order| - 1] ==> TextOf(SetText(m, p, s), order) == TextOf(m, order)[IndexOf(order, p) := s]
  {
    var m' := SetText(m, p, s);
    forall i | 0 <= i < |order| ensures Linked(m', order[i], order[Nx(|order|, i)]) {
      assert Linked(m, order[i], order[Nx(|order|, i)]);
    }
    if p != order[|order| - 1] {
      var j := IndexOf(order, p);
      forall i | 0 <= i < |order| - 1 ensures TextOf(m', order)[i] == TextOf(m, order)[j := s][i] {
        assert order[i] == p <==> i == j;
      }
    }
  }

  /** The links of `lnewline`: `lp2` goes in before `lp1`. */
  function InsertBefore(m: Memory, lp1: Ptr, lp2: Ptr): Memory
    requires lp1 in m && lp2 in m && lp1 != lp2 && m[lp1].bp in m
  {
    var m1 := SetBp(m, lp2, m[lp1].bp);
    var m2 := SetBp(m1, lp1, lp2);
    var m3 := SetFp(m2, m2[lp2].bp, lp2);
    SetFp(m3, lp2, lp1)
  }

  /** The links of a reallocation: `q` takes the place of the lines `p` to `last`, which are freed. */
  function PutInPlace(m: Memory, p: Ptr, last: Ptr, q: Ptr): Memory
    requires p in m && last in m && q in m && m[p].bp in m && m[last].fp in m
  {
    var m1 := SetFp(m, m[p].bp, q);
    var m2 := SetFp(m1, q, m1[last].fp);
    var m3 := SetBp(m2, m2[last].fp, q);
    var m4 := SetBp(m3, q, m3[p].bp);
    m4 - {p, last}
  }

  /** The links of the merge in place: `lp2` is taken out after `lp1` and freed. */
  function TakeOut(m: Memory, lp1: Ptr, lp2: Ptr): Memory
    requires lp1 in m && lp2 in m && m[lp2].fp in m
  {
    var m1 := SetFp(m, lp1, m[lp2].fp);
    SetBp(m1, m1[lp2].fp, lp1) - {lp2}
  }

  lemma NeighboursIn(m: Memory, order: seq<Ptr>, i: nat)
    requires Ring(m, order) && i < |order|
    ensures order[i] in m && m[order[i]].fp == order[Nx(|order|, i)] && m[order[i]].bp == order[Prev(|order|, i)]
    ensures Linked(m, order[i], order[Nx(|order|, i)]) && Linked(m, order[Prev(|order|, i)], order[i])
  {
    assert Linked(m, order[i], order[Nx(|order|, i)]);
    assert Linked(m, order[Prev(|order|, i)], order[Nx(|order|, Prev(|order|, i))]);
  }

  lemma InsertBeforeFields(m: Memory, p: Ptr, q: Ptr, node: Node)
    requires q !in m && p in m && Linked(m, m[p].bp, p)
    ensures var m' := InsertBefore(m[q := node], p, q);
      && Rewired(m, m', m[p].bp, q, p) && KeepsTexts(m, m', q)
      && m'.Keys == m.Keys + {q} && m'[q].text == node.text && m'[q].size == node.size
  {
  }

  lemma PutInPlaceFields(m: Memory, p: Ptr, last: Ptr, q: Ptr, node: Node)
    requires q !in m && p in m && last in m && Linked(m, m[p].bp, p) && Linked(m, last, m[last].fp)
    requires m[p].bp != p && m[p].bp != last && m[last].fp != p && m[last].fp != last
    requires p != last ==> Linked(m, p, last)
    ensures m[p].bp in m && m[last].fp in m
    ensures var m' := PutInPlace(m[q := node], p, last, q);
      && Rewired(m, m', m[p].bp, q, m[last].fp) && KeepsTexts(m, m', q)
      && m'.Keys == m.Keys + {q} - {p, last} && m'[q].text == node.text && m'[q].size == node.size
  {
  }

  lemma TakeOutFields(m: Memory, p: Ptr, gone: Ptr)
    requires p in m && gone in m && p != gone && Linked(m, m[p].bp, p) && Linked(m, p, gone) && Linked(m, gone, m[gone].fp)
    requires m[p].bp != gone && m[gone].fp != gone
    ensures m[gone].fp in m
    ensures var m' := TakeOut(m, p, gone);
      && Rewired(m, m', m[p].bp, p, m[gone].fp) && KeepsTexts(m, m', p)
      && m'.Keys == m.Keys - {gone} && m'[p].text == m[p].text && m'[p].size == m[p].size
  {
  }

  /** The texts of a swapped ring. */
  lemma SwapText(m: Memory, order: seq<Ptr>, i: nat, k: nat, q: Ptr, m': Memory)
    requires i <= k < |order| && q !in order[..i] + order[k..]
    requires Ring(m, order) && Ring(m', Swap(order, i, k, q)) && KeepsTexts(m, m', q) && q in m'
    ensures TextOf(m', Swap(order, i, k, q)) == TextOf(m, order)[..i] + [m'[q].text] + TextOf(m, order)[k..]
  {
    hide Ring;
    var o := Swap(order, i, k, q);
    forall j | 0 <= j < |o| - 1
      ensures TextOf(m', o)[j] == (TextOf(m, order)[..i] + [m'[q].text] + TextOf(m, order)[k..])[j]
    {
      if j != i {
        SwapAt(order, i, k, q, j);
      }
    }
  }

  lemma IndexUnique(order: seq<Ptr>, i: nat)
    requires Distinct(order) && i < |order|
    ensures IndexOf(order, order[i]) == i
  {
  }

  lemma SwapMembers(order: seq<Ptr>, i: nat, k: nat, q: Ptr, x: Ptr)
    requires Distinct(order) && i <= k < |order|
    ensures x in Swap(order, i, k, q) <==> x == q || (x in order && !(i <= IndexOf(order, x) < k))
  {
    if x in order && !(i <= IndexOf(order, x) < k) {
      var j := IndexOf(order, x);
      assert x in order[..i] || x in order[k..] by {
        if j < i { assert order[..i][j] == x; } else { assert order[k..][j - k] == x; }
      }
    }
    if x in order[..i] || x in order[k..] {
      var j :| 0 <= j < |order| && order[j] == x && (j < i || j >= k);
      IndexUnique(order, j);
    }
  }

  lemma InsertBeforeRing(m: Memory, order: seq<Ptr>, i: nat, q: Ptr, node: Node)
    requires Ring(m, order) && i < |order| && q !in m && |node.text| <= node.size
    ensures order[i] in m && m[order[i]].bp in m
    ensures Ring(InsertBefore(m[q := node], order[i], q), Swap(order, i, i, q))
    ensures TextOf(InsertBefore(m[q := node], order[i], q), Swap(order, i, i, q))
         == TextOf(m, order)[..i] + [node.text] + TextOf(m, order)[i..]
  {
    NeighboursIn(m, order, i);
    InOrder(m, order);
    InsertBeforeFields(m, order[i], q, node);
    var m' := InsertBefore(m[q := node], order[i], q);
    forall x ensures x in m' <==> x in Swap(order, i, i, q) {
      SwapMembers(order, i, i, q, x);
    }
    SwapRing(m, order, i, i, q, m');
    SwapText(m, order, i, i, q, m');
  }

  lemma ReplaceMembers(order: seq<Ptr>, i: nat, k: nat, q: Ptr, x: Ptr)
    requires Distinct(order) && i <= k <= i + 1 && k + 1 < |order|
    ensures x in Swap(order, i, k + 1, q) <==> x == q || (x in order && x != order[i] && x != order[k])
  {
    IndexUnique(order, i);
    IndexUnique(order, k);
    SwapMembers(order, i, k + 1, q, x);
  }

  lemma RingMembers(m: Memory, order: seq<Ptr>)
    requires Ring(m, order)
    ensures Distinct(order) && forall x :: x in m <==> x in order
  {
    InOrder(m, order);
  }

  lemma ReplaceReady(m: Memory, order: seq<Ptr>, i: nat, k: nat)
    requires Ring(m, order) && i <= k <= i + 1 && k < |order| - 1
    ensures order[i] in m && order[k] in m && order[k + 1] != order[i] && order[k + 1] != order[k]
    ensures |m[order[i]].text| <= m[order[i]].size
    ensures m[order[i]].bp == order[Prev(|order|, i)] && Linked(m, m[order[i]].bp, order[i])
    ensures m[order[i]].bp != order[i] && m[order[i]].bp != order[k]
    ensures m[order[k]].fp == order[k + 1] && Linked(m, order[k], m[order[k]].fp)
    ensures i != k ==> order[i] != order[k] && Linked(m, order[i], order[k])
  {
    NeighboursIn(m, order, i);
    NeighboursIn(m, order, k);
  }

  lemma ReplaceRing(m: Memory, order: seq<Ptr>, i: nat, k: nat, q: Ptr, node: Node)
    requires Ring(m, order) && i <= k <= i + 1 && k < |order| - 1 && q !in m && |node.text| <= node.size
    ensures order[i] in m && order[k] in m && m[order[i]].bp in m && m[order[k]].fp in m
    ensures Ring(PutInPlace(m[q := node], order[i], order[k], q), Swap(order, i, k + 1, q))
    ensures TextOf(PutInPlace(m[q := node], order[i], order[k], q), Swap(order, i, k + 1, q))
         == TextOf(m, order)[..i] + [node.text] + TextOf(m, order)[k + 1..]
  {
    hide PutInPlace, Swap, Ring, Rewired, KeepsTexts;
    ReplaceReady(m, order, i, k);
    RingMembers(m, order);
    PutInPlaceFields(m, order[i], order[k], q, node);
    var m' := PutInPlace(m[q := node], order[i], order[k], q);
    forall x ensures x in m' <==> x in Swap(order, i, k + 1, q) {
      ReplaceMembers(order, i, k, q, x);
    }
    SwapRing(m, order, i, k + 1, q, m');
    SwapText(m, order, i, k + 1, q, m');
  }

  lemma NotAround(order: seq<Ptr>, i: nat)
    requires Distinct(order) && i + 1 < |order|
    ensures order[i] !in order[..i] + order[i + 2..]
  {
  }

  lemma TakeOutRing(m: Memory, order: seq<Ptr>, i: nat)
    requires Ring(m, order) && i + 1 < |order| - 1
    ensures order[i] in m && order[i + 1] in m && m[order[i + 1]].fp in m
    ensures Ring(TakeOut(m, order[i], order[i + 1]), Swap(order, i, i + 2, order[i]))
    ensures TextOf(TakeOut(m, order[i], order[i + 1]), Swap(order, i, i + 2, order[i]))
         == TextOf(m, order)[..i] + [m[order[i]].text] + TextOf(m, order)[i + 2..]
  {
    hide TakeOut, Swap, Ring, Rewired, KeepsTexts, Distinct;
    ReplaceReady(m, order, i, i + 1);
    RingMembers(m, order);
    NotAround(order, i);
    TakeOutFields(m, order[i], order[i + 1]);
    var m' := TakeOut(m, order[i], order[i + 1]);
    forall x ensures x in m' <==> x in Swap(order, i, i + 2, order[i]) {
      ReplaceMembers(order, i, i + 1, order[i], x);
    }
    SwapRing(m, order, i, i + 2, order[i], m');
    SwapText(m, order, i, i + 2, order[i], m');
  }

  /** Where a pointer into a swapped ring leads: pointers into the stretch go to the new line. */
  lemma SwapPtr(order: seq<Ptr>, i: nat, k: nat, q: Ptr, p: Ptr)
    requires i <= k < |order| && Distinct(order) && q !in order[..i] + order[k..] && p in order
    ensures var o, j := Swap(order, i, k, q), IndexOf(order, p);
      && q in o && IndexOf(o, q) == i
      && (j < i ==> p in o && IndexOf(o, p) == j)
      && (j >= k ==> p in o && IndexOf(o, p) == j + 1 + i - k)
  {
    var o, j := Swap(order, i, k, q), IndexOf(order, p);
    SwapDistinct(order, i, k, q);
    assert o[i] == q;
    IndexUnique(o, i);
    if j < i {
      assert o[j] == p;
      IndexUnique(o, j);
    } else if j >= k {
      assert o[j + 1 + i - k] == p;
      IndexUnique(o, j + 1 + i - k);
    }
  }

  // ---- What the editor does to each window, and the move of the view it amounts to ----

  function PlaceSplit(pl: Place, lp1: Ptr, lp2: Ptr, doto: nat): Place {
    if pl.p == lp1 then (if pl.off < doto then Place(lp2, pl.off) else Place(lp1, pl.off - doto)) else pl
  }

  function WinSplit(w: Win, lp1: Ptr, lp2: Ptr, doto: nat): Win {
    Win(if w.linep == lp1 then lp2 else w.linep,
        PlaceSplit(w.dot, lp1, lp2, doto),
        if w.mark.Some? then Some(PlaceSplit(w.mark.value, lp1, lp2, doto)) else None)
  }

  function PlaceCut(pl: Place, dotp: Ptr, doto: nat, chunk: nat): Place {
    if pl.p == dotp && pl.off >= doto
    then (if pl.off - chunk < doto then Place(dotp, doto) else Place(dotp, pl.off - chunk)) else pl
  }

  function WinCut(w: Win, dotp: Ptr, doto: nat, chunk: nat): Win {
    Win(w.linep, PlaceCut(w.dot, dotp, doto, chunk),
        if w.mark.Some? then Some(PlaceCut(w.mark.value, dotp, doto, chunk)) else None)
  }

  function PlaceJoin(pl: Place, lp1: Ptr, lp2: Ptr, used: nat): Place {
    if pl.p == lp2 then Place(lp1, pl.off + used) else pl
  }

  function WinJoin(w: Win, lp1: Ptr, lp2: Ptr, used: nat): Win {
    Win(if w.linep == lp2 then lp1 else w.linep,
        PlaceJoin(w.dot, lp1, lp2, used),
        if w.mark.Some? then Some(PlaceJoin(w.mark.value, lp1, lp2, used)) else None)
  }

  function PlaceJoinNew(pl: Place, lp1: Ptr, lp2: Ptr, lp3: Ptr, used: nat): Place {
    if pl.p == lp1 then Place(lp3, pl.off) else if pl.p == lp2 then Place(lp3, pl.off + used) else pl
  }

  function WinJoinNew(w: Win, lp1: Ptr, lp2: Ptr, lp3: Ptr, used: nat): Win {
    Win(if w.linep == lp1 || w.linep == lp2 then lp3 else w.linep,
        PlaceJoinNew(w.dot, lp1, lp2, lp3, used),
        if w.mark.Some? then Some(PlaceJoinNew(w.mark.value, lp1, lp2, lp3, used)) else None)
  }

  function PlaceFree(pl: Place, lp: Ptr, fp: Ptr): Place {
    if pl.p == lp then Place(fp, 0) else pl
  }

  function WinFree(w: Win, lp: Ptr, fp: Ptr): Win {
    Win(if w.linep == lp then fp else w.linep,
        PlaceFree(w.dot, lp, fp),
        if w.mark.Some? then Some(PlaceFree(w.mark.value, lp, fp)) else None)
  }

  /** A line is replaced by another with the same offsets. */
  function PlaceTo(pl: Place, lp1: Ptr, lp2: Ptr): Place {
    if pl.p == lp1 then Place(lp2, pl.off) else pl
  }

  function WinFirst(w: Win, lp1: Ptr, first: Ptr): Win {
    Win(if w.linep == lp1 then first else w.linep,
        PlaceTo(w.dot, lp1, first),
        if w.mark.Some? then Some(PlaceTo(w.mark.value, lp1, first)) else None)
  }

  /** Reallocation by `linsert`: dots on the line go behind the insertion when it is at the end of
      the line; inside it, those at or after the place shift. Marks keep their offsets. */
  function PlaceGrow(pl: Place, lp1: Ptr, lp2: Ptr, atEnd: bool, doto: nat, n: nat): Place {
    if pl.p != lp1 then pl
    else if atEnd then Place(lp2, doto + n)
    else if pl.off >= doto then Place(lp2, pl.off + n) else Place(lp2, pl.off)
  }

  function WinGrow(w: Win, lp1: Ptr, lp2: Ptr, atEnd: bool, doto: nat, n: nat): Win {
    Win(if w.linep == lp1 then lp2 else w.linep,
        PlaceGrow(w.dot, lp1, lp2, atEnd, doto, n),
        if w.mark.Some? then Some(PlaceTo(w.mark.value, lp1, lp2)) else None)
  }

  lemma PlaceSplitMoves(order: seq<Ptr>, t: Lines, pl: Place, i: nat, q: Ptr, doto: nat)
    requires Distinct(order) && i < |order| && q !in order && |t| == |order| - 1 && OkPos(t, Pos(i, doto)) && pl.p in order
    ensures var o, pl' := Swap(order, i, i, q), PlaceSplit(pl, order[i], q, doto);
      pl'.p in o && PosOf(o, pl') == MovePos(t, Split(i, doto), PosOf(order, pl))
  {
    assert order[..i] + order[i..] == order;
    IndexUnique(order, i);
    SwapPtr(order, i, i, q, pl.p);
  }

  lemma WinSplitMoves(order: seq<Ptr>, t: Lines, w: Win, i: nat, q: Ptr, doto: nat, current: bool)
    requires Distinct(order) && i < |order| && q !in order && |t| == |order| - 1 && OkPos(t, Pos(i, doto)) && WinIn(order, w)
    ensures var o, w' := Swap(order, i, i, q), WinSplit(w, order[i], q, doto);
      WinIn(o, w') && ViewOf(o, w') == MoveView(t, Split(i, doto), ViewOf(order, w), current)
  {
    assert order[..i] + order[i..] == order;
    IndexUnique(order, i);
    SwapPtr(order, i, i, q, w.linep);
    PlaceSplitMoves(order, t, w.dot, i, q, doto);
    if w.mark.Some? {
      PlaceSplitMoves(order, t, w.mark.value, i, q, doto);
    }
  }

  lemma WinCutMoves(order: seq<Ptr>, t: Lines, w: Win, i: nat, doto: nat, chunk: nat, current: bool)
    requires Distinct(order) && |t| == |order| - 1 && Fits(t, Cut(i, doto, chunk)) && WinIn(order, w)
    ensures var w' := WinCut(w, order[i], doto, chunk);
      WinIn(order, w') && ViewOf(order, w') == MoveView(t, Cut(i, doto, chunk), ViewOf(order, w), current)
  {
    IndexUnique(order, i);
  }

  lemma PlaceJoinMoves(order: seq<Ptr>, t: Lines, pl: Place, i: nat)
    requires Distinct(order) && |t| == |order| - 1 && Fits(t, Join(i)) && pl.p in order
    ensures var o, pl' := Swap(order, i, i + 2, order[i]), PlaceJoin(pl, order[i], order[i + 1], |t[i]|);
      pl'.p in o && PosOf(o, pl') == MovePos(t, Join(i), PosOf(order, pl))
  {
    IndexUnique(order, i);
    IndexUnique(order, i + 1);
    SwapPtr(order, i, i + 2, order[i], pl.p);
  }

  lemma WinJoinMoves(order: seq<Ptr>, t: Lines, w: Win, i: nat, current: bool)
    requires Distinct(order) && |t| == |order| - 1 && Fits(t, Join(i)) && WinIn(order, w)
    ensures var o, w' := Swap(order, i, i + 2, order[i]), WinJoin(w, order[i], order[i + 1], |t[i]|);
      WinIn(o, w') && ViewOf(o, w') == MoveView(t, Join(i), ViewOf(order, w), current)
  {
    IndexUnique(order, i);
    IndexUnique(order, i + 1);
    SwapPtr(order, i, i + 2, order[i], w.linep);
    PlaceJoinMoves(order, t, w.dot, i);
    if w.mark.Some? {
      PlaceJoinMoves(order, t, w.mark.value, i);
    }
  }

  lemma PlaceJoinNewMoves(order: seq<Ptr>, t: Lines, pl: Place, i: nat, q: Ptr)
    requires Distinct(order) && |t| == |order| - 1 && Fits(t, Join(i)) && pl.p in order && q !in order
    ensures var o, pl' := Swap(order, i, i + 2, q), PlaceJoinNew(pl, order[i], order[i + 1], q, |t[i]|);
      pl'.p in o && PosOf(o, pl') == MovePos(t, Join(i), PosOf(order, pl))
  {
    IndexUnique(order, i);
    IndexUnique(order, i + 1);
    SwapPtr(order, i, i + 2, q, pl.p);
  }

  lemma WinJoinNewMoves(order: seq<Ptr>, t: Lines, w: Win, i: nat, q: Ptr, current: bool)
    requires Distinct(order) && |t| == |order| - 1 && Fits(t, Join(i)) && WinIn(order, w) && q !in order
    ensures var o, w' := Swap(order, i, i + 2, q), WinJoinNew(w, order[i], order[i + 1], q, |t[i]|);
      WinIn(o, w') && ViewOf(o, w') == MoveView(t, Join(i), ViewOf(order, w), current)
  {
    IndexUnique(order, i);
    IndexUnique(order, i + 1);
    SwapPtr(order, i, i + 2, q, w.linep);
    PlaceJoinNewMoves(order, t, w.dot, i, q);
    if w.mark.Some? {
      PlaceJoinNewMoves(order, t, w.mark.value, i, q);
    }
  }

  lemma PlaceToMoves(order: seq<Ptr>, pl: Place, i: nat, q: Ptr)
    requires Distinct(order) && i + 1 < |order| && pl.p in order && q !in order
    ensures var o, pl' := Swap(order, i, i + 1, q), PlaceTo(pl, order[i], q);
      pl'.p in o && PosOf(o, pl') == PosOf(order, pl)
  {
    IndexUnique(order, i);
    SwapPtr(order, i, i + 1, q, pl.p);
  }

  lemma WinGrowMoves(order: seq<Ptr>, t: Lines, w: Win, i: nat, q: Ptr, doto: nat, s: seq<Byte>, current: bool)
    requires Distinct(order) && |t| == |order| - 1 && Fits(t, Put(i, doto, s, true)) && WinIn(order, w) && q !in order
    ensures var o, w' := Swap(order, i, i + 1, q), WinGrow(w, order[i], q, doto == |t[i]|, doto, |s|);
      WinIn(o, w') && ViewOf(o, w') == MoveView(t, Put(i, doto, s, true), ViewOf(order, w), current)
  {
    IndexUnique(order, i);
    SwapPtr(order, i, i + 1, q, w.linep);
    PlaceToMoves(order, w.dot, i, q);
    if w.mark.Some? {
      PlaceToMoves(order, w.mark.value, i, q);
    }
  }

  lemma WinFirstMoves(order: seq<Ptr>, w: Win, q: Ptr, current: bool)
    requires |order| == 1 && WinIn(order, w) && q !in order
    requires w.dot.off == 0 && (w.mark.Some? ==> w.mark.value.off == 0)
    ensures var o, w' := Swap(order, 0, 0, q), WinFirst(w, order[0], q);
      WinIn(o, w') && ViewOf(o, w') == MoveView([], First, ViewOf(order, w), current)
  {
    var o := Swap(order, 0, 0, q);
    assert o == [q, order[0]];
    IndexUnique(o, 0);
    IndexUnique(order, 0);
  }

  lemma PlaceFreeMoves(order: seq<Ptr>, t: Lines, pl: Place)
    requires |order| >= 2 && Distinct(order) && |t| == |order| - 1 && Fits(t, Drop) && pl.p in order && OkPos(t, PosOf(order, pl))
    ensures var o, pl' := Dropped(order), PlaceFree(pl, order[|order| - 2], order[|order| - 1]);
      pl'.p in o && PosOf(o, pl') == MovePos(t, Drop, PosOf(order, pl))
  {
    var o, n, j := Dropped(order), |order|, IndexOf(order, pl.p);
    assert Distinct(o);
    IndexUnique(order, n - 2);
    IndexUnique(order, n - 1);
    assert o[n - 2] == order[n - 1];
    IndexUnique(o, n - 2);
    if j < n - 2 {
      assert o[j] == pl.p;
      IndexUnique(o, j);
    }
  }

  lemma WinFreeMoves(order: seq<Ptr>, t: Lines, w: Win, current: bool)
    requires |order| >= 2 && Distinct(order) && |t| == |order| - 1 && Fits(t, Drop) && WinIn(order, w) && OkView(t, ViewOf(order, w))
    ensures var o, w' := Dropped(order), WinFree(w, order[|order| - 2], order[|order| - 1]);
      WinIn(o, w') && ViewOf(o, w') == MoveView(t, Drop, ViewOf(order, w), current)
  {
    PlaceFreeMoves(order, t, Place(w.linep, 0));
    PlaceFreeMoves(order, t, w.dot);
    if w.mark.Some? {
      PlaceFreeMoves(order, t, w.mark.value);
    }
  }

  // ---- The abstract buffer a memory, ring and window list stand for ----

  ghost predicate Sound(m: Memory, order: seq<Ptr>, wins: seq<Win>, cur: nat) {
    Ring(m, order) && cur < |wins| && forall i :: 0 <= i < |wins| ==> WinOk(m, wins[i])
  }

  ghost function AbsOf(m: Memory, order: seq<Ptr>, wins: seq<Win>, cur: nat): (ed: Ed)
    requires Ring(m, order) && forall i :: 0 <= i < |wins| ==> WinIn(order, wins[i])
    ensures ed.text == TextOf(m, order) && ed.cur == cur
    ensures |ed.views| == |wins| && forall i :: 0 <= i < |wins| ==> ed.views[i] == ViewOf(order, wins[i])
  {
    Ed(TextOf(m, order), seq(|wins|, i requires 0 <= i < |wins| => ViewOf(order, wins[i])), cur)
  }

  /** A window's pointers are good in memory iff its view is good in the text. */
  lemma WinOkView(m: Memory, order: seq<Ptr>, w: Win)
    requires Ring(m, order)
    ensures WinOk(m, w) <==> WinIn(order, w) && OkView(TextOf(m, order), ViewOf(order, w))
  {
    InOrder(m, order);
    if WinIn(order, w) {
      PlaceOkPos(m, order, w.dot);
      if w.mark.Some? {
        PlaceOkPos(m, order, w.mark.value);
      }
    }
  }

  lemma PlaceOkPos(m: Memory, order: seq<Ptr>, pl: Place)
    requires Ring(m, order) && pl.p in order
    ensures PlaceOk(m, pl) <==> OkPos(TextOf(m, order), PosOf(order, pl))
  {
    InOrder(m, order);
    IndexUnique(order, |order| - 1);
  }

  lemma SoundIsOk(m: Memory, order: seq<Ptr>, wins: seq<Win>, cur: nat)
    requires Sound(m, order, wins, cur)
    ensures forall i :: 0 <= i < |wins| ==> WinIn(order, wins[i])
    ensures OkEd(AbsOf(m, order, wins, cur))
  {
    forall i | 0 <= i < |wins| ensures WinIn(order, wins[i]) && OkView(TextOf(m, order), ViewOf(order, wins[i])) {
      WinOkView(m, order, wins[i]);
    }
  }

  /** Every window of `wins'` sees what the edit makes of what its counterpart in `wins` saw. */
  ghost predicate WinsMove(order: seq<Ptr>, wins: seq<Win>, order': seq<Ptr>, wins': seq<Win>, t: Lines, e: Edit, cur: nat) {
    && |wins'| == |wins| && Fits(t, e)
    && forall i :: 0 <= i < |wins| ==> WinMoves(order, wins[i], order', wins'[i], t, e, i == cur)
  }

  ghost predicate WinMoves(order: seq<Ptr>, w: Win, order': seq<Ptr>, w': Win, t: Lines, e: Edit, current: bool)
    requires Fits(t, e)
  {
    WinIn(order, w) && WinIn(order', w') && ViewOf(order', w') == MoveView(t, e, ViewOf(order, w), current)
  }

  /** A change of memory, ring and windows that matches an edit line by line and view by view is
      that edit, and keeps the editor sound. */
  lemma MatchesEdit(m: Memory, order: seq<Ptr>, wins: seq<Win>, cur: nat, e: Edit, m': Memory, order': seq<Ptr>, wins': seq<Win>)
    requires Sound(m, order, wins, cur) && Ring(m', order') && Fits(TextOf(m, order), e)
    requires e.Put? ==> WinIn(order, wins[cur]) && PosOf(order, wins[cur].dot) == Pos(e.l, e.o)
    requires TextOf(m', order') == EditText(TextOf(m, order), e)
    requires WinsMove(order, wins, order', wins', TextOf(m, order), e, cur)
    ensures Sound(m', order', wins', cur)
    ensures forall i :: 0 <= i < |wins| ==> WinIn(order, wins[i]) && WinIn(order', wins'[i])
    ensures AbsOf(m', order', wins', cur) == Apply(AbsOf(m, order, wins, cur), e)
  {
    hide EditText, Ring, MoveView;
    SoundIsOk(m, order, wins, cur);
    assert forall i :: 0 <= i < |wins| ==> WinMoves(order, wins[i], order', wins'[i], TextOf(m, order), e, i == cur);
    ApplyKeepsOk(AbsOf(m, order, wins, cur), e);
    assert AbsOf(m', order', wins', cur).views == Apply(AbsOf(m, order, wins, cur), e).views;
    forall i | 0 <= i < |wins'| ensures WinOk(m', wins'[i]) {
      assert OkView(TextOf(m', order'), AbsOf(m', order', wins', cur).views[i]);
      WinOkView(m', order', wins'[i]);
    }
  }
}
