/** The region between dot and mark: finding it, killing it, and yanking it back. */
module Region {
  import opened Bytes
  import opened Text
  import opened TextEdits
  import opened LineMemory
  import opened LineSurgery
  import opened LineEditor

  /** `struct region`: a starting place and a size in bytes, newlines counted. */
  datatype RegionRec = RegionRec(linep: Ptr, offset: nat, size: int)

  /** The lesser of two positions, linearly. */
  function Lesser(t: Lines, p: Pos, q: Pos): Pos
    requires OkPos(t, p) && OkPos(t, q)
  {
    if Linear(t, p) <= Linear(t, q) then p else q
  }

  function Distance(a: nat, b: nat): nat {
    if a <= b then b - a else a - b
  }

  /** What lies between two positions. */
  function Between(t: Lines, p: Pos, q: Pos): seq<Byte>
    requires OkPos(t, p) && OkPos(t, q)
  {
    LinearBound(t, p);
    LinearBound(t, q);
    if Linear(t, p) <= Linear(t, q) then Flat(t)[Linear(t, p)..Linear(t, q)] else Flat(t)[Linear(t, q)..Linear(t, p)]
  }

  lemma NextLine(t: Lines, l: nat)
    requires l < |t|
    ensures Linear(t, Pos(l + 1, 0)) == Linear(t, Pos(l, 0)) + |t[l]| + 1
  {
    FlatAround(t[..l + 1], l);
    assert t[..l + 1][..l] == t[..l];
    assert |t[..l + 1][l + 1..]| == 0;
  }

  lemma SameLineSizes(t: Lines, l: nat, o: nat)
    requires OkPos(t, Pos(l, o))
    ensures Linear(t, Pos(l, o)) == Linear(t, Pos(l, 0)) + o
  {
  }

  /** The line at `order[i]`, as the scans of `getregion` see it. */
  lemma LineAt(e: Editor, i: nat)
    requires e.Valid() && i < |e.order|
    ensures e.order[i] in e.mem && |e.Abs().text| == |e.order| - 1 && IndexOf(e.order, e.order[i]) == i
    ensures |e.mem[e.order[i]].text| == if i < |e.order| - 1 then |e.Abs().text[i]| else 0
    ensures e.order[i] == e.linep <==> i == |e.order| - 1
    ensures e.mem[e.order[i]].fp == e.order[Nx(|e.order|, i)] && e.mem[e.order[i]].bp == e.order[Prev(|e.order|, i)]
  {
    NeighboursIn(e.mem, e.order, i);
    IndexUnique(e.order, i);
    IndexUnique(e.order, |e.order| - 1);
  }

  /** The window's dot and mark, as pointers and as positions. */
  lemma DotAndMark(e: Editor)
    requires e.Valid()
    ensures e.cur < |e.wins| && WinIn(e.order, e.wins[e.cur])
    ensures OkPos(e.Abs().text, Dot(e.Abs())) && Dot(e.Abs()) == PosOf(e.order, e.wins[e.cur].dot)
    ensures e.Abs().views[e.cur].mark.Some? <==> e.wins[e.cur].mark.Some?
    ensures e.wins[e.cur].mark.Some? ==>
        OkPos(e.Abs().text, e.Abs().views[e.cur].mark.value)
        && e.Abs().views[e.cur].mark.value == PosOf(e.order, e.wins[e.cur].mark.value)
  {
    AbsIs(e);
    SoundIsOk(e.mem, e.order, e.wins, e.cur);
    assert OkView(e.Abs().text, e.Abs().views[e.cur]);
  }

  /** The current window's mark. */
  function Mark(ed: Ed): Option<Pos>
    requires ed.cur < |ed.views|
  {
    ed.views[ed.cur].mark
  }

  /** `getregion`: scan outward from dot for the mark. With a mark set in the buffer it always ends
      in success, with exactly the stretch between the two. */
  method GetRegion(e: Editor) returns (ok: bool, r: RegionRec)
    requires e.Valid()
    ensures ok <==> Mark(e.Abs()).Some?
    ensures ok ==> OkPos(e.Abs().text, Dot(e.Abs())) && OkPos(e.Abs().text, Mark(e.Abs()).value) && r.linep in e.order
    ensures ok ==> PosOf(e.order, Place(r.linep, r.offset)) == Lesser(e.Abs().text, Dot(e.Abs()), Mark(e.Abs()).value)
    ensures ok ==> r.size == Distance(Linear(e.Abs().text, Dot(e.Abs())), Linear(e.Abs().text, Mark(e.Abs()).value))
  {
    DotAndMark(e);
    var w := e.wins[e.cur];
    r := RegionRec(w.dot.p, w.dot.off, 0);
    if w.mark.None? {
      return false, r;
    }
    var mark := w.mark.value;
    if w.dot.p == mark.p {
      if w.dot.off < mark.off {
        r := RegionRec(w.dot.p, w.dot.off, mark.off - w.dot.off);
      } else {
        r := RegionRec(w.dot.p, mark.off, w.dot.off - mark.off);
      }
      return true, r;
    }
    r := ScanForMark(e, w.dot, mark);
    return true, r;
  }

  /** The two-way scan. `f` and `b` are the indices of `flp` and `blp`. */
  method ScanForMark(e: Editor, dot: Place, mark: Place) returns (r: RegionRec)
    requires e.Valid() && dot.p in e.order && mark.p in e.order && dot.p != mark.p
    requires OkPos(e.Abs().text, PosOf(e.order, dot)) && OkPos(e.Abs().text, PosOf(e.order, mark))
    ensures r.linep in e.order
    ensures var t, p, q := e.Abs().text, PosOf(e.order, dot), PosOf(e.order, mark);
      PosOf(e.order, Place(r.linep, r.offset)) == Lesser(t, p, q) && r.size == Distance(Linear(t, p), Linear(t, q))
  {
    hide Flat, Linear, Editor.Valid, Editor.Abs, Sound, AbsOf;
    ghost var t, d, m := e.Abs().text, IndexOf(e.order, dot.p), IndexOf(e.order, mark.p);
    ghost var n, at := |e.order|, Linear(t, Pos(d, dot.off));
    LineAt(e, d);
    LinearOrder(t, Pos(d, dot.off), Pos(m, mark.off));
    LinearOrder(t, Pos(m, mark.off), Pos(d, dot.off));
    SameLineSizes(t, m, mark.off);
    SameLineSizes(t, d, dot.off);
    var blp, flp := dot.p, dot.p;
    var bsize: int := dot.off;
    var fsize: int := |e.mem[flp].text| - dot.off + 1;
    ghost var f, b := d, d;
    while flp != e.linep || e.mem[blp].bp != e.linep
      invariant 0 <= b <= d <= f < n && flp == e.order[f] && blp == e.order[b] && flp in e.mem && blp in e.mem
      invariant m < b || f < m
      invariant f < n - 1 ==> fsize == Linear(t, Pos(f, 0)) + |t[f]| + 1 - at
      invariant bsize == at - Linear(t, Pos(b, 0))
      decreases n - f + b
    {
      LineAt(e, f);
      LineAt(e, b);
      if flp != e.linep {
        flp := e.mem[flp].fp;
        NextLine(t, f);
        f := f + 1;
        LineAt(e, f);
        LineAt(e, m);
        if flp == mark.p {
          r := RegionRec(dot.p, dot.off, fsize + mark.off);
          return;
        }
        fsize := fsize + |e.mem[flp].text| + 1;
      }
      if e.mem[blp].bp != e.linep {
        LineAt(e, Prev(n, b));
        blp := e.mem[blp].bp;
        b := b - 1;
        NextLine(t, b);
        LineAt(e, m);
        bsize := bsize + |e.mem[blp].text| + 1;
        if blp == mark.p {
          r := RegionRec(blp, mark.off, bsize - mark.off);
          return;
        }
      }
    }
    // "Bug: lost mark" cannot happen: the scans have covered the whole ring
    LineAt(e, f);
    LineAt(e, b);
    LineAt(e, Prev(n, b));
    assert false;
  }

  // ---- killregion ----

  function WithoutMark(ed: Ed): Ed
    requires ed.cur < |ed.views|
  {
    ed.(views := ed.views[ed.cur := ed.views[ed.cur].(mark := None)])
  }

  /** Dot at the start of the region, and the selection cleared. */
  function AtRegionStart(ed: Ed): (e: Ed)
    requires OkEd(ed) && Mark(ed).Some?
    ensures OkEd(e)
  {
    assert OkView(ed.text, ed.views[ed.cur]);
    var p := Lesser(ed.text, Dot(ed), Mark(ed).value);
    var e := WithoutMark(WithDot(ed, p));
    assert forall i :: 0 <= i < |ed.views| ==> OkView(ed.text, ed.views[i]);
    e
  }

  lemma RegionStartDone(m: Memory, order: seq<Ptr>, wins: seq<Win>, cur: nat, r: RegionRec, wins': seq<Win>)
    requires Sound(m, order, wins, cur) && cur < |wins| && r.linep in order
    requires forall i :: 0 <= i < |wins| ==> WinIn(order, wins[i])
    requires OkPos(TextOf(m, order), PosOf(order, Place(r.linep, r.offset)))
    requires wins' == wins[cur := Win(wins[cur].linep, Place(r.linep, r.offset), None)]
    ensures Sound(m, order, wins', cur)
    ensures forall i :: 0 <= i < |wins| ==> WinIn(order, wins'[i])
    ensures AbsOf(m, order, wins', cur)
         == WithoutMark(WithDot(AbsOf(m, order, wins, cur), PosOf(order, Place(r.linep, r.offset))))
  {
    PlaceOkPos(m, order, Place(r.linep, r.offset));
    assert AbsOf(m, order, wins', cur).views
        == WithoutMark(WithDot(AbsOf(m, order, wins, cur), PosOf(order, Place(r.linep, r.offset)))).views;
  }

  /** Move dot to the start of the region and clear the selection. */
  method GoToRegion(e: Editor, r: RegionRec)
    requires e.Valid() && Mark(e.Abs()).Some? && r.linep in e.order
    requires OkPos(e.Abs().text, Dot(e.Abs())) && OkPos(e.Abs().text, Mark(e.Abs()).value)
    requires PosOf(e.order, Place(r.linep, r.offset)) == Lesser(e.Abs().text, Dot(e.Abs()), Mark(e.Abs()).value)
    modifies e`wins
    ensures e.Valid() && e.Abs() == AtRegionStart(old(e.Abs()))
  {
    hide Flat, Linear, Editor.Abs, AbsOf, Sound;
    AbsIs(e);
    e.wins := e.wins[e.cur := Win(e.wins[e.cur].linep, Place(r.linep, r.offset), None)];
    RegionStartDone(e.mem, e.order, old(e.wins), e.cur, r, e.wins);
    AbsIs(e);
  }

  /** `killregion`; `again` says that the command before was a kill too, so the kill buffer goes on. */
  method KillRegion(e: Editor, again: bool) returns (ok: bool)
    requires e.Valid()
    modifies e
    ensures e.Valid()
    ensures e.view || Mark(old(e.Abs())).None? ==> !ok && e.Abs() == old(e.Abs()) && e.kill == old(e.kill)
    ensures !e.view && Mark(old(e.Abs())).Some? ==>
      var ed := old(e.Abs());
      && OkPos(ed.text, Dot(ed)) && OkPos(ed.text, Mark(ed).value)
      && var d := Delete(AtRegionStart(ed), Distance(Linear(ed.text, Dot(ed)), Linear(ed.text, Mark(ed).value)), true,
                         if again then old(e.kill) else []);
        e.Abs() == d.ed && e.kill == d.kill && ok == Succeeded(d)
  {
    hide Flat, Linear, Lesser, AtRegionStart, Editor.Abs, Editor.Valid, Editor.Held, AbsOf, Sound, Delete;
    DotAndMark(e);
    if e.view {
      return false;
    }
    var found, r := GetRegion(e);
    if !found {
      return false;
    }
    if !again {
      e.KDelete();
    }
    GoToRegion(e, r);
    HeldIsValid(e);
    var logs;
    ok, logs := e.LDelete(r.size, true);
  }

  /** Killing a region of at most 8191 bytes that ends on a line of text, in a fresh kill, removes
      exactly what lies between dot and mark and fills the kill buffer with it; yanking then puts the
      text back, with dot at the region's end. */
  lemma KillYankRoundTrip(ed: Ed)
    requires OkEd(ed) && Mark(ed).Some? && NewlineFree(ed.text)
    requires OnLine(ed.text, Dot(ed)) && OnLine(ed.text, Mark(ed).value)
    requires Distance(Linear(ed.text, Dot(ed)), Linear(ed.text, Mark(ed).value)) <= KILL_MAX
    ensures var p, q := Linear(ed.text, Dot(ed)), Linear(ed.text, Mark(ed).value);
      var d := Delete(AtRegionStart(ed), Distance(p, q), true, []);
      && Succeeded(d) && d.kill == Between(ed.text, Dot(ed), Mark(ed).value)
      && OkPos(d.ed.text, Dot(d.ed))
      && (var (t, dot) := TypeText(d.ed.text, Dot(d.ed), d.kill);
          t == ed.text && Linear(t, dot) == if p <= q then q else p)
  {
    hide Flat, Delete, TypeText;
    var t, p, q := ed.text, Linear(ed.text, Dot(ed)), Linear(ed.text, Mark(ed).value);
    var n, at := Distance(p, q), if p <= q then p else q;
    LinearBound(t, Dot(ed));
    LinearBound(t, Mark(ed).value);
    var e1 := AtRegionStart(ed);
    assert Dot(e1) == Lesser(t, Dot(ed), Mark(ed).value) && Linear(t, Dot(e1)) == at;
    DeleteRemoves(e1, n, true, []);
    var d := Delete(e1, n, true, []);
    RemovedFlat(e1, n, d.ed);
    KilledIs(e1, n, d.ed, d.kill);
    DeleteKeepsLines(e1, n, true, []);
    NotAtEnd(d.ed.text, Dot(d.ed));
    TypeTextFlat(d.ed.text, Dot(d.ed), d.kill);
    Restored(Flat(t), at, n);
    FlatInjective(TypeText(d.ed.text, Dot(d.ed), d.kill).0, t);
  }

  lemma KilledIs(ed: Ed, n: nat, ed': Ed, kill: seq<Byte>)
    requires OkEd(ed) && Removed(ed, n, ed') && Killed(ed, n, true, [], kill)
    ensures OkPos(ed.text, Dot(ed)) && Linear(ed.text, Dot(ed)) + n <= |Flat(ed.text)|
    ensures kill == Flat(ed.text)[Linear(ed.text, Dot(ed))..Linear(ed.text, Dot(ed)) + n]
    ensures Flat(ed'.text) == Splice(Flat(ed.text), Linear(ed.text, Dot(ed)), n, [])
  {
    RemovedFlat(ed, n, ed');
  }

  lemma Restored(f: seq<Byte>, at: nat, n: nat)
    requires at + n <= |f|
    ensures Splice(Splice(f, at, n, []), at, 0, f[at..at + n]) == f
  {
    var g := Splice(f, at, n, []);
    assert g[..at] == f[..at] && g[at..] == f[at + n..];
  }
}
