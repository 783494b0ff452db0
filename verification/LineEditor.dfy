/** The editing routines of line.c on the ring of lines in memory, proved to be the abstract edits. */
module LineEditor {
  import opened Bytes
  import opened Text
  import opened TextEdits
  import opened LineMemory
  import opened LineSurgery

  /** A repeated byte: the `inserted_text` of `linsert`. */
  function Copies(n: nat, c: Byte): (s: seq<Byte>)
    ensures |s| == n && forall i :: 0 <= i < n ==> s[i] == c
  {
    seq(n, _ => c)
  }

  /** The current buffer: its lines in memory, its windows (the current one at `cur`), and the kill
      buffer. `brk` is the next address the allocator gives out; `order` names the lines in order. */
  class Editor {
    var mem: Memory
    var linep: Ptr
    var wins: seq<Win>
    var cur: nat
    var kill: seq<Byte>
    var brk: Ptr
    const view: bool  // MDVIEW: the buffer is read-only
    ghost var order: seq<Ptr>

    ghost predicate Valid()
      reads this
    {
      && Sound(mem, order, wins, cur)
      && linep == order[|order| - 1]
      && (forall p :: p in mem ==> p < brk)
      && |kill| <= KILL_MAX
    }

    ghost function Abs(): (ed: Ed)
      reads this
      requires Valid()
      ensures OkEd(ed) && ed.cur == cur && |ed.views| == |wins|
    {
      SoundIsOk(mem, order, wins, cur);
      AbsOf(mem, order, wins, cur)
    }

    /** The windows, with the current dot put at offset 0 if it is on the header line. */
    ghost function Righted(): (ws: seq<Win>)
      reads this
      requires cur < |wins|
    {
      PutRight(wins, cur, linep)
    }

    /** Valid except that dot, on the header line, may have an offset that line does not have. */
    ghost predicate Held()
      reads this
    {
      && cur < |wins| && Sound(mem, order, Righted(), cur)
      && linep == order[|order| - 1]
      && (forall p :: p in mem ==> p < brk)
      && |kill| <= KILL_MAX
    }

    ghost function Text(): Lines
      reads this
      requires Held()
    {
      TextOf(mem, order)
    }

    /** The abstract buffer of an editor that is held, dot on the header line seen at its offset 0. */
    ghost function Seen(): (ed: Ed)
      reads this
      requires Held()
      ensures OkEd(ed) && ed.cur == cur && |ed.views| == |wins| && ed.text == Text()
    {
      SoundIsOk(mem, order, Righted(), cur);
      AbsOf(mem, order, Righted(), cur)
    }

    /** A new buffer: only the header line, with one window on it. */
    constructor (view: bool)
      ensures Valid() && this.view == view && kill == []
      ensures Abs() == Ed([], [View(0, Pos(0, 0), None)], 0)
    {
      this.view := view;
      linep, brk, cur, kill := 0, 1, 0, [];
      mem := map[0 := Node(0, 0, BLOCK_SIZE, [])];
      order := [0];
      wins := [Win(0, Place(0, 0), None)];
      new;
      assert Linked(mem, order[0], order[Nx(1, 0)]);
      assert Ring(mem, order);
      IndexUnique(order, 0);
      SoundIsOk(mem, order, wins, cur);
      assert Abs().text == [];
      assert Abs().views[0] == View(0, Pos(0, 0), None);
    }

    /** `lalloc`: a new unlinked line with room for `used` bytes. */
    method LAlloc(used: nat, text: seq<Byte>) returns (lp: Ptr)
      requires (forall p :: p in mem ==> p < brk) && |text| <= used
      modifies this`mem, this`brk
      ensures lp == old(brk) && lp !in old(mem) && mem == old(mem)[lp := NewLine(used, text)]
      ensures forall p :: p in mem ==> p < brk
      ensures |text| <= LineSize(used)
    {
      lp := brk;
      mem := mem[lp := NewLine(used, text)];
      brk := brk + 1;
    }

    method SplitWindows(lp1: Ptr, lp2: Ptr, doto: nat)
      modifies this`wins
      ensures |wins| == |old(wins)| && forall i :: 0 <= i < |wins| ==> wins[i] == WinSplit(old(wins)[i], lp1, lp2, doto)
    {
      for i := 0 to |wins|
        invariant |wins| == |old(wins)|
        invariant forall j :: 0 <= j < i ==> wins[j] == WinSplit(old(wins)[j], lp1, lp2, doto)
        invariant forall j :: i <= j < |wins| ==> wins[j] == old(wins)[j]
      {
        wins := wins[i := WinSplit(wins[i], lp1, lp2, doto)];
      }
    }

    /** `lnewline`: the part of the line before dot moves to a new line, inserted before it. */
    method LNewline() returns (ok: bool)
      requires Valid()
      modifies this
      ensures Valid() && kill == old(kill) && cur == old(cur) && ok == !view
      ensures Abs() == if view then old(Abs()) else Apply(old(Abs()), Split(Dot(old(Abs())).line, Dot(old(Abs())).off))
    {
      hide Sound, Ring, AbsOf, Apply, InsertBefore, SetText, WinSplit, Swap, Abs, TextOf, WinIn, PosOf;
      if view {
        return false;
      }
      AbsIs(this);
      SplitReady(mem, order, wins, cur);
      DotIs(mem, order, wins, cur);
      ghost var i, lp2 := IndexOf(order, wins[cur].dot.p), brk;
      BreakLine();
      DotPos(order, old(wins)[cur].dot);
      SplitDone(old(mem), order, old(wins), cur, lp2, mem, wins);
      order := Swap(order, i, i, lp2);
      AbsIs(this);
      return true;
    }

    /** The lines and windows `lnewline` leaves; the new line is the next the allocator gives out. */
    method BreakLine()
      requires (forall p :: p in mem ==> p < brk) && cur < |wins|
      requires wins[cur].dot.p in mem && wins[cur].dot.off <= |mem[wins[cur].dot.p].text| && mem[wins[cur].dot.p].bp in mem
      modifies this`mem, this`brk, this`wins
      ensures old(brk) !in old(mem) && old(brk) in mem && (forall p :: p in mem ==> p < brk)
      ensures mem == Broken(old(mem), old(wins)[cur].dot.p, old(wins)[cur].dot.off, old(brk))
      ensures |wins| == |old(wins)|
      ensures forall i :: 0 <= i < |wins| ==> wins[i] == WinSplit(old(wins)[i], old(wins)[cur].dot.p, old(brk), old(wins)[cur].dot.off)
    {
      hide InsertBefore, SetText, WinSplit;
      var lp1, doto := wins[cur].dot.p, wins[cur].dot.off;
      var lp2 := LAlloc(doto, mem[lp1].text[..doto]);
      SplitLinks(lp1, lp2, doto);
      SplitWindows(lp1, lp2, doto);
    }

    /** The assignments of `lnewline` to the lines around the break. */
    method SplitLinks(lp1: Ptr, lp2: Ptr, doto: nat)
      requires lp1 in mem && lp2 in mem && lp1 != lp2 && mem[lp1].bp in mem && doto <= |mem[lp1].text|
      modifies this`mem
      ensures mem == InsertBefore(SetText(old(mem), lp1, old(mem)[lp1].text[doto..]), lp1, lp2)
      ensures forall x :: x in mem <==> x in old(mem)
    {
      mem := SetText(mem, lp1, mem[lp1].text[doto..]);
      mem := SetBp(mem, lp2, mem[lp1].bp);
      mem := SetBp(mem, lp1, lp2);
      mem := SetFp(mem, mem[lp2].bp, lp2);
      mem := SetFp(mem, lp2, lp1);
    }

    // ---- ldelnewline ----

    method JoinWindows(lp1: Ptr, lp2: Ptr, used: nat)
      modifies this`wins
      ensures |wins| == |old(wins)| && forall i :: 0 <= i < |wins| ==> wins[i] == WinJoin(old(wins)[i], lp1, lp2, used)
    {
      for i := 0 to |wins|
        invariant |wins| == |old(wins)|
        invariant forall j :: 0 <= j < i ==> wins[j] == WinJoin(old(wins)[j], lp1, lp2, used)
        invariant forall j :: i <= j < |wins| ==> wins[j] == old(wins)[j]
      {
        wins := wins[i := WinJoin(wins[i], lp1, lp2, used)];
      }
    }

    method JoinWindowsNew(lp1: Ptr, lp2: Ptr, lp3: Ptr, used: nat)
      modifies this`wins
      ensures |wins| == |old(wins)|
      ensures forall i :: 0 <= i < |wins| ==> wins[i] == WinJoinNew(old(wins)[i], lp1, lp2, lp3, used)
    {
      for i := 0 to |wins|
        invariant |wins| == |old(wins)|
        invariant forall j :: 0 <= j < i ==> wins[j] == WinJoinNew(old(wins)[j], lp1, lp2, lp3, used)
        invariant forall j :: i <= j < |wins| ==> wins[j] == old(wins)[j]
      {
        wins := wins[i := WinJoinNew(wins[i], lp1, lp2, lp3, used)];
      }
    }

    method FreeWindows(lp: Ptr, fp: Ptr)
      modifies this`wins
      ensures |wins| == |old(wins)| && forall i :: 0 <= i < |wins| ==> wins[i] == WinFree(old(wins)[i], lp, fp)
    {
      for i := 0 to |wins|
        invariant |wins| == |old(wins)|
        invariant forall j :: 0 <= j < i ==> wins[j] == WinFree(old(wins)[j], lp, fp)
        invariant forall j :: i <= j < |wins| ==> wins[j] == old(wins)[j]
      {
        wins := wins[i := WinFree(wins[i], lp, fp)];
      }
    }

    /** The links of a merge that fits: `lp2` is unlinked and freed. */
    method TakeOutLinks(lp1: Ptr, lp2: Ptr)
      requires lp1 in mem && lp2 in mem && lp1 != lp2 && mem[lp2].fp in mem
      modifies this`mem
      ensures mem == TakeOut(old(mem), lp1, lp2)
      ensures forall x :: x in mem ==> x in old(mem)
    {
      mem := SetFp(mem, lp1, mem[lp2].fp);
      mem := SetBp(mem, mem[lp2].fp, lp1);
      mem := mem - {lp2};
    }

    /** The links of a reallocation: `q` replaces the lines `p` to `last`, which are freed. */
    method PutInPlaceLinks(p: Ptr, last: Ptr, q: Ptr)
      requires p in mem && last in mem && q in mem && mem[p].bp in mem && mem[last].fp in mem
      modifies this`mem
      ensures mem == PutInPlace(old(mem), p, last, q)
      ensures forall x :: x in mem ==> x in old(mem)
    {
      mem := SetFp(mem, mem[p].bp, q);
      mem := SetFp(mem, q, mem[last].fp);
      mem := SetBp(mem, mem[last].fp, q);
      mem := SetBp(mem, q, mem[p].bp);
      mem := mem - {p, last};
    }

    /** `lfree` of the last line, which is blank: windows on it move to the header. */
    method LFree(lp: Ptr)
      requires Valid() && |order| >= 2 && lp == order[|order| - 2] && lp in mem && mem[lp].text == []
      modifies this
      ensures Valid() && kill == old(kill) && cur == old(cur)
      ensures Fits(old(Abs()).text, Drop) && Abs() == Apply(old(Abs()), Drop)
    {
      hide Sound, Ring, AbsOf, Apply, WinFree, Dropped, Abs;
      AbsIs(this);
      DropReady(mem, order, wins, cur);
      FreeWindows(lp, mem[lp].fp);
      mem := SetFp(mem, mem[lp].bp, mem[lp].fp);
      mem := SetBp(mem, mem[lp].fp, mem[lp].bp);
      mem := mem - {lp};
      DropDone(old(mem), order, old(wins), cur, mem, wins);
      order := Dropped(order);
      AbsIs(this);
    }

    /** The merge of two lines of text, in the first when it has room, else in a new one. */
    method Merge(lp1: Ptr, lp2: Ptr, ghost i: nat)
      requires Valid() && i + 1 < |order| - 1 && lp1 == order[i] && lp2 == order[i + 1]
      modifies this
      ensures Valid() && kill == old(kill) && cur == old(cur)
      ensures Fits(old(Abs()).text, Join(i)) && Abs() == Apply(old(Abs()), Join(i))
    {
      hide Sound, Ring, AbsOf, Apply, TakeOut, PutInPlace, WinJoin, WinJoinNew, Swap, SetText, Abs;
      AbsIs(this);
      JoinReady(mem, order, wins, cur, i);
      var used := |mem[lp1].text|;
      if |mem[lp2].text| <= mem[lp1].size - used {
        JoinWindows(lp1, lp2, used);
        mem := SetText(mem, lp1, mem[lp1].text + mem[lp2].text);
        JoinTextReady(old(mem), order, i);
        TakeOutLinks(lp1, lp2);
        JoinDone(old(mem), order, old(wins), cur, i, mem, wins);
        order := Swap(order, i, i + 2, lp1);
      } else {
        var lp3 := LAlloc(used + |mem[lp2].text|, mem[lp1].text + mem[lp2].text);
        PutInPlaceLinks(lp1, lp2, lp3);
        JoinWindowsNew(lp1, lp2, lp3, used);
        JoinNewDone(old(mem), order, old(wins), cur, i, lp3, mem, wins);
        order := Swap(order, i, i + 2, lp3);
      }
      AbsIs(this);
    }

    /** `ldelnewline`: join the line with the next; at the buffer's end only a blank line is freed. */
    method LDelNewline() returns (ok: bool)
      requires Valid() && Dot(Abs()).line < |Abs().text|
      modifies this
      ensures Valid() && kill == old(kill) && cur == old(cur) && ok == !view
      ensures Abs() == if view || EndEdit(old(Abs())).None? then old(Abs()) else Apply(old(Abs()), EndEdit(old(Abs())).value)
    {
      if view {
        return false;
      }
      hide Sound, Ring, Apply, AbsOf, Abs;
      AbsIs(this);
      SplitReady(mem, order, wins, cur);
      var lp1 := wins[cur].dot.p;
      ghost var i := IndexOf(order, lp1);
      DotIs(mem, order, wins, cur);
      FpIs(mem, order, i);
      var lp2 := mem[lp1].fp;
      if lp2 == linep {
        if |mem[lp1].text| == 0 {
          LFree(lp1);
        }
        return true;
      }
      Merge(lp1, lp2, i);
      return true;
    }

    // ---- ldelete ----

    method CutWindows(dotp: Ptr, doto: nat, chunk: nat)
      modifies this`wins
      ensures |wins| == |old(wins)| && forall i :: 0 <= i < |wins| ==> wins[i] == WinCut(old(wins)[i], dotp, doto, chunk)
    {
      for i := 0 to |wins|
        invariant |wins| == |old(wins)|
        invariant forall j :: 0 <= j < i ==> wins[j] == WinCut(old(wins)[j], dotp, doto, chunk)
        invariant forall j :: i <= j < |wins| ==> wins[j] == old(wins)[j]
      {
        wins := wins[i := WinCut(wins[i], dotp, doto, chunk)];
      }
    }

    /** Scrunch `chunk` bytes out of the line of dot, and fix the windows. */
    method CutLine(chunk: nat)
      requires Valid() && Dot(Abs()).line < |Abs().text| && Dot(Abs()).off + chunk <= |Abs().text[Dot(Abs()).line]|
      modifies this
      ensures Valid() && kill == old(kill) && cur == old(cur)
      ensures Abs() == Apply(old(Abs()), Cut(Dot(old(Abs())).line, Dot(old(Abs())).off, chunk))
    {
      hide Sound, Ring, AbsOf, Apply, WinCut, SetText, Abs;
      AbsIs(this);
      SplitReady(mem, order, wins, cur);
      DotIs(mem, order, wins, cur);
      var dotp, doto := wins[cur].dot.p, wins[cur].dot.off;
      ghost var i := IndexOf(order, dotp);
      FpIs(mem, order, i);
      mem := SetText(mem, dotp, mem[dotp].text[..doto] + mem[dotp].text[doto + chunk..]);
      CutWindows(dotp, doto, chunk);
      CutDone(old(mem), order, old(wins), cur, i, doto, chunk, mem, wins);
      AbsIs(this);
    }

    /** `kinsert`: add a byte to the kill buffer unless it is full. */
    method KInsert(c: Byte) returns (ok: bool)
      modifies this`kill
      ensures ok == (|old(kill)| < KILL_MAX)
      ensures kill == if ok then old(kill) + [c] else old(kill)
    {
      if |kill| >= KILL_MAX {
        return false;
      }
      kill := kill + [c];
      return true;
    }

    /** The kill loop of `ldelete`: as many of the bytes as fit. */
    method KillBytes(bytes: seq<Byte>) returns (ok: bool)
      requires |kill| <= KILL_MAX
      modifies this`kill
      ensures ok == (|old(kill)| + |bytes| <= KILL_MAX)
      ensures kill == if ok then old(kill) + bytes else (old(kill) + bytes)[..KILL_MAX]
    {
      for i := 0 to |bytes|
        invariant |old(kill)| + i <= KILL_MAX && kill == old(kill) + bytes[..i]
      {
        var room := KInsert(bytes[i]);
        if !room {
          assert kill == (old(kill) + bytes)[..KILL_MAX];
          return false;
        }
      }
      return true;
    }

    /** `ldelnewline() == FALSE || (kflag && kinsert('\n') == FALSE)`. */
    method DeleteNewline(kflag: bool) returns (roomy: bool)
      requires Valid() && !view && Dot(Abs()).line < |Abs().text|
      modifies this
      ensures Valid() && cur == old(cur) && roomy == (kflag ==> |old(kill)| < KILL_MAX)
      ensures kill == if kflag && roomy then old(kill) + [NEWLINE] else old(kill)
      ensures Abs() == if EndEdit(old(Abs())).None? then old(Abs()) else Apply(old(Abs()), EndEdit(old(Abs())).value)
    {
      hide Sound, Ring, Apply, AbsOf, Abs, EndEdit;
      var merged := LDelNewline();
      AbsIs(this);
      roomy := true;
      if kflag {
        roomy := KInsert(NEWLINE);
        AbsIs(this);
      }
    }

    /** A turn of the `ldelete` loop at the end of a line. */
    method NewlineTurn(left: nat, kflag: bool) returns (roomy: bool)
      requires Valid() && !view && left > 0 && AtLineEnd(Abs())
      modifies this
      ensures Valid() && cur == old(cur)
      ensures Delete(old(Abs()), left, kflag, old(kill)) ==
        if roomy then Delete(Abs(), left - 1, kflag, kill) else Deletion(Abs(), left, kill, false)
    {
      hide Sound, Ring, Apply, AbsOf, Abs, Delete, TextOf, EndEdit;
      KillFits(this);
      DeleteAtLineEnd(Abs(), left, kflag, kill);
      roomy := DeleteNewline(kflag);
    }

    /** A turn inside a line, for `chunk` bytes of it. */
    method CutTurn(left: nat, chunk: nat, kflag: bool) returns (roomy: bool)
      requires Valid() && !view && InLine(Abs()) && chunk == ChunkAt(Abs(), left) > 0
      modifies this
      ensures Valid() && cur == old(cur)
      ensures Delete(old(Abs()), left, kflag, old(kill)) ==
        if roomy then Delete(Abs(), left - chunk, kflag, kill) else Deletion(Abs(), left, kill, false)
    {
      hide Sound, Ring, Apply, AbsOf, Abs, Delete, TextOf, Splice;
      AbsIs(this);
      KillFits(this);
      DeleteInLine(Abs(), left, kflag, kill);
      if kflag {
        DotBytes(this);
        var room := KillBytes(mem[wins[cur].dot.p].text[wins[cur].dot.off..wins[cur].dot.off + chunk]);
        AbsIs(this);
        if !room {
          return false;
        }
      }
      CutLine(chunk);
      return true;
    }

    /** One turn of the `ldelete` loop: `stop` when dot is on the header or the kill buffer is full. */
    method DeleteTurn(left: nat, kflag: bool) returns (left': nat, stop: bool, roomy: bool)
      requires Valid() && !view && left > 0
      modifies this
      ensures Valid() && cur == old(cur)
      ensures !stop ==> left' < left && Delete(old(Abs()), left, kflag, old(kill)) == Delete(Abs(), left', kflag, kill)
      ensures stop ==> Delete(old(Abs()), left, kflag, old(kill)) == Deletion(Abs(), left', kill, roomy) && !(roomy && left' == 0)
    {
      hide Sound, Ring, Apply, AbsOf, Abs, Delete, TextOf, Linked;
      KillFits(this);
      DotBytes(this);
      var dotp, doto := wins[cur].dot.p, wins[cur].dot.off;
      if dotp == linep {
        DeleteStops(Abs(), left, kflag, kill);
        return left, true, true;
      }
      var chunk := |mem[dotp].text| - doto;
      if chunk > left {
        chunk := left;
      }
      if chunk == 0 {
        roomy := NewlineTurn(left, kflag);
        return if roomy then left - 1 else left, !roomy, roomy;
      }
      roomy := CutTurn(left, chunk, kflag);
      return if roomy then left - chunk else left, !roomy, roomy;
    }

    /** `ldelete`: delete `n` bytes from dot on, the kill buffer taking them when `kflag` is set. On
        the header line it does nothing, whatever the offset of dot. It comes to log what it did unless
        there was nothing to do or the kill buffer ran out of room. */
    method LDelete(n: int, kflag: bool) returns (ok: bool, logs: bool)
      requires Held()
      modifies this
      ensures Held() && cur == old(cur) && (Valid() <==> old(Valid()))
      ensures view || n <= 0 || old(wins[cur].dot.p == linep) ==>
        unchanged(this) && (ok <==> !view && n == 0) && (logs <==> !view && n > 0)
      ensures !old(Valid()) ==> old(wins[cur].dot.p == linep)
      ensures !view && n >= 0 && old(Valid()) ==>
        var d := Delete(old(Abs()), n, kflag, old(kill));
        Abs() == d.ed && kill == d.kill && ok == Succeeded(d) && (logs <==> n > 0 && d.roomy)
    {
      if view || n < 0 {
        return false, false;
      }
      HeldIsValid(this);
      if old(Valid()) {
        DeleteNone(this, kflag);
      }
      if n == 0 {
        return true, false;
      }
      if wins[cur].dot.p == linep {
        return false, true;
      }
      ok, logs := DeleteLoop(n, kflag);
      HeldIsValid(this);
    }

    /** The loop of `ldelete`. */
    method DeleteLoop(n: nat, kflag: bool) returns (ok: bool, roomy: bool)
      requires Valid() && !view
      modifies this
      ensures Valid() && cur == old(cur)
      ensures var d := Delete(old(Abs()), n, kflag, old(kill));
        Abs() == d.ed && kill == d.kill && ok == Succeeded(d) && roomy == d.roomy
    {
      hide Sound, Ring, Apply, AbsOf, Abs, Delete, TextOf;
      var left: nat := n;
      ghost var goal := Delete(Abs(), n, kflag, kill);
      while left > 0
        invariant Valid() && cur == old(cur)
        invariant Delete(Abs(), left, kflag, kill) == goal
      {
        var stop;
        left, stop, roomy := DeleteTurn(left, kflag);
        if stop {
          return false, roomy;
        }
      }
      DeleteStops(Abs(), left, kflag, kill);
      return true, true;
    }

    // ---- linsert ----

    method GrowWindows(lp1: Ptr, lp2: Ptr, atEnd: bool, doto: nat, n: nat)
      modifies this`wins
      ensures |wins| == |old(wins)|
      ensures forall i :: 0 <= i < |wins| ==> wins[i] == WinGrow(old(wins)[i], lp1, lp2, atEnd, doto, n)
    {
      for i := 0 to |wins|
        invariant |wins| == |old(wins)|
        invariant forall j :: 0 <= j < i ==> wins[j] == WinGrow(old(wins)[j], lp1, lp2, atEnd, doto, n)
        invariant forall j :: i <= j < |wins| ==> wins[j] == old(wins)[j]
      {
        wins := wins[i := WinGrow(wins[i], lp1, lp2, atEnd, doto, n)];
      }
    }

    method FirstWindows(lp1: Ptr, first: Ptr)
      modifies this`wins
      ensures |wins| == |old(wins)| && forall i :: 0 <= i < |wins| ==> wins[i] == WinFirst(old(wins)[i], lp1, first)
    {
      for i := 0 to |wins|
        invariant |wins| == |old(wins)|
        invariant forall j :: 0 <= j < i ==> wins[j] == WinFirst(old(wins)[j], lp1, first)
        invariant forall j :: i <= j < |wins| ==> wins[j] == old(wins)[j]
      {
        wins := wins[i := WinFirst(wins[i], lp1, first)];
      }
    }

    /** The links of a first line: `first` and the header point at each other. */
    method FirstLinks(lp1: Ptr, first: Ptr)
      requires lp1 in mem && first in mem && lp1 != first && mem[lp1].fp == lp1 && mem[lp1].bp == lp1
      modifies this`mem
      ensures mem == InsertBefore(old(mem), lp1, first)
      ensures forall x :: x in mem ==> x in old(mem)
    {
      mem := SetBp(mem, first, lp1);
      mem := SetFp(mem, first, mem[lp1].fp);
      mem := SetBp(mem, mem[lp1].fp, first);
      mem := SetFp(mem, lp1, first);
    }

    /** `linsert` in an empty buffer makes a first line. */
    method MakeFirst()
      requires Held() && wins[cur].dot.p == linep && |order| == 1
      modifies this
      ensures Valid() && kill == old(kill) && cur == old(cur)
      ensures old(Seen()).text == [] && Abs() == Apply(old(Seen()), First)
      ensures wins[cur].dot.p in mem && mem[wins[cur].dot.p].text == [] && mem[wins[cur].dot.p].size == BLOCK_SIZE
    {
      hide Sound, Ring, AbsOf, Apply, Abs, InsertBefore, Swap, WinFirst;
      ghost var ws := Righted();
      RightedReady(this);
      HeaderReady(mem, order, ws, cur);
      var lp1 := linep;
      var first := LAlloc(0, []);
      FirstLinks(lp1, first);
      FirstSize(old(mem), lp1, first);
      FirstWindows(lp1, first);
      FirstDot(old(wins), cur, lp1, first);
      wins := wins[cur := wins[cur].(dot := Place(first, 0))];
      FirstDone(old(mem), order, ws, cur, first, mem, wins);
      order := [first, order[0]];
      AbsIs(this);
    }

    /** `linsert` at the header line of another buffer goes to the end of the last line. */
    method GoToLast()
      requires Held() && wins[cur].dot.p == linep && |order| > 1
      modifies this`wins
      ensures Valid() && wins[cur].dot.p == order[|order| - 2]
      ensures old(Seen()).text != []
      ensures var t := old(Seen()).text; Abs() == WithDot(old(Seen()), Pos(|t| - 1, |t[|t| - 1]|))
    {
      hide Sound, Ring, AbsOf, Abs, TextOf;
      ghost var ws := Righted();
      RightedReady(this);
      HeaderReady(mem, order, ws, cur);
      var last := mem[linep].bp;
      wins := wins[cur := wins[cur].(dot := Place(last, |mem[last].text|))];
      LastDone(mem, order, ws, cur, last, wins);
      AbsIs(this);
    }

    /** `linsert` at the header line: make a first line, or go to the end of the last. */
    method LeaveHeader(ghost n: nat)
      requires Held()
      modifies this
      ensures Valid() && kill == old(kill) && cur == old(cur) && Abs() == OffHeader(old(Seen()))
      ensures Grows(n) == old(WillGrow(n))
    {
      hide Sound, Ring, AbsOf, Apply, Abs, TextOf;
      RightedReady(this);
      HeldIsValid(this);
      var lp1 := wins[cur].dot.p;
      if lp1 == linep {
        HeaderReady(mem, order, Righted(), cur);
        SeenOnHeader(this);
        if mem[lp1].fp == lp1 {
          MakeFirst();
        } else {
          GoToLast();
        }
      }
    }

    /** Whether `linsert` of `n` bytes will have to reallocate the line it stores them in. */
    ghost predicate WillGrow(n: nat)
      reads this
      requires Held()
    {
      RightedReady(this);
      if wins[cur].dot.p != linep then |mem[wins[cur].dot.p].text| + n > mem[wins[cur].dot.p].size
      else if |order| == 1 then n > BLOCK_SIZE
      else |mem[order[|order| - 2]].text| + n > mem[order[|order| - 2]].size
    }

    /** Whether `linsert` of `n` bytes has to reallocate the line of dot. */
    ghost predicate Grows(n: nat)
      reads this
      requires Valid()
    {
      SplitReady(mem, order, wins, cur);
      |mem[wins[cur].dot.p].text| + n > mem[wins[cur].dot.p].size
    }

    /** `linsert` with room in the line: shift the tail and move the current dot. */
    method StoreInPlace(s: seq<Byte>)
      requires Valid() && OnLine(Abs().text, Dot(Abs())) && !Grows(|s|)
      modifies this
      ensures Valid() && kill == old(kill) && cur == old(cur)
      ensures Abs() == Apply(old(Abs()), Put(Dot(old(Abs())).line, Dot(old(Abs())).off, s, false))
    {
      hide Sound, Ring, AbsOf, Apply, Abs, SetText, TextOf;
      AbsIs(this);
      SplitReady(mem, order, wins, cur);
      DotIs(mem, order, wins, cur);
      var lp1, doto := wins[cur].dot.p, wins[cur].dot.off;
      ghost var i := IndexOf(order, lp1);
      FpIs(mem, order, i);
      mem := SetText(mem, lp1, mem[lp1].text[..doto] + s + mem[lp1].text[doto..]);
      wins := wins[cur := wins[cur].(dot := Place(lp1, doto + |s|))];
      StoreDone(old(mem), order, old(wins), cur, i, doto, s, mem, wins);
      AbsIs(this);
    }

    /** `linsert` without room: a new line with the bytes in it replaces the old one. */
    method StoreInNewLine(s: seq<Byte>)
      requires Valid() && OnLine(Abs().text, Dot(Abs())) && Grows(|s|)
      modifies this
      ensures Valid() && kill == old(kill) && cur == old(cur)
      ensures Abs() == Apply(old(Abs()), Put(Dot(old(Abs())).line, Dot(old(Abs())).off, s, true))
    {
      hide Sound, Ring, AbsOf, Apply, Abs, PutInPlace, Swap, WinGrow, TextOf;
      AbsIs(this);
      SplitReady(mem, order, wins, cur);
      DotIs(mem, order, wins, cur);
      var lp1, doto := wins[cur].dot.p, wins[cur].dot.off;
      ghost var i := IndexOf(order, lp1);
      FpIs(mem, order, i);
      GrowReady(mem, order, i);
      var used := |mem[lp1].text|;
      var lp2 := LAlloc(used + |s|, mem[lp1].text[..doto] + s + mem[lp1].text[doto..]);
      PutInPlaceLinks(lp1, lp1, lp2);
      GrowWindows(lp1, lp2, used == doto, doto, |s|);
      GrowDone(old(mem), order, old(wins), cur, i, doto, s, lp2, mem, wins);
      order := Swap(order, i, i + 1, lp2);
      AbsIs(this);
    }

    /** The part of `linsert` that stores the bytes: in place when the line has room, else in a new
        line that replaces it. */
    method StoreBytes(s: seq<Byte>)
      requires Valid() && OnLine(Abs().text, Dot(Abs()))
      modifies this
      ensures Valid() && kill == old(kill) && cur == old(cur)
      ensures Abs() == Apply(old(Abs()), Put(Dot(old(Abs())).line, Dot(old(Abs())).off, s, old(Grows(|s|))))
    {
      hide Sound, Ring, AbsOf, Apply, Abs;
      SplitReady(mem, order, wins, cur);
      var lp1 := wins[cur].dot.p;
      if |mem[lp1].text| + |s| > mem[lp1].size {
        StoreInNewLine(s);
      } else {
        StoreInPlace(s);
      }
    }

    /** `linsert`: insert `n` copies of `c` at dot, which moves behind them. From the header line it goes
        on whatever the offset of dot. */
    method LInsert(n: nat, c: Byte) returns (ok: bool)
      requires Held()
      modifies this
      ensures Held() && ok == !view && cur == old(cur) && kill == old(kill)
      ensures view ==> unchanged(this)
      ensures !view ==> Valid() && Abs() == Insert(old(Seen()), Copies(n, c), old(WillGrow(n)))
    {
      if view {
        return false;
      }
      hide Sound, Ring, AbsOf, Apply, Abs, OffHeader, TextOf;
      LeaveHeader(n);
      StoreBytes(Copies(n, c));
      HeldIsValid(this);
      return true;
    }

    // ---- linsert_str, yank, getlinenum, gotoline ----

    /** One byte of a string: `lnewline` for a newline, `linsert` for any other. */
    method TypeOne(c: Byte) returns (ok: bool)
      requires Valid()
      modifies this
      ensures Valid() && kill == old(kill) && cur == old(cur) && ok == !view
      ensures view ==> Abs() == old(Abs())
      ensures OkPos(old(Abs()).text, Dot(old(Abs())))
      ensures !view ==> (Abs().text, Dot(Abs())) == TypeByte(old(Abs()).text, Dot(old(Abs())), c)
    {
      hide Sound, Ring, AbsOf, Abs, Insert, TypeByte, Apply;
      if c == NEWLINE {
        SplitIsType(Abs());
        ok := LNewline();
      } else {
        HeldIsValid(this);
        InsertIsType(Abs(), c, WillGrow(1));
        assert Copies(1, c) == [c];
        ok := LInsert(1, c);
      }
    }

    /** `linsert_str`: insert a NUL-terminated string at dot. The empty one needs no dot in place. */
    method LInsertStr(str: seq<Byte>) returns (ok: bool)
      requires Held() && 0 !in str && (str != [] ==> Valid())
      modifies this
      ensures Held() && kill == old(kill) && cur == old(cur) && ok == (!view || str == [])
      ensures str == [] ==> unchanged(this)
      ensures old(Valid()) ==> Valid() && (view ==> Abs() == old(Abs())) && OkPos(old(Abs()).text, Dot(old(Abs())))
      ensures old(Valid()) && !view ==>
        (Abs().text, Dot(Abs())) == TypeText(old(Abs()).text, Dot(old(Abs())), str)
    {
      if str == [] {
        if Valid() {
          DotIsOk(Abs());
        }
        return true;
      }
      ok := TypeBytes(str);
      HeldIsValid(this);
    }

    method TypeBytes(str: seq<Byte>) returns (ok: bool)
      requires Valid()
      modifies this
      ensures Valid() && kill == old(kill) && cur == old(cur) && ok == (!view || str == [])
      ensures view ==> Abs() == old(Abs())
      ensures OkPos(old(Abs()).text, Dot(old(Abs())))
      ensures !view ==> (Abs().text, Dot(Abs())) == TypeText(old(Abs()).text, Dot(old(Abs())), str)
    {
      hide Sound, Ring, AbsOf, Abs, TypeByte;
      DotIsOk(Abs());
      ghost var t, p := Abs().text, Dot(Abs());
      assert str[0..] == str;
      for i := 0 to |str|
        invariant Valid() && kill == old(kill) && cur == old(cur)
        invariant view ==> i == 0
        invariant view ==> Abs() == old(Abs())
        invariant OkPos(Abs().text, Dot(Abs()))
        invariant TypeText(t, p, str) == TypeText(Abs().text, Dot(Abs()), str[i..])
      {
        assert str[i..][0] == str[i] && str[i..][1..] == str[i + 1..];
        ok := TypeOne(str[i]);
        if !ok {
          return false;
        }
      }
      return true;
    }

    /** `yank`: type the kill buffer in at dot, `n` times. */
    method Yank(n: int) returns (ok: bool)
      requires Valid()
      modifies this
      ensures Valid() && kill == old(kill) && cur == old(cur)
      ensures ok == (!view && n >= 0)
      ensures !ok ==> Abs() == old(Abs())
      ensures OkPos(old(Abs()).text, Dot(old(Abs())))
      ensures ok ==> (Abs().text, Dot(Abs())) == TypeTimes(old(Abs()).text, Dot(old(Abs())), kill, n)
    {
      hide Sound, Ring, AbsOf, Abs, TypeText;
      DotIsOk(Abs());
      if view || n < 0 {
        return false;
      }
      ghost var t, p := Abs().text, Dot(Abs());
      if |kill| == 0 {
        TypeNothing(t, p, n);
        return true;
      }
      var times := n;
      while times > 0
        invariant Valid() && kill == old(kill) && cur == old(cur) && times >= 0
        invariant OkPos(Abs().text, Dot(Abs()))
        invariant TypeTimes(t, p, kill, n) == TypeTimes(Abs().text, Dot(Abs()), kill, times)
      {
        ok := TypeBytes(kill);
        times := times - 1;
      }
      return true;
    }

    /** `getlinenum`: the line number of a line, counting from 1, or 0 for the header. */
    method GetLineNum(lp: Ptr) returns (lnum: nat)
      requires Held() && lp in order
      ensures lnum == if lp == linep then 0 else IndexOf(order, lp) + 1
    {
      hide Sound;
      SplitReady(mem, order, Righted(), cur);
      NeighboursIn(mem, order, |order| - 1);
      RingMembers(mem, order);
      IndexUnique(order, |order| - 1);
      lnum := 0;
      ghost var k := 0;
      var clp := mem[linep].fp;
      while clp != linep
        invariant 0 <= k < |order| && clp == order[k] && lnum == k
        invariant forall j :: 0 <= j < k ==> order[j] != lp
        decreases |order| - k
      {
        NeighboursIn(mem, order, k);
        lnum := lnum + 1;
        if clp == lp {
          IndexUnique(order, k);
          return;
        }
        clp := mem[clp].fp;
        k := k + 1;
      }
      IndexUnique(order, k);
      assert lp == order[IndexOf(order, lp)];
      return 0;
    }

    /** `gotoline(TRUE, l)` followed by `curwp->w_doto = o`, as undo and redo find their place. Line 0
        is the end of the buffer, the header line, which has no offset but 0; so is a line behind the
        last one. */
    method GotoPlace(l: nat, o: nat)
      requires Held() && (1 <= l <= |Text()| ==> OnLine(Text(), Pos(l - 1, o)))
      modifies this`wins
      ensures Held() && Text() == old(Text()) && (Valid() <==> 1 <= l <= |Text()| || o == 0)
      ensures 1 <= l <= |Text()| ==> Abs().text == Text() && Dot(Abs()) == Pos(l - 1, o)
      ensures !(1 <= l <= |Text()|) ==> wins[cur].dot == Place(linep, o)
      ensures old(Valid()) && Valid() ==>
        Abs() == WithDot(old(Abs()), Pos(if 1 <= l <= |Text()| then l - 1 else |Text()|, o))
    {
      hide Sound, AbsOf, Abs, TextOf, PutRight;
      SplitReady(mem, order, Righted(), cur);
      GonePlace(mem, order, wins, cur, if 1 <= l <= |Text()| then l - 1 else |order| - 1, o);
      var dlp := linep;
      if l > 0 {
        dlp := LineNumbered(l);
      }
      HeldIsValid(this);
      if Valid() {
        AbsIs(this);
      }
      wins := wins[cur := wins[cur].(dot := Place(dlp, o))];
      HeldIsValid(this);
      if Valid() {
        AbsIs(this);
      }
    }

    /** `gotobob` and `forwline(l - 1)`: the line with a number. */
    method LineNumbered(l: nat) returns (dlp: Ptr)
      requires Held() && 1 <= l
      ensures |order| == |Text()| + 1 && dlp == order[Min(l - 1, |Text()|)]
    {
      hide Sound, TextOf;
      SplitReady(mem, order, Righted(), cur);
      NeighboursIn(mem, order, |order| - 1);
      RingMembers(mem, order);
      dlp := mem[linep].fp;
      var n := l - 1;
      ghost var k := 0;
      IndexUnique(order, |order| - 1);
      while n > 0 && dlp != linep
        invariant 0 <= k < |order| && dlp == order[k] && n == l - 1 - k && k <= l - 1
        decreases n
      {
        NeighboursIn(mem, order, k);
        dlp := mem[dlp].fp;
        n, k := n - 1, k + 1;
      }
    }

    /** `kdelete`: start a new kill. */
    method KDelete()
      requires Valid()
      modifies this`kill
      ensures Valid() && kill == [] && Abs() == old(Abs())
    {
      kill := [];
    }
  }

  /** `s` typed `n` times over. */
  function TypeTimes(t: Lines, p: Pos, s: seq<Byte>, n: nat): (r: (Lines, Pos))
    requires OkPos(t, p)
    ensures OkPos(r.0, r.1)
    decreases n
  {
    if n == 0 then (t, p)
    else
      var (t1, p1) := TypeText(t, p, s);
      TypeTimes(t1, p1, s, n - 1)
  }

  function Repeated(s: seq<Byte>, n: nat): seq<Byte> {
    if n == 0 then [] else s + Repeated(s, n - 1)
  }

  /** On a line of text yanking splices the kill buffer in `n` times, one copy behind the other, and
      leaves dot behind the last. */
  lemma {:induction false} YankSplices(t: Lines, p: Pos, s: seq<Byte>, n: nat)
    requires OnLine(t, p)
    ensures var (t', p') := TypeTimes(t, p, s, n);
      && OnLine(t', p') && Linear(t', p') == Linear(t, p) + |Repeated(s, n)|
      && Linear(t, p) <= |Flat(t)| && Flat(t') == Splice(Flat(t), Linear(t, p), 0, Repeated(s, n))
    decreases n
  {
    hide Flat, TypeText;
    if n == 0 {
      LinearBound(t, p);
      var f, at := Flat(t), Linear(t, p);
      assert f[..at] + [] + f[at..] == f;
    } else {
      TypeTextFlat(t, p, s);
      var (t1, p1) := TypeText(t, p, s);
      YankSplices(t1, p1, s, n - 1);
      SpliceAfter(Flat(t), Linear(t, p), s, Repeated(s, n - 1));
    }
  }

  lemma {:induction false} TypeNothing(t: Lines, p: Pos, n: nat)
    requires OkPos(t, p)
    ensures TypeTimes(t, p, [], n) == (t, p)
  {
    if n > 0 {
      TypeNothing(t, p, n - 1);
    }
  }

  lemma SplitIsType(ed: Ed)
    requires OkEd(ed)
    ensures OkPos(ed.text, Dot(ed))
    ensures var e := Apply(ed, Split(Dot(ed).line, Dot(ed).off)); (e.text, Dot(e)) == TypeByte(ed.text, Dot(ed), NEWLINE)
  {
    DotIsOk(ed);
  }

  /** Dot moved to line `i`, wherever it was before. */
  lemma PlaceDone(m: Memory, order: seq<Ptr>, wins: seq<Win>, cur: nat, i: nat, o: nat, wins': seq<Win>)
    requires Sound(m, order, wins, cur) && OkPos(TextOf(m, order), Pos(i, o)) && cur < |wins| && i < |order|
    requires wins' == wins[cur := wins[cur].(dot := Place(order[i], o))]
    ensures Sound(m, order, wins', cur)
    ensures forall j :: 0 <= j < |wins| ==> WinIn(order, wins[j]) && WinIn(order, wins'[j])
    ensures cur < |AbsOf(m, order, wins, cur).views|
    ensures AbsOf(m, order, wins', cur) == WithDot(AbsOf(m, order, wins, cur), Pos(i, o))
  {
    SoundIsOk(m, order, wins, cur);
    InOrder(m, order);
    IndexUnique(order, i);
    PlaceOkPos(m, order, Place(order[i], o));
    assert AbsOf(m, order, wins', cur).views == WithDot(AbsOf(m, order, wins, cur), Pos(i, o)).views;
  }

  /** The windows, with dot put at offset 0 if it is on the header line. */
  ghost function PutRight(wins: seq<Win>, cur: nat, header: Ptr): (ws: seq<Win>)
    requires cur < |wins|
    ensures wins[cur].dot.p != header || wins[cur].dot.off == 0 ==> ws == wins
  {
    if wins[cur].dot.p == header then wins[cur := wins[cur].(dot := Place(header, 0))] else wins
  }

  /** Dot moved to line `i`, wherever it was before: to a place in the text, or on the header line
      to any offset. */
  lemma GonePlace(m: Memory, order: seq<Ptr>, wins: seq<Win>, cur: nat, i: nat, o: nat)
    requires cur < |wins| && i < |order| && Sound(m, order, PutRight(wins, cur, order[|order| - 1]), cur)
    requires i < |order| - 1 ==> OnLine(TextOf(m, order), Pos(i, o))
    ensures var header := order[|order| - 1];
      var wins' := wins[cur := wins[cur].(dot := Place(order[i], o))];
      && Ring(m, order) && Sound(m, order, PutRight(wins', cur, header), cur)
      && (Sound(m, order, wins', cur) <==> i < |order| - 1 || o == 0)
      && (Sound(m, order, wins', cur) ==>
          && (forall j :: 0 <= j < |wins'| ==> WinIn(order, wins'[j]))
          && Dot(AbsOf(m, order, wins', cur)) == Pos(i, o))
      && (Sound(m, order, wins', cur) && PutRight(wins, cur, header) == wins ==>
          && (forall j :: 0 <= j < |wins| ==> WinIn(order, wins[j]))
          && AbsOf(m, order, wins', cur) == WithDot(AbsOf(m, order, wins, cur), Pos(i, o)))
  {
    hide Sound, AbsOf, PutRight, TextOf, Ring;
    var header := order[|order| - 1];
    var ws, wins' := PutRight(wins, cur, header), wins[cur := wins[cur].(dot := Place(order[i], o))];
    GoneRight(wins, cur, header, order[i], o);
    SplitReady(m, order, ws, cur);
    var o' := if i < |order| - 1 then o else 0;
    var ws' := ws[cur := ws[cur].(dot := Place(order[i], o'))];
    PlaceDone(m, order, ws, cur, i, o', ws');
    if i < |order| - 1 {
      OffHeaderLine(m, order, i);
    }
    if o' != o {
      WindowAstray(m, order, wins', cur);
    }
  }

  lemma GoneRight(wins: seq<Win>, cur: nat, header: Ptr, p: Ptr, o: nat)
    requires cur < |wins|
    ensures var ws, wins' := PutRight(wins, cur, header), wins[cur := wins[cur].(dot := Place(p, o))];
      && wins' == ws[cur := ws[cur].(dot := Place(p, o))]
      && PutRight(wins', cur, header) == ws[cur := ws[cur].(dot := Place(p, if p == header then 0 else o))]
  {
  }

  lemma OffHeaderLine(m: Memory, order: seq<Ptr>, i: nat)
    requires Ring(m, order) && i < |order| - 1
    ensures order[i] != order[|order| - 1]
  {
  }

  lemma WindowAstray(m: Memory, order: seq<Ptr>, wins: seq<Win>, cur: nat)
    requires Ring(m, order) && cur < |wins| && wins[cur].dot.p == order[|order| - 1] && wins[cur].dot.off > 0
    ensures !Sound(m, order, wins, cur)
  {
    IndexUnique(order, |order| - 1);
    PlaceOkPos(m, order, wins[cur].dot);
    assert !WinOk(m, wins[cur]);
  }

  /** The windows put right are sound. */
  lemma RightedReady(e: Editor)
    requires e.Held()
    ensures Ring(e.mem, e.order) && |e.order| > 0 && Sound(e.mem, e.order, e.Righted(), e.cur)
    ensures forall i :: 0 <= i < |e.order| ==> e.order[i] in e.mem
    ensures e.wins[e.cur].dot.p in e.mem && e.Righted()[e.cur].dot.p == e.wins[e.cur].dot.p
    ensures forall i :: 0 <= i < |e.wins| ==> WinIn(e.order, e.Righted()[i])
    ensures e.Seen() == AbsOf(e.mem, e.order, e.Righted(), e.cur)
  {
    SoundIsOk(e.mem, e.order, e.Righted(), e.cur);
    InOrder(e.mem, e.order);
  }

  lemma SeenOnHeader(e: Editor)
    requires e.Held() && e.wins[e.cur].dot.p == e.linep
    ensures Dot(e.Seen()) == Pos(|e.Seen().text|, 0) && |e.Seen().text| == |e.order| - 1
  {
    RightedReady(e);
    IndexUnique(e.order, |e.order| - 1);
  }

  lemma FirstSize(m: Memory, h: Ptr, q: Ptr)
    requires h in m && q !in m && m[h].bp in m && m[h].bp == h
    ensures var m' := WithFirst(m, h, q); q in m' && m'[q].text == [] && m'[q].size == BLOCK_SIZE
  {
  }

  lemma FirstDot(wins: seq<Win>, cur: nat, h: Ptr, q: Ptr)
    requires cur < |wins| && wins[cur].dot.p == h
    ensures WinFirst(wins[cur].(dot := Place(h, 0)), h, q) == WinFirst(wins[cur], h, q).(dot := Place(q, 0))
  {
  }

  // ---- Breaking a line where it is not ----

  /** A pointer that has gone up `k` bytes. */
  function Advanced(from: nat, k: nat): nat {
    from + k
  }

  /** Going up from `from` one meets `end`. */
  ghost predicate Meets(from: nat, end: nat) {
    exists k: nat :: Advanced(from, k) == end
  }

  /** `lnewline` moves the rest of the line with a pointer that goes up from dot until it meets the
      line's end. With dot off the text, on the header line, it never does. */
  lemma BreakMeetsEnd(e: Editor)
    requires e.Held()
    ensures e.wins[e.cur].dot.p in e.mem
    ensures Meets(e.wins[e.cur].dot.off, |e.mem[e.wins[e.cur].dot.p].text|) <==> e.Valid()
  {
    RightedReady(e);
    HeldIsValid(e);
    SplitReady(e.mem, e.order, e.Righted(), e.cur);
    var from, end := e.wins[e.cur].dot.off, |e.mem[e.wins[e.cur].dot.p].text|;
    HeaderIsBlank(e);
    if from <= end {
      assert Advanced(from, end - from) == end;
    }
  }

  lemma HeaderIsBlank(e: Editor)
    requires e.Held()
    ensures e.linep in e.mem && e.mem[e.linep].text == []
  {
    RightedReady(e);
  }

  /** An editor is valid iff it is held and dot on the header line, if it is there, has offset 0. */
  lemma HeldIsValid(e: Editor)
    ensures e.Valid() <==> e.Held() && (e.wins[e.cur].dot.p == e.linep ==> e.wins[e.cur].dot.off == 0)
    ensures e.Valid() ==> e.Seen() == e.Abs()
    ensures e.Held() ==> |e.kill| <= KILL_MAX
    ensures e.Valid() ==> |e.kill| <= KILL_MAX && e.Text() == e.Abs().text && (e.wins[e.cur].dot.p == e.linep <==> Dot(e.Abs()).line == |e.Text()|)
  {
    if e.Valid() {
      IndexUnique(e.order, |e.order| - 1);
      PlaceOkPos(e.mem, e.order, e.wins[e.cur].dot);
      IndexUnique(e.order, IndexOf(e.order, e.wins[e.cur].dot.p));
    }
  }

  /** `ldelete` with nothing to do, or nothing to delete. */
  lemma DeleteNone(e: Editor, kflag: bool)
    requires e.Valid()
    ensures Delete(e.Abs(), 0, kflag, e.kill) == Deletion(e.Abs(), 0, e.kill, true)
    ensures e.wins[e.cur].dot.p == e.linep ==> forall n :: n > 0 ==> Delete(e.Abs(), n, kflag, e.kill) == Deletion(e.Abs(), n, e.kill, true)
  {
    HeldIsValid(e);
  }

  lemma SplitReady(m: Memory, order: seq<Ptr>, wins: seq<Win>, cur: nat)
    requires Sound(m, order, wins, cur)
    ensures cur < |wins| && |order| >= 1 && Ring(m, order)
    ensures WinIn(order, wins[cur]) && wins[cur].dot.p in m && wins[cur].dot.off <= |m[wins[cur].dot.p].text|
    ensures m[wins[cur].dot.p].bp in m && m[wins[cur].dot.p].fp in m
  {
    WinOkView(m, order, wins[cur]);
    NeighboursIn(m, order, IndexOf(order, wins[cur].dot.p));
  }

  /** The lines `lnewline` leaves are the ring of the split text. */
  lemma SplitMemory(m: Memory, order: seq<Ptr>, i: nat, doto: nat, q: Ptr, node: Node)
    requires Ring(m, order) && q !in m && i < |order| && order[i] in m && doto <= |m[order[i]].text|
    requires node.text == m[order[i]].text[..doto] && |node.text| <= node.size
    ensures var p := order[i]; var m1 := SetText(m[q := node], p, m[p].text[doto..]);
      && p in m1 && q in m1 && m1[p].bp in m1 && p != q
      && Ring(InsertBefore(m1, p, q), Swap(order, i, i, q))
      && Fits(TextOf(m, order), Split(i, doto))
      && TextOf(InsertBefore(m1, p, q), Swap(order, i, i, q)) == EditText(TextOf(m, order), Split(i, doto))
      && InsertBefore(m1, p, q).Keys == m.Keys + {q}
  {
    hide InsertBefore, Ring, Swap, EditText;
    var p := order[i];
    IndexUniqueIn(m, order, i);
    SetTextRing(m, order, p, m[p].text[doto..]);
    var m1 := SetText(m, p, m[p].text[doto..]);
    assert SetText(m[q := node], p, m[p].text[doto..]) == m1[q := node];
    InsertBeforeRing(m1, order, i, q, node);
    SplitTextEq(TextOf(m, order), TextOf(m1, order), i, doto, m[p].text, node.text);
    InsertBeforeKeys(m1[q := node], p, q);
  }

  lemma InsertBeforeKeys(m: Memory, p: Ptr, q: Ptr)
    requires p in m && q in m && p != q && m[p].bp in m
    ensures InsertBefore(m, p, q).Keys == m.Keys
  {
  }

  lemma IndexUniqueIn(m: Memory, order: seq<Ptr>, i: nat)
    requires Ring(m, order) && i < |order|
    ensures IndexOf(order, order[i]) == i && order[i] in m && order[|order| - 1] in m
    ensures order[i] == order[|order| - 1] <==> i == |order| - 1
    ensures m[order[|order| - 1]].text == [] && |m[order[i]].text| <= m[order[i]].size
  {
    InOrder(m, order);
    IndexUnique(order, i);
  }

  /** The ring and windows `lnewline` leaves are those of the abstract split. */
  /** Memory with line `p` broken at `doto`, the part before it in a new line `q`. */
  function Broken(m: Memory, p: Ptr, doto: nat, q: Ptr): Memory
    requires p in m && m[p].bp in m && doto <= |m[p].text| && q !in m
  {
    InsertBefore(SetText(m[q := NewLine(doto, m[p].text[..doto])], p, m[p].text[doto..]), p, q)
  }

  lemma DotPos(order: seq<Ptr>, pl: Place)
    requires pl.p in order
    ensures PosOf(order, pl) == Pos(IndexOf(order, pl.p), pl.off)
  {
  }

  lemma SplitDone(m: Memory, order: seq<Ptr>, wins: seq<Win>, cur: nat, q: Ptr, m': Memory, wins': seq<Win>)
    requires Sound(m, order, wins, cur) && q !in m && WinIn(order, wins[cur])
    requires var p, doto := wins[cur].dot.p, wins[cur].dot.off;
      && p in m && doto <= |m[p].text| && m[p].bp in m && m' == Broken(m, p, doto, q)
      && |wins'| == |wins| && forall i :: 0 <= i < |wins| ==> wins'[i] == WinSplit(wins[i], p, q, doto)
    ensures var i, doto := IndexOf(order, wins[cur].dot.p), wins[cur].dot.off;
      && Fits(TextOf(m, order), Split(i, doto))
      && Sound(m', Swap(order, i, i, q), wins', cur)
      && m'.Keys == m.Keys + {q} && |Swap(order, i, i, q)| == |order| + 1 && Swap(order, i, i, q)[|order|] == order[|order| - 1]
      && (forall j :: 0 <= j < |wins| ==> WinIn(order, wins[j]) && WinIn(Swap(order, i, i, q), wins'[j]))
      && AbsOf(m', Swap(order, i, i, q), wins', cur) == Apply(AbsOf(m, order, wins, cur), Split(i, doto))
  {
    hide Sound, Ring, Distinct, Swap, TextOf, AbsOf, InsertBefore, EditText, ViewOf, Apply, WinIn, WinsMove, WinSplit;
    SoundParts(m, order, wins, cur);
    var p, doto := wins[cur].dot.p, wins[cur].dot.off;
    var i := IndexOf(order, p);
    SwapShape(order, i, q);
    SplitMemory(m, order, i, doto, q, NewLine(doto, m[p].text[..doto]));
    SplitWins(order, TextOf(m, order), wins, cur, i, doto, q, wins');
    MatchesEdit(m, order, wins, cur, Split(i, doto), m', Swap(order, i, i, q), wins');
  }

  lemma SoundParts(m: Memory, order: seq<Ptr>, wins: seq<Win>, cur: nat)
    requires Sound(m, order, wins, cur)
    ensures Ring(m, order) && Distinct(order) && cur < |wins| && |TextOf(m, order)| == |order| - 1
    ensures forall x :: x in m <==> x in order
    ensures forall j :: 0 <= j < |wins| ==> WinIn(order, wins[j]) && wins[j].dot.p in order
  {
    SoundIsOk(m, order, wins, cur);
    forall x | x in order ensures x in m {
      RingMember(m, order, IndexOf(order, x));
    }
  }

  lemma RingMember(m: Memory, order: seq<Ptr>, i: nat)
    requires Ring(m, order) && i < |order|
    ensures order[i] in m
  {
    assert Linked(m, order[i], order[Nx(|order|, i)]);
  }

  lemma SwapShape(order: seq<Ptr>, i: nat, q: Ptr)
    requires i < |order|
    ensures |Swap(order, i, i, q)| == |order| + 1 && Swap(order, i, i, q)[|order|] == order[|order| - 1]
  {
  }

  lemma SplitWins(order: seq<Ptr>, t: Lines, wins: seq<Win>, cur: nat, i: nat, doto: nat, q: Ptr, wins': seq<Win>)
    requires Distinct(order) && i < |order| && q !in order && |t| == |order| - 1 && OkPos(t, Pos(i, doto))
    requires forall j :: 0 <= j < |wins| ==> WinIn(order, wins[j])
    requires |wins'| == |wins| && forall j :: 0 <= j < |wins| ==> wins'[j] == WinSplit(wins[j], order[i], q, doto)
    ensures WinsMove(order, wins, Swap(order, i, i, q), wins', t, Split(i, doto), cur)
  {
    forall j | 0 <= j < |wins| ensures WinMoves(order, wins[j], Swap(order, i, i, q), wins'[j], t, Split(i, doto), j == cur) {
      WinSplitMoves(order, t, wins[j], i, q, doto, j == cur);
    }
  }

  lemma SplitTextEq(t: Lines, t1: Lines, i: nat, o: nat, line: seq<Byte>, head: seq<Byte>)
    requires OkPos(t, Pos(i, o)) && |t1| == |t| && o <= |line| && head == line[..o]
    requires if i < |t| then t[i] == line && t1 == t[i := line[o..]] else line == [] && t1 == t
    ensures t1[..i] + [head] + t1[i..] == EditText(t, Split(i, o))
  {
    assert i < |t| ==> t1[i..] == [line[o..]] + t[i + 1..];
  }

  // ---- Deleting a newline: the blank last line ----

  lemma DropReady(m: Memory, order: seq<Ptr>, wins: seq<Win>, cur: nat)
    requires Sound(m, order, wins, cur) && |order| >= 2
    ensures order[|order| - 2] in m && m[order[|order| - 2]].bp in m && m[order[|order| - 2]].fp in m
    ensures m[order[|order| - 2]].fp == order[|order| - 1] && order[|order| - 1] != order[|order| - 2]
    ensures m[order[|order| - 2]].bp != order[|order| - 2]
  {
    NeighboursIn(m, order, |order| - 2);
  }

  lemma DropMemory(m: Memory, order: seq<Ptr>)
    requires Ring(m, order) && |order| >= 2 && order[|order| - 2] in m && m[order[|order| - 2]].text == []
    ensures var p := order[|order| - 2];
      && m[p].bp in m && m[p].fp in m && Fits(TextOf(m, order), Drop)
      && Ring(Unlink(m, p), Dropped(order)) && TextOf(Unlink(m, p), Dropped(order)) == EditText(TextOf(m, order), Drop)
      && forall x :: x in Unlink(m, p) ==> x in m
  {
    hide Unlink, Ring;
    NeighboursIn(m, order, |order| - 2);
    DropRing(m, order);
  }

  lemma DropWins(m: Memory, order: seq<Ptr>, wins: seq<Win>, cur: nat, wins': seq<Win>)
    requires Sound(m, order, wins, cur) && |order| >= 2 && Fits(TextOf(m, order), Drop)
    requires |wins'| == |wins| && forall j :: 0 <= j < |wins| ==> wins'[j] == WinFree(wins[j], order[|order| - 2], order[|order| - 1])
    ensures WinsMove(order, wins, Dropped(order), wins', TextOf(m, order), Drop, cur)
  {
    SoundIsOk(m, order, wins, cur);
    forall j | 0 <= j < |wins| ensures WinMoves(order, wins[j], Dropped(order), wins'[j], TextOf(m, order), Drop, j == cur) {
      assert OkView(TextOf(m, order), AbsOf(m, order, wins, cur).views[j]);
      WinFreeMoves(order, TextOf(m, order), wins[j], j == cur);
    }
  }

  lemma DropDone(m: Memory, order: seq<Ptr>, wins: seq<Win>, cur: nat, m': Memory, wins': seq<Win>)
    requires Sound(m, order, wins, cur) && |order| >= 2
    requires var p := order[|order| - 2];
      p in m && m[p].text == [] && m[p].bp in m && m[p].fp in m && m' == Unlink(m, p)
    requires |wins'| == |wins| && forall j :: 0 <= j < |wins| ==> wins'[j] == WinFree(wins[j], order[|order| - 2], m[order[|order| - 2]].fp)
    ensures Sound(m', Dropped(order), wins', cur) && (forall x :: x in m' ==> x in m)
    ensures |Dropped(order)| == |order| - 1 && Dropped(order)[|order| - 2] == order[|order| - 1]
    ensures forall j :: 0 <= j < |wins| ==> WinIn(order, wins[j]) && WinIn(Dropped(order), wins'[j])
    ensures Fits(TextOf(m, order), Drop)
    ensures AbsOf(m', Dropped(order), wins', cur) == Apply(AbsOf(m, order, wins, cur), Drop)
  {
    hide EditText, ViewOf, Apply, WinIn, WinsMove, WinFree, Unlink, Ring;
    NeighboursIn(m, order, |order| - 2);
    DropMemory(m, order);
    DropWins(m, order, wins, cur, wins');
    MatchesEdit(m, order, wins, cur, Drop, m', Dropped(order), wins');
  }

  // ---- Deleting a newline: merging two lines ----

  lemma JoinReady(m: Memory, order: seq<Ptr>, wins: seq<Win>, cur: nat, i: nat)
    requires Sound(m, order, wins, cur) && i + 1 < |order| - 1
    ensures order[i] in m && order[i + 1] in m && order[i] != order[i + 1]
    ensures m[order[i]].bp in m && m[order[i + 1]].fp in m
  {
    NeighboursIn(m, order, i);
    NeighboursIn(m, order, i + 1);
  }

  lemma JoinTextReady(m: Memory, order: seq<Ptr>, i: nat)
    requires order[..] == order && i + 1 < |order| && order[i] in m && order[i + 1] in m && m[order[i + 1]].fp in m
    requires order[i] != order[i + 1]
    ensures var m' := SetText(m, order[i], m[order[i]].text + m[order[i + 1]].text);
      order[i] in m' && order[i + 1] in m' && m'[order[i + 1]].fp in m' && forall x :: x in m' ==> x in m
  {
  }

  lemma JoinMemory(m: Memory, order: seq<Ptr>, i: nat)
    requires Ring(m, order) && i + 1 < |order| - 1 && order[i] in m && order[i + 1] in m
    requires |m[order[i]].text| + |m[order[i + 1]].text| <= m[order[i]].size
    ensures var p, q := order[i], order[i + 1]; var m1 := SetText(m, p, m[p].text + m[q].text);
      && Fits(TextOf(m, order), Join(i)) && p in m1 && q in m1 && m1[q].fp in m1
      && Ring(TakeOut(m1, p, q), Swap(order, i, i + 2, p))
      && TextOf(TakeOut(m1, p, q), Swap(order, i, i + 2, p)) == EditText(TextOf(m, order), Join(i))
  {
    hide TakeOut, Ring, Swap;
    IndexUniqueIn(m, order, i);
    IndexUniqueIn(m, order, i + 1);
    var p, q := order[i], order[i + 1];
    SetTextRing(m, order, p, m[p].text + m[q].text);
    TakeOutRing(SetText(m, p, m[p].text + m[q].text), order, i);
  }

  lemma JoinWins(order: seq<Ptr>, t: Lines, wins: seq<Win>, cur: nat, i: nat, wins': seq<Win>)
    requires Distinct(order) && |t| == |order| - 1 && Fits(t, Join(i))
    requires forall j :: 0 <= j < |wins| ==> WinIn(order, wins[j])
    requires |wins'| == |wins| && forall j :: 0 <= j < |wins| ==> wins'[j] == WinJoin(wins[j], order[i], order[i + 1], |t[i]|)
    ensures WinsMove(order, wins, Swap(order, i, i + 2, order[i]), wins', t, Join(i), cur)
  {
    forall j | 0 <= j < |wins| ensures WinMoves(order, wins[j], Swap(order, i, i + 2, order[i]), wins'[j], t, Join(i), j == cur) {
      WinJoinMoves(order, t, wins[j], i, j == cur);
    }
  }

  lemma JoinDone(m: Memory, order: seq<Ptr>, wins: seq<Win>, cur: nat, i: nat, m': Memory, wins': seq<Win>)
    requires Sound(m, order, wins, cur) && i + 1 < |order| - 1 && order[i] in m && order[i + 1] in m
    requires |m[order[i]].text| + |m[order[i + 1]].text| <= m[order[i]].size
    requires var p, q := order[i], order[i + 1]; var m1 := SetText(m, p, m[p].text + m[q].text);
      && p in m1 && q in m1 && m1[q].fp in m1 && m' == TakeOut(m1, p, q)
      && |wins'| == |wins| && forall j :: 0 <= j < |wins| ==> wins'[j] == WinJoin(wins[j], p, q, |m[p].text|)
    ensures var o := Swap(order, i, i + 2, order[i]);
      && Fits(TextOf(m, order), Join(i)) && Sound(m', o, wins', cur)
      && |o| == |order| - 1 && o[|o| - 1] == order[|order| - 1]
      && (forall j :: 0 <= j < |wins| ==> WinIn(order, wins[j]) && WinIn(o, wins'[j]))
      && AbsOf(m', o, wins', cur) == Apply(AbsOf(m, order, wins, cur), Join(i))
  {
    hide TakeOut, EditText, ViewOf, Apply, WinIn, WinsMove, WinJoin, SetText, AbsOf, Ring;
    SoundIsOk(m, order, wins, cur);
    RingMembers(m, order);
    FpIs(m, order, i);
    JoinMemory(m, order, i);
    JoinWins(order, TextOf(m, order), wins, cur, i, wins');
    MatchesEdit(m, order, wins, cur, Join(i), m', Swap(order, i, i + 2, order[i]), wins');
  }

  lemma JoinNewMemory(m: Memory, order: seq<Ptr>, i: nat, q: Ptr, node: Node)
    requires Ring(m, order) && i + 1 < |order| - 1 && order[i] in m && order[i + 1] in m && q !in m
    requires node.text == m[order[i]].text + m[order[i + 1]].text && |node.text| <= node.size
    ensures var m1 := m[q := node];
      && Fits(TextOf(m, order), Join(i)) && m1[order[i]].bp in m1 && m1[order[i + 1]].fp in m1
      && Ring(PutInPlace(m1, order[i], order[i + 1], q), Swap(order, i, i + 2, q))
      && TextOf(PutInPlace(m1, order[i], order[i + 1], q), Swap(order, i, i + 2, q)) == EditText(TextOf(m, order), Join(i))
  {
    hide PutInPlace, Swap;
    ReplaceRing(m, order, i, i + 1, q, node);
  }

  lemma JoinNewWins(order: seq<Ptr>, t: Lines, wins: seq<Win>, cur: nat, i: nat, q: Ptr, wins': seq<Win>)
    requires Distinct(order) && |t| == |order| - 1 && Fits(t, Join(i)) && q !in order
    requires forall j :: 0 <= j < |wins| ==> WinIn(order, wins[j])
    requires |wins'| == |wins| && forall j :: 0 <= j < |wins| ==> wins'[j] == WinJoinNew(wins[j], order[i], order[i + 1], q, |t[i]|)
    ensures WinsMove(order, wins, Swap(order, i, i + 2, q), wins', t, Join(i), cur)
  {
    forall j | 0 <= j < |wins| ensures WinMoves(order, wins[j], Swap(order, i, i + 2, q), wins'[j], t, Join(i), j == cur) {
      WinJoinNewMoves(order, t, wins[j], i, q, j == cur);
    }
  }

  lemma JoinNewDone(m: Memory, order: seq<Ptr>, wins: seq<Win>, cur: nat, i: nat, q: Ptr, m': Memory, wins': seq<Win>)
    requires Sound(m, order, wins, cur) && i + 1 < |order| - 1 && order[i] in m && order[i + 1] in m && q !in m
    requires var used := |m[order[i]].text|; var len := used + |m[order[i + 1]].text|;
      var m1 := m[q := NewLine(len, m[order[i]].text + m[order[i + 1]].text)];
      && m1[order[i]].bp in m1 && m1[order[i + 1]].fp in m1 && m' == PutInPlace(m1, order[i], order[i + 1], q)
      && |wins'| == |wins| && forall j :: 0 <= j < |wins| ==> wins'[j] == WinJoinNew(wins[j], order[i], order[i + 1], q, used)
    ensures var o := Swap(order, i, i + 2, q);
      && Fits(TextOf(m, order), Join(i)) && Sound(m', o, wins', cur)
      && |o| == |order| - 1 && o[|o| - 1] == order[|order| - 1]
      && (forall j :: 0 <= j < |wins| ==> WinIn(order, wins[j]) && WinIn(o, wins'[j]))
      && AbsOf(m', o, wins', cur) == Apply(AbsOf(m, order, wins, cur), Join(i))
  {
    hide PutInPlace, EditText, ViewOf, Apply, WinIn, WinsMove, WinJoinNew, AbsOf, Ring;
    SoundIsOk(m, order, wins, cur);
    RingMembers(m, order);
    FpIs(m, order, i);
    JoinNewMemory(m, order, i, q, NewLine(|m[order[i]].text| + |m[order[i + 1]].text|, m[order[i]].text + m[order[i + 1]].text));
    JoinNewWins(order, TextOf(m, order), wins, cur, i, q, wins');
    MatchesEdit(m, order, wins, cur, Join(i), m', Swap(order, i, i + 2, q), wins');
  }

  lemma DotIs(m: Memory, order: seq<Ptr>, wins: seq<Win>, cur: nat)
    requires Sound(m, order, wins, cur) && cur < |wins| && forall i :: 0 <= i < |wins| ==> WinIn(order, wins[i])
    ensures Dot(AbsOf(m, order, wins, cur)) == PosOf(order, wins[cur].dot)
    ensures IndexOf(order, wins[cur].dot.p) == |order| - 1 <==> wins[cur].dot.p == order[|order| - 1]
  {
    IndexUnique(order, |order| - 1);
  }

  /** The line after a line of text, and whether it is the header. */
  lemma FpIs(m: Memory, order: seq<Ptr>, i: nat)
    requires Ring(m, order) && i < |order| - 1
    ensures order[i] in m && m[order[i]].fp == order[i + 1]
    ensures order[i + 1] == order[|order| - 1] <==> i + 2 == |order|
    ensures |TextOf(m, order)| == |order| - 1 && TextOf(m, order)[i] == m[order[i]].text
  {
    NeighboursIn(m, order, i);
  }

  lemma AbsIs(e: Editor)
    requires e.Valid()
    ensures forall i :: 0 <= i < |e.wins| ==> WinIn(e.order, e.wins[i])
    ensures e.Abs() == AbsOf(e.mem, e.order, e.wins, e.cur)
  {
    SoundIsOk(e.mem, e.order, e.wins, e.cur);
  }

  predicate AtLineEnd(ed: Ed) {
    ed.cur < |ed.views| && OnLine(ed.text, Dot(ed)) && Dot(ed).off == |ed.text[Dot(ed).line]|
  }

  predicate InLine(ed: Ed) {
    ed.cur < |ed.views| && OnLine(ed.text, Dot(ed)) && Dot(ed).off < |ed.text[Dot(ed).line]|
  }

  /** What is left of the line, or of the count. */
  function ChunkAt(ed: Ed, n: nat): nat
    requires InLine(ed)
  {
    Min(|ed.text[Dot(ed).line]| - Dot(ed).off, n)
  }

  /** The three ways a turn of the `ldelete` loop can go: it stops, ... */
  lemma DeleteStops(ed: Ed, n: nat, kflag: bool, kill: seq<Byte>)
    requires OkEd(ed) && |kill| <= KILL_MAX && (n == 0 || Dot(ed).line == |ed.text|)
    ensures Delete(ed, n, kflag, kill) == Deletion(ed, n, kill, true)
  {
  }

  /** ... it deletes a newline, ... */
  lemma DeleteAtLineEnd(ed: Ed, n: nat, kflag: bool, kill: seq<Byte>)
    requires OkEd(ed) && |kill| <= KILL_MAX && n > 0 && AtLineEnd(ed)
    ensures var e := EndEdit(ed);
      var ed' := if e.Some? then Apply(ed, e.value) else ed;
      && OkEd(ed')
      && Delete(ed, n, kflag, kill) ==
         if kflag && |kill| >= KILL_MAX then Deletion(ed', n, kill, false)
         else Delete(ed', n - 1, kflag, if kflag then kill + [NEWLINE] else kill)
  {
    hide Apply;
    if EndEdit(ed).Some? {
      ApplyKeepsOk(ed, EndEdit(ed).value);
    }
  }

  /** ... or it deletes bytes of the line. */
  lemma DeleteInLine(ed: Ed, n: nat, kflag: bool, kill: seq<Byte>)
    requires OkEd(ed) && |kill| <= KILL_MAX && n > 0 && InLine(ed)
    ensures var chunk := ChunkAt(ed, n);
      var bytes := ed.text[Dot(ed).line][Dot(ed).off..Dot(ed).off + chunk];
      var ed' := Apply(ed, Cut(Dot(ed).line, Dot(ed).off, chunk));
      && OkEd(ed')
      && Delete(ed, n, kflag, kill) ==
         if kflag && |kill| + chunk > KILL_MAX then Deletion(ed, n, (kill + bytes)[..KILL_MAX], false)
         else Delete(ed', n - chunk, kflag, if kflag then kill + bytes else kill)
  {
    hide Apply;
    ApplyKeepsOk(ed, Cut(Dot(ed).line, Dot(ed).off, ChunkAt(ed, n)));
  }

  lemma KillFits(e: Editor)
    requires e.Valid()
    ensures |e.kill| <= KILL_MAX
  {
  }

  /** Dot's line in memory and in the text. */
  lemma DotBytes(e: Editor)
    requires e.Valid()
    ensures e.cur < |e.wins| && e.wins[e.cur].dot.p in e.mem
    ensures e.wins[e.cur].dot.p == e.linep <==> Dot(e.Abs()).line == |e.Abs().text|
    ensures e.wins[e.cur].dot.p != e.linep ==>
      && OnLine(e.Abs().text, Dot(e.Abs())) && e.wins[e.cur].dot.off == Dot(e.Abs()).off
      && e.mem[e.wins[e.cur].dot.p].text == e.Abs().text[Dot(e.Abs()).line]
  {
    hide Ring;
    SplitReady(e.mem, e.order, e.wins, e.cur);
    AbsIs(e);
    DotIs(e.mem, e.order, e.wins, e.cur);
    var i := IndexOf(e.order, e.wins[e.cur].dot.p);
    if i < |e.order| - 1 {
      FpIs(e.mem, e.order, i);
    }
  }

  // ---- Cutting bytes out of a line ----

  lemma CutDone(m: Memory, order: seq<Ptr>, wins: seq<Win>, cur: nat, i: nat, doto: nat, chunk: nat, m': Memory, wins': seq<Win>)
    requires Sound(m, order, wins, cur) && Fits(TextOf(m, order), Cut(i, doto, chunk)) && order[i] in m
    requires m' == SetText(m, order[i], TextOf(m, order)[i][..doto] + TextOf(m, order)[i][doto + chunk..])
    requires |wins'| == |wins| && forall j :: 0 <= j < |wins| ==> wins'[j] == WinCut(wins[j], order[i], doto, chunk)
    ensures Sound(m', order, wins', cur) && m'.Keys == m.Keys
    ensures forall j :: 0 <= j < |wins| ==> WinIn(order, wins[j]) && WinIn(order, wins'[j])
    ensures AbsOf(m', order, wins', cur) == Apply(AbsOf(m, order, wins, cur), Cut(i, doto, chunk))
  {
    hide ViewOf, Apply, WinIn, WinsMove, WinCut, SetText;
    SoundIsOk(m, order, wins, cur);
    IndexUniqueIn(m, order, i);
    SetTextRing(m, order, order[i], TextOf(m, order)[i][..doto] + TextOf(m, order)[i][doto + chunk..]);
    CutWins(order, TextOf(m, order), wins, cur, i, doto, chunk, wins');
    MatchesEdit(m, order, wins, cur, Cut(i, doto, chunk), m', order, wins');
  }

  lemma CutWins(order: seq<Ptr>, t: Lines, wins: seq<Win>, cur: nat, i: nat, doto: nat, chunk: nat, wins': seq<Win>)
    requires Distinct(order) && |t| == |order| - 1 && Fits(t, Cut(i, doto, chunk))
    requires forall j :: 0 <= j < |wins| ==> WinIn(order, wins[j])
    requires |wins'| == |wins| && forall j :: 0 <= j < |wins| ==> wins'[j] == WinCut(wins[j], order[i], doto, chunk)
    ensures WinsMove(order, wins, order, wins', t, Cut(i, doto, chunk), cur)
  {
    forall j | 0 <= j < |wins| ensures WinMoves(order, wins[j], order, wins'[j], t, Cut(i, doto, chunk), j == cur) {
      WinCutMoves(order, t, wins[j], i, doto, chunk, j == cur);
    }
  }

  // ---- Inserting bytes ----

  lemma HeaderReady(m: Memory, order: seq<Ptr>, wins: seq<Win>, cur: nat)
    requires Sound(m, order, wins, cur)
    ensures var h := order[|order| - 1];
      && h in m && m[h].bp in m
      && (m[h].fp == h <==> |order| == 1) && (|order| == 1 ==> m[h].bp == h)
      && (|order| > 1 ==> m[h].bp == order[|order| - 2])
  {
    NeighboursIn(m, order, |order| - 1);
  }

  /** Memory with a first line `q` linked in before the header. */
  function WithFirst(m: Memory, h: Ptr, q: Ptr): Memory
    requires h in m && m[h].bp in m && q !in m
  {
    InsertBefore(m[q := NewLine(0, [])], h, q)
  }

  lemma FirstDone(m: Memory, order: seq<Ptr>, wins: seq<Win>, cur: nat, q: Ptr, m': Memory, wins': seq<Win>)
    requires Sound(m, order, wins, cur) && |order| == 1 && q !in m && order[0] in m && m[order[0]].bp in m
    requires m' == WithFirst(m, order[0], q)
    requires |wins'| == |wins| && forall j :: 0 <= j < |wins| ==> wins'[j] == WinFirst(wins[j], order[0], q)
    ensures Sound(m', [q, order[0]], wins', cur)
    ensures forall j :: 0 <= j < |wins| ==> WinIn(order, wins[j]) && WinIn([q, order[0]], wins'[j])
    ensures TextOf(m, order) == []
    ensures AbsOf(m', [q, order[0]], wins', cur) == Apply(AbsOf(m, order, wins, cur), First)
  {
    assert Swap(order, 0, 0, q) == [q, order[0]];
    hide InsertBefore, ViewOf, Apply, WinIn, WinsMove, WinFirst, Ring, AbsOf;
    SoundIsOk(m, order, wins, cur);
    InsertBeforeRing(m, order, 0, q, NewLine(0, []));
    FirstWins(m, order, wins, cur, q, wins');
    MatchesEdit(m, order, wins, cur, First, m', Swap(order, 0, 0, q), wins');
  }

  lemma FirstWins(m: Memory, order: seq<Ptr>, wins: seq<Win>, cur: nat, q: Ptr, wins': seq<Win>)
    requires Sound(m, order, wins, cur) && |order| == 1 && q !in m
    requires |wins'| == |wins| && forall j :: 0 <= j < |wins| ==> wins'[j] == WinFirst(wins[j], order[0], q)
    ensures TextOf(m, order) == [] && WinsMove(order, wins, Swap(order, 0, 0, q), wins', [], First, cur)
  {
    SoundIsOk(m, order, wins, cur);
    InOrder(m, order);
    forall j | 0 <= j < |wins| ensures WinMoves(order, wins[j], Swap(order, 0, 0, q), wins'[j], [], First, j == cur) {
      WinFirstMoves(order, wins[j], q, j == cur);
    }
  }

  lemma LastDone(m: Memory, order: seq<Ptr>, wins: seq<Win>, cur: nat, last: Ptr, wins': seq<Win>)
    requires Sound(m, order, wins, cur) && |order| > 1 && last == order[|order| - 2] && last in m && cur < |wins|
    requires wins' == wins[cur := wins[cur].(dot := Place(last, |m[last].text|))]
    ensures Sound(m, order, wins', cur)
    ensures forall j :: 0 <= j < |wins| ==> WinIn(order, wins[j]) && WinIn(order, wins'[j])
    ensures TextOf(m, order) != [] && cur < |AbsOf(m, order, wins, cur).views|
    ensures AbsOf(m, order, wins', cur)
         == WithDot(AbsOf(m, order, wins, cur), Pos(|order| - 2, |TextOf(m, order)[|order| - 2]|))
  {
    SoundIsOk(m, order, wins, cur);
    IndexUnique(order, |order| - 2);
    assert AbsOf(m, order, wins', cur).views
        == WithDot(AbsOf(m, order, wins, cur), Pos(|order| - 2, |m[last].text|)).views;
  }

  lemma GrowReady(m: Memory, order: seq<Ptr>, i: nat)
    requires Ring(m, order) && i < |order| - 1
    ensures order[i] in m && m[order[i]].bp in m && m[order[i]].fp in m
  {
    NeighboursIn(m, order, i);
  }

  lemma GrowMemory(m: Memory, order: seq<Ptr>, i: nat, doto: nat, s: seq<Byte>, q: Ptr, node: Node)
    requires Ring(m, order) && i < |order| - 1 && order[i] in m && q !in m && doto <= |m[order[i]].text|
    requires node.text == m[order[i]].text[..doto] + s + m[order[i]].text[doto..] && |node.text| <= node.size
    ensures var m1 := m[q := node];
      && Fits(TextOf(m, order), Put(i, doto, s, true)) && m1[order[i]].bp in m1 && m1[order[i]].fp in m1
      && Ring(PutInPlace(m1, order[i], order[i], q), Swap(order, i, i + 1, q))
      && TextOf(PutInPlace(m1, order[i], order[i], q), Swap(order, i, i + 1, q)) == EditText(TextOf(m, order), Put(i, doto, s, true))
  {
    hide PutInPlace, Ring;
    FpIs(m, order, i);
    ReplaceRing(m, order, i, i, q, node);
  }

  lemma SwapSize(order: seq<Ptr>, i: nat, q: Ptr)
    requires i + 1 < |order|
    ensures |Swap(order, i, i + 1, q)| == |order| && Swap(order, i, i + 1, q)[|order| - 1] == order[|order| - 1]
  {
  }

  lemma GrowDone(m: Memory, order: seq<Ptr>, wins: seq<Win>, cur: nat, i: nat, doto: nat, s: seq<Byte>, q: Ptr,
                 m': Memory, wins': seq<Win>)
    requires Sound(m, order, wins, cur) && i < |order| - 1 && order[i] in m && q !in m && doto <= |m[order[i]].text|
    requires WinIn(order, wins[cur]) && PosOf(order, wins[cur].dot) == Pos(i, doto)
    requires var p := order[i]; var was := m[p].text;
      var m1 := m[q := NewLine(|was| + |s|, was[..doto] + s + was[doto..])];
      && m1[p].bp in m1 && m1[p].fp in m1 && m' == PutInPlace(m1, p, p, q)
      && |wins'| == |wins| && forall j :: 0 <= j < |wins| ==> wins'[j] == WinGrow(wins[j], p, q, |was| == doto, doto, |s|)
    ensures var o := Swap(order, i, i + 1, q);
      && Fits(TextOf(m, order), Put(i, doto, s, true)) && Sound(m', o, wins', cur)
      && |o| == |order| && o[|o| - 1] == order[|order| - 1]
      && (forall j :: 0 <= j < |wins| ==> WinIn(order, wins[j]) && WinIn(o, wins'[j]))
      && AbsOf(m', o, wins', cur) == Apply(AbsOf(m, order, wins, cur), Put(i, doto, s, true))
  {
    hide PutInPlace, ViewOf, Apply, WinIn, WinsMove, WinGrow, AbsOf, Ring, EditText, Swap;
    SoundIsOk(m, order, wins, cur);
    RingMembers(m, order);
    FpIs(m, order, i);
    var was := m[order[i]].text;
    GrowMemory(m, order, i, doto, s, q, NewLine(|was| + |s|, was[..doto] + s + was[doto..]));
    SwapSize(order, i, q);
    GrowWins(order, TextOf(m, order), wins, cur, i, doto, s, q, wins');
    MatchesEdit(m, order, wins, cur, Put(i, doto, s, true), m', Swap(order, i, i + 1, q), wins');
  }

  lemma GrowWins(order: seq<Ptr>, t: Lines, wins: seq<Win>, cur: nat, i: nat, doto: nat, s: seq<Byte>, q: Ptr, wins': seq<Win>)
    requires Distinct(order) && |t| == |order| - 1 && Fits(t, Put(i, doto, s, true)) && q !in order
    requires forall j :: 0 <= j < |wins| ==> WinIn(order, wins[j])
    requires |wins'| == |wins| && forall j :: 0 <= j < |wins| ==> wins'[j] == WinGrow(wins[j], order[i], q, |t[i]| == doto, doto, |s|)
    ensures WinsMove(order, wins, Swap(order, i, i + 1, q), wins', t, Put(i, doto, s, true), cur)
  {
    forall j | 0 <= j < |wins|
      ensures WinMoves(order, wins[j], Swap(order, i, i + 1, q), wins'[j], t, Put(i, doto, s, true), j == cur)
    {
      WinGrowMoves(order, t, wins[j], i, q, doto, s, j == cur);
    }
  }

  lemma StoreDone(m: Memory, order: seq<Ptr>, wins: seq<Win>, cur: nat, i: nat, doto: nat, s: seq<Byte>, m': Memory, wins': seq<Win>)
    requires Sound(m, order, wins, cur) && i < |order| - 1 && order[i] in m && doto <= |m[order[i]].text|
    requires |m[order[i]].text| + |s| <= m[order[i]].size
    requires cur < |wins| && WinIn(order, wins[cur]) && PosOf(order, wins[cur].dot) == Pos(i, doto)
    requires m' == SetText(m, order[i], m[order[i]].text[..doto] + s + m[order[i]].text[doto..])
    requires wins' == wins[cur := wins[cur].(dot := Place(order[i], doto + |s|))]
    ensures Fits(TextOf(m, order), Put(i, doto, s, false)) && Sound(m', order, wins', cur) && m'.Keys == m.Keys
    ensures forall j :: 0 <= j < |wins| ==> WinIn(order, wins[j]) && WinIn(order, wins'[j])
    ensures AbsOf(m', order, wins', cur) == Apply(AbsOf(m, order, wins, cur), Put(i, doto, s, false))
  {
    hide Apply, WinsMove, SetText, AbsOf;
    SoundIsOk(m, order, wins, cur);
    IndexUniqueIn(m, order, i);
    FpIs(m, order, i);
    SetTextRing(m, order, order[i], m[order[i]].text[..doto] + s + m[order[i]].text[doto..]);
    StoreWins(order, TextOf(m, order), wins, cur, i, doto, s, wins');
    MatchesEdit(m, order, wins, cur, Put(i, doto, s, false), m', order, wins');
  }

  lemma StoreWins(order: seq<Ptr>, t: Lines, wins: seq<Win>, cur: nat, i: nat, doto: nat, s: seq<Byte>, wins': seq<Win>)
    requires Distinct(order) && |t| == |order| - 1 && Fits(t, Put(i, doto, s, false))
    requires forall j :: 0 <= j < |wins| ==> WinIn(order, wins[j])
    requires cur < |wins| && WinIn(order, wins[cur]) && PosOf(order, wins[cur].dot) == Pos(i, doto)
    requires wins' == wins[cur := wins[cur].(dot := Place(order[i], doto + |s|))]
    ensures WinsMove(order, wins, order, wins', t, Put(i, doto, s, false), cur)
  {
    IndexUnique(order, i);
    forall j | 0 <= j < |wins| ensures WinMoves(order, wins[j], order, wins'[j], t, Put(i, doto, s, false), j == cur) {
    }
  }
}
