/** The editing commands of line.c on the abstract buffer, and what they do to its linear reading. */
module TextEdits {
  import opened Bytes
  import opened Text

  // ---- Linear positions ----

  /** Deleting `n` bytes at `at`: fixed before, to the start inside, shifted after. */
  function DelMap(at: nat, n: nat, x: nat): nat {
    if x <= at then x else if x < at + n then at else x - n
  }

  /** Inserting `n` bytes at `at`: fixed before, shifted from there on. */
  function InsMap(at: nat, n: nat, x: nat): nat {
    if x < at then x else x + n
  }

  lemma PrefixLength(t: Lines, i: nat, j: nat)
    requires i < j <= |t|
    ensures |Flat(t[..i])| + |t[i]| < |Flat(t[..j])|
  {
    FlatAround(t[..j], i);
    assert t[..j][..i] == t[..i];
  }

  /** Positions are ordered alike by line and offset and by their linear place. */
  lemma LinearOrder(t: Lines, p: Pos, q: Pos)
    requires OkPos(t, p) && OkPos(t, q)
    ensures Linear(t, p) < Linear(t, q) <==> p.line < q.line || (p.line == q.line && p.off < q.off)
  {
    if p.line < q.line {
      PrefixLength(t, p.line, q.line);
    }
    if q.line < p.line {
      PrefixLength(t, q.line, p.line);
    }
  }

  lemma CutLinear(t: Lines, l: nat, o: nat, k: nat, p: Pos)
    requires Fits(t, Cut(l, o, k)) && OkPos(t, p)
    ensures OkPos(EditText(t, Cut(l, o, k)), MovePos(t, Cut(l, o, k), p))
    ensures Linear(EditText(t, Cut(l, o, k)), MovePos(t, Cut(l, o, k), p)) == DelMap(Linear(t, Pos(l, o)), k, Linear(t, p))
  {
    hide Flat;
    var t' := EditText(t, Cut(l, o, k));
    LinearOrder(t, p, Pos(l, o));
    if p.line <= l {
      assert t'[..p.line] == t[..p.line];
    } else {
      assert t'[..p.line] == EditText(t[..p.line], Cut(l, o, k));
      CutFlat(t[..p.line], l, o, k);
      assert t[..p.line][..l] == t[..l];
    }
  }

  lemma JoinLinear(t: Lines, l: nat, p: Pos)
    requires Fits(t, Join(l)) && OkPos(t, p)
    ensures OkPos(EditText(t, Join(l)), MovePos(t, Join(l), p))
    ensures Linear(EditText(t, Join(l)), MovePos(t, Join(l), p)) == DelMap(Linear(t, Pos(l, |t[l]|)), 1, Linear(t, p))
  {
    hide Flat;
    var t' := EditText(t, Join(l));
    LinearOrder(t, p, Pos(l, |t[l]|));
    if p.line <= l {
      assert t'[..p.line] == t[..p.line];
    } else if p.line == l + 1 {
      FlatAround(t[..l + 1], l);
      assert t[..l + 1][..l] == t[..l] == t'[..l];
      FlatNone(t[..l + 1][l + 1..]);
    } else {
      assert t'[..p.line - 1] == EditText(t[..p.line], Join(l));
      JoinFlat(t[..p.line], l);
      assert t[..p.line][..l] == t[..l];
    }
  }

  lemma FlatNone(t: Lines)
    requires |t| == 0
    ensures Flat(t) == []
  {
  }

  /** The lines before line `j` are broken by themselves. */
  lemma SplitPrefix(t: Lines, l: nat, o: nat, j: nat)
    requires l < j <= |t| && o <= |t[l]|
    ensures EditText(t, Split(l, o))[..j + 1] == EditText(t[..j], Split(l, o))
  {
    hide Flat;
    var head, pair, tail := t[..l], [t[l][..o], t[l][o..]], t[l + 1..];
    assert t[..j][..l] == head && t[..j][l + 1..] == tail[..j - l - 1] && t[..j][l] == t[l];
    assert (head + pair + tail)[..j + 1] == head + pair + tail[..j - l - 1];
  }

  lemma SplitLinear(t: Lines, l: nat, o: nat, p: Pos)
    requires l < |t| && Fits(t, Split(l, o)) && OkPos(t, p)
    ensures OkPos(EditText(t, Split(l, o)), MovePos(t, Split(l, o), p))
    ensures Linear(EditText(t, Split(l, o)), MovePos(t, Split(l, o), p)) == InsMap(Linear(t, Pos(l, o)), 1, Linear(t, p))
  {
    hide Flat;
    var t' := EditText(t, Split(l, o));
    LinearOrder(t, p, Pos(l, o));
    if p.line < l || (p.line == l && p.off < o) {
      assert t'[..p.line] == t[..p.line];
    } else if p.line == l {
      FlatAround(t'[..l + 1], l);
      assert t'[..l] == t[..l];
      assert t'[..l + 1][..l] == t'[..l];
      FlatNone(t'[..l + 1][l + 1..]);
    } else {
      SplitPrefix(t, l, o, p.line);
      SplitFlat(t[..p.line], l, o);
      assert t[..p.line][..l] == t[..l];
    }
  }

  // ---- ldelete ----

  const KILL_MAX := 8191

  /** The outcome of `ldelete`: the buffer, the bytes not deleted, the kill buffer, and whether the
      kill buffer had room. */
  datatype Deletion = Deletion(ed: Ed, left: nat, kill: seq<Byte>, roomy: bool)

  function Min(a: nat, b: nat): nat {
    if a < b then a else b
  }

  /** The edit one turn of the `ldelete` loop makes at the end of a line; a line that is last but
      not blank is left alone, which the source counts as a success. */
  function EndEdit(ed: Ed): (e: Option<Edit>)
    requires ed.cur < |ed.views|
    ensures e.Some? ==> Fits(ed.text, e.value) && !e.value.Put?
  {
    var l := Dot(ed).line;
    if l + 1 < |ed.text| then Some(Join(l))
    else if l < |ed.text| && ed.text[l] == [] then Some(Drop)
    else None
  }

  function Delete(ed: Ed, n: nat, kflag: bool, kill: seq<Byte>): (d: Deletion)
    requires OkEd(ed) && |kill| <= KILL_MAX
    ensures OkEd(d.ed) && d.ed.cur == ed.cur && |d.ed.views| == |ed.views| && |d.kill| <= KILL_MAX
    decreases n
  {
    var p := Dot(ed);
    assert OkView(ed.text, ed.views[ed.cur]);
    if n == 0 || p.line == |ed.text| then Deletion(ed, n, kill, true)
    else
      var chunk := Min(|ed.text[p.line]| - p.off, n);
      if chunk == 0 then
        var e := EndEdit(ed);
        var ed' := if e.Some? then Apply(ed, e.value) else ed;
        assert OkEd(ed') by { if e.Some? { ApplyKeepsOk(ed, e.value); } }
        if kflag && |kill| >= KILL_MAX then Deletion(ed', n, kill, false)
        else Delete(ed', n - 1, kflag, if kflag then kill + [NEWLINE] else kill)
      else
        var bytes := ed.text[p.line][p.off..p.off + chunk];
        if kflag && |kill| + chunk > KILL_MAX then Deletion(ed, n, (kill + bytes)[..KILL_MAX], false)
        else
          var e := Cut(p.line, p.off, chunk);
          assert OkEd(Apply(ed, e)) by { ApplyKeepsOk(ed, e); }
          Delete(Apply(ed, e), n - chunk, kflag, if kflag then kill + bytes else kill)
  }

  /** `ldelete` returns TRUE iff everything asked for was counted as deleted. */
  predicate Succeeded(d: Deletion) {
    d.roomy && d.left == 0
  }

  /** The linear place `x` is on line `l`, or is the end of the text if `l` is the header line. */
  predicate LineHolds(t: Lines, l: nat, x: nat) {
    l <= |t| && |Flat(t[..l])| <= x <= |Flat(t[..l])| + (if l < |t| then |t[l]| else 0)
  }

  /** A window's top line stays the line that holds what it held, as far as that is left. */
  ghost predicate TopFollows(t: Lines, t': Lines, at: nat, n: nat, top: nat, top': nat) {
    forall x: nat :: LineHolds(t, top, x) ==> LineHolds(t', top', DelMap(at, n, x))
  }

  lemma TopFollowsChain(a: Lines, b: Lines, c: Lines, at: nat, n: nat, k: nat, i: nat, j: nat, l: nat)
    requires TopFollows(a, b, at, n, i, j) && TopFollows(b, c, at, k, j, l)
    ensures TopFollows(a, c, at, n + k, i, l)
  {
    hide LineHolds;
    forall x: nat | LineHolds(a, i, x) ensures LineHolds(c, l, DelMap(at, n + k, x)) {
      assert LineHolds(b, j, DelMap(at, n, x));
      assert DelMap(at, k, DelMap(at, n, x)) == DelMap(at, n + k, x);
    }
  }

  lemma CutTop(t: Lines, l: nat, o: nat, k: nat, top: nat)
    requires Fits(t, Cut(l, o, k)) && top <= |t|
    ensures TopFollows(t, EditText(t, Cut(l, o, k)), Linear(t, Pos(l, o)), k, top, top)
  {
    hide Flat;
    CutLinear(t, l, o, k, Pos(top, 0));
    if top < |t| {
      CutLinear(t, l, o, k, Pos(top, |t[top]|));
    }
  }

  lemma JoinTop(t: Lines, l: nat, top: nat)
    requires Fits(t, Join(l)) && top <= |t|
    ensures TopFollows(t, EditText(t, Join(l)), Linear(t, Pos(l, |t[l]|)), 1, top, MoveTop(t, Join(l), top))
  {
    hide Flat;
    JoinLinear(t, l, Pos(top, 0));
    if top < |t| {
      JoinLinear(t, l, Pos(top, |t[top]|));
    }
    if top == l + 1 {
      assert EditText(t, Join(l))[..l] == t[..l];
    }
  }

  ghost predicate MovedBy(t: Lines, t': Lines, at: nat, n: nat, v: View, v': View)
    requires OkView(t, v) && OkView(t', v')
  {
    && Linear(t', v'.dot) == DelMap(at, n, Linear(t, v.dot))
    && (v'.mark.Some? <==> v.mark.Some?)
    && (v.mark.Some? ==> Linear(t', v'.mark.value) == DelMap(at, n, Linear(t, v.mark.value)))
    && TopFollows(t, t', at, n, v.top, v'.top)
  }

  /** `ed'` is `ed` with the `n` bytes after linear place `at` removed, every dot, mark and
      top line moved by the one deletion map, and the current dot where it was. */
  ghost predicate Removed(ed: Ed, n: nat, ed': Ed)
    requires OkEd(ed)
  {
    && OkEd(ed') && |ed'.views| == |ed.views| && ed'.cur == ed.cur && Dot(ed') == Dot(ed)
    && var at := Linear(ed.text, Dot(ed));
      && at + n <= |Flat(ed.text)|
      && Flat(ed'.text) == Splice(Flat(ed.text), at, n, [])
      && forall i :: 0 <= i < |ed.views| ==> MovedBy(ed.text, ed'.text, at, n, ed.views[i], ed'.views[i])
  }

  lemma RemovedNone(ed: Ed)
    requires OkEd(ed)
    ensures OkPos(ed.text, Dot(ed)) && Removed(ed, 0, ed)
  {
    assert OkView(ed.text, ed.views[ed.cur]);
    LinearBound(ed.text, Dot(ed));
    var f, at := Flat(ed.text), Linear(ed.text, Dot(ed));
    assert f[..at] + [] + f[at..] == f;
  }

  lemma RemovedChain(a: Ed, b: Ed, c: Ed, n: nat, k: nat)
    requires OkEd(a) && OkEd(b) && Removed(a, n, b) && Removed(b, k, c)
    requires Linear(b.text, Dot(b)) == Linear(a.text, Dot(a))
    requires Linear(a.text, Dot(a)) + n + k <= |Flat(a.text)|
    ensures Removed(a, n + k, c)
  {
    hide Flat, TopFollows;
    var at, f := Linear(a.text, Dot(a)), Flat(a.text);
    assert Splice(f, at, n, [])[..at] == f[..at];
    assert Splice(f, at, n, [])[at + k..] == f[at + n + k..];
    forall i | 0 <= i < |a.views| ensures MovedBy(a.text, c.text, at, n + k, a.views[i], c.views[i]) {
      assert OkView(a.text, a.views[i]) && OkView(b.text, b.views[i]) && OkView(c.text, c.views[i]);
      assert MovedBy(a.text, b.text, at, n, a.views[i], b.views[i]);
      assert MovedBy(b.text, c.text, at, k, b.views[i], c.views[i]);
      TopFollowsChain(a.text, b.text, c.text, at, n, k, a.views[i].top, b.views[i].top, c.views[i].top);
    }
  }

  lemma CutRemoves(ed: Ed, chunk: nat)
    requires OkEd(ed) && OnLine(ed.text, Dot(ed)) && Dot(ed).off + chunk <= |ed.text[Dot(ed).line]|
    ensures Removed(ed, chunk, Apply(ed, Cut(Dot(ed).line, Dot(ed).off, chunk)))
    ensures var ed' := Apply(ed, Cut(Dot(ed).line, Dot(ed).off, chunk));
      Linear(ed'.text, Dot(ed')) == Linear(ed.text, Dot(ed))
  {
    hide TopFollows;
    var p := Dot(ed);
    var e := Cut(p.line, p.off, chunk);
    var ed' := Apply(ed, e);
    ApplyKeepsOk(ed, e);
    CutFlat(ed.text, p.line, p.off, chunk);
    assert ed'.text[..p.line] == ed.text[..p.line];
    forall i | 0 <= i < |ed.views|
      ensures OkView(ed.text, ed.views[i]) && OkView(ed'.text, ed'.views[i])
      ensures MovedBy(ed.text, ed'.text, Linear(ed.text, p), chunk, ed.views[i], ed'.views[i])
    {
      assert OkView(ed.text, ed.views[i]) && OkView(ed'.text, ed'.views[i]);
      CutLinear(ed.text, p.line, p.off, chunk, ed.views[i].dot);
      CutTop(ed.text, p.line, p.off, chunk, ed.views[i].top);
      if ed.views[i].mark.Some? {
        CutLinear(ed.text, p.line, p.off, chunk, ed.views[i].mark.value);
      }
    }
  }

  lemma JoinRemoves(ed: Ed)
    requires OkEd(ed) && Dot(ed).line + 1 < |ed.text| && Dot(ed).off == |ed.text[Dot(ed).line]|
    ensures Removed(ed, 1, Apply(ed, Join(Dot(ed).line)))
    ensures var ed' := Apply(ed, Join(Dot(ed).line));
      Linear(ed'.text, Dot(ed')) == Linear(ed.text, Dot(ed))
  {
    hide TopFollows;
    var p := Dot(ed);
    var e := Join(p.line);
    var ed' := Apply(ed, e);
    ApplyKeepsOk(ed, e);
    JoinFlat(ed.text, p.line);
    assert ed'.text[..p.line] == ed.text[..p.line];
    forall i | 0 <= i < |ed.views|
      ensures OkView(ed.text, ed.views[i]) && OkView(ed'.text, ed'.views[i])
      ensures MovedBy(ed.text, ed'.text, Linear(ed.text, p), 1, ed.views[i], ed'.views[i])
    {
      assert OkView(ed.text, ed.views[i]) && OkView(ed'.text, ed'.views[i]);
      JoinLinear(ed.text, p.line, ed.views[i].dot);
      JoinTop(ed.text, p.line, ed.views[i].top);
      if ed.views[i].mark.Some? {
        JoinLinear(ed.text, p.line, ed.views[i].mark.value);
      }
    }
  }

  /** The bytes to the right of dot, up to the end of its line. */
  lemma LineBytes(t: Lines, l: nat, o: nat, k: nat)
    requires l < |t| && o + k <= |t[l]|
    ensures Linear(t, Pos(l, o)) + k < |Flat(t)|
    ensures Flat(t)[Linear(t, Pos(l, o))..Linear(t, Pos(l, o)) + k] == t[l][o..o + k]
    ensures o + k == |t[l]| ==> Flat(t)[Linear(t, Pos(l, o)) + k] == NEWLINE
    ensures o + k == |t[l]| ==> (l + 1 < |t| <==> Linear(t, Pos(l, o)) + k + 1 < |Flat(t)|)
  {
    hide Flat;
    FlatAround(t, l);
    if l + 1 < |t| {
      FlatAround(t, l + 1);
      PrefixLength(t, l, l + 1);
    } else {
      FlatNone(t[l + 1..]);
    }
  }

  /** The kill buffer grew by the `n` bytes after dot, if this was a kill. */
  ghost predicate Killed(ed: Ed, n: nat, kflag: bool, kill: seq<Byte>, kill': seq<Byte>)
    requires OkEd(ed)
  {
    && OkPos(ed.text, Dot(ed)) && Linear(ed.text, Dot(ed)) + n <= |Flat(ed.text)|
    && kill' == if kflag then kill + Flat(ed.text)[Linear(ed.text, Dot(ed))..Linear(ed.text, Dot(ed)) + n] else kill
  }

  lemma RemovedText(ed: Ed, n: nat, ed': Ed)
    requires OkEd(ed) && Removed(ed, n, ed')
    ensures OkPos(ed.text, Dot(ed)) && Linear(ed.text, Dot(ed)) + n <= |Flat(ed.text)|
    ensures Flat(ed'.text) == Splice(Flat(ed.text), Linear(ed.text, Dot(ed)), n, [])
  {
    RemovedFlat(ed, n, ed');
  }

  lemma KilledChain(a: Ed, b: Ed, n: nat, k: nat, kflag: bool, x: seq<Byte>, y: seq<Byte>, z: seq<Byte>)
    requires OkEd(a) && OkEd(b) && Removed(a, n, b) && Linear(b.text, Dot(b)) == Linear(a.text, Dot(a))
    requires Killed(a, n, kflag, x, y) && Killed(b, k, kflag, y, z)
    ensures Killed(a, n + k, kflag, x, z)
  {
    hide Flat, Linear, Splice, Removed;
    var at, f := Linear(a.text, Dot(a)), Flat(a.text);
    RemovedText(a, n, b);
    SliceChain(f, at, n, k);
    if kflag {
      Regrouped(x, f[at..at + n], f[at + n..at + n + k]);
    }
  }

  lemma Regrouped(x: seq<Byte>, y: seq<Byte>, z: seq<Byte>)
    ensures x + y + z == x + (y + z)
  {
  }

  lemma SliceChain(f: seq<Byte>, at: nat, n: nat, k: nat)
    requires at + n <= |f|
    ensures at + k <= |Splice(f, at, n, [])| ==> at + n + k <= |f|
    ensures at + k <= |Splice(f, at, n, [])| ==> Splice(f, at, n, [])[at..at + k] == f[at + n..at + n + k]
    ensures at + k <= |Splice(f, at, n, [])| ==> f[at..at + n + k] == f[at..at + n] + f[at + n..at + n + k]
  {
  }

  /** One turn of the loop, still inside the text: some `k` of the `n` bytes go. */
  ghost predicate Turn(ed: Ed, n: nat, kflag: bool, kill: seq<Byte>, k: nat, ed': Ed, kill': seq<Byte>)
    requires OkEd(ed)
  {
    && 0 < k <= n && Removed(ed, k, ed') && OnLine(ed'.text, Dot(ed'))
    && Linear(ed'.text, Dot(ed')) == Linear(ed.text, Dot(ed))
    && Killed(ed, k, kflag, kill, kill')
    && |kill| <= KILL_MAX && |kill'| <= |kill| + (if kflag then k else 0) <= KILL_MAX
    && Delete(ed, n, kflag, kill) == Delete(ed', n - k, kflag, kill')
  }

  lemma DeleteTurn(ed: Ed, n: nat, kflag: bool, kill: seq<Byte>) returns (k: nat, ed': Ed, kill': seq<Byte>)
    requires OkEd(ed) && OnLine(ed.text, Dot(ed)) && 0 < n && Linear(ed.text, Dot(ed)) + n < |Flat(ed.text)|
    requires |kill| + (if kflag then n else 0) <= KILL_MAX
    ensures Turn(ed, n, kflag, kill, k, ed', kill')
  {
    if Dot(ed).off == |ed.text[Dot(ed).line]| {
      JoinTurn(ed, n, kflag, kill);
      k, ed', kill' := 1, Apply(ed, Join(Dot(ed).line)), if kflag then kill + [NEWLINE] else kill;
    } else {
      k := Min(|ed.text[Dot(ed).line]| - Dot(ed).off, n);
      var p := Dot(ed);
      ed' := Apply(ed, Cut(p.line, p.off, k));
      kill' := if kflag then kill + ed.text[p.line][p.off..p.off + k] else kill;
      CutTurn(ed, n, kflag, kill, k);
    }
  }

  lemma JoinTurn(ed: Ed, n: nat, kflag: bool, kill: seq<Byte>)
    requires OkEd(ed) && OnLine(ed.text, Dot(ed)) && 0 < n && Linear(ed.text, Dot(ed)) + n < |Flat(ed.text)|
    requires |kill| + (if kflag then n else 0) <= KILL_MAX && Dot(ed).off == |ed.text[Dot(ed).line]|
    ensures Dot(ed).line + 1 < |ed.text|
    ensures Turn(ed, n, kflag, kill, 1, Apply(ed, Join(Dot(ed).line)), if kflag then kill + [NEWLINE] else kill)
  {
    hide Flat, Removed;
    var p := Dot(ed);
    LineBytes(ed.text, p.line, p.off, 0);
    JoinRemoves(ed);
    ApplyKeepsOk(ed, Join(p.line));
    var f, at := Flat(ed.text), Linear(ed.text, p);
    assert f[at..at + 1] == [NEWLINE];
  }

  lemma CutTurn(ed: Ed, n: nat, kflag: bool, kill: seq<Byte>, k: nat)
    requires OkEd(ed) && OnLine(ed.text, Dot(ed)) && 0 < n && Linear(ed.text, Dot(ed)) + n < |Flat(ed.text)|
    requires |kill| + (if kflag then n else 0) <= KILL_MAX
    requires k == Min(|ed.text[Dot(ed).line]| - Dot(ed).off, n) > 0
    ensures Turn(ed, n, kflag, kill, k, Apply(ed, Cut(Dot(ed).line, Dot(ed).off, k)),
                 if kflag then kill + ed.text[Dot(ed).line][Dot(ed).off..Dot(ed).off + k] else kill)
  {
    hide Flat, Removed;
    var p := Dot(ed);
    LineBytes(ed.text, p.line, p.off, k);
    CutRemoves(ed, k);
    ApplyKeepsOk(ed, Cut(p.line, p.off, k));
  }

  /** Within the text `ldelete` removes exactly the `n` bytes after dot, across any number of lines,
      moves every dot, mark and top line by the one deletion map, and hands the bytes to the kill buffer when
      asked. */
  lemma {:induction false} DeleteRemoves(ed: Ed, n: nat, kflag: bool, kill: seq<Byte>)
    requires OkEd(ed) && OnLine(ed.text, Dot(ed)) && Linear(ed.text, Dot(ed)) + n < |Flat(ed.text)|
    requires |kill| + (if kflag then n else 0) <= KILL_MAX
    ensures var d := Delete(ed, n, kflag, kill);
      Succeeded(d) && Removed(ed, n, d.ed) && Killed(ed, n, kflag, kill, d.kill)
    decreases n
  {
    hide Flat, Delete, Removed, Killed, Turn;
    if n == 0 {
      DeleteNothing(ed, kflag, kill);
    } else {
      var k, ed', kill' := DeleteTurn(ed, n, kflag, kill);
      TurnLeaves(ed, n, kflag, kill, k, ed', kill');
      DeleteRemoves(ed', n - k, kflag, kill');
      TurnChains(ed, n, kflag, kill, k, ed', kill');
    }
  }

  lemma DeleteNothing(ed: Ed, kflag: bool, kill: seq<Byte>)
    requires OkEd(ed) && OnLine(ed.text, Dot(ed)) && |kill| <= KILL_MAX
    ensures var d := Delete(ed, 0, kflag, kill);
      Succeeded(d) && Removed(ed, 0, d.ed) && Killed(ed, 0, kflag, kill, d.kill)
  {
    RemovedNone(ed);
    LinearBound(ed.text, Dot(ed));
    assert kill + [] == kill;
  }

  lemma TurnLeaves(ed: Ed, n: nat, kflag: bool, kill: seq<Byte>, k: nat, ed': Ed, kill': seq<Byte>)
    requires OkEd(ed) && Turn(ed, n, kflag, kill, k, ed', kill') && OkPos(ed.text, Dot(ed))
    requires |kill| + (if kflag then n else 0) <= KILL_MAX && Linear(ed.text, Dot(ed)) + n < |Flat(ed.text)|
    ensures k <= n && OkEd(ed') && OnLine(ed'.text, Dot(ed')) && Linear(ed'.text, Dot(ed')) + n - k < |Flat(ed'.text)|
    ensures |kill'| + (if kflag then n - k else 0) <= KILL_MAX
  {
    hide Flat, Delete;
    RemovedFlat(ed, k, ed');
  }

  lemma TurnChains(ed: Ed, n: nat, kflag: bool, kill: seq<Byte>, k: nat, ed': Ed, kill': seq<Byte>)
    requires OkEd(ed) && OkEd(ed') && Turn(ed, n, kflag, kill, k, ed', kill')
    requires OkPos(ed.text, Dot(ed)) && Linear(ed.text, Dot(ed)) + n < |Flat(ed.text)|
    requires var d := Delete(ed', n - k, kflag, kill');
      Succeeded(d) && Removed(ed', n - k, d.ed) && Killed(ed', n - k, kflag, kill', d.kill)
    ensures var d := Delete(ed, n, kflag, kill);
      Succeeded(d) && Removed(ed, n, d.ed) && Killed(ed, n, kflag, kill, d.kill)
  {
    hide Flat, Delete, Removed, Killed;
    var d := Delete(ed', n - k, kflag, kill');
    RemovedChain(ed, ed', d.ed, k, n - k);
    KilledChain(ed, ed', k, n - k, kflag, kill, kill', d.kill);
  }

  lemma RemovedFlat(ed: Ed, n: nat, ed': Ed)
    requires OkEd(ed) && Removed(ed, n, ed')
    ensures OkPos(ed.text, Dot(ed)) && OkEd(ed') && OkPos(ed'.text, Dot(ed'))
    ensures Linear(ed.text, Dot(ed)) + n <= |Flat(ed.text)|
    ensures |Flat(ed'.text)| == |Flat(ed.text)| - n && Dot(ed') == Dot(ed)
    ensures Linear(ed'.text, Dot(ed')) == Linear(ed.text, Dot(ed))
  {
    assert OkView(ed.text, ed.views[ed.cur]) && OkView(ed'.text, ed'.views[ed'.cur]);
    assert MovedBy(ed.text, ed'.text, Linear(ed.text, Dot(ed)), n, ed.views[ed.cur], ed'.views[ed'.cur]);
  }

  /** Deleting never puts a newline byte into a line. */
  lemma {:induction false} DeleteKeepsLines(ed: Ed, n: nat, kflag: bool, kill: seq<Byte>)
    requires OkEd(ed) && |kill| <= KILL_MAX && NewlineFree(ed.text)
    ensures NewlineFree(Delete(ed, n, kflag, kill).ed.text)
    decreases n
  {
    hide NewlineFree, EditText, MoveView;
    var p := Dot(ed);
    DotIsOk(ed);
    if n > 0 && p.line < |ed.text| {
      var chunk := Min(|ed.text[p.line]| - p.off, n);
      if chunk == 0 {
        var e := EndEdit(ed);
        if e.Some? { EditKeeps(ed, e.value); }
        if !(kflag && |kill| >= KILL_MAX) {
          DeleteKeepsLines(if e.Some? then Apply(ed, e.value) else ed, n - 1, kflag, if kflag then kill + [NEWLINE] else kill);
        }
      } else if !(kflag && |kill| + chunk > KILL_MAX) {
        var e := Cut(p.line, p.off, chunk);
        EditKeeps(ed, e);
        DeleteKeepsLines(Apply(ed, e), n - chunk, kflag,
                         if kflag then kill + ed.text[p.line][p.off..p.off + chunk] else kill);
      }
    }
  }

  lemma DotIsOk(ed: Ed)
    requires OkEd(ed)
    ensures OkPos(ed.text, Dot(ed))
  {
    assert OkView(ed.text, ed.views[ed.cur]);
  }

  lemma EditKeeps(ed: Ed, e: Edit)
    requires OkEd(ed) && Fits(ed.text, e) && !e.Put? && NewlineFree(ed.text)
    ensures OkEd(Apply(ed, e)) && NewlineFree(Apply(ed, e).text)
  {
    ApplyKeepsOk(ed, e);
    EditNewlineFree(ed.text, e);
  }

  // ---- linsert ----

  function WithDot(ed: Ed, p: Pos): Ed
    requires ed.cur < |ed.views|
  {
    ed.(views := ed.views[ed.cur := ed.views[ed.cur].(dot := p)])
  }

  /** Where `linsert` goes from the header line: a first line is made in an empty buffer, otherwise
      dot moves to the end of the last line. */
  function OffHeader(ed: Ed): (e: Ed)
    requires OkEd(ed)
    ensures OkEd(e) && OnLine(e.text, Dot(e)) && e.cur == ed.cur && |e.views| == |ed.views|
  {
    assert OkView(ed.text, ed.views[ed.cur]);
    if Dot(ed).line < |ed.text| then ed
    else if ed.text == [] then ApplyKeepsOk(ed, First); Apply(ed, First)
    else WithDot(ed, Pos(|ed.text| - 1, |ed.text[|ed.text| - 1]|))
  }

  /** `linsert`: splice `s` in at dot; `grew` says whether the line had to be reallocated. */
  function Insert(ed: Ed, s: seq<Byte>, grew: bool): (e: Ed)
    requires OkEd(ed)
    ensures OkEd(e) && OnLine(e.text, Dot(e)) && e.cur == ed.cur && |e.views| == |ed.views|
  {
    var ed1 := OffHeader(ed);
    var e := Put(Dot(ed1).line, Dot(ed1).off, s, grew);
    ApplyKeepsOk(ed1, e);
    Apply(ed1, e)
  }

  /** The text and dot `linsert` of one byte leaves do not depend on the storage. */
  lemma InsertIsType(ed: Ed, c: Byte, grew: bool)
    requires OkEd(ed) && c != NEWLINE
    ensures OkPos(ed.text, Dot(ed))
    ensures var r := TypeByte(ed.text, Dot(ed), c); Insert(ed, [c], grew).text == r.0 && Dot(Insert(ed, [c], grew)) == r.1
  {
    assert OkView(ed.text, ed.views[ed.cur]);
  }

  /** On a line of text `linsert` splices the bytes into the text, leaves dot behind them, and keeps
      the marks where they were on their lines. */
  lemma InsertSplices(ed: Ed, s: seq<Byte>, grew: bool)
    requires OkEd(ed) && OnLine(ed.text, Dot(ed))
    ensures var ed' := Insert(ed, s, grew);
      && Linear(ed.text, Dot(ed)) <= |Flat(ed.text)|
      && Flat(ed'.text) == Splice(Flat(ed.text), Linear(ed.text, Dot(ed)), 0, s)
      && Linear(ed'.text, Dot(ed')) == Linear(ed.text, Dot(ed)) + |s|
      && forall i :: 0 <= i < |ed.views| ==> ed'.views[i].mark == ed.views[i].mark
  {
    hide Flat;
    var p := Dot(ed);
    PutFlat(ed.text, p.line, p.off, s, grew);
    assert Insert(ed, s, grew).text[..p.line] == ed.text[..p.line];
  }

  /** From the header line `linsert` puts the bytes before the last newline, or in front of a newline of
      their own if there is no text, and leaves dot behind them. */
  lemma InsertAtHeader(ed: Ed, s: seq<Byte>, grew: bool)
    requires OkEd(ed) && Dot(ed).line == |ed.text|
    ensures var ed', f := Insert(ed, s, grew), Flat(ed.text);
      && OkPos(ed'.text, Dot(ed'))
      && (f == [] ==> Flat(ed'.text) == s + [NEWLINE] && Linear(ed'.text, Dot(ed')) == |s|)
      && (f != [] ==> Flat(ed'.text) == f[..|f| - 1] + s + [NEWLINE] && Linear(ed'.text, Dot(ed')) == |f| - 1 + |s|)
  {
    hide Flat;
    var ed1, f := OffHeader(ed), Flat(ed.text);
    InsertSplices(ed1, s, grew);
    LastByte(ed1.text);
    if ed.text == [] {
      FlatNone(ed.text);
      assert ed1.text == [[]];
      FlatNone(ed1.text[1..]);
      FlatTail([[]]);
    }
  }

  lemma LastByte(t: Lines)
    requires t != []
    ensures var f, l := Flat(t), |t| - 1;
      |f| > 0 && f[|f| - 1] == NEWLINE && Linear(t, Pos(l, |t[l]|)) == |f| - 1
  {
    hide Flat;
    FlatAround(t, |t| - 1);
    FlatNone(t[|t| - 1 + 1..]);
  }

  /** A position away from the line of an insertion moves by the insertion map. */
  lemma PutLinearElsewhere(t: Lines, l: nat, o: nat, s: seq<Byte>, grew: bool, q: Pos)
    requires Fits(t, Put(l, o, s, grew)) && OkPos(t, q) && q.line != l
    ensures OkPos(EditText(t, Put(l, o, s, grew)), q)
    ensures Linear(EditText(t, Put(l, o, s, grew)), q) == InsMap(Linear(t, Pos(l, o)), |s|, Linear(t, q))
  {
    hide Flat;
    var t' := EditText(t, Put(l, o, s, grew));
    LinearOrder(t, q, Pos(l, o));
    LinearOrder(t, Pos(l, o), q);
    if q.line < l {
      assert t'[..q.line] == t[..q.line];
    } else {
      assert t'[..q.line] == EditText(t[..q.line], Put(l, o, s, grew));
      PutFlat(t[..q.line], l, o, s, grew);
      assert t[..q.line][..l] == t[..l];
    }
  }

  /** And one on that line, put at offset `off`, iff that is where the map takes it. */
  lemma PutLinearOnLine(t: Lines, l: nat, o: nat, s: seq<Byte>, grew: bool, q: nat, off: nat)
    requires Fits(t, Put(l, o, s, grew)) && q <= |t[l]| && off <= |t[l]| + |s|
    ensures var t' := EditText(t, Put(l, o, s, grew));
      OnLine(t', Pos(l, off))
      && (Linear(t', Pos(l, off)) == InsMap(Linear(t, Pos(l, o)), |s|, Linear(t, Pos(l, q))) <==> off == InsMap(o, |s|, q))
  {
    hide Flat;
    assert EditText(t, Put(l, o, s, grew))[..l] == t[..l];
  }

  /** Where `linsert` at `p` moves the dot of another window at `q` as it should: not on the line
      itself when that is extended in place, unless the dot is before the place; and not before the
      place when the line is reallocated to be extended at its end. */
  predicate DotFollows(t: Lines, p: Pos, grew: bool, q: Pos)
    requires OnLine(t, p)
  {
    q.line != p.line || (if grew then p.off == |t[p.line]| ==> q.off == p.off else q.off < p.off)
  }

  /** Marks are left where they are on the line. */
  predicate MarkFollows(p: Pos, q: Pos) {
    q.line != p.line || q.off < p.off
  }

  /** Exactly which dots of other windows and which marks an insertion moves by the insertion map. */
  lemma InsertMoves(ed: Ed, s: seq<Byte>, grew: bool, i: nat)
    requires OkEd(ed) && OnLine(ed.text, Dot(ed)) && s != [] && i < |ed.views|
    ensures var ed', v, at := Insert(ed, s, grew), ed.views[i], Linear(ed.text, Dot(ed));
      var v' := ed'.views[i];
      && OkView(ed.text, v) && OkView(ed'.text, v')
      && (i != ed.cur ==>
          (Linear(ed'.text, v'.dot) == InsMap(at, |s|, Linear(ed.text, v.dot)) <==> DotFollows(ed.text, Dot(ed), grew, v.dot)))
      && (v.mark.Some? <==> v'.mark.Some?)
      && (v.mark.Some? ==>
          (Linear(ed'.text, v'.mark.value) == InsMap(at, |s|, Linear(ed.text, v.mark.value)) <==> MarkFollows(Dot(ed), v.mark.value)))
  {
    hide Flat, Linear;
    var p, ed', v := Dot(ed), Insert(ed, s, grew), ed.views[i];
    assert OkView(ed.text, v) && OkView(ed'.text, ed'.views[i]);
    if v.dot.line == p.line {
      PutLinearOnLine(ed.text, p.line, p.off, s, grew, v.dot.off, ed'.views[i].dot.off);
    } else {
      PutLinearElsewhere(ed.text, p.line, p.off, s, grew, v.dot);
    }
    if v.mark.Some? {
      if v.mark.value.line == p.line {
        PutLinearOnLine(ed.text, p.line, p.off, s, grew, v.mark.value.off, v.mark.value.off);
      } else {
        PutLinearElsewhere(ed.text, p.line, p.off, s, grew, v.mark.value);
      }
    }
  }

  // ---- linsert_str ----

  /** Where `linsert` finds room for a byte typed at the header line: the end of the last line. */
  function TypePlace(t: Lines, p: Pos): (Lines, Pos)
    requires OkPos(t, p)
  {
    if p.line < |t| then (t, p)
    else if t == [] then ([[]], Pos(0, 0))
    else (t, Pos(|t| - 1, |t[|t| - 1]|))
  }

  /** One byte typed at `p`: a newline breaks the line, anything else is inserted. */
  function TypeByte(t: Lines, p: Pos, c: Byte): (r: (Lines, Pos))
    requires OkPos(t, p)
    ensures OkPos(r.0, r.1)
  {
    if c == NEWLINE then (EditText(t, Split(p.line, p.off)), Pos(p.line + 1, 0))
    else
      var (t1, p1) := TypePlace(t, p);
      (EditText(t1, Put(p1.line, p1.off, [c], false)), Pos(p1.line, p1.off + 1))
  }

  function TypeText(t: Lines, p: Pos, s: seq<Byte>): (r: (Lines, Pos))
    requires OkPos(t, p)
    ensures OkPos(r.0, r.1)
    decreases |s|
  {
    if s == [] then (t, p)
    else
      var (t1, p1) := TypeByte(t, p, s[0]);
      TypeText(t1, p1, s[1..])
  }

  lemma TypeByteFlat(t: Lines, p: Pos, c: Byte)
    requires OnLine(t, p)
    ensures var r := TypeByte(t, p, c);
      && OnLine(r.0, r.1) && Linear(r.0, r.1) == Linear(t, p) + 1
      && Linear(t, p) <= |Flat(t)| && Flat(r.0) == Splice(Flat(t), Linear(t, p), 0, [c])
      && (NewlineFree(t) ==> NewlineFree(r.0))
  {
    hide Flat, Splice, NewlineFree, Linear;
    LinearBound(t, p);
    if c == NEWLINE {
      SplitFlat(t, p.line, p.off);
      SplitLinear(t, p.line, p.off, p);
      if NewlineFree(t) { EditNewlineFree(t, Split(p.line, p.off)); }
    } else {
      PutFlat(t, p.line, p.off, [c], false);
      PutLinear(t, p.line, p.off, [c]);
      if NewlineFree(t) { EditNewlineFree(t, Put(p.line, p.off, [c], false)); }
    }
  }

  lemma PutLinear(t: Lines, l: nat, o: nat, s: seq<Byte>)
    requires Fits(t, Put(l, o, s, false))
    ensures var t' := EditText(t, Put(l, o, s, false));
      OnLine(t', Pos(l, o + |s|)) && Linear(t', Pos(l, o + |s|)) == Linear(t, Pos(l, o)) + |s|
  {
    assert EditText(t, Put(l, o, s, false))[..l] == t[..l];
  }

  lemma SpliceAfter(f: seq<Byte>, at: nat, a: seq<Byte>, b: seq<Byte>)
    requires at <= |f|
    ensures Splice(Splice(f, at, 0, a), at + |a|, 0, b) == Splice(f, at, 0, a + b)
  {
    var g := Splice(f, at, 0, a);
    assert g[..at + |a|] == f[..at] + a && g[at + |a|..] == f[at..];
  }

  /** `linsert_str` on a line of text splices the string into the text and leaves dot behind it. */
  lemma {:induction false} TypeTextFlat(t: Lines, p: Pos, s: seq<Byte>)
    requires OnLine(t, p)
    ensures var r := TypeText(t, p, s);
      && OnLine(r.0, r.1) && Linear(r.0, r.1) == Linear(t, p) + |s|
      && Linear(t, p) <= |Flat(t)| && Flat(r.0) == Splice(Flat(t), Linear(t, p), 0, s)
      && (NewlineFree(t) ==> NewlineFree(r.0))
    decreases |s|
  {
    if s == [] {
      LinearBound(t, p);
      var f, at := Flat(t), Linear(t, p);
      assert f[..at] + [] + f[at..] == f;
    } else {
      hide Flat;
      var (t1, p1) := TypeByte(t, p, s[0]);
      TypeByteFlat(t, p, s[0]);
      TypeTextFlat(t1, p1, s[1..]);
      SpliceAfter(Flat(t), Linear(t, p), [s[0]], s[1..]);
      assert [s[0]] + s[1..] == s;
    }
  }
}
