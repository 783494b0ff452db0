/** `ldelete` at the end of the buffer, where it counts as deleted what is not there. */
module TextEnd {
  import opened Bytes
  import opened Text
  import opened TextEdits

  /** How many bytes there are between dot and the last newline. */
  function ToLast(ed: Ed): (m: nat)
    requires OkEd(ed) && OnLine(ed.text, Dot(ed))
    ensures Linear(ed.text, Dot(ed)) + m + 1 == |Flat(ed.text)|
  {
    LinearBound(ed.text, Dot(ed));
    |Flat(ed.text)| - 1 - Linear(ed.text, Dot(ed))
  }

  /** The newlines the kill buffer takes at a last line that stays. */
  function Newlines(n: nat): (s: seq<Byte>)
    ensures |s| == n && forall i :: 0 <= i < n ==> s[i] == NEWLINE
  {
    seq(n, _ => NEWLINE)
  }

  /** How many bytes the kill buffer is asked to take. From the start of a line the deletion ends with
      the buffer; otherwise the last newline is counted over and over. */
  function Asked(ed: Ed, n: nat): nat
    requires OkEd(ed) && OnLine(ed.text, Dot(ed))
  {
    if Dot(ed).off == 0 then Min(n, ToLast(ed) + 1) else n
  }

  /** What it takes, having room: the bytes from dot on, and past the last newline as many more. */
  function Given(ed: Ed, n: nat): seq<Byte>
    requires OkEd(ed) && OnLine(ed.text, Dot(ed))
  {
    var f, at := Flat(ed.text), Linear(ed.text, Dot(ed));
    if n <= ToLast(ed) then f[at..at + n] else f[at..] + Newlines(Asked(ed, n) - (ToLast(ed) + 1))
  }

  /** The kill buffer has room for what it is asked to take, if this is a kill. */
  predicate HasRoom(ed: Ed, n: nat, kflag: bool, kill: seq<Byte>)
    requires OkEd(ed) && OnLine(ed.text, Dot(ed))
  {
    |kill| + (if kflag then Asked(ed, n) else 0) <= KILL_MAX
  }

  predicate AtLastNewline(ed: Ed) {
    ed.cur < |ed.views| && Dot(ed).line + 1 == |ed.text| && Dot(ed).off == |ed.text[Dot(ed).line]|
  }

  /** Past the last line's newline nothing is left to delete, but only a blank last line is given up. */
  lemma {:induction false} DeleteAtEnd(ed: Ed, n: nat, kflag: bool, kill: seq<Byte>)
    requires OkEd(ed) && AtLastNewline(ed) && Dot(ed).off > 0 && |kill| <= KILL_MAX
    ensures var d := Delete(ed, n, kflag, kill);
      && d.ed == ed && (d.roomy <==> !kflag || |kill| + n <= KILL_MAX)
      && (d.roomy ==> d.left == 0 && d.kill == if kflag then kill + Newlines(n) else kill)
    decreases n
  {
    if n == 0 {
      assert kill + Newlines(0) == kill;
    } else if !(kflag && |kill| == KILL_MAX) {
      assert kill + [NEWLINE] + Newlines(n - 1) == kill + Newlines(n);
      DeleteAtEnd(ed, n - 1, kflag, if kflag then kill + [NEWLINE] else kill);
    }
  }

  lemma DropAtEnd(ed: Ed, n: nat, kflag: bool, kill: seq<Byte>)
    requires OkEd(ed) && AtLastNewline(ed) && Dot(ed).off == 0 && n > 0 && |kill| <= KILL_MAX
    ensures OkEd(Apply(ed, Drop)) && Removed(ed, 1, Apply(ed, Drop))
    ensures Delete(ed, n, kflag, kill) ==
      if kflag && |kill| == KILL_MAX then Deletion(Apply(ed, Drop), n, kill, false)
      else Deletion(Apply(ed, Drop), n - 1, if kflag then kill + [NEWLINE] else kill, true)
  {
    hide Removed;
    ApplyKeepsOk(ed, Drop);
    DropRemoves(ed);
    assert Dot(Apply(ed, Drop)).line == |Apply(ed, Drop).text|;
  }

  lemma DropTop(t: Lines, top: nat)
    requires Fits(t, Drop) && top <= |t|
    ensures TopFollows(t, EditText(t, Drop), |Flat(t[..|t| - 1])|, 1, top, MoveTop(t, Drop, top))
  {
    hide Flat;
    var l := |t| - 1;
    FlatAround(t, l);
    FlatNone(t[l + 1..]);
    assert t[..l + 1] == t && t[..l][..l] == t[..l];
    if top < l {
      PrefixLength(t, top, l);
      assert t[..l][..top] == t[..top];
    }
  }

  lemma DropRemoves(ed: Ed)
    requires OkEd(ed) && Dot(ed).line + 1 == |ed.text| && ed.text[Dot(ed).line] == []
    ensures Dot(ed).off == 0 && Removed(ed, 1, Apply(ed, Drop))
  {
    hide Flat, TopFollows;
    var ed' := Apply(ed, Drop);
    var l := |ed.text| - 1;
    assert OkView(ed.text, ed.views[ed.cur]);
    ApplyKeepsOk(ed, Drop);
    FlatAround(ed.text, l);
    FlatNone(ed.text[l + 1..]);
    var at := |Flat(ed.text[..l])|;
    forall p | OkPos(ed.text, p)
      ensures OkPos(ed'.text, MovePos(ed.text, Drop, p))
      ensures Linear(ed'.text, MovePos(ed.text, Drop, p)) == DelMap(at, 1, Linear(ed.text, p))
    {
      LinearOrder(ed.text, p, Pos(l, 0));
      MovePosOk(ed.text, Drop, p);
      if p.line < l {
        assert ed'.text[..p.line] == ed.text[..p.line];
      } else {
        assert ed'.text[..l] == ed.text[..l] && ed.text[..l + 1] == ed.text;
      }
    }
    forall i | 0 <= i < |ed.views| ensures MovedBy(ed.text, ed'.text, at, 1, ed.views[i], ed'.views[i]) {
      assert OkView(ed.text, ed.views[i]) && OkView(ed'.text, ed'.views[i]);
      DropTop(ed.text, ed.views[i].top);
    }
  }

  lemma JoinUnfolds(ed: Ed, n: nat, kflag: bool, kill: seq<Byte>)
    requires OkEd(ed) && n > 0 && Dot(ed).line + 1 < |ed.text| && Dot(ed).off == |ed.text[Dot(ed).line]|
    requires |kill| + (if kflag then 1 else 0) <= KILL_MAX
    ensures OkEd(Apply(ed, Join(Dot(ed).line)))
    ensures Delete(ed, n, kflag, kill) ==
      Delete(Apply(ed, Join(Dot(ed).line)), n - 1, kflag, if kflag then kill + [NEWLINE] else kill)
  {
    hide Apply;
    ApplyKeepsOk(ed, Join(Dot(ed).line));
  }

  lemma CutUnfolds(ed: Ed, n: nat, k: nat, kflag: bool, kill: seq<Byte>)
    requires OkEd(ed) && OnLine(ed.text, Dot(ed)) && k == Min(|ed.text[Dot(ed).line]| - Dot(ed).off, n) > 0
    requires |kill| + (if kflag then k else 0) <= KILL_MAX
    ensures OkEd(Apply(ed, Cut(Dot(ed).line, Dot(ed).off, k)))
    ensures Delete(ed, n, kflag, kill) == Delete(Apply(ed, Cut(Dot(ed).line, Dot(ed).off, k)), n - k, kflag,
      if kflag then kill + ed.text[Dot(ed).line][Dot(ed).off..Dot(ed).off + k] else kill)
  {
    hide Apply;
    ApplyKeepsOk(ed, Cut(Dot(ed).line, Dot(ed).off, k));
  }

  /** One turn of a deletion that reaches the end of the text is the same for any count that does. */
  lemma TurnToLineEnd(ed: Ed, n: nat, m: nat, kflag: bool, kill: seq<Byte>) returns (k: nat, ed': Ed, kill': seq<Byte>)
    requires OkEd(ed) && OnLine(ed.text, Dot(ed)) && 0 < m <= n && m == ToLast(ed)
    requires |kill| + (if kflag then m else 0) <= KILL_MAX
    ensures 0 < k <= m && OkEd(ed') && OnLine(ed'.text, Dot(ed')) && m - k == ToLast(ed')
    ensures |kill'| + (if kflag then m - k else 0) <= KILL_MAX
    ensures Delete(ed, n, kflag, kill) == Delete(ed', n - k, kflag, kill')
    ensures Delete(ed, m, kflag, kill) == Delete(ed', m - k, kflag, kill')
  {
    hide Flat, Delete, Removed, Killed, Apply;
    var p := Dot(ed);
    var room := |ed.text[p.line]| - p.off;
    LineBytes(ed.text, p.line, p.off, room);
    if room == 0 {
      JoinTurn(ed, m, kflag, kill);
      JoinUnfolds(ed, n, kflag, kill);
      k, ed', kill' := 1, Apply(ed, Join(p.line)), if kflag then kill + [NEWLINE] else kill;
    } else {
      CutTurn(ed, m, kflag, kill, room);
      CutUnfolds(ed, n, room, kflag, kill);
      k, ed' := room, Apply(ed, Cut(p.line, p.off, room));
      kill' := if kflag then kill + ed.text[p.line][p.off..p.off + room] else kill;
    }
    TurnLeaves(ed, m, kflag, kill, k, ed', kill');
    RemovedFlat(ed, k, ed');
  }

  /** Deleting to the end and beyond starts like deleting up to the last newline. */
  lemma {:induction false} DeleteGoesOn(ed: Ed, n: nat, m: nat, kflag: bool, kill: seq<Byte>)
    requires OkEd(ed) && OnLine(ed.text, Dot(ed)) && m <= n && m == ToLast(ed)
    requires |kill| + (if kflag then m else 0) <= KILL_MAX
    ensures var d := Delete(ed, m, kflag, kill);
      AtLastNewline(d.ed) && Delete(ed, n, kflag, kill) == Delete(d.ed, n - m, kflag, d.kill)
    decreases m
  {
    hide Delete, Flat, OkEd;
    if m == 0 {
      AtTextEnd(ed, kflag, kill);
    } else {
      var k, ed', kill' := TurnToLineEnd(ed, n, m, kflag, kill);
      DeleteGoesOn(ed', n - k, m - k, kflag, kill');
    }
  }

  lemma AtTextEnd(ed: Ed, kflag: bool, kill: seq<Byte>)
    requires OkEd(ed) && OnLine(ed.text, Dot(ed)) && ToLast(ed) == 0 && |kill| <= KILL_MAX
    ensures Delete(ed, 0, kflag, kill) == Deletion(ed, 0, kill, true) && AtLastNewline(ed)
  {
    hide Flat;
    LineBytes(ed.text, Dot(ed).line, Dot(ed).off, |ed.text[Dot(ed).line]| - Dot(ed).off);
  }

  /** What `ldelete` of more than there is leaves, with room in the kill buffer. */
  lemma DeleteToEnd(ed: Ed, n: nat, kflag: bool, kill: seq<Byte>)
    requires OkEd(ed) && OnLine(ed.text, Dot(ed)) && n > ToLast(ed) && HasRoom(ed, n, kflag, kill)
    ensures var d, m := Delete(ed, n, kflag, kill), ToLast(ed);
      && d.roomy && d.kill == (if kflag then kill + Given(ed, n) else kill)
      && (if Dot(ed).off == 0 then d.left == n - m - 1 && Removed(ed, m + 1, d.ed) else d.left == 0 && Removed(ed, m, d.ed))
  {
    hide Flat, Delete, Removed, Apply, Splice;
    var m := ToLast(ed);
    DeleteRemoves(ed, m, kflag, kill);
    DeleteGoesOn(ed, n, m, kflag, kill);
    var d := Delete(ed, m, kflag, kill);
    RemovedFlat(ed, m, d.ed);
    if Dot(ed).off > 0 {
      DeleteAtEnd(d.ed, n - m, kflag, d.kill);
    } else {
      DropAtEnd(d.ed, n - m, kflag, d.kill);
      RemovedChain(ed, d.ed, Apply(d.ed, Drop), m, 1);
    }
    if kflag {
      EndBytes(ed, n, kill);
    }
  }

  /** The bytes up to the last newline, that newline, and as many more as are asked for. */
  lemma EndBytes(ed: Ed, n: nat, kill: seq<Byte>)
    requires OkEd(ed) && OnLine(ed.text, Dot(ed)) && n > ToLast(ed)
    ensures var f, at, m := Flat(ed.text), Linear(ed.text, Dot(ed)), ToLast(ed);
      && kill + Given(ed, n) == kill + f[at..at + m] + Newlines(Asked(ed, n) - m)
      && Newlines(1) == [NEWLINE]
  {
    hide Flat;
    var f, at, m := Flat(ed.text), Linear(ed.text, Dot(ed)), ToLast(ed);
    EndsInNewline(ed.text);
    assert f[at..] == f[at..at + m] + [f[|f| - 1]];
    assert Newlines(Asked(ed, n) - m) == [NEWLINE] + Newlines(Asked(ed, n) - (m + 1));
  }

  lemma EndsInNewline(t: Lines)
    requires t != []
    ensures |Flat(t)| > 0 && Flat(t)[|Flat(t)| - 1] == NEWLINE
  {
    FlatAround(t, |t| - 1);
    FlatNone(t[|t|..]);
  }

  /** When `ldelete(n)` does what it says, the kill buffer having room: it returns TRUE having removed
      exactly `n` bytes iff the bytes end before the last newline, or take in everything from the
      start of a line. Past that it fails -- or, when text is left on the line, reports success
      without having deleted all, the kill buffer having taken newlines that are not in the text. */
  lemma DeleteExactly(ed: Ed, n: nat, kflag: bool, kill: seq<Byte>)
    requires OkEd(ed) && OnLine(ed.text, Dot(ed)) && HasRoom(ed, n, kflag, kill)
    ensures var d := Delete(ed, n, kflag, kill);
      && d.roomy && d.kill == (if kflag then kill + Given(ed, n) else kill)
      && (Succeeded(d) && Removed(ed, n, d.ed)
          <==> Linear(ed.text, Dot(ed)) + n < |Flat(ed.text)| + (if Dot(ed).off == 0 then 1 else 0))
      && (Dot(ed).off > 0 ==> Succeeded(d))
  {
    hide Flat, Delete, Removed;
    var d := Delete(ed, n, kflag, kill);
    if n <= ToLast(ed) {
      DeleteRemoves(ed, n, kflag, kill);
    } else {
      DeleteToEnd(ed, n, kflag, kill);
      if Removed(ed, n, d.ed) {
        RemovedLength(ed, n, if Dot(ed).off == 0 then ToLast(ed) + 1 else ToLast(ed), d.ed);
      }
    }
  }

  lemma RemovedLength(ed: Ed, n: nat, m: nat, ed': Ed)
    requires OkEd(ed) && Removed(ed, m, ed') && Removed(ed, n, ed')
    ensures n == m
  {
    RemovedFlat(ed, m, ed');
    RemovedFlat(ed, n, ed');
  }
}
