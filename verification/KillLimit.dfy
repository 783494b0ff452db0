/** Deletions for which the kill buffer has no room: `ldelete` stops in the middle of them. */
module KillLimit {
  import opened Bytes
  import opened Text
  import opened TextEdits
  import opened TextEnd

  /** The bytes the first turn of the `ldelete` loop is about: up to the end of the line. */
  function FirstChunk(ed: Ed, n: nat): nat
    requires OkEd(ed) && OnLine(ed.text, Dot(ed))
  {
    Min(|ed.text[Dot(ed).line]| - Dot(ed).off, n)
  }

  /** The kill stops before it has deleted anything: on a line, before its end, with no room for what
      is asked for of that line. (A newline is deleted before the kill buffer is asked for room.) */
  predicate StopsAtOnce(ed: Ed, n: nat, kill: seq<Byte>)
    requires OkEd(ed) && OnLine(ed.text, Dot(ed))
  {
    FirstChunk(ed, n) > 0 && |kill| + FirstChunk(ed, n) > KILL_MAX
  }

  /** The kill deletes nothing at all: it stops at once, or it is about the last newline of a line with
      text, which stays. */
  predicate NothingGoes(ed: Ed, n: nat, kill: seq<Byte>)
    requires OkEd(ed) && OnLine(ed.text, Dot(ed))
  {
    StopsAtOnce(ed, n, kill) || (AtLastNewline(ed) && Dot(ed).off > 0)
  }

  /** A kill for which the kill buffer has no room fails. Some `m` bytes are gone then, and none iff
      nothing goes. */
  lemma {:induction false} KillOverflows(ed: Ed, n: nat, kill: seq<Byte>) returns (m: nat)
    requires OkEd(ed) && OnLine(ed.text, Dot(ed)) && |kill| <= KILL_MAX && !HasRoom(ed, n, true, kill)
    ensures var d := Delete(ed, n, true, kill); !d.roomy && Removed(ed, m, d.ed) && (m == 0 ==> d.ed == ed)
    ensures m == 0 <==> NothingGoes(ed, n, kill)
    decreases n
  {
    hide Flat, Delete, Removed, Apply;
    if StopsAtOnce(ed, n, kill) {
      KillStops(ed, n, kill);
      RemovedNone(ed);
      m := 0;
    } else if AtLastNewline(ed) {
      m := KillAtEnd(ed, n, kill);
    } else {
      var k, ed', kill' := FirstTurn(ed, n, kill);
      if |kill| + k > KILL_MAX {
        m := k;
      } else {
        AskedAfter(ed, n, k, ed');
        var m' := KillOverflows(ed', n - k, kill');
        RemovedFlat(ed, k, ed');
        RemovedFlat(ed', m', Delete(ed', n - k, true, kill').ed);
        RemovedChain(ed, ed', Delete(ed', n - k, true, kill').ed, k, m');
        m := k + m';
      }
    }
  }

  lemma KillAtEnd(ed: Ed, n: nat, kill: seq<Byte>) returns (m: nat)
    requires OkEd(ed) && AtLastNewline(ed) && |kill| <= KILL_MAX && !HasRoom(ed, n, true, kill)
    ensures var d := Delete(ed, n, true, kill); !d.roomy && Removed(ed, m, d.ed) && (m == 0 ==> d.ed == ed)
    ensures m == 0 <==> Dot(ed).off > 0
  {
    hide Flat, Delete, Removed, Apply;
    LineBytes(ed.text, Dot(ed).line, Dot(ed).off, 0);
    if Dot(ed).off > 0 {
      DeleteAtEnd(ed, n, true, kill);
      RemovedNone(ed);
      m := 0;
    } else {
      DropAtEnd(ed, n, true, kill);
      m := 1;
    }
  }

  lemma AskedAfter(ed: Ed, n: nat, k: nat, ed': Ed)
    requires OkEd(ed) && OnLine(ed.text, Dot(ed)) && Removed(ed, k, ed') && k <= n && k <= ToLast(ed)
    requires OkEd(ed') && OnLine(ed'.text, Dot(ed'))
    ensures Asked(ed', n - k) == Asked(ed, n) - k && Linear(ed'.text, Dot(ed')) == Linear(ed.text, Dot(ed))
  {
    hide Flat, Removed;
    RemovedFlat(ed, k, ed');
  }

  lemma KillStops(ed: Ed, n: nat, kill: seq<Byte>)
    requires OkEd(ed) && OnLine(ed.text, Dot(ed)) && |kill| <= KILL_MAX && StopsAtOnce(ed, n, kill)
    ensures var d := Delete(ed, n, true, kill); !d.roomy && d.ed == ed
  {
  }

  /** A turn before the last newline that deletes something: `k` bytes of the line, or its newline,
      with which the kill may already run out of room. */
  lemma FirstTurn(ed: Ed, n: nat, kill: seq<Byte>) returns (k: nat, ed': Ed, kill': seq<Byte>)
    requires OkEd(ed) && OnLine(ed.text, Dot(ed)) && !AtLastNewline(ed) && n > 0
    requires |kill| <= KILL_MAX && !StopsAtOnce(ed, n, kill)
    ensures 0 < k <= n && k <= ToLast(ed) && Removed(ed, k, ed') && |kill'| == |kill| + k
    ensures if |kill| + k > KILL_MAX then !Delete(ed, n, true, kill).roomy && Delete(ed, n, true, kill).ed == ed'
      else OkEd(ed') && OnLine(ed'.text, Dot(ed')) && Delete(ed, n, true, kill) == Delete(ed', n - k, true, kill')
  {
    hide Flat, Removed, Delete, Apply;
    var p := Dot(ed);
    k := FirstChunk(ed, n);
    LineBytes(ed.text, p.line, p.off, |ed.text[p.line]| - p.off);
    if k == 0 {
      JoinRemoves(ed);
      JoinGoes(ed, n, kill);
      StillOnLine(ed, 1, Apply(ed, Join(p.line)));
      k, ed', kill' := 1, Apply(ed, Join(p.line)), kill + [NEWLINE];
    } else {
      CutRemoves(ed, k);
      CutUnfolds(ed, n, k, true, kill);
      StillOnLine(ed, k, Apply(ed, Cut(p.line, p.off, k)));
      ed', kill' := Apply(ed, Cut(p.line, p.off, k)), kill + ed.text[p.line][p.off..p.off + k];
    }
  }

  lemma StillOnLine(ed: Ed, k: nat, ed': Ed)
    requires OkEd(ed) && Removed(ed, k, ed') && OnLine(ed.text, Dot(ed)) && k <= ToLast(ed)
    ensures OkEd(ed') && OnLine(ed'.text, Dot(ed'))
  {
    hide Flat, Removed;
    RemovedFlat(ed, k, ed');
    NotAtEnd(ed'.text, Dot(ed'));
  }

  lemma JoinGoes(ed: Ed, n: nat, kill: seq<Byte>)
    requires OkEd(ed) && Dot(ed).line + 1 < |ed.text| && Dot(ed).off == |ed.text[Dot(ed).line]| && n > 0 && |kill| <= KILL_MAX
    ensures var ed' := Apply(ed, Join(Dot(ed).line));
      && OkEd(ed')
      && if |kill| == KILL_MAX then !Delete(ed, n, true, kill).roomy && Delete(ed, n, true, kill).ed == ed'
         else Delete(ed, n, true, kill) == Delete(ed', n - 1, true, kill + [NEWLINE])
  {
    hide Apply;
    ApplyKeepsOk(ed, Join(Dot(ed).line));
  }

  /** When text and log agree after an `ldelete`: the kill buffer has room and the bytes are all in the
      text -- past the last newline the record holds more than was deleted -- or it has none and
      nothing was deleted, for a kill that fails leaves no record. */
  predicate Agrees(ed: Ed, n: nat, kflag: bool, kill: seq<Byte>)
    requires OkEd(ed) && OnLine(ed.text, Dot(ed))
  {
    if kflag && !HasRoom(ed, n, kflag, kill) then NothingGoes(ed, n, kill) else n <= ToLast(ed)
  }

  /** Whether the kill buffer has room decides whether `ldelete` goes through to its record; if not, it
      leaves the text as it was exactly when nothing goes. */
  lemma KillExactly(ed: Ed, n: nat, kflag: bool, kill: seq<Byte>)
    requires OkEd(ed) && OnLine(ed.text, Dot(ed)) && |kill| <= KILL_MAX
    ensures var d := Delete(ed, n, kflag, kill);
      && (d.roomy <==> !kflag || HasRoom(ed, n, kflag, kill))
      && (!d.roomy ==> (d.ed.text == ed.text <==> NothingGoes(ed, n, kill)))
  {
    hide Flat, Delete, Removed;
    if kflag && !HasRoom(ed, n, kflag, kill) {
      var m := KillOverflows(ed, n, kill);
      RemovedFlat(ed, m, Delete(ed, n, true, kill).ed);
    } else {
      DeleteExactly(ed, n, kflag, kill);
    }
  }

  /** A kill that overflows over a line break: the first line goes, nothing is recorded. */
  lemma KillBreaksOff(x: seq<Byte>, y: seq<Byte>)
    requires x != [] && |x| + 1 <= KILL_MAX < |x| + 1 + |y|
    ensures OkEd(Top([x, y])) && Dot(Top([x, y])) == Pos(0, 0) && !Agrees(Top([x, y]), |x| + 1 + |y|, true, [])
    ensures var d := Delete(Top([x, y]), |x| + 1 + |y|, true, []); !Succeeded(d) && d.ed.text == [y]
  {
    hide OkEd, Delete, Agrees, Flat, Top;
    TopIs([x, y]);
    NoRoomForTwo(x, y);
    FirstLineGoes(x, y);
  }

  lemma NoRoomForTwo(x: seq<Byte>, y: seq<Byte>)
    requires x != [] && |x| + 1 <= KILL_MAX < |x| + 1 + |y|
    ensures OkEd(Top([x, y])) && OnLine([x, y], Pos(0, 0)) && !Agrees(Top([x, y]), |x| + 1 + |y|, true, [])
  {
    hide Flat;
    TwoLines(x, y);
  }

  lemma FirstLineGoes(x: seq<Byte>, y: seq<Byte>)
    requires x != [] && |x| + 1 <= KILL_MAX < |x| + 1 + |y|
    ensures OkEd(Top([x, y]))
    ensures var d := Delete(Top([x, y]), |x| + 1 + |y|, true, []); !Succeeded(d) && d.ed.text == [y]
  {
    hide Delete, OkEd, Top;
    var n, more: Lines := |x| + 1 + |y|, [x, y][1..];
    LineGoes([x, y], n);
    assert more == [y];
    NewlineGoes([], more, n - |x|, x);
    SecondLineStays(y, x + [NEWLINE]);
  }

  lemma SecondLineStays(y: seq<Byte>, kill: seq<Byte>)
    requires |kill| <= KILL_MAX < |kill| + |y|
    ensures OkEd(Top([y]))
    ensures var d := Delete(Top([y]), |y|, true, kill); !Succeeded(d) && d.ed.text == [y]
  {
    hide Delete;
    KillStops(Top([y]), |y|, kill);
  }

  lemma TopIs(t: Lines)
    ensures Top(t).text == t && Top(t).cur < |Top(t).views| && Dot(Top(t)) == Pos(0, 0)
  {
  }

  lemma TwoLines(x: seq<Byte>, y: seq<Byte>)
    ensures OkEd(Top([x, y])) && ToLast(Top([x, y])) == |x| + 1 + |y|
  {
    var none: Lines := [];
    assert [x, y][1..] == [y] && [y][1..] == none;
    assert Flat([y]) == y + [NEWLINE] + Flat(none);
    assert Flat([x, y]) == x + [NEWLINE] + Flat([y]);
    assert [x, y][..0] == none;
  }

  function Top(t: Lines): Ed {
    Ed(t, [View(0, Pos(0, 0), None)], 0)
  }

  lemma LineGoes(t: Lines, n: nat)
    requires t != [] && t[0] != [] && |t[0]| <= n && |t[0]| <= KILL_MAX
    ensures OkEd(Top(t)) && OkEd(Top([[]] + t[1..]))
    ensures Delete(Top(t), n, true, []) == Delete(Top([[]] + t[1..]), n - |t[0]|, true, t[0])
  {
    var e := Cut(0, 0, |t[0]|);
    ApplyKeepsOk(Top(t), e);
    assert t[0][..0] + t[0][|t[0]|..] == [];
    assert Apply(Top(t), e).text == [[]] + t[1..];
    assert Apply(Top(t), e).views == Top(t).views;
    assert [] + t[0][0..|t[0]|] == t[0];
  }

  lemma NewlineGoes(w: seq<Byte>, u: Lines, n: nat, kill: seq<Byte>)
    requires w == [] && u != [] && n > 0 && |kill| < KILL_MAX
    ensures OkEd(Top([w] + u)) && OkEd(Top(u))
    ensures Delete(Top([w] + u), n, true, kill) == Delete(Top(u), n - 1, true, kill + [NEWLINE])
  {
    ApplyKeepsOk(Top([w] + u), Join(0));
    assert w + u[0] == u[0];
    assert Apply(Top([w] + u), Join(0)).text == u;
    assert Apply(Top([w] + u), Join(0)).views == Top(u).views;
  }
}
