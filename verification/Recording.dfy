/** Edits as they run: line.c changes the lines and hands undo.c what it changed. */
module Recording {
  import opened Bytes
  import opened Text
  import opened TextEdits
  import opened TextEnd
  import opened LineMemory
  import opened LineSurgery
  import opened LineEditor
  import opened UndoLog
  import opened UndoHistory
  import opened UndoStack
  import opened Region
  import opened KillLimit

  /** The byte at a place in a line of text, and the place behind it. */
  lemma NextByte(t: Lines, l: nat, o: nat)
    requires l < |t| && o <= |t[l]|
    ensures Linear(t, Pos(l, o)) < |Flat(t)|
    ensures Flat(t)[Linear(t, Pos(l, o))] == if o == |t[l]| then NEWLINE else t[l][o]
    ensures if o == |t[l]| then Linear(t, Pos(l + 1, 0)) == Linear(t, Pos(l, o)) + 1
      else Linear(t, Pos(l, o + 1)) == Linear(t, Pos(l, o)) + 1
  {
    hide Flat;
    NextLine(t, l);
    SameLineSizes(t, l, o);
    if o == |t[l]| {
      LineBytes(t, l, o, 0);
    } else {
      SameLineSizes(t, l, o + 1);
      LineBytes(t, l, o, 1);
      var at := Linear(t, Pos(l, o));
      assert Flat(t)[at..at + 1][0] == t[l][o..o + 1][0];
    }
  }

  /** Text put in by `linsert` and the same text typed are the same. */
  lemma InsertIsTypeOnLine(ed: Ed, s: seq<Byte>, grew: bool)
    requires OkEd(ed) && NewlineFree(ed.text) && NEWLINE !in s && OnLine(ed.text, Dot(ed))
    ensures Insert(ed, s, grew).text == TypeText(ed.text, Dot(ed), s).0
  {
    InsertSplices(ed, s, grew);
    TypeTextFlat(ed.text, Dot(ed), s);
    EditNewlineFree(ed.text, Put(Dot(ed).line, Dot(ed).off, s, grew));
    FlatInjective(Insert(ed, s, grew).text, TypeText(ed.text, Dot(ed), s).0);
  }

  lemma InsertLeavesHeader(ed: Ed, s: seq<Byte>, grew: bool)
    requires OkEd(ed) && NewlineFree(ed.text)
    ensures OkPos(ed.text, Dot(ed)) && NewlineFree(OffHeader(ed).text)
    ensures Insert(ed, s, grew) == Insert(OffHeader(ed), s, grew)
    ensures (OffHeader(ed).text, Dot(OffHeader(ed))) == TypePlace(ed.text, Dot(ed))
  {
    DotIsOk(ed);
  }

  /** So they are on the header line. */
  lemma InsertIsTypeText(ed: Ed, s: seq<Byte>, grew: bool)
    requires OkEd(ed) && NewlineFree(ed.text) && NEWLINE !in s && (s != [] || OnLine(ed.text, Dot(ed)))
    ensures OkPos(ed.text, Dot(ed)) && Insert(ed, s, grew).text == TypeText(ed.text, Dot(ed), s).0
  {
    hide Insert, TypeText, NewlineFree, OffHeader;
    DotIsOk(ed);
    InsertLeavesHeader(ed, s, grew);
    InsertIsTypeOnLine(OffHeader(ed), s, grew);
    if Dot(ed).line == |ed.text| {
      TypedOnHeader(ed.text, s);
    }
  }

  /** What `lnewline` makes of a buffer: the line broken at dot. */
  function BrokenAtDot(ed: Ed): Ed
    requires OkEd(ed)
  {
    DotIsOk(ed);
    Apply(ed, Split(Dot(ed).line, Dot(ed).off))
  }

  /** A newline put in by `lnewline` is a newline typed. */
  lemma SplitIsTypeText(ed: Ed)
    requires OkEd(ed)
    ensures OkPos(ed.text, Dot(ed))
    ensures Apply(ed, Split(Dot(ed).line, Dot(ed).off)).text == TypeText(ed.text, Dot(ed), [NEWLINE]).0
  {
    SplitIsType(ed);
    assert TypeText(ed.text, Dot(ed), [NEWLINE]) == TypeByte(ed.text, Dot(ed), NEWLINE) by {
      assert [NEWLINE][1..] == [];
    }
  }

  /** The change that `linsert` or `lnewline` logs when it inserts `s` at `p`. */
  function LoggedInsertion(t: Lines, p: Pos, s: seq<Byte>): Change
    requires OkPos(t, p) && (s != [] || OnLine(t, p))
  {
    if p.line < |t| then Change(Insertion, p.line + 1, p.off, s) else Change(Insertion, 0, HeaderOffset(t, s), s)
  }

  /** It fits, and making it is typing `s` there; it stays when it was made on the header line. */
  lemma InsertionFits(t: Lines, p: Pos, s: seq<Byte>)
    requires OkPos(t, p) && (s != [] || OnLine(t, p)) && 0 !in s
    ensures var c := LoggedInsertion(t, p, s);
      FitsText(t, c) && Do(t, c) == TypeText(t, p, s).0 && (Stays(c) <==> p.line == |t|)
  {
  }

  /** The change that `ldelete` logs with dot at `p`: the bytes the scan ahead finds. On the header line
      it finds none, and the offset is whatever dot has there. */
  function LoggedDeletion(t: Lines, p: Pos, n: nat): Change
    requires OnLine(t, p) || p.line == |t|
  {
    if p.line == |t| then Change(Deletion_, 0, p.off, [])
    else
      LinearBound(t, p);
      var at := Linear(t, p);
      Change(Deletion_, p.line + 1, p.off, Flat(t)[at..at + Min(n, |Flat(t)| - at)])
  }

  lemma DeletionFits(t: Lines, p: Pos, n: nat)
    requires OnLine(t, p) && n > 0 && 0 !in LoggedDeletion(t, p, n).text
    ensures var c := LoggedDeletion(t, p, n);
      FitsText(t, c) <==> Linear(t, p) + n < |Flat(t)|
    ensures Linear(t, p) + n < |Flat(t)| ==> Do(t, LoggedDeletion(t, p, n)) == DeleteText(t, p, n)
  {
    hide Flat, DeleteText;
    LinearBound(t, p);
  }

  /** Dot as it is, `p`, and as the abstract buffer has it: different on the header line alone. */
  predicate DotIsAt(ed: Ed, p: Pos) {
    OkEd(ed) && Dot(ed).line == p.line && (Dot(ed).line < |ed.text| ==> Dot(ed) == p)
  }

  lemma DotLine(ed: Ed, p: Pos)
    requires DotIsAt(ed, p)
    ensures p.line == |ed.text| || (OnLine(ed.text, p) && p == Dot(ed))
  {
    DotIsOk(ed);
  }

  /** The session an `ldelete` leaves: what it recorded, unless the kill buffer ran out of room. */
  function AfterDeletion(s: Session, ed: Ed, p: Pos, n: nat, kflag: bool, kill: seq<Byte>, time: int): Session
    requires DotIsAt(ed, p) && |kill| <= KILL_MAX && s.history.done <= |s.history.ops|
  {
    DotLine(ed, p);
    var d := Delete(ed, n, kflag, kill);
    Session(d.ed.text, if d.roomy then Record(s.history, LoggedDeletion(ed.text, p, n), time) else s.history)
  }

  /** On the header line nothing is deleted and nothing said to be. */
  predicate AgreesAt(ed: Ed, p: Pos, n: nat, kflag: bool, kill: seq<Byte>)
    requires DotIsAt(ed, p)
  {
    DotLine(ed, p);
    p.line == |ed.text| || Agrees(ed, n, kflag, kill)
  }

  /** When it is faithful, and what step it then is. */
  lemma DeletionOutcome(base: Lines, s: Session, ed: Ed, p: Pos, n: nat, kflag: bool, kill: seq<Byte>, time: int)
    requires NewlineFree(base) && Faithful(base, s) && DotIsAt(ed, p) && s.text == ed.text && n > 0 && |kill| <= KILL_MAX
    requires p.line == |ed.text| || (OnLine(ed.text, p) && 0 !in LoggedDeletion(ed.text, p, n).text)
    ensures var s' := AfterDeletion(s, ed, p, n, kflag, kill, time);
      && (Faithful(base, s') <==> AgreesAt(ed, p, n, kflag, kill) || Stuck(s'.history))
      && (AgreesAt(ed, p, n, kflag, kill) && Delete(ed, n, kflag, kill).roomy ==>
            var c := LoggedDeletion(ed.text, p, n); FitsText(s.text, c) && s' == Step(s, Edit(c, time)))
  {
    hide Flat, Linear, Delete, DeleteText, FitsText, Do, NewlineFree, TextAfter, LogFits, Numbered, Record, Agrees, HasRoom, NothingGoes;
    var c := LoggedDeletion(ed.text, p, n);
    DotLine(ed, p);
    DeleteKeepsLines(ed, n, kflag, kill);
    RecordKeepsOk(s.history, c, time);
    if p.line == |ed.text| {
      IdleFits(ed.text, c);
      DeleteStops(ed, n, kflag, kill);
      StepKeepsFaithful(base, s, Edit(c, time));
    } else {
      DeletionFits(ed.text, p, n);
      KillExactly(ed, n, kflag, kill);
      AgreesUnfolds(ed, n, kflag, kill);
      if Delete(ed, n, kflag, kill).roomy {
        if n <= ToLast(ed) {
          RoomyDelete(ed, n, kflag, kill);
          StepKeepsFaithful(base, s, Edit(c, time));
        } else {
          RecordUnfit(base, s, c, time);
        }
      }
    }
  }

  lemma IdleFits(t: Lines, c: Change)
    requires Idle(c)
    ensures FitsText(t, c) && Do(t, c) == t
  {
    assert OkEd(Single(t, Pos(|t|, 0)));
  }

  lemma AgreesUnfolds(ed: Ed, n: nat, kflag: bool, kill: seq<Byte>)
    requires OkEd(ed) && OnLine(ed.text, Dot(ed))
    ensures Agrees(ed, n, kflag, kill) <==> if kflag && !HasRoom(ed, n, kflag, kill) then NothingGoes(ed, n, kill) else n <= ToLast(ed)
  {
  }

  lemma RoomyDelete(ed: Ed, n: nat, kflag: bool, kill: seq<Byte>)
    requires OkEd(ed) && OnLine(ed.text, Dot(ed)) && NewlineFree(ed.text) && n <= ToLast(ed) && |kill| <= KILL_MAX
    requires kflag ==> HasRoom(ed, n, kflag, kill)
    ensures Delete(ed, n, kflag, kill).ed.text == DeleteText(ed.text, Dot(ed), n)
  {
    hide Flat, Delete, DeleteText;
    DeleteIsDeleteText(ed, n, kflag, kill);
  }

  /** A change that does not fit, once logged, is not what was made of the text. */
  lemma RecordUnfit(base: Lines, s: Session, c: Change, time: int)
    requires Faithful(base, s) && !FitsText(s.text, c)
    ensures var h' := Record(s.history, c, time); !Stuck(h') ==> !LogFits(base, h'.ops, |h'.ops|)
  {
    hide Joins, Numbered, FitsText, NewlineFree, Do;
    var h, h' := s.history, Record(s.history, c, time);
    if !Stuck(h) {
      assert h'.ops[..h.done] == h.ops[..h.done];
      LogPrefix(base, h.ops, h'.ops, h.done);
    }
  }

  /** A buffer's lines and windows together with its undo stack; `base` is the text it had when the
      stack was made. */
  class UndoableBuffer {
    const ed: Editor
    const stack: Stack
    ghost const base: Lines

    /** A buffer that is being edited gets its undo stack. */
    constructor (ed: Editor)
      requires ed.Valid() && !ed.view && NewlineFree(ed.Abs().text)
      ensures Valid() && this.ed == ed && base == ed.Abs().text && fresh(stack) && fresh(stack.operations)
    {
      this.ed := ed;
      base := ed.Abs().text;
      stack := new Stack();
      new;
      assert Now() == Session(base, EmptyHistory);
    }

    ghost predicate Sane()
      reads this, ed, stack, stack.operations
    {
      ed.Held() && stack.Valid() && !ed.view
    }

    ghost function Now(): Session
      requires Sane()
      reads this, ed, stack, stack.operations
    {
      Session(ed.Text(), stack.Hist())
    }

    /** The text is what the not-undone part of the log makes of `base`. */
    ghost predicate Valid()
      reads this, ed, stack, stack.operations
    {
      Sane() && NewlineFree(base) && Faithful(base, Now())
    }

    /** Dot as it is. */
    ghost function RawDot(): (p: Pos)
      requires ed.Held()
      reads ed
      ensures DotIsAt(ed.Seen(), p) && ed.Seen().text == ed.Text()
      ensures p.line == |ed.Text()| <==> ed.wins[ed.cur].dot.p == ed.linep
      ensures ed.Valid() ==> p == Dot(ed.Abs()) && ed.Seen() == ed.Abs()
    {
      SeenDot(ed);
      HeldIsValid(ed);
      if ed.wins[ed.cur].dot.p == ed.linep then Pos(|ed.Text()|, ed.wins[ed.cur].dot.off) else Dot(ed.Seen())
    }

    /** The line number and offset that `linsert` logs for dot, or `lnewline` if `breaks`, or `ldelete`
        on a line. */
    method InsertPlace(breaks: bool) returns (l: nat, o: nat)
      requires ed.Held() && (breaks ==> ed.Valid())
      ensures OkPos(ed.Text(), Dot(ed.Seen()))
      ensures forall s :: s != [] && (s[0] == NEWLINE <==> breaks) ==>
        var c := LoggedInsertion(ed.Text(), Dot(ed.Seen()), s); l == c.l && o == c.o
      ensures OnLine(ed.Text(), Dot(ed.Seen())) ==> l == Dot(ed.Seen()).line + 1 && o == Dot(ed.Seen()).off
    {
      hide Editor.Valid, Editor.Held, Editor.Abs, Editor.Text, Sound, AbsOf;
      DotIsOk(ed.Seen());
      SeenDot(ed);
      HeldIsValid(ed);
      l := ed.GetLineNum(ed.wins[ed.cur].dot.p);
      o := ed.wins[ed.cur].dot.off;
      if ed.wins[ed.cur].dot.p == ed.linep && !breaks {
        LastLine(ed);
        var last := ed.mem[ed.linep].bp;
        o := if last == ed.linep then 0 else |ed.mem[last].text|;
      }
    }

    /** `linsert`, with the record it makes. From the header line it goes on whatever the offset of dot. */
    method InsertBytes(n: nat, c: Byte, time: int) returns (ok: bool)
      requires Valid() && c != 0 && c != NEWLINE && (n > 0 || OnLine(ed.Text(), Dot(ed.Seen())))
      modifies ed, stack, stack.operations
      ensures ok && Valid() && ed.Valid() && (stack.operations == old(stack.operations) || fresh(stack.operations))
      ensures OkPos(old(Now()).text, Dot(old(ed.Seen())))
      ensures var change := LoggedInsertion(old(Now()).text, Dot(old(ed.Seen())), Copies(n, c));
        FitsText(old(Now()).text, change) && Now() == Step(old(Now()), Edit(change, time))
      ensures ed.Abs() == Insert(old(ed.Seen()), Copies(n, c), old(ed.WillGrow(n))) && ed.kill == old(ed.kill)
    {
      hide Editor.Valid, Editor.Held, Editor.Abs, Editor.Text, Stack.Valid, Stack.Hist, HistoryOk, Insert, TypeText, LogFits, TextAfter, NewlineFree, FitsText, Do;
      ghost var s, before := Now(), ed.Seen();
      DotIsOk(before);
      ghost var change := LoggedInsertion(before.text, Dot(before), Copies(n, c));
      NoNewline(n, c);
      InsertIsTypeText(before, Copies(n, c), ed.WillGrow(n));
      InsertionFits(before.text, Dot(before), Copies(n, c));
      StepKeepsFaithful(base, s, Edit(change, time));
      var l, o := InsertPlace(false);
      ok := ed.LInsert(n, c);
      HeldIsValid(ed);
      stack.RecordInsert(l, o, Copies(n, c), time);
    }

    /** `lnewline`, which logs before it breaks the line. */
    method InsertNewline(time: int) returns (ok: bool)
      requires Valid() && ed.Valid()
      modifies ed, stack, stack.operations
      ensures ok && Valid() && ed.Valid() && (stack.operations == old(stack.operations) || fresh(stack.operations))
      ensures OkPos(old(ed.Abs()).text, Dot(old(ed.Abs())))
      ensures var change := LoggedInsertion(old(ed.Abs()).text, Dot(old(ed.Abs())), [NEWLINE]);
        FitsText(old(Now()).text, change) && Now() == Step(old(Now()), Edit(change, time))
      ensures ed.Abs() == BrokenAtDot(old(ed.Abs())) && ed.kill == old(ed.kill)
    {
      hide Editor.Valid, Editor.Held, Editor.Abs, Editor.Text, Stack.Valid, Stack.Hist, HistoryOk, Apply, TypeText, LogFits, TextAfter, NewlineFree, FitsText, Do;
      HeldIsValid(ed);
      DotIsOk(ed.Abs());
      ghost var s, before := Now(), ed.Abs();
      ghost var change := LoggedInsertion(before.text, Dot(before), [NEWLINE]);
      SplitIsTypeText(before);
      InsertionFits(before.text, Dot(before), [NEWLINE]);
      StepKeepsFaithful(base, s, Edit(change, time));
      var l, o := InsertPlace(true);
      stack.RecordInsert(l, o, [NEWLINE], time);
      ok := ed.LNewline();
      HeldIsValid(ed);
    }

    /** The scan of `ldelete` for the text about to be deleted. */
    method CollectText(n: nat) returns (s: seq<Byte>)
      requires ed.Held()
      ensures RawDot().line == |ed.Text()| || OnLine(ed.Text(), RawDot())
      ensures s == LoggedDeletion(ed.Text(), RawDot(), n).text
    {
      hide Flat, Linear, Editor.Valid, Editor.Held, Editor.Abs, Editor.Text, Sound, AbsOf;
      DotLine(ed.Seen(), RawDot());
      if ed.wins[ed.cur].dot.p == ed.linep {
        return [];
      }
      HeldIsValid(ed);
      s := CollectFrom(n);
    }

    method CollectFrom(n: nat) returns (s: seq<Byte>)
      requires ed.Valid() && OnLine(ed.Abs().text, Dot(ed.Abs()))
      ensures s == LoggedDeletion(ed.Abs().text, Dot(ed.Abs()), n).text
    {
      hide Flat, Linear, Editor.Valid, Editor.Abs, Sound, AbsOf;
      DotAndMark(ed);
      ghost var t, k := ed.Abs().text, IndexOf(ed.order, ed.wins[ed.cur].dot.p);
      ghost var at := Linear(t, Dot(ed.Abs()));
      var scanP, scanO := ed.wins[ed.cur].dot.p, ed.wins[ed.cur].dot.off;
      LineAt(ed, k);
      LinearBound(t, Dot(ed.Abs()));
      s := [];
      while |s| < n
        invariant |s| <= n && 0 <= k < |t| + 1 && 0 <= scanO && |t| + 1 == |ed.order| && scanP == ed.order[k] && OkPos(t, Pos(k, scanO))
        invariant at + |s| <= |Flat(t)| && Linear(t, Pos(k, scanO)) == at + |s| && s == Flat(t)[at..at + |s|]
        decreases n - |s|
      {
        LineAt(ed, k);
        LinearBound(t, Pos(k, scanO));
        if scanP == ed.linep {
          HeaderIsEnd(t, Pos(k, scanO));
          break;
        }
        NextByte(t, k, scanO);
        assert Flat(t)[at..at + |s|] + [Flat(t)[at + |s|]] == Flat(t)[at..at + |s| + 1];
        LineIs(ed, k);
        if scanO == |ed.mem[scanP].text| {
          s := s + [NEWLINE];
          scanP := ed.mem[scanP].fp;
          scanO, k := 0, k + 1;
        } else {
          s := s + [ed.mem[scanP].text[scanO]];
          scanO := scanO + 1;
        }
      }
    }

    /** `ldelete`, with the record it makes, wherever dot is. Text and log go on agreeing iff `AgreesAt`
        -- or nothing is logged any more. */
    method DeleteBytes(n: nat, kflag: bool, time: int) returns (ok: bool)
      requires Valid() && n > 0
      requires RawDot().line == |ed.Text()| || (OnLine(ed.Text(), RawDot()) && 0 !in LoggedDeletion(ed.Text(), RawDot(), n).text)
      modifies ed, stack, stack.operations
      ensures Sane() && (ed.Valid() <==> old(ed.Valid())) && (stack.operations == old(stack.operations) || fresh(stack.operations))
      ensures ok == Succeeded(Delete(old(ed.Seen()), n, kflag, old(ed.kill)))
      ensures Now() == AfterDeletion(old(Now()), old(ed.Seen()), old(RawDot()), n, kflag, old(ed.kill), time)
      ensures old(ed.Valid()) ==>
        var d := Delete(old(ed.Abs()), n, kflag, old(ed.kill)); ed.Abs() == d.ed && ed.kill == d.kill
      ensures !old(ed.Valid()) ==> unchanged(ed)
      ensures Valid() <==> AgreesAt(old(ed.Seen()), old(RawDot()), n, kflag, old(ed.kill)) || Stuck(stack.Hist())
    {
      hide Editor.Valid, Editor.Held, Editor.Abs, Editor.Text, Stack.Valid, Stack.Hist, HistoryOk, Delete, LogFits, TextAfter, NewlineFree, Flat, Linear, AgreesAt;
      HeldIsValid(ed);
      var text := CollectText(n);
      ghost var s, before, p, kill := Now(), ed.Seen(), RawDot(), ed.kill;
      DeletionOutcome(base, s, before, p, n, kflag, kill, time);
      if ed.wins[ed.cur].dot.p == ed.linep {
        DeleteStops(before, n, kflag, kill);
        var o := ed.wins[ed.cur].dot.off;
        var logs;
        ok, logs := ed.LDelete(n, kflag);
        stack.RecordDelete(0, o, text, time);
      } else {
        var l, o := InsertPlace(false);
        var logs;
        ok, logs := ed.LDelete(n, kflag);
        HeldIsValid(ed);
        if logs {
          stack.RecordDelete(l, o, text, time);
        }
      }
    }

    /** `undo_operation` and `redo_operation` on the buffer. */
    method Undo() returns (ok: bool)
      requires Valid()
      modifies stack`undoPtr, ed
      ensures Valid() && ok == CanUndo(old(Now()).history) && Now() == Step(old(Now()), Command.Undo)
      ensures TriesUndo(old(Now()).history) ==> UndoneTo(ed, LastUndone(old(Now()).history))
      ensures ed.kill == old(ed.kill) && ed.cur == old(ed.cur)
      ensures !TriesUndo(old(Now()).history) ==> unchanged(ed)
    {
      hide UndoneTo, Editor.Valid, Editor.Held, Editor.Text, Stack.Valid, Stack.Hist, Faithful, Step, NewlineFree;
      ok := stack.UndoOperation(ed, base);
    }

    method Redo() returns (ok: bool)
      requires Valid()
      modifies stack`undoPtr, ed
      ensures Valid() && ok == CanRedo(old(Now()).history) && Now() == Step(old(Now()), Command.Redo)
      ensures CanRedo(old(Now()).history) ==> RedoneTo(ed, LastRedone(old(Now()).history))
      ensures ed.kill == old(ed.kill) && ed.cur == old(ed.cur)
      ensures !CanRedo(old(Now()).history) ==> unchanged(ed)
    {
      hide RedoneTo, Editor.Valid, Editor.Held, Editor.Text, Stack.Valid, Stack.Hist, Faithful, Step, NewlineFree;
      ok := stack.RedoOperation(ed, base);
    }
  }

  /** The line before the header is the last one. */
  lemma LastLine(e: Editor)
    requires e.Held()
    ensures e.linep in e.mem && var last := e.mem[e.linep].bp;
      && last in e.mem && (last == e.linep <==> e.Text() == [])
      && (e.Text() != [] ==> |e.mem[last].text| == |e.Text()[|e.Text()| - 1]|)
  {
    RightedReady(e);
    NeighboursIn(e.mem, e.order, |e.order| - 1);
    HeaderReady(e.mem, e.order, e.Righted(), e.cur);
  }

  /** Dot of a held editor, in memory and in the text. */
  lemma SeenDot(e: Editor)
    requires e.Held()
    ensures OkEd(e.Seen()) && e.Seen().text == e.Text() && e.wins[e.cur].dot.p in e.order
    ensures e.wins[e.cur].dot.p == e.linep <==> Dot(e.Seen()).line == |e.Text()|
    ensures e.wins[e.cur].dot.p != e.linep ==>
      Dot(e.Seen()) == Pos(IndexOf(e.order, e.wins[e.cur].dot.p), e.wins[e.cur].dot.off) && OnLine(e.Text(), Dot(e.Seen()))
  {
    RightedReady(e);
    DotIsOk(e.Seen());
    DotIs(e.mem, e.order, e.Righted(), e.cur);
    if e.wins[e.cur].dot.p == e.linep {
      SeenOnHeader(e);
    }
  }

  lemma NoNewline(n: nat, c: Byte)
    requires c != NEWLINE && c != 0
    ensures NEWLINE !in Copies(n, c) && 0 !in Copies(n, c)
  {
  }

  lemma HeaderIsEnd(t: Lines, p: Pos)
    requires OkPos(t, p) && p.line == |t|
    ensures Linear(t, p) == |Flat(t)|
  {
    assert t[..|t|] == t;
  }

  lemma LineIs(e: Editor, i: nat)
    requires e.Valid() && i < |e.order| - 1
    ensures |e.Abs().text| == |e.order| - 1 && e.order[i] in e.mem && e.Abs().text[i] == e.mem[e.order[i]].text
  {
  }
}
