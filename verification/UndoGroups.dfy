/** What an explicit undo group takes with it: `undo_group_begin` and `undo_group_end`. */
module UndoGroups {
  import opened Bytes
  import opened Text
  import opened UndoLog
  import opened UndoHistory

  /** The current group number is not that of the operation before: nothing is done, or that operation
      has a lower number, or undo stops at it anyway. */
  predicate NumberIsFresh(h: History)
    requires h.done <= |h.ops|
  {
    h.done == 0 || h.ops[h.done - 1].group < h.group || Stays(h.ops[h.done - 1].change)
  }

  predicate NoneStays(cmds: seq<Command>)
    requires AllEdits(cmds)
  {
    forall i :: 0 <= i < |cmds| ==> !Stays(cmds[i].change)
  }

  /** A history to which the edits `cmds` were added under the current group number. */
  predicate AddedTo(h: History, cmds: seq<Command>, h': History)
    requires h.done <= |h.ops| && AllEdits(cmds)
  {
    && h'.group == h.group && h'.done == h.done + |cmds| <= |h'.ops| && h'.ops[..h.done] == h.ops[..h.done]
    && forall k :: h.done <= k < h'.done ==> h'.ops[k].group == h.group && h'.ops[k].change == cmds[k - h.done].change
  }

  lemma ForcedRecord(h: History, c: Change, time: int)
    requires h.done <= |h.ops| <= h.cap <= MAX_CAPACITY && h.forced
    ensures Record(h, c, time).forced
    ensures !Stuck(Record(h, c, time)) ==> AddedTo(h, [Command.Edit(c, time)], Record(h, c, time))
  {
    hide Joins;
  }

  lemma AddedChain(h: History, cmds: seq<Command>, m: History, h': History)
    requires cmds != [] && AllEdits(cmds) && h.done <= |h.ops| && m.done <= |m.ops|
    requires AddedTo(h, [cmds[0]], m) && AddedTo(m, cmds[1..], h')
    ensures AddedTo(h, cmds, h')
  {
    assert h'.ops[..h.done] == h'.ops[..m.done][..h.done] == m.ops[..m.done][..h.done] == m.ops[..h.done];
    assert h'.ops[h.done] == h'.ops[..m.done][h.done] == m.ops[..m.done][h.done] == m.ops[h.done];
  }

  /** Edits made while a group is open get its number. */
  lemma {:induction false} ForcedEdits(s: Session, cmds: seq<Command>)
    requires HistoryOk(s.history) && Runs(s, cmds) && AllEdits(cmds) && s.history.forced
    ensures !Stuck(After(s, cmds).history) ==> !Stuck(s.history) && AddedTo(s.history, cmds, After(s, cmds).history)
    decreases |cmds|
  {
    if cmds != [] {
      hide Do, FitsText, Record, Numbered, TakeBackTo, MakeAgain, AddedTo;
      ForcedRecord(s.history, cmds[0].change, cmds[0].time);
      if Stuck(s.history) {
        RecordStuckStays(s.history, cmds[0].change, cmds[0].time);
      }
      assert cmds[..1] == [cmds[0]];
      ForcedEdits(Step(s, cmds[0]), cmds[1..]);
      if !Stuck(After(s, cmds).history) {
        AddedChain(s.history, cmds, Step(s, cmds[0]).history, After(s, cmds).history);
      }
    }
  }

  lemma RecordStuckStays(h: History, c: Change, time: int)
    requires h.done <= |h.ops| <= h.cap <= MAX_CAPACITY && Stuck(h)
    ensures Stuck(Record(h, c, time))
  {
  }

  /** An explicit group is undone by itself iff its number is fresh and none of its edits was made on
      the header line: opening a group takes no new number. */
  lemma ExplicitGroup(s: Session, cmds: seq<Command>)
    requires HistoryOk(s.history) && AllEdits(cmds) && cmds != []
    requires HistoryOk(Step(s, GroupBegin).history) && Runs(Step(s, GroupBegin), cmds)
    requires HistoryOk(After(Step(s, GroupBegin), cmds).history)
    ensures var h := Step(After(Step(s, GroupBegin), cmds), GroupStop).history;
      && h.done <= |h.ops|
      && (TriesUndo(h) ==> (UndoStep(h).done == s.history.done <==> NumberIsFresh(s.history) && NoneStays(cmds)))
  {
    hide Runs, After, Numbered;
    var r := After(Step(s, GroupBegin), cmds);
    ForcedEdits(Step(s, GroupBegin), cmds);
    if TriesUndo(r.history) {
      GroupAlone(s.history, cmds, r.history);
    }
  }

  lemma GroupAlone(h: History, cmds: seq<Command>, h': History)
    requires HistoryOk(h) && AllEdits(cmds) && cmds != [] && AddedTo(h, cmds, h')
    ensures UndoStart(h'.ops, h'.done) == h.done <==> NumberIsFresh(h) && NoneStays(cmds)
  {
    var u, n := UndoStart(h'.ops, h'.done), h.done;
    assert n > 0 ==> h'.ops[n - 1] == h'.ops[..n][n - 1] == h.ops[n - 1];
    assert h'.ops[h'.done - 1].group == h.group;
    if u > n {
      assert h'.ops[u - 1].change == cmds[u - 1 - n].change;
      assert Stays(cmds[u - 1 - n].change);
    } else if u < n {
      assert h'.ops[n - 1].group == h.group && !Stays(h'.ops[n - 1].change);
    } else {
      forall i | 0 <= i < |cmds| ensures !Stays(cmds[i].change) {
        assert h'.ops[n + i].change == cmds[i].change;
      }
    }
  }

  /** With no group open an edit is undone together with the operation before it, the last one of an
      explicit group included, iff it joins it: closing a group keeps nothing out of it. */
  lemma NextEditJoins(h: History, c: Change, time: int)
    requires HistoryOk(h) && !h.forced && h.done > 0 && !Stuck(h)
    ensures var h' := Record(h, c, time);
      && h'.done == h.done + 1 == |h'.ops|
      && (h'.ops[h.done].group == h.ops[h.done - 1].group <==> Joins(h.ops[h.done - 1], c, time))
  {
    hide Joins;
    assert h.ops[..h.done][h.done - 1] == h.ops[h.done - 1];
  }

  /** A group closed behind an insertion at (1, 0): what is typed on right behind it within 400 ms
      still gets its number. */
  lemma ClosedGroupGrows(a: Byte, b: Byte)
    requires IsWordByte(a) && IsWordByte(b)
    ensures var h := History([Op(Change(Insertion, 1, 0, [a]), 1, 0, 1)], 1, INITIAL_CAPACITY, 2, 2, false);
      HistoryOk(h) && Record(h, Change(Insertion, 1, 1, [b]), 0).ops[1].group == 1
  {
  }
}
