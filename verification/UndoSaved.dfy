/** The saved version of a buffer and its changed flag (BFCHG) across edits, undo and redo. */
module UndoSaved {
  import opened Bytes
  import opened Text
  import opened TextEdits
  import opened UndoLog
  import opened UndoHistory
  import opened UndoStack

  /** The version at the undo position: that of the last operation not undone; before the first one
      was ever recorded 1; and after all were undone that of the ring's last slot, which is 0. */
  function CurrentVersion(h: History): nat
    requires h.done <= |h.ops|
  {
    if h.done > 0 then h.ops[h.done - 1].version else if h.ops == [] then 1 else 0
  }

  /** A session with `b_saved_version_id`, BFCHG, and what they are about: the text last saved, and
      whether it was saved before anything was recorded. */
  datatype Tracked = Tracked(s: Session, saved: nat, changed: bool, savedText: Lines, atStart: bool)

  datatype Act = Act(command: Command) | Save

  /** An edit fits the text it is made to. */
  predicate ActFits(t: Tracked, act: Act) {
    act.Act? && act.command.Edit? ==> FitsText(t.s.text, act.command.change)
  }

  /** Undo tries to take back an insertion on the header line, in vain. */
  predicate UndoFails(h: History)
    requires h.done <= |h.ops|
  {
    TriesUndo(h) && !CanUndo(h)
  }

  function TrackedStep(t: Tracked, act: Act): Tracked
    requires HistoryOk(t.s.history)
    requires ActFits(t, act)
  {
    var h := t.s.history;
    match act
    case Save => t.(saved := CurrentVersion(h), changed := false, savedText := t.s.text, atStart := h.ops == [])
    case Act(c) =>
      var s' := Step(t.s, c);
      var moves := (c == Undo && CanUndo(h)) || (c == Redo && CanRedo(h));
      // an undo that fails at an insertion on the header line has called `lchange` already
      if c.Edit? || (c == Undo && UndoFails(h)) then t.(s := s', changed := true)
      else if moves && s'.history.done <= |s'.history.ops| then t.(s := s', changed := CurrentVersion(s'.history) != t.saved)
      else t.(s := s')
  }

  /** The first operation got version 1, the version an untouched buffer counts as saved with. */
  predicate Collides(t: Tracked)
    requires t.s.history.done <= |t.s.history.ops|
  {
    t.atStart && t.s.history.done > 0 && t.s.history.ops[t.s.history.done - 1].version == 1
  }

  /** What the saved version stands for: a place in the log, if it is still there, with the text
      there; or the text before the log. */
  predicate SavedIsKnown(base: Lines, t: Tracked)
    requires Faithful(base, t.s)
  {
    var h := t.s.history;
    && t.saved < h.version + (if t.atStart then 1 else 0)
    && (t.atStart ==> t.saved == 1)
    && (t.saved == 0 || t.atStart ==> t.savedText == base)
    && (h.version == 1 ==> h.ops == [] && t.atStart)
    && (h.ops == [] ==> h.version == 1)
    && (!t.atStart ==> forall i :: 0 <= i < |h.ops| && h.ops[i].version == t.saved ==>
          LogFits(base, h.ops, i + 1) && t.savedText == TextAfter(base, h.ops, i + 1))
  }

  /** A buffer that is not marked changed is as it was saved, unless the versions collide. */
  predicate Honest(base: Lines, t: Tracked) {
    && Faithful(base, t.s)
    && (!Stuck(t.s.history) ==> SavedIsKnown(base, t))
    && (!t.changed ==> t.s.text == t.savedText || Collides(t))
  }

  /** A buffer just read in. */
  function Fresh(base: Lines): Tracked {
    Tracked(Session(base, EmptyHistory), 1, false, base, true)
  }

  lemma FreshIsHonest(base: Lines)
    requires NewlineFree(base)
    ensures Honest(base, Fresh(base))
  {
  }

  /** Where the log still has the saved version, the text there is unaffected by a new record. */
  lemma RecordKeepsSaved(base: Lines, t: Tracked, c: Change, time: int)
    requires NewlineFree(base) && Honest(base, t) && !Stuck(t.s.history) && FitsText(t.s.text, c)
    requires Faithful(base, Session(Do(t.s.text, c), Record(t.s.history, c, time)))
    ensures SavedIsKnown(base, t.(s := Session(Do(t.s.text, c), Record(t.s.history, c, time)), changed := true))
  {
    hide LogFits, TextAfter, FitsText, Do, Joins;
    var h, h' := t.s.history, Record(t.s.history, c, time);
    assert h'.ops[|h'.ops| - 1].version == h.version;
    forall i | !t.atStart && 0 <= i < |h'.ops| && h'.ops[i].version == t.saved
      ensures LogFits(base, h'.ops, i + 1) && t.savedText == TextAfter(base, h'.ops, i + 1)
    {
      assert i < h.done && h'.ops[..i + 1] == h.ops[..i + 1] && h'.ops[i] == h.ops[i];
      LogPrefix(base, h.ops, h'.ops, i + 1);
    }
  }

  /** Moving along the log changes neither the log nor what the saved version stands for, and the flag
      is cleared only at the saved place. */
  lemma MoveKeepsHonest(base: Lines, t: Tracked, s': Session)
    requires NewlineFree(base) && Honest(base, t) && Faithful(base, s') && !Stuck(t.s.history)
    requires s'.history == t.s.history.(done := s'.history.done) && t.s.history.ops != []
    ensures Honest(base, t.(s := s', changed := CurrentVersion(s'.history) != t.saved))
  {
    hide FitsText, Do, LogFits;
    var h := s'.history;
    if CurrentVersion(h) == t.saved && h.done > 0 && !t.atStart {
      assert h.ops[h.done - 1].version == t.saved;
      assert t.savedText == TextAfter(base, h.ops, (h.done - 1) + 1);
    }
  }

  lemma SaveKeepsHonest(base: Lines, t: Tracked)
    requires NewlineFree(base) && Honest(base, t)
    ensures Honest(base, TrackedStep(t, Save))
  {
    hide FitsText, Do;
    var h := t.s.history;
    if !Stuck(h) && h.done > 0 {
      forall i | 0 <= i < |h.ops| && h.ops[i].version == h.ops[h.done - 1].version ensures i == h.done - 1 {
      }
    }
  }

  /** Every edit, undo, redo, group mark and save keeps the flag honest. */
  lemma StepKeepsHonest(base: Lines, t: Tracked, act: Act)
    requires NewlineFree(base) && Honest(base, t)
    requires ActFits(t, act)
    ensures Honest(base, TrackedStep(t, act))
  {
    hide FitsText, Do, LogFits, TextAfter, Numbered, TakeBackTo, MakeAgain, Record, NewlineFree;
    if act.Save? {
      SaveKeepsHonest(base, t);
    } else {
      var c := act.command;
      StepKeepsFaithful(base, t.s, c);
      var s' := Step(t.s, c);
      if c.Edit? {
        if !Stuck(t.s.history) {
          RecordKeepsSaved(base, t, c.change, c.time);
        }
      } else if (c == Undo && CanUndo(t.s.history)) || (c == Redo && CanRedo(t.s.history)) {
        MoveKeepsHonest(base, t, s');
      }
    }
  }

  /** A change that fits leaves the text as it was iff it is empty. */
  lemma DoChanges(t: Lines, c: Change)
    requires NewlineFree(t) && FitsText(t, c)
    ensures Do(t, c) == t <==> c.text == []
  {
    hide Flat, Delete, DeleteText;
    if c.l == 0 {
      if Stays(c) {
        InsertedOnHeader(t, c);
      } else {
        ChangeRoundTrip(t, c);
      }
      return;
    }
    var p := Place(c);
    LinearBound(t, p);
    if c.kind == Insertion {
      TypeTextFlat(t, p, c.text);
    } else {
      DeleteTextFlat(t, p, |c.text|);
    }
  }

  /** When the versions collide the undo position is behind the first operation, and the text on the
      screen is the saved one iff that operation was empty. */
  lemma CollisionExactly(base: Lines, t: Tracked)
    requires NewlineFree(base) && Honest(base, t) && Collides(t)
    ensures t.s.history.done == 1
    ensures t.s.text == t.savedText <==> t.s.history.ops[0].change.text == []
  {
    hide FitsText, Do, NewlineFree;
    var h := t.s.history;
    assert h.ops[0].version >= 1;
    assert h.done == 1;
    assert TextAfter(base, h.ops, 0) == base && LogFits(base, h.ops, 1);
    FitsPlace(base, h.ops[0].change);
    DoChanges(base, h.ops[0].change);
  }

  /** The undo position is the one at which the buffer was saved. */
  predicate AtSavedPlace(t: Tracked)
    requires t.s.history.done <= |t.s.history.ops|
  {
    var h := t.s.history;
    if t.atStart || t.saved == 0 then h.done == 0 else h.done > 0 && h.ops[h.done - 1].version == t.saved
  }

  /** What the flag says after an undo or redo that found something to do, exactly. One that fails at
      an insertion on the header line leaves all as it was and says changed. After any other, at the
      place of the saved text it says changed iff everything was undone and the buffer was last saved
      before its first edit, and elsewhere it says unchanged iff the versions collide. */
  lemma FlagAfterMove(base: Lines, t: Tracked, c: Command)
    requires NewlineFree(base) && Honest(base, t)
    requires (c == Undo && TriesUndo(t.s.history)) || (c == Redo && CanRedo(t.s.history))
    ensures var r := TrackedStep(t, Act.Act(c));
      var fails := c == Undo && UndoFails(t.s.history);
      && r.s.history.done <= |r.s.history.ops|
      && (AtSavedPlace(r) ==> r.s.text == r.savedText)
      && (fails ==> r == t.(changed := true))
      && (AtSavedPlace(r) && r.changed <==> if fails then AtSavedPlace(t) else r.s.history.done == 0 && r.atStart)
      && (!AtSavedPlace(r) && !r.changed <==> !fails && Collides(r))
  {
    hide FitsText, Do, LogFits, TextAfter, NewlineFree, TakeBackTo, MakeAgain, Honest, Numbered, Faithful, UndoStart, GroupEnd;
    HonestParts(base, t);
    var r := TrackedStep(t, Act.Act(c));
    StepKeepsHonest(base, t, Act.Act(c));
    HonestParts(base, r);
    if AtSavedPlace(r) {
      SavedPlaceHasText(base, r);
    }
  }

  /** Saved with such an insertion newest, an undo marks the buffer changed with exactly the saved text
      on the screen. */
  lemma FailedUndoMarksSaved(base: Lines, t: Tracked)
    requires NewlineFree(base) && Honest(base, t) && UndoFails(t.s.history)
    ensures var saved := TrackedStep(t, Save);
      && HistoryOk(saved.s.history) && !saved.changed
      && var r := TrackedStep(saved, Act.Act(Undo));
      r.changed && r.s.text == r.savedText == t.s.text
  {
    hide FitsText, Do, LogFits, TextAfter, NewlineFree, TakeBackTo, Numbered, Faithful;
    HonestParts(base, t);
  }

  /** In a new buffer: a character typed on the header line, one typed behind it, and an undo. It
      clears the flag, and the next one fails. */
  function NewBufferActs(a: Byte, b: Byte, time: int): seq<Act> {
    [Act.Act(Command.Edit(Change(Insertion, 0, 0, [a]), time)), Act.Act(Command.Edit(Change(Insertion, 1, 1, [b]), time)), Act.Act(Undo)]
  }

  lemma OneTyped(a: Byte)
    requires a !in {0, NEWLINE}
    ensures FitsText([], Change(Insertion, 0, 0, [a])) && Do([], Change(Insertion, 0, 0, [a])) == [[a]]
  {
    TypedOnHeader([], [a]);
    var blank: Lines := [[]];
    assert blank[0][..0] + [a] + blank[0][0..] == [a];
    assert TypeByte(blank, Pos(0, 0), a).0 == [[a]];
    assert [a][1..] == [];
  }

  lemma TwoRecorded(a: Byte, b: Byte, time: int)
    ensures var h1 := Record(EmptyHistory, Change(Insertion, 0, 0, [a]), time);
      var h2 := Record(h1, Change(Insertion, 1, 1, [b]), time);
      && h1.done == |h1.ops| == 1 && h2.done == |h2.ops| == 2 && h2.ops[0].version == 1 && h2.ops[0] == h1.ops[0]
      && h1.ops[0].change == Change(Insertion, 0, 0, [a]) && h2.ops[1].change == Change(Insertion, 1, 1, [b])
      && h2.cap == INITIAL_CAPACITY && CanUndo(h2) && UndoStep(h2).done == 1
  {
    var h1 := Record(EmptyHistory, Change(Insertion, 0, 0, [a]), time);
    assert h1.ops == [Op(Change(Insertion, 0, 0, [a]), 1, time, 2)];
    var h2 := Record(h1, Change(Insertion, 1, 1, [b]), time);
    assert h2.ops == h1.ops[..1] + [Op(Change(Insertion, 1, 1, [b]), 2, time, 3)];
    assert UndoStart(h2.ops, 2) == 1;
  }

  lemma NewBufferUndone(a: Byte, b: Byte, time: int)
    requires a !in {0, NEWLINE} && b !in {0, NEWLINE}
    ensures NewlineFree([]) && HistoryOk(EmptyHistory) && ActsFit(Fresh([]), NewBufferActs(a, b, time))
    ensures var t := AfterActs(Fresh([]), NewBufferActs(a, b, time)); Honest([], t) && !t.changed && UndoFails(t.s.history)
  {
    hide Honest, FitsText, Do, Joins, Record, Numbered, TakeBackTo, UndoStart, NewlineFree;
    var acts, t0 := NewBufferActs(a, b, time), Fresh([]);
    FreshIsHonest([]);
    HonestParts([], t0);
    OneTyped(a);
    TwoRecorded(a, b, time);
    var t1 := TrackedStep(t0, acts[0]);
    StepKeepsHonest([], t0, acts[0]);
    HonestParts([], t1);
    TypedBehind(a, b);
    var t2 := TrackedStep(t1, acts[1]);
    StepKeepsHonest([], t1, acts[1]);
    HonestParts([], t2);
    var t3 := TrackedStep(t2, acts[2]);
    StepKeepsHonest([], t2, acts[2]);
    HonestParts([], t3);
    RunThree(t0, acts);
  }

  lemma TypedBehind(a: Byte, b: Byte)
    requires b !in {0, NEWLINE}
    ensures FitsText([[a]], Change(Insertion, 1, 1, [b]))
  {
  }

  lemma RunThree(t: Tracked, acts: seq<Act>)
    requires |acts| == 3 && HistoryOk(t.s.history) && ActFits(t, acts[0])
    requires var t1 := TrackedStep(t, acts[0]);
      && HistoryOk(t1.s.history) && ActFits(t1, acts[1])
      && var t2 := TrackedStep(t1, acts[1]);
      && HistoryOk(t2.s.history) && ActFits(t2, acts[2])
      && HistoryOk(TrackedStep(t2, acts[2]).s.history)
    ensures ActsFit(t, acts)
    ensures AfterActs(t, acts) == TrackedStep(TrackedStep(TrackedStep(t, acts[0]), acts[1]), acts[2])
  {
    hide TrackedStep, HistoryOk;
    var rest := acts[1..];
    assert rest[0] == acts[1] && rest[1..][0] == acts[2] && rest[1..][1..] == [];
    var t1 := TrackedStep(t, acts[0]);
    var t2 := TrackedStep(t1, acts[1]);
    assert ActsFit(TrackedStep(t2, acts[2]), rest[1..][1..]);
    assert ActsFit(t2, rest[1..]) && AfterActs(t2, rest[1..]) == TrackedStep(t2, acts[2]);
    assert ActsFit(t1, rest);
  }

  /** Saved there -- the flag being clear, a file is written as it is -- and undone once more, the
      buffer is marked changed with the saved text on the screen. */
  lemma NewBufferMarksSaved(a: Byte, b: Byte, time: int)
    requires a !in {0, NEWLINE} && b !in {0, NEWLINE}
    ensures HistoryOk(EmptyHistory) && ActsFit(Fresh([]), NewBufferActs(a, b, time))
    ensures var saved := TrackedStep(AfterActs(Fresh([]), NewBufferActs(a, b, time)), Save);
      && HistoryOk(saved.s.history)
      && var r := TrackedStep(saved, Act.Act(Undo));
      r.changed && r.s.text == r.savedText
  {
    hide Honest, ActsFit, AfterActs, TrackedStep, UndoFails;
    NewBufferUndone(a, b, time);
    FailedUndoMarksSaved([], AfterActs(Fresh([]), NewBufferActs(a, b, time)));
  }

  /** Wherever the saved text's place is the undo position, the saved text is the text. */
  lemma SavedPlaceHasText(base: Lines, t: Tracked)
    requires Honest(base, t) && !Stuck(t.s.history) && AtSavedPlace(t)
    ensures t.s.text == t.savedText
  {
    hide FitsText, Do, LogFits, Numbered;
    var h := t.s.history;
    if h.done > 0 {
      assert t.savedText == TextAfter(base, h.ops, (h.done - 1) + 1);
    }
  }

  lemma HonestParts(base: Lines, t: Tracked)
    requires Honest(base, t)
    ensures Faithful(base, t.s) && HistoryOk(t.s.history) && (!Stuck(t.s.history) ==> SavedIsKnown(base, t))
    ensures forall i :: 0 <= i < |t.s.history.ops| ==> t.s.history.ops[i].version >= 1
  {
  }

  predicate ActsFit(t: Tracked, acts: seq<Act>)
    requires HistoryOk(t.s.history)
    decreases |acts|
  {
    acts == [] ||
    (ActFits(t, acts[0]) &&
     var t' := TrackedStep(t, acts[0]);
     HistoryOk(t'.s.history) && ActsFit(t', acts[1..]))
  }

  function AfterActs(t: Tracked, acts: seq<Act>): (r: Tracked)
    requires HistoryOk(t.s.history) && ActsFit(t, acts)
    ensures HistoryOk(r.s.history)
    decreases |acts|
  {
    if acts == [] then t else AfterActs(TrackedStep(t, acts[0]), acts[1..])
  }

  /** Over every run from a buffer just read in: one not marked changed holds the text last saved iff
      not the following: it was saved before the first edit, the undo position is behind the first
      operation, and that operation changed something. */
  lemma {:induction false} RunsKeepHonest(base: Lines, t: Tracked, acts: seq<Act>)
    requires NewlineFree(base) && Honest(base, t) && ActsFit(t, acts)
    ensures Honest(base, AfterActs(t, acts))
    ensures var r := AfterActs(t, acts);
      !r.changed ==> (r.s.text == r.savedText <==> !(Collides(r) && r.s.history.ops[0].change.text != []))
    decreases |acts|
  {
    if acts != [] {
      hide Honest, TrackedStep;
      StepKeepsHonest(base, t, acts[0]);
      RunsKeepHonest(base, TrackedStep(t, acts[0]), acts[1..]);
    } else if Collides(t) {
      CollisionExactly(base, t);
    }
  }

  /** The collision: one edit, undone and redone, in a buffer never saved, counts as unchanged though
      the text is not the saved one -- unless it was made on the header line, where neither undo nor
      redo touches it. Undone, with the text as it was read in, it counts as changed. */
  lemma FirstEditLooksSaved(base: Lines, c: Change, time: int)
    requires NewlineFree(base) && FitsText(base, c) && c.text != []
    ensures var t1 := TrackedStep(Fresh(base), Act.Act(Command.Edit(c, time)));
      && HistoryOk(t1.s.history)
      && var t2 := TrackedStep(t1, Act.Act(Undo));
      && HistoryOk(t2.s.history)
      && var t3 := TrackedStep(t2, Act.Act(Redo));
      && t3.s.text == Do(base, c) != t3.savedText && (!t3.changed <==> c.l >= 1)
      && t2.changed && (t2.s.text == base <==> c.l >= 1)
  {
    hide FitsText, Do, Joins, TakeBack, NewlineFree;
    var t0 := Fresh(base);
    FitsPlace(base, c);
    DoChanges(base, c);
    FreshIsHonest(base);
    var t1 := TrackedStep(t0, Act.Act(Command.Edit(c, time)));
    StepKeepsFaithful(base, t0.s, Command.Edit(c, time));
    assert t1.s.history.done == 1 && |t1.s.history.ops| == 1 && t1.s.text == Do(base, c);
    UndoRedoRestoresText(base, t1.s);
    if !Stays(c) {
      TakenBack(base, t1.s.history.ops, 1, 0);
    }
    assert t1.s.history.ops[0].version == 1;
  }

  lemma FlagAfterUndo(t: Tracked)
    requires HistoryOk(t.s.history)
    ensures var h' := Step(t.s, Undo).history;
      && h'.done <= |h'.ops|
      && TrackedStep(t, Act.Act(Undo)).changed ==
         if CanUndo(t.s.history) then CurrentVersion(h') != t.saved else TriesUndo(t.s.history) || t.changed
  {
    hide Numbered, TakeBackTo, UndoStart;
  }

  // ---- As it runs ----

  /** The fields of the buffer. */
  class SaveMark {
    var saved: nat
    var changed: bool

    constructor ()
      ensures saved == 1 && !changed
    {
      saved, changed := 1, false;
    }

    /** The version of the slot at `undo_ptr`. */
    method VersionAt(stack: Stack) returns (v: nat)
      requires stack.Valid()
      ensures v == CurrentVersion(stack.Hist())
    {
      v := if stack.undoPtr == -1 then 1 else stack.operations[stack.undoPtr].version;
      assert stack.Done() > 0 ==> stack.operations[..stack.count][stack.Done() - 1] == stack.operations[stack.undoPtr];
    }

    /** `undo_mark_saved`. */
    method MarkSaved(stack: Stack)
      requires stack.Valid()
      modifies this
      ensures saved == CurrentVersion(stack.Hist()) && !changed
    {
      saved := VersionAt(stack);
      changed := false;
    }

    /** The decision at the end of a successful undo or redo. */
    method Decide(stack: Stack)
      requires stack.Valid()
      modifies this`changed
      ensures changed <==> CurrentVersion(stack.Hist()) != saved
    {
      var v := VersionAt(stack);
      changed := v != saved;
    }

    /** The flag after an undo of the buffer: `lchange` inside its first deletion or insertion sets it,
        on the header line too, and only an undo that succeeds comes to the decision. */
    method AfterUndo(stack: Stack, tried: bool, ok: bool, ghost before: Tracked)
      requires stack.Valid() && HistoryOk(before.s.history) && before.saved == saved && before.changed == changed
      requires tried == TriesUndo(before.s.history) && ok == CanUndo(before.s.history)
      requires stack.Hist() == Step(before.s, Undo).history
      modifies this`changed
      ensures changed == TrackedStep(before, Act.Act(Undo)).changed
    {
      hide TrackedStep, Step, HistoryOk, TriesUndo, CanUndo, CurrentVersion, Stack.Valid, Stack.Hist, Stack.Shaped;
      FlagAfterUndo(before);
      if tried {
        changed := true;
      }
      if ok {
        Decide(stack);
      }
    }
  }
}
