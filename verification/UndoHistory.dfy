/** Recording, undo and redo as transitions of a history, and their safety over every run. */
module UndoHistory {
  import opened Bytes
  import opened Text
  import opened UndoLog

  const INITIAL_CAPACITY := 100
  const MAX_CAPACITY := 10000

  /** `struct undo_operation`. */
  datatype Op = Op(change: Change, version: nat, time: int, group: nat)

  /** The history of a buffer: the logged operations, how many of them are not undone, the capacity
      of the ring, the next version, the current group, and whether an explicit group is open. */
  datatype History = History(ops: seq<Op>, done: nat, cap: nat, version: nat, group: nat, forced: bool)

  const EmptyHistory := History([], 0, INITIAL_CAPACITY, 1, 1, false)

  /** The ring is at its limit and full: recording has stopped for good. */
  predicate Stuck(h: History) {
    |h.ops| == h.cap == MAX_CAPACITY
  }

  // ---- Coalescing ----

  predicate IsWordByte(b: Byte) {
    b != 32 && b != 9 && b != 10 && b != 13
  }

  /** A run of single characters is broken where a word begins. */
  predicate SameWord(prev: seq<Byte>, text: seq<Byte>) {
    |prev| == 1 && |text| == 1 && IsWordByte(text[0]) ==> IsWordByte(prev[0])
  }

  /** The new change joins the group of the operation before it: it goes on where that one left off
      (or, deleting, at the same place or right before it), within 400 ms. */
  predicate Joins(prev: Op, c: Change, time: int) {
    && prev.change.kind == c.kind && prev.change.l == c.l
    && (if c.kind == Insertion then prev.change.o + |prev.change.text| == c.o
        else prev.change.o == c.o || prev.change.o == c.o + |c.text|)
    && 0 <= time - prev.time < 400000000
    && SameWord(prev.change.text, c.text)
  }

  // ---- The transitions ----

  /** Doubling up to the limit when the ring is full. */
  function GrownCapacity(h: History): nat {
    if |h.ops| < h.cap then h.cap else if 2 * h.cap > MAX_CAPACITY then MAX_CAPACITY else 2 * h.cap
  }

  /** `undo_record_insert` and `undo_record_delete`: drop what was undone and log the change. */
  function Record(h: History, c: Change, time: int): History
    requires h.done <= |h.ops|
  {
    if |h.ops| >= h.cap >= MAX_CAPACITY then h
    else
      var kept := h.ops[..h.done];
      var fresh_ := !h.forced && (kept == [] || !Joins(kept[|kept| - 1], c, time));
      var group := if fresh_ then h.group + 1 else h.group;
      var gid := if h.forced || fresh_ then group else kept[|kept| - 1].group;
      History(kept + [Op(c, h.version, time, gid)], h.done + 1, GrownCapacity(h), h.version + 1, group, h.forced)
  }

  /** How far back undo goes from `done`: to the start of the group that ends there, or to an
      insertion on the header line, which it does not take back. */
  function UndoStart(ops: seq<Op>, done: nat): (s: nat)
    requires 0 < done <= |ops|
    ensures s <= done && (s == done <==> Stays(ops[done - 1].change))
    ensures forall i :: s <= i < done ==> ops[i].group == ops[done - 1].group && !Stays(ops[i].change)
    ensures s > 0 ==> ops[s - 1].group != ops[done - 1].group || Stays(ops[s - 1].change)
    decreases done
  {
    if Stays(ops[done - 1].change) then done
    else if done == 1 || ops[done - 2].group != ops[done - 1].group then done - 1
    else UndoStart(ops, done - 1)
  }

  /** The end of the group that starts at `done`. */
  function GroupEnd(ops: seq<Op>, done: nat): (e: nat)
    requires done < |ops|
    ensures done < e <= |ops|
    ensures forall i :: done <= i < e ==> ops[i].group == ops[done].group
    ensures e < |ops| ==> ops[e].group != ops[done].group
    decreases |ops| - done
  {
    if done + 1 == |ops| || ops[done + 1].group != ops[done].group then done + 1 else GroupEnd(ops, done + 1)
  }

  /** `undo_operation` has something to take back: not while the ring is full. */
  predicate TriesUndo(h: History) {
    0 < h.done && |h.ops| != h.cap
  }

  /** And what it takes back first was not inserted on the header line. */
  predicate CanUndo(h: History)
    requires h.done <= |h.ops|
  {
    TriesUndo(h) && !Stays(h.ops[h.done - 1].change)
  }

  /** The last operation undo goes to: the first of those it takes back, or the insertion on the header
      line it stops at. */
  function LastTried(ops: seq<Op>, done: nat): (k: nat)
    requires 0 < done <= |ops|
    ensures k < done
  {
    var s := UndoStart(ops, done);
    if s > 0 && ops[s - 1].group == ops[done - 1].group then s - 1 else s
  }

  /** A change made on the header line and logged with an offset: going there leaves dot off the text. */
  predicate OffText(c: Change) {
    c.l == 0 && c.o > 0
  }

  /** Undo leaves dot off the text. */
  predicate Strays(h: History)
    requires h.done <= |h.ops|
  {
    TriesUndo(h) && OffText(h.ops[LastTried(h.ops, h.done)].change)
  }

  predicate CanRedo(h: History) {
    h.done < |h.ops|
  }

  function UndoStep(h: History): History
    requires h.done <= |h.ops|
  {
    if CanUndo(h) then h.(done := UndoStart(h.ops, h.done)) else h
  }

  function RedoStep(h: History): History {
    if CanRedo(h) then h.(done := GroupEnd(h.ops, h.done)) else h
  }

  // ---- The texts along a log ----

  /** The text after the first `n` logged changes, each in its turn. */
  function TextAfter(base: Lines, ops: seq<Op>, n: nat): (t: Lines)
    requires n <= |ops| && LogFits(base, ops, n)
    decreases n, 1
  {
    if n == 0 then base else Do(TextAfter(base, ops, n - 1), ops[n - 1].change)
  }

  /** Each of the first `n` changes fits the text the ones before it leave. */
  predicate LogFits(base: Lines, ops: seq<Op>, n: nat)
    requires n <= |ops|
    decreases n, 0
  {
    n == 0 || (LogFits(base, ops, n - 1) && FitsText(TextAfter(base, ops, n - 1), ops[n - 1].change))
  }

  lemma {:induction false} LogPrefix(base: Lines, ops: seq<Op>, ops': seq<Op>, n: nat)
    requires n <= |ops| && n <= |ops'| && ops[..n] == ops'[..n] && LogFits(base, ops, n)
    ensures LogFits(base, ops', n) && TextAfter(base, ops', n) == TextAfter(base, ops, n)
  {
    if n > 0 {
      assert ops[..n - 1] == ops[..n][..n - 1] == ops'[..n][..n - 1] == ops'[..n - 1];
      LogPrefix(base, ops, ops', n - 1);
      assert ops[n - 1] == ops[..n][n - 1] == ops'[..n][n - 1] == ops'[n - 1];
    }
  }

  lemma {:induction false} LogShorter(base: Lines, ops: seq<Op>, n: nat, m: nat)
    requires m <= n <= |ops| && LogFits(base, ops, n)
    ensures LogFits(base, ops, m)
    decreases n
  {
    if m < n {
      LogShorter(base, ops, n - 1, m);
    }
  }

  lemma {:induction false} TextsNewlineFree(base: Lines, ops: seq<Op>, n: nat)
    requires n <= |ops| && LogFits(base, ops, n) && NewlineFree(base)
    ensures NewlineFree(TextAfter(base, ops, n))
    decreases n
  {
    if n > 0 {
      TextsNewlineFree(base, ops, n - 1);
      DoKeepsLines(TextAfter(base, ops, n - 1), ops[n - 1].change);
    }
  }

  // ---- The invariant of a history ----

  /** Group numbers never fall along the log and stay below the current one; versions rise. */
  predicate Numbered(ops: seq<Op>, group: nat, version: nat) {
    && (forall i, j :: 0 <= i < j < |ops| ==> ops[i].group <= ops[j].group && ops[i].version < ops[j].version)
    && (forall i :: 0 <= i < |ops| ==> ops[i].group <= group && 1 <= ops[i].version < version)
    && 1 <= version
  }

  /** Besides the numbering: the undo position is where undo stops, at the edge of a group or behind
      an insertion on the header line; a full ring has nothing undone; and no insertion on the header
      line ever is. */
  predicate HistoryOk(h: History) {
    && INITIAL_CAPACITY <= h.cap <= MAX_CAPACITY && h.done <= |h.ops| <= h.cap
    && (|h.ops| == h.cap ==> h.done == |h.ops|)
    && (0 < h.done < |h.ops| ==> h.ops[h.done - 1].group != h.ops[h.done].group || Stays(h.ops[h.done - 1].change))
    && (forall i :: h.done <= i < |h.ops| ==> !Stays(h.ops[i].change))
    && Numbered(h.ops, h.group, h.version)
  }

  lemma RecordKeepsOk(h: History, c: Change, time: int)
    requires HistoryOk(h)
    ensures HistoryOk(Record(h, c, time))
  {
  }

  lemma UndoKeepsOk(h: History)
    requires HistoryOk(h)
    ensures HistoryOk(UndoStep(h)) && HistoryOk(RedoStep(h))
  {
    hide Numbered;
    if CanUndo(h) {
      var s := UndoStart(h.ops, h.done);
      assert h.ops[s].group == h.ops[h.done - 1].group;
    }
    if CanRedo(h) {
      var e := GroupEnd(h.ops, h.done);
      assert h.ops[e - 1].group == h.ops[h.done].group;
    }
  }

  /** With room in the ring, redo after a successful undo comes back to the same history. */
  lemma UndoRedo(h: History)
    requires HistoryOk(h) && CanUndo(h)
    ensures CanRedo(UndoStep(h)) && RedoStep(UndoStep(h)) == h
  {
    var s := UndoStart(h.ops, h.done);
    GroupEndIs(h.ops, s, h.done);
  }

  /** Undo after a successful redo comes back to the same history -- unless the ring is full, which
      it cannot be when something is undone. */
  lemma RedoUndo(h: History)
    requires HistoryOk(h) && CanRedo(h)
    ensures CanUndo(RedoStep(h)) && UndoStep(RedoStep(h)) == h
  {
    var e := GroupEnd(h.ops, h.done);
    UndoStartIs(h.ops, h.done, e);
  }

  lemma {:induction false} GroupEndIs(ops: seq<Op>, s: nat, e: nat)
    requires s < e <= |ops| && (forall i :: s <= i < e ==> ops[i].group == ops[e - 1].group)
    requires e < |ops| ==> ops[e].group != ops[e - 1].group
    ensures GroupEnd(ops, s) == e
    decreases e - s
  {
    if s + 1 < e {
      assert ops[s + 1].group == ops[s].group;
      GroupEndIs(ops, s + 1, e);
    }
  }

  lemma {:induction false} UndoStartIs(ops: seq<Op>, s: nat, e: nat)
    requires s <= e <= |ops| && e > 0
    requires forall i :: s <= i < e ==> ops[i].group == ops[e - 1].group && !Stays(ops[i].change)
    requires s > 0 ==> ops[s - 1].group != ops[e - 1].group || Stays(ops[s - 1].change)
    ensures UndoStart(ops, e) == s
    decreases e
  {
    if s + 1 < e {
      assert ops[e - 2].group == ops[e - 1].group;
      UndoStartIs(ops, s, e - 1);
    }
  }

  // ---- Runs ----

  datatype Command = Edit(change: Change, time: int) | Undo | Redo | GroupBegin | GroupStop

  /** A buffer with its history. */
  datatype Session = Session(text: Lines, history: History)

  /** The text an undo or redo leaves: the changes of one group, taken back or made again in order. */
  function TakeBackTo(t: Lines, ops: seq<Op>, n: nat, m: nat): Lines
    requires m <= n <= |ops|
    decreases n
  {
    if n == m then t
    else
      var c := ops[n - 1].change;
      if OkPos(t, Spot(t, c)) then TakeBackTo(TakeBack(t, c), ops, n - 1, m) else t
  }

  function MakeAgain(t: Lines, ops: seq<Op>, n: nat, m: nat): Lines
    requires n <= m <= |ops|
    decreases m - n
  {
    if n == m then t
    else
      var c := ops[n].change;
      if OkPos(t, Spot(t, c)) then MakeAgain(Do(t, c), ops, n + 1, m) else t
  }

  function Step(s: Session, cmd: Command): Session
    requires HistoryOk(s.history)
    requires cmd.Edit? ==> FitsText(s.text, cmd.change)
  {
    var h := s.history;
    match cmd
    case Edit(c, time) => Session(Do(s.text, c), Record(h, c, time))
    case Undo =>
      if CanUndo(h) then Session(TakeBackTo(s.text, h.ops, h.done, UndoStep(h).done), UndoStep(h)) else s
    case Redo =>
      if CanRedo(h) then Session(MakeAgain(s.text, h.ops, h.done, RedoStep(h).done), RedoStep(h)) else s
    case GroupBegin => s.(history := h.(forced := true))
    case GroupStop => s.(history := h.(forced := false, group := h.group + 1))
  }

  /** The session is what the not-undone part of its log makes of `base`, and every logged change
      fits where it would be applied; or the ring is full for good. */
  predicate Faithful(base: Lines, s: Session) {
    && HistoryOk(s.history)
    && NewlineFree(s.text)
    && (!Stuck(s.history) ==>
      && LogFits(base, s.history.ops, |s.history.ops|)
      && LogFits(base, s.history.ops, s.history.done)
      && s.text == TextAfter(base, s.history.ops, s.history.done))
  }

  lemma {:induction false} TakenBack(base: Lines, ops: seq<Op>, n: nat, m: nat)
    requires m <= n <= |ops| && NewlineFree(base) && LogFits(base, ops, n)
    requires forall i :: m <= i < n ==> !Stays(ops[i].change)
    ensures LogFits(base, ops, m) && TakeBackTo(TextAfter(base, ops, n), ops, n, m) == TextAfter(base, ops, m)
    decreases n
  {
    if m < n {
      hide FitsText, Do, TakeBack, NewlineFree;
      TextsNewlineFree(base, ops, n - 1);
      FitsPlace(TextAfter(base, ops, n - 1), ops[n - 1].change);
      ChangeRoundTrip(TextAfter(base, ops, n - 1), ops[n - 1].change);
      TakenBack(base, ops, n - 1, m);
    }
  }

  lemma {:induction false} MadeAgain(base: Lines, ops: seq<Op>, n: nat, m: nat)
    requires n <= m <= |ops| && LogFits(base, ops, m)
    ensures LogFits(base, ops, n) && MakeAgain(TextAfter(base, ops, n), ops, n, m) == TextAfter(base, ops, m)
    decreases m - n
  {
    hide Do, FitsText;
    LogShorter(base, ops, m, n);
    if n < m {
      LogShorter(base, ops, m, n + 1);
      FitsPlace(TextAfter(base, ops, n), ops[n].change);
      MadeAgain(base, ops, n + 1, m);
    }
  }

  lemma FitsPlace(t: Lines, c: Change)
    requires FitsText(t, c)
    ensures OkPos(t, Spot(t, c)) && (if c.l == 0 then Stays(c) || Idle(c) else OnLine(t, Place(c)))
  {
  }

  lemma DoKeepsLines(t: Lines, c: Change)
    requires NewlineFree(t) && FitsText(t, c)
    ensures NewlineFree(Do(t, c))
  {
    if Stays(c) {
      HeaderGrows(t, c.text);
    } else {
      ChangeRoundTrip(t, c);
    }
  }

  /** Every command keeps the session faithful; once the ring is stuck it stays stuck. */
  lemma StepKeepsFaithful(base: Lines, s: Session, cmd: Command)
    requires NewlineFree(base) && Faithful(base, s) && (cmd.Edit? ==> FitsText(s.text, cmd.change))
    ensures Faithful(base, Step(s, cmd))
    ensures Stuck(s.history) ==> Stuck(Step(s, cmd).history)
  {
    hide Numbered, FitsText, Do, TakeBackTo, MakeAgain, TextAfter, NewlineFree;
    var h := s.history;
    match cmd
    case Edit(c, time) =>
      DoKeepsLines(s.text, c);
      RecordKeepsOk(h, c, time);
      if !Stuck(h) {
        RecordFits(base, s, c, time);
      }
    case Undo =>
      UndoKeepsOk(h);
      if CanUndo(h) {
        TakenBack(base, h.ops, h.done, UndoStep(h).done);
        TextsNewlineFree(base, h.ops, UndoStep(h).done);
      }
    case Redo =>
      UndoKeepsOk(h);
      if CanRedo(h) {
        LogShorter(base, h.ops, |h.ops|, RedoStep(h).done);
        MadeAgain(base, h.ops, h.done, RedoStep(h).done);
        TextsNewlineFree(base, h.ops, RedoStep(h).done);
      }
    case GroupBegin =>
    case GroupStop => GroupStopKeepsOk(h);
  }

  lemma GroupStopKeepsOk(h: History)
    requires HistoryOk(h)
    ensures HistoryOk(h.(forced := false, group := h.group + 1))
  {
  }

  lemma RecordFits(base: Lines, s: Session, c: Change, time: int)
    requires Faithful(base, s) && FitsText(s.text, c) && !Stuck(s.history)
    ensures var h' := Record(s.history, c, time);
      && LogFits(base, h'.ops, |h'.ops|) && h'.done == |h'.ops| && Do(s.text, c) == TextAfter(base, h'.ops, h'.done)
  {
    hide Joins, Numbered, FitsText, Do, NewlineFree, UndoStart;
    var h, h' := s.history, Record(s.history, c, time);
    var n := h.done;
    assert h'.ops[..n] == h.ops[..n];
    LogPrefix(base, h.ops, h'.ops, n);
  }

  /** A run of commands, every edit among them fitting the text it is made to. */
  predicate Runs(s: Session, cmds: seq<Command>)
    requires HistoryOk(s.history)
    decreases |cmds|
  {
    cmds == [] ||
    ((cmds[0].Edit? ==> FitsText(s.text, cmds[0].change)) &&
     var s' := Step(s, cmds[0]);
     HistoryOk(s'.history) && Runs(s', cmds[1..]))
  }

  predicate AllEdits(cmds: seq<Command>) {
    forall i :: 0 <= i < |cmds| ==> cmds[i].Edit?
  }

  function After(s: Session, cmds: seq<Command>): Session
    requires HistoryOk(s.history) && Runs(s, cmds)
    decreases |cmds|
  {
    if cmds == [] then s else After(Step(s, cmds[0]), cmds[1..])
  }

  lemma {:induction false} RunKeepsFaithful(base: Lines, s: Session, cmds: seq<Command>)
    requires NewlineFree(base) && Faithful(base, s) && Runs(s, cmds)
    ensures Faithful(base, After(s, cmds)) && (Stuck(s.history) ==> Stuck(After(s, cmds).history))
    decreases |cmds|
  {
    if cmds != [] {
      StepKeepsFaithful(base, s, cmds[0]);
      RunKeepsFaithful(base, Step(s, cmds[0]), cmds[1..]);
    }
  }

  /** History safety: after any run from a fresh history the text is the initial text with exactly
      the not-undone logged changes made in order, each fitting where it was made; or the ring is
      full for good, and then neither undo nor redo does anything any more. */
  lemma HistorySafety(base: Lines, cmds: seq<Command>)
    requires NewlineFree(base) && HistoryOk(EmptyHistory) && Runs(Session(base, EmptyHistory), cmds)
    ensures HistoryOk(After(Session(base, EmptyHistory), cmds).history)
    ensures var s := After(Session(base, EmptyHistory), cmds);
      if Stuck(s.history) then Step(s, Undo) == s && Step(s, Redo) == s
      else
        && LogFits(base, s.history.ops, |s.history.ops|) && LogFits(base, s.history.ops, s.history.done)
        && s.text == TextAfter(base, s.history.ops, s.history.done)
  {
    RunKeepsFaithful(base, Session(base, EmptyHistory), cmds);
  }

  /** When a non-empty insertion just logged is taken back: undo, if it tries at all, takes it back
      iff its line number is at least 1 -- then it restores the text, unless the insertion joined a
      group. Otherwise nothing changes but dot, which undo leaves inside the header line iff the
      logged offset is 0. */
  lemma InsertionTakenBack(base: Lines, s: Session, c: Change, time: int)
    requires NewlineFree(base) && Faithful(base, s) && FitsText(s.text, c) && c.kind == Insertion && c.text != []
    ensures var s1 := Step(s, Edit(c, time));
      var h := s1.history;
      && HistoryOk(h)
      && (TriesUndo(h) ==> (CanUndo(h) <==> c.l >= 1))
      && (c.l == 0 ==> Step(s1, Undo) == s1 && s1.text != s.text && (TriesUndo(h) ==> (Strays(h) <==> c.o > 0)))
      && (TriesUndo(h) && (h.done == 1 || h.ops[h.done - 2].group != h.ops[h.done - 1].group)
          ==> (Step(s1, Undo).text == s.text <==> c.l >= 1))
  {
    hide FitsText, Do, TakeBackTo, TakeBack, NewlineFree, Joins, Numbered, LogFits, TextAfter;
    FitsPlace(s.text, c);
    StepKeepsFaithful(base, s, Edit(c, time));
    var s1 := Step(s, Edit(c, time));
    var h := s1.history;
    if c.l == 0 {
      InsertedOnHeader(s.text, c);
    } else if TriesUndo(h) {
      RecordFits(base, s, c, time);
      if h.done == 1 || h.ops[h.done - 2].group != h.ops[h.done - 1].group {
        OneTakenBack(s.text, h.ops, c);
      }
    }
  }

  lemma InsertedOnHeader(t: Lines, c: Change)
    requires NewlineFree(t) && FitsText(t, c) && Stays(c)
    ensures Do(t, c) != t
  {
    HeaderGrows(t, c.text);
  }

  lemma OneTakenBack(t: Lines, ops: seq<Op>, c: Change)
    requires NewlineFree(t) && FitsText(t, c) && c.l >= 1 && ops != [] && ops[|ops| - 1].change == c
    ensures TakeBackTo(Do(t, c), ops, |ops|, |ops| - 1) == t
  {
    hide FitsText, Do, TakeBack, NewlineFree;
    ChangeRoundTrip(t, c);
  }

  /** Undo and redo are inverse on text and log position alike. */
  lemma UndoRedoRestoresText(base: Lines, s: Session)
    requires NewlineFree(base) && Faithful(base, s)
    ensures CanUndo(s.history) ==> HistoryOk(Step(s, Undo).history) && Step(Step(s, Undo), Redo) == s
    ensures CanRedo(s.history) ==> HistoryOk(Step(s, Redo).history) && Step(Step(s, Redo), Undo) == s
  {
    hide Numbered, TakeBackTo, MakeAgain, TextAfter, NewlineFree, LogFits;
    var h := s.history;
    UndoKeepsOk(h);
    if CanUndo(h) {
      UndoRedo(h);
      TakenBack(base, h.ops, h.done, UndoStep(h).done);
      MadeAgain(base, h.ops, UndoStep(h).done, h.done);
    }
    if CanRedo(h) {
      RedoUndo(h);
      LogShorter(base, h.ops, |h.ops|, RedoStep(h).done);
      MadeAgain(base, h.ops, h.done, RedoStep(h).done);
      TakenBack(base, h.ops, RedoStep(h).done, h.done);
    }
  }
}
