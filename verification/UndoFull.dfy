/** When the ring of operations is full, and that runs of edits get there. */
module UndoFull {
  import opened Bytes
  import opened Text
  import opened TextEdits
  import opened UndoLog
  import opened UndoHistory

  /** The capacity of a ring that holds `n` operations and was never emptied. */
  function CapacityFor(n: nat): nat {
    if n <= 100 then 100
    else if n <= 200 then 200
    else if n <= 400 then 400
    else if n <= 800 then 800
    else if n <= 1600 then 1600
    else if n <= 3200 then 3200
    else if n <= 6400 then 6400
    else MAX_CAPACITY
  }

  function Logged(n: nat): nat {
    if n < MAX_CAPACITY then n else MAX_CAPACITY
  }

  /** The numbers of edits after which no room is left. */
  predicate Fills(n: nat) {
    n in {100, 200, 400, 800, 1600, 3200, 6400} || n >= MAX_CAPACITY
  }

  /** The history after `n` edits and nothing else: all logged until the ring is at its limit. */
  predicate Filling(h: History, n: nat) {
    h.done == |h.ops| == Logged(n) && h.cap == CapacityFor(|h.ops|)
  }

  /** The newest operation is the change `c`, unless the ring is at its limit. */
  predicate Newest(h: History, c: Change) {
    |h.ops| < MAX_CAPACITY ==> h.ops != [] && h.ops[|h.ops| - 1].change == c
  }

  lemma RecordFills(h: History, n: nat, c: Change, time: int)
    requires Filling(h, n)
    ensures h.done <= |h.ops| && Filling(Record(h, c, time), n + 1) && Newest(Record(h, c, time), c)
  {
    hide Joins;
  }

  lemma {:induction false} EditsFill(s: Session, cmds: seq<Command>, n: nat)
    requires HistoryOk(s.history) && Runs(s, cmds) && AllEdits(cmds) && Filling(s.history, n)
    ensures Filling(After(s, cmds).history, n + |cmds|)
    ensures cmds != [] ==> Newest(After(s, cmds).history, cmds[|cmds| - 1].change)
    decreases |cmds|
  {
    if cmds != [] {
      hide FitsText, Do, Record, HistoryOk, TakeBackTo, MakeAgain, Filling, Newest;
      RecordFills(s.history, n, cmds[0].change, cmds[0].time);
      EditsFill(Step(s, cmds[0]), cmds[1..], n + 1);
    }
  }

  /** After a run of edits alone nothing can be undone iff there was none, or as many as fill the
      ring, or the last one was made on the header line; and from its limit on the ring is full for
      good. */
  lemma UndoAfterEdits(base: Lines, cmds: seq<Command>)
    requires HistoryOk(EmptyHistory) && Runs(Session(base, EmptyHistory), cmds) && AllEdits(cmds)
    ensures var h := After(Session(base, EmptyHistory), cmds).history;
      && h.done <= |h.ops|
      && (CanUndo(h) <==> |cmds| > 0 && !Fills(|cmds|) && !Stays(cmds[|cmds| - 1].change))
      && (h.done > 0 <==> |cmds| > 0)
      && (Stuck(h) <==> |cmds| >= MAX_CAPACITY)
  {
    hide Runs, After, HistoryOk;
    EditsFill(Session(base, EmptyHistory), cmds, 0);
  }

  /** `n` single characters typed at the start of the first line. */
  function Insertions(n: nat, c: Byte, time: int): (cmds: seq<Command>)
    ensures |cmds| == n && forall i :: 0 <= i < n ==> cmds[i] == Edit(Change(Insertion, 1, 0, [c]), time)
  {
    seq(n, i => Edit(Change(Insertion, 1, 0, [c]), time))
  }

  lemma {:induction false} InsertionsRun(s: Session, n: nat, c: Byte, time: int)
    requires HistoryOk(s.history) && s.text != [] && c != 0
    ensures Runs(s, Insertions(n, c, time))
    decreases n
  {
    if n > 0 {
      hide Numbered, Joins, Record;
      var cmds, change := Insertions(n, c, time), Change(Insertion, 1, 0, [c]);
      assert FitsText(s.text, change);
      RecordKeepsOk(s.history, change, time);
      TypeTextFlat(s.text, Pos(0, 0), [c]);
      InsertionsRun(Step(s, cmds[0]), n - 1, c, time);
      assert cmds[1..] == Insertions(n - 1, c, time);
    }
  }

  /** In every buffer with a line, typing one character `n` times leaves a history of which undo
      changes nothing iff `n` fills the ring: after 100, 200, 400, ... characters, and after 10000
      of them for good. */
  lemma TypingFillsRing(base: Lines, n: nat, c: Byte, time: int)
    requires base != [] && c != 0 && n > 0
    ensures HistoryOk(EmptyHistory) && Runs(Session(base, EmptyHistory), Insertions(n, c, time))
    ensures var s := After(Session(base, EmptyHistory), Insertions(n, c, time));
      && HistoryOk(s.history) && s.history.done > 0
      && (Step(s, Undo) == s <==> Fills(n))
      && (Stuck(s.history) <==> n >= MAX_CAPACITY)
      && (Stuck(s.history) ==> Step(s, Redo) == s)
  {
    hide Runs, After, FitsText, Record;
    var start, cmds := Session(base, EmptyHistory), Insertions(n, c, time);
    InsertionsRun(start, n, c, time);
    UndoAfterEdits(base, cmds);
    AfterIsOk(start, cmds);
  }

  lemma {:induction false} AfterIsOk(s: Session, cmds: seq<Command>)
    requires HistoryOk(s.history) && Runs(s, cmds)
    ensures HistoryOk(After(s, cmds).history)
    decreases |cmds|
  {
    if cmds != [] {
      AfterIsOk(Step(s, cmds[0]), cmds[1..]);
    }
  }
}
