/** The ring of operations of undo.c, acting on the lines of the buffer. */
module UndoStack {
  import opened Bytes
  import opened Text
  import opened TextEdits
  import opened LineEditor
  import LineMemory
  import LineSurgery
  import opened UndoLog
  import opened UndoHistory

  const EmptyOp := Op(Change(Insertion, 0, 0, []), 0, 0, 0)

  // ---- Applying one logged change to the buffer ----

  /** What `ldelete` leaves, whether or not the kill buffer takes the bytes. */
  lemma DeleteIsDeleteText(ed: Ed, n: nat, kflag: bool, kill: seq<Byte>)
    requires OkEd(ed) && OnLine(ed.text, Dot(ed)) && Linear(ed.text, Dot(ed)) + n < |Flat(ed.text)|
    requires NewlineFree(ed.text) && |kill| + (if kflag then n else 0) <= KILL_MAX
    ensures Succeeded(Delete(ed, n, kflag, kill))
    ensures Delete(ed, n, kflag, kill).ed.text == DeleteText(ed.text, Dot(ed), n)
    ensures Dot(Delete(ed, n, kflag, kill).ed) == Dot(ed) && (!kflag ==> Delete(ed, n, kflag, kill).kill == kill)
  {
    DeleteRemoves(ed, n, kflag, kill);
    DeleteKeepsLines(ed, n, kflag, kill);
    DeleteTextFlat(ed.text, Dot(ed), n);
    RemovedText(ed, n, Delete(ed, n, kflag, kill).ed);
    FlatInjective(Delete(ed, n, kflag, kill).ed.text, DeleteText(ed.text, Dot(ed), n));
  }

  /** After a change that fits, its place is still there, with the inserted bytes right behind it. */
  lemma ReadyToTakeBack(t: Lines, c: Change)
    requires NewlineFree(t) && FitsText(t, c) && c.l >= 1
    ensures OkPos(t, Place(c)) && 0 !in c.text && (c.kind == Deletion_ ==> c.text != [])
    ensures var t' := Do(t, c);
      && NewlineFree(t') && OnLine(t', Place(c))
      && (c.kind == Insertion ==> Linear(t', Place(c)) + |c.text| < |Flat(t')|)
  {
    ChangeRoundTrip(t, c);
    if c.kind == Insertion {
      LinearBound(t, Place(c));
      TypeTextFlat(t, Place(c), c.text);
      TypedPlace(t, Place(c), c.text);
    }
  }

  /** Dot has come to the place of a change, and has gone on behind its bytes iff `behind`. */
  ghost predicate DotAt(ed: Editor, c: Change, behind: bool)
    reads ed
  {
    ed.Held() && if c.l == 0 then ed.wins[ed.cur].dot == LineSurgery.Place.Place(ed.linep, c.o)
    else
      && ed.Valid() && OkPos(ed.Abs().text, Place(c)) && OkPos(ed.Abs().text, Dot(ed.Abs()))
      && Linear(ed.Abs().text, Dot(ed.Abs())) == Linear(ed.Abs().text, Place(c)) + (if behind then |c.text| else 0)
  }

  lemma DotArrived(ed: Editor, c: Change, behind: bool)
    requires ed.Valid() && c.l >= 1 && OkPos(ed.Abs().text, Place(c)) && OkPos(ed.Abs().text, Dot(ed.Abs()))
    requires Linear(ed.Abs().text, Dot(ed.Abs())) == Linear(ed.Abs().text, Place(c)) + (if behind then |c.text| else 0)
    ensures DotAt(ed, c, behind)
  {
    HeldIsValid(ed);
  }

  /** Delete `n` bytes at a recorded place. */
  method DeleteAt(ed: Editor, c: Change) returns (ok: bool)
    requires ed.Held() && NewlineFree(ed.Text())
    requires c.l >= 1 && OnLine(ed.Text(), Place(c)) && Linear(ed.Text(), Place(c)) + |c.text| < |Flat(ed.Text())|
    modifies ed
    ensures ed.Valid() && ed.Held() && ok == !ed.view
    ensures ed.Text() == if ok then DeleteText(old(ed.Text()), Place(c), |c.text|) else old(ed.Text())
    ensures DotAt(ed, c, false) && ed.kill == old(ed.kill) && ed.cur == old(ed.cur)
  {
    hide Flat, Delete, DeleteText, LineSurgery.Sound, LineSurgery.AbsOf, LineMemory.Ring, Editor.Abs, Editor.Text;
    ed.GotoPlace(c.l, c.o);
    HeldIsValid(ed);
    DeleteIsDeleteText(ed.Abs(), |c.text|, false, ed.kill);
    var logs;
    DeleteTextFlat(ed.Abs().text, Place(c), |c.text|);
    ok, logs := ed.LDelete(|c.text|, false);
    HeldIsValid(ed);
    DotArrived(ed, c, false);
  }

  /** Insert the bytes of a recorded change at its place. */
  method InsertAt(ed: Editor, c: Change) returns (ok: bool)
    requires ed.Held() && c.l >= 1 && OnLine(ed.Text(), Place(c)) && 0 !in c.text
    modifies ed
    ensures ed.Valid() && ed.Held() && ok == (!ed.view || c.text == []) && OkPos(old(ed.Text()), Place(c))
    ensures ed.Text() == if ok then TypeText(old(ed.Text()), Place(c), c.text).0 else old(ed.Text())
    ensures DotAt(ed, c, !ed.view) && ed.kill == old(ed.kill) && ed.cur == old(ed.cur)
  {
    hide Flat, Linear, LineSurgery.Sound, LineSurgery.AbsOf, LineMemory.Ring, Editor.Abs, Editor.Text;
    ed.GotoPlace(c.l, c.o);
    HeldIsValid(ed);
    TypeTextFlat(ed.Abs().text, Place(c), c.text);
    TypedPlace(ed.Abs().text, Place(c), c.text);
    ok := ed.LInsertStr(c.text);
    HeldIsValid(ed);
    DotArrived(ed, c, !ed.view);
  }

  /** A change logged on the header line, to be taken back or made again: dot goes to its offset there
      and nothing else changes. Only where nothing is to be deleted or inserted is that a success. */
  method AtHeader(ed: Editor, c: Change, deletes: bool) returns (ok: bool)
    requires ed.Held() && c.l == 0 && (deletes || c.text == [])
    modifies ed
    ensures ed.Held() && ed.Text() == old(ed.Text()) && ok == (c.text == [] && (!ed.view || !deletes))
    ensures (ed.Valid() <==> !OffText(c)) && DotAt(ed, c, true) && DotAt(ed, c, false)
    ensures ed.kill == old(ed.kill) && ed.cur == old(ed.cur)
  {
    hide LineSurgery.Sound, LineSurgery.AbsOf, LineMemory.Ring, Editor.Abs, Editor.Text;
    ed.GotoPlace(0, c.o);
    if deletes {
      var logs;
      ok, logs := ed.LDelete(|c.text|, false);
    } else {
      ok := ed.LInsertStr(c.text);
    }
  }

  /** `gotoline`, `w_doto`, then `ldelete` or `linsert_str`: take one change back. In a read-only
      buffer, and for an insertion on the header line, that fails and leaves the text. */
  method TakeBackChange(ed: Editor, c: Change, ghost t: Lines) returns (ok: bool)
    requires ed.Held() && NewlineFree(t) && FitsText(t, c) && ed.Text() == Do(t, c)
    modifies ed
    ensures ed.Held() && (!ed.view || !Idle(c) ==> ok == (!ed.view && !Stays(c)))
    ensures ed.Text() == if ok then t else Do(t, c)
    ensures (ed.Valid() <==> !OffText(c)) && DotAt(ed, c, c.kind == Deletion_ && !ed.view)
    ensures ed.kill == old(ed.kill) && ed.cur == old(ed.cur)
  {
    hide DotAt, Flat, Delete, DeleteText, TypeText, FitsText, Do, NewlineFree, LineSurgery.Sound, LineSurgery.AbsOf, LineMemory.Ring, Editor.Abs, Editor.Text;
    FitsPlace(t, c);
    if c.l == 0 {
      if Idle(c) {
        ChangeRoundTrip(t, c);
      }
      ok := AtHeader(ed, c, c.kind == Insertion);
    } else {
      ReadyToTakeBack(t, c);
      ChangeRoundTrip(t, c);
      if c.kind == Insertion {
        ok := DeleteAt(ed, c);
      } else {
        ok := InsertAt(ed, c);
      }
    }
  }

  /** The same for redo: make one change again. */
  method MakeChangeAgain(ed: Editor, c: Change) returns (ok: bool)
    requires ed.Held() && NewlineFree(ed.Text()) && FitsText(ed.Text(), c) && !Stays(c)
    modifies ed
    ensures ed.Held() && (ok <==> !ed.view || (c.kind == Insertion && c.text == []))
    ensures ed.Text() == if ok then Do(old(ed.Text()), c) else old(ed.Text())
    ensures (ed.Valid() <==> !OffText(c)) && DotAt(ed, c, c.kind == Insertion && !ed.view)
    ensures ed.kill == old(ed.kill) && ed.cur == old(ed.cur)
  {
    hide DotAt, Flat, Delete, DeleteText, Editor.Valid, Editor.Held, Editor.Abs, Editor.Text;
    if c.l == 0 {
      ChangeRoundTrip(ed.Text(), c);
      ok := AtHeader(ed, c, true);
    } else if c.kind == Insertion {
      ok := InsertAt(ed, c);
    } else {
      ok := DeleteAt(ed, c);
    }
  }

  /** Where taking `c` back, or making it again, leaves dot in a buffer that can be written: on the text
      or off it, and at which place. */
  ghost predicate UndoneTo(ed: Editor, c: Change)
    reads ed
  {
    (ed.Valid() <==> !OffText(c)) && DotAt(ed, c, c.kind == Deletion_)
  }

  ghost predicate RedoneTo(ed: Editor, c: Change)
    reads ed
  {
    (ed.Valid() <==> !OffText(c)) && DotAt(ed, c, c.kind == Insertion)
  }

  /** The last change undo goes to, and the last one redo makes. */
  function LastUndone(h: History): Change
    requires TriesUndo(h) && h.done <= |h.ops|
  {
    h.ops[LastTried(h.ops, h.done)].change
  }

  function LastRedone(h: History): Change
    requires CanRedo(h)
  {
    h.ops[GroupEnd(h.ops, h.done) - 1].change
  }

  lemma UndoneToIs(ed: Editor, c: Change)
    requires !ed.view && (ed.Valid() <==> !OffText(c)) && DotAt(ed, c, c.kind == Deletion_ && !ed.view)
    ensures UndoneTo(ed, c)
  {
  }

  lemma RedoneToIs(ed: Editor, c: Change)
    requires !ed.view && (ed.Valid() <==> !OffText(c)) && DotAt(ed, c, c.kind == Insertion && !ed.view)
    ensures RedoneTo(ed, c)
  {
  }

  /** Everything the group loops need to know between two turns: the lines hold what the first `n`
      operations of the log make of `base`. */
  ghost predicate Holds(ed: Editor, base: Lines, ops: seq<Op>, n: nat)
    reads ed
  {
    ed.Held() && n <= |ops| && LogFits(base, ops, n) && ed.Text() == TextAfter(base, ops, n)
  }

  // ---- The ring ----

  /** `struct atomic_undo_stack`. */
  class Stack {
    var operations: array<Op>
    var capacity: nat
    var head: nat
    var tail: nat
    var undoPtr: int
    var count: nat
    var version: nat
    var groupForced: bool
    var resizeFailed: bool
    var currentGroup: nat

    /** The shape every reachable ring has: the oldest operation is in slot 0, the next one goes
        behind the newest, and a full ring has nothing undone. */
    ghost predicate Shaped()
      reads this, operations
    {
      && operations.Length == capacity >= INITIAL_CAPACITY && count <= capacity
      && tail == 0 && head == (if count == capacity then 0 else count)
      && (undoPtr == -1 <==> count == 0)
      && (count > 0 ==> 0 <= undoPtr < count || (undoPtr == capacity - 1 && count < capacity))
      && (count == capacity ==> undoPtr == capacity - 1)
      && LastSlotUnused()
    }

    /** The last slot is written only when the ring gets full: until then its version is 0. */
    ghost predicate LastSlotUnused()
      reads this, operations
    {
      operations.Length == capacity > 0 && (count < capacity ==> operations[capacity - 1].version == 0)
    }

    /** How many operations are not undone; with none left `undo_ptr` has wrapped to the last slot. */
    ghost function Done(): nat
      reads this, operations
      requires Shaped()
    {
      if count == 0 || undoPtr >= count then 0 else undoPtr + 1
    }

    ghost function Hist(): History
      reads this, operations
      requires Shaped()
    {
      History(operations[..count], Done(), capacity, version, currentGroup, groupForced)
    }

    ghost predicate Valid()
      reads this, operations
    {
      Shaped() && HistoryOk(Hist()) && (resizeFailed ==> Stuck(Hist()))
    }

    /** `undo_stack_create`. */
    constructor ()
      ensures Valid() && Hist() == EmptyHistory && fresh(operations)
    {
      operations := new Op[INITIAL_CAPACITY](_ => EmptyOp);
      capacity, head, tail, undoPtr, count := INITIAL_CAPACITY, 0, 0, -1, 0;
      version, currentGroup, groupForced, resizeFailed := 1, 1, false, false;
    }

    /** The copy loop of the resize, from `tail` around the ring. */
    method CopyOperations(newCapacity: nat) returns (a: array<Op>)
      requires Shaped() && count == capacity <= newCapacity
      ensures fresh(a) && a.Length == newCapacity && a[..count] == operations[..count]
      ensures count < newCapacity ==> a[newCapacity - 1].version == 0
    {
      a := new Op[newCapacity](_ => EmptyOp);
      var current := tail;
      for i := 0 to count
        invariant count < newCapacity ==> a[newCapacity - 1].version == 0
        invariant current == if i == capacity then 0 else i
        invariant forall j :: 0 <= j < i ==> a[j] == operations[j]
      {
        a[i] := operations[current];
        WrapUp(current, capacity);
        current := (current + 1) % capacity;
      }
    }

    /** `undo_stack_resize_if_needed`: the reset of `undo_ptr` loses and revives nothing. */
    method ResizeIfNeeded() returns (ok: bool)
      requires Valid()
      modifies this
      ensures Valid() && (operations == old(operations) || fresh(operations)) && ok == !Stuck(old(Hist()))
      ensures Hist() == if ok then old(Hist()).(cap := GrownCapacity(old(Hist()))) else old(Hist())
      ensures ok ==> count < capacity
    {
      hide Numbered;
      if count < capacity {
        return true;
      }
      if resizeFailed {
        return false;
      }
      if capacity >= MAX_CAPACITY {
        resizeFailed := true;
        return false;
      }
      var newCapacity := capacity * 2;
      if newCapacity > MAX_CAPACITY {
        newCapacity := MAX_CAPACITY;
      }
      operations := CopyOperations(newCapacity);
      capacity := newCapacity;
      head, tail, undoPtr := count, 0, count - 1;
      return true;
    }

    /** Forget what was undone: its slots are given back and `head` moves to the undo position. */
    method DropUndone()
      requires Shaped() && count < capacity
      modifies this`head, this`count
      ensures count == head == old(Done()) && operations[..count] == old(operations[..Done()])
    {
      WrapDown(head, capacity);
      WrapUp(undoPtr, capacity);
      if undoPtr != (head - 1 + capacity) % capacity {
        var current := (undoPtr + 1) % capacity;
        ghost var done := Done();
        while current != head
          invariant done <= current <= head == old(count) && count == old(count) - (current - done)
          decreases head - current
        {
          count := count - 1;
          WrapUp(current, capacity);
          current := (current + 1) % capacity;
        }
        head := (undoPtr + 1) % capacity;
      }
    }

    /** Put the new operation at `head`; the branch that would overwrite the oldest one is never taken. */
    method Push(op: Op)
      requires operations.Length == capacity >= INITIAL_CAPACITY && count < capacity && head == count && tail == 0
      requires LastSlotUnused()
      modifies this`head, this`undoPtr, this`count, operations
      ensures Shaped() && count == old(count) + 1 && Done() == count
      ensures operations[..count] == old(operations[..count]) + [op]
    {
      operations[head] := op;
      undoPtr := head;
      WrapUp(head, capacity);
      head := (head + 1) % capacity;
      if count < capacity {
        count := count + 1;
      } else {
        assert false;
      }
      assert operations[..count] == old(operations[..count]) + [op];
    }

    /** The operation before `head`. */
    method Previous() returns (prev: Op)
      requires operations.Length == capacity && 0 < count == head < capacity
      ensures prev == operations[count - 1] && prev == operations[..count][count - 1]
    {
      WrapDown(head, capacity);
      prev := operations[(head - 1 + capacity) % capacity];
    }

    /** The ring holds what is left of history `h` once room is made and what was undone is dropped. */
    ghost predicate ReadyFor(h: History)
      reads this, operations
    {
      && h.done <= |h.ops| && !Stuck(h) && |h.ops| <= h.cap <= MAX_CAPACITY
      && operations.Length == capacity == GrownCapacity(h) && INITIAL_CAPACITY <= capacity
      && count == head == h.done < capacity && tail == 0 && LastSlotUnused()
      && operations[..count] == h.ops[..h.done]
      && version == h.version && currentGroup == h.group && groupForced == h.forced
    }

    /** Stamp and group the operation and log it; `keep` says that it joins the one before it. */
    method Append(c: Change, time: int, keep: bool, ghost h: History)
      requires ReadyFor(h) && (keep <==> h.done > 0 && Joins(h.ops[h.done - 1], c, time))
      modifies this`head, this`undoPtr, this`count, this`version, this`currentGroup, operations
      ensures Shaped() && Hist() == Record(h, c, time)
    {
      hide Joins;
      RecordIs(h, c, time, keep);
      hide Record;
      var stamp := version;
      version := version + 1;
      var group := currentGroup;
      if !groupForced {
        if keep {
          var prev := Previous();
          group := prev.group;
        } else {
          currentGroup := currentGroup + 1;
          group := currentGroup;
        }
      }
      Push(Op(c, stamp, time, group));
    }

    /** What both recording functions begin with: make room, and drop what was undone. */
    method MakeRoom() returns (ok: bool)
      requires Valid()
      modifies this
      ensures (operations == old(operations) || fresh(operations)) && ok == !Stuck(old(Hist()))
      ensures if ok then ReadyFor(old(Hist())) && !resizeFailed else Valid() && Hist() == old(Hist())
    {
      hide Numbered;
      ok := ResizeIfNeeded();
      if !ok {
        resizeFailed := true;
        return;
      }
      ghost var ops := operations[..count];
      DropUndone();
      assert operations[..count] == ops[..count];
    }

    /** The grouping test of `undo_record_insert`. */
    static method JoinsInsertion(prev: Op, l: nat, o: nat, text: seq<Byte>, time: int) returns (keep: bool)
      ensures keep == Joins(prev, Change(Insertion, l, o, text), time)
    {
      keep := false;
      if prev.change.kind == Insertion && prev.change.l == l && prev.change.o + |prev.change.text| == o {
        keep := 0 <= time - prev.time < 400000000;
        if |text| == 1 && |prev.change.text| == 1 {
          if IsWordByte(text[0]) && !IsWordByte(prev.change.text[0]) {
            keep := false;
          }
        }
      }
    }

    /** The grouping test of `undo_record_delete`. */
    static method JoinsDeletion(prev: Op, l: nat, o: nat, text: seq<Byte>, time: int) returns (keep: bool)
      ensures keep == Joins(prev, Change(Deletion_, l, o, text), time)
    {
      var timeOk := 0 <= time - prev.time < 400000000;
      var sameOffset := prev.change.o == o;
      var backspaceAdjacent := prev.change.o == o + |text|;
      keep := false;
      if prev.change.kind == Deletion_ && prev.change.l == l && timeOk && (sameOffset || backspaceAdjacent) {
        keep := true;
        if |text| == 1 && |prev.change.text| == 1 {
          if IsWordByte(text[0]) && !IsWordByte(prev.change.text[0]) {
            keep := false;
          }
        }
      }
    }

    /** `undo_record_insert`. */
    method RecordInsert(l: nat, o: nat, text: seq<Byte>, time: int)
      requires Valid()
      modifies this, operations
      ensures Valid() && (operations == old(operations) || fresh(operations))
      ensures Hist() == Record(old(Hist()), Change(Insertion, l, o, text), time)
    {
      hide HistoryOk, Joins, Record;
      ghost var h := Hist();
      var c := Change(Insertion, l, o, text);
      RecordKeepsOk(h, c, time);
      RecordStuck(h, c, time);
      var ok := MakeRoom();
      if !ok {
        return;
      }
      var keep := false;
      if count > 0 {
        var prev := Previous();
        keep := JoinsInsertion(prev, l, o, text, time);
      }
      Append(c, time, keep, h);
    }

    /** `undo_record_delete`. */
    method RecordDelete(l: nat, o: nat, text: seq<Byte>, time: int)
      requires Valid()
      modifies this, operations
      ensures Valid() && (operations == old(operations) || fresh(operations))
      ensures Hist() == Record(old(Hist()), Change(Deletion_, l, o, text), time)
    {
      hide HistoryOk, Joins, Record;
      ghost var h := Hist();
      var c := Change(Deletion_, l, o, text);
      RecordKeepsOk(h, c, time);
      RecordStuck(h, c, time);
      var ok := MakeRoom();
      if !ok {
        return;
      }
      var keep := false;
      if count > 0 {
        var prev := Previous();
        keep := JoinsDeletion(prev, l, o, text, time);
      }
      Append(c, time, keep, h);
    }

    /** Slot `k` of the ring holds operation `k` of the log. */
    ghost predicate InSlot(k: nat, ops: seq<Op>)
      reads this, operations
    {
      k < count <= operations.Length && ops == operations[..count]
    }

    /** Take back the change in slot `k`, the last of those made. */
    method TakeBackAt(ed: Editor, k: nat, ghost base: Lines, ghost ops: seq<Op>) returns (ok: bool)
      requires InSlot(k, ops) && NewlineFree(base) && Holds(ed, base, ops, k + 1)
      modifies ed
      ensures !ed.view || !Idle(ops[k].change) ==> ok == (!ed.view && !Stays(ops[k].change))
      ensures Holds(ed, base, ops, if ok then k else k + 1)
      ensures (ed.Valid() <==> !OffText(ops[k].change)) && DotAt(ed, ops[k].change, ops[k].change.kind == Deletion_ && !ed.view)
      ensures ed.kill == old(ed.kill) && ed.cur == old(ed.cur)
    {
      hide DotAt, TextAfter, LogFits, FitsText, Do, NewlineFree, Editor.Valid, Editor.Held, Editor.Abs, Editor.Text, Stays, Idle, OffText;
      TakenBackOne(base, ops, k + 1);
      ok := TakeBackChange(ed, operations[k].change, TextAfter(base, ops, k));
    }

    /** Make the change in slot `k` again, the first of those undone. */
    method MakeAgainAt(ed: Editor, k: nat, ghost base: Lines, ghost ops: seq<Op>) returns (ok: bool)
      requires InSlot(k, ops) && !Stays(ops[k].change) && NewlineFree(base)
      requires Holds(ed, base, ops, k) && LogFits(base, ops, k + 1)
      modifies ed
      ensures ok <==> !ed.view || (ops[k].change.kind == Insertion && ops[k].change.text == [])
      ensures Holds(ed, base, ops, if ok then k + 1 else k)
      ensures (ed.Valid() <==> !OffText(ops[k].change)) && DotAt(ed, ops[k].change, ops[k].change.kind == Insertion && !ed.view)
      ensures ed.kill == old(ed.kill) && ed.cur == old(ed.cur)
    {
      hide DotAt, TextAfter, LogFits, FitsText, Do, NewlineFree, Editor.Valid, Editor.Held, Editor.Abs, Editor.Text, Stays, Idle, OffText;
      MadeOne(base, ops, k);
      ok := MakeChangeAgain(ed, operations[k].change);
    }

    /** The operation at the undo position can be, or was, taken back. */
    ghost predicate GroupOpen(ops: seq<Op>)
      reads this, operations
    {
      Shaped() && 0 < Done() && count < capacity && ops == operations[..count] && !Stays(ops[Done() - 1].change)
    }

    /** Go on taking back the changes of the group of slot `undoPtr`, which was taken back, newest
        first, until one is not; `cursor` is the last one taken back. */
    method TakeBackGroup(ed: Editor, ghost base: Lines, ghost ops: seq<Op>) returns (cursor: nat)
      requires GroupOpen(ops) && !ed.view && NewlineFree(base) && Holds(ed, base, ops, Done() - 1)
      requires UndoneTo(ed, ops[Done() - 1].change)
      modifies ed
      ensures cursor == UndoStart(ops, Done()) && Holds(ed, base, ops, cursor)
      ensures UndoneTo(ed, ops[LastTried(ops, Done())].change) && ed.kill == old(ed.kill) && ed.cur == old(ed.cur)
    {
      hide UndoneTo, DotAt, Holds, NewlineFree, UndoStart, Editor.Valid, Stays, Idle, OffText;
      ghost var done := Done();
      cursor := undoPtr;
      ghost var tried: nat := cursor;
      var gid := operations[cursor].group;
      WrapDown(tail, capacity);
      while true
        invariant 0 <= cursor < done && Holds(ed, base, ops, cursor) && tried == cursor
        invariant UndoneTo(ed, ops[tried].change) && ed.kill == old(ed.kill) && ed.cur == old(ed.cur)
        invariant forall i :: cursor <= i < done ==> ops[i].group == gid && !Stays(ops[i].change)
        decreases cursor
      {
        WrapDown(cursor, capacity);
        var prev := (cursor - 1 + capacity) % capacity;
        if prev == (tail - 1 + capacity) % capacity {
          break;
        }
        if operations[prev].group != gid {
          break;
        }
        tried := prev;
        StaysOrIdle(ops[prev].change);
        var ok := TakeBackAt(ed, prev, base, ops);
        UndoneToIs(ed, ops[prev].change);
        if !ok {
          break;
        }
        cursor := prev;
      }
      UndoStartIs(ops, cursor, done);
    }

    /** Take back the change in slot `undoPtr` and, if that succeeds, the rest of its group. */
    method TakeBackLast(ed: Editor, ghost base: Lines, ghost ops: seq<Op>) returns (ok: bool, cursor: nat)
      requires Shaped() && 0 < Done() && count < capacity && ops == operations[..count]
      requires NewlineFree(base) && Holds(ed, base, ops, Done()) && (ed.view ==> !Idle(ops[Done() - 1].change))
      modifies ed
      ensures ok == (!ed.view && !Stays(ops[Done() - 1].change)) && (ok ==> cursor == UndoStart(ops, Done()))
      ensures Holds(ed, base, ops, if ok then UndoStart(ops, Done()) else Done())
      ensures !ed.view ==> UndoneTo(ed, ops[LastTried(ops, Done())].change)
      ensures ed.kill == old(ed.kill) && ed.cur == old(ed.cur)
    {
      hide UndoneTo, DotAt, Holds, NewlineFree, UndoStart, Editor.Valid, Stays, Idle, OffText, LastTried;
      cursor := undoPtr;
      ok := TakeBackAt(ed, undoPtr, base, ops);
      if !ed.view {
        UndoneToIs(ed, ops[undoPtr].change);
      }
      if ok {
        cursor := TakeBackGroup(ed, base, ops);
      } else {
        StopsAtOnce(ops, Done());
      }
    }

    /** `undo_operation`: take the changes of the last group back, as far as no insertion on the
        header line is among them. In a read-only buffer it fails. It leaves dot off the text iff it
        went to the header line last and the offset logged there is not 0. */
    method UndoOperation(ed: Editor, ghost base: Lines) returns (ok: bool)
      requires Valid() && ed.Held() && NewlineFree(base)
      requires Faithful(base, Session(ed.Text(), Hist()))
      requires ed.view && TriesUndo(Hist()) ==> !Idle(Hist().ops[Hist().done - 1].change)
      modifies this`undoPtr, ed
      ensures Valid() && ed.Held() && ok == (!ed.view && CanUndo(old(Hist())))
      ensures Session(ed.Text(), Hist()) ==
        if ed.view then old(Session(ed.Text(), Hist())) else Step(old(Session(ed.Text(), Hist())), Undo)
      ensures Faithful(base, Session(ed.Text(), Hist()))
      // dot goes to the last change tried, and behind the bytes if they were put in again
      ensures TriesUndo(old(Hist())) && !ed.view ==> UndoneTo(ed, LastUndone(old(Hist())))
      ensures ed.kill == old(ed.kill) && ed.cur == old(ed.cur)
      ensures !TriesUndo(old(Hist())) ==> unchanged(ed)
    {
      hide UndoneTo, DotAt, HistoryOk, TextAfter, LogFits, NewlineFree, UndoStart, Step, Faithful, Editor.Valid, Editor.Held, Editor.Abs, Editor.Text, Stays, Idle, OffText, LastTried;
      ghost var s := Session(ed.Text(), Hist());
      UndoIs(base, s);
      WrapDown(tail, capacity);
      if undoPtr == -1 || undoPtr == (tail - 1 + capacity) % capacity {
        return false;
      }
      var cursor;
      ok, cursor := TakeBackLast(ed, base, operations[..count]);
      if ok {
        StepBack(cursor);
      }
    }

    /** The undo position goes before slot `cursor`. */
    method StepBack(cursor: nat)
      requires Shaped() && cursor <= count < capacity && count > 0
      modifies this`undoPtr
      ensures Shaped() && Hist() == old(Hist()).(done := cursor)
    {
      WrapDown(cursor, capacity);
      undoPtr := (cursor - 1 + capacity) % capacity;
    }

    /** Go on making the changes of the group of slot `redoPtr`, which was made, again, oldest first;
        `cursor` is the last one made. */
    method MakeGroupAgain(ed: Editor, redoPtr: nat, ghost base: Lines, ghost ops: seq<Op>) returns (cursor: nat)
      requires RedoOpen(redoPtr, ops) && !ed.view && NewlineFree(base) && LogFits(base, ops, |ops|)
      requires Holds(ed, base, ops, redoPtr + 1)
      requires RedoneTo(ed, ops[redoPtr].change)
      modifies ed
      ensures cursor + 1 == GroupEnd(ops, redoPtr) && Holds(ed, base, ops, cursor + 1)
      ensures RedoneTo(ed, ops[cursor].change) && ed.kill == old(ed.kill) && ed.cur == old(ed.cur)
    {
      hide RedoneTo, DotAt, Holds, TextAfter, LogFits, NewlineFree, GroupEnd, Editor.Valid, Stays, Idle, OffText;
      cursor := redoPtr;
      var gid := operations[cursor].group;
      while true
        invariant redoPtr <= cursor < count && Holds(ed, base, ops, cursor + 1)
        invariant RedoneTo(ed, ops[cursor].change) && ed.kill == old(ed.kill) && ed.cur == old(ed.cur)
        invariant forall i :: redoPtr <= i <= cursor ==> ops[i].group == gid
        decreases count - cursor
      {
        WrapUp(cursor, capacity);
        var next := (cursor + 1) % capacity;
        if next == head {
          break;
        }
        if operations[next].group != gid {
          break;
        }
        LogShorter(base, ops, |ops|, next + 1);
        var ok := MakeAgainAt(ed, next, base, ops);
        RedoneToIs(ed, ops[next].change);
        if !ok {
          break;
        }
        cursor := next;
      }
      GroupEndIs(ops, redoPtr, cursor + 1);
    }

    /** Slot `redoPtr` holds the first of the undone operations, none of which was made on the header
        line. */
    ghost predicate RedoOpen(redoPtr: nat, ops: seq<Op>)
      reads this, operations
    {
      && Shaped() && redoPtr == Done() < count < capacity && ops == operations[..count]
      && forall i :: redoPtr <= i < |ops| ==> !Stays(ops[i].change)
    }

    /** Make the change in slot `redoPtr` again and, if that succeeds, the rest of its group. */
    method MakeNext(ed: Editor, redoPtr: nat, ghost base: Lines, ghost ops: seq<Op>) returns (ok: bool, cursor: nat)
      requires RedoOpen(redoPtr, ops) && NewlineFree(base) && LogFits(base, ops, |ops|) && Holds(ed, base, ops, redoPtr)
      requires ed.view ==> ops[redoPtr].change.text != []
      modifies ed
      ensures ok == !ed.view && (ok ==> cursor + 1 == GroupEnd(ops, redoPtr))
      ensures Holds(ed, base, ops, if ok then GroupEnd(ops, redoPtr) else redoPtr)
      ensures !ed.view ==> RedoneTo(ed, ops[GroupEnd(ops, redoPtr) - 1].change)
      ensures ed.kill == old(ed.kill) && ed.cur == old(ed.cur)
    {
      hide RedoneTo, DotAt, Holds, NewlineFree, LogFits, TextAfter, GroupEnd, Editor.Valid, Stays, OffText;
      cursor := redoPtr;
      LogShorter(base, ops, |ops|, redoPtr + 1);
      ok := MakeAgainAt(ed, redoPtr, base, ops);
      if ok {
        RedoneToIs(ed, ops[redoPtr].change);
        cursor := MakeGroupAgain(ed, redoPtr, base, ops);
      }
    }

    /** `redo_operation`: make the changes of the next group again. In a read-only buffer it fails. */
    method RedoOperation(ed: Editor, ghost base: Lines) returns (ok: bool)
      requires Valid() && ed.Held() && NewlineFree(base)
      requires Faithful(base, Session(ed.Text(), Hist()))
      requires ed.view && CanRedo(Hist()) ==> Hist().ops[Hist().done].change.text != []
      modifies this`undoPtr, ed
      ensures Valid() && ed.Held() && ok == (!ed.view && CanRedo(old(Hist())))
      ensures Session(ed.Text(), Hist()) ==
        if ed.view then old(Session(ed.Text(), Hist())) else Step(old(Session(ed.Text(), Hist())), Redo)
      ensures Faithful(base, Session(ed.Text(), Hist()))
      // dot goes to the last change of the group, and behind the bytes if it put them in
      ensures CanRedo(old(Hist())) && !ed.view ==> RedoneTo(ed, LastRedone(old(Hist())))
      ensures ed.kill == old(ed.kill) && ed.cur == old(ed.cur)
      ensures !CanRedo(old(Hist())) ==> unchanged(ed)
    {
      hide RedoneTo, DotAt, HistoryOk, TextAfter, LogFits, NewlineFree, GroupEnd, Step, Faithful, Editor.Valid, Editor.Held, Editor.Abs, Editor.Text, Stays, OffText;
      ghost var s := Session(ed.Text(), Hist());
      RedoIs(base, s);
      WrapUp(undoPtr, capacity);
      var redoPtr := if undoPtr == -1 then tail else (undoPtr + 1) % capacity;
      if redoPtr == head {
        return false;
      }
      var cursor;
      ok, cursor := MakeNext(ed, redoPtr, base, operations[..count]);
      if ok {
        StepTo(cursor);
      }
    }

    /** The undo position goes to slot `cursor`. */
    method StepTo(cursor: nat)
      requires Shaped() && cursor < count < capacity
      modifies this`undoPtr
      ensures Shaped() && Hist() == old(Hist()).(done := cursor + 1)
    {
      undoPtr := cursor;
    }

    /** `undo_group_begin`. */
    method GroupBegin()
      requires Valid()
      modifies this`groupForced
      ensures Valid() && Hist() == old(Hist()).(forced := true)
    {
      groupForced := true;
    }

    /** `undo_group_end`. */
    method GroupEndForced()
      requires Valid()
      modifies this`groupForced, this`currentGroup
      ensures Valid() && Hist() == old(Hist()).(forced := false, group := old(Hist()).group + 1)
    {
      GroupStopKeepsOk(Hist());
      hide Numbered;
      currentGroup := currentGroup + 1;
      groupForced := false;
    }
  }

  lemma RecordStuck(h: History, c: Change, time: int)
    requires HistoryOk(h)
    ensures Stuck(h) ==> Record(h, c, time) == h
  {
  }

  /** A record with the grouping test decided. */
  lemma RecordIs(h: History, c: Change, time: int, keep: bool)
    requires h.done <= |h.ops| <= h.cap <= MAX_CAPACITY && !Stuck(h)
    requires keep <==> h.done > 0 && Joins(h.ops[h.done - 1], c, time)
    ensures var kept := h.ops[..h.done];
      var group := if !h.forced && !keep then h.group + 1 else h.group;
      var gid := if h.forced || !keep then group else kept[|kept| - 1].group;
      Record(h, c, time) == History(kept + [Op(c, h.version, time, gid)], |kept| + 1, GrownCapacity(h), h.version + 1, group, h.forced)
  {
    hide Joins;
  }

  /** The undo step of a faithful session, as the log tells it. */
  lemma UndoIs(base: Lines, s: Session)
    requires NewlineFree(base) && Faithful(base, s)
    ensures HistoryOk(s.history) && s.history.done <= |s.history.ops|
    ensures Faithful(base, Step(s, Undo)) && HistoryOk(Step(s, Undo).history)
    ensures TriesUndo(s.history) ==>
      && LogFits(base, s.history.ops, s.history.done) && s.text == TextAfter(base, s.history.ops, s.history.done)
    ensures CanUndo(s.history) ==>
      var m := UndoStart(s.history.ops, s.history.done);
      && LogFits(base, s.history.ops, m)
      && Step(s, Undo) == Session(TextAfter(base, s.history.ops, m), s.history.(done := m))
    ensures !CanUndo(s.history) ==> Step(s, Undo) == s
  {
    hide Numbered, TextAfter, LogFits, NewlineFree, TakeBackTo, Stays;
    StepKeepsFaithful(base, s, Undo);
    FaithfulIsOk(base, Step(s, Undo));
    if CanUndo(s.history) {
      TakenBack(base, s.history.ops, s.history.done, UndoStart(s.history.ops, s.history.done));
    }
  }

  /** And the redo step. */
  lemma RedoIs(base: Lines, s: Session)
    requires NewlineFree(base) && Faithful(base, s)
    ensures HistoryOk(s.history) && s.history.done <= |s.history.ops|
    ensures Faithful(base, Step(s, Redo)) && HistoryOk(Step(s, Redo).history)
    ensures CanRedo(s.history) ==>
      var ops, n := s.history.ops, s.history.done;
      && |ops| < s.history.cap && (forall i :: n <= i < |ops| ==> !Stays(ops[i].change))
      && LogFits(base, ops, |ops|) && LogFits(base, ops, n) && s.text == TextAfter(base, ops, n)
      && LogFits(base, ops, GroupEnd(ops, n))
      && Step(s, Redo) == Session(TextAfter(base, ops, GroupEnd(ops, n)), s.history.(done := GroupEnd(ops, n)))
    ensures !CanRedo(s.history) ==> Step(s, Redo) == s
  {
    hide Numbered, TextAfter, LogFits, NewlineFree, MakeAgain, Stays;
    StepKeepsFaithful(base, s, Redo);
    FaithfulIsOk(base, Step(s, Redo));
    if CanRedo(s.history) {
      LogShorter(base, s.history.ops, |s.history.ops|, GroupEnd(s.history.ops, s.history.done));
      MadeAgain(base, s.history.ops, s.history.done, GroupEnd(s.history.ops, s.history.done));
    }
  }

  lemma FaithfulIsOk(base: Lines, s: Session)
    requires Faithful(base, s)
    ensures HistoryOk(s.history)
  {
  }

  lemma StaysOrIdle(c: Change)
    ensures !(Stays(c) && Idle(c))
  {
  }

  /** Where undo stops when the newest operation was made on the header line. */
  lemma StopsAtOnce(ops: seq<Op>, done: nat)
    requires 0 < done <= |ops|
    ensures Stays(ops[done - 1].change) ==> LastTried(ops, done) == done - 1
  {
  }

  /** The last change of a fitting log, ready to be taken back. */
  lemma TakenBackOne(base: Lines, ops: seq<Op>, n: nat)
    requires 0 < n <= |ops| && LogFits(base, ops, n) && NewlineFree(base)
    ensures LogFits(base, ops, n - 1)
    ensures var t := TextAfter(base, ops, n - 1);
      NewlineFree(t) && FitsText(t, ops[n - 1].change) && TextAfter(base, ops, n) == Do(t, ops[n - 1].change)
  {
    TextsNewlineFree(base, ops, n - 1);
  }

  /** The next change of a fitting log, ready to be made. */
  lemma MadeOne(base: Lines, ops: seq<Op>, n: nat)
    requires n < |ops| && LogFits(base, ops, n + 1) && NewlineFree(base)
    ensures LogFits(base, ops, n)
    ensures var t := TextAfter(base, ops, n);
      NewlineFree(t) && FitsText(t, ops[n].change) && TextAfter(base, ops, n + 1) == Do(t, ops[n].change)
  {
    hide FitsText, Do, NewlineFree;
    TextsNewlineFree(base, ops, n);
  }

  lemma WrapUp(i: int, n: nat)
    requires -1 <= i < n && n > 0
    ensures (i + 1) % n == if i + 1 == n then 0 else i + 1
  {
  }

  lemma WrapDown(i: nat, n: nat)
    requires i < n
    ensures (i - 1 + n) % n == if i == 0 then n - 1 else i - 1
  {
    if i > 0 {
      assert (i - 1 + n) % n == i - 1;
    }
  }
}
