/** Which keystrokes one undo takes back: characters typed or deleted one after the other. */
module UndoRuns {
  import opened Bytes
  import opened UndoLog
  import opened UndoHistory

  /** One keystroke: the change it makes, and when, in nanoseconds. */
  datatype Key = Key(change: Change, time: int)

  /** Single characters on one line of text, typed each behind the one before, or deleted each at the
      place of the one before or right in front of it. */
  predicate Steady(keys: seq<Key>) {
    && (forall i :: 0 <= i < |keys| ==> |keys[i].change.text| == 1 && keys[i].change.l >= 1)
    && (forall i, j :: 0 <= i && j == i + 1 < |keys| ==>
          var a, b := keys[i].change, keys[j].change;
          && a.kind == b.kind && a.l == b.l
          && (if a.kind == Insertion then b.o == a.o + 1 else b.o == a.o || b.o + 1 == a.o))
  }

  /** Space, tab, newline and carriage return are what words are separated by. */
  predicate Separates(b: Byte) {
    b == 32 || b == 9 || b == 10 || b == 13
  }

  /** The second of two keystrokes goes on with the first: less than 400 ms later, and not beginning a
      word behind a separator. */
  predicate GoesOn(a: Key, b: Key)
    requires |a.change.text| == 1 && |b.change.text| == 1
  {
    0 <= b.time - a.time < 400_000_000 && !(Separates(a.change.text[0]) && !Separates(b.change.text[0]))
  }

  /** The history after the keystrokes. */
  function Typed(h: History, keys: seq<Key>): (r: History)
    requires h.done <= |h.ops|
    ensures r.done <= |r.ops|
  {
    if keys == [] then h
    else
      var k := keys[|keys| - 1];
      Record(Typed(h, keys[..|keys| - 1]), k.change, k.time)
  }

  /** What the log holds of the keystrokes: each in its turn, in the group of the one before iff it goes
      on with it, else in one of its own. */
  ghost predicate Logged(h: History, keys: seq<Key>, r: History)
    requires Steady(keys)
  {
    && HistoryOk(r) && r.forced == h.forced && r.done == h.done + |keys| && (keys != [] ==> |r.ops| == r.done)
    && (forall i :: 0 <= i < |keys| ==> r.ops[h.done + i].change == keys[i].change && r.ops[h.done + i].time == keys[i].time)
    && (forall i, j :: 0 <= i && j == i + 1 < |keys| ==>
          (r.ops[h.done + j].group == r.ops[h.done + i].group <==> GoesOn(keys[i], keys[j])))
  }

  lemma {:induction false} TypedIsLogged(h: History, keys: seq<Key>)
    requires HistoryOk(h) && !h.forced && Steady(keys) && h.done + |keys| <= 10000
    ensures Logged(h, keys, Typed(h, keys))
    decreases |keys|
  {
    if keys != [] {
      var n := |keys| - 1;
      TypedIsLogged(h, keys[..n]);
      KeyIsLogged(h, keys, Typed(h, keys[..n]));
    }
  }

  lemma KeyIsLogged(h: History, keys: seq<Key>, m: History)
    requires HistoryOk(h) && !h.forced && keys != [] && Steady(keys) && h.done + |keys| <= 10000
    requires Logged(h, keys[..|keys| - 1], m) && (|keys| == 1 ==> m == h)
    ensures Logged(h, keys, Record(m, keys[|keys| - 1].change, keys[|keys| - 1].time))
  {
    hide Numbered, Record, Joins, GoesOn;
    var n, k := |keys| - 1, keys[|keys| - 1];
    var r := Record(m, k.change, k.time);
    RecordAdds(m, k.change, k.time);
    forall i | 0 <= i < n ensures keys[..n][i] == keys[i] && r.ops[h.done + i] == m.ops[h.done + i] {
      assert r.ops[..m.done][h.done + i] == m.ops[..m.done][h.done + i];
    }
    if n > 0 {
      assert keys[..n][n - 1] == keys[n - 1];
      JoinsIfGoesOn(m.ops[m.done - 1], keys, n);
    }
  }

  lemma RecordAdds(m: History, c: Change, time: int)
    requires HistoryOk(m) && !m.forced && m.done < 10000
    ensures var r := Record(m, c, time);
      && HistoryOk(r) && !r.forced && r.done == |r.ops| == m.done + 1
      && r.ops[..m.done] == m.ops[..m.done] && r.ops[m.done].change == c && r.ops[m.done].time == time
      && (m.done > 0 ==> (r.ops[m.done].group == m.ops[m.done - 1].group <==> Joins(m.ops[m.done - 1], c, time)))
  {
    hide Joins;
    RecordKeepsOk(m, c, time);
  }

  lemma JoinsIfGoesOn(prev: Op, keys: seq<Key>, n: nat)
    requires Steady(keys) && 0 < n < |keys| && prev.change == keys[n - 1].change && prev.time == keys[n - 1].time
    ensures Joins(prev, keys[n].change, keys[n].time) <==> GoesOn(keys[n - 1], keys[n])
  {
    var a, b := keys[n - 1].change, keys[n].change;
    assert |a.text| == 1 && |b.text| == 1;
  }

  /** Undo takes back exactly the longest stretch of keystrokes at the end in which each goes on with the
      one before it: it reaches back to keystroke `k` iff all behind `k` do. */
  lemma UndoTakesRun(h: History, keys: seq<Key>, k: nat)
    requires HistoryOk(h) && !h.forced && Steady(keys) && h.done + |keys| <= 10000 && k < |keys|
    ensures var r := Typed(h, keys);
      && r.done == |r.ops| == h.done + |keys|
      && (|r.ops| != r.cap ==>
          (UndoStep(r).done <= h.done + k
           <==> forall i, j :: k <= i && j == i + 1 < |keys| ==> GoesOn(keys[i], keys[j])))
  {
    hide Numbered, Record, GoesOn;
    TypedIsLogged(h, keys);
    var r := Typed(h, keys);
    var s := UndoStart(r.ops, r.done);
    forall i | h.done <= i < r.done ensures !Stays(r.ops[i].change) {
      assert r.ops[h.done + (i - h.done)].change == keys[i - h.done].change;
    }
    if s <= h.done + k {
      forall i, j | k <= i && j == i + 1 < |keys| ensures GoesOn(keys[i], keys[j]) {
        assert r.ops[h.done + i].group == r.ops[r.done - 1].group == r.ops[h.done + j].group;
      }
    } else {
      var j := s - h.done;
      assert r.ops[h.done + (j - 1)].group != r.ops[h.done + j].group;
      assert !GoesOn(keys[j - 1], keys[j]);
    }
  }
}
