/** What each window and buffer command does to the windows, one by one: which ones gain or lose rows,
    which becomes current, and which dot and mark a window or a buffer comes to have. */
module WindowEffects {
  import opened Bytes
  import opened WindowLayout

  /** Same buffer, dot and mark. */
  predicate SameView(v: Window, w: Window) {
    v.buffer == w.buffer && v.at == w.at
  }

  /** Window `i` has `n` rows more than it had, window `j` as many less; nothing else changes but the
      rows the two begin on. */
  predicate Gained(l: Layout, r: Layout, i: nat, j: nat, n: int)
    requires i < |l.windows| && j < |l.windows|
  {
    && |r.windows| == |l.windows| && r == l.(windows := r.windows)
    && r.windows[i].rows == l.windows[i].rows + n && r.windows[j].rows == l.windows[j].rows - n
    && SameView(r.windows[i], l.windows[i]) && SameView(r.windows[j], l.windows[j])
    && forall k :: 0 <= k < |l.windows| && k != i && k != j ==> r.windows[k] == l.windows[k]
  }

  /** The window below the current one, or the one above it if there is none below. */
  function Neighbour(l: Layout): (j: nat)
    requires l.cur < |l.windows| && |l.windows| > 1
    ensures j < |l.windows| && (j == l.cur + 1 || (j == l.cur - 1 && l.cur == |l.windows| - 1))
  {
    if l.cur + 1 < |l.windows| then l.cur + 1 else l.cur - 1
  }

  /** Enlarging by `n` rows succeeds iff there is a neighbour with more than `n` rows, which then loses
      them. */
  lemma EnlargeExactly(l: Layout, n: int)
    requires Good(l) && n >= 0
    ensures var r := Do(l, EnlargeWind(n));
      && (r.ok <==> |l.windows| > 1 && l.windows[Neighbour(l)].rows > n)
      && if r.ok then Gained(l, r.layout, l.cur, Neighbour(l), n) else r.layout == l
  {
    hide Good, Shift;
    CurIsWindow(l);
    if |l.windows| > 1 {
      ShiftAt(l.windows, if l.cur + 1 < |l.windows| then l.cur else l.cur - 1, if l.cur + 1 < |l.windows| then n else 0 - n);
    }
  }

  /** Shrinking succeeds iff there is a neighbour and the window itself has more than `n` rows, which the
      neighbour then gets; a negative argument makes one command the other. */
  lemma ShrinkExactly(l: Layout, n: int)
    requires Good(l) && n >= 0
    ensures var r := Do(l, ShrinkWind(n));
      && (r.ok <==> |l.windows| > 1 && l.windows[l.cur].rows > n)
      && if r.ok then |l.windows| > 1 && Gained(l, r.layout, Neighbour(l), l.cur, n) else r.layout == l
    ensures n > 0 ==> Do(l, EnlargeWind(-n)) == Do(l, ShrinkWind(n)) && Do(l, ShrinkWind(-n)) == Do(l, EnlargeWind(n))
  {
    hide Good, Shift;
    CurIsWindow(l);
    if |l.windows| > 1 {
      ShiftAt(l.windows, if l.cur + 1 < |l.windows| then l.cur else l.cur - 1, if l.cur + 1 < |l.windows| then 0 - n else n);
    }
  }

  lemma ShiftAt(ws: seq<Window>, i: nat, n: int)
    requires i + 1 < |ws|
    ensures var r := Shift(ws, i, n);
      && r[i] == ws[i].(rows := ws[i].rows + n)
      && r[i + 1] == ws[i + 1].(top := ws[i + 1].top + n, rows := ws[i + 1].rows - n)
      && forall k :: 0 <= k < |ws| && k != i && k != i + 1 ==> r[k] == ws[k]
  {
  }

  /** A size asked for is the size the window gets, if it gets any. */
  lemma ResizeExactly(l: Layout, n: int)
    requires Good(l)
    ensures var r, rows := Do(l, Resize(true, n)), l.windows[l.cur].rows;
      && (r.ok <==> rows == n || (|l.windows| > 1 && (if n < rows then n > 0 else l.windows[Neighbour(l)].rows > n - rows)))
      && (r.ok ==> l.cur < |r.layout.windows| && r.layout.windows[l.cur].rows == n)
      && (!r.ok ==> r.layout == l)
    ensures Do(l, Resize(false, n)) == Outcome(l, true)
  {
    hide Good;
    CurIsWindow(l);
    var rows := l.windows[l.cur].rows;
    if n < rows {
      ShrinkExactly(l, rows - n);
    } else {
      EnlargeExactly(l, n - rows);
    }
  }

  /** The next window is the one below, the previous the one above, around the ends. */
  lemma NextExactly(l: Layout, n: int)
    requires Good(l)
    ensures var r, k := Do(l, NextWind(false, n)), if l.cur == |l.windows| - 1 then 0 else l.cur + 1;
      r == Outcome(l.(cur := k, curbp := l.windows[k].buffer), true)
    ensures var r, k := Do(l, PrevWind(false, n)), if l.cur == 0 then |l.windows| - 1 else l.cur - 1;
      r == Outcome(l.(cur := k, curbp := l.windows[k].buffer), true)
  {
    hide Good, Split, Delete, Only, Grow, Screen, Switch, Kill;
    CurIsWindow(l);
  }

  /** A split shares all rows but the one for the mode line, the lower window having as many as the upper
      or one more; both show what the window showed, and the rest of the screen stays. */
  lemma SplitExactly(l: Layout, given: bool, n: int, dotRow: int)
    requires Good(l)
    ensures var r, ws, c := Do(l, SplitWind(given, n, dotRow)), l.windows, l.cur;
      && (r.ok <==> ws[c].rows >= 3)
      && (!r.ok ==> r.layout == l)
      && (r.ok ==>
          var vs := r.layout.windows;
          && |vs| == |ws| + 1 && SameView(vs[c], ws[c]) && SameView(vs[c + 1], ws[c])
          && vs[c].rows + 1 + vs[c + 1].rows == ws[c].rows && 0 <= vs[c + 1].rows - vs[c].rows <= 1
          && (forall k :: 0 <= k < c ==> vs[k] == ws[k]) && (forall k :: c + 1 < k < |vs| ==> vs[k] == ws[k - 1])
          && (r.layout.cur == if given then (if n == 1 then c else c + 1) else if dotRow <= vs[c].rows then c else c + 1))
  {
    hide Good;
    CurIsWindow(l);
  }

  /** The rows of a deleted window and its mode line go to the window above, or below if it was the
      topmost; that becomes current, and the others stay as they are. */
  lemma DeleteExactly(l: Layout)
    requires Good(l)
    ensures var r, ws, c := Do(l, DelWind), l.windows, l.cur;
      var heir := if c == 0 then 1 else c - 1;
      && (r.ok <==> |ws| > 1)
      && (!r.ok ==> r.layout == l)
      && (r.ok ==>
          var vs, d := r.layout.windows, r.layout.cur;
          && d == (if c == 0 then 0 else c - 1) && |vs| == |ws| - 1 && r.layout.curbp == ws[heir].buffer
          && SameView(vs[d], ws[heir]) && vs[d].rows == ws[heir].rows + ws[c].rows + 1
          && (forall k :: 0 <= k < d ==> vs[k] == ws[k]) && (forall k :: d < k < |vs| ==> vs[k] == ws[k + 1])
          && Left(l.buffers, r.layout.buffers, ws[c]))
  {
    hide Good;
    CurIsWindow(l);
  }

  /** A window is gone from its buffer, which takes over dot and mark if its counter comes to 0. */
  predicate Left(was: map<BufferId, BufferRecord>, now: map<BufferId, BufferRecord>, w: Window) {
    && now.Keys == was.Keys && (forall b :: b in was && b != w.buffer ==> now[b] == was[b])
    && w.buffer in was && now[w.buffer].at == (if was[w.buffer].windows == 1 then w.at else was[w.buffer].at)
  }

  /** The only window left is the current one, on all rows but the last mode line. */
  lemma OnlyExactly(l: Layout)
    requires Good(l)
    ensures var r := Do(l, OnlyWind);
      && r.ok && r.layout.cur == 0 && r.layout.curbp == l.curbp && r.layout.rows == l.rows
      && r.layout.windows == [Window(l.curbp, 0, l.rows - 1, l.windows[l.cur].at)]
  {
    hide ReleaseAll;
  }

  /** And of every other buffer shown, the lowest window on it leaves dot and mark with the buffer. */
  lemma OnlySavesLast(l: Layout, j: nat)
    requires Safe(l) && j < |l.windows| && l.windows[j].buffer != l.curbp
    requires forall k :: j < k < |l.windows| ==> l.windows[k].buffer != l.windows[j].buffer
    ensures Do(l, OnlyWind).layout.buffers[l.windows[j].buffer] == BufferRecord(0, l.windows[j].at)
  {
    hide Good, Upright, Roomy, Count, ReleaseAll;
    var ws, b := l.windows, l.windows[j].buffer;
    CurIsWindow(l);
    var rest, i := ws[..l.cur] + ws[l.cur + 1..], if j < l.cur then j else j - 1;
    WindowsKnown(l);
    OthersOf(l, b);
    CountersExact(l, b);
    forall k | i < k < |rest| ensures rest[k].buffer != b {
      assert rest[k] == ws[if k < l.cur then k else k + 1];
    }
    LastReleased(l.buffers, rest, i);
    ReleasedTwice(l.buffers, ws[..l.cur], ws[l.cur + 1..]);
  }

  lemma WindowsKnown(l: Layout)
    requires Good(l)
    ensures forall i :: 0 <= i < |l.windows| ==> l.windows[i].buffer in l.buffers
  {
  }

  /** How many other windows than the current one show a buffer. */
  function Others(l: Layout, b: BufferId): int
    requires l.cur < |l.windows|
  {
    Count(l.windows, b) - (if l.windows[l.cur].buffer == b then 1 else 0)
  }

  /** The windows but the current one, counted. */
  lemma OthersOf(l: Layout, b: BufferId)
    requires l.cur < |l.windows|
    ensures Count(l.windows[..l.cur] + l.windows[l.cur + 1..], b) == Others(l, b)
  {
    hide Count;
    var ws, w := l.windows, l.windows[l.cur];
    var above, below := ws[..l.cur], ws[l.cur + 1..];
    assert ws == above + [w] + below;
    CountJoin(above + [w], below, b);
    CountJoin(above, [w], b);
    CountJoin(above, below, b);
    CountFew(w, w);
  }

  lemma {:induction false} ReleasedTwice(bufs: map<BufferId, BufferRecord>, a: seq<Window>, c: seq<Window>)
    requires forall i :: 0 <= i < |a| ==> a[i].buffer in bufs
    requires forall i :: 0 <= i < |c| ==> c[i].buffer in bufs
    ensures ReleaseAll(ReleaseAll(bufs, a), c) == ReleaseAll(bufs, a + c)
    decreases |c|
  {
    if c == [] {
      assert a + c == a;
    } else {
      assert (a + c)[..|a + c| - 1] == a + c[..|c| - 1];
      ReleasedTwice(bufs, a, c[..|c| - 1]);
    }
  }

  lemma {:induction false} LastReleased(bufs: map<BufferId, BufferRecord>, ws: seq<Window>, j: nat)
    requires (forall i :: 0 <= i < |ws| ==> ws[i].buffer in bufs) && j < |ws|
    requires forall k :: j < k < |ws| ==> ws[k].buffer != ws[j].buffer
    requires bufs[ws[j].buffer].windows == Count(ws, ws[j].buffer)
    ensures ReleaseAll(bufs, ws)[ws[j].buffer] == BufferRecord(0, ws[j].at)
    decreases |ws|
  {
    var t := ws[..|ws| - 1];
    if j < |t| {
      LastReleased(bufs, t, j);
    } else {
      ReleaseAllCounts(bufs, t, ws[j].buffer);
    }
  }

  /** A new size keeps the windows that begin above its last mode line as they are, but for the rows of
      the lowest; the current one stays current if it is among them, else the topmost becomes so. */
  lemma NewSizeExactly(l: Layout, n: int)
    requires Good(l) && 3 <= n <= 501
    ensures n - 1 == l.rows ==> Do(l, NewSize(true, n)) == Outcome(l, true)
    ensures n - 1 != l.rows ==>
      var r, ws := Do(l, NewSize(true, n)).layout, l.windows;
      var vs := r.windows;
      && 0 < |vs| <= |ws| && r.rows == n - 1
      && (forall k :: 0 <= k < |ws| ==> (k < |vs| <==> ws[k].top <= n - 2))
      && (forall k :: 0 <= k < |vs| - 1 ==> vs[k] == ws[k])
      && SameView(vs[|vs| - 1], ws[|vs| - 1]) && vs[|vs| - 1].top == ws[|vs| - 1].top
      && r.cur == (if l.cur < |vs| then l.cur else 0) && r.curbp == ws[r.cur].buffer
  {
    hide Counted, Count, Wrap, ReleaseAll;
    if n - 1 != l.rows {
      CutWindow(l, n);
      var ws, k := l.windows, KeptBelow(l.windows, n - 1);
      KeptTops(ws, n - 1);
      forall i | k < i < |ws| ensures ws[i].top > ws[k].top {
        TopsGrow(ws, l.rows, k, i);
        OnScreen(ws, l.rows, k);
      }
    }
  }

  /** The first window other than the current one that shows the buffer. */
  predicate FirstOther(l: Layout, b: BufferId, j: nat) {
    && j < |l.windows| && j != l.cur && l.windows[j].buffer == b
    && forall k :: 0 <= k < j ==> k == l.cur || l.windows[k].buffer != b
  }

  /** Switching to a buffer changes only the buffer, dot and mark of the current window. If the counter
      has the buffer in other windows, dot and mark are those of the first of them; if it has it in none
      -- there is none, or 256 of them -- those kept with the buffer. */
  lemma SwitchExactly(l: Layout, b: BufferId, j: nat)
    requires Good(l) && b in l.buffers
    ensures var r, w := Do(l, SwitchBuffer(b)), l.windows[l.cur];
      && r.ok && r.layout.cur == l.cur && r.layout.curbp == b && r.layout.rows == l.rows
      && |r.layout.windows| == |l.windows|
      && (forall k :: 0 <= k < |l.windows| && k != l.cur ==> r.layout.windows[k] == l.windows[k])
      && r.layout.windows[l.cur] == w.(buffer := b, at := r.layout.windows[l.cur].at)
      && KeepsPoints(l.buffers, r.layout.buffers, w)
    ensures Others(l, b) % 256 != 0 && FirstOther(l, b, j) ==>
      Do(l, SwitchBuffer(b)).layout.windows[l.cur].at == l.windows[j].at
    ensures Others(l, b) % 256 == 0 ==>
      Do(l, SwitchBuffer(b)).layout.windows[l.cur].at
        == if l.windows[l.cur].buffer == b then l.windows[l.cur].at else l.buffers[b].at
    ensures Others(l, b) > 0 ==> exists k :: FirstOther(l, b, k)
  {
    hide Tiled, Count;
    OthersCounted(l, b);
    var k := OtherWindow(l.windows, l.cur, b, 0);
    if k < |l.windows| {
      assert FirstOther(l, b, k);
    } else {
      NoOthers(l, b);
    }
  }

  /** The buffer a window goes from takes over its dot and mark if its counter comes to 0. */
  predicate KeepsPoints(was: map<BufferId, BufferRecord>, now: map<BufferId, BufferRecord>, w: Window) {
    && now.Keys == was.Keys && (forall b :: b in was && b != w.buffer ==> now[b].at == was[b].at)
    && w.buffer in was && now[w.buffer].at == (if was[w.buffer].windows == 1 then w.at else was[w.buffer].at)
  }

  lemma OthersCounted(l: Layout, b: BufferId)
    requires Good(l) && b in l.buffers
    ensures Others(l, b) >= 0
    ensures Release(l.buffers, l.windows[l.cur])[b].windows == Others(l, b) % 256
  {
    hide Tiled, Count;
    ShownIsCounted(l.windows, l.cur);
    WrapTakes(Count(l.windows, b), 1);
  }

  lemma NoOthers(l: Layout, b: BufferId)
    requires l.cur < |l.windows| && forall k :: 0 <= k < |l.windows| ==> k == l.cur || l.windows[k].buffer != b
    ensures Others(l, b) == 0
  {
    OthersOf(l, b);
    UnshownIsUncounted(l.windows[..l.cur] + l.windows[l.cur + 1..], b);
  }

  /** So on every screen on which no counter wraps dot and mark are those of the first other window that
      shows the buffer, whenever there is one. */
  lemma SwitchTakesShown(l: Layout, b: BufferId, j: nat)
    requires Safe(l) && b in l.buffers && FirstOther(l, b, j)
    ensures Do(l, SwitchBuffer(b)).layout.windows[l.cur].at == l.windows[j].at
  {
    hide Good, Safe, Count, FirstOther, Do;
    FewOthers(l, b);
    ShowsTwice(l, b, j);
    SwitchExactly(l, b, j);
  }

  lemma FewOthers(l: Layout, b: BufferId)
    requires Safe(l)
    ensures Good(l) && l.cur < |l.windows| && Others(l, b) < 256
  {
    hide Count;
    FewWindows(l.windows, l.rows);
    CountAtMost(l.windows, b);
  }

  lemma ShowsTwice(l: Layout, b: BufferId, j: nat)
    requires l.cur < |l.windows| && FirstOther(l, b, j)
    ensures Others(l, b) > 0
  {
    var ws := l.windows;
    var (i, k) := if j < l.cur then (j, l.cur) else (l.cur, j);
    assert ws == ws[..k] + ws[k..];
    CountJoin(ws[..k], ws[k..], b);
    if ws[i].buffer == b { ShownIsCounted(ws[..k], i); }
    if ws[k].buffer == b { ShownIsCounted(ws[k..], 0); }
  }

  /** A buffer is killed without touching the windows or the other buffers. */
  lemma KillExactly(l: Layout, b: BufferId, cleared: bool)
    requires Good(l) && b in l.buffers
    ensures var r := Do(l, Command.KillBuffer(b, cleared));
      && r.layout == l.(buffers := r.layout.buffers) && (r.ok <==> b !in r.layout.buffers)
      && (r.ok <==> cleared && Count(l.windows, b) % 256 == 0)
      && (forall c :: c in l.buffers && c != b ==> c in r.layout.buffers && r.layout.buffers[c] == l.buffers[c])
      && (forall c :: c in r.layout.buffers ==> c in l.buffers)
  {
    hide Good, Count, Split, Delete, Only, Grow, Next, Previous, Screen, Switch;
    CounterOf(l, b);
  }

  lemma CounterOf(l: Layout, b: BufferId)
    requires Good(l) && b in l.buffers
    ensures l.buffers[b].windows == Count(l.windows, b) % 256
  {
    hide Tiled, Count;
  }
}
