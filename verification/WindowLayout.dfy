/** The screen as a stack of windows: what each window and buffer command does to it, and what every
    run of commands keeps. */
module WindowLayout {
  import opened Bytes

  type BufferId = nat

  /** Dot and mark, as a window or an undisplayed buffer remembers them. */
  datatype Point = Point(dot: int, mark: int)

  /** `struct window`: its buffer, first row, number of text rows, and dot and mark. */
  datatype Window = Window(buffer: BufferId, top: int, rows: int, at: Point)

  /** `b_nwnd`, a byte that wraps around, and the dot and mark kept while no window shows the buffer. */
  datatype BufferRecord = BufferRecord(windows: Byte, at: Point)

  /** The windows from `wheadp` down, the position of `curwp` among them, `curbp`, the buffer list,
      and the terminal's row count `t_nrow`. */
  datatype Layout = Layout(
    windows: seq<Window>, cur: nat, curbp: BufferId, buffers: map<BufferId, BufferRecord>, rows: int)

  /** What the driver sets `t_mrow` to: the most rows a new size may have, which the terminal itself
      may exceed. */
  const MAXROW := 500

  datatype Outcome = Outcome(layout: Layout, ok: bool)

  datatype Command =
    | SplitWind(given: bool, n: int, dotRow: int)
    | DelWind
    | OnlyWind
    | EnlargeWind(n: int)
    | ShrinkWind(n: int)
    | Resize(given: bool, n: int)
    | NextWind(given: bool, n: int)
    | PrevWind(given: bool, n: int)
    | NewSize(given: bool, n: int)
    | NewBuffer(buffer: BufferId)
    | SwitchBuffer(buffer: BufferId)
    | KillBuffer(buffer: BufferId, cleared: bool)
    | MoveDot(at: Point)

  // ---- The invariant ----

  function ModeLine(w: Window): int {
    w.top + w.rows
  }

  /** Window, mode line, window, mode line, ..., with no row left over and none used twice. */
  predicate Tiled(ws: seq<Window>, rows: int) {
    && |ws| > 0 && ws[0].top == 0 && ModeLine(ws[|ws| - 1]) == rows - 1
    && (forall i, j :: 0 <= i && j == i + 1 < |ws| ==> ws[j].top == ModeLine(ws[i]) + 1)
    && (forall i :: 0 <= i < |ws| ==> ws[i].rows >= 0)
  }

  /** The value a one-byte counter shows. */
  function Wrap(n: int): Byte {
    n % 256
  }

  /** How many windows show the buffer. */
  function Count(ws: seq<Window>, b: BufferId): nat {
    if ws == [] then 0 else Count(ws[..|ws| - 1], b) + if ws[|ws| - 1].buffer == b then 1 else 0
  }

  ghost predicate Counted(ws: seq<Window>, bufs: map<BufferId, BufferRecord>) {
    && (forall i :: 0 <= i < |ws| ==> ws[i].buffer in bufs)
    && (forall b :: b in bufs ==> bufs[b].windows == Wrap(Count(ws, b)))
  }

  ghost predicate Good(l: Layout) {
    && Tiled(l.windows, l.rows) && 1 <= l.rows
    && l.cur < |l.windows| && l.curbp == l.windows[l.cur].buffer
    && Counted(l.windows, l.buffers)
  }

  /** Every window has a row of text. */
  predicate Roomy(ws: seq<Window>) {
    forall i :: 0 <= i < |ws| ==> ws[i].rows >= 1
  }

  // ---- What the commands do ----

  /** One window fewer on its buffer, which takes over dot and mark from the last one. */
  function Release(bufs: map<BufferId, BufferRecord>, w: Window): (r: map<BufferId, BufferRecord>)
    requires w.buffer in bufs
    ensures r.Keys == bufs.Keys
  {
    var left := Wrap(bufs[w.buffer].windows - 1);
    bufs[w.buffer := BufferRecord(left, if left == 0 then w.at else bufs[w.buffer].at)]
  }

  function Retain(bufs: map<BufferId, BufferRecord>, b: BufferId): map<BufferId, BufferRecord>
    requires b in bufs
  {
    bufs[b := bufs[b].(windows := Wrap(bufs[b].windows + 1))]
  }

  function ReleaseAll(bufs: map<BufferId, BufferRecord>, ws: seq<Window>): (r: map<BufferId, BufferRecord>)
    requires forall i :: 0 <= i < |ws| ==> ws[i].buffer in bufs
    ensures r.Keys == bufs.Keys
  {
    if ws == [] then bufs else Release(ReleaseAll(bufs, ws[..|ws| - 1]), ws[|ws| - 1])
  }

  /** The window list with the windows at `i` and after it replaced. */
  function Replaced(ws: seq<Window>, i: nat, n: nat, part: seq<Window>): (r: seq<Window>)
    requires i + n <= |ws|
    ensures |r| == |ws| - n + |part|
  {
    ws[..i] + part + ws[i + n..]
  }

  function Split(l: Layout, given: bool, n: int, dotRow: int): Outcome
    requires Good(l)
  {
    var w := l.windows[l.cur];
    if w.rows < 3 then Outcome(l, false)
    else
      var upper := (w.rows - 1) / 2;
      var pair := [w.(rows := upper), w.(top := w.top + upper + 1, rows := w.rows - 1 - upper)];
      var stayUp := (!given && dotRow <= upper) || (given && n == 1);
      Outcome(l.(windows := Replaced(l.windows, l.cur, 1, pair), cur := if stayUp then l.cur else l.cur + 1,
                 buffers := Retain(l.buffers, l.curbp)), true)
  }

  function Delete(l: Layout): Outcome
    requires Good(l)
  {
    var ws, w := l.windows, l.windows[l.cur];
    if |ws| == 1 then Outcome(l, false)
    else if l.cur == 0 then
      var heir := ws[1].(top := 0, rows := ws[1].rows + w.rows + 1);
      Outcome(l.(windows := Replaced(ws, 0, 2, [heir]), curbp := heir.buffer, buffers := Release(l.buffers, w)), true)
    else
      var heir := ws[l.cur - 1].(rows := ws[l.cur - 1].rows + w.rows + 1);
      Outcome(l.(windows := Replaced(ws, l.cur - 1, 2, [heir]), cur := l.cur - 1, curbp := heir.buffer,
                 buffers := Release(l.buffers, w)), true)
  }

  function Only(l: Layout): Outcome
    requires Good(l)
  {
    var w := l.windows[l.cur].(top := 0, rows := l.rows - 1);
    Outcome(l.(windows := [w], cur := 0,
               buffers := ReleaseAll(ReleaseAll(l.buffers, l.windows[..l.cur]), l.windows[l.cur + 1..])), true)
  }

  /** The mode line between windows `i` and `i + 1` moves down by `n` rows. */
  function Shift(ws: seq<Window>, i: nat, n: int): (r: seq<Window>)
    requires i + 1 < |ws|
    ensures |r| == |ws|
  {
    Replaced(ws, i, 2, [ws[i].(rows := ws[i].rows + n), ws[i + 1].(top := ws[i + 1].top + n, rows := ws[i + 1].rows - n)])
  }

  /** The mode line between the current window and the one below it (above it, for the last) moves so
      that the current one gains `n` rows; the window that loses them must be left with a row. */
  function Grow(l: Layout, n: int, shrinking: bool): Outcome
    requires Good(l)
  {
    var ws, w := l.windows, l.windows[l.cur];
    if |ws| == 1 then Outcome(l, false)
    else
      var below := l.cur + 1 < |ws|;
      var adj := if below then ws[l.cur + 1] else ws[l.cur - 1];
      if (if shrinking then w.rows else adj.rows) <= Abs(n) then Outcome(l, false)
      else Outcome(l.(windows := if below then Shift(ws, l.cur, n) else Shift(ws, l.cur - 1, -n)), true)
  }

  function Abs(n: int): nat {
    if n < 0 then -n else n
  }

  function Select(l: Layout, i: nat): Outcome
    requires i < |l.windows|
  {
    Outcome(l.(cur := i, curbp := l.windows[i].buffer), true)
  }

  function Next(l: Layout, given: bool, n: int): Outcome
    requires Good(l)
  {
    if !given then Select(l, if l.cur + 1 < |l.windows| then l.cur + 1 else 0)
    else
      var k := if n < 0 then |l.windows| + n + 1 else n;
      if 0 < k <= |l.windows| then Select(l, k - 1) else Outcome(l, false)
  }

  function Previous(l: Layout, given: bool, n: int): Outcome
    requires Good(l)
  {
    if given then Next(l, given, -n)
    else Select(l, if l.cur > 0 then l.cur - 1 else |l.windows| - 1)
  }

  /** The windows that begin on one of the first `m` rows. */
  function KeptBelow(ws: seq<Window>, m: int): (k: nat)
    ensures k <= |ws|
  {
    KeptFrom(ws, m, 0)
  }

  lemma KeptTops(ws: seq<Window>, m: int)
    ensures forall i :: 0 <= i < KeptBelow(ws, m) ==> ws[i].top < m
    ensures KeptBelow(ws, m) < |ws| ==> ws[KeptBelow(ws, m)].top >= m
    ensures ws != [] && ws[0].top < m ==> 0 < KeptBelow(ws, m)
  {
  }

  function KeptFrom(ws: seq<Window>, m: int, i: nat): (k: nat)
    requires i <= |ws| && forall j :: 0 <= j < i ==> ws[j].top < m
    ensures i <= k <= |ws|
    ensures forall j :: 0 <= j < k ==> ws[j].top < m
    ensures k < |ws| ==> ws[k].top >= m
    decreases |ws| - i
  {
    if i < |ws| && ws[i].top < m then KeptFrom(ws, m, i + 1) else i
  }

  /** The screen gets `n` rows: the last window that still begins on it takes what is left. */
  function Resized(l: Layout, n: int): Layout
    requires Good(l) && n >= 3
  {
    var ws := l.windows;
    KeptTops(ws, n - 1);
    var k := KeptBelow(ws, n - 1);
    var last := ws[k - 1].(rows := n - ws[k - 1].top - 2);
    var cur := if l.cur < k then l.cur else 0;
    l.(windows := ws[..k - 1] + [last], cur := cur, curbp := ws[cur].buffer,
       buffers := ReleaseAll(l.buffers, ws[k..]), rows := n - 1)
  }

  function Screen(l: Layout, given: bool, n: int): Outcome
    requires Good(l)
  {
    var size := if given then n else MAXROW + 1;
    if size < 3 || size > MAXROW + 1 then Outcome(l, false)
    else if l.rows == size - 1 then Outcome(l, true)
    else Outcome(Resized(l, size), true)
  }

  /** The first window but the current one that shows the buffer. */
  function OtherWindow(ws: seq<Window>, cur: nat, b: BufferId, i: nat): (k: nat)
    requires i <= |ws|
    ensures i <= k <= |ws|
    ensures k < |ws| ==> k != cur && ws[k].buffer == b
    ensures forall j :: i <= j < k ==> j == cur || ws[j].buffer != b
    decreases |ws| - i
  {
    if i == |ws| || (i != cur && ws[i].buffer == b) then i else OtherWindow(ws, cur, b, i + 1)
  }

  function Switch(l: Layout, b: BufferId): Outcome
    requires Good(l) && b in l.buffers
  {
    var w := l.windows[l.cur];
    var released := Release(l.buffers, w);
    var other := OtherWindow(l.windows, l.cur, b, 0);
    var at :=
      if released[b].windows == 0 then released[b].at
      else if other < |l.windows| then l.windows[other].at
      else w.at;
    Outcome(l.(windows := l.windows[l.cur := w.(buffer := b, at := at)], curbp := b, buffers := Retain(released, b)), true)
  }

  /** `zotbuf`: refused while the counter is not 0, or when the user keeps the text. */
  function Kill(l: Layout, b: BufferId, cleared: bool): Outcome
    requires b in l.buffers
  {
    if l.buffers[b].windows != 0 || !cleared then Outcome(l, false)
    else Outcome(l.(buffers := l.buffers - {b}), true)
  }

  function Create(l: Layout, b: BufferId): Outcome {
    if b in l.buffers then Outcome(l, true)
    else Outcome(l.(buffers := l.buffers[b := BufferRecord(0, Point(0, 0))]), true)
  }

  /** A command names only buffers that are there. */
  predicate Sensible(l: Layout, c: Command) {
    match c
    case SwitchBuffer(b) => b in l.buffers
    case KillBuffer(b, _) => b in l.buffers
    case _ => true
  }

  function Do(l: Layout, c: Command): (r: Outcome)
    requires Good(l) && Sensible(l, c)
  {
    match c
    case SplitWind(given, n, dotRow) => Split(l, given, n, dotRow)
    case DelWind => Delete(l)
    case OnlyWind => Only(l)
    case EnlargeWind(n) => Grow(l, n, n < 0)
    case ShrinkWind(n) => Grow(l, -n, n >= 0)
    case Resize(given, n) =>
      var rows := l.windows[l.cur].rows;
      if !given || rows == n then Outcome(l, true) else Grow(l, n - rows, n < rows)
    case NextWind(given, n) => Next(l, given, n)
    case PrevWind(given, n) => Previous(l, given, n)
    case NewSize(given, n) => Screen(l, given, n)
    case NewBuffer(b) => Create(l, b)
    case SwitchBuffer(b) => Switch(l, b)
    case KillBuffer(b, cleared) => Kill(l, b, cleared)
    case MoveDot(at) => Outcome(l.(windows := l.windows[l.cur := l.windows[l.cur].(at := at)]), true)
  }

  // ---- Counting windows ----

  lemma {:induction false} CountJoin(a: seq<Window>, c: seq<Window>, b: BufferId)
    ensures Count(a + c, b) == Count(a, b) + Count(c, b)
  {
    if c == [] {
      assert a + c == a;
    } else {
      assert (a + c)[..|a + c| - 1] == a + c[..|c| - 1];
      CountJoin(a, c[..|c| - 1], b);
    }
  }

  /** Replacing part of the list changes the counts by the counts of the parts. */
  lemma CountReplaced(ws: seq<Window>, i: nat, n: nat, part: seq<Window>, b: BufferId)
    requires i + n <= |ws|
    ensures Count(Replaced(ws, i, n, part), b) == Count(ws, b) - Count(ws[i..i + n], b) + Count(part, b)
  {
    CountJoin(ws[..i] + part, ws[i + n..], b);
    CountJoin(ws[..i], part, b);
    assert ws == ws[..i] + ws[i..i + n] + ws[i + n..];
    CountJoin(ws[..i] + ws[i..i + n], ws[i + n..], b);
    CountJoin(ws[..i], ws[i..i + n], b);
  }

  lemma CountFew(w: Window, v: Window)
    ensures forall b :: Count([w], b) == if w.buffer == b then 1 else 0
    ensures forall b :: Count([w, v], b) == (if w.buffer == b then 1 else 0) + (if v.buffer == b then 1 else 0)
  {
    forall b
      ensures Count([w], b) == if w.buffer == b then 1 else 0
      ensures Count([w, v], b) == (if w.buffer == b then 1 else 0) + (if v.buffer == b then 1 else 0)
    {
      assert [w][..0] == [];
      assert [w, v][..1] == [w];
    }
  }

  lemma WrapAdds(x: int, k: int)
    ensures Wrap(Wrap(x) + k) == Wrap(x + k)
    ensures 0 <= x < 256 ==> Wrap(x) == x
  {
  }

  lemma WrapTakes(x: int, k: int)
    ensures Wrap(Wrap(x) - k) == Wrap(x - k)
  {
    WrapAdds(x, -k);
  }

  /** A buffer on the screen has a positive count. */
  lemma {:induction false} ShownIsCounted(ws: seq<Window>, i: nat)
    requires i < |ws|
    ensures Count(ws, ws[i].buffer) >= 1
  {
    if i < |ws| - 1 {
      ShownIsCounted(ws[..|ws| - 1], i);
    }
  }

  lemma {:induction false} CountAtMost(ws: seq<Window>, b: BufferId)
    ensures Count(ws, b) <= |ws|
  {
    if ws != [] {
      CountAtMost(ws[..|ws| - 1], b);
    }
  }

  /** Releasing windows takes their counts off. */
  lemma {:induction false} ReleaseAllCounts(bufs: map<BufferId, BufferRecord>, ws: seq<Window>, b: BufferId)
    requires (forall i :: 0 <= i < |ws| ==> ws[i].buffer in bufs) && b in bufs
    ensures ReleaseAll(bufs, ws)[b].windows == Wrap(bufs[b].windows - Count(ws, b))
  {
    hide Wrap;
    WrapAdds(bufs[b].windows, 0);
    if ws != [] {
      var t := ws[..|ws| - 1];
      ReleaseAllCounts(bufs, t, b);
      WrapTakes(bufs[b].windows - Count(t, b), 1);
    }
  }

  // ---- The tiling ----

  /** Cutting the screen at a window: what comes before ends where that window begins. */
  lemma {:induction false} TopsGrow(ws: seq<Window>, rows: int, i: nat, j: nat)
    requires Tiled(ws, rows) && i < j < |ws|
    ensures ModeLine(ws[i]) < ws[j].top
  {
    if i < j - 1 {
      TopsGrow(ws, rows, i, j - 1);
    }
  }

  lemma OnScreen(ws: seq<Window>, rows: int, i: nat)
    requires Tiled(ws, rows) && i < |ws|
    ensures ws[i].top <= ModeLine(ws[i]) <= rows - 1
  {
    if i < |ws| - 1 {
      TopsGrow(ws, rows, i, |ws| - 1);
    }
  }

  /** A part of the list may be replaced by windows that tile the same rows. */
  lemma ReplacedTiled(ws: seq<Window>, rows: int, i: nat, n: nat, part: seq<Window>)
    requires Tiled(ws, rows) && n > 0 && i + n <= |ws| && |part| > 0
    requires part[0].top == ws[i].top && ModeLine(part[|part| - 1]) == ModeLine(ws[i + n - 1])
    requires forall j, k :: 0 <= j && k == j + 1 < |part| ==> part[k].top == ModeLine(part[j]) + 1
    requires forall j :: 0 <= j < |part| ==> part[j].rows >= 0
    ensures Tiled(Replaced(ws, i, n, part), rows)
  {
    hide Replaced;
    var r := Replaced(ws, i, n, part);
    forall k | 0 <= k < |r|
      ensures r[k].rows >= 0 && (k > 0 ==> r[k].top == ModeLine(r[k - 1]) + 1)
    {
      ReplacedAt(ws, i, n, part, k);
      if k > 0 {
        ReplacedAt(ws, i, n, part, k - 1);
      }
    }
    ReplacedAt(ws, i, n, part, 0);
    ReplacedAt(ws, i, n, part, |r| - 1);
  }

  /** Every window but the last has a row of text; the last may have none. */
  predicate Upright(ws: seq<Window>) {
    forall i :: 0 <= i < |ws| - 1 ==> ws[i].rows >= 1
  }

  lemma ReplacedUpright(ws: seq<Window>, i: nat, n: nat, part: seq<Window>)
    requires Upright(ws) && n > 0 && i + n <= |ws| && |part| > 0
    requires forall j :: 0 <= j < |part| ==> part[j].rows >= 1 || (j == |part| - 1 && i + n == |ws|)
    ensures Upright(Replaced(ws, i, n, part))
    ensures Roomy(ws) && Roomy(part) ==> Roomy(Replaced(ws, i, n, part))
  {
    var r := Replaced(ws, i, n, part);
    forall k | 0 <= k < |r|
      ensures k < |r| - 1 ==> r[k].rows >= 1
      ensures Roomy(ws) && Roomy(part) ==> r[k].rows >= 1
    {
      assert |r| == |ws| - n + |part|;
      assert r[k] == if k < i then ws[k] else if k < i + |part| then part[k - i] else ws[k - |part| + n];
    }
  }

  /** A screen of `rows` rows has room for at most half as many windows. */
  lemma {:induction false} FewWindows(ws: seq<Window>, rows: int)
    requires Tiled(ws, rows) && Upright(ws)
    ensures 2 * |ws| - 1 <= rows && (Roomy(ws) ==> 2 * |ws| <= rows)
  {
    if |ws| > 1 {
      FewWindows(ws[..|ws| - 1], ws[|ws| - 1].top);
    }
  }

  // ---- What each command keeps ----

  lemma GoodParts(l: Layout)
    requires Good(l)
    ensures Tiled(l.windows, l.rows) && Counted(l.windows, l.buffers)
    ensures forall i, j :: 0 <= i && j == i + 1 < |l.windows| ==> l.windows[j].top == ModeLine(l.windows[i]) + 1
    ensures forall i :: 0 <= i < |l.windows| ==> l.windows[i].rows >= 0 && l.windows[i].buffer in l.buffers
    ensures l.windows[0].top == 0
  {
  }

  /** Counters that changed by the counts of the replaced parts are right for the new list. */
  lemma CountedReplaced(ws: seq<Window>, was: map<BufferId, BufferRecord>, i: nat, n: nat, part: seq<Window>,
      bufs: map<BufferId, BufferRecord>)
    requires Counted(ws, was) && i + n <= |ws| && bufs.Keys == was.Keys
    requires forall j :: 0 <= j < |part| ==> part[j].buffer in was
    requires forall b :: b in bufs ==> bufs[b].windows == Wrap(was[b].windows + Count(part, b) - Count(ws[i..i + n], b))
    ensures Counted(Replaced(ws, i, n, part), bufs)
  {
    hide Wrap, Count, Replaced;
    forall k | 0 <= k < |Replaced(ws, i, n, part)| ensures Replaced(ws, i, n, part)[k].buffer in bufs {
      ReplacedAt(ws, i, n, part, k);
    }
    forall b | b in bufs ensures bufs[b].windows == Wrap(Count(Replaced(ws, i, n, part), b)) {
      CountedOne(ws, i, n, part, b, was[b].windows, bufs[b].windows);
    }
  }

  lemma ReplacedAt(ws: seq<Window>, i: nat, n: nat, part: seq<Window>, k: nat)
    requires i + n <= |ws| && k < |ws| - n + |part|
    ensures Replaced(ws, i, n, part)[k] == if k < i then ws[k] else if k < i + |part| then part[k - i] else ws[k - |part| + n]
  {
  }

  lemma CountedOne(ws: seq<Window>, i: nat, n: nat, part: seq<Window>, b: BufferId, was: Byte, now: Byte)
    requires i + n <= |ws| && was == Wrap(Count(ws, b))
    requires now == Wrap(was + Count(part, b) - Count(ws[i..i + n], b))
    ensures now == Wrap(Count(Replaced(ws, i, n, part), b))
  {
    hide Wrap, Count, Replaced;
    CountReplaced(ws, i, n, part, b);
    WrapAdds(Count(ws, b), Count(part, b) - Count(ws[i..i + n], b));
  }

  /** The new window list of a command that replaces a part of the old one. */
  lemma PartKeeps(l: Layout, i: nat, n: nat, part: seq<Window>, r: Layout)
    requires Good(l) && n > 0 && i + n <= |l.windows| && |part| > 0
    requires part[0].top == l.windows[i].top && ModeLine(part[|part| - 1]) == ModeLine(l.windows[i + n - 1])
    requires forall j, k :: 0 <= j && k == j + 1 < |part| ==> part[k].top == ModeLine(part[j]) + 1
    requires forall j :: 0 <= j < |part| ==> part[j].rows >= 0
    requires forall j :: 0 <= j < |part| ==> part[j].buffer in l.buffers
    requires r.buffers.Keys == l.buffers.Keys
    requires forall b :: b in r.buffers ==>
      r.buffers[b].windows == Wrap(l.buffers[b].windows + Count(part, b) - Count(l.windows[i..i + n], b))
    requires r.windows == Replaced(l.windows, i, n, part) && r.rows == l.rows
    requires r.cur < |r.windows| && r.curbp == r.windows[r.cur].buffer
    ensures Good(r)
  {
    hide Tiled, Counted, Replaced, Count, Wrap;
    GoodParts(l);
    ReplacedTiled(l.windows, l.rows, i, n, part);
    CountedReplaced(l.windows, l.buffers, i, n, part, r.buffers);
  }

  lemma SplitKeeps(l: Layout, given: bool, n: int, dotRow: int)
    requires Good(l)
    ensures Good(Split(l, given, n, dotRow).layout)
    ensures Upright(l.windows) ==> Upright(Split(l, given, n, dotRow).layout.windows)
    ensures Roomy(l.windows) ==> Roomy(Split(l, given, n, dotRow).layout.windows)
  {
    hide Tiled, Counted, Count, Wrap, Upright, Roomy, Replaced, Retain;
    GoodParts(l);
    var w := l.windows[l.cur];
    if w.rows >= 3 {
      var upper := (w.rows - 1) / 2;
      HalvesKeep(l, w.(rows := upper), w.(top := w.top + upper + 1, rows := w.rows - 1 - upper), Split(l, given, n, dotRow).layout);
    }
  }

  lemma HalvesKeep(l: Layout, upper: Window, lower: Window, r: Layout)
    requires Good(l) && upper.buffer == lower.buffer == l.windows[l.cur].buffer
    requires upper.top == l.windows[l.cur].top && lower.top == ModeLine(upper) + 1
    requires ModeLine(lower) == ModeLine(l.windows[l.cur]) && upper.rows >= 1 && lower.rows >= 1
    requires r.windows == Replaced(l.windows, l.cur, 1, [upper, lower]) && l.cur <= r.cur <= l.cur + 1
    requires r.rows == l.rows && r.curbp == l.curbp && r.buffers == Retain(l.buffers, l.curbp)
    ensures Good(r)
    ensures Upright(l.windows) ==> Upright(r.windows)
    ensures Roomy(l.windows) ==> Roomy(r.windows)
  {
    hide Tiled, Counted, Count, Wrap, Upright, Roomy, Retain;
    GoodParts(l);
    if Upright(l.windows) {
      HalvesUpright(l.windows, l.cur, upper, lower);
    }
    if Roomy(l.windows) {
      RoomyIsUpright(l.windows);
    }
    HalvesCounted(l, upper, lower);
    PartKeeps(l, l.cur, 1, [upper, lower], r);
  }

  lemma HalvesUpright(ws: seq<Window>, i: nat, upper: Window, lower: Window)
    requires Upright(ws) && i < |ws| && upper.rows >= 1 && lower.rows >= 1
    ensures Upright(Replaced(ws, i, 1, [upper, lower]))
    ensures Roomy(ws) ==> Roomy(Replaced(ws, i, 1, [upper, lower]))
  {
    hide Replaced;
    ReplacedUpright(ws, i, 1, [upper, lower]);
  }

  lemma HalvesCounted(l: Layout, upper: Window, lower: Window)
    requires l.cur < |l.windows| && upper.buffer == lower.buffer == l.windows[l.cur].buffer == l.curbp && l.curbp in l.buffers
    ensures var r := Retain(l.buffers, l.curbp);
      r.Keys == l.buffers.Keys && forall b :: b in r ==>
        r[b].windows == Wrap(l.buffers[b].windows + Count([upper, lower], b) - Count(l.windows[l.cur..l.cur + 1], b))
  {
    hide Count, Wrap;
    var w := l.windows[l.cur];
    assert l.windows[l.cur..l.cur + 1] == [w];
    CountFew(w, w);
    CountFew(upper, lower);
    forall b | b in l.buffers { WrapAdds(l.buffers[b].windows, 0); }
  }

  /** The counters after one window on `w`'s buffer is gone. */
  lemma ReleasedOne(l: Layout, w: Window, part: seq<Window>, b: BufferId)
    requires Good(l) && b in l.buffers && w.buffer in l.buffers
    requires Count(part, b) == if w.buffer == b then 1 else 0
    ensures Release(l.buffers, w)[b].windows == Wrap(l.buffers[b].windows - Count(part, b))
  {
    hide Tiled, Counted, Count, Wrap;
    WrapAdds(l.buffers[b].windows, 0);
  }

  lemma DeleteKeeps(l: Layout)
    requires Good(l)
    ensures Good(Delete(l).layout)
    ensures Upright(l.windows) ==> Upright(Delete(l).layout.windows)
    ensures Roomy(l.windows) ==> Roomy(Delete(l).layout.windows)
  {
    var ws, w := l.windows, l.windows[l.cur];
    if |ws| > 1 {
      var i := if l.cur == 0 then 0 else l.cur - 1;
      var heir := if l.cur == 0 then ws[1].(top := 0, rows := ws[1].rows + w.rows + 1)
                  else ws[i].(rows := ws[i].rows + w.rows + 1);
      GoodParts(l);
      MergeKeeps(l, i, heir, w, Delete(l).layout);
    }
  }

  lemma MergeKeeps(l: Layout, i: nat, heir: Window, gone: Window, r: Layout)
    requires Good(l) && i + 1 < |l.windows|
    requires heir.top == l.windows[i].top && ModeLine(heir) == ModeLine(l.windows[i + 1])
    requires (gone == l.windows[i] && heir.buffer == l.windows[i + 1].buffer)
      || (gone == l.windows[i + 1] && heir.buffer == l.windows[i].buffer)
    requires heir.rows == l.windows[i].rows + l.windows[i + 1].rows + 1
    requires r == l.(windows := Replaced(l.windows, i, 2, [heir]), cur := i, curbp := heir.buffer,
                     buffers := Release(l.buffers, gone))
    ensures Good(r)
    ensures Upright(l.windows) ==> Upright(r.windows)
    ensures Roomy(l.windows) ==> Roomy(r.windows)
  {
    hide Tiled, Counted, Count, Wrap, Upright, Roomy, Release, Replaced;
    GoodParts(l);
    ReplacedAt(l.windows, i, 2, [heir], i);
    var ws := l.windows;
    if Roomy(ws) {
      RoomyIsUpright(ws);
    }
    if Upright(ws) {
      OneRowEach(ws, heir, i);
      ReplacedUpright(ws, i, 2, [heir]);
    }
    forall b | b in r.buffers
      ensures r.buffers[b].windows == Wrap(l.buffers[b].windows + Count([heir], b) - Count(ws[i..i + 2], b))
    {
      hide Good;
      assert ws[i..i + 2] == [ws[i], ws[i + 1]];
      CountFew(ws[i], ws[i + 1]);
      CountFew(heir, gone);
      CountFew(gone, gone);
      ReleasedOne(l, gone, [gone], b);
    }
    PartKeeps(l, i, 2, [heir], r);
  }

  lemma OneRowEach(ws: seq<Window>, heir: Window, i: nat)
    requires i + 1 < |ws| && heir.rows == ws[i].rows + ws[i + 1].rows + 1 && ws[i].rows >= 0 && ws[i + 1].rows >= 0
    ensures Roomy([heir])
  {
  }

  lemma GrowKeeps(l: Layout, n: int, shrinking: bool)
    requires Good(l) && (shrinking ==> n <= 0) && (!shrinking ==> n >= 0)
    ensures Good(Grow(l, n, shrinking).layout)
    ensures Upright(l.windows) ==> Upright(Grow(l, n, shrinking).layout.windows)
    ensures Roomy(l.windows) ==> Roomy(Grow(l, n, shrinking).layout.windows)
  {
    hide Tiled, Counted, Count, Upright, Shift;
    GoodParts(l);
    if Grow(l, n, shrinking).ok {
      if l.cur + 1 < |l.windows| {
        ShiftKeeps(l, l.cur, n);
      } else {
        ShiftKeeps(l, l.cur - 1, -n);
      }
    }
  }

  /** Moving the mode line between two windows, neither of which is left with fewer rows than none. */
  lemma ShiftKeeps(l: Layout, i: nat, n: int)
    requires Good(l) && i + 1 < |l.windows|
    requires l.windows[i].rows + n >= 0 && l.windows[i + 1].rows - n >= 0
    requires l.windows[i].rows > 0 ==> l.windows[i].rows + n > 0
    requires l.windows[i + 1].rows > 0 ==> l.windows[i + 1].rows - n > 0
    ensures Good(l.(windows := Shift(l.windows, i, n)))
    ensures Upright(l.windows) ==> Upright(Shift(l.windows, i, n))
    ensures Roomy(l.windows) ==> Roomy(Shift(l.windows, i, n))
  {
    hide Tiled, Counted, Count, Wrap, Upright, Roomy, Replaced;
    GoodParts(l);
    var upper := l.windows[i].(rows := l.windows[i].rows + n);
    var lower := l.windows[i + 1].(top := l.windows[i + 1].top + n, rows := l.windows[i + 1].rows - n);
    PairKeeps(l, i, upper, lower);
    PairUpright(l.windows, i, upper, lower);
  }

  lemma PairKeeps(l: Layout, i: nat, upper: Window, lower: Window)
    requires Good(l) && i + 1 < |l.windows|
    requires upper.buffer == l.windows[i].buffer && lower.buffer == l.windows[i + 1].buffer
    requires upper.top == l.windows[i].top && lower.top == ModeLine(upper) + 1
    requires ModeLine(lower) == ModeLine(l.windows[i + 1])
    requires upper.rows >= 0 && lower.rows >= 0
    ensures Good(l.(windows := Replaced(l.windows, i, 2, [upper, lower])))
  {
    hide Tiled, Counted, Count, Wrap;
    GoodParts(l);
    PairCounts(l, i, upper, lower);
    PartKeeps(l, i, 2, [upper, lower], l.(windows := Replaced(l.windows, i, 2, [upper, lower])));
  }

  lemma PairUpright(ws: seq<Window>, i: nat, upper: Window, lower: Window)
    requires i + 1 < |ws|
    requires ws[i].rows > 0 ==> upper.rows > 0
    requires ws[i + 1].rows > 0 ==> lower.rows > 0
    ensures Upright(ws) ==> Upright(Replaced(ws, i, 2, [upper, lower]))
    ensures Roomy(ws) ==> Roomy(Replaced(ws, i, 2, [upper, lower]))
  {
    hide Replaced;
    if Upright(ws) {
      RowsOf(ws);
      ReplacedUpright(ws, i, 2, [upper, lower]);
    }
  }

  lemma PairCounts(l: Layout, i: nat, upper: Window, lower: Window)
    requires i + 1 < |l.windows| && upper.buffer == l.windows[i].buffer && lower.buffer == l.windows[i + 1].buffer
    ensures forall b :: b in l.buffers ==>
      l.buffers[b].windows == Wrap(l.buffers[b].windows + Count([upper, lower], b) - Count(l.windows[i..i + 2], b))
  {
    hide Count, Wrap;
    assert l.windows[i..i + 2] == [l.windows[i], l.windows[i + 1]];
    CountFew(l.windows[i], l.windows[i + 1]);
    CountFew(upper, lower);
    forall b | b in l.buffers { WrapAdds(l.buffers[b].windows, 0); }
  }

  lemma RowsOf(ws: seq<Window>)
    requires Upright(ws)
    ensures forall i :: 0 <= i < |ws| - 1 ==> ws[i].rows >= 1
  {
  }

  lemma SwitchCounts(l: Layout, b: BufferId, c: BufferId)
    requires Good(l) && b in l.buffers && c in l.buffers
    ensures Switch(l, b).layout.buffers.Keys == l.buffers.Keys
    ensures Switch(l, b).layout.buffers[c].windows
      == Wrap(l.buffers[c].windows + (if b == c then 1 else 0) - (if l.windows[l.cur].buffer == c then 1 else 0))
  {
    hide Tiled, Counted, Wrap, OtherWindow;
    GoodParts(l);
    WrapAdds(l.buffers[c].windows, 0);
    WrapAdds(l.buffers[c].windows - 1, 1);
  }

  lemma SwitchKeeps(l: Layout, b: BufferId)
    requires Good(l) && b in l.buffers
    ensures Good(Switch(l, b).layout)
    ensures Upright(l.windows) ==> Upright(Switch(l, b).layout.windows)
    ensures Roomy(l.windows) ==> Roomy(Switch(l, b).layout.windows)
  {
    hide Tiled, Counted, Count, Wrap, Upright, OtherWindow, Release, Retain;
    GoodParts(l);
    var r := Switch(l, b).layout;
    var w, v := l.windows[l.cur], r.windows[l.cur];
    assert r.windows == Replaced(l.windows, l.cur, 1, [v]);
    if Upright(l.windows) {
      RowsOf(l.windows);
      ReplacedUpright(l.windows, l.cur, 1, [v]);
    }
    assert l.windows[l.cur..l.cur + 1] == [w];
    CountFew(w, w);
    CountFew(v, v);
    SwitchCounts(l, b, b);
    forall c | c in l.buffers
      ensures r.buffers[c].windows == Wrap(l.buffers[c].windows + Count([v], c) - Count([w], c))
    {
      SwitchCounts(l, b, c);
    }
    PartKeeps(l, l.cur, 1, [v], r);
  }

  lemma OnlyKeeps(l: Layout)
    requires Good(l)
    ensures Good(Only(l).layout) && Upright(Only(l).layout.windows)
    ensures Roomy(Only(l).layout.windows) <==> l.rows >= 2
  {
    hide Count, Wrap, ReleaseAll;
    var ws, r := l.windows, Only(l).layout;
    var above, below := ws[..l.cur], ws[l.cur + 1..];
    forall b | b in l.buffers ensures r.buffers[b].windows == Wrap(Count(r.windows, b)) {
      hide Good;
      assert ws == above + [ws[l.cur]] + below;
      CountJoin(above + [ws[l.cur]], below, b);
      CountJoin(above, [ws[l.cur]], b);
      CountFew(ws[l.cur], ws[l.cur]);
      CountFew(r.windows[0], r.windows[0]);
      ReleaseAllCounts(l.buffers, above, b);
      ReleaseAllCounts(ReleaseAll(l.buffers, above), below, b);
      WrapTakes(Count(ws, b), Count(above, b));
      WrapTakes(Count(ws, b) - Count(above, b), Count(below, b));
    }
  }

  /** A new size leaves a window without a row iff it is smaller and a window begins on its last
      text row. */
  predicate Squeezes(l: Layout, size: int) {
    3 <= size <= MAXROW + 1 && size - 1 < l.rows && exists i :: 0 <= i < |l.windows| && l.windows[i].top == size - 2
  }

  lemma ResizedCounts(l: Layout, k: nat, last: Window, b: BufferId)
    requires Good(l) && 0 < k <= |l.windows| && last.buffer == l.windows[k - 1].buffer && b in l.buffers
    ensures ReleaseAll(l.buffers, l.windows[k..])[b].windows == Wrap(Count(l.windows[..k - 1] + [last], b))
  {
    hide Count, Wrap, ReleaseAll, Tiled;
    var ws := l.windows;
    assert ws[..k] == ws[..k - 1] + [ws[k - 1]] && ws == ws[..k] + ws[k..];
    CountJoin(ws[..k], ws[k..], b);
    CountJoin(ws[..k - 1], [ws[k - 1]], b);
    CountJoin(ws[..k - 1], [last], b);
    CountFew(ws[k - 1], ws[k - 1]);
    CountFew(last, last);
    ReleaseAllCounts(l.buffers, ws[k..], b);
    WrapTakes(Count(ws, b), Count(ws[k..], b));
  }

  /** Where a new size cuts the window list. */
  lemma CutWindow(l: Layout, n: int)
    requires Good(l) && 3 <= n <= MAXROW + 1 && n - 1 != l.rows
    ensures var k := KeptBelow(l.windows, n - 1);
      && 0 < k && l.windows[k - 1].top <= n - 2
      && (Squeezes(l, n) <==> l.windows[k - 1].top == n - 2)
  {
    var ws, k := l.windows, KeptBelow(l.windows, n - 1);
    KeptTops(ws, n - 1);
    assert ws[0].top < n - 1;
    forall i | 0 <= i < |ws| && i != k - 1 ensures ws[i].top != n - 2 {
      if i < k - 1 {
        TopsGrow(ws, l.rows, i, k - 1);
      } else if k < i {
        TopsGrow(ws, l.rows, k, i);
      }
    }
    OnScreen(ws, l.rows, k - 1);
    if ws[k - 1].top == n - 2 {
      assert Squeezes(l, n);
    }
  }

  lemma ResizedTiled(l: Layout, n: int)
    requires Good(l) && 3 <= n <= MAXROW + 1 && n - 1 != l.rows
    ensures Tiled(Resized(l, n).windows, n - 1)
    ensures Upright(l.windows) ==> Upright(Resized(l, n).windows)
    ensures Roomy(l.windows) ==> (Roomy(Resized(l, n).windows) <==> !Squeezes(l, n))
  {
    hide Count, Wrap, ReleaseAll, Counted, Squeezes;
    CutWindow(l, n);
    var k := KeptBelow(l.windows, n - 1);
    assert Resized(l, n).windows[k - 1].rows == n - l.windows[k - 1].top - 2;
  }

  lemma ResizedKeeps(l: Layout, n: int)
    requires Good(l) && 3 <= n <= MAXROW + 1 && n - 1 != l.rows
    ensures Good(Resized(l, n)) && Resized(l, n).rows == n - 1
    ensures Upright(l.windows) ==> Upright(Resized(l, n).windows)
    ensures Roomy(l.windows) ==> (Roomy(Resized(l, n).windows) <==> !Squeezes(l, n))
  {
    hide Count, Wrap, ReleaseAll, Tiled, Squeezes, Upright, Roomy;
    var r, k := Resized(l, n), KeptBelow(l.windows, n - 1);
    CutWindow(l, n);
    ResizedTiled(l, n);
    forall b | b in l.buffers ensures r.buffers[b].windows == Wrap(Count(r.windows, b)) {
      ResizedCounts(l, k, r.windows[k - 1], b);
    }
  }

  // ---- Killing buffers ----

  /** Few enough rows for the one-byte counters: at most 511, and no window squeezed among more than
      `MAXROW`. */
  ghost predicate Safe(l: Layout) {
    && Good(l) && Upright(l.windows)
    && l.rows <= 511 && (l.rows > MAXROW ==> Roomy(l.windows))
  }

  /** Then no counter wraps: each is the number of windows. */
  lemma CountersExact(l: Layout, b: BufferId)
    requires Safe(l) && b in l.buffers
    ensures l.buffers[b].windows == Count(l.windows, b)
  {
    FewWindows(l.windows, l.rows);
    CountAtMost(l.windows, b);
  }

  /** A kill takes a buffer off the list exactly when the counter shows 0 and the user agrees. */
  lemma KillRemoves(l: Layout, b: BufferId, cleared: bool)
    requires Good(l) && b in l.buffers
    ensures b !in Kill(l, b, cleared).layout.buffers <==> cleared && Count(l.windows, b) % 256 == 0
  {
  }

  /** No window is left showing a killed buffer. */
  predicate KillsSafely(l: Layout, b: BufferId)
    requires b in l.buffers
  {
    b !in Kill(l, b, true).layout.buffers ==> Count(l.windows, b) == 0
  }

  lemma KillKeeps(l: Layout, b: BufferId, cleared: bool)
    requires Safe(l) && b in l.buffers
    ensures Good(Kill(l, b, cleared).layout) && KillsSafely(l, b)
  {
    CountersExact(l, b);
    forall i | 0 <= i < |l.windows| ensures Count(l.windows, l.windows[i].buffer) > 0 {
      ShownIsCounted(l.windows, i);
    }
  }

  lemma {:induction false} UnshownIsUncounted(ws: seq<Window>, b: BufferId)
    requires forall i :: 0 <= i < |ws| ==> ws[i].buffer != b
    ensures Count(ws, b) == 0
  {
    if ws != [] {
      UnshownIsUncounted(ws[..|ws| - 1], b);
    }
  }

  lemma CreateKeeps(l: Layout, b: BufferId)
    requires Good(l)
    ensures Good(Create(l, b).layout)
  {
    if b !in l.buffers {
      UnshownIsUncounted(l.windows, b);
    }
  }

  lemma {:induction false} CountIgnoresPoints(ws: seq<Window>, vs: seq<Window>, b: BufferId)
    requires |ws| == |vs| && forall i :: 0 <= i < |ws| ==> ws[i].buffer == vs[i].buffer
    ensures Count(ws, b) == Count(vs, b)
  {
    if ws != [] {
      CountIgnoresPoints(ws[..|ws| - 1], vs[..|vs| - 1], b);
    }
  }

  lemma MoveKeeps(l: Layout, at: Point)
    requires Good(l)
    ensures Good(Do(l, MoveDot(at)).layout)
    ensures Upright(l.windows) ==> Upright(Do(l, MoveDot(at)).layout.windows)
    ensures Roomy(l.windows) ==> Roomy(Do(l, MoveDot(at)).layout.windows)
  {
    var r := Do(l, MoveDot(at)).layout;
    forall b ensures Count(l.windows, b) == Count(r.windows, b) {
      CountIgnoresPoints(l.windows, r.windows, b);
    }
  }

  lemma NextKeeps(l: Layout, given: bool, n: int)
    requires Good(l)
    ensures Good(Next(l, given, n).layout) && Next(l, given, n).layout.windows == l.windows
    ensures Good(Previous(l, given, n).layout) && Previous(l, given, n).layout.windows == l.windows
  {
  }

  lemma ScreenKeeps(l: Layout, given: bool, n: int)
    requires Good(l)
    ensures Good(Screen(l, given, n).layout)
    ensures Upright(l.windows) ==> Upright(Screen(l, given, n).layout.windows)
    ensures Roomy(l.windows) ==> (Roomy(Screen(l, given, n).layout.windows) <==> !Squeezes(l, if given then n else MAXROW + 1))
    ensures Screen(l, given, n).layout.rows == l.rows || Screen(l, given, n).layout.rows <= MAXROW
    ensures Squeezes(l, if given then n else MAXROW + 1) ==> Screen(l, given, n).layout.rows <= MAXROW
  {
    hide Roomy, Upright, Resized;
    var size := if given then n else MAXROW + 1;
    if 3 <= size <= MAXROW + 1 && l.rows != size - 1 {
      ResizedKeeps(l, size);
    }
  }

  /** The layout the editor starts with on a terminal of `rows + 1` lines. */
  function Initial(rows: int, b: BufferId): Layout {
    Layout([Window(b, 0, rows - 1, Point(0, 0))], 0, b, map[b := BufferRecord(1, Point(0, 0))], rows)
  }

  lemma InitialIsGood(rows: int, b: BufferId)
    requires rows >= 1
    ensures Good(Initial(rows, b)) && Upright(Initial(rows, b).windows)
    ensures Roomy(Initial(rows, b).windows) <==> rows >= 2
    ensures Safe(Initial(rows, b)) <==> rows <= 511
  {
    var w := Window(b, 0, rows - 1, Point(0, 0));
    CountFew(w, w);
    assert Count([w], b) == 1;
  }

  // ---- Every run ----

  /** The row counts a command leaves a window without a row at: never, but for a smaller size. */
  predicate Squeezing(l: Layout, c: Command) {
    c.NewSize? && Squeezes(l, if c.given then c.n else MAXROW + 1)
  }

  /** One command keeps the tiling, the counters and the current buffer; every window but the last
      keeps a row; and if all had one, all have one after, unless a new size squeezes the last. */
  lemma StepKeeps(l: Layout, c: Command)
    requires Safe(l) && Sensible(l, c)
    ensures Safe(Do(l, c).layout)
    ensures Roomy(l.windows) ==> (Roomy(Do(l, c).layout.windows) <==> !Squeezing(l, c))
  {
    hide Good, Upright, Roomy, Squeezes, Split, Delete, Only, Grow, Next, Previous, Switch, Screen;
    RowsStay(l, c);
    match c
    case SplitWind(given, n, dotRow) => SplitKeeps(l, given, n, dotRow);
    case DelWind => DeleteKeeps(l);
    case OnlyWind =>
      OnlyKeeps(l);
      if Roomy(l.windows) { RoomyHasRows(l); }
    case EnlargeWind(n) => GrowKeeps(l, n, n < 0);
    case ShrinkWind(n) => GrowKeeps(l, -n, n >= 0);
    case Resize(given, n) =>
      CurIsWindow(l);
      var rows := l.windows[l.cur].rows;
      if given && rows != n { GrowKeeps(l, n - rows, n < rows); }
    case NextWind(given, n) => NextKeeps(l, given, n);
    case PrevWind(given, n) => NextKeeps(l, given, n);
    case NewSize(given, n) => ScreenKeeps(l, given, n);
    case NewBuffer(b) => CreateKeeps(l, b);
    case SwitchBuffer(b) => SwitchKeeps(l, b);
    case KillBuffer(b, cleared) => KillKeeps(l, b, cleared);
    case MoveDot(at) => MoveKeeps(l, at);
  }

  lemma RowsStay(l: Layout, c: Command)
    requires Good(l) && Sensible(l, c)
    ensures !c.NewSize? ==> Do(l, c).layout.rows == l.rows
  {
  }

  lemma RoomyHasRows(l: Layout)
    requires Good(l) && Roomy(l.windows)
    ensures l.rows >= 2
  {
    RoomyIsUpright(l.windows);
    FewWindows(l.windows, l.rows);
  }

  lemma CurIsWindow(l: Layout)
    requires Good(l)
    ensures l.cur < |l.windows| && l.curbp == l.windows[l.cur].buffer && l.curbp in l.buffers
  {
  }

  lemma RoomyIsUpright(ws: seq<Window>)
    requires Roomy(ws)
    ensures Upright(ws)
  {
  }

  /** A run of commands, each finding the buffer it names, each but the last leaving a good layout;
      on a small enough screen they all do (`StepKeeps`). */
  ghost predicate Runs(l: Layout, cs: seq<Command>)
    requires Good(l)
    decreases |cs|
  {
    cs == [] || (Sensible(l, cs[0]) && Good(Do(l, cs[0]).layout) && Runs(Do(l, cs[0]).layout, cs[1..]))
  }

  ghost function After(l: Layout, cs: seq<Command>): (r: Layout)
    requires Good(l) && Runs(l, cs)
    ensures Good(r)
    decreases |cs|
  {
    if cs == [] then l else After(Do(l, cs[0]).layout, cs[1..])
  }

  /** No new size of the run squeezes a window. */
  ghost predicate NeverSqueezed(l: Layout, cs: seq<Command>)
    requires Good(l) && Runs(l, cs)
    decreases |cs|
  {
    cs == [] || (!Squeezing(l, cs[0]) && NeverSqueezed(Do(l, cs[0]).layout, cs[1..]))
  }

  /** Over every run of commands the windows tile the screen exactly, the current buffer is the current
      window's, every counter is the number of windows on its buffer, no window shows a buffer that
      was killed, and only the bottom window may be without a row, after a size that squeezed it. */
  lemma {:induction false} RunsKeep(l: Layout, cs: seq<Command>)
    requires Safe(l) && Runs(l, cs)
    ensures var r := After(l, cs);
      && Safe(r)
      && Tiled(r.windows, r.rows) && r.cur < |r.windows| && r.curbp == r.windows[r.cur].buffer
      && (forall i :: 0 <= i < |r.windows| ==> r.windows[i].buffer in r.buffers)
      && (forall b :: b in r.buffers ==> r.buffers[b].windows == Count(r.windows, b))
      && Upright(r.windows)
      && (Roomy(l.windows) && NeverSqueezed(l, cs) ==> Roomy(r.windows))
    decreases |cs|
  {
    if cs == [] {
      forall b | b in l.buffers ensures l.buffers[b].windows == Count(l.windows, b) {
        CountersExact(l, b);
      }
    } else {
      StepKeeps(l, cs[0]);
      RunsKeep(Do(l, cs[0]).layout, cs[1..]);
    }
  }

  // ---- 256 windows on one buffer ----

  /** One-row windows on rows 0, 2, 4, ... and the current window below them, all on buffer `b`. */
  function Ladder(rows: int, k: nat, b: BufferId): Layout {
    var at := Point(0, 0);
    Layout(seq(k, i => Window(b, 2 * i, 1, at)) + [Window(b, 2 * k, rows - 1 - 2 * k, at)], k, b,
           map[b := BufferRecord(Wrap(k + 1), at)], rows)
  }

  /** The commands that add a rung: split, shrink the upper half to a row, go to the lower half. */
  function Rung(rows: int, k: nat): seq<Command> {
    var w := rows - 1 - 2 * k;
    [Command.SplitWind(true, 1, 0), Command.ShrinkWind((w - 1) / 2 - 1), Command.NextWind(false, 0)]
  }

  function Rungs(rows: int, k: nat, n: nat): seq<Command>
    requires k <= n
    decreases n - k
  {
    if k == n then [] else Rung(rows, k) + Rungs(rows, k + 1, n)
  }

  lemma {:induction false} AllOnOne(ws: seq<Window>, b: BufferId)
    requires forall i :: 0 <= i < |ws| ==> ws[i].buffer == b
    ensures Count(ws, b) == |ws|
  {
    if ws != [] {
      AllOnOne(ws[..|ws| - 1], b);
    }
  }

  lemma LadderIsGood(rows: int, k: nat, b: BufferId)
    requires rows >= 2 * k + 2
    ensures Good(Ladder(rows, k, b))
  {
    AllOnOne(Ladder(rows, k, b).windows, b);
  }

  /** A ladder whose bottom window was split, with `upper` rows above the new mode line. */
  function Half(rows: int, k: nat, upper: int, b: BufferId): Layout {
    var at := Point(0, 0);
    Layout(seq(k, i => Window(b, 2 * i, 1, at)) + HalfPair(rows, k, upper, b), k, b, map[b := BufferRecord(Wrap(k + 2), at)], rows)
  }

  function HalfPair(rows: int, k: nat, upper: int, b: BufferId): seq<Window> {
    var at := Point(0, 0);
    [Window(b, 2 * k, upper, at), Window(b, 2 * k + upper + 1, rows - 2 - 2 * k - upper, at)]
  }

  lemma SplitLadder(rows: int, k: nat, b: BufferId)
    requires rows >= 2 * k + 4 && Good(Ladder(rows, k, b))
    ensures var upper := (rows - 2 - 2 * k) / 2;
      && Good(Half(rows, k, upper, b))
      && Do(Ladder(rows, k, b), Command.SplitWind(true, 1, 0)).layout == Half(rows, k, upper, b)
  {
    hide Replaced, Wrap, Tiled, Counted;
    var l, upper := Ladder(rows, k, b), (rows - 2 - 2 * k) / 2;
    SplitKeeps(l, true, 1, 0);
    LastReplaced(rows, k, HalfPair(rows, k, upper, b), b);
    var w := l.windows[k];
    assert [w.(rows := upper), w.(top := w.top + upper + 1, rows := w.rows - 1 - upper)] == HalfPair(rows, k, upper, b);
    WrapAdds(k + 1, 1);
    var r := Split(l, true, 1, 0).layout;
    assert r.windows == Half(rows, k, upper, b).windows;
    assert r.buffers == Half(rows, k, upper, b).buffers;
  }

  lemma LastReplaced(rows: int, k: nat, pair: seq<Window>, b: BufferId)
    ensures var ws, above := Ladder(rows, k, b).windows, seq(k, i => Window(b, 2 * i, 1, Point(0, 0)));
      |ws| == k + 1 && Replaced(ws, k, 1, pair) == above + pair
  {
  }

  lemma PairReplaced(above: seq<Window>, pair: seq<Window>, pair': seq<Window>)
    requires |pair| == |pair'| == 2
    ensures Replaced(above + pair, |above|, 2, pair') == above + pair'
  {
  }

  lemma HalfShifted(rows: int, k: nat, upper: int, b: BufferId)
    ensures Shift(Half(rows, k, upper, b).windows, k, 1 - upper) == Half(rows, k, 1, b).windows
  {
    var above := seq(k, i => Window(b, 2 * i, 1, Point(0, 0)));
    PairReplaced(above, HalfPair(rows, k, upper, b), HalfPair(rows, k, 1, b));
  }

  lemma ShrinkHalf(rows: int, k: nat, upper: int, b: BufferId)
    requires rows >= 2 * k + 4 && 1 <= upper && Good(Half(rows, k, upper, b))
    ensures Good(Half(rows, k, 1, b)) && Do(Half(rows, k, upper, b), Command.ShrinkWind(upper - 1)).layout == Half(rows, k, 1, b)
  {
    hide Good, Shift, Half;
    HalfParts(rows, k, upper, b);
    HalfShifted(rows, k, upper, b);
    GrowKeeps(Half(rows, k, upper, b), 1 - upper, true);
  }

  lemma HalfParts(rows: int, k: nat, upper: int, b: BufferId)
    ensures var l := Half(rows, k, upper, b);
      && l.cur == k && |l.windows| == k + 2 && l.windows[k].rows == upper
      && l.(windows := Half(rows, k, 1, b).windows) == Half(rows, k, 1, b)
  {
  }

  lemma NextHalf(rows: int, k: nat, b: BufferId)
    requires Good(Half(rows, k, 1, b))
    ensures Do(Half(rows, k, 1, b), Command.NextWind(false, 0)).layout == Ladder(rows, k + 1, b)
  {
    hide Good;
    assert Half(rows, k, 1, b).windows == Ladder(rows, k + 1, b).windows;
  }

  lemma OneStep(l: Layout, c: Command, more: seq<Command>)
    requires Good(l) && Sensible(l, c) && Good(Do(l, c).layout) && Runs(Do(l, c).layout, more)
    ensures Runs(l, [c] + more) && After(l, [c] + more) == After(Do(l, c).layout, more)
  {
    hide Good, Do;
    assert ([c] + more)[1..] == more;
  }

  lemma RungAdded(rows: int, k: nat, b: BufferId, more: seq<Command>)
    requires rows >= 2 * k + 4
    requires Good(Ladder(rows, k + 1, b)) && Runs(Ladder(rows, k + 1, b), more)
    ensures Good(Ladder(rows, k, b)) && Runs(Ladder(rows, k, b), Rung(rows, k) + more)
    ensures After(Ladder(rows, k, b), Rung(rows, k) + more) == After(Ladder(rows, k + 1, b), more)
  {
    hide Good, Ladder, Half, Do;
    var upper, cs := (rows - 2 - 2 * k) / 2, Rung(rows, k);
    LadderIsGood(rows, k, b);
    SplitLadder(rows, k, b);
    ShrinkHalf(rows, k, upper, b);
    NextHalf(rows, k, b);
    OneStep(Half(rows, k, 1, b), cs[2], more);
    OneStep(Half(rows, k, upper, b), cs[1], [cs[2]] + more);
    OneStep(Ladder(rows, k, b), cs[0], [cs[1]] + ([cs[2]] + more));
    assert cs + more == [cs[0]] + ([cs[1]] + ([cs[2]] + more));
  }

  lemma {:induction false} RungsAdded(rows: int, k: nat, n: nat, b: BufferId)
    requires k <= n && rows >= 2 * n + 2
    ensures Good(Ladder(rows, k, b)) && Runs(Ladder(rows, k, b), Rungs(rows, k, n))
    ensures After(Ladder(rows, k, b), Rungs(rows, k, n)) == Ladder(rows, n, b)
    decreases n - k
  {
    hide Good, Ladder, Do, Rung;
    LadderIsGood(rows, k, b);
    if k < n {
      RungsAdded(rows, k + 1, n, b);
      RungAdded(rows, k, b, Rungs(rows, k + 1, n));
    }
  }

  lemma LadderStarts(rows: int, b: BufferId)
    ensures Ladder(rows, 0, b) == Initial(rows, b)
  {
  }

  lemma LadderKills(rows: int, b: BufferId)
    ensures b in Ladder(rows, 255, b).buffers && !KillsSafely(Ladder(rows, 255, b), b)
  {
    AllOnOne(Ladder(rows, 255, b).windows, b);
  }

  /** A displayed buffer is never killed, whatever commands are given, iff the terminal has at most
      512 lines (511 rows and the message line): on a larger one 255 splits give one buffer 256
      windows, which its counter shows as none. */
  lemma KillIsSafeIff(rows: int, b: BufferId)
    requires rows >= 1
    ensures Good(Initial(rows, b))
    ensures (forall cs, c | Runs(Initial(rows, b), cs) && c in After(Initial(rows, b), cs).buffers ::
              KillsSafely(After(Initial(rows, b), cs), c))
       <==> rows <= 511
  {
    hide Good, Initial, Ladder, KillsSafely;
    InitialIsGood(rows, b);
    var start := Initial(rows, b);
    if rows <= 511 {
      forall cs, c | Runs(start, cs) && c in After(start, cs).buffers ensures KillsSafely(After(start, cs), c) {
        RunsKeep(start, cs);
        KillKeeps(After(start, cs), c, true);
      }
    } else {
      RungsAdded(rows, 0, 255, b);
      LadderStarts(rows, b);
      LadderKills(rows, b);
      assert b in After(start, Rungs(rows, 0, 255)).buffers && !KillsSafely(After(start, Rungs(rows, 0, 255)), b);
    }
  }

  // ---- Where dot stays ----

  /** How many lines further down a split lets the current window begin. */
  function LinesAdvanced(w: Window, dotRow: int): int {
    var upper := (w.rows - 1) / 2;
    if dotRow == upper then 1 else if dotRow < upper then 0 else upper + 1
  }

  /** Splitting without an argument leaves dot in sight in the window that becomes current, and on the
      same row of the screen, or one row up if that row became a mode line. */
  lemma SplitKeepsDotInSight(l: Layout, n: int, dotRow: int)
    requires Good(l) && Split(l, false, n, dotRow).ok && 0 <= dotRow < l.windows[l.cur].rows
    ensures var r := Split(l, false, n, dotRow).layout;
      var was, now, there := l.windows[l.cur], r.windows[r.cur], dotRow - LinesAdvanced(l.windows[l.cur], dotRow);
      && 0 <= there < now.rows
      && now.top + there == was.top + dotRow - (if dotRow == (was.rows - 1) / 2 then 1 else 0)
  {
  }

  // ---- Ways back ----

  /** Going to the next window and to the previous one are inverse, and the first argument of one is
      the negated argument of the other. */
  lemma NextAndPreviousInverse(l: Layout, n: int)
    requires Good(l)
    ensures Do(Next(l, false, n).layout, PrevWind(false, n)).layout == l
    ensures Do(Previous(l, false, n).layout, NextWind(false, n)).layout == l
    ensures 0 < n <= |l.windows| ==>
      Next(l, true, n).ok && Next(l, true, n).layout.cur == n - 1
      && Previous(l, true, n).ok && Previous(l, true, n).layout.cur == |l.windows| - n
  {
  }

  lemma ShiftBack(ws: seq<Window>, i: nat, n: int)
    requires i + 1 < |ws|
    ensures Shift(ws, i, n)[i].rows == ws[i].rows + n && Shift(ws, i, n)[i + 1].rows == ws[i + 1].rows - n
    ensures Shift(Shift(ws, i, n), i, -n) == ws
  {
    var r := Shift(ws, i, n);
    assert r[..i] == ws[..i] && r[i + 2..] == ws[i + 2..];
    assert r[i] == ws[i].(rows := ws[i].rows + n);
    assert r[i + 1] == ws[i + 1].(top := ws[i + 1].top + n, rows := ws[i + 1].rows - n);
    assert ws == ws[..i] + [ws[i], ws[i + 1]] + ws[i + 2..];
  }

  lemma GrowAndBack(l: Layout, n: int)
    requires n >= 0 && Good(l) && Grow(l, n, false).ok && Good(Grow(l, n, false).layout)
    requires l.windows[l.cur].rows > 0
    ensures Grow(Grow(l, n, false).layout, -n, true) == Outcome(l, true)
  {
    hide Good, Shift;
    CurIsWindow(l);
    if l.cur + 1 < |l.windows| {
      ShiftBack(l.windows, l.cur, n);
    } else {
      ShiftBack(l.windows, l.cur - 1, -n);
    }
  }

  /** Shrinking by as much as one has grown restores the layout, for a window that had a row. */
  lemma ShrinkUndoesEnlarge(l: Layout, n: int)
    requires n >= 0 && Good(l) && Do(l, EnlargeWind(n)).ok && Good(Do(l, EnlargeWind(n)).layout)
    requires l.windows[l.cur].rows > 0
    ensures Do(Do(l, EnlargeWind(n)).layout, ShrinkWind(n)) == Outcome(l, true)
  {
    hide Good, Replaced;
    GrowAndBack(l, n);
  }

  /** Switching to an undisplayed buffer and back returns to the same dot and mark. */
  lemma SwitchBackRestores(l: Layout, b: BufferId)
    requires Good(l) && b in l.buffers && l.buffers[b].windows == 0 && b != l.curbp
    requires Count(l.windows, l.curbp) == 1 && Good(Switch(l, b).layout)
    ensures var r := Switch(Switch(l, b).layout, l.curbp).layout;
      r.windows == l.windows && r.curbp == l.curbp && r.buffers.Keys == l.buffers.Keys
      && forall c :: c in l.buffers ==> r.buffers[c].windows == l.buffers[c].windows
  {
    hide Tiled;
    var m := Switch(l, b).layout;
    assert l.buffers[l.curbp].windows == 1;
    assert m.buffers[l.curbp] == BufferRecord(0, l.windows[l.cur].at);
    assert Switch(m, l.curbp).layout.windows == l.windows;
  }
}
