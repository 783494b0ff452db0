/** The window and buffer commands as the editor runs them, on the window list and its globals. */
module WindowCommands {
  import opened Bytes
  import opened WindowLayout

  /** `wheadp` and the list behind it, `curwp`, `curbp`, `bheadp` and its list, and `term`. */
  class Screen {
    var windows: seq<Window>
    var cur: nat
    var curbp: BufferId
    var buffers: map<BufferId, BufferRecord>
    var rows: int

    /** The screen the editor starts with: one window on one buffer. */
    constructor (rows: int, buffer: BufferId)
      ensures Now() == Initial(rows, buffer)
    {
      windows, cur, curbp := [Window(buffer, 0, rows - 1, Point(0, 0))], 0, buffer;
      buffers := map[buffer := BufferRecord(1, Point(0, 0))];
      this.rows := rows;
    }

    function Now(): Layout
      reads this
    {
      Layout(windows, cur, curbp, buffers, rows)
    }

    ghost predicate Valid()
      reads this
    {
      Good(Now())
    }

    /** `--wp->w_bufp->b_nwnd`, saving dot and mark when it gets to 0. */
    method Undisplay(w: Window)
      requires w.buffer in buffers
      modifies this`buffers
      ensures buffers == Release(old(buffers), w)
    {
      var left: Byte := Wrap(buffers[w.buffer].windows - 1);
      buffers := buffers[w.buffer := buffers[w.buffer].(windows := left)];
      if left == 0 {
        buffers := buffers[w.buffer := buffers[w.buffer].(at := w.at)];
      }
    }

    /** `++b->b_nwnd`. */
    method Display(b: BufferId)
      requires b in buffers
      modifies this`buffers
      ensures buffers == Retain(old(buffers), b)
    {
      buffers := buffers[b := buffers[b].(windows := Wrap(buffers[b].windows + 1))];
    }

    /** `splitwind`; dot is `dotRow` lines below the first line of the window. */
    method SplitWind(given: bool, n: int, dotRow: int) returns (ok: bool)
      requires Valid()
      modifies this
      ensures Outcome(Now(), ok) == Do(old(Now()), Command.SplitWind(given, n, dotRow))
    {
      hide Good, Replaced, Retain, Inserted;
      CurIsWindow(Now());
      ghost var ws, c := windows, cur;
      var w := windows[cur];
      if w.rows < 3 {
        return false;
      }
      Display(curbp);
      var upper := (w.rows - 1) / 2;
      var lower := (w.rows - 1) - upper;
      if (!given && dotRow <= upper) || (given && n == 1) {
        // the old window is the upper one
        windows := windows[cur := w.(rows := upper)];
        var wp := Window(curbp, w.top + upper + 1, lower, w.at);
        windows := Inserted(windows, cur + 1, wp);
        SplitLists(ws, c, w.(rows := upper), wp);
      } else {
        var wp := Window(curbp, w.top, upper, w.at);
        windows := windows[cur := w.(top := w.top + upper + 1, rows := lower)];
        SplitLists(ws, c, wp, windows[cur]);
        windows := Inserted(windows, cur, wp);
        cur := cur + 1;
      }
      return true;
    }

    /** The window whose text begins on a row. */
    method FindTop(target: int) returns (i: nat)
      requires Valid() && |windows| > 1 && target == ModeLine(windows[0]) + 1
      ensures i == 1
    {
      Neighbours(Now());
      i := 0;
      while i < |windows| && windows[i].top != target
        invariant i <= 1
      {
        i := i + 1;
      }
    }

    /** The window whose mode line is on a row. */
    method FindModeLine(target: int) returns (i: nat)
      requires Valid() && cur > 0 && target == ModeLine(windows[cur - 1])
      ensures i == cur - 1
    {
      Neighbours(Now());
      i := 0;
      while i < |windows| && ModeLine(windows[i]) != target
        invariant i < cur
      {
        TopsGrow(windows, rows, i, cur);
        i := i + 1;
      }
      if i < cur - 1 {
        TopsGrow(windows, rows, i, cur - 1);
      }
    }

    /** The rows of the current window go to the one above it, or from the first to the one below. */
    method GiveRows() returns (heir: nat)
      requires Valid() && |windows| > 1
      modifies this`windows
      ensures heir == if cur == 0 then 1 else cur - 1
      ensures var w, h := old(windows[cur]), old(windows)[heir];
        windows == old(windows)[heir := h.(top := if cur == 0 then 0 else h.top, rows := h.rows + w.rows + 1)]
    {
      hide Good;
      Neighbours(Now());
      var w := windows[cur];
      if w.top == 0 {
        heir := FindTop(w.rows + 1);
        windows := windows[heir := windows[heir].(top := 0, rows := windows[heir].rows + (w.rows + 1))];
      } else {
        heir := FindModeLine(w.top - 1);
        windows := windows[heir := windows[heir].(rows := windows[heir].rows + (1 + w.rows))];
      }
    }

    /** `delwind`: the search for the window that takes the space always finds one. */
    method DelWind() returns (ok: bool)
      requires Valid()
      modifies this
      ensures Outcome(Now(), ok) == Do(old(Now()), Command.DelWind)
    {
      hide Good, Replaced, Release, Removed;
      Neighbours(Now());
      if |windows| == 1 {
        return false;
      }
      ghost var ws := windows;
      var w := windows[cur];
      var heir := GiveRows();
      MergeLists(ws, if cur == 0 then 0 else cur - 1, heir, windows[heir]);
      Undisplay(w);
      curbp := windows[heir].buffer;
      windows := Removed(windows, cur);
      cur := if heir > cur then heir - 1 else heir;
      return true;
    }

    /** `onlywind`'s first loop: the windows above the current one go. */
    method DropAbove()
      requires cur < |windows| && forall i :: 0 <= i < |windows| ==> windows[i].buffer in buffers
      modifies this`windows, this`cur, this`buffers
      ensures windows == old(windows)[old(cur)..] && cur == 0
      ensures buffers == ReleaseAll(old(buffers), old(windows)[..old(cur)])
    {
      ghost var ws, c, bufs := windows, cur, buffers;
      ghost var k := 0;
      assert ws[..0] == [];
      while cur != 0
        invariant 0 <= k <= c && cur == c - k && windows == ws[k..]
        invariant buffers == ReleaseAll(bufs, ws[..k])
      {
        hide Release;
        var wp := windows[0];
        windows, cur := windows[1..], cur - 1;
        assert ws[..k + 1][..k] == ws[..k];
        Undisplay(wp);
        k := k + 1;
      }
    }

    /** Its second loop: the windows below. */
    method DropBelow()
      requires cur == 0 && |windows| > 0 && forall i :: 0 <= i < |windows| ==> windows[i].buffer in buffers
      modifies this`windows, this`buffers
      ensures windows == [old(windows)[0]]
      ensures buffers == ReleaseAll(old(buffers), old(windows)[1..])
    {
      ghost var w, ws, bufs := windows[0], windows[1..], buffers;
      ghost var k := 0;
      assert ws[..0] == [];
      while |windows| > 1
        invariant 0 <= k <= |ws| && windows == [w] + ws[k..]
        invariant buffers == ReleaseAll(bufs, ws[..k])
        decreases |windows|
      {
        hide Release;
        var wp := windows[1];
        windows := [windows[0]] + windows[2..];
        assert ws[..k + 1][..k] == ws[..k];
        Undisplay(wp);
        k := k + 1;
      }
      assert ws[..k] == ws;
    }

    /** `onlywind`. */
    method OnlyWind() returns (ok: bool)
      requires Valid()
      modifies this
      ensures Outcome(Now(), ok) == Do(old(Now()), Command.OnlyWind)
    {
      hide Good, ReleaseAll;
      CurIsWindow(Now());
      GoodParts(Now());
      ghost var ws := windows;
      DropAbove();
      assert windows[1..] == ws[old(cur) + 1..];
      DropBelow();
      windows := windows[0 := windows[0].(top := 0, rows := rows - 1)];
      return true;
    }

    /** The window before the current one in the list. */
    method FindBefore() returns (i: nat)
      requires 0 < cur < |windows|
      ensures i == cur - 1
    {
      i := 0;
      while i + 1 != cur
        invariant i < cur
      {
        i := i + 1;
      }
    }

    /** The window that loses or gains what the current one gains or loses. */
    method FindAdjacent() returns (adj: nat)
      requires cur < |windows| && |windows| > 1
      ensures adj == if cur + 1 < |windows| then cur + 1 else cur - 1
    {
      if cur + 1 < |windows| {
        adj := cur + 1;
      } else {
        adj := FindBefore();
      }
    }

    /** `enlargewind`; a negative count shrinks. */
    method EnlargeWind(n: int) returns (ok: bool)
      requires Valid()
      modifies this`windows
      ensures Outcome(Now(), ok) == Do(old(Now()), Command.EnlargeWind(n))
      decreases n < 0
    {
      hide Good, Shift;
      CurIsWindow(Now());
      if n < 0 {
        ok := ShrinkWind(-n);
        return;
      }
      if |windows| == 1 {
        return false;
      }
      var adj := FindAdjacent();
      if windows[adj].rows <= n {
        return false;
      }
      ghost var ws := windows;
      if adj == cur + 1 {
        windows := windows[adj := windows[adj].(top := windows[adj].top + n)];
      } else {
        windows := windows[cur := windows[cur].(top := windows[cur].top - n)];
      }
      windows := windows[cur := windows[cur].(rows := windows[cur].rows + n)];
      windows := windows[adj := windows[adj].(rows := windows[adj].rows - n)];
      ShiftLists(ws, cur, adj, n);
      return true;
    }

    /** `shrinkwind`; a negative count enlarges. */
    method ShrinkWind(n: int) returns (ok: bool)
      requires Valid()
      modifies this`windows
      ensures Outcome(Now(), ok) == Do(old(Now()), Command.ShrinkWind(n))
      decreases n < 0
    {
      hide Good, Shift;
      CurIsWindow(Now());
      if n < 0 {
        ok := EnlargeWind(-n);
        return;
      }
      if |windows| == 1 {
        return false;
      }
      var adj := FindAdjacent();
      if windows[cur].rows <= n {
        return false;
      }
      ghost var ws := windows;
      if adj == cur + 1 {
        windows := windows[adj := windows[adj].(top := windows[adj].top - n)];
      } else {
        windows := windows[cur := windows[cur].(top := windows[cur].top + n)];
      }
      windows := windows[cur := windows[cur].(rows := windows[cur].rows - n)];
      windows := windows[adj := windows[adj].(rows := windows[adj].rows + n)];
      ShiftLists(ws, cur, adj, -n);
      return true;
    }

    /** `resize`. */
    method Resize(given: bool, n: int) returns (ok: bool)
      requires Valid()
      modifies this`windows
      ensures Outcome(Now(), ok) == Do(old(Now()), Command.Resize(given, n))
    {
      hide Good, Grow;
      CurIsWindow(Now());
      if !given || windows[cur].rows == n {
        return true;
      }
      ok := EnlargeWind(n - windows[cur].rows);
    }

    /** `nextwind`. */
    method NextWind(given: bool, n: int) returns (ok: bool)
      requires Valid()
      modifies this`cur, this`curbp
      ensures Outcome(Now(), ok) == Do(old(Now()), Command.NextWind(given, n))
    {
      hide Good;
      CurIsWindow(Now());
      var wp := 0;
      if given {
        var count := 1;
        while count < |windows|
          invariant 1 <= count <= |windows| && cur == old(cur) && curbp == old(curbp)
        {
          count := count + 1;
        }
        var k := if n < 0 then count + n + 1 else n;
        if !(k > 0 && k <= count) {
          return false;
        }
        while k > 1
          invariant k >= 1 && wp + k == (if n < 0 then |windows| + n + 1 else n) && cur == old(cur) && curbp == old(curbp)
        {
          wp, k := wp + 1, k - 1;
        }
      } else if cur + 1 < |windows| {
        wp := cur + 1;
      }
      cur, curbp := wp, windows[wp].buffer;
      return true;
    }

    /** `prevwind`. */
    method PrevWind(given: bool, n: int) returns (ok: bool)
      requires Valid()
      modifies this`cur, this`curbp
      ensures Outcome(Now(), ok) == Do(old(Now()), Command.PrevWind(given, n))
    {
      hide Good;
      CurIsWindow(Now());
      if given {
        ok := NextWind(given, -n);
        return;
      }
      var wp := 0;
      while wp + 1 < |windows| && wp + 1 != cur
        invariant wp < |windows| && (cur != 0 ==> wp < cur) && cur == old(cur) && curbp == old(curbp)
      {
        wp := wp + 1;
      }
      cur, curbp := wp, windows[wp].buffer;
      return true;
    }

    /** `newsize` getting rid of the window at `i` of the old list; `last` if the one before it stayed. */
    method DropWindow(chain: seq<Window>, i: nat, last: bool)
      requires i < |chain| && cur < |chain| && chain[i].buffer in buffers && (last ==> i <= |windows|)
      modifies this`windows, this`cur, this`curbp, this`buffers
      ensures var c := if i == old(cur) then 0 else old(cur);
        Now() == old(Now()).(windows := if last then old(windows)[..i] else old(windows), cur := c,
          curbp := chain[c].buffer, buffers := Release(old(buffers), chain[i]))
    {
      Undisplay(chain[i]);
      if i == cur {
        cur := 0;
      }
      curbp := chain[cur].buffer;
      if last {
        windows := windows[..i];
      }
    }

    /** `newsize` looking at the window at `i` of the old list; the result says whether it stayed. */
    method LookAt(ghost l: Layout, chain: seq<Window>, n: int, i: nat, last: bool) returns (stays: bool)
      requires Good(l) && 3 <= n && n - 1 < l.rows && chain == l.windows && i < |chain| && CutSoFar(l, n, i, Now())
      requires last <==> 0 < i <= KeptBelow(chain, n - 1)
      modifies this`windows, this`cur, this`curbp, this`buffers
      ensures CutSoFar(l, n, i + 1, Now())
      ensures stays <==> i < KeptBelow(chain, n - 1)
    {
      hide Good, Release, KeptBelow, CutSoFar;
      SomeStays(l, n);
      var wp := chain[i];
      if wp.top > n - 2 {
        CutDrops(l, n, i, Now(), if i == cur then 0 else cur);
        CutCursor(l, n, i, Now());
        DropWindow(chain, i, last);
        return false;
      } else {
        CutKeeps(l, n, i, Now());
        if wp.top + wp.rows - 1 >= n - 2 {
          windows := windows[i := wp.(rows := n - wp.top - 2)];
        }
        return true;
      }
    }

    /** The shrinking loop of `newsize`: a window too low for `n` rows goes, one too long is cut. */
    method CutWindows(n: int)
      requires Valid() && 3 <= n && n - 1 < rows
      modifies this`windows, this`cur, this`curbp, this`buffers
      ensures Now().(rows := n - 1) == Resized(old(Now()), n)
    {
      ghost var l := Now();
      hide Good, Release, KeptBelow, CutSoFar, Resized;
      CutBegins(l, n);
      SomeStays(l, n);
      var chain := windows;
      var last := false;
      var i := 0;
      while i < |chain|
        invariant 0 <= i <= |chain| && (last <==> 0 < i <= KeptBelow(chain, n - 1)) && CutSoFar(l, n, i, Now())
      {
        last := LookAt(l, chain, n, i, last);
        i := i + 1;
      }
      CutEnds(l, n, Now());
    }

    /** `newsize`. */
    method NewSize(given: bool, n: int) returns (ok: bool)
      requires Valid()
      modifies this
      ensures Outcome(Now(), ok) == Do(old(Now()), Command.NewSize(given, n))
    {
      var size := if given then n else MAXROW + 1;
      if size < 3 || size > MAXROW + 1 {
        return false;
      }
      if rows == size - 1 {
        return true;
      }
      if rows < size - 1 {
        EnlargeLast(size);
      } else {
        CutWindows(size);
      }
      rows := size - 1;
      return true;
    }

    /** The bottom window takes all rows a larger screen adds. */
    method EnlargeLast(n: int)
      requires Valid() && 3 <= n && rows < n - 1
      modifies this`windows
      ensures Now().(rows := n - 1) == Resized(old(Now()), n)
    {
      AllStay(Now(), n);
      hide Good, Resized;
      var wp := 0;
      while wp + 1 < |windows|
        invariant wp < |windows| && Now() == old(Now())
      {
        wp := wp + 1;
      }
      windows := windows[wp := windows[wp].(rows := n - windows[wp].top - 2)];
    }

    /** The first window but the current one that shows a buffer. */
    method FindOther(b: BufferId) returns (wp: nat)
      ensures wp == OtherWindow(windows, cur, b, 0)
    {
      wp := 0;
      while wp < |windows| && !(wp != cur && windows[wp].buffer == b)
        invariant wp <= |windows| && OtherWindow(windows, cur, b, 0) == OtherWindow(windows, cur, b, wp)
      {
        wp := wp + 1;
      }
    }

    /** `swbuffer`, to a buffer that has been read in. */
    method SwitchBuffer(b: BufferId)
      requires Valid() && b in buffers
      modifies this
      ensures Outcome(Now(), true) == Do(old(Now()), Command.SwitchBuffer(b))
    {
      hide Good;
      CurIsWindow(Now());
      Undisplay(windows[cur]);
      curbp := b;
      windows := windows[cur := windows[cur].(buffer := b)];
      var first := buffers[b].windows == 0;
      Display(b);
      if first {
        windows := windows[cur := windows[cur].(at := buffers[b].at)];
      } else {
        var wp := FindOther(b);
        OtherIgnoresCurrent(windows, old(windows), cur, b, 0);
        if wp < |windows| {
          windows := windows[cur := windows[cur].(at := windows[wp].at)];
        }
      }
    }

    /** `zotbuf`; `cleared` is the answer of `bclear`. */
    method KillBuffer(b: BufferId, cleared: bool) returns (ok: bool)
      requires Valid() && b in buffers
      modifies this`buffers
      ensures Outcome(Now(), ok) == Do(old(Now()), Command.KillBuffer(b, cleared))
    {
      if buffers[b].windows != 0 || !cleared {
        return false;
      }
      buffers := buffers - {b};
      return true;
    }
  }

  /** A list with a window linked in at `i`, and with the one at `i` unlinked. */
  function Inserted(ws: seq<Window>, i: nat, w: Window): (r: seq<Window>)
    requires i <= |ws|
    ensures |r| == |ws| + 1
  {
    ws[..i] + [w] + ws[i..]
  }

  function Removed(ws: seq<Window>, i: nat): (r: seq<Window>)
    requires i < |ws|
    ensures |r| == |ws| - 1
  {
    ws[..i] + ws[i + 1..]
  }

  lemma SplitLists(ws: seq<Window>, i: nat, upper: Window, lower: Window)
    requires i < |ws|
    ensures Inserted(ws[i := upper], i + 1, lower) == Replaced(ws, i, 1, [upper, lower])
    ensures Inserted(ws[i := lower], i, upper) == Replaced(ws, i, 1, [upper, lower])
  {
  }

  lemma ShiftLists(ws: seq<Window>, cur: nat, adj: nat, n: int)
    requires cur < |ws| && adj < |ws| && (adj == cur + 1 || adj + 1 == cur)
    ensures var grown, less := ws[cur].(rows := ws[cur].rows + n), ws[adj].(rows := ws[adj].rows - n);
      if adj == cur + 1
      then ws[cur := grown][adj := less.(top := less.top + n)] == Shift(ws, cur, n)
      else ws[cur := grown.(top := grown.top - n)][adj := less] == Shift(ws, adj, -n)
  {
  }

  /** Of the windows that stay, only the last has its mode line below the new screen, if any. */
  lemma CutModeLines(l: Layout, n: int)
    requires Good(l) && 3 <= n && n - 1 < l.rows
    ensures var k := KeptBelow(l.windows, n - 1);
      && (forall i :: 0 <= i < k - 1 ==> ModeLine(l.windows[i]) < n - 1)
      && (forall i :: k <= i < |l.windows| ==> l.windows[i].top > n - 2)
      && 0 < k && ModeLine(l.windows[k - 1]) >= n - 2
  {
    var ws, k := l.windows, KeptBelow(l.windows, n - 1);
    KeptTops(ws, n - 1);
    forall i | 0 <= i < k - 1 ensures ModeLine(ws[i]) < n - 1 {
      TopsGrow(ws, l.rows, i, k - 1);
    }
    forall i | k < i < |ws| ensures ws[i].top > n - 2 {
      TopsGrow(ws, l.rows, k, i);
    }
    if k < |ws| {
      assert ws[k].top == ModeLine(ws[k - 1]) + 1;
    }
  }

  /** The windows that stay when the screen is cut to `n` rows, and where they end. */
  ghost function Kept(ws: seq<Window>, n: int): seq<Window> {
    var k := KeptBelow(ws, n - 1);
    if k == 0 then [] else ws[..k - 1] + [ws[k - 1].(rows := n - ws[k - 1].top - 2)]
  }

  /** The layout after the loop of `newsize` has looked at `i` windows. */
  ghost predicate CutSoFar(l: Layout, n: int, i: nat, now: Layout)
    requires Good(l) && i <= |l.windows|
  {
    var k := KeptBelow(l.windows, n - 1);
    && now.rows == l.rows
    && now.windows == (if i < k then l.windows else if i == k then Kept(l.windows, n) + l.windows[k..] else Kept(l.windows, n))
    && now.cur == (if k <= l.cur < i then 0 else l.cur) && now.curbp == l.windows[now.cur].buffer
    && now.buffers == ReleaseAll(l.buffers, l.windows[k..if i < k then k else i])
  }

  lemma CutLists(ws: seq<Window>, k: nat, last: Window)
    requires 0 < k <= |ws|
    ensures ws[k - 1 := last] == (ws[..k - 1] + [last]) + ws[k..]
    ensures ((ws[..k - 1] + [last]) + ws[k..])[..k] == ws[..k - 1] + [last]
  {
  }

  lemma CutBegins(l: Layout, n: int)
    requires Good(l) && 3 <= n && n - 1 < l.rows
    ensures CutSoFar(l, n, 0, l)
  {
    CutModeLines(l, n);
    var k := KeptBelow(l.windows, n - 1);
    assert l.windows[k..k] == [];
  }

  lemma SomeStays(l: Layout, n: int)
    requires Good(l) && 3 <= n && n - 1 < l.rows
    ensures 0 < KeptBelow(l.windows, n - 1) <= |l.windows| && l.cur < |l.windows|
  {
    CutModeLines(l, n);
  }

  lemma ReleaseNext(bufs: map<BufferId, BufferRecord>, ws: seq<Window>, k: nat, i: nat)
    requires k <= i < |ws| && forall j :: 0 <= j < |ws| ==> ws[j].buffer in bufs
    ensures ReleaseAll(bufs, ws[k..i + 1]) == Release(ReleaseAll(bufs, ws[k..i]), ws[i])
  {
    hide Release;
    assert ws[k..i + 1][..i - k] == ws[k..i] && ws[k..i + 1][i - k] == ws[i];
  }

  lemma CutEnds(l: Layout, n: int, now: Layout)
    requires Good(l) && 3 <= n && n - 1 < l.rows && CutSoFar(l, n, |l.windows|, now)
    ensures now.(rows := n - 1) == Resized(l, n)
  {
    SomeStays(l, n);
    hide ReleaseAll, Good, KeptBelow;
    var k := KeptBelow(l.windows, n - 1);
    assert l.windows[k..|l.windows|] == l.windows[k..];
    assert Kept(l.windows, n) + [] == Kept(l.windows, n);
  }

  /** A round of the loop on a window that stays. */
  lemma CutKeeps(l: Layout, n: int, i: nat, now: Layout)
    requires Good(l) && 3 <= n && n - 1 < l.rows && i < |l.windows| && l.windows[i].top <= n - 2 && CutSoFar(l, n, i, now)
    ensures i < KeptBelow(l.windows, n - 1)
    ensures var w := l.windows[i];
      i < |now.windows| && CutSoFar(l, n, i + 1, now.(windows :=
        if w.top + w.rows - 1 >= n - 2 then now.windows[i := w.(rows := n - w.top - 2)] else now.windows))
  {
    hide Good, ReleaseAll, KeptBelow, Tiled, Counted;
    CutModeLines(l, n);
    var ws, k := l.windows, KeptBelow(l.windows, n - 1);
    if i == k - 1 {
      CutLists(ws, k, ws[i].(rows := n - ws[i].top - 2));
      if ModeLine(ws[i]) == n - 2 {
        assert ws[i].(rows := n - ws[i].top - 2) == ws[i];
      }
    }
  }

  /** And on one that goes. */
  lemma CutDrops(l: Layout, n: int, i: nat, now: Layout, cur: nat)
    requires Good(l) && 3 <= n && n - 1 < l.rows && i < |l.windows| && l.windows[i].top > n - 2 && CutSoFar(l, n, i, now)
    requires cur == if i == now.cur then 0 else now.cur
    ensures var w, k := l.windows[i], KeptBelow(l.windows, n - 1);
      && k <= i && w.buffer in now.buffers && cur < |l.windows| && (i == k ==> i <= |now.windows|)
      && CutSoFar(l, n, i + 1, now.(windows := if i == k then now.windows[..i] else now.windows, cur := cur,
           curbp := l.windows[cur].buffer, buffers := Release(now.buffers, w)))
  {
    hide Good, KeptBelow, Release, ReleaseAll, Counted, Tiled;
    SomeStays(l, n);
    GoodParts(l);
    CutBelow(l, n, i);
    var ws, k := l.windows, KeptBelow(l.windows, n - 1);
    ReleaseNext(l.buffers, ws, k, i);
    CutLists(ws, k, ws[k - 1].(rows := n - ws[k - 1].top - 2));
    assert i == k ==> now.windows[..i] == Kept(ws, n);
  }

  lemma CutCursor(l: Layout, n: int, i: nat, now: Layout)
    requires Good(l) && i <= |l.windows| && CutSoFar(l, n, i, now)
    ensures now.cur < |l.windows|
  {
  }

  lemma CutBelow(l: Layout, n: int, i: nat)
    requires Good(l) && 3 <= n && n - 1 < l.rows && i < |l.windows| && l.windows[i].top > n - 2
    ensures KeptBelow(l.windows, n - 1) <= i
  {
    KeptTops(l.windows, n - 1);
  }

  lemma {:induction false} OtherIgnoresCurrent(vs: seq<Window>, ws: seq<Window>, cur: nat, b: BufferId, i: nat)
    requires |vs| == |ws| && i <= |ws| && forall j :: 0 <= j < |ws| && j != cur ==> vs[j] == ws[j]
    ensures OtherWindow(vs, cur, b, i) == OtherWindow(ws, cur, b, i)
    decreases |ws| - i
  {
    if i < |ws| {
      OtherIgnoresCurrent(vs, ws, cur, b, i + 1);
    }
  }

  /** A larger screen keeps every window. */
  lemma AllStay(l: Layout, n: int)
    requires Good(l) && 3 <= n && l.rows < n - 1
    ensures var k := |l.windows|;
      && k > 0 && l.(windows := l.windows[k - 1 := l.windows[k - 1].(rows := n - l.windows[k - 1].top - 2)], rows := n - 1)
        == Resized(l, n)
  {
    var ws, k := l.windows, KeptBelow(l.windows, n - 1);
    KeptTops(ws, n - 1);
    if k < |ws| {
      OnScreen(ws, l.rows, k);
    }
    assert ws[k..] == [];
    assert ws[k - 1 := ws[k - 1].(rows := n - ws[k - 1].top - 2)] == ws[..k - 1] + [ws[k - 1].(rows := n - ws[k - 1].top - 2)];
  }

  lemma MergeLists(ws: seq<Window>, i: nat, j: nat, heir: Window)
    requires i + 1 < |ws| && i <= j <= i + 1
    ensures Removed(ws[j := heir], if i == j then i + 1 else i) == Replaced(ws, i, 2, [heir])
  {
  }

  lemma Neighbours(l: Layout)
    requires Good(l)
    ensures l.cur < |l.windows| && l.windows[l.cur].buffer in l.buffers
    ensures forall i, j :: 0 <= i && j == i + 1 < |l.windows| ==> l.windows[j].top == ModeLine(l.windows[i]) + 1
    ensures l.windows[l.cur].top == 0 <==> l.cur == 0
  {
    if l.cur > 0 {
      TopsGrow(l.windows, l.rows, 0, l.cur);
    }
  }
}
