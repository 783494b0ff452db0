/** Bringing the terminal up to date: `updateline` and `updupd` of display.c. */
module Display {

  /** A character of a video line, with the highlight in its top bit. */
  type Code = bv32

  const HIGHLIGHT_BIT: bv32 := 0x8000_0000
  const BLANK: bv32 := 0x20

  /** What one place of the terminal shows. */
  datatype Cell = Cell(glyph: bv32, reversed: bool)

  function Glyph(c: Code): bv32 {
    c & !HIGHLIGHT_BIT
  }

  predicate Lit(c: Code) {
    c & HIGHLIGHT_BIT != 0
  }

  lemma BlankIsPlain()
    ensures Glyph(BLANK) == BLANK && !Lit(BLANK)
  {
  }

  /** The row shows the characters of the line. */
  predicate ShowsText(cells: seq<Cell>, line: seq<Code>) {
    |cells| == |line| && forall i :: 0 <= i < |line| ==> cells[i].glyph == Glyph(line[i])
  }

  /** And its highlights, and nothing else, in reverse video. */
  predicate Shows(cells: seq<Cell>, line: seq<Code>) {
    |cells| == |line| && forall i :: 0 <= i < |line| ==> cells[i] == Cell(Glyph(line[i]), Lit(line[i]))
  }

  /** What the output loops leave on the terminal. They change to or from reverse video when a
      character's highlight differs from `lit`, which is what they believe to be in force; `reversed`
      is what is. */
  function Written(line: seq<Code>, lit: bool, reversed: bool): (r: seq<Cell>)
    ensures |r| == |line|
    decreases |line|
  {
    if line == [] then []
    else
      var now := if Lit(line[0]) != lit then Lit(line[0]) else reversed;
      [Cell(Glyph(line[0]), now)] + Written(line[1..], Lit(line[0]), now)
  }

  /** The characters are always right; so is the highlighting if the belief is. */
  lemma {:induction false} WrittenShows(line: seq<Code>, lit: bool, reversed: bool)
    ensures ShowsText(Written(line, lit, reversed), line)
    ensures lit == reversed ==> Shows(Written(line, lit, reversed), line)
    decreases |line|
  {
    hide Glyph, Lit;
    if line != [] {
      var now := if Lit(line[0]) != lit then Lit(line[0]) else reversed;
      WrittenShows(line[1..], Lit(line[0]), now);
    }
  }

  /** Plain text keeps the video in force only if that is not what the loop believes in force. */
  lemma {:induction false} PlainTextVideo(line: seq<Code>, lit: bool, reversed: bool, i: nat)
    requires (forall k :: 0 <= k < |line| ==> !Lit(line[k])) && i < |line|
    ensures Written(line, lit, reversed)[i] == Cell(Glyph(line[i]), reversed && !lit)
    decreases |line|
  {
    hide Glyph, Lit;
    if i > 0 {
      PlainTextVideo(line[1..], false, reversed && !lit, i - 1);
    }
  }

  // ---- What an update of a row leaves ----

  /** Where the lines first differ. */
  function FirstDifference(a: seq<Code>, b: seq<Code>, i: nat): (d: nat)
    requires i <= |a| == |b| && a[..i] == b[..i]
    ensures i <= d <= |a| && a[..d] == b[..d] && (d < |a| ==> a[d] != b[d])
    decreases |a| - i
  {
    if i < |a| && a[i] == b[i] then
      assert a[..i + 1] == a[..i] + [a[i]];
      FirstDifference(a, b, i + 1)
    else i
  }

  /** The place behind their last difference. */
  function LastDifference(a: seq<Code>, b: seq<Code>, j: nat): (d: nat)
    requires j <= |a| == |b| && a[j..] == b[j..]
    ensures d <= j && a[d..] == b[d..] && (d > 0 ==> a[d - 1] != b[d - 1])
  {
    if j > 0 && a[j - 1] == b[j - 1] then
      assert a[j - 1..] == [a[j - 1]] + a[j..];
      LastDifference(a, b, j - 1)
    else j
  }

  lemma SameFrom(a: seq<Code>, b: seq<Code>, i: nat)
    requires i <= |a| == |b| && a[i..] == b[i..]
    ensures forall k :: i <= k < |a| ==> a[k] == b[k]
  {
    forall k | i <= k < |a| ensures a[k] == b[k] {
      assert a[k] == a[i..][k - i] && b[k] == b[i..][k - i];
    }
  }

  /** The stretch of the line that a patch is about; empty if the lines are the same. */
  function PatchSpan(virt: seq<Code>, phys: seq<Code>): (span: (nat, nat))
    requires |virt| == |phys|
    ensures span.0 <= span.1 <= |virt| && (span.0 == span.1 <==> virt == phys)
    ensures virt[..span.0] == phys[..span.0] && virt[span.1..] == phys[span.1..]
  {
    var left := FirstDifference(virt, phys, 0);
    assert virt[..left] == phys[..left];
    if left == |virt| then (left, left)
    else
      var right := LastDifference(virt, phys, |virt|);
      SameFrom(virt, phys, right);
      (left, right)
  }

  /** Where the blanks before `right` begin. */
  function BlankStart(line: seq<Code>, left: nat, right: nat): (e: nat)
    requires left <= right <= |line|
    ensures left <= e <= right && (forall k :: e <= k < right ==> line[k] == BLANK) && (e > left ==> line[e - 1] != BLANK)
  {
    if right > left && line[right - 1] == BLANK then BlankStart(line, left, right - 1) else right
  }

  /** Where a patch stops writing: it may leave a blank rest of the line to erasing. */
  function PatchStop(virt: seq<Code>, left: nat, right: nat, mayErase: bool): (stop: nat)
    requires left <= right <= |virt|
    ensures left <= stop <= right
    ensures stop < right ==> mayErase && forall k :: stop <= k < |virt| ==> virt[k] == BLANK
  {
    if mayErase && (forall k :: right <= k < |virt| ==> virt[k] == BLANK) && right - BlankStart(virt, left, right) > 3
    then BlankStart(virt, left, right) else right
  }

  /** The cells of a row after `updateline`. */
  function RowAfter(before: seq<Cell>, virt: seq<Code>, phys: seq<Code>, isReverse: bool, wantsReverse: bool,
      recolours: bool, eolExists: bool): (after: seq<Cell>)
    requires |before| == |virt| == |phys|
    ensures |after| == |virt|
  {
    if isReverse != wantsReverse || recolours then Written(virt, wantsReverse, isReverse != wantsReverse && wantsReverse)
    else
      var (left, right) := PatchSpan(virt, phys);
      var stop := PatchStop(virt, left, right, eolExists && !wantsReverse);
      var row := Splice(before, left, Written(virt[left..stop], false, isReverse), stop);
      if stop == right then row else row[..stop] + Blanks(|virt| - stop)
  }

  predicate Plain(line: seq<Code>) {
    forall k :: 0 <= k < |line| ==> !Lit(line[k])
  }

  /** What a row that wants reverse video shows, for a line without highlights: written anew it comes
      out in normal video, patched it gets reverse video in exactly the stretch that is written. So it
      is in reverse throughout iff it is not written anew and the rest of it was. */
  lemma ReverseRow(before: seq<Cell>, virt: seq<Code>, phys: seq<Code>, isReverse: bool, recolours: bool, eolExists: bool)
    requires |before| == |virt| == |phys| > 0 && Plain(virt)
    ensures var after, span := RowAfter(before, virt, phys, isReverse, true, recolours, eolExists), PatchSpan(virt, phys);
      var anew := !isReverse || recolours;
      && (anew ==> forall i :: 0 <= i < |virt| ==> after[i] == Cell(Glyph(virt[i]), false))
      && (!anew ==> forall i :: 0 <= i < |virt| ==>
            after[i] == if span.0 <= i < span.1 then Cell(Glyph(virt[i]), true) else before[i])
      && ((forall i :: 0 <= i < |virt| ==> after[i].reversed)
          <==> !anew && forall i :: 0 <= i < |virt| ==> span.0 <= i < span.1 || before[i].reversed)
  {
    hide Glyph, Lit, Written, PatchSpan;
    var after := RowAfter(before, virt, phys, isReverse, true, recolours, eolExists);
    if !isReverse || recolours {
      forall i | 0 <= i < |virt| ensures after[i] == Cell(Glyph(virt[i]), false) {
        PlainTextVideo(virt, true, !isReverse, i);
      }
      assert !after[0].reversed;
    } else {
      var (left, right) := PatchSpan(virt, phys);
      forall i | left <= i < right ensures Written(virt[left..right], false, true)[i - left] == Cell(Glyph(virt[i]), true) {
        PlainTextVideo(virt[left..right], false, true, i - left);
      }
    }
  }

  /** What a row shows after an update in every other case: if it showed the physical line, it shows
      the virtual one -- its characters whatever the video, its highlights too unless it stays in
      reverse video. */
  lemma RowShows(before: seq<Cell>, virt: seq<Code>, phys: seq<Code>, isReverse: bool, wantsReverse: bool,
      recolours: bool, eolExists: bool)
    requires |before| == |virt| == |phys|
    ensures var after := RowAfter(before, virt, phys, isReverse, wantsReverse, recolours, eolExists);
      var anew := isReverse != wantsReverse || recolours;
      && (anew || ShowsText(before, phys) ==> ShowsText(after, virt))
      && (!(isReverse && wantsReverse) && (anew || Shows(before, phys)) ==> Shows(after, virt))
  {
    hide Glyph, Lit, Written, ShowsText, Shows, PatchSpan, Splice;
    if isReverse != wantsReverse || recolours {
      WrittenShows(virt, wantsReverse, isReverse != wantsReverse && wantsReverse);
    } else {
      var (left, right) := PatchSpan(virt, phys);
      var stop := PatchStop(virt, left, right, eolExists && !wantsReverse);
      if stop == right {
        RowWritten(before, virt, phys, left, right, false, isReverse);
      } else {
        RowErased(before, virt, phys, left, stop);
      }
    }
  }

  // ---- The terminal ----

  class Terminal {
    // what each row shows, the cursor, and whether output is in reverse video
    var rows: seq<seq<Cell>>
    var row: nat
    var col: nat
    var reversed: bool
    // where the editor believes the cursor to be
    var ttrow: int
    var ttcol: int

    predicate Tracked()
      reads this
    {
      ttrow == row && ttcol == col
    }

    method MoveCursor(r: nat, c: nat)
      requires Tracked()
      modifies this`row, this`col, this`ttrow, this`ttcol
      ensures Tracked() && row == r && col == c
    {
      if r != ttrow || c != ttcol {
        ttrow, ttcol := r, c;
        row, col := r, c;
      }
    }

    method PutChar(ch: bv32)
      requires row < |rows| && col < |rows[row]|
      modifies this`rows, this`col
      ensures rows == old(rows)[row := old(rows)[row][old(col) := Cell(ch, reversed)]] && col == old(col) + 1
    {
      rows := rows[row := rows[row][col := Cell(ch, reversed)]];
      col := col + 1;
    }

    method Reverse(on: bool)
      modifies this`reversed
      ensures reversed == on
    {
      reversed := on;
    }

    method EraseToEol()
      requires row < |rows| && col <= |rows[row]| && !reversed
      modifies this`rows
      ensures rows == old(rows)[row := old(rows)[row][..col] + Blanks(|old(rows)[row]| - col)]
    {
      rows := rows[row := rows[row][..col] + Blanks(|rows[row]| - col)];
    }
  }

  function Blanks(n: nat): (r: seq<Cell>)
    ensures |r| == n && forall i :: 0 <= i < n ==> r[i] == Cell(BLANK, false)
  {
    seq(n, i => Cell(BLANK, false))
  }

  /** `struct video`: the flags VFCHG, VFREV and VFREQ, present and wanted colours, checksum and text. */
  class Video {
    var changed: bool
    var isReverse: bool
    var wantsReverse: bool
    var colours: (int, int)
    var wantedColours: (int, int)
    var checksum: bv32
    const text: array<Code>

    constructor (columns: nat)
      ensures fresh(text) && text.Length == columns
    {
      text := new Code[columns];
    }
  }

  // ---- updateline ----

  /** `s` with the stretch from `from` to `i` replaced. */
  function Splice<T>(s: seq<T>, from: nat, part: seq<T>, i: nat): (r: seq<T>)
    requires from <= i <= |s| && |part| == i - from
    ensures |r| == |s|
  {
    s[..from] + part + s[i..]
  }

  lemma SpliceGrows<T>(s: seq<T>, from: nat, part: seq<T>, i: nat, x: T)
    requires from <= i < |s| && |part| == i - from
    ensures Splice(s, from, part, i)[i := x] == Splice(s, from, part + [x], i + 1)
  {
  }

  lemma SpliceNothing<T>(s: seq<T>, from: nat)
    requires from <= |s|
    ensures Splice(s, from, [], from) == s
  {
  }

  lemma SetTwice<T>(s: seq<T>, i: nat, x: T, y: T)
    requires i < |s|
    ensures s[i := x][i := y] == s[i := y] && s[i := x][i] == x && s[i := s[i]] == s
  {
  }

  /** One character, with the change of video before it if its highlight is not the believed one. */
  method Emit(t: Terminal, c: Code, current: bool) returns (highlighted: bool)
    requires t.Tracked() && t.row < |t.rows| && t.col < |t.rows[t.row]|
    modifies t
    ensures t.Tracked() && t.row == old(t.row) && t.col == old(t.col) + 1
    ensures highlighted == Lit(c) && t.reversed == if Lit(c) != current then Lit(c) else old(t.reversed)
    ensures t.rows == old(t.rows)[t.row := old(t.rows)[t.row][old(t.col) := Cell(Glyph(c), t.reversed)]]
  {
    hide Glyph, Lit;
    highlighted := Lit(c);
    if highlighted != current {
      t.Reverse(highlighted);
    }
    t.PutChar(Glyph(c));
    t.ttcol := t.ttcol + 1;
  }

  /** One of the output loops: characters `from` to `to` of the virtual line. */
  method WriteRun(t: Terminal, virt: array<Code>, phys: array<Code>, from: nat, to: nat, lit: bool)
    requires t.Tracked() && t.row < |t.rows| && t.col == from <= to <= virt.Length
    requires virt != phys && phys.Length == virt.Length == |t.rows[t.row]|
    modifies t, phys
    ensures t.Tracked() && t.row == old(t.row) && t.col == to
    ensures t.rows == old(t.rows)[t.row := Splice(old(t.rows)[t.row], from, Written(virt[..][from..to], lit, old(t.reversed)), to)]
    ensures phys[..] == Splice(old(phys[..]), from, virt[..][from..to], to)
    ensures lit || !old(t.reversed) ==> !t.reversed
  {
    hide Glyph, Lit, ShowsText, Shows, Splice, Written;
    ghost var rows, cells, line, p := t.rows, t.rows[t.row], virt[..], phys[..];
    ghost var done: seq<Cell> := [];
    ghost var want := Written(line[from..to], lit, t.reversed);
    var current, i := lit, from;
    SpliceNothing(cells, from);
    SpliceNothing(p, from);
    SetTwice(rows, t.row, cells, cells);
    assert line[from..from] == [] && [] + want == want;
    while i < to
      invariant from <= i <= to && t.Tracked() && t.row == old(t.row) && t.col == i
      invariant |done| == i - from && want == done + Written(line[i..to], current, t.reversed)
      invariant t.rows == rows[t.row := Splice(cells, from, done, i)]
      invariant phys[..] == Splice(p, from, line[from..i], i)
      invariant lit || !old(t.reversed) ==> (t.reversed ==> current)
    {
      ghost var cell := Cell(Glyph(virt[i]), if Lit(virt[i]) != current then Lit(virt[i]) else t.reversed);
      WrittenNext(line, i, to, current, t.reversed);
      SpliceGrows(cells, from, done, i, cell);
      SpliceGrows(p, from, line[from..i], i, virt[i]);
      SetTwice(rows, t.row, Splice(cells, from, done, i), Splice(cells, from, done + [cell], i + 1));
      assert line[from..i] + [virt[i]] == line[from..i + 1];
      current := Emit(t, virt[i], current);
      phys[i] := virt[i];
      done := done + [cell];
      i := i + 1;
    }
    WrittenNothing(line, to, current, t.reversed);
    if current {
      t.Reverse(false);
    }
  }

  lemma WrittenNext(line: seq<Code>, i: nat, to: nat, lit: bool, reversed: bool)
    requires i < to <= |line|
    ensures var now := if Lit(line[i]) != lit then Lit(line[i]) else reversed;
      forall done: seq<Cell> ::
        done + Written(line[i..to], lit, reversed) == (done + [Cell(Glyph(line[i]), now)]) + Written(line[i + 1..to], Lit(line[i]), now)
  {
    hide Glyph, Lit;
    assert line[i..to][1..] == line[i + 1..to];
  }

  lemma WrittenNothing(line: seq<Code>, to: nat, lit: bool, reversed: bool)
    requires to <= |line|
    ensures Written(line[to..to], lit, reversed) == []
    ensures forall done: seq<Cell> :: done + Written(line[to..to], lit, reversed) == done
  {
  }

  /** The common characters at the left. */
  method SkipLeft(virt: array<Code>, phys: array<Code>) returns (i: nat)
    requires phys.Length == virt.Length
    ensures i <= virt.Length && i == FirstDifference(virt[..], phys[..], 0)
  {
    i := 0;
    while i != virt.Length && virt[i] == phys[i]
      invariant i <= virt.Length && virt[..][..i] == phys[..][..i]
      invariant FirstDifference(virt[..], phys[..], 0) == FirstDifference(virt[..], phys[..], i)
    {
      assert virt[..][..i + 1] == virt[..][..i] + [virt[i]] && phys[..][..i + 1] == phys[..][..i] + [phys[i]];
      i := i + 1;
    }
  }

  /** The common characters at the right, and whether one of them is not blank; the lines differ at
      `left`, so the search stops. */
  method SkipRight(virt: array<Code>, phys: array<Code>, left: nat) returns (j: nat, nonBlank: bool)
    requires phys.Length == virt.Length && left < virt.Length && virt[left] != phys[left]
    ensures left < j <= virt.Length && j == LastDifference(virt[..], phys[..], virt.Length)
    ensures !nonBlank <==> forall k :: j <= k < virt.Length ==> virt[k] == BLANK
  {
    ghost var a, b := virt[..], phys[..];
    j, nonBlank := virt.Length, false;
    while virt[j - 1] == phys[j - 1]
      invariant left < j <= virt.Length && a[j..] == b[j..] && LastDifference(a, b, virt.Length) == LastDifference(a, b, j)
      invariant !nonBlank <==> forall k :: j <= k < virt.Length ==> virt[k] == BLANK
      decreases j
    {
      hide LastDifference;
      LastDifferenceBefore(a, b, j);
      SameFrom(a, b, j - 1);
      j := j - 1;
      if virt[j] != BLANK {
        nonBlank := true;
      }
    }
  }

  lemma LastDifferenceBefore(a: seq<Code>, b: seq<Code>, j: nat)
    requires 0 < j <= |a| == |b| && a[j..] == b[j..] && a[j - 1] == b[j - 1]
    ensures a[j - 1..] == b[j - 1..] && LastDifference(a, b, j) == LastDifference(a, b, j - 1)
  {
    assert a[j - 1..] == [a[j - 1]] + a[j..] && b[j - 1..] == [b[j - 1]] + b[j..];
  }

  /** Where output may stop and the rest be erased: only if that saves more than three characters. */
  method EraseFrom(virt: array<Code>, left: nat, right: nat) returns (e: nat)
    requires left < right <= virt.Length && forall k :: right <= k < virt.Length ==> virt[k] == BLANK
    ensures e == PatchStop(virt[..], left, right, true)
  {
    e := right;
    while e != left && virt[e - 1] == BLANK
      invariant left <= e <= right
      invariant BlankStart(virt[..], left, right) == BlankStart(virt[..], left, e)
    {
      e := e - 1;
    }
    if right - e <= 3 {
      e := right;
    }
  }

  /** The line must be written anew: its video or its colours change. */
  predicate Rewrites(v: Video)
    reads v
  {
    v.isReverse != v.wantsReverse || v.colours != v.wantedColours
  }

  /** The row after the output loop: right if what was not written was right. */
  lemma RowWritten(cells: seq<Cell>, virt: seq<Code>, phys: seq<Code>, a: nat, b: nat, lit: bool, reversed: bool)
    requires a <= b <= |virt| && |phys| == |virt| == |cells| && virt[..a] == phys[..a] && virt[b..] == phys[b..]
    ensures var row := Splice(cells, a, Written(virt[a..b], lit, reversed), b);
      && (ShowsText(cells, phys) ==> ShowsText(row, virt))
      && (lit == reversed && Shows(cells, phys) ==> Shows(row, virt))
  {
    hide Glyph, Lit, Written, Splice;
    WrittenShows(virt[a..b], lit, reversed);
    SpliceAt(cells, a, Written(virt[a..b], lit, reversed), b);
    SameFrom(virt, phys, b);
    SameBefore(virt, phys, a);
  }

  lemma SameBefore(a: seq<Code>, b: seq<Code>, i: nat)
    requires i <= |a| == |b| && a[..i] == b[..i]
    ensures forall k :: 0 <= k < i ==> a[k] == b[k]
  {
    forall k | 0 <= k < i ensures a[k] == b[k] {
      assert a[k] == a[..i][k] && b[k] == b[..i][k];
    }
  }

  lemma SpliceAt<T>(s: seq<T>, from: nat, part: seq<T>, i: nat)
    requires from <= i <= |s| && |part| == i - from
    ensures forall k :: 0 <= k < |s| ==> Splice(s, from, part, i)[k] == if from <= k < i then part[k - from] else s[k]
  {
  }

  /** And after the loop and the erasure: right if all that was not written is blank. */
  lemma RowErased(cells: seq<Cell>, virt: seq<Code>, phys: seq<Code>, a: nat, b: nat)
    requires a <= b <= |virt| && |phys| == |virt| == |cells| && virt[..a] == phys[..a]
    requires forall k :: b <= k < |virt| ==> virt[k] == BLANK
    ensures var row := Splice(cells, a, Written(virt[a..b], false, false), b)[..b] + Blanks(|virt| - b);
      && (ShowsText(cells, phys) ==> ShowsText(row, virt))
      && (Shows(cells, phys) ==> Shows(row, virt))
  {
    WrittenShows(virt[a..b], false, false);
    BlankIsPlain();
    hide Glyph, Lit;
    assert forall k :: 0 <= k < a ==> virt[..a][k] == phys[..a][k];
  }

  lemma WholeRow(cells: seq<Cell>, virt: seq<Code>, lit: bool, reversed: bool)
    requires |cells| == |virt|
    ensures Splice(cells, 0, Written(virt[0..|virt|], lit, reversed), |virt|) == Written(virt, lit, reversed)
  {
    assert virt[0..|virt|] == virt;
    assert cells[..0] + Written(virt, lit, reversed) + cells[|virt|..] == Written(virt, lit, reversed);
  }

  lemma PhysWritten(virt: seq<Code>, phys: seq<Code>, a: nat, b: nat)
    requires a <= b <= |virt| == |phys| && virt[..a] == phys[..a] && virt[b..] == phys[b..]
    ensures Splice(phys, a, virt[a..b], b) == virt
  {
    assert virt == virt[..a] + virt[a..b] + virt[b..];
  }

  /** Virtual row `v`, physical row `p` and the terminal's row fit together. */
  ghost predicate Fits(t: Terminal, row: nat, v: Video, p: Video)
    reads t
  {
    v != p && v.text != p.text && row < |t.rows| && v.text.Length == p.text.Length == |t.rows[row]|
  }

  /** What an update of one row promises: the physical image is the virtual line, and the row has
      exactly the cells of `RowAfter`; no other row changes. */
  twostate predicate Updated(t: Terminal, row: nat, v: Video, p: Video, eolExists: bool)
    requires old(Fits(t, row, v, p))
    reads t, v, p, v.text, p.text
  {
    var virt, phys, before := old(v.text[..]), old(p.text[..]), old(t.rows[row]);
    && t.Tracked() && !t.reversed && !v.changed
    && v.text[..] == virt && p.text[..] == virt
    && t.rows == old(t.rows)[row :=
         RowAfter(before, virt, phys, old(v.isReverse), old(v.wantsReverse), old(v.colours != v.wantedColours), eolExists)]
  }

  /** The first half of `updateline`: the whole line is written anew. */
  method RewriteLine(t: Terminal, row: nat, v: Video, p: Video, ghost eolExists: bool)
    requires Fits(t, row, v, p) && t.Tracked() && !t.reversed && Rewrites(v)
    modifies t, v, p.text
    ensures Updated(t, row, v, p, eolExists)
    ensures v.wantsReverse == old(v.wantsReverse) && v.wantedColours == old(v.wantedColours)
    ensures v.isReverse == v.wantsReverse && v.colours == v.wantedColours
  {
    hide Glyph, Lit, Written, PatchSpan, PatchStop;
    ghost var virt := v.text[..];
    t.MoveCursor(row, 0);
    if v.isReverse != v.wantsReverse {
      t.Reverse(v.wantsReverse);
    }
    ghost var cells, lit, rev := t.rows[row], v.wantsReverse, t.reversed;
    WriteRun(t, v.text, p.text, 0, v.text.Length, v.wantsReverse);
    WholeRow(cells, virt, lit, rev);
    WholeLine(old(p.text[..]), virt);
    if v.isReverse != v.wantsReverse {
      t.Reverse(false);
    }
    v.changed := false;
    v.isReverse := v.wantsReverse;
    v.colours := v.wantedColours;
  }

  lemma WholeLine(phys: seq<Code>, virt: seq<Code>)
    requires |phys| == |virt|
    ensures Splice(phys, 0, virt[0..|virt|], |virt|) == virt
  {
  }

  /** The scans of the second half of `updateline`: what is to be written and where it may stop. */
  method FindPatch(v: Video, p: Video, eolExists: bool) returns (left: nat, stop: nat, right: nat)
    requires v.text.Length == p.text.Length
    ensures left <= stop <= right <= v.text.Length && PatchSpan(v.text[..], p.text[..]) == (left, right)
    ensures stop == PatchStop(v.text[..], left, right, eolExists && !v.wantsReverse)
  {
    left := SkipLeft(v.text, p.text);
    if left == v.text.Length {
      return left, left, left;
    }
    var nonBlank;
    right, nonBlank := SkipRight(v.text, p.text, left);
    stop := right;
    if !nonBlank && eolExists && !v.wantsReverse {
      stop := EraseFrom(v.text, left, right);
    }
  }

  /** The second half of `updateline`: what differs is written, a blank rest is erased. */
  method PatchLine(t: Terminal, row: nat, v: Video, p: Video, eolExists: bool)
    requires Fits(t, row, v, p) && t.Tracked() && !t.reversed && !Rewrites(v)
    modifies t, v`changed, p`checksum, p.text
    ensures Updated(t, row, v, p, eolExists)
  {
    hide Glyph, Lit, Written, Splice, PatchSpan, PatchStop;
    ghost var virt, phys, cells := v.text[..], p.text[..], t.rows[row];
    SetTwice(t.rows, row, cells, cells);
    var left, stop, right := FindPatch(v, p, eolExists);
    if left == right {
      SpliceNothing(cells, left);
      WrittenNothing(virt, left, false, v.isReverse);
      v.changed := false;
      return;
    }
    t.MoveCursor(row, left);
    t.Reverse(v.isReverse);
    WriteRun(t, v.text, p.text, left, stop, false);
    if stop != right {
      EraseRest(t, row, old(t.rows), Splice(cells, left, Written(virt[left..stop], false, false), stop));
      CopyRest(v.text, p.text, stop, right);
      PhysPatched(virt, phys, left, stop, right);
    } else {
      PhysWritten(virt, phys, left, right);
    }
    t.Reverse(false);
    v.changed := false;
    p.checksum := Checksum(p.text[..]);
  }

  /** FNV-1a over the line. */
  function Checksum(line: seq<Code>): bv32 {
    if line == [] then 2166136261 else (Checksum(line[..|line| - 1]) ^ line[|line| - 1]) * 16777619
  }

  method EraseRest(t: Terminal, row: nat, ghost rows: seq<seq<Cell>>, ghost cells: seq<Cell>)
    requires t.row == row < |rows| && t.rows == rows[row := cells] && t.col <= |cells| && !t.reversed
    modifies t`rows
    ensures t.rows == rows[row := cells[..t.col] + Blanks(|cells| - t.col)]
  {
    SetTwice(rows, row, cells, cells[..t.col] + Blanks(|cells| - t.col));
    t.EraseToEol();
  }

  method CopyRest(virt: array<Code>, phys: array<Code>, from: nat, to: nat)
    requires virt != phys && from <= to <= virt.Length == phys.Length
    modifies phys
    ensures phys[..] == Splice(old(phys[..]), from, virt[..][from..to], to)
  {
    ghost var p, line := phys[..], virt[..];
    SpliceNothing(p, from);
    assert line[from..from] == [];
    var i := from;
    while i != to
      invariant from <= i <= to && phys[..] == Splice(p, from, line[from..i], i)
    {
      hide Splice;
      SpliceGrows(p, from, line[from..i], i, virt[i]);
      assert line[from..i] + [virt[i]] == line[from..i + 1];
      phys[i] := virt[i];
      i := i + 1;
    }
  }

  lemma PhysPatched(virt: seq<Code>, phys: seq<Code>, a: nat, b: nat, c: nat)
    requires a <= b <= c <= |virt| == |phys| && virt[..a] == phys[..a] && virt[c..] == phys[c..]
    ensures Splice(Splice(phys, a, virt[a..b], b), b, virt[b..c], c) == virt
  {
    assert virt == virt[..a] + virt[a..b] + virt[b..c] + virt[c..];
    assert Splice(phys, a, virt[a..b], b)[c..] == phys[c..];
  }

  /** `updateline`. */
  method UpdateLine(t: Terminal, row: nat, v: Video, p: Video, eolExists: bool)
    requires Fits(t, row, v, p) && t.Tracked() && !t.reversed
    modifies t, v, p`checksum, p.text
    ensures Updated(t, row, v, p, eolExists)
    ensures v.wantsReverse == old(v.wantsReverse) && v.isReverse == v.wantsReverse && v.colours == v.wantedColours
    ensures v.wantedColours == old(v.wantedColours)
  {
    if v.isReverse != v.wantsReverse || v.colours != v.wantedColours {
      RewriteLine(t, row, v, p, eolExists);
    } else {
      PatchLine(t, row, v, p, eolExists);
    }
  }

  // ---- updupd ----

  /** The rows of the two screens are objects of their own and as wide as the terminal. */
  ghost predicate Screens(t: Terminal, vs: seq<Video>, ps: seq<Video>)
    reads t
  {
    && |vs| == |ps| <= |t.rows|
    && (forall i :: 0 <= i < |vs| ==> |t.rows[i]| == vs[i].text.Length == ps[i].text.Length)
    && (forall i, j :: 0 <= i < |vs| && 0 <= j < |ps| ==> vs[i] != ps[j] && vs[i].text != ps[j].text)
    && (forall i, j :: 0 <= i < j < |vs| ==> vs[i] != vs[j] && ps[i] != ps[j] && ps[i].text != ps[j].text)
  }

  /** Row `i` of the terminal shows the characters of the physical image, which is the virtual line
      unless the row is flagged. */
  ghost predicate RowKnown(t: Terminal, i: nat, v: Video, p: Video)
    requires i < |t.rows|
    reads t, v, p, v.text, p.text
  {
    ShowsText(t.rows[i], p.text[..]) && (!v.changed ==> p.text[..] == v.text[..])
  }

  /** Row `i` has not been looked at yet. */
  twostate predicate RowUntouched(t: Terminal, i: nat, v: Video, p: Video)
    requires i < |t.rows| && i < old(|t.rows|)
    reads t, v, p, v.text, p.text
  {
    && t.rows[i] == old(t.rows[i]) && p.text[..] == old(p.text[..]) && v.text[..] == old(v.text[..])
    && v.isReverse == old(v.isReverse) && v.wantsReverse == old(v.wantsReverse)
  }

  /** Row `i` is current; its highlights are right too if they were, unless it stays in reverse video. */
  twostate predicate RowDone(t: Terminal, i: nat, v: Video, p: Video)
    requires i < |t.rows| && i < old(|t.rows|)
    reads t, v, p, v.text, p.text
  {
    && RowCurrent(t, i, v, p) && v.text[..] == old(v.text[..])
    && (old(!(v.isReverse && v.wantsReverse) && Shows(t.rows[i], p.text[..])) ==> Shows(t.rows[i], v.text[..]))
  }

  ghost predicate RowCurrent(t: Terminal, i: nat, v: Video, p: Video)
    requires i < |t.rows|
    reads t, v, p, v.text, p.text
  {
    !v.changed && p.text[..] == v.text[..] && ShowsText(t.rows[i], v.text[..])
  }

  /** `video_lines_differ`: a difference in the checksums is taken for one in the text. */
  method LinesDiffer(v: Video, p: Video) returns (differ: bool)
    requires v.text.Length == p.text.Length
    ensures !differ ==> v.text[..] == p.text[..]
    ensures differ ==> v.checksum != p.checksum || v.text[..] != p.text[..]
  {
    if v.checksum != p.checksum {
      return true;
    }
    return v.text[..] != p.text[..];
  }

  /** One round of `updupd`: the row is updated, or it is left as it is, the line being the same. */
  method UpdateRow(t: Terminal, i: nat, v: Video, p: Video, force: bool, eolExists: bool)
    requires Fits(t, i, v, p) && t.Tracked() && !t.reversed && RowKnown(t, i, v, p)
    modifies t, v, p`checksum, p.text
    ensures t.Tracked() && !t.reversed && |t.rows| == |old(t.rows)|
    ensures t.rows == old(t.rows)[i := t.rows[i]] && |t.rows[i]| == |old(t.rows[i])|
    ensures RowDone(t, i, v, p)
    ensures if old(v.changed) && (force || old(v.text[..] != p.text[..])) then Updated(t, i, v, p, eolExists)
      else t.rows == old(t.rows) || Updated(t, i, v, p, eolExists)
  {
    hide ShowsText, Shows, RowAfter;
    SetTwice(t.rows, i, t.rows[i], t.rows[i]);
    ShownLength(t.rows[i], p.text[..]);
    if v.changed {
      v.checksum := Checksum(v.text[..]);
      var differ := LinesDiffer(v, p);
      if !force && !differ {
        v.changed := false;
      } else {
        RowShows(t.rows[i], v.text[..], p.text[..], v.isReverse, v.wantsReverse, v.colours != v.wantedColours, eolExists);
        UpdateLine(t, i, v, p, eolExists);
        ShownLength(t.rows[i], v.text[..]);
      }
    }
  }

  lemma ShownLength(cells: seq<Cell>, line: seq<Code>)
    ensures ShowsText(cells, line) ==> |cells| == |line|
  {
  }

  /** `updupd` without scrolling: whatever the checksums were, every row of the terminal comes to show
      its virtual line and every physical image to equal it. */
  method UpdUpd(t: Terminal, vs: seq<Video>, ps: seq<Video>, force: bool, eolExists: bool)
    requires Screens(t, vs, ps) && t.Tracked() && !t.reversed
    requires forall i :: 0 <= i < |vs| ==> RowKnown(t, i, vs[i], ps[i])
    modifies t, vs, ps, set i | 0 <= i < |ps| :: ps[i].text
    ensures Screens(t, vs, ps) && t.Tracked() && !t.reversed
    ensures forall i :: 0 <= i < |vs| ==> RowDone(t, i, vs[i], ps[i])
    ensures |t.rows| == |old(t.rows)| && forall i :: |vs| <= i < |t.rows| ==> t.rows[i] == old(t.rows[i])
  {
    hide ShowsText, Shows;
    var i := 0;
    while i < |vs|
      invariant 0 <= i <= |vs| && Screens(t, vs, ps) && t.Tracked() && !t.reversed
      invariant |t.rows| == |old(t.rows)| && forall k :: |vs| <= k < |t.rows| ==> t.rows[k] == old(t.rows[k])
      invariant forall k :: 0 <= k < i ==> RowDone(t, k, vs[k], ps[k])
      invariant forall k :: i <= k < |vs| ==> RowKnown(t, k, vs[k], ps[k]) && RowUntouched(t, k, vs[k], ps[k])
    {
      UpdateRow(t, i, vs[i], ps[i], force, eolExists);
      i := i + 1;
    }
  }
}
