/** The gap buffer of gapbuffer.c as a byte sequence, and its lazily rebuilt index of line starts. */
module GapBuffer {
  import opened Bytes
  import BoyerMoore

  const MIN_SIZE := 1024
  const MAX_GAP := 4096
  const LINE_INDEX_CHUNK := 128

  // ---- Growth ----

  /** The capacity `expand_gap_buffer` arrives at: grown by half, rounded down, until `need` bytes
      beyond the text are free. A capacity of 0 or 1 would never grow. */
  function Grown(capacity: nat, logical: nat, need: nat): (c: nat)
    requires 2 <= capacity && logical <= capacity
    ensures c >= capacity && c - logical >= need
    decreases logical + need - capacity
  {
    if capacity - logical < need then Grown(capacity * 3 / 2, logical, need) else capacity
  }

  // ---- The four size fields ----

  /** `capacity`, `gap_start`, `gap_end` and `logical_size`. */
  datatype Shape = Shape(capacity: int, gapStart: int, gapEnd: int, logical: int) {
    function Gap(): int {
      gapEnd - gapStart
    }

    predicate Ok() {
      MIN_SIZE <= capacity && 0 <= gapStart <= gapEnd <= capacity && logical == capacity - Gap()
    }
  }

  /** The capacity with which `gap_buffer_insert` copies `len` bytes into the gap. It asks for
      `len - gap` more bytes, but the growth counts the gap it has as free already. */
  function Room(s: Shape, len: nat): int
    requires s.Ok()
  {
    if s.Gap() < len then Grown(s.capacity, s.logical, len - s.Gap()) else s.capacity
  }

  /** The capacity after `k` growths by half. */
  function GrownBy(capacity: nat, k: nat): (c: nat)
    ensures c >= capacity
    decreases k
  {
    if k == 0 then capacity else GrownBy(capacity * 3 / 2, k - 1)
  }

  /** The gap is too small for `len` bytes, and some growth frees what is missing from the gap but
      not room for all of the bytes. */
  ghost predicate Overruns(s: Shape, len: nat)
    requires s.Ok()
  {
    s.Gap() < len && exists k :: len - s.Gap() <= GrownBy(s.capacity, k) - s.logical < len
  }

  /** Growth stops at the first capacity that frees what was asked for. */
  lemma {:induction false} GrownIsFirst(capacity: nat, logical: nat, need: nat, k: nat)
    requires 2 <= capacity && logical <= capacity && GrownBy(capacity, k) - logical >= need
    ensures Grown(capacity, logical, need) <= GrownBy(capacity, k)
    decreases k
  {
    if k > 0 && capacity - logical < need {
      GrownIsFirst(capacity * 3 / 2, logical, need, k - 1);
    }
  }

  lemma {:induction false} GrownIsGrownBy(capacity: nat, logical: nat, need: nat) returns (k: nat)
    requires 2 <= capacity && logical <= capacity
    ensures Grown(capacity, logical, need) == GrownBy(capacity, k)
    decreases logical + need - capacity
  {
    if capacity - logical < need {
      var j := GrownIsGrownBy(capacity * 3 / 2, logical, need);
      k := j + 1;
    } else {
      k := 0;
    }
  }

  /** The size fields after an insertion, whether or not it fitted. */
  function InsertShape(s: Shape, pos: nat, len: nat): Shape
    requires s.Ok() && pos <= s.logical
  {
    var room := Room(s, len);
    Shape(room, pos + len, pos + (room - s.logical), s.logical + len)
  }

  /** The fields stay well formed iff no growth from the present capacity lands between what is
      missing and what is needed. */
  lemma InsertKeepsShape(s: Shape, pos: nat, len: nat)
    requires s.Ok() && pos <= s.logical
    ensures InsertShape(s, pos, len).Ok() <==> !Overruns(s, len)
  {
    if s.Gap() < len {
      var need := len - s.Gap();
      var k := GrownIsGrownBy(s.capacity, s.logical, need);
      forall j | need <= GrownBy(s.capacity, j) - s.logical < len ensures Room(s, len) - s.logical < len {
        GrownIsFirst(s.capacity, s.logical, need, j);
      }
    }
  }

  /** No gap at all, or one large enough, is always well; one too small that holds half the bytes or
      more never is: then nothing grows, and the gap's end is overrun. */
  lemma OverrunCases(s: Shape, pos: nat, len: nat)
    requires s.Ok() && pos <= s.logical
    ensures s.Gap() == 0 || len <= s.Gap() ==> !Overruns(s, len)
    ensures s.Gap() < len <= 2 * s.Gap() ==> Overruns(s, len) && InsertShape(s, pos, len).gapStart > InsertShape(s, pos, len).gapEnd
  {
    assert GrownBy(s.capacity, 0) == s.capacity;
  }

  /** A fresh buffer, however large, does not take a text one byte longer than itself. */
  lemma FreshBufferOverrun(capacity: int)
    requires MIN_SIZE <= capacity
    ensures var s := Shape(capacity, 0, capacity, 0);
      s.Ok() && Overruns(s, capacity + 1) && !InsertShape(s, 0, capacity + 1).Ok()
  {
    OverrunCases(Shape(capacity, 0, capacity, 0), 0, capacity + 1);
  }

  function DeleteShape(s: Shape, pos: nat, len: nat): (d: Shape)
    requires s.Ok() && pos + len <= s.logical
    ensures d.Ok() && d.Gap() <= MAX_GAP
  {
    if s.Gap() + len > MAX_GAP then CompactShape(s.(gapStart := pos, gapEnd := pos + s.Gap() + len, logical := s.logical - len))
    else s.(gapStart := pos, gapEnd := pos + s.Gap() + len, logical := s.logical - len)
  }

  function CompactShape(s: Shape): (c: Shape)
    requires s.Ok()
    ensures c.Ok() && c.Gap() <= s.Gap() && (s.Gap() >= MIN_SIZE ==> c.Gap() == MIN_SIZE)
  {
    if s.logical + MIN_SIZE >= s.capacity then s
    else Shape(s.logical + MIN_SIZE, s.logical, s.logical + MIN_SIZE, s.logical)
  }

  // ---- Line starts ----

  /** The newlines of `s`. */
  function Newlines(s: seq<Byte>): nat {
    if s == [] then 0 else Newlines(s[..|s| - 1]) + if s[|s| - 1] == NEWLINE then 1 else 0
  }

  /** 0 and every position behind a newline, in order. */
  function LineStarts(s: seq<Byte>): (starts: seq<nat>)
    ensures |starts| >= 1
  {
    if s == [] then [0]
    else if s[|s| - 1] == NEWLINE then LineStarts(s[..|s| - 1]) + [|s|]
    else LineStarts(s[..|s| - 1])
  }

  /** One line more than newlines; each start stands at the beginning or behind a newline. */
  lemma {:induction false} LineStartsStand(s: seq<Byte>, k: nat)
    requires k < |LineStarts(s)|
    ensures |LineStarts(s)| == Newlines(s) + 1
    ensures LineStarts(s)[k] <= |s| && (k == 0 <==> LineStarts(s)[k] == 0)
    ensures k > 0 ==> s[LineStarts(s)[k] - 1] == NEWLINE
    ensures Newlines(s[..LineStarts(s)[k]]) == k
  {
    if s == [] {
    } else {
      var t := s[..|s| - 1];
      LineStartsStand(t, if k < |LineStarts(t)| then k else 0);
      if k < |LineStarts(t)| {
        assert s[..LineStarts(s)[k]] == t[..LineStarts(s)[k]];
      } else {
        assert s[..|s|] == s;
      }
    }
  }

  lemma {:induction false} NewlinesGrow(s: seq<Byte>, a: nat, b: nat)
    requires a <= b <= |s|
    ensures Newlines(s[..a]) <= Newlines(s[..b])
  {
    if a < b {
      NewlinesGrow(s, a, b - 1);
      assert s[..b][..b - 1] == s[..b - 1];
    }
  }

  /** The index is strictly increasing, and holds every position behind a newline. */
  lemma {:induction false} LineStartsComplete(s: seq<Byte>, p: nat)
    requires 0 < p <= |s| && s[p - 1] == NEWLINE
    ensures Newlines(s[..p]) < |LineStarts(s)| && LineStarts(s)[Newlines(s[..p])] == p
  {
    var t := s[..|s| - 1];
    LineStartsStand(s, 0);
    LineStartsStand(t, 0);
    if p == |s| {
      assert s[..p] == s;
    } else {
      LineStartsComplete(t, p);
      assert s[..p] == t[..p];
    }
  }

  lemma LineStartsIncrease(s: seq<Byte>, j: nat, k: nat)
    requires j < k < |LineStarts(s)|
    ensures LineStarts(s)[j] < LineStarts(s)[k]
  {
    LineStartsStand(s, j);
    LineStartsStand(s, k);
    if LineStarts(s)[k] <= LineStarts(s)[j] {
      NewlinesGrow(s, LineStarts(s)[k], LineStarts(s)[j]);
    }
  }

  /** Line `k` is the line of `offset` iff there are `k` newlines before it. */
  lemma LineOfOffset(s: seq<Byte>, k: nat, offset: nat)
    requires k < |LineStarts(s)| && offset <= |s|
    requires LineStarts(s)[k] <= offset
    requires k + 1 < |LineStarts(s)| ==> offset < LineStarts(s)[k + 1]
    ensures k == Newlines(s[..offset])
  {
    LineStartsStand(s, k);
    NewlinesGrow(s, LineStarts(s)[k], offset);
    NewlinesGrow(s, offset, |s|);
    assert s[..|s|] == s;
    if Newlines(s[..offset]) > k {
      NewlineBefore(s, offset);
      if k + 1 < Newlines(s[..offset]) {
        LineStartsIncrease(s, k + 1, Newlines(s[..offset]));
      }
    }
  }

  /** The last newline before an offset that has one. */
  lemma {:induction false} NewlineBefore(s: seq<Byte>, offset: nat)
    requires offset <= |s| && Newlines(s[..offset]) > 0
    ensures Newlines(s[..offset]) < |LineStarts(s)| && LineStarts(s)[Newlines(s[..offset])] <= offset
  {
    assert s[..offset][..offset - 1] == s[..offset - 1];
    if s[offset - 1] == NEWLINE {
      LineStartsComplete(s, offset);
    } else {
      NewlineBefore(s, offset - 1);
    }
  }

  lemma LineStartsNext(s: seq<Byte>, i: nat)
    requires i < |s|
    ensures LineStarts(s[..i + 1]) == LineStarts(s[..i]) + if s[i] == NEWLINE then [i + 1] else []
  {
    assert s[..i + 1][..i] == s[..i];
  }

  /** From an offset to its line and back to the line's start: the start is at or before the offset,
      no newline lies between, and the way back from the start leads to the same line. */
  lemma LineOfOffsetStarts(s: seq<Byte>, offset: nat)
    requires offset <= |s|
    ensures var k := Newlines(s[..offset]);
      && k < |LineStarts(s)| && LineStarts(s)[k] <= offset
      && (forall p :: LineStarts(s)[k] <= p < offset ==> s[p] != NEWLINE)
      && Newlines(s[..LineStarts(s)[k]]) == k
  {
    var k := Newlines(s[..offset]);
    LineStartsStand(s, 0);
    NewlinesGrow(s, offset, |s|);
    assert s[..|s|] == s;
    if k > 0 {
      NewlineBefore(s, offset);
    }
    LineStartsStand(s, k);
    forall p | LineStarts(s)[k] <= p < offset ensures s[p] != NEWLINE {
      NewlinesGrow(s, LineStarts(s)[k], p);
      NewlinesGrow(s, p + 1, offset);
      assert s[..p + 1][..p] == s[..p];
    }
  }

  // ---- Runs ----

  datatype Edit = Insert(pos: nat, text: seq<Byte>) | Delete(pos: nat, len: nat) | SetCursor(pos: nat) | Compact

  /** An edit of the bytes; a position outside them is refused and changes nothing. */
  function TextAfter(t: seq<Byte>, e: Edit): seq<Byte> {
    match e
    case Insert(pos, text) => if pos <= |t| then t[..pos] + text + t[pos..] else t
    case Delete(pos, len) => if pos + len <= |t| then t[..pos] + t[pos + len..] else t
    case _ => t
  }

  /** Byte by byte: an insertion at or before the end puts its bytes between those before the place and
      those from it on, and their deletion takes it back; outside the text nothing changes. */
  lemma InsertByByte(t: seq<Byte>, pos: nat, s: seq<Byte>)
    ensures var r := TextAfter(t, Edit.Insert(pos, s));
      && (pos <= |t| ==>
          && |r| == |t| + |s| && (forall i :: 0 <= i < pos ==> r[i] == t[i])
          && (forall i :: pos <= i < pos + |s| ==> r[i] == s[i - pos])
          && (forall i :: pos + |s| <= i < |r| ==> r[i] == t[i - |s|])
          && TextAfter(r, Edit.Delete(pos, |s|)) == t)
      && (pos > |t| ==> r == t)
  {
    if pos <= |t| {
      var r := TextAfter(t, Edit.Insert(pos, s));
      assert r[..pos] == t[..pos] && r[pos + |s|..] == t[pos..];
      assert t[..pos] + t[pos..] == t;
    }
  }

  /** A deletion within the text closes up over the bytes it names, and their insertion takes it back. */
  lemma DeleteByByte(t: seq<Byte>, pos: nat, len: nat)
    ensures var r := TextAfter(t, Edit.Delete(pos, len));
      && (pos + len <= |t| ==>
          && |r| == |t| - len && (forall i :: 0 <= i < pos ==> r[i] == t[i])
          && (forall i :: pos <= i < |r| ==> r[i] == t[i + len])
          && TextAfter(r, Edit.Insert(pos, t[pos..pos + len])) == t)
      && (pos + len > |t| ==> r == t)
  {
    if pos + len <= |t| {
      var r := TextAfter(t, Edit.Delete(pos, len));
      assert r[..pos] == t[..pos] && r[pos..] == t[pos + len..];
      assert t[..pos] + t[pos..pos + len] + t[pos + len..] == t;
    }
  }

  function ShapeAfter(s: Shape, e: Edit): Shape
    requires s.Ok()
  {
    match e
    case Insert(pos, text) => if pos <= s.logical then InsertShape(s, pos, |text|) else s
    case Delete(pos, len) => if pos + len <= s.logical then DeleteShape(s, pos, len) else s
    case SetCursor(pos) => if pos <= s.logical then s.(gapStart := pos, gapEnd := pos + s.Gap()) else s
    case Compact => CompactShape(s)
  }

  /** No insertion of a run overruns the gap when its turn comes. */
  ghost predicate AllFit(s: Shape, edits: seq<Edit>)
    requires s.Ok()
    decreases |edits|
  {
    edits == [] ||
    ((edits[0].Insert? && edits[0].pos <= s.logical ==> !Overruns(s, |edits[0].text|))
     && (ShapeAfter(s, edits[0]).Ok() ==> AllFit(ShapeAfter(s, edits[0]), edits[1..])))
  }

  function TextAfterAll(t: seq<Byte>, edits: seq<Edit>): seq<Byte>
    decreases |edits|
  {
    if edits == [] then t else TextAfterAll(TextAfter(t, edits[0]), edits[1..])
  }

  /** The fields after a run, or None once they have gone wrong. */
  function ShapeAfterAll(s: Shape, edits: seq<Edit>): (r: Option<Shape>)
    requires s.Ok()
    ensures r.Some? ==> r.value.Ok()
    decreases |edits|
  {
    if edits == [] then Some(s)
    else if ShapeAfter(s, edits[0]).Ok() then ShapeAfterAll(ShapeAfter(s, edits[0]), edits[1..])
    else None
  }

  /** Over every run of edits, refused ones included, the fields stay well formed and agree with the
      text iff no insertion overruns the gap. */
  lemma {:induction false} RunsAgree(s: Shape, t: seq<Byte>, edits: seq<Edit>)
    requires s.Ok() && s.logical == |t|
    ensures ShapeAfterAll(s, edits).Some? <==> AllFit(s, edits)
    ensures AllFit(s, edits) ==> ShapeAfterAll(s, edits).value.logical == |TextAfterAll(t, edits)|
    decreases |edits|
  {
    if edits != [] {
      var e := edits[0];
      if e.Insert? && e.pos <= s.logical {
        InsertKeepsShape(s, e.pos, |e.text|);
      }
      var next := ShapeAfter(s, e);
      if next.Ok() {
        assert next.logical == |TextAfter(t, e)|;
        RunsAgree(next, TextAfter(t, e), edits[1..]);
      }
    }
  }

  // ---- The buffer ----

  /** `memcpy` and `memmove`; the regions may overlap. */
  method Copy(to: array<Byte>, at: nat, from: array<Byte>, start: nat, n: nat)
    requires at + n <= to.Length && start + n <= from.Length
    modifies to
    ensures to[..] == Overlay(old(to[..]), at, old(from[..])[start..start + n])
  {
    forall i | 0 <= i < n { to[at + i] := from[start + i]; }
  }

  method Store(to: array<Byte>, at: nat, text: seq<Byte>)
    requires at + |text| <= to.Length
    modifies to
    ensures to[..] == Overlay(old(to[..]), at, text)
  {
    forall i | 0 <= i < |text| { to[at + i] := text[i]; }
  }

  /** `d` with `text` written over it at `at`. */
  function Overlay(d: seq<Byte>, at: nat, text: seq<Byte>): (r: seq<Byte>)
    requires at + |text| <= |d|
    ensures |r| == |d|
  {
    d[..at] + text + d[at + |text|..]
  }

  /** The bytes of `d` outside a gap from `a` to `b`. */
  function Around(d: seq<Byte>, a: int, b: int): seq<Byte>
    requires 0 <= a <= b <= |d|
  {
    d[..a] + d[b..]
  }

  /** The three moves of text past a gap. */
  lemma GapLeft(d: seq<Byte>, a: nat, b: nat, pos: nat, d': seq<Byte>)
    requires pos <= a <= b <= |d| && d' == Overlay(d, pos + (b - a), d[pos..a])
    ensures Around(d', pos, pos + (b - a)) == Around(d, a, b)
  {
    assert d'[pos + (b - a)..] == d[pos..a] + d[b..];
    assert d[..pos] + d[pos..a] == d[..a];
  }

  lemma GapRight(d: seq<Byte>, a: nat, b: nat, pos: nat, d': seq<Byte>)
    requires a <= b <= |d| && a <= pos && pos + (b - a) <= |d|
    requires d' == Overlay(d, a, d[b..pos + (b - a)])
    ensures Around(d', pos, pos + (b - a)) == Around(d, a, b)
  {
    assert d'[..pos] == d[..a] + d[b..pos + (b - a)];
    assert d'[pos + (b - a)..] == d[pos + (b - a)..];
    assert d[b..pos + (b - a)] + d[pos + (b - a)..] == d[b..];
  }

  lemma GapWider(d: seq<Byte>, a: nat, b: nat, d0: seq<Byte>, d1: seq<Byte>, d2: seq<Byte>, c: nat)
    requires a <= b <= |d| && a <= c && |d0| == c + |d| - b
    requires d1 == Overlay(d0, 0, d[..a]) && d2 == Overlay(d1, c, d[b..])
    ensures Around(d2, a, c) == Around(d, a, b)
  {
    assert d2[..a] == d[..a] && d2[c..] == d[b..];
  }

  lemma FillGap(d: seq<Byte>, a: nat, b: nat, text: seq<Byte>, d': seq<Byte>)
    requires a + |text| <= b <= |d| && d' == Overlay(d, a, text)
    ensures Around(d', a + |text|, b) == Around(d, a, b)[..a] + text + Around(d, a, b)[a..]
  {
    assert d'[..a + |text|] == d[..a] + text && d'[b..] == d[b..];
  }

  lemma WidenGap(d: seq<Byte>, a: nat, b: nat, len: nat)
    requires a <= b && b + len <= |d|
    ensures Around(d, a, b + len) == Around(d, a, b)[..a] + Around(d, a, b)[a + len..]
  {
    assert Around(d, a, b)[a + len..] == d[b + len..];
  }

  /** A stretch of the text, from at most two stretches of the data. */
  lemma StretchBefore(d: seq<Byte>, a: nat, b: nat, pos: nat, c: nat, rest: nat)
    requires a <= b <= |d| && pos + c <= a && (rest > 0 ==> pos + c == a) && b + rest <= |d|
    ensures Around(d, a, b)[pos..pos + c + rest] == d[pos..pos + c] + d[b..b + rest]
  {
    var t := Around(d, a, b);
    assert t[pos..pos + c] == d[pos..pos + c];
    if rest == 0 {
      assert d[b..b + rest] == [];
    } else {
      assert t[a..a + rest] == d[b..b + rest];
      assert t[pos..pos + c + rest] == t[pos..pos + c] + t[a..a + rest];
    }
  }

  lemma StretchBehind(d: seq<Byte>, a: nat, b: nat, pos: nat, len: nat)
    requires a <= b <= |d| && a <= pos && pos + (b - a) + len <= |d|
    ensures Around(d, a, b)[pos..pos + len] == d[pos + (b - a)..pos + (b - a) + len]
  {
  }

  lemma TwoOverlays(d: seq<Byte>, x: seq<Byte>, y: seq<Byte>)
    requires |x| + |y| <= |d|
    ensures Overlay(Overlay(d, 0, x), |x|, y) == Overlay(d, 0, x + y)
  {
  }

  lemma OverlayParts(d: seq<Byte>, x: seq<Byte>)
    requires |x| <= |d|
    ensures Overlay(d, 0, x)[..|x|] == x && Overlay(d, 0, x)[|x|..] == d[|x|..]
  {
  }

  class Buffer {
    var data: array<Byte>
    var gapStart: nat
    var gapEnd: nat
    var logicalSize: nat
    var offsets: array<nat>
    var count: nat
    var dirty: bool

    function Fields(): Shape
      reads this
    {
      Shape(data.Length, gapStart, gapEnd, logicalSize)
    }

    ghost predicate Fine()
      reads this
    {
      Fields().Ok()
    }

    /** The text: what lies before the gap, then what lies after it. */
    function Contents(): (t: seq<Byte>)
      requires Fine()
      reads this, data
      ensures |t| == logicalSize
    {
      Around(data[..], gapStart, gapEnd)
    }

    ghost predicate Valid()
      reads this, data, offsets
    {
      && Fine()
      && 1 <= count <= offsets.Length
      && (!dirty ==> offsets[..count] == LineStarts(Contents()))
    }

    constructor (initialCapacity: nat)
      ensures Valid() && Contents() == [] && fresh(data) && fresh(offsets)
    {
      var capacity := if initialCapacity < MIN_SIZE then MIN_SIZE else initialCapacity;
      data := new Byte[capacity];
      offsets := new nat[LINE_INDEX_CHUNK];
      gapStart, gapEnd, logicalSize := 0, capacity, 0;
      count, dirty := 1, false;
      new;
      hide LineStarts, Around;
      offsets[0] := 0;
      assert offsets[..1] == [0];
      NothingAround(data[..]);
    }

    /** `move_gap_to`: the text stays the same. */
    method MoveGapTo(pos: nat)
      requires Fine() && pos <= logicalSize
      modifies this`gapStart, this`gapEnd, data
      ensures Fine() && gapStart == pos && gapEnd - gapStart == old(gapEnd - gapStart)
      ensures Contents() == old(Contents())
    {
      hide Around, Overlay;
      if pos == gapStart {
        return;
      }
      var gap := gapEnd - gapStart;
      ghost var d := data[..];
      if pos < gapStart {
        Copy(data, pos + gap, data, pos, gapStart - pos);
        GapLeft(d, gapStart, gapEnd, pos, data[..]);
      } else {
        Copy(data, gapStart, data, gapEnd, pos - gapStart);
        GapRight(d, gapStart, gapEnd, pos, data[..]);
      }
      gapStart, gapEnd := pos, pos + gap;
    }

    /** `expand_gap_buffer`: the text stays the same, and the gap takes up all the growth. */
    method Expand(need: nat)
      requires Fine()
      modifies this`data, this`gapEnd
      ensures Fine() && fresh(data) && gapStart == old(gapStart)
      ensures data.Length == Grown(old(data.Length), logicalSize, need)
      ensures Contents() == old(Contents())
    {
      hide Around, Overlay;
      var capacity := data.Length;
      while capacity - logicalSize < need
        invariant capacity >= data.Length && Grown(capacity, logicalSize, need) == Grown(data.Length, logicalSize, need)
        decreases logicalSize + need - capacity
      {
        capacity := capacity * 3 / 2;
      }
      var grown := new Byte[capacity];
      var after := data.Length - gapEnd;
      ghost var g0 := grown[..];
      Copy(grown, 0, data, 0, gapStart);
      ghost var g1 := grown[..];
      Copy(grown, capacity - after, data, gapEnd, after);
      assert data[..][0..0 + gapStart] == data[..][..gapStart] && data[..][gapEnd..gapEnd + after] == data[..][gapEnd..];
      GapWider(data[..], gapStart, gapEnd, g0, g1, grown[..], capacity - after);
      data, gapEnd := grown, capacity - after;
    }

    /** Makes the gap as wide as `gap_buffer_insert` makes it for `len` bytes. */
    method Reserve(len: nat)
      requires Fine()
      modifies this`data, this`gapEnd
      ensures Fine() && (data == old(data) || fresh(data))
      ensures data.Length == Room(old(Fields()), len)
      ensures Contents() == old(Contents())
    {
      hide Around, Grown;
      var gap := gapEnd - gapStart;
      if gap < len {
        Expand(len - gap);
      }
    }

    /** `gap_buffer_insert`, for an insertion that fits. */
    method Insert(pos: nat, text: seq<Byte>) returns (ok: bool)
      requires Valid() && (pos <= logicalSize ==> !Overruns(Fields(), |text|))
      modifies this, data
      ensures Valid() && (data == old(data) || fresh(data)) && offsets == old(offsets)
      ensures ok <==> pos <= old(logicalSize)
      ensures Contents() == TextAfter(old(Contents()), Edit.Insert(pos, text))
      ensures Fields() == ShapeAfter(old(Fields()), Edit.Insert(pos, text))
      ensures ok ==> dirty && gapStart == pos + |text|
    {
      if pos > logicalSize {
        return false;
      }
      InsertWithin(pos, text);
      return true;
    }

    method InsertWithin(pos: nat, text: seq<Byte>)
      requires Valid() && pos <= logicalSize && !Overruns(Fields(), |text|)
      modifies this, data
      ensures Valid() && (data == old(data) || fresh(data)) && offsets == old(offsets) && dirty
      ensures Contents() == TextAfter(old(Contents()), Edit.Insert(pos, text))
      ensures Fields() == ShapeAfter(old(Fields()), Edit.Insert(pos, text))
    {
      hide Around, Overlay, LineStarts, Room, Overruns;
      InsertKeepsShape(Fields(), pos, |text|);
      Reserve(|text|);
      MoveGapTo(pos);
      WriteInGap(text);
      dirty := true;
    }

    /** The text goes to the start of the gap. */
    method WriteInGap(text: seq<Byte>)
      requires Fine() && |text| <= gapEnd - gapStart
      modifies this`gapStart, this`logicalSize, data
      ensures Fine() && gapStart == old(gapStart) + |text| && logicalSize == old(logicalSize) + |text|
      ensures Contents() == old(Contents())[..old(gapStart)] + text + old(Contents())[old(gapStart)..]
    {
      hide Around, Overlay;
      ghost var d := data[..];
      Store(data, gapStart, text);
      FillGap(d, gapStart, gapEnd, text, data[..]);
      gapStart, logicalSize := gapStart + |text|, logicalSize + |text|;
    }

    /** `gap_buffer_compact`: the text stays the same. */
    method Compact()
      requires Fine()
      modifies this`data, this`gapStart, this`gapEnd
      ensures Fine() && (data == old(data) || fresh(data))
      ensures Contents() == old(Contents())
      ensures Fields() == CompactShape(old(Fields()))
    {
      var capacity := logicalSize + MIN_SIZE;
      if capacity >= data.Length {
        return;
      }
      var packed := new Byte[capacity];
      var after := data.Length - gapEnd;
      Copy(packed, 0, data, 0, gapStart);
      Copy(packed, gapStart, data, gapEnd, after);
      assert packed[..logicalSize] == Contents();
      assert Around(packed[..], logicalSize, capacity) == packed[..logicalSize];
      data, gapStart, gapEnd := packed, logicalSize, capacity;
    }

    /** `gap_buffer_delete`. */
    method Delete(pos: nat, len: nat) returns (ok: bool)
      requires Valid()
      modifies this, data
      ensures Valid() && (data == old(data) || fresh(data)) && offsets == old(offsets)
      ensures ok <==> pos + len <= old(logicalSize)
      ensures Contents() == TextAfter(old(Contents()), Edit.Delete(pos, len))
      ensures Fields() == ShapeAfter(old(Fields()), Edit.Delete(pos, len))
      ensures ok ==> dirty
    {
      hide Around, LineStarts;
      if pos > logicalSize || pos + len > logicalSize {
        return false;
      }
      MoveGapTo(pos);
      WidenGap(data[..], gapStart, gapEnd, len);
      gapEnd, logicalSize := gapEnd + len, logicalSize - len;
      if gapEnd - gapStart > MAX_GAP {
        Compact();
      }
      dirty := true;
      return true;
    }

    /** `gap_buffer_set_cursor`: moves no byte of the text and leaves the line index good. */
    method SetCursor(pos: nat) returns (ok: bool)
      requires Valid()
      modifies this`gapStart, this`gapEnd, data
      ensures Valid() && (ok <==> pos <= logicalSize)
      ensures Contents() == old(Contents()) && Fields() == ShapeAfter(old(Fields()), Edit.SetCursor(pos))
      ensures ok ==> gapStart == pos
    {
      if pos > logicalSize {
        return false;
      }
      MoveGapTo(pos);
      return true;
    }

    /** `gap_buffer_get_char`: NUL outside the text. */
    method GetChar(pos: nat) returns (c: Byte)
      requires Fine()
      ensures c == if pos < logicalSize then Contents()[pos] else 0
    {
      if pos >= logicalSize {
        return 0;
      }
      c := if pos < gapStart then data[pos] else data[pos + (gapEnd - gapStart)];
    }

    /** The two copies of `gap_buffer_get_text`, from before the gap and from behind it. */
    method CopyText(pos: nat, length: nat, buffer: array<Byte>)
      requires Fine() && buffer != data && pos + length <= logicalSize && length <= buffer.Length
      modifies buffer
      ensures buffer[..] == Overlay(old(buffer[..]), 0, Contents()[pos..pos + length])
    {
      hide Around, Overlay;
      ghost var b0, d := buffer[..], data[..];
      var gap := gapEnd - gapStart;
      if pos >= gapStart {
        StretchBehind(d, gapStart, gapEnd, pos, length);
        Copy(buffer, 0, data, pos + gap, length);
      } else {
        var copied := if gapStart - pos < length then gapStart - pos else length;
        var rest := length - copied;
        StretchBefore(d, gapStart, gapEnd, pos, copied, rest);
        TwoOverlays(b0, d[pos..pos + copied], d[gapEnd..gapEnd + rest]);
        Copy(buffer, 0, data, pos, copied);
        Copy(buffer, copied, data, gapEnd, rest);
      }
    }

    /** `gap_buffer_get_text`: as much of the stretch as there is and as `buffer` takes. */
    method GetText(pos: nat, length: nat, buffer: array<Byte>) returns (copied: nat)
      requires Fine() && buffer != data
      modifies buffer
      ensures pos > logicalSize ==> copied == 0
      ensures pos <= logicalSize ==> copied == Min(length, Min(logicalSize - pos, buffer.Length))
      ensures pos <= logicalSize ==> buffer[..copied] == Contents()[pos..pos + copied]
      ensures buffer[copied..] == old(buffer[copied..])
    {
      hide Around, Overlay;
      if pos > logicalSize {
        return 0;
      }
      copied := if pos + length > logicalSize then logicalSize - pos else length;
      if copied > buffer.Length {
        copied := buffer.Length;
      }
      OverlayParts(buffer[..], Contents()[pos..pos + copied]);
      ghost var b0 := buffer[..];
      CopyText(pos, copied, buffer);
      assert buffer[..copied] == buffer[..][..copied] && buffer[copied..] == buffer[..][copied..];
    }

    /** Appends a line start to the index, which grows by a chunk when it is full. */
    method Record(at: nat)
      requires 1 <= count <= offsets.Length
      modifies this`count, this`offsets, offsets
      ensures 1 <= count <= offsets.Length && (offsets == old(offsets) || fresh(offsets))
      ensures offsets[..count] == old(offsets[..count]) + [at]
    {
      if count >= offsets.Length {
        var wider := new nat[offsets.Length + LINE_INDEX_CHUNK];
        forall i | 0 <= i < count { wider[i] := offsets[i]; }
        assert wider[..count] == offsets[..count];
        offsets := wider;
      }
      offsets[count] := at;
      count := count + 1;
    }

    /** `gap_buffer_rebuild_line_index`: the index holds the line starts wherever the gap lies. */
    method RebuildLineIndex()
      requires Valid()
      modifies this`count, this`offsets, this`dirty, offsets
      ensures Valid() && !dirty && (offsets == old(offsets) || fresh(offsets))
    {
      hide LineStarts, Around;
      ghost var t := Contents();
      offsets[0] := 0;
      count := 1;
      assert offsets[..1] == [0];
      StartOfNothing(t);
      var i := 0;
      while i < gapStart
        invariant 0 <= i <= gapStart && 1 <= count <= offsets.Length
        invariant offsets == old(offsets) || fresh(offsets)
        invariant offsets[..count] == LineStarts(t[..i])
      {
        ByteBefore(data[..], gapStart, gapEnd, i);
        LineStartsNext(t, i);
        if data[i] == NEWLINE {
          Record(i + 1);
        }
        i := i + 1;
      }
      i := gapEnd;
      while i < data.Length
        invariant gapEnd <= i <= data.Length && 1 <= count <= offsets.Length
        invariant offsets == old(offsets) || fresh(offsets)
        invariant offsets[..count] == LineStarts(t[..i - (gapEnd - gapStart)])
      {
        var at := i - (gapEnd - gapStart);
        ByteBehind(data[..], gapStart, gapEnd, at);
        LineStartsNext(t, at);
        if data[i] == NEWLINE {
          Record(at + 1);
        }
        i := i + 1;
      }
      assert t[..|t|] == t;
      dirty := false;
    }

    /** `gap_buffer_line_count`. */
    method LineCount() returns (n: nat)
      requires Valid()
      modifies this`count, this`offsets, this`dirty, offsets
      ensures Valid() && !dirty && (offsets == old(offsets) || fresh(offsets))
      ensures n == count == Newlines(Contents()) + 1
    {
      if dirty {
        RebuildLineIndex();
      }
      LineStartsStand(Contents(), 0);
      n := count;
    }

    /** `gap_buffer_line_to_offset`: the end of the text for a line it has not. */
    method LineToOffset(line: nat) returns (offset: nat)
      requires Valid()
      modifies this`count, this`offsets, this`dirty, offsets
      ensures Valid() && (offsets == old(offsets) || fresh(offsets))
      ensures offset == if line < |LineStarts(Contents())| then LineStarts(Contents())[line] else logicalSize
      // the conversion back gives the line
      ensures line < |LineStarts(Contents())| ==> offset <= logicalSize && Newlines(Contents()[..offset]) == line
    {
      var n := LineCount();
      LineStartsStand(Contents(), 0);
      if line >= n {
        return logicalSize;
      }
      LineStartsStand(Contents(), line);
      offset := offsets[..count][line];
    }

    /** `gap_buffer_offset_to_line`: the number of newlines before the offset, 0 outside the text. */
    method OffsetToLine(offset: nat) returns (line: nat)
      requires Valid()
      modifies this`count, this`offsets, this`dirty, offsets
      ensures Valid() && (offsets == old(offsets) || fresh(offsets))
      ensures line == if offset <= logicalSize then Newlines(Contents()[..offset]) else 0
    {
      hide LineStarts, Around, Newlines;
      if offset > logicalSize {
        return 0;
      }
      if dirty {
        RebuildLineIndex();
      }
      ghost var t := Contents();
      ghost var starts := LineStarts(t);
      LineStartsStand(t, 0);
      var left, right := 0, count - 1;
      while left < right
        invariant 0 <= left <= right < count == |starts|
        invariant starts[left] <= offset
        invariant right + 1 < count ==> offset < starts[right + 1]
      {
        var mid := left + (right - left + 1) / 2;
        assert offsets[mid] == offsets[..count][mid];
        if offsets[mid] <= offset {
          left := mid;
        } else {
          right := mid - 1;
        }
      }
      LineOfOffset(t, left, offset);
      line := left;
    }

    /** `gap_buffer_search_forward`: the first match at or after `start`, the size if there is none or
        the pattern is one Boyer-Moore does not take. */
    method SearchForward(start: nat, pattern: seq<Byte>) returns (at: nat)
      requires Fine()
      ensures at <= logicalSize
      ensures 0 < |pattern| <= BoyerMoore.BM_MAX_PATTERN && at < logicalSize ==>
        start <= at && BoyerMoore.MatchAt(Contents(), at, pattern, true)
      ensures 0 < |pattern| <= BoyerMoore.BM_MAX_PATTERN ==>
        forall k :: start <= k < at ==> !BoyerMoore.MatchAt(Contents(), k, pattern, true)
      ensures !(0 < |pattern| <= BoyerMoore.BM_MAX_PATTERN) ==> at == logicalSize
    {
      hide Around;
      if pattern == [] || start >= logicalSize {
        return logicalSize;
      }
      var text := new Byte[logicalSize - start];
      for i := 0 to text.Length
        invariant forall k :: 0 <= k < i ==> text[k] == Contents()[start + k]
      {
        text[i] := GetChar(start + i);
      }
      ghost var t := Contents();
      assert text[..] == t[start..];
      var bm := new BoyerMoore.Context();
      var ok := bm.Init(pattern, true);
      if !ok {
        return logicalSize;
      }
      var pos := bm.Search(text[..], 0);
      forall k | start <= k ensures BoyerMoore.MatchAt(t, k, pattern, true) <==> BoyerMoore.MatchAt(t[start..], k - start, pattern, true) {
        MatchInRest(t, start, k, pattern);
      }
      at := if pos >= 0 then start + pos else logicalSize;
    }
  }

  lemma MatchInRest(t: seq<Byte>, start: nat, k: nat, pattern: seq<Byte>)
    requires start <= k && start <= |t|
    ensures BoyerMoore.MatchAt(t, k, pattern, true) <==> BoyerMoore.MatchAt(t[start..], k - start, pattern, true)
  {
    var rest := t[start..];
    if BoyerMoore.MatchAt(t, k, pattern, true) {
      forall j | 0 <= j < |pattern| ensures BoyerMoore.Normalize(rest[k - start + j], true) == BoyerMoore.Normalize(pattern[j], true) {
        assert BoyerMoore.Normalize(t[k + j], true) == BoyerMoore.Normalize(pattern[j], true);
      }
    }
    if BoyerMoore.MatchAt(rest, k - start, pattern, true) {
      forall j | 0 <= j < |pattern| ensures BoyerMoore.Normalize(t[k + j], true) == BoyerMoore.Normalize(pattern[j], true) {
        assert BoyerMoore.Normalize(rest[k - start + j], true) == BoyerMoore.Normalize(pattern[j], true);
      }
    }
  }

  lemma NothingAround(d: seq<Byte>)
    ensures Around(d, 0, |d|) == [] && LineStarts(Around(d, 0, |d|)) == [0]
  {
  }

  lemma StartOfNothing(t: seq<Byte>)
    ensures LineStarts(t[..0]) == [0]
  {
  }

  lemma ByteBefore(d: seq<Byte>, a: nat, b: nat, i: nat)
    requires a <= b <= |d| && i < a
    ensures Around(d, a, b)[i] == d[i]
  {
  }

  lemma ByteBehind(d: seq<Byte>, a: nat, b: nat, i: nat)
    requires a <= b <= |d| && a <= i < a + |d| - b
    ensures Around(d, a, b)[i] == d[i + (b - a)]
  {
  }

  function Min(a: nat, b: nat): nat {
    if a < b then a else b
  }
}
