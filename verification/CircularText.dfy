/** The buffer as the search code sees it: a ring of lines whose last element is the empty
    header line, read one character at a time in either direction. */
module CircularText {
  import opened Bytes

  datatype Direction = Forward | Reverse

  /** A line of the ring (the header has the last index) and a byte offset into it. */
  datatype Cursor = Cursor(line: nat, off: nat)

  /** The ring of lines, header last, with the case sensitivity of the buffer being searched. */
  datatype RawRing = Ring(lines: seq<seq<Byte>>, exact: bool)

  type Ring = r: RawRing | |r.lines| >= 1 && r.lines[|r.lines| - 1] == [] witness Ring([[]], true)

  function Header(r: Ring): nat {
    |r.lines| - 1
  }

  predicate On(r: Ring, c: Cursor) {
    c.line < |r.lines| && c.off <= |r.lines[c.line]|
  }

  /** Cursors between two lines of text; the header line is not text. */
  predicate OnText(r: Ring, c: Cursor) {
    On(r, c) && c.line < Header(r)
  }

  predicate AtLineStart(c: Cursor) {
    c.off == 0
  }

  predicate AtLineEnd(r: Ring, c: Cursor)
    requires On(r, c)
  {
    c.off == |r.lines[c.line]|
  }

  /** The character to the right of the cursor; every line, the header too, ends in a newline. */
  function CharAt(r: Ring, c: Cursor): Byte
    requires On(r, c)
  {
    if AtLineEnd(r, c) then NEWLINE else r.lines[c.line][c.off]
  }

  function Ahead(r: Ring, c: Cursor): (a: Cursor)
    requires On(r, c)
    ensures On(r, a)
  {
    if !AtLineEnd(r, c) then Cursor(c.line, c.off + 1)
    else if c.line == Header(r) then Cursor(0, 0)
    else Cursor(c.line + 1, 0)
  }

  function Behind(r: Ring, c: Cursor): (b: Cursor)
    requires On(r, c)
    ensures On(r, b)
  {
    if c.off > 0 then Cursor(c.line, c.off - 1)
    else if c.line == 0 then Cursor(Header(r), 0)
    else Cursor(c.line - 1, |r.lines[c.line - 1]|)
  }

  function Step(r: Ring, dir: Direction, c: Cursor): (s: Cursor)
    requires On(r, c)
    ensures On(r, s)
  {
    if dir == Forward then Ahead(r, c) else Behind(r, c)
  }

  /** The character passed over by a step in the given direction. */
  function Passed(r: Ring, dir: Direction, c: Cursor): Byte
    requires On(r, c)
  {
    if dir == Forward then CharAt(r, c) else CharAt(r, Behind(r, c))
  }

  function Opposite(dir: Direction): Direction {
    if dir == Forward then Reverse else Forward
  }

  /** Walking forward and walking backward are inverse, and pass the same character. */
  lemma StepsAreInverse(r: Ring, dir: Direction, c: Cursor)
    requires On(r, c)
    ensures Step(r, Opposite(dir), Step(r, dir, c)) == c
    ensures Passed(r, Opposite(dir), Step(r, dir, c)) == Passed(r, dir, c)
  {
  }

  /** `nextch`: retrieve the next (or previous) character and move the point past it. */
  method NextCh(r: Ring, cur: Cursor, dir: Direction) returns (c: Byte, next: Cursor)
    requires On(r, cur)
    ensures c == Passed(r, dir, cur)
    ensures next == Step(r, dir, cur)
    // the opposite call gives the character back and returns to where it started
    ensures Step(r, Opposite(dir), next) == cur && Passed(r, Opposite(dir), next) == c
  {
    var line, off := cur.line, cur.off;
    if dir == Forward {
      if off == |r.lines[line]| {
        line := if line == Header(r) then 0 else line + 1;
        off := 0;
        c := NEWLINE;
      } else {
        c := r.lines[line][off];
        off := off + 1;
      }
    } else {
      if off == 0 {
        line := if line == 0 then Header(r) else line - 1;
        off := |r.lines[line]|;
        c := NEWLINE;
      } else {
        off := off - 1;
        c := r.lines[line][off];
      }
    }
    next := Cursor(line, off);
  }

  /** `boundry`: the end of the last line going forward, the start of the first going back. */
  predicate Boundary(r: Ring, c: Cursor, dir: Direction)
    requires On(r, c)
  {
    if dir == Forward
    then AtLineEnd(r, c) && (if c.line == Header(r) then 0 else c.line + 1) == Header(r)
    else c.off == 0 && (if c.line == 0 then Header(r) else c.line - 1) == Header(r)
  }

  /** Buffer order; the header position comes after all text. */
  predicate Before(a: Cursor, b: Cursor) {
    a.line < b.line || (a.line == b.line && a.off < b.off)
  }
}
