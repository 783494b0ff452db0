/** The undo history of undo.c as a log of changes, and what it guarantees over every run. */
module UndoLog {
  import opened Bytes
  import opened Text
  import opened TextEdits

  // ---- Changes to a text ----

  datatype Kind = Insertion | Deletion_

  /** An edit as it is recorded: a line number counted from 1, an offset on that line, and the bytes
      inserted or deleted there. */
  datatype Change = Change(kind: Kind, l: nat, o: nat, text: seq<Byte>)

  function Place(c: Change): Pos
    requires c.l >= 1
  {
    Pos(c.l - 1, c.o)
  }

  /** A buffer showing `t` in one window with dot at `p`. */
  function Single(t: Lines, p: Pos): Ed {
    Ed(t, [View(0, p, None)], 0)
  }

  function DeleteText(t: Lines, p: Pos, n: nat): Lines
    requires OkPos(t, p)
  {
    assert OkEd(Single(t, p));
    Delete(Single(t, p), n, false, []).ed.text
  }

  /** An insertion made with dot on the header line: it is logged with line number 0, the number
      `getlinenum` has for the header. */
  predicate Stays(c: Change) {
    c.kind == Insertion && c.l == 0 && c.text != []
  }

  /** The offset logged for an insertion of `s` on the header line: `lnewline` logs that of dot,
      `linsert` that of the end of the last line, where it goes. */
  function HeaderOffset(t: Lines, s: seq<Byte>): nat
    requires s != []
  {
    if t == [] || s[0] == NEWLINE then 0 else |t[|t| - 1]|
  }

  /** A deletion with dot on the header line: it is logged although nothing was there to delete, with
      whatever offset dot has. */
  predicate Idle(c: Change) {
    c.kind == Deletion_ && c.l == 0 && c.text == []
  }

  /** The change is one the editor records when editing `t`: NUL-free bytes inserted, or, on a line
      of text, the very bytes found there deleted, the last line's newline not among them, or, on the
      header line, none. */
  predicate FitsText(t: Lines, c: Change) {
    && 0 !in c.text
    && if c.l == 0 then Idle(c) || (Stays(c) && c.o == HeaderOffset(t, c.text))
       else
         && OnLine(t, Place(c))
         && (c.kind == Deletion_ ==>
             var at := Linear(t, Place(c));
             c.text != [] && at + |c.text| < |Flat(t)| && c.text == Flat(t)[at..at + |c.text|])
  }

  /** Where the change is made. */
  function Spot(t: Lines, c: Change): Pos {
    if c.l == 0 then Pos(|t|, 0) else Place(c)
  }

  /** The text with the change made. */
  function Do(t: Lines, c: Change): Lines
    requires OkPos(t, Spot(t, c))
  {
    if c.kind == Insertion then TypeText(t, Spot(t, c), c.text).0 else DeleteText(t, Spot(t, c), |c.text|)
  }

  /** The text with the change taken back, as `undo_operation` does it. */
  function TakeBack(t: Lines, c: Change): Lines
    requires OkPos(t, Spot(t, c))
  {
    if c.kind == Insertion then DeleteText(t, Spot(t, c), |c.text|) else TypeText(t, Spot(t, c), c.text).0
  }

  /** What is typed on the header line goes to the end of the last line, which is made if there is
      none; a newline there adds a blank line. */
  lemma TypedOnHeader(t: Lines, s: seq<Byte>)
    requires s != []
    ensures s[0] != NEWLINE ==>
      var (t1, p1) := TypePlace(t, Pos(|t|, 0)); OnLine(t1, p1) && TypeText(t, Pos(|t|, 0), s) == TypeText(t1, p1, s)
    ensures s[0] == NEWLINE ==> TypeText(t, Pos(|t|, 0), s) == TypeText(t + [[]], Pos(|t| + 1, 0), s[1..])
  {
    hide TypeByte;
    ByteOnHeader(t, s[0]);
  }

  /** In bytes: text typed on the header line goes before the last newline, or gets one of its own; a
      newline typed there goes to the end. */
  lemma TypedAtEnd(t: Lines, s: seq<Byte>)
    requires s != []
    ensures s[0] != NEWLINE ==>
      var (t', p') := TypeText(t, Pos(|t|, 0), s);
      && Flat(t') == (if t == [] then [] else Flat(t)[..|Flat(t)| - 1]) + s + [NEWLINE]
      && Linear(t', p') == |Flat(t')| - 1
    ensures s[0] == NEWLINE ==>
      TypeText(t, Pos(|t|, 0), s) == TypeText(t + [[]], Pos(|t| + 1, 0), s[1..]) && Flat(t + [[]]) == Flat(t) + [NEWLINE]
  {
    hide Flat, TypeText;
    TypedOnHeader(t, s);
    AddedLine(t);
    if s[0] != NEWLINE {
      var (t1, p1) := TypePlace(t, Pos(|t|, 0));
      TypeTextFlat(t1, p1, s);
      LastByte(t1);
      if t == [] {
        FlatNone(t);
        FlatNone(t1[1..]);
        FlatTail(t1);
      }
    }
  }

  lemma ByteOnHeader(t: Lines, c: Byte)
    ensures c == NEWLINE ==> TypeByte(t, Pos(|t|, 0), c) == (t + [[]], Pos(|t| + 1, 0))
    ensures c != NEWLINE ==>
      var (t1, p1) := TypePlace(t, Pos(|t|, 0)); OnLine(t1, p1) && TypeByte(t, Pos(|t|, 0), c) == TypeByte(t1, p1, c)
  {
  }

  /** Typing on the header line keeps the lines newline-free and makes the text longer. */
  lemma {:induction false} HeaderGrows(t: Lines, s: seq<Byte>)
    requires NewlineFree(t)
    ensures var t' := TypeText(t, Pos(|t|, 0), s).0;
      NewlineFree(t') && |Flat(t')| >= |Flat(t)| && (s != [] ==> |Flat(t')| > |Flat(t)|)
    decreases |s|
  {
    if s != [] {
      hide Flat, TypeText;
      TypedOnHeader(t, s);
      AddedLine(t);
      if s[0] == NEWLINE {
        HeaderGrows(t + [[]], s[1..]);
      } else {
        var (t1, p1) := TypePlace(t, Pos(|t|, 0));
        LinearBound(t1, p1);
        TypeTextFlat(t1, p1, s);
      }
    }
  }

  lemma AddedLine(t: Lines)
    ensures Flat(t + [[]]) == Flat(t) + [NEWLINE]
  {
    hide Flat;
    var t': Lines := t + [[]];
    FlatAround(t', |t|);
    FlatNone(t'[|t| + 1..]);
    assert t'[..|t|] == t;
  }

  lemma DeleteTextFlat(t: Lines, p: Pos, n: nat)
    requires OnLine(t, p) && Linear(t, p) + n < |Flat(t)|
    ensures Succeeded(Delete(Single(t, p), n, false, []))
    ensures Flat(DeleteText(t, p, n)) == Splice(Flat(t), Linear(t, p), n, [])
    ensures OnLine(DeleteText(t, p, n), p) && Linear(DeleteText(t, p, n), p) == Linear(t, p)
    ensures NewlineFree(t) ==> NewlineFree(DeleteText(t, p, n))
  {
    hide Flat, Delete;
    var ed := Single(t, p);
    DeleteRemoves(ed, n, false, []);
    var ed' := Delete(ed, n, false, []).ed;
    RemovedFlat(ed, n, ed');
    NotAtEnd(ed'.text, p);
    if NewlineFree(t) {
      DeleteKeepsLines(ed, n, false, []);
    }
  }

  /** A change that fits can be made, and what it leaves can be taken back to what was there. */
  lemma ChangeRoundTrip(t: Lines, c: Change)
    requires NewlineFree(t) && FitsText(t, c) && !Stays(c)
    ensures OkPos(t, Spot(t, c))
    ensures var t' := Do(t, c);
      && NewlineFree(t') && OkPos(t', Spot(t', c)) && TakeBack(t', c) == t
      && (c.l >= 1 ==> OnLine(t', Place(c))) && (c.l == 0 ==> t' == t)
  {
    if c.l == 0 {
      assert OkEd(Single(t, Pos(|t|, 0)));
    } else {
      LineRoundTrip(t, c);
    }
  }

  lemma LineRoundTrip(t: Lines, c: Change)
    requires NewlineFree(t) && FitsText(t, c) && c.l >= 1
    ensures OkPos(t, Place(c))
    ensures var t' := Do(t, c);
      NewlineFree(t') && OnLine(t', Place(c)) && TakeBack(t', c) == t
  {
    hide Flat, Delete, TypeText;
    var p, f := Place(c), Flat(t);
    var t', at := Do(t, c), Linear(t, p);
    LinearBound(t, p);
    if c.kind == Insertion {
      TypeTextFlat(t, p, c.text);
      TypedPlace(t, p, c.text);
      SpliceUndone(f, at, c.text);
      DeleteTextFlat(t', p, |c.text|);
    } else {
      DeleteTextFlat(t, p, |c.text|);
      TypeTextFlat(t', p, c.text);
      SpliceRestored(f, at, c.text);
    }
    FlatInjective(TakeBack(t', c), t);
  }

  lemma SpliceUndone(f: seq<Byte>, at: nat, s: seq<Byte>)
    requires at < |f|
    ensures var g := Splice(f, at, 0, s); at + |s| < |g| && Splice(g, at, |s|, []) == f
  {
    var g := Splice(f, at, 0, s);
    assert g[..at] == f[..at] && g[at + |s|..] == f[at..];
  }

  lemma SpliceRestored(f: seq<Byte>, at: nat, s: seq<Byte>)
    requires at + |s| <= |f| && f[at..at + |s|] == s
    ensures Splice(Splice(f, at, |s|, []), at, 0, s) == f
  {
    var g := Splice(f, at, |s|, []);
    assert g[..at] == f[..at] && g[at..] == f[at + |s|..];
  }

  /** Typing at `p` leaves `p` where it was, linearly. */
  lemma {:induction false} TypedPlace(t: Lines, p: Pos, s: seq<Byte>)
    requires OnLine(t, p)
    ensures var t' := TypeText(t, p, s).0; OnLine(t', p) && Linear(t', p) == Linear(t, p)
  {
    TypedPrefix(t, p, s);
    hide Flat;
    var t' := TypeText(t, p, s).0;
    assert t'[..p.line] == t[..p.line];
  }

  /** Typing at `p` changes neither the lines before it nor its own line before it. */
  lemma {:induction false} TypedPrefix(t: Lines, p: Pos, s: seq<Byte>)
    requires OnLine(t, p)
    ensures var (t', p') := TypeText(t, p, s);
      && OnLine(t', p') && p.line <= p'.line && OnLine(t', p)
      && (forall i :: 0 <= i < p.line ==> t'[i] == t[i]) && t'[p.line][..p.off] == t[p.line][..p.off]
      && (p.line == p'.line ==> p.off <= p'.off)
    decreases |s|
  {
    if s != [] {
      var (t1, p1) := TypeByte(t, p, s[0]);
      TypedPrefix(t1, p1, s[1..]);
      var (t', p') := TypeText(t1, p1, s[1..]);
      if p1.line == p.line {
        assert t'[p.line][..p.off] == t'[p.line][..p1.off][..p.off];
      }
    }
  }
}
