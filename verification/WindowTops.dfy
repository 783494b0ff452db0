/** Where the edits of line.c take the first line a window shows, told by its place in the text. */
module WindowTops {
  import opened Bytes
  import opened Text
  import opened TextEdits

  /** The place of the start of a line, or of the header behind the last one. */
  function LineStart(t: Lines, top: nat): nat
    requires top <= |t|
  {
    Linear(t, Pos(top, 0))
  }

  /** Breaking a line at or behind the start of the first line shown leaves that where it is, so what is
      broken off in front of dot stays in the window; a break before it moves it by the newline. */
  lemma TopAfterSplit(t: Lines, l: nat, o: nat, top: nat)
    requires Fits(t, Split(l, o)) && top <= |t|
    ensures var t', top' := EditText(t, Split(l, o)), MoveTop(t, Split(l, o), top);
      && top' <= |t'|
      && LineStart(t', top') == LineStart(t, top) + (if LineStart(t, top) <= Linear(t, Pos(l, o)) then 0 else 1)
  {
    hide Flat;
    LinearOrder(t, Pos(l, o), Pos(top, 0));
    var t' := EditText(t, Split(l, o));
    if top <= l {
      assert t'[..top] == t[..top];
    } else {
      SplitLinear(t, l, o, Pos(top, 0));
    }
  }

  /** Merging two lines moves the window that begins with the second to the start of the merged one, a
      later start by the newline. */
  lemma TopAfterJoin(t: Lines, l: nat, top: nat)
    requires Fits(t, Join(l)) && top <= |t|
    ensures var t', top', at := EditText(t, Join(l)), MoveTop(t, Join(l), top), Linear(t, Pos(l, |t[l]|));
      && top' <= |t'|
      && LineStart(t', top') ==
        (if LineStart(t, top) <= at then LineStart(t, top)
         else if LineStart(t, top) == at + 1 then LineStart(t, l) else LineStart(t, top) - 1)
  {
    hide Flat;
    var t', at := EditText(t, Join(l)), Pos(l, |t[l]|);
    LinearOrder(t, at, Pos(top, 0));
    JoinLinear(t, l, Pos(top, 0));
    SecondLine(t, l, top);
    if top <= l + 1 {
      assert t'[..l] == t[..l] && (top <= l ==> t'[..top] == t[..top]);
    }
  }

  lemma SecondLine(t: Lines, l: nat, top: nat)
    requires l < |t| && top <= |t|
    ensures LineStart(t, top) == Linear(t, Pos(l, |t[l]|)) + 1 <==> top == l + 1
  {
    var upTo: Lines := t[..l + 1];
    FlatAround(upTo, l);
    FlatNone(upTo[l + 1..]);
    assert upTo[..l] == t[..l];
    LinearOrder(t, Pos(l + 1, 0), Pos(top, 0));
    LinearOrder(t, Pos(top, 0), Pos(l + 1, 0));
  }

  /** Freeing the blank last line moves the start of a window on it, or on the header, to the end. */
  lemma TopAfterDrop(t: Lines, top: nat)
    requires Fits(t, Drop) && top <= |t|
    ensures var t', top' := EditText(t, Drop), MoveTop(t, Drop, top);
      top' <= |t'| && LineStart(t', top') == Min(LineStart(t, top), |Flat(t')|)
  {
    hide Flat;
    var t', l := EditText(t, Drop), |t| - 1;
    assert t'[..l] == t';
    if top < l {
      assert t'[..top] == t[..top];
      PrefixLength(t, top, l);
    } else {
      SecondLine(t, l, |t|);
    }
  }

  /** Bytes cut out of a line, or put into one, move the starts behind them. */
  lemma TopAfterCut(t: Lines, l: nat, o: nat, k: nat, top: nat)
    requires Fits(t, Cut(l, o, k)) && top <= |t|
    ensures var t', top' := EditText(t, Cut(l, o, k)), MoveTop(t, Cut(l, o, k), top);
      && top' <= |t'|
      && LineStart(t', top') == LineStart(t, top) - (if LineStart(t, top) <= Linear(t, Pos(l, o)) then 0 else k)
  {
    hide Flat;
    LinearOrder(t, Pos(l, o), Pos(top, 0));
    var t' := EditText(t, Cut(l, o, k));
    if top <= l {
      assert t'[..top] == t[..top];
    } else {
      LinearOrder(t, Pos(l, o + k), Pos(top, 0));
      CutLinear(t, l, o, k, Pos(top, 0));
    }
  }

  lemma TopAfterPut(t: Lines, l: nat, o: nat, s: seq<Byte>, grew: bool, top: nat)
    requires Fits(t, Put(l, o, s, grew)) && top <= |t|
    ensures var t', top' := EditText(t, Put(l, o, s, grew)), MoveTop(t, Put(l, o, s, grew), top);
      && top' <= |t'|
      && LineStart(t', top') == LineStart(t, top) + (if LineStart(t, top) <= Linear(t, Pos(l, o)) then 0 else |s|)
  {
    hide Flat;
    LinearOrder(t, Pos(l, o), Pos(top, 0));
    var t' := EditText(t, Put(l, o, s, grew));
    if top <= l {
      assert t'[..top] == t[..top];
    } else {
      PutLinearElsewhere(t, l, o, s, grew, Pos(top, 0));
    }
  }

  /** The first line of an empty buffer is the one its windows show from then on. */
  lemma TopAfterFirst(t: Lines, top: nat)
    requires Fits(t, First) && top <= |t|
    ensures var t', top' := EditText(t, First), MoveTop(t, First, top);
      top' < |t'| && LineStart(t', top') == 0
  {
  }
}
