/** The abstract text: a sequence of lines, each followed by an implied newline, with a header
    position after the last line; the windows that look at it; and the edits line.c makes. */
module Text {
  import opened Bytes

  type Lines = seq<seq<Byte>>

  /** A line number (from 0; the header line comes after the last) and a byte offset. */
  datatype Pos = Pos(line: nat, off: nat)

  /** A window: its top line, its dot and its mark. */
  datatype View = View(top: nat, dot: Pos, mark: Option<Pos>)

  /** A buffer on the screen; `cur` is the current window. */
  datatype Ed = Ed(text: Lines, views: seq<View>, cur: nat)

  predicate OkPos(t: Lines, p: Pos) {
    (p.line < |t| && p.off <= |t[p.line]|) || p == Pos(|t|, 0)
  }

  predicate OnLine(t: Lines, p: Pos) {
    p.line < |t| && p.off <= |t[p.line]|
  }

  predicate OkView(t: Lines, v: View) {
    v.top <= |t| && OkPos(t, v.dot) && (v.mark.Some? ==> OkPos(t, v.mark.value))
  }

  predicate OkEd(e: Ed) {
    e.cur < |e.views| && forall i :: 0 <= i < |e.views| ==> OkView(e.text, e.views[i])
  }

  function Dot(e: Ed): Pos
    requires e.cur < |e.views|
  {
    e.views[e.cur].dot
  }

  // ---- The linear reading of a text ----

  function Flat(t: Lines): seq<Byte> {
    if t == [] then [] else t[0] + [NEWLINE] + Flat(t[1..])
  }

  /** The number of bytes before a position. */
  function Linear(t: Lines, p: Pos): nat
    requires OkPos(t, p)
  {
    |Flat(t[..p.line])| + p.off
  }

  /** The text around line `l`. */
  lemma {:induction false} FlatAround(t: Lines, l: nat)
    requires l < |t|
    ensures Flat(t) == Flat(t[..l]) + (t[l] + [NEWLINE]) + Flat(t[l + 1..])
  {
    if l > 0 {
      FlatAround(t[1..], l - 1);
      assert t[1..][..l - 1] == t[..l][1..] && t[1..][l..] == t[l + 1..];
    }
  }

  predicate NewlineFree(t: Lines) {
    forall i :: 0 <= i < |t| ==> NEWLINE !in t[i]
  }

  lemma FirstLine(x: seq<Byte>, u: seq<Byte>, y: seq<Byte>, v: seq<Byte>)
    requires NEWLINE !in x && NEWLINE !in y && x + [NEWLINE] + u == y + [NEWLINE] + v
    ensures x == y && u == v
  {
    var s, s' := x + [NEWLINE] + u, y + [NEWLINE] + v;
    assert s[|x|] == NEWLINE && s'[|y|] == NEWLINE;
    assert forall k :: 0 <= k < |x| ==> s[k] == x[k] != NEWLINE;
    assert forall k :: 0 <= k < |y| ==> s'[k] == y[k] != NEWLINE;
    assert |x| == |y|;
    assert x == s[..|x|] && y == s'[..|y|] && u == s[|x| + 1..] && v == s'[|y| + 1..];
  }

  /** The linear reading loses nothing: texts of newline-free lines with the same bytes are equal. */
  lemma {:induction false} FlatInjective(a: Lines, b: Lines)
    requires NewlineFree(a) && NewlineFree(b) && Flat(a) == Flat(b)
    ensures a == b
  {
    if a != [] && b != [] {
      FirstLine(a[0], Flat(a[1..]), b[0], Flat(b[1..]));
      FlatInjective(a[1..], b[1..]);
    }
  }

  // ---- Edits ----

  /** The elementary edits of line.c. */
  datatype Edit =
    | Cut(l: nat, o: nat, k: nat)                                // remove `k` bytes of line `l` at `o`
    | Join(l: nat)                                               // merge line `l` with the next
    | Drop                                                       // free the last line, which is blank
    | Split(l: nat, o: nat)                                      // break line `l` at `o`, or add a blank line at the header
    | Put(l: nat, o: nat, s: seq<Byte>, grew: bool)              // insert `s`, reallocating the line iff `grew`
    | First                                                      // give an empty buffer its first line

  predicate Fits(t: Lines, e: Edit) {
    match e
    case Cut(l, o, k) => l < |t| && o + k <= |t[l]|
    case Join(l) => l + 1 < |t|
    case Drop => t != [] && t[|t| - 1] == []
    case Split(l, o) => OkPos(t, Pos(l, o))
    case Put(l, o, s, grew) => l < |t| && o <= |t[l]|
    case First => t == []
  }

  function EditText(t: Lines, e: Edit): Lines
    requires Fits(t, e)
  {
    match e
    case Cut(l, o, k) => t[l := t[l][..o] + t[l][o + k..]]
    case Join(l) => t[..l] + [t[l] + t[l + 1]] + t[l + 2..]
    case Drop => t[..|t| - 1]
    case Split(l, o) => if l == |t| then t + [[]] else t[..l] + [t[l][..o], t[l][o..]] + t[l + 1..]
    case Put(l, o, s, grew) => t[l := t[l][..o] + s + t[l][o..]]
    case First => [[]]
  }

  /** Where an edit moves a dot or mark. (`Put` moves dots by `PutDot` and leaves marks.) */
  function MovePos(t: Lines, e: Edit, p: Pos): Pos
    requires Fits(t, e)
  {
    match e
    case Cut(l, o, k) =>
      if p.line == l && p.off >= o then Pos(l, if p.off < o + k then o else p.off - k) else p
    case Join(l) =>
      if p.line == l + 1 then Pos(l, p.off + |t[l]|)
      else if p.line > l + 1 then Pos(p.line - 1, p.off) else p
    case Drop => if p.line >= |t| - 1 then Pos(|t| - 1, 0) else p
    case Split(l, o) =>
      if p.line == l then (if p.off < o then p else Pos(l + 1, p.off - o))
      else if p.line > l then Pos(p.line + 1, p.off) else p
    case Put(l, o, s, grew) => p
    case First => p
  }

  /** `linsert` moves the current dot behind what it inserts. Dots of other windows stay when the
      line has room; when it is reallocated they go to its end (insertion at the end of the line)
      or shift if they are at or after the place (insertion inside it). */
  function PutDot(t: Lines, l: nat, o: nat, s: seq<Byte>, grew: bool, current: bool, p: Pos): Pos
    requires l < |t| && o <= |t[l]|
  {
    if p.line != l then p
    else if o == |t[l]| then (if grew || current then Pos(l, o + |s|) else p)
    else if grew then (if p.off >= o then Pos(l, p.off + |s|) else p)
    else if current then Pos(l, p.off + |s|) else p
  }

  function MoveTop(t: Lines, e: Edit, top: nat): nat
    requires Fits(t, e)
  {
    match e
    case Join(l) => if top > l then top - 1 else top
    case Drop => if top >= |t| then |t| - 1 else top
    case Split(l, o) => if top > l then top + 1 else top
    case _ => top
  }

  function MoveView(t: Lines, e: Edit, v: View, current: bool): View
    requires Fits(t, e)
  {
    View(
      MoveTop(t, e, v.top),
      if e.Put? then PutDot(t, e.l, e.o, e.s, e.grew, current, v.dot) else MovePos(t, e, v.dot),
      if v.mark.Some? then Some(MovePos(t, e, v.mark.value)) else None)
  }

  function MoveViews(t: Lines, e: Edit, vs: seq<View>, cur: nat): (ms: seq<View>)
    requires Fits(t, e)
    ensures |ms| == |vs| && forall i :: 0 <= i < |vs| ==> ms[i] == MoveView(t, e, vs[i], i == cur)
  {
    seq(|vs|, i requires 0 <= i < |vs| => MoveView(t, e, vs[i], i == cur))
  }

  function Apply(ed: Ed, e: Edit): Ed
    requires Fits(ed.text, e)
  {
    Ed(EditText(ed.text, e), MoveViews(ed.text, e, ed.views, ed.cur), ed.cur)
  }

  lemma MovePosOk(t: Lines, e: Edit, p: Pos)
    requires Fits(t, e) && OkPos(t, p)
    ensures OkPos(EditText(t, e), MovePos(t, e, p))
  {
  }

  lemma PutDotOk(t: Lines, l: nat, o: nat, s: seq<Byte>, grew: bool, current: bool, p: Pos)
    requires l < |t| && o <= |t[l]| && OkPos(t, p) && (current ==> p == Pos(l, o))
    ensures OkPos(EditText(t, Put(l, o, s, grew)), PutDot(t, l, o, s, grew, current, p))
  {
  }

  /** Every edit keeps every dot, mark and top line inside the text. */
  lemma ApplyKeepsOk(ed: Ed, e: Edit)
    requires OkEd(ed) && Fits(ed.text, e)
    requires e.Put? ==> Dot(ed) == Pos(e.l, e.o)
    ensures OkEd(Apply(ed, e))
  {
    forall i | 0 <= i < |ed.views| ensures OkView(EditText(ed.text, e), Apply(ed, e).views[i]) {
      MoveViewOk(ed.text, e, ed.views[i], i == ed.cur);
    }
  }

  lemma MoveViewOk(t: Lines, e: Edit, v: View, current: bool)
    requires Fits(t, e) && OkView(t, v)
    requires e.Put? && current ==> v.dot == Pos(e.l, e.o)
    ensures OkView(EditText(t, e), MoveView(t, e, v, current))
  {
    if v.mark.Some? {
      MovePosOk(t, e, v.mark.value);
    }
    if e.Put? {
      PutDotOk(t, e.l, e.o, e.s, e.grew, current, v.dot);
    } else {
      MovePosOk(t, e, v.dot);
    }
  }

  // ---- Edits read linearly ----

  function Splice(s: seq<Byte>, at: nat, removed: nat, inserted: seq<Byte>): seq<Byte>
    requires at + removed <= |s|
  {
    s[..at] + inserted + s[at + removed..]
  }

  lemma LinearBound(t: Lines, p: Pos)
    requires OkPos(t, p)
    ensures Linear(t, p) <= |Flat(t)|
    ensures OnLine(t, p) ==> Linear(t, p) < |Flat(t)|
  {
    if p.line < |t| {
      FlatAround(t, p.line);
    } else {
      assert t[..|t|] == t;
    }
  }

  lemma NotAtEnd(t: Lines, p: Pos)
    requires OkPos(t, p) && Linear(t, p) < |Flat(t)|
    ensures OnLine(t, p)
  {
    assert t[..|t|] == t;
  }

  /** Replacing a middle stretch, with the bytes around it named. */
  lemma SpliceMiddle(a: seq<Byte>, x: seq<Byte>, y: seq<Byte>, b: seq<Byte>)
    ensures Splice(a + x + b, |a|, |x|, y) == a + y + b
  {
    assert (a + x + b)[..|a|] == a && (a + x + b)[|a| + |x|..] == b;
  }

  /** Putting `mid` in place of a line's bytes from `o` to `o + k`. */
  lemma LineSplice(t: Lines, l: nat, o: nat, k: nat, mid: seq<Byte>)
    requires l < |t| && o + k <= |t[l]|
    ensures Linear(t, Pos(l, o)) + k < |Flat(t)|
    ensures Splice(Flat(t), Linear(t, Pos(l, o)), k, mid)
         == Flat(t[..l]) + (t[l][..o] + mid + t[l][o + k..] + [NEWLINE]) + Flat(t[l + 1..])
  {
    hide Flat, Splice;
    FlatAround(t, l);
    var u, x, w := t[l][..o], t[l][o..o + k], t[l][o + k..];
    assert t[l] == u + x + w;
    LineRegroups(Flat(t[..l]), u, x, mid, w, Flat(t[l + 1..]));
  }

  lemma LineRegroups(a: seq<Byte>, u: seq<Byte>, x: seq<Byte>, y: seq<Byte>, w: seq<Byte>, b: seq<Byte>)
    ensures Splice(a + ((u + x + w) + [NEWLINE]) + b, |a| + |u|, |x|, y) == a + (u + y + w + [NEWLINE]) + b
  {
    hide Splice;
    var c := w + [NEWLINE] + b;
    assert a + ((u + x + w) + [NEWLINE]) + b == (a + u) + x + c;
    assert a + (u + y + w + [NEWLINE]) + b == (a + u) + y + c;
    SpliceMiddle(a + u, x, y, c);
  }

  /** Edits that insert no newline byte keep the lines free of them. */
  lemma EditNewlineFree(t: Lines, e: Edit)
    requires Fits(t, e) && NewlineFree(t) && (e.Put? ==> NEWLINE !in e.s)
    ensures NewlineFree(EditText(t, e))
  {
  }

  lemma CutFlat(t: Lines, l: nat, o: nat, k: nat)
    requires Fits(t, Cut(l, o, k))
    ensures Linear(t, Pos(l, o)) + k < |Flat(t)|
    ensures Flat(EditText(t, Cut(l, o, k))) == Splice(Flat(t), Linear(t, Pos(l, o)), k, [])
  {
    hide Flat;
    var t' := EditText(t, Cut(l, o, k));
    LineSplice(t, l, o, k, []);
    FlatAround(t', l);
    assert t'[..l] == t[..l] && t'[l + 1..] == t[l + 1..];
    assert t[l][..o] + [] + t[l][o + k..] == t'[l];
  }

  lemma PutFlat(t: Lines, l: nat, o: nat, s: seq<Byte>, grew: bool)
    requires Fits(t, Put(l, o, s, grew))
    ensures Linear(t, Pos(l, o)) < |Flat(t)|
    ensures Flat(EditText(t, Put(l, o, s, grew))) == Splice(Flat(t), Linear(t, Pos(l, o)), 0, s)
  {
    hide Flat;
    var t' := EditText(t, Put(l, o, s, grew));
    LineSplice(t, l, o, 0, s);
    FlatAround(t', l);
    assert t'[..l] == t[..l] && t'[l + 1..] == t[l + 1..];
  }

  lemma SplitFlat(t: Lines, l: nat, o: nat)
    requires l < |t| && Fits(t, Split(l, o))
    ensures Linear(t, Pos(l, o)) < |Flat(t)|
    ensures Flat(EditText(t, Split(l, o))) == Splice(Flat(t), Linear(t, Pos(l, o)), 0, [NEWLINE])
  {
    hide Flat;
    var t': Lines := EditText(t, Split(l, o));
    var rest: Lines := t'[l + 1..];
    LineSplice(t, l, o, 0, [NEWLINE]);
    FlatAround(t', l);
    FlatTail(rest);
    assert rest[1..] == t[l + 1..] && t'[..l] == t[..l] && rest[0] == t[l][o..];
    Regroup(t[l][..o], [NEWLINE], t[l][o..], Flat(t[..l]), Flat(t[l + 1..]));
  }

  lemma Regroup(x: seq<Byte>, n: seq<Byte>, y: seq<Byte>, a: seq<Byte>, b: seq<Byte>)
    ensures a + (x + n) + (y + n + b) == a + (x + n + y + n) + b
  {
  }

  lemma FlatTail(t: Lines)
    requires t != []
    ensures Flat(t) == t[0] + [NEWLINE] + Flat(t[1..])
  {
  }

  lemma JoinFlat(t: Lines, l: nat)
    requires Fits(t, Join(l))
    ensures Linear(t, Pos(l, |t[l]|)) + 1 < |Flat(t)|
    ensures Flat(EditText(t, Join(l))) == Splice(Flat(t), Linear(t, Pos(l, |t[l]|)), 1, [])
  {
    hide Flat;
    var t' := EditText(t, Join(l));
    var o := |t[l]|;
    assert EditText(t', Split(l, o)) == t by {
      assert t'[l][..o] == t[l] && t'[l][o..] == t[l + 1];
    }
    assert t'[..l] == t[..l];
    SplitFlat(t', l, o);
    var at := Linear(t, Pos(l, o));
    assert Linear(t', Pos(l, o)) == at;
    var f := Flat(t');
    assert f == f[..at] + f[at..];
    SpliceMiddle(f[..at], [NEWLINE], [], f[at..]);
    assert f[..at] + [] + f[at..] == f;
  }
}
