/** `mcstr` and `cclmake`: turning the text of a search string into a MAGIC program and its mirror. */
module MagicCompile {
  import opened Bytes
  import opened CircularText
  import opened MagicMatch
  import opened MagicScan

  const NPAT := 128

  const MC_ANY: Byte := 46      // .
  const MC_CCL: Byte := 91      // [
  const MC_CARET: Byte := 94    // ^, both MC_BOL and MC_NCCL
  const MC_RCCL: Byte := 45     // -
  const MC_ECCL: Byte := 93     // ]
  const MC_EOL: Byte := 36      // $
  const MC_CLOSURE: Byte := 42  // *
  const MC_ESC: Byte := 92      // \

  // ---- The compiler as a function of the rest of the pattern ----

  /** A `char` is signed where the class ranges are compared. */
  function Signed(b: Byte): int {
    if b < 128 then b else b - 256
  }

  /** The bytes a range `lo-hi` adds after `lo` itself. */
  function RangeAfter(lo: Byte, hi: Byte): set<Byte> {
    set b: Byte | Signed(lo) < Signed(b) <= Signed(hi)
  }

  /** The body of a character class after its first character: the set it denotes and what follows
      the closing bracket, or nothing when the bracket is missing. */
  function ClassRest(body: seq<Byte>, members: set<Byte>, last: Byte): (c: Option<(set<Byte>, seq<Byte>)>)
    ensures c.Some? ==> |c.value.1| < |body| && c.value.1 == body[|body| - |c.value.1|..]
    decreases |body|
  {
    if body == [] then None
    else if body[0] == MC_ECCL then Some((members, body[1..]))
    else if body[0] == MC_RCCL && |body| > 1 && body[1] == MC_ECCL then ClassRest(body[1..], members + {MC_RCCL}, MC_RCCL)
    else if body[0] == MC_RCCL then
      if |body| == 1 then None else ClassRest(body[2..], members + RangeAfter(last, body[1]), body[1])
    else if body[0] == MC_ESC then
      if |body| == 1 then None else ClassRest(body[2..], members + {body[1]}, body[1])
    else ClassRest(body[1..], members + {body[0]}, body[0])
  }

  /** The first character of a class is taken as it stands unless it is the closing bracket. */
  function ClassFirst(body: seq<Byte>): (c: Option<(set<Byte>, seq<Byte>)>)
    ensures c.Some? ==> |c.value.1| < |body| && c.value.1 == body[|body| - |c.value.1|..]
  {
    if body == [] || body[0] == MC_ECCL then None
    else if body[0] == MC_ESC then
      if |body| == 1 then None else ClassRest(body[2..], {body[1]}, body[1])
    else ClassRest(body[1..], {body[0]}, body[0])
  }

  function Class(rest: seq<Byte>): (c: Option<(Atom, seq<Byte>)>)
    requires rest != [] && rest[0] == MC_CCL
    ensures c.Some? ==> |c.value.1| < |rest| && c.value.1 == rest[|rest| - |c.value.1|..]
  {
    if |rest| > 1 && rest[1] == MC_CARET then
      var c := ClassFirst(rest[2..]);
      if c.None? then None else Some((Nccl(c.value.0), c.value.1))
    else
      var c := ClassFirst(rest[1..]);
      if c.None? then None else Some((Ccl(c.value.0), c.value.1))
  }

  predicate MayClose(prog: Program) {
    prog != [] && prog[|prog| - 1].One? && prog[|prog| - 1].atom != Lit(NEWLINE)
  }

  function Enclose(prog: Program): Program
    requires MayClose(prog)
  {
    prog[..|prog| - 1] + [Star(prog[|prog| - 1].atom)]
  }

  /** Compile `rest`, given the elements already made. */
  function CompileRest(rest: seq<Byte>, prog: Program): (result: Option<Program>)
    decreases |rest|
  {
    if rest == [] then Some(prog)
    else
      var c := rest[0];
      if c == MC_CCL then
        var cl := Class(rest);
        if cl.None? then None else CompileRest(cl.value.1, prog + [One(cl.value.0)])
      else if c == MC_CARET && prog == [] then CompileRest(rest[1..], [Bol])
      else if c == MC_EOL && |rest| == 1 then Some(prog + [Eol])
      else if c == MC_ANY then CompileRest(rest[1..], prog + [One(Any)])
      else if c == MC_CLOSURE && MayClose(prog) then CompileRest(rest[1..], Enclose(prog))
      else if c == MC_ESC && |rest| > 1 then CompileRest(rest[2..], prog + [One(Lit(rest[1]))])
      else CompileRest(rest[1..], prog + [One(Lit(c))])
  }

  function Compile(pat: seq<Byte>): Option<Program> {
    CompileRest(pat, [])
  }

  // ---- What a compiled program looks like ----

  predicate Closable(prog: Program) {
    forall i :: 0 <= i < |prog| && prog[i].Star? ==> prog[i].atom != Lit(NEWLINE)
  }

  predicate PartlyPlaced(prog: Program) {
    && (forall i :: 0 <= i < |prog| && prog[i].Bol? ==> i == 0)
    && (forall i :: 0 <= i < |prog| ==> !prog[i].Eol?)
    && Closable(prog)
  }

  lemma {:induction false} CompileRestShape(rest: seq<Byte>, prog: Program)
    requires PartlyPlaced(prog) && CompileRest(rest, prog).Some?
    ensures WellPlaced(CompileRest(rest, prog).value) && Closable(CompileRest(rest, prog).value)
    ensures |CompileRest(rest, prog).value| <= |prog| + |rest|
    decreases |rest|
  {
    if rest != [] {
      var c := rest[0];
      if c == MC_CCL {
        CompileRestShape(Class(rest).value.1, prog + [One(Class(rest).value.0)]);
      } else if c == MC_CARET && prog == [] {
        CompileRestShape(rest[1..], [Bol]);
      } else if c == MC_EOL && |rest| == 1 {
      } else if c == MC_ANY {
        CompileRestShape(rest[1..], prog + [One(Any)]);
      } else if c == MC_CLOSURE && MayClose(prog) {
        CompileRestShape(rest[1..], Enclose(prog));
      } else if c == MC_ESC && |rest| > 1 {
        CompileRestShape(rest[2..], prog + [One(Lit(rest[1]))]);
      } else {
        CompileRestShape(rest[1..], prog + [One(Lit(c))]);
      }
    }
  }

  /** Every pattern that compiles gives BOL only first, EOL only last, and closure only on an
      element that may repeat; so both programs are placed as `amatch` needs them. */
  lemma CompiledIsWellPlaced(pat: seq<Byte>)
    requires Compile(pat).Some?
    ensures WellPlaced(Compile(pat).value) && Closable(Compile(pat).value) && |Compile(pat).value| <= |pat|
    ensures Placed(Reverse, Mirror(Compile(pat).value))
  {
    CompileRestShape(pat, []);
    assert Mirror(Mirror(Compile(pat).value)) == Compile(pat).value;
  }

  // ---- The written form of a pattern ----

  /** One item of a character class as it is written; `To(hi)` is a range from the item before. */
  datatype Item = Plain(c: Byte) | Escaped(c: Byte) | To(hi: Byte)

  datatype Piece =
    | Char(c: Byte)
    | Quoted(c: Byte)
    | Dot
    | Bracket(negated: bool, first: Item, items: seq<Item>)

  /** A pattern as written: an optional `^`, pieces each with or without `*`, an optional `$`. */
  datatype Written = Written(caret: bool, pieces: seq<(Piece, bool)>, dollar: bool)

  predicate GoodItem(i: Item) {
    match i
    case Plain(c) => c != MC_ECCL && c != MC_RCCL && c != MC_ESC
    case Escaped(c) => true
    case To(hi) => hi != MC_ECCL
  }

  predicate GoodPiece(p: Piece) {
    match p
    case Char(c) => c !in {MC_CCL, MC_CARET, MC_EOL, MC_ANY, MC_CLOSURE, MC_ESC}
    case Quoted(c) => true
    case Dot => true
    case Bracket(neg, first, items) =>
      && (first.Escaped? || (first.Plain? && first.c != MC_ECCL && first.c != MC_ESC && (!neg ==> first.c != MC_CARET)))
      && forall i :: 0 <= i < |items| ==> GoodItem(items[i])
  }

  predicate Good(w: Written) {
    forall i :: 0 <= i < |w.pieces| ==>
        GoodPiece(w.pieces[i].0) && (w.pieces[i].1 ==> AtomOf(w.pieces[i].0) != Lit(NEWLINE))
  }

  function ShowItem(i: Item): seq<Byte> {
    match i
    case Plain(c) => [c]
    case Escaped(c) => [MC_ESC, c]
    case To(hi) => [MC_RCCL, hi]
  }

  function ShowItems(items: seq<Item>): seq<Byte> {
    if items == [] then [MC_ECCL] else ShowItem(items[0]) + ShowItems(items[1..])
  }

  function ShowPiece(p: Piece): seq<Byte> {
    match p
    case Char(c) => [c]
    case Quoted(c) => [MC_ESC, c]
    case Dot => [MC_ANY]
    case Bracket(neg, first, items) => [MC_CCL] + (if neg then [MC_CARET] else []) + ShowItem(first) + ShowItems(items)
  }

  function ShowPieces(ps: seq<(Piece, bool)>, tail: seq<Byte>): seq<Byte> {
    if ps == [] then tail
    else ShowPiece(ps[0].0) + ((if ps[0].1 then [MC_CLOSURE] else []) + ShowPieces(ps[1..], tail))
  }

  function Show(w: Written): seq<Byte> {
    (if w.caret then [MC_CARET] else []) + ShowPieces(w.pieces, if w.dollar then [MC_EOL] else [])
  }

  function ItemChar(i: Item): Byte {
    match i
    case Plain(c) => c
    case Escaped(c) => c
    case To(hi) => hi
  }

  /** The bytes denoted by items that follow a character `last`. */
  function MembersAfter(last: Byte, items: seq<Item>): set<Byte>
    decreases |items|
  {
    if items == [] then {}
    else
      (if items[0].To? then RangeAfter(last, items[0].hi) else {ItemChar(items[0])})
      + MembersAfter(ItemChar(items[0]), items[1..])
  }

  function AtomOf(p: Piece): Atom {
    match p
    case Char(c) => Lit(c)
    case Quoted(c) => Lit(c)
    case Dot => Any
    case Bracket(neg, first, items) =>
      var members := {ItemChar(first)} + MembersAfter(ItemChar(first), items);
      if neg then Nccl(members) else Ccl(members)
  }

  function ElemOf(p: (Piece, bool)): Elem {
    if p.1 then Star(AtomOf(p.0)) else One(AtomOf(p.0))
  }

  function Elems(ps: seq<(Piece, bool)>): (es: Program)
    ensures |es| == |ps| && forall i :: 0 <= i < |ps| ==> es[i] == ElemOf(ps[i])
  {
    seq(|ps|, i requires 0 <= i < |ps| => ElemOf(ps[i]))
  }

  function Denotes(w: Written): Program {
    (if w.caret then [Bol] else []) + Elems(w.pieces) + (if w.dollar then [Eol] else [])
  }

  lemma {:induction false} ItemsRead(items: seq<Item>, members: set<Byte>, last: Byte, after: seq<Byte>)
    requires forall i :: 0 <= i < |items| ==> GoodItem(items[i])
    ensures ClassRest(ShowItems(items) + after, members, last) == Some((members + MembersAfter(last, items), after))
    decreases |items|
  {
    if items == [] {
      assert ([MC_ECCL] + after)[1..] == after;
      assert members + {} == members;
    } else {
      var i, more := items[0], ShowItems(items[1..]) + after;
      var body := ShowItems(items) + after;
      var added := if i.To? then RangeAfter(last, i.hi) else {ItemChar(i)};
      assert body == ShowItem(i) + more;
      assert body[|ShowItem(i)|..] == more;
      ItemsRead(items[1..], members + added, ItemChar(i), after);
      assert members + added + MembersAfter(ItemChar(i), items[1..]) == members + MembersAfter(last, items);
    }
  }

  lemma FirstReads(first: Item, items: seq<Item>, after: seq<Byte>)
    requires first.Escaped? || (first.Plain? && first.c != MC_ECCL && first.c != MC_ESC)
    requires forall i :: 0 <= i < |items| ==> GoodItem(items[i])
    ensures ClassFirst(ShowItem(first) + (ShowItems(items) + after))
         == Some(({ItemChar(first)} + MembersAfter(ItemChar(first), items), after))
  {
    var more := ShowItems(items) + after;
    var body := ShowItem(first) + more;
    ItemsRead(items, {ItemChar(first)}, ItemChar(first), after);
    assert body[|ShowItem(first)|..] == more;
  }

  lemma BracketReads(neg: bool, first: Item, items: seq<Item>, after: seq<Byte>)
    requires GoodPiece(Bracket(neg, first, items))
    ensures Class(ShowPiece(Bracket(neg, first, items)) + after) == Some((AtomOf(Bracket(neg, first, items)), after))
  {
    var open := if neg then [MC_CCL, MC_CARET] else [MC_CCL];
    var body := ShowItem(first) + (ShowItems(items) + after);
    assert ShowPiece(Bracket(neg, first, items)) == open + ShowItem(first) + ShowItems(items);
    Regroup(open, ShowItem(first), ShowItems(items), after);
    FirstReads(first, items, after);
    assert !neg ==> body[0] == ShowItem(first)[0] != MC_CARET;
    ClassOpens(open, body);
  }

  lemma Regroup(a: seq<Byte>, b: seq<Byte>, c: seq<Byte>, d: seq<Byte>)
    ensures a + b + c + d == a + (b + (c + d))
  {
  }

  lemma ClassOpens(open: seq<Byte>, body: seq<Byte>)
    requires open == [MC_CCL, MC_CARET] || (open == [MC_CCL] && body != [] && body[0] != MC_CARET)
    ensures Class(open + body) ==
      var c := ClassFirst(body);
      if c.None? then None else Some((if |open| == 2 then Nccl(c.value.0) else Ccl(c.value.0), c.value.1))
  {
    assert (open + body)[|open|..] == body;
  }

  lemma PieceReads(p: Piece, after: seq<Byte>, prog: Program)
    requires GoodPiece(p)
    ensures CompileRest(ShowPiece(p) + after, prog) == CompileRest(after, prog + [One(AtomOf(p))])
  {
    var rest := ShowPiece(p) + after;
    assert rest[|ShowPiece(p)|..] == after;
    if p.Bracket? {
      BracketReads(p.negated, p.first, p.items, after);
    }
  }

  lemma StarReads(more: seq<Byte>, prog: Program)
    requires MayClose(prog)
    ensures CompileRest([MC_CLOSURE] + more, prog) == CompileRest(more, Enclose(prog))
  {
    assert ([MC_CLOSURE] + more)[1..] == more;
  }

  lemma {:induction false} PiecesRead(ps: seq<(Piece, bool)>, tail: seq<Byte>, prog: Program)
    requires Good(Written(false, ps, false))
    ensures CompileRest(ShowPieces(ps, tail), prog)
         == CompileRest(tail, prog + Elems(ps))
    decreases |ps|
  {
    if ps == [] {
      assert prog + [] == prog;
    } else {
      hide CompileRest;
      var (p, starred) := ps[0];
      var more := ShowPieces(ps[1..], tail);
      assert prog + Elems(ps) == prog + [ElemOf(ps[0])] + Elems(ps[1..]);
      var one := prog + [One(AtomOf(p))];
      PieceReads(p, (if starred then [MC_CLOSURE] else []) + more, prog);
      if starred {
        StarReads(more, one);
        assert Enclose(one) == prog + [Star(AtomOf(p))];
      } else {
        assert [] + more == more;
      }
      PiecesRead(ps[1..], tail, prog + [ElemOf(ps[0])]);
    }
  }

  /** Reading back a written pattern gives the program it denotes, element by element. */
  lemma CompileReadsWritten(w: Written)
    requires Good(w)
    ensures Compile(Show(w)) == Some(Denotes(w))
  {
    hide CompileRest, ShowPieces;
    var tail := if w.dollar then [MC_EOL] else [];
    var start: Program := if w.caret then [Bol] else [];
    CaretReads(w.caret, ShowPieces(w.pieces, tail));
    PiecesRead(w.pieces, tail, start);
    DollarReads(w.dollar, start + Elems(w.pieces));
  }

  lemma CaretReads(caret: bool, body: seq<Byte>)
    ensures Compile((if caret then [MC_CARET] else []) + body) == CompileRest(body, if caret then [Bol] else [])
  {
    assert caret ==> ([MC_CARET] + body)[1..] == body;
    assert [] + body == body;
  }

  lemma DollarReads(dollar: bool, prog: Program)
    ensures CompileRest(if dollar then [MC_EOL] else [], prog) == Some(prog + (if dollar then [Eol] else []))
  {
    assert prog + [] == prog;
  }

  // ---- Exactly which programs the compiler produces from C strings ----

  /** A class is never empty, and the only way to put the NUL byte in it is a range from a negative
      `char` across zero, which also takes in the byte 1. */
  predicate ReachableClass(m: set<Byte>) {
    m != {} && (0 in m ==> 1 in m)
  }

  predicate ReachableAtom(a: Atom) {
    match a
    case Lit(ch) => ch != 0
    case Any => true
    case Ccl(m) => ReachableClass(m)
    case Nccl(m) => ReachableClass(m)
  }

  predicate ReachableAtoms(prog: Program) {
    forall i :: 0 <= i < |prog| && (prog[i].One? || prog[i].Star?) ==> ReachableAtom(prog[i].atom)
  }

  lemma {:induction false} ClassRestReachable(body: seq<Byte>, members: set<Byte>, last: Byte)
    requires 0 !in body && ReachableClass(members) && last != 0
    requires ClassRest(body, members, last).Some?
    ensures ReachableClass(ClassRest(body, members, last).value.0)
    decreases |body|
  {
    if body[0] == MC_ECCL {
    } else if body[0] == MC_RCCL && body[1] == MC_ECCL {
      ClassRestReachable(body[1..], members + {MC_RCCL}, MC_RCCL);
    } else if body[0] == MC_RCCL {
      ClassRestReachable(body[2..], members + RangeAfter(last, body[1]), body[1]);
    } else if body[0] == MC_ESC {
      ClassRestReachable(body[2..], members + {body[1]}, body[1]);
    } else {
      ClassRestReachable(body[1..], members + {body[0]}, body[0]);
    }
  }

  lemma ClassReachable(rest: seq<Byte>)
    requires 0 !in rest && rest != [] && rest[0] == MC_CCL && Class(rest).Some?
    ensures ReachableAtom(Class(rest).value.0)
  {
    var body := if |rest| > 1 && rest[1] == MC_CARET then rest[2..] else rest[1..];
    if body[0] == MC_ESC {
      ClassRestReachable(body[2..], {body[1]}, body[1]);
    } else {
      ClassRestReachable(body[1..], {body[0]}, body[0]);
    }
  }

  lemma {:induction false} CompileRestReachable(rest: seq<Byte>, prog: Program)
    requires 0 !in rest && ReachableAtoms(prog) && CompileRest(rest, prog).Some?
    ensures ReachableAtoms(CompileRest(rest, prog).value)
    decreases |rest|
  {
    if rest != [] {
      var c := rest[0];
      if c == MC_CCL {
        ClassReachable(rest);
        CompileRestReachable(Class(rest).value.1, prog + [One(Class(rest).value.0)]);
      } else if c == MC_CARET && prog == [] {
        CompileRestReachable(rest[1..], [Bol]);
      } else if c == MC_EOL && |rest| == 1 {
      } else if c == MC_ANY {
        CompileRestReachable(rest[1..], prog + [One(Any)]);
      } else if c == MC_CLOSURE && MayClose(prog) {
        CompileRestReachable(rest[1..], Enclose(prog));
      } else if c == MC_ESC && |rest| > 1 {
        CompileRestReachable(rest[2..], prog + [One(Lit(rest[1]))]);
      } else {
        CompileRestReachable(rest[1..], prog + [One(Lit(c))]);
      }
    }
  }

  predicate SafeItem(i: Item) {
    GoodItem(i) && ItemChar(i) != 0
  }

  predicate SafePiece(p: Piece) {
    && GoodPiece(p)
    && match p
       case Char(c) => c != 0
       case Quoted(c) => c != 0
       case Dot => true
       case Bracket(neg, first, items) => SafeItem(first) && forall i :: 0 <= i < |items| ==> SafeItem(items[i])
  }

  lemma {:induction false} ShowItemsNulFree(items: seq<Item>)
    requires forall i :: 0 <= i < |items| ==> SafeItem(items[i])
    ensures 0 !in ShowItems(items)
  {
    if items != [] {
      ShowItemsNulFree(items[1..]);
    }
  }

  lemma {:induction false} ShowPiecesNulFree(ps: seq<(Piece, bool)>, tail: seq<Byte>)
    requires 0 !in tail && forall i :: 0 <= i < |ps| ==> SafePiece(ps[i].0)
    ensures 0 !in ShowPieces(ps, tail)
    decreases |ps|
  {
    if ps != [] {
      ShowPiecesNulFree(ps[1..], tail);
      if ps[0].0.Bracket? {
        ShowItemsNulFree(ps[0].0.items);
      }
    }
  }

  /** Items that spell out the members of a class one by one. */
  lemma {:induction false} SpellOut(m: set<Byte>, last: Byte) returns (items: seq<Item>)
    requires 0 !in m
    ensures MembersAfter(last, items) == m
    ensures forall i :: 0 <= i < |items| ==> SafeItem(items[i])
    decreases |m|
  {
    if m == {} {
      items := [];
    } else {
      var c :| c in m;
      var more := SpellOut(m - {c}, c);
      items := [Escaped(c)] + more;
      assert items[1..] == more;
      assert {c} + (m - {c}) == m;
    }
  }

  lemma WriteClass(m: set<Byte>) returns (first: Item, items: seq<Item>)
    requires ReachableClass(m)
    ensures first.Escaped? && SafeItem(first) && forall i :: 0 <= i < |items| ==> SafeItem(items[i])
    ensures {ItemChar(first)} + MembersAfter(ItemChar(first), items) == m
  {
    if 0 in m {
      // 1, then an empty range down to 255 (a negative char), then the range across zero
      var more := SpellOut(m - {0}, 1);
      first, items := Escaped(1), [To(255), To(1)] + more;
      assert items[1..] == [To(1)] + more && items[1..][1..] == more;
      assert RangeAfter(1, 255) == {} && RangeAfter(255, 1) == {0, 1};
    } else {
      var c :| c in m;
      items := SpellOut(m, c);
      first := Escaped(c);
    }
  }

  lemma WriteAtom(a: Atom) returns (p: Piece)
    requires ReachableAtom(a)
    ensures SafePiece(p) && AtomOf(p) == a
  {
    match a
    case Lit(ch) => p := Quoted(ch);
    case Any => p := Dot;
    case Ccl(m) =>
      var first, items := WriteClass(m);
      p := Bracket(false, first, items);
    case Nccl(m) =>
      var first, items := WriteClass(m);
      p := Bracket(true, first, items);
  }

  lemma {:induction false} WriteElems(es: Program) returns (ps: seq<(Piece, bool)>)
    requires ReachableAtoms(es) && Closable(es) && forall i :: 0 <= i < |es| ==> es[i].One? || es[i].Star?
    ensures Elems(ps) == es && forall i :: 0 <= i < |ps| ==> SafePiece(ps[i].0)
  {
    if es == [] {
      ps := [];
    } else {
      var p := WriteAtom(es[0].atom);
      var more := WriteElems(es[1..]);
      ps := [(p, es[0].Star?)] + more;
      assert forall i :: 0 < i < |es| ==> Elems(ps)[i] == Elems(more)[i - 1];
    }
  }

  lemma WrittenDenotes(prog: Program, lo: nat, hi: nat, ps: seq<(Piece, bool)>)
    requires lo <= hi <= |prog| && prog[lo..hi] == Elems(ps)
    requires prog[..lo] == (if lo == 1 then [Bol] else []) && prog[hi..] == (if hi < |prog| then [Eol] else [])
    ensures Denotes(Written(lo == 1, ps, hi < |prog|)) == prog
  {
    assert prog == prog[..lo] + prog[lo..hi] + prog[hi..];
  }

  lemma WrittenGood(w: Written)
    requires Closable(Elems(w.pieces)) && forall i :: 0 <= i < |w.pieces| ==> SafePiece(w.pieces[i].0)
    ensures Good(w) && 0 !in Show(w)
  {
    ShowPiecesNulFree(w.pieces, if w.dollar then [MC_EOL] else []);
    forall i | 0 <= i < |w.pieces| && w.pieces[i].1 ensures AtomOf(w.pieces[i].0) != Lit(NEWLINE) {
      assert Elems(w.pieces)[i] == Star(AtomOf(w.pieces[i].0));
    }
  }

  lemma WriteProgram(prog: Program) returns (w: Written)
    requires WellPlaced(prog) && Closable(prog) && ReachableAtoms(prog)
    ensures Good(w) && Denotes(w) == prog && 0 !in Show(w)
  {
    var lo := if prog != [] && prog[0].Bol? then 1 else 0;
    var hi := if |prog| > lo && prog[|prog| - 1].Eol? then |prog| - 1 else |prog|;
    var es := prog[lo..hi];
    assert forall i :: 0 <= i < |es| ==> es[i] == prog[lo + i];
    var ps := WriteElems(es);
    w := Written(lo == 1, ps, hi < |prog|);
    WrittenDenotes(prog, lo, hi, ps);
    WrittenGood(w);
  }

  /** The programs `mcstr` makes from NUL-terminated patterns are exactly those with BOL only first,
      EOL only last, no closure of a newline, and literals and classes a C string can spell. */
  lemma CompiledPrograms(prog: Program)
    ensures (exists pat: seq<Byte> :: 0 !in pat && Compile(pat) == Some(prog))
       <==> WellPlaced(prog) && Closable(prog) && ReachableAtoms(prog)
  {
    forall pat: seq<Byte> | 0 !in pat && Compile(pat) == Some(prog)
      ensures WellPlaced(prog) && Closable(prog) && ReachableAtoms(prog)
    {
      CompiledIsWellPlaced(pat);
      CompileRestReachable(pat, []);
    }
    if WellPlaced(prog) && Closable(prog) && ReachableAtoms(prog) {
      var w := WriteProgram(prog);
      CompileReadsWritten(w);
    }
  }
}
