/** The first pass over a macro: finding the `!while` blocks and where they end (exec.c). */
module WhileScan {
  import opened Bytes

  /** A line of the macro, and the bytes that stand behind it in memory. */
  datatype Line = Line(text: seq<Byte>, beyond: seq<Byte>)

  datatype Kind = While | Break | EndWhile | Other

  /** `struct while_block`, with lines given by their number. */
  datatype Block = Block(begin: nat, end: nat, kind: Kind)

  // ---- Directives ----

  function ByteAt(l: Line, i: nat): Byte {
    if i < |l.text + l.beyond| then (l.text + l.beyond)[i] else 0
  }

  predicate Reads(l: Line, i: nat, word: string)
    requires forall c :: c in word ==> 0 <= c as int < 256
  {
    forall k :: 0 <= k < |word| ==> ByteAt(l, i + k) == word[k] as int
  }

  predicate Blank(b: Byte) {
    b == 32 || b == 9
  }

  /** The first character that is no space or tab. */
  function Indent(t: seq<Byte>): (i: nat)
    ensures i <= |t| && (i < |t| ==> !Blank(t[i])) && forall k :: 0 <= k < i ==> Blank(t[k])
  {
    if t != [] && Blank(t[0]) then 1 + Indent(t[1..]) else 0
  }

  /** What a line is to the scan: the first letters decide. A line with one character or none behind
      its indentation is nothing, and one with two is read a character too far. */
  function KindOf(l: Line): Kind {
    var i := Indent(l.text);
    if |l.text| - i <= 1 then Other
    else if Reads(l, i, "!wh") then While
    else if Reads(l, i, "!br") then Break
    else if Reads(l, i, "!endw") then EndWhile
    else Other
  }

  /** `at` spaces and tabs, and no more, begin the text. */
  predicate BlanksBefore(t: seq<Byte>, at: nat) {
    at <= |t| && (forall k :: 0 <= k < at ==> t[k] == 32 || t[k] == 9) && (at < |t| ==> t[at] != 32 && t[at] != 9)
  }

  /** The kind as the bytes spell it: behind the blanks `!wh`, `!br` or `!endw`, at least two bytes of it
      on the line. */
  ghost predicate Spelt(l: Line, kind: Kind) {
    forall at: nat :: BlanksBefore(l.text, at) ==>
      var m, some := l.text + l.beyond, at + 2 <= |l.text|;
      && (kind == While <==> some && at + 3 <= |m| && m[at..at + 3] == [33, 119, 104])
      && (kind == Break <==> some && at + 3 <= |m| && m[at..at + 3] == [33, 98, 114])
      && (kind == EndWhile <==> some && at + 5 <= |m| && m[at..at + 5] == [33, 101, 110, 100, 119])
  }

  lemma KindIsSpelt(l: Line)
    ensures Spelt(l, KindOf(l))
  {
    forall at: nat | BlanksBefore(l.text, at) ensures at == Indent(l.text) {
      IndentIs(l.text, at);
    }
    var at := Indent(l.text);
    ReadsBytes(l, at, "!wh", [33, 119, 104]);
    ReadsBytes(l, at, "!br", [33, 98, 114]);
    ReadsBytes(l, at, "!endw", [33, 101, 110, 100, 119]);
  }

  lemma {:induction false} IndentIs(t: seq<Byte>, at: nat)
    requires BlanksBefore(t, at)
    ensures Indent(t) == at
    decreases |t|
  {
    if at > 0 {
      IndentIs(t[1..], at - 1);
    }
  }

  lemma ReadsBytes(l: Line, at: nat, word: string, bytes: seq<Byte>)
    requires |bytes| == |word| > 0 && forall k :: 0 <= k < |word| ==> bytes[k] == word[k] as int != 0
    ensures forall c :: c in word ==> 0 <= c as int < 256
    ensures var m := l.text + l.beyond;
      Reads(l, at, word) <==> at + |bytes| <= |m| && m[at..at + |bytes|] == bytes
  {
    var m := l.text + l.beyond;
    forall c | c in word ensures 0 <= c as int < 256 {
      var k :| 0 <= k < |word| && word[k] == c;
      assert bytes[k] == word[k] as int;
    }
    if Reads(l, at, word) {
      assert ByteAt(l, at + (|word| - 1)) == word[|word| - 1] as int;
      forall k | 0 <= k < |bytes| ensures m[at + k] == bytes[k] {
        assert ByteAt(l, at + k) == word[k] as int;
      }
    }
    if at + |bytes| <= |m| && m[at..at + |bytes|] == bytes {
      forall k | 0 <= k < |word| ensures ByteAt(l, at + k) == word[k] as int {
        assert m[at..at + |bytes|][k] == bytes[k];
      }
    }
  }

  function Kinds(ls: seq<Line>): (ks: seq<Kind>)
    ensures |ks| == |ls| && forall i :: 0 <= i < |ls| ==> ks[i] == KindOf(ls[i])
  {
    seq(|ls|, i requires 0 <= i < |ls| => KindOf(ls[i]))
  }

  // ---- Nesting ----

  /** Loops begun less loops ended on the first `i` lines. */
  function Depth(ks: seq<Kind>, i: nat): int
    requires i <= |ks|
  {
    if i == 0 then 0
    else Depth(ks, i - 1) + (if ks[i - 1] == While then 1 else if ks[i - 1] == EndWhile then -1 else 0)
  }

  /** The line is not a break or an end outside of all loops. */
  predicate InPlace(ks: seq<Kind>, i: nat)
    requires i < |ks|
  {
    ks[i] == EndWhile || ks[i] == Break ==> Depth(ks, i) > 0
  }

  /** Every loop ends, every end ends a loop, every break is in a loop. */
  predicate WellNested(ks: seq<Kind>) {
    (forall i :: 0 <= i < |ks| ==> InPlace(ks, i)) && Depth(ks, |ks|) == 0
  }

  predicate IsBlock(k: Kind) {
    k == While || k == Break
  }

  /** From line `k` on nothing has ended its loop on the lines before `i`. */
  predicate OpenUntil(ks: seq<Kind>, k: nat, i: nat)
    requires k < i <= |ks|
  {
    forall j :: k < j <= i ==> Depth(ks, j) >= Depth(ks, k + 1)
  }

  /** Line `e` ends the loop that line `k` begins or breaks out of. */
  predicate Ends(ks: seq<Kind>, k: nat, e: nat)
    requires k < |ks| && e < |ks|
  {
    k < e && OpenUntil(ks, k, e) && Depth(ks, e + 1) < Depth(ks, k + 1)
  }

  predicate Encloses(ks: seq<Kind>, w: nat, b: nat)
    requires b < |ks|
  {
    w < b && ks[w] == While && OpenUntil(ks, w, b)
  }

  /** `w` begins the innermost loop around line `b`. */
  ghost predicate Innermost(ks: seq<Kind>, w: nat, b: nat)
    requires b < |ks|
  {
    Encloses(ks, w, b) && forall v :: w < v < b ==> !Encloses(ks, v, b)
  }

  /** A rise of the depth above `d` that lasts. */
  lemma {:induction false} LastRise(ks: seq<Kind>, d: int, lo: nat, b: nat) returns (w: nat)
    requires lo <= b < |ks| && Depth(ks, lo) <= d < Depth(ks, b)
    ensures lo <= w < b && Depth(ks, w) == d && Encloses(ks, w, b)
    decreases b
  {
    if Depth(ks, b - 1) <= d {
      w := b - 1;
    } else {
      w := LastRise(ks, d, lo, b - 1);
    }
  }

  /** Line numbers come out for an end exactly as in the source: what ends a loop is an `!endwhile`,
      and a loop has one end. */
  lemma EndIsUnique(ks: seq<Kind>, k: nat, e: nat, f: nat)
    requires k < |ks| && e < |ks| && f < |ks| && Ends(ks, k, e) && Ends(ks, k, f)
    ensures e == f && ks[e] == EndWhile
  {
    assert Depth(ks, e) >= Depth(ks, k + 1) > Depth(ks, e + 1);
  }

  /** A break ends where the innermost loop around it ends. */
  lemma BreakEndsWithItsLoop(ks: seq<Kind>, w: nat, b: nat, e: nat)
    requires b < |ks| && e < |ks| && ks[b] == Break && Innermost(ks, w, b)
    ensures Ends(ks, b, e) <==> Ends(ks, w, e)
  {
    if Depth(ks, b) > Depth(ks, w + 1) {
      var v := LastRise(ks, Depth(ks, w + 1), w + 1, b);
    }
    assert Depth(ks, b + 1) == Depth(ks, w + 1);
  }

  /** A break in place has a loop around it. */
  lemma BreakHasLoop(ks: seq<Kind>, b: nat) returns (w: nat)
    requires b < |ks| && ks[b] == Break && InPlace(ks, b)
    ensures Innermost(ks, w, b)
  {
    w := LastRise(ks, Depth(ks, b) - 1, 0, b);
    forall v | w < v < b ensures !Encloses(ks, v, b) {
      var above := Depth(ks, v);
      assert ks[v] == While ==> Depth(ks, v + 1) == above + 1;
    }
  }

  // ---- The scan ----

  function Whiles(s: seq<Block>): nat {
    if s == [] then 0 else (if s[0].kind == While then 1 else 0) + Whiles(s[1..])
  }

  /** The lines at which the listed blocks begin. */
  function Begins(s: seq<Block>): multiset<nat> {
    if s == [] then multiset{} else multiset{s[0].begin} + Begins(s[1..])
  }

  /** The `!while` and `!break` lines among the first `i`, each once. */
  function Starts(ks: seq<Kind>, i: nat): multiset<nat>
    requires i <= |ks|
  {
    if i == 0 then multiset{} else Starts(ks, i - 1) + if IsBlock(ks[i - 1]) then multiset{i - 1} else multiset{}
  }

  lemma {:induction false} EachStartOnce(ks: seq<Kind>, i: nat, k: nat)
    requires i <= |ks|
    ensures Starts(ks, i)[k] == if k < i && IsBlock(ks[k]) then 1 else 0
  {
    if i > 0 {
      EachStartOnce(ks, i - 1, k);
    }
  }

  lemma NoStart(ks: seq<Kind>, i: nat)
    requires i < |ks| && !IsBlock(ks[i])
    ensures Starts(ks, i + 1) == Starts(ks, i)
  {
  }

  /** A block still waiting for its end, seen from line `i`; `level` loops are open around and at it. */
  ghost predicate Waits(ks: seq<Kind>, i: nat, b: Block, level: nat)
    requires i <= |ks|
  {
    b.begin < i && IsBlock(b.kind) && b.kind == ks[b.begin] && Depth(ks, b.begin + 1) == level && OpenUntil(ks, b.begin, i)
  }

  ghost predicate AllWait(ks: seq<Kind>, i: nat, s: seq<Block>)
    requires i <= |ks|
    decreases |s|
  {
    s == [] || (Waits(ks, i, s[0], Whiles(s)) && (|s| == 1 ==> s[0].kind == While) && AllWait(ks, i, s[1..]))
  }

  /** A listed block knows its kind and its end. */
  ghost predicate Closed(ks: seq<Kind>, b: Block) {
    && b.begin < |ks| && IsBlock(b.kind) && b.kind == ks[b.begin]
    && b.end < |ks| && Ends(ks, b.begin, b.end)
  }

  ghost predicate AllClosed(ks: seq<Kind>, s: seq<Block>) {
    forall q :: 0 <= q < |s| ==> Closed(ks, s[q])
  }

  lemma {:induction false} WaitingHasLoop(ks: seq<Kind>, i: nat, s: seq<Block>)
    requires i <= |ks| && AllWait(ks, i, s)
    ensures s != [] ==> Whiles(s) > 0
    decreases |s|
  {
    if |s| > 1 {
      WaitingHasLoop(ks, i, s[1..]);
    }
  }

  /** A line that ends no loop leaves every block waiting. */
  lemma {:induction false} StillWaits(ks: seq<Kind>, i: nat, s: seq<Block>)
    requires i < |ks| && AllWait(ks, i, s) && Depth(ks, i + 1) >= Whiles(s)
    ensures AllWait(ks, i + 1, s)
    decreases |s|
  {
    if s != [] {
      StillWaits(ks, i, s[1..]);
    }
  }

  class ScanState {
    // both lists begin with their newest element
    var scanner: seq<Block>
    var whlist: seq<Block>

    constructor ()
      ensures scanner == [] && whlist == []
    {
      scanner, whlist := [], [];
    }

    /** What holds before line `i`. */
    ghost predicate ScannedTo(ks: seq<Kind>, i: nat)
      requires i <= |ks|
      reads this
    {
      && Whiles(scanner) == Depth(ks, i) && AllWait(ks, i, scanner) && AllClosed(ks, whlist)
      && Begins(scanner) + Begins(whlist) == Starts(ks, i)
    }

    /** A new block on top of the waiting ones. */
    method Push(ghost ks: seq<Kind>, i: nat, kind: Kind)
      requires i < |ks| && ScannedTo(ks, i) && kind == ks[i] && IsBlock(kind) && (kind == Break ==> scanner != [])
      modifies this
      ensures ScannedTo(ks, i + 1)
    {
      StillWaits(ks, i, scanner);
      ghost var s := scanner;
      scanner := [Block(i, 0, kind)] + scanner;
      assert scanner[1..] == s;
    }

    /** The newest waiting block gets its end and goes to the list. */
    method MoveTop(ghost ks: seq<Kind>, i: nat) returns (kind: Kind)
      requires i < |ks| && ks[i] == EndWhile && AllWait(ks, i, scanner) && AllClosed(ks, whlist)
      requires scanner != [] && Whiles(scanner) == Depth(ks, i)
      modifies this
      ensures AllWait(ks, i, scanner) && AllClosed(ks, whlist) && |scanner| == |old(scanner)| - 1
      ensures Begins(scanner) + Begins(whlist) == old(Begins(scanner) + Begins(whlist))
      ensures kind == Break || kind == While
      ensures Whiles(scanner) == Depth(ks, i) - (if kind == While then 1 else 0)
      ensures kind == Break ==> scanner != []
    {
      var top := scanner[0].(end := i);
      kind := top.kind;
      TopCloses(ks, i, scanner);
      hide Depth, AllWait, Closed;
      ghost var listed := whlist;
      whlist := [top] + whlist;
      scanner := scanner[1..];
      assert whlist[1..] == listed;
    }

    /** `!endwhile`: blocks go to the list up to and with the newest `!while`, which is always there. */
    method EndBlocks(ghost ks: seq<Kind>, i: nat)
      requires i < |ks| && ScannedTo(ks, i) && ks[i] == EndWhile && scanner != []
      modifies this
      ensures ScannedTo(ks, i + 1)
    {
      hide AllWait, AllClosed, Whiles, Begins, Starts;
      var kind := MoveTop(ks, i);
      while kind == Break
        invariant kind == Break || kind == While
        invariant AllWait(ks, i, scanner) && AllClosed(ks, whlist)
        invariant Begins(scanner) + Begins(whlist) == Starts(ks, i)
        invariant kind == Break ==> scanner != []
        invariant Whiles(scanner) == Depth(ks, i) - (if kind == While then 1 else 0)
        decreases |scanner|, kind == Break
      {
        kind := MoveTop(ks, i);
      }
      StillWaits(ks, i, scanner);
      NoStart(ks, i);
    }

    lemma DepthShows(ks: seq<Kind>, i: nat)
      requires i <= |ks| && ScannedTo(ks, i)
      ensures Depth(ks, i) >= 0 && (scanner == [] <==> Depth(ks, i) == 0)
    {
      WaitingHasLoop(ks, i, scanner);
    }

    lemma SkipLine(ks: seq<Kind>, i: nat)
      requires i < |ks| && ks[i] == Other && ScannedTo(ks, i)
      ensures ScannedTo(ks, i + 1)
    {
      StillWaits(ks, i, scanner);
      NoStart(ks, i);
    }

    lemma NothingScanned(ks: seq<Kind>)
      requires scanner == [] && whlist == []
      ensures ScannedTo(ks, 0)
    {
    }

    lemma AllScanned(ks: seq<Kind>)
      requires ScannedTo(ks, |ks|) && scanner == []
      ensures AllClosed(ks, whlist) && Begins(whlist) == Starts(ks, |ks|)
    {
      assert multiset{} + Begins(whlist) == Begins(whlist);
    }

    /** `scan_while_blocks`: accepts exactly the well nested macros, and then lists every `!while` and
        every `!break` once, with its end. */
    method ScanWhileBlocks(ls: seq<Line>) returns (ok: bool)
      requires scanner == [] && whlist == []
      modifies this
      ensures ok <==> WellNested(Kinds(ls))
      ensures ok ==> scanner == [] && AllClosed(Kinds(ls), whlist) && Begins(whlist) == Starts(Kinds(ls), |ls|)
      ensures forall i :: 0 <= i < |ls| ==> Spelt(ls[i], Kinds(ls)[i])
    {
      hide Spelt, ScannedTo, KindOf, Depth, AllClosed, Begins, Starts;
      ghost var ks := Kinds(ls);
      forall i | 0 <= i < |ls| ensures Spelt(ls[i], ks[i]) {
        KindIsSpelt(ls[i]);
      }
      NothingScanned(ks);
      var i := 0;
      while i < |ls|
        invariant 0 <= i <= |ls| && ScannedTo(ks, i)
        invariant forall k :: 0 <= k < i ==> InPlace(ks, k)
      {
        var kind := Classify(ls[i]);
        DepthShows(ks, i);
        if kind == While {
          Push(ks, i, While);
        } else if kind == Break {
          if scanner == [] {
            assert !InPlace(ks, i);
            return false;
          }
          Push(ks, i, Break);
        } else if kind == EndWhile {
          if scanner == [] {
            assert !InPlace(ks, i);
            return false;
          }
          EndBlocks(ks, i);
        } else {
          SkipLine(ks, i);
        }
        i := i + 1;
      }
      DepthShows(ks, i);
      if scanner == [] {
        AllScanned(ks);
      }
      return scanner == [];
    }
  }

  /** At an end, the newest waiting block ends; if it is a break, its loop waits below it. */
  lemma TopCloses(ks: seq<Kind>, i: nat, s: seq<Block>)
    requires i < |ks| && ks[i] == EndWhile && AllWait(ks, i, s) && s != [] && Whiles(s) == Depth(ks, i)
    ensures Closed(ks, s[0].(end := i)) && AllWait(ks, i, s[1..])
    ensures s[0].kind == Break ==> |s| > 1
  {
    assert Depth(ks, i + 1) == Depth(ks, i) - 1;
  }

  /** Trimming a line and looking at its first letters. */
  method Classify(l: Line) returns (k: Kind)
    ensures k == KindOf(l)
  {
    var at, i := 0, |l.text|;
    while i > 0 && Blank(l.text[at])
      invariant 0 <= at <= |l.text| && i == |l.text| - at && at <= Indent(l.text)
      invariant Indent(l.text) == at + Indent(l.text[at..])
    {
      assert l.text[at..][0] == l.text[at] && l.text[at..][1..] == l.text[at + 1..];
      i := i - 1;
      at := at + 1;
    }
    i := i - 1;
    if i <= 0 {
      return Other;
    }
    if Reads(l, at, "!wh") {
      k := While;
    } else if Reads(l, at, "!br") {
      k := Break;
    } else if Reads(l, at, "!endw") {
      k := EndWhile;
    } else {
      k := Other;
    }
  }
}
