/** The circular doubly linked list of lines, held in a memory map so that freed lines are really gone. */
module LineMemory {
  import opened Bytes
  import opened Text

  type Ptr = nat

  /** `struct line`: forward and backward links, the allocated size, and the used text. */
  datatype Node = Node(fp: Ptr, bp: Ptr, size: nat, text: seq<Byte>)

  type Memory = map<Ptr, Node>

  function Nx(n: nat, i: nat): nat {
    if i + 1 == n then 0 else i + 1
  }

  ghost predicate Distinct(order: seq<Ptr>) {
    forall i, j :: 0 <= i < j < |order| ==> order[i] != order[j]
  }

  /** `b` follows `a` in both directions. */
  ghost predicate Linked(mem: Memory, a: Ptr, b: Ptr) {
    a in mem && b in mem && mem[a].fp == b && mem[b].bp == a
  }

  /** The lines in memory are exactly `order`, linked both ways into a ring; the last is the
      header, which holds no text, and no line uses more than its size. */
  ghost predicate Ring(mem: Memory, order: seq<Ptr>) {
    && |order| >= 1
    && Distinct(order)
    && (forall p :: p in mem ==> p in order)
    && (forall i {:trigger Nx(|order|, i)} :: 0 <= i < |order| ==> Linked(mem, order[i], order[Nx(|order|, i)]))
    && (forall p :: p in mem ==> |mem[p].text| <= mem[p].size)
    && order[|order| - 1] in mem && mem[order[|order| - 1]].text == []
  }

  // ---- Assignments to the fields of a line ----

  function SetFp(m: Memory, p: Ptr, q: Ptr): (r: Memory)
    requires p in m
    ensures r.Keys == m.Keys
  {
    m[p := m[p].(fp := q)]
  }

  function SetBp(m: Memory, p: Ptr, q: Ptr): (r: Memory)
    requires p in m
    ensures r.Keys == m.Keys
  {
    m[p := m[p].(bp := q)]
  }

  function SetText(m: Memory, p: Ptr, s: seq<Byte>): (r: Memory)
    requires p in m
    ensures r.Keys == m.Keys
  {
    m[p := m[p].(text := s)]
  }

  /** The links of `m'` are those of `m` but for `a` -> `q` -> `b`. */
  ghost predicate Rewired(m: Memory, m': Memory, a: Ptr, q: Ptr, b: Ptr) {
    && Linked(m', a, q) && Linked(m', q, b)
    && (forall x :: x in m' && x != a && x != q ==> x in m && m'[x].fp == m[x].fp)
    && (forall x :: x in m' && x != b && x != q ==> x in m && m'[x].bp == m[x].bp)
  }

  /** All lines but `q` keep their text. */
  ghost predicate KeepsTexts(m: Memory, m': Memory, q: Ptr) {
    forall x :: x in m' && x != q ==> x in m && m'[x].text == m[x].text && m'[x].size == m[x].size
  }

  /** The stretch `order[i..k]` gives way to the single line `q`. */
  function Swap(order: seq<Ptr>, i: nat, k: nat, q: Ptr): seq<Ptr>
    requires i <= k <= |order|
  {
    order[..i] + [q] + order[k..]
  }

  lemma SwapDistinct(order: seq<Ptr>, i: nat, k: nat, q: Ptr)
    requires i <= k <= |order| && Distinct(order) && q !in order[..i] + order[k..]
    ensures Distinct(Swap(order, i, k, q))
  {
    var o := Swap(order, i, k, q);
    forall x, y | 0 <= x < y < |o| ensures o[x] != o[y] {
      var u, v := if x < i then x else x + k - i - 1, if y < i then y else y + k - i - 1;
      if x == i {
        assert o[y] == order[k..][y - i - 1];
      } else if y == i {
        assert o[x] == order[..i][x];
      } else {
        assert o[x] == order[u] && o[y] == order[v];
      }
    }
  }

  /** The index in `order` of the line at index `j` of the swapped list (other than the new one). */
  function Back(i: nat, k: nat, j: nat): nat
    requires i <= k && j != i
  {
    if j < i then j else j + k - i - 1
  }

  function Prev(n: nat, i: nat): nat
    requires n > 0
  {
    if i == 0 then n - 1 else i - 1
  }

  lemma BackNx(n: nat, i: nat, k: nat, j: nat)
    requires i <= k < n && j < n + 1 + i - k && j != i && Nx(n + 1 + i - k, j) != i
    ensures Back(i, k, j) < n && Back(i, k, j) != Prev(n, i)
    ensures Back(i, k, Nx(n + 1 + i - k, j)) == Nx(n, Back(i, k, j)) != k
  {
  }

  lemma SwapAt(order: seq<Ptr>, i: nat, k: nat, q: Ptr, j: nat)
    requires i <= k < |order| && j < |Swap(order, i, k, q)| && j != i && q !in order[..i] + order[k..]
    ensures Swap(order, i, k, q)[j] == order[Back(i, k, j)] != q
  {
    assert order[Back(i, k, j)] in order[..i] + order[k..] by {
      if j < i {
        assert order[..i][j] == order[j];
      } else {
        assert order[k..][j - i - 1] == order[Back(i, k, j)];
      }
    }
  }

  /** Replacing a stretch of text lines by one line, new or kept, leaves a ring. */
  lemma SwapRing(m: Memory, order: seq<Ptr>, i: nat, k: nat, q: Ptr, m': Memory)
    requires Ring(m, order) && i <= k < |order|
    requires q !in order[..i] + order[k..]
    requires Rewired(m, m', order[Prev(|order|, i)], q, order[k])
    requires forall x :: x in m' <==> x in Swap(order, i, k, q)
    requires KeepsTexts(m, m', q)
    requires |m'[q].text| <= m'[q].size
    ensures Ring(m', Swap(order, i, k, q))
  {
    hide Linked, Swap;
    var o := Swap(order, i, k, q);
    SwapDistinct(order, i, k, q);
    SwapEnds(order, i, k, q);
    forall j | 0 <= j < |o| ensures Linked(m', o[j], o[Nx(|o|, j)]) {
      SwapLinks(m, order, i, k, q, m', j);
    }
    assert order[|order| - 1] in m;
  }

  lemma SwapEnds(order: seq<Ptr>, i: nat, k: nat, q: Ptr)
    requires i <= k < |order| && q !in order[..i] + order[k..]
    ensures var o := Swap(order, i, k, q); |o| == |order| + 1 + i - k && o[|o| - 1] == order[|order| - 1] != q
  {
    SwapAt(order, i, k, q, |order| + i - k);
  }

  lemma SwapLinks(m: Memory, order: seq<Ptr>, i: nat, k: nat, q: Ptr, m': Memory, j: nat)
    requires Ring(m, order) && i <= k < |order|
    requires q !in order[..i] + order[k..]
    requires Rewired(m, m', order[Prev(|order|, i)], q, order[k])
    requires forall x :: x in m' <==> x in Swap(order, i, k, q)
    requires j < |Swap(order, i, k, q)|
    ensures var o := Swap(order, i, k, q); Linked(m', o[j], o[Nx(|o|, j)])
  {
    hide Ring, Linked, Distinct;
    var o, n := Swap(order, i, k, q), |order|;
    if j == i {
      assert o[Nx(|o|, j)] == order[k];
    } else if Nx(|o|, j) == i {
      assert o[j] == order[Prev(n, i)];
    } else {
      var u := Back(i, k, j);
      BackNx(n, i, k, j);
      SwapAt(order, i, k, q, j);
      SwapAt(order, i, k, q, Nx(|o|, j));
      KeptLink(m, m', order, u, Prev(n, i), k, q);
    }
  }

  /** A link away from the swapped stretch survives. */
  lemma KeptLink(m: Memory, m': Memory, order: seq<Ptr>, u: nat, prev: nat, k: nat, q: Ptr)
    requires Ring(m, order) && u < |order| && prev < |order| && k < |order| && u != prev && Nx(|order|, u) != k
    requires Rewired(m, m', order[prev], q, order[k])
    requires order[u] != q && order[Nx(|order|, u)] != q && order[u] in m' && order[Nx(|order|, u)] in m'
    ensures Linked(m', order[u], order[Nx(|order|, u)])
  {
    var v := Nx(|order|, u);
    assert Linked(m, order[u], order[v]);
    assert order[u] != order[prev] && order[v] != order[k];
  }

  /** The links of `lfree`. */
  function Unlink(m: Memory, p: Ptr): Memory
    requires p in m && m[p].bp in m && m[p].fp in m
  {
    var m1 := SetFp(m, m[p].bp, m[p].fp);
    SetBp(m1, m1[p].fp, m1[p].bp) - {p}
  }

  /** `order` without the line before the header. */
  function Dropped(order: seq<Ptr>): (o: seq<Ptr>)
    requires |order| >= 2
    ensures |o| == |order| - 1 && o[|o| - 1] == order[|order| - 1]
    ensures forall j :: 0 <= j < |order| - 2 ==> o[j] == order[j]
  {
    order[..|order| - 2] + order[|order| - 1..]
  }

  ghost predicate Unlinked(m: Memory, m': Memory, a: Ptr, p: Ptr, b: Ptr) {
    && Linked(m', a, b)
    && (forall x :: x in m' <==> x in m && x != p)
    && (forall x :: x in m' ==> m'[x].text == m[x].text && m'[x].size == m[x].size)
    && (forall x :: x in m' && x != a ==> m'[x].fp == m[x].fp)
    && (forall x :: x in m' && x != b ==> m'[x].bp == m[x].bp)
  }

  lemma UnlinkFields(m: Memory, a: Ptr, p: Ptr, b: Ptr)
    requires Linked(m, a, p) && Linked(m, p, b) && a != p && b != p
    ensures Unlinked(m, Unlink(m, p), a, p, b)
  {
  }

  lemma DroppedLink(m: Memory, order: seq<Ptr>, m': Memory, j: nat)
    requires Ring(m, order) && |order| >= 2 && j < |order| - 1
    requires Unlinked(m, m', order[Prev(|order|, |order| - 2)], order[|order| - 2], order[|order| - 1])
    ensures Linked(m', Dropped(order)[j], Dropped(order)[Nx(|order| - 1, j)])
  {
    var n := |order|;
    if j < n - 3 {
      assert Linked(m, order[j], order[Nx(n, j)]);
    } else if j == n - 2 && n > 2 {
      assert Linked(m, order[n - 1], order[Nx(n, n - 1)]);
    }
  }

  lemma DroppedMembers(order: seq<Ptr>, x: Ptr)
    requires Distinct(order) && |order| >= 2
    ensures x in Dropped(order) <==> x in order && x != order[|order| - 2]
  {
    var o, n := Dropped(order), |order|;
    if x in order && x != order[n - 2] {
      var j :| 0 <= j < n && order[j] == x;
      assert x == o[if j < n - 2 then j else n - 2];
    }
  }

  /** Unlinking the last text line leaves a ring. */
  lemma DropRing(m: Memory, order: seq<Ptr>)
    requires Ring(m, order) && |order| >= 2
    ensures var p := order[|order| - 2]; p in m && m[p].bp in m && m[p].fp in m
    ensures var m' := Unlink(m, order[|order| - 2]);
      Ring(m', Dropped(order)) && forall x :: x in m' ==> x in m && m'[x].text == m[x].text
  {
    var n := |order|;
    var p, h, prev := order[n - 2], order[n - 1], order[Prev(n, n - 2)];
    assert Linked(m, p, order[Nx(n, n - 2)]);
    assert Linked(m, prev, order[Nx(n, Prev(n, n - 2))]);
    UnlinkFields(m, prev, p, h);
    hide Unlink, Unlinked, Ring;
    UnlinkedRing(m, order, Unlink(m, p));
  }

  lemma UnlinkedRing(m: Memory, order: seq<Ptr>, m': Memory)
    requires Ring(m, order) && |order| >= 2
    requires Unlinked(m, m', order[Prev(|order|, |order| - 2)], order[|order| - 2], order[|order| - 1])
    ensures Ring(m', Dropped(order)) && forall x :: x in m' ==> x in m && m'[x].text == m[x].text
  {
    hide Linked, Unlinked, Dropped;
    DroppedDistinct(order);
    var n, o := |order|, Dropped(order);
    forall j {:trigger Nx(n - 1, j)} | 0 <= j < n - 1 ensures Linked(m', o[j], o[Nx(n - 1, j)]) {
      DroppedLink(m, order, m', j);
    }
    UnlinkedLines(m, order, m');
  }

  /** What is left in memory, and what it holds. */
  lemma UnlinkedLines(m: Memory, order: seq<Ptr>, m': Memory)
    requires Ring(m, order) && |order| >= 2
    requires Unlinked(m, m', order[Prev(|order|, |order| - 2)], order[|order| - 2], order[|order| - 1])
    ensures forall x :: x in m' ==> x in m && x in Dropped(order) && m'[x].text == m[x].text && m'[x].size == m[x].size
    ensures order[|order| - 1] in m'
  {
    hide Linked;
    forall x | x in m' ensures x in Dropped(order) {
      DroppedMembers(order, x);
    }
  }

  lemma DroppedDistinct(order: seq<Ptr>)
    requires Distinct(order) && |order| >= 2
    ensures Distinct(Dropped(order)) && |Dropped(order)| == |order| - 1
    ensures Dropped(order)[|order| - 2] == order[|order| - 1]
  {
  }

  // ---- What the ring holds ----

  ghost function TextOf(m: Memory, order: seq<Ptr>): (t: Lines)
    requires Ring(m, order)
    ensures |t| == |order| - 1
    ensures forall i :: 0 <= i < |t| ==> order[i] in m && t[i] == m[order[i]].text
  {
    InOrder(m, order);
    seq(|order| - 1, i requires 0 <= i < |order| - 1 => m[order[i]].text)
  }

  lemma InOrder(m: Memory, order: seq<Ptr>)
    requires Ring(m, order)
    ensures forall i :: 0 <= i < |order| ==> order[i] in m
  {
    forall i | 0 <= i < |order| ensures order[i] in m {
      assert Linked(m, order[i], order[Nx(|order|, i)]);
    }
  }

  /** The line number of a line. */
  ghost function IndexOf(order: seq<Ptr>, p: Ptr): (i: nat)
    requires p in order
    ensures i < |order| && order[i] == p
  {
    var i :| 0 <= i < |order| && order[i] == p;
    i
  }
}
