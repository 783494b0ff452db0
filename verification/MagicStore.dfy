/** The arrays `mcpat` and `tapcm` and the loops that fill them from a NUL-terminated pattern. */
module MagicStore {
  import opened Bytes
  import opened CircularText
  import opened MagicMatch
  import opened MagicScan
  import opened MagicCompile

  /** The byte at `patptr`; a C string ends in NUL. */
  function At(pat: seq<Byte>, i: nat): Byte {
    if i < |pat| then pat[i] else 0
  }

  /** The range loop of `cclmake`, over signed characters. */
  method SetRange(bitmap: set<Byte>, lo: Byte, hi: Byte) returns (b: set<Byte>)
    ensures b == bitmap + RangeAfter(lo, hi)
  {
    b := bitmap;
    var ochr := Signed(lo) + 1;
    while ochr <= Signed(hi)
      invariant Signed(lo) < ochr
      invariant b == bitmap + set c: Byte | Signed(lo) < Signed(c) < ochr && Signed(c) <= Signed(hi)
    {
      var c: Byte := ochr % 256;
      assert Signed(c) == ochr;
      b := b + {c};
      ochr := ochr + 1;
    }
  }

  /** `ClassRest` read by index into the pattern. */
  lemma ClassRestAt(pat: seq<Byte>, p: nat, m: set<Byte>, last: Byte)
    requires p <= |pat|
    ensures ClassRest(pat[p..], m, last) ==
      if p == |pat| then None
      else if pat[p] == MC_ECCL then Some((m, pat[p + 1..]))
      else if pat[p] == MC_RCCL && At(pat, p + 1) == MC_ECCL then ClassRest(pat[p + 1..], m + {MC_RCCL}, MC_RCCL)
      else if pat[p] == MC_RCCL then
        if p + 1 == |pat| then None else ClassRest(pat[p + 2..], m + RangeAfter(last, pat[p + 1]), pat[p + 1])
      else if pat[p] == MC_ESC then
        if p + 1 == |pat| then None else ClassRest(pat[p + 2..], m + {pat[p + 1]}, pat[p + 1])
      else ClassRest(pat[p + 1..], m + {pat[p]}, pat[p])
  {
    var body := pat[p..];
    assert p < |pat| ==> body[0] == pat[p] && body[1..] == pat[p + 1..];
    assert |body| > 1 ==> body[1] == pat[p + 1] && body[2..] == pat[p + 2..];
  }

  /** The loop of `cclmake`: `ochr` is the character before `patptr`; it ends as NUL when the
      pattern ran out before the closing bracket. */
  method ClassLoop(pat: seq<Byte>, start: nat, first: set<Byte>, firstChar: Byte)
    returns (bitmap: set<Byte>, patptr: nat, ochr: Byte)
    requires 0 !in pat && start <= |pat| && firstChar != 0
    ensures ochr != 0 <==> ClassRest(pat[start..], first, firstChar).Some?
    ensures ochr != 0 ==> start <= patptr < |pat|
    ensures ochr != 0 ==> ClassRest(pat[start..], first, firstChar) == Some((bitmap, pat[patptr + 1..]))
  {
    hide ClassRest;
    bitmap, patptr, ochr := first, start, firstChar;
    while ochr != 0 && At(pat, patptr) != MC_ECCL
      invariant start <= patptr
      invariant ochr != 0 ==> patptr <= |pat|
      invariant ochr != 0 ==> ClassRest(pat[start..], first, firstChar) == ClassRest(pat[patptr..], bitmap, ochr)
      invariant ochr == 0 ==> ClassRest(pat[start..], first, firstChar).None?
      decreases |pat| + 1 - patptr
    {
      ClassRestAt(pat, patptr, bitmap, ochr);
      var pchr := At(pat, patptr);
      if pchr == MC_RCCL {
        if At(pat, patptr + 1) == MC_ECCL {
          bitmap := bitmap + {pchr};
        } else {
          patptr := patptr + 1;
          pchr := At(pat, patptr);
          bitmap := SetRange(bitmap, ochr, pchr);
        }
      } else {
        if pchr == MC_ESC {
          patptr := patptr + 1;
          pchr := At(pat, patptr);
        }
        bitmap := bitmap + {pchr};
      }
      patptr := patptr + 1;
      ochr := pchr;
    }
    if ochr != 0 {
      ClassRestAt(pat, patptr, bitmap, ochr);
    }
  }

  /** `ClassFirst` read by index into the pattern. */
  lemma ClassFirstAt(pat: seq<Byte>, p: nat)
    requires p <= |pat|
    ensures ClassFirst(pat[p..]) ==
      if p == |pat| || pat[p] == MC_ECCL then None
      else if pat[p] == MC_ESC then
        if p + 1 == |pat| then None else ClassRest(pat[p + 2..], {pat[p + 1]}, pat[p + 1])
      else ClassRest(pat[p + 1..], {pat[p]}, pat[p])
  {
    var body := pat[p..];
    assert p < |pat| ==> body[0] == pat[p] && body[1..] == pat[p + 1..];
    assert |body| > 1 ==> body[1] == pat[p + 1] && body[2..] == pat[p + 2..];
  }

  /** `cclmake`: read a character class; `next` is left at its closing bracket. */
  method CclMake(pat: seq<Byte>, start: nat) returns (ok: bool, next: nat, atom: Atom)
    requires 0 !in pat && start < |pat| && pat[start] == MC_CCL
    ensures ok <==> Class(pat[start..]).Some?
    ensures ok ==> start < next < |pat| && Class(pat[start..]) == Some((atom, pat[next + 1..]))
    ensures ok ==> !atom.Lit?
  {
    hide ClassRest, ClassFirst;
    var patptr := start + 1;
    var negated := At(pat, patptr) == MC_CARET;
    if negated {
      patptr := patptr + 1;
    }
    ClassFirstAt(pat, patptr);
    assert pat[start..][1..] == pat[start + 1..] && (negated ==> pat[start..][2..] == pat[start + 2..]);
    next, atom := patptr, Any;
    var ochr := At(pat, patptr);
    if ochr == MC_ECCL {
      return false, next, atom;
    }
    if ochr == MC_ESC {
      patptr := patptr + 1;
      ochr := At(pat, patptr);
    }
    if ochr == 0 {
      return false, next, atom;
    }
    var bitmap;
    bitmap, next, ochr := ClassLoop(pat, patptr + 1, {ochr}, ochr);
    ok := ochr != 0;
    atom := if negated then Nccl(bitmap) else Ccl(bitmap);
  }

  /** `CompileRest` read by index into the pattern. */
  lemma CompileRestAt(pat: seq<Byte>, p: nat, prog: Program)
    requires p <= |pat|
    ensures CompileRest(pat[p..], prog) ==
      if p == |pat| then Some(prog)
      else if pat[p] == MC_CCL then
        var cl := Class(pat[p..]);
        if cl.None? then None else CompileRest(cl.value.1, prog[..|prog|] + [One(cl.value.0)])
      else if pat[p] == MC_CARET && prog == [] then CompileRest(pat[p + 1..], prog[..|prog|] + [Bol])
      else if pat[p] == MC_EOL && p + 1 == |pat| then CompileRest(pat[p + 1..], prog[..|prog|] + [Eol])
      else if pat[p] == MC_ANY then CompileRest(pat[p + 1..], prog[..|prog|] + [One(Any)])
      else if pat[p] == MC_CLOSURE && MayClose(prog) then CompileRest(pat[p + 1..], Enclose(prog))
      else if pat[p] == MC_ESC && p + 1 < |pat| then CompileRest(pat[p + 2..], prog[..|prog|] + [One(Lit(pat[p + 1]))])
      else CompileRest(pat[p + 1..], prog[..|prog|] + [One(Lit(pat[p]))])
  {
    var rest := pat[p..];
    assert p < |pat| ==> rest[0] == pat[p] && rest[1..] == pat[p + 1..];
    assert |rest| > 1 ==> rest[1] == pat[p + 1] && rest[2..] == pat[p + 2..];
    assert prog[..|prog|] == prog;
    assert p < |pat| && pat[p] == MC_CARET && prog == [] ==> prog + [Bol] == [Bol];
  }

  /** An entry of the pattern arrays; MCNIL ends the program. */
  datatype Magic = McNil | Mc(elem: Elem)

  class MagicArrays {
    const mcpat: array<Magic>  // the forward program
    const tapcm: array<Magic>  // the reversed program

    constructor ()
      ensures fresh(mcpat) && fresh(tapcm) && Valid()
      ensures Holds(mcpat, []) && Holds(tapcm, [])
    {
      mcpat := new Magic[NPAT](_ => McNil);
      tapcm := new Magic[NPAT](_ => McNil);
    }

    predicate Valid() {
      mcpat.Length == NPAT && tapcm.Length == NPAT && mcpat != tapcm
    }

    /** The array spells `prog` and then MCNIL. */
    static ghost predicate Holds(a: array<Magic>, prog: Program)
      reads a
    {
      && |prog| < a.Length
      && (forall i :: 0 <= i < |prog| ==> a[i] == Mc(prog[i]))
      && a[|prog|] == McNil
    }

    /** `mcstr`: compile the pattern into `mcpat`, and its mirror into `tapcm`; a bad character
        class leaves both empty. Neither array overflows. */
    method McStr(pat: seq<Byte>) returns (status: bool)
      requires Valid() && 0 !in pat && |pat| < NPAT
      modifies mcpat, tapcm
      ensures status <==> Compile(pat).Some?
      ensures status ==> Holds(mcpat, Compile(pat).value) && Holds(tapcm, Mirror(Compile(pat).value))
      ensures !status ==> Holds(mcpat, []) && Holds(tapcm, [])
    {
      hide CompileRest, Class;
      var mj, patptr := 0, 0;
      status := true;
      var doesClosure := false;
      ghost var prog: Program := [];
      assert pat[0..] == pat;
      while patptr < |pat| && status
        invariant patptr <= |pat| && mj <= patptr && mj == |prog|
        invariant forall i :: 0 <= i < mj ==> mcpat[i] == Mc(prog[i])
        invariant doesClosure <==> MayClose(prog)
        invariant status ==> Compile(pat) == CompileRest(pat[patptr..], prog)
        invariant !status ==> Compile(pat).None?
        decreases |pat| - patptr, status
      {
        CompileRestAt(pat, patptr, prog);
        var pchr := pat[patptr];
        var elem, closes := One(Any), true;
        if pchr == MC_CCL {
          var atom, next;
          status, next, atom := CclMake(pat, patptr);
          elem := One(atom);
          patptr := if status then next else patptr;
        } else if pchr == MC_CARET && mj == 0 {
          elem, closes := Bol, false;
        } else if pchr == MC_EOL && patptr + 1 == |pat| {
          elem, closes := Eol, false;
        } else if pchr == MC_CLOSURE && doesClosure {
          mj := mj - 1;
          elem, closes := Star(mcpat[mj].elem.atom), false;
        } else if pchr != MC_ANY {
          if pchr == MC_ESC && patptr + 1 < |pat| {
            patptr := patptr + 1;
            pchr := pat[patptr];
          }
          elem, closes := One(Lit(pchr)), pchr != NEWLINE;
        }
        if status {
          mcpat[mj] := Mc(elem);
          prog := prog[..mj] + [elem];
          mj, patptr, doesClosure := mj + 1, patptr + 1, closes;
        }
      }
      mcpat[mj] := McNil;
      if !status {
        mcpat[0], tapcm[0] := McNil, McNil;
        return;
      }
      CompileRestAt(pat, patptr, prog);
      ReverseInto(prog, mj);
    }

    /** The copy loop of `mcstr`: write the first `n` entries of `mcpat` into `tapcm` backward. */
    method ReverseInto(ghost prog: Program, n: nat)
      requires Valid() && Holds(mcpat, prog) && n == |prog|
      modifies tapcm
      ensures Holds(tapcm, Mirror(prog))
    {
      var mj, rt := n, 0;
      while mj > 0
        invariant rt == n - mj && 0 <= mj <= n
        invariant forall i :: 0 <= i < rt ==> tapcm[i] == Mc(prog[n - 1 - i])
      {
        mj := mj - 1;
        tapcm[rt] := mcpat[mj];
        rt := rt + 1;
      }
      tapcm[rt] := McNil;
    }
  }
}
