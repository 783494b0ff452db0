/** Horspool's literal search of boyer_moore.c, forward and backward, against the definition of a match. */
module BoyerMoore {
  import opened Bytes

  const BM_MAX_PATTERN := 256
  const BM_ALPHABET_SIZE := 256

  /** `normalize_char`: `tolower` of the C locale unless the search is case sensitive. */
  function Normalize(b: Byte, exact: bool): Byte {
    if !exact && 65 <= b <= 90 then b + 32 else b
  }

  /** `pat` stands in `text` at `i`. */
  predicate MatchAt(text: seq<Byte>, i: int, pat: seq<Byte>, exact: bool) {
    0 <= i && i + |pat| <= |text| && forall j :: 0 <= j < |pat| ==> Normalize(text[i + j], exact) == Normalize(pat[j], exact)
  }

  /** A shift is safe for a window ending in `c` when no smaller one would bring a pattern character
      equal to `c`, other than the last, under it. */
  predicate SafeShift(pat: seq<Byte>, exact: bool, c: Byte, shift: int) {
    && 1 <= shift <= |pat|
    && forall i :: 0 <= i < |pat| - 1 && Normalize(pat[i], exact) == c ==> shift <= |pat| - 1 - i
  }

  /** Nothing is skipped: between a window and the next one tried no match begins. */
  lemma SkipIsSafe(text: seq<Byte>, i: nat, pat: seq<Byte>, exact: bool, shift: int, k: int)
    requires pat != [] && i + |pat| <= |text| && i < k < i + shift
    requires SafeShift(pat, exact, Normalize(text[i + |pat| - 1], exact), shift)
    ensures !MatchAt(text, k, pat, exact)
  {
    // the character under the window's end would have to match a pattern character before the last
    var j := i + |pat| - 1 - k;
    assert Normalize(text[k + j], exact) != Normalize(pat[j], exact);
  }

  /** `struct boyer_moore_context`. */
  class Context {
    const badChar: array<int>
    var pattern: seq<Byte>
    var caseSensitive: bool

    constructor ()
      ensures fresh(badChar) && badChar.Length == BM_ALPHABET_SIZE
    {
      badChar := new int[BM_ALPHABET_SIZE];
      pattern, caseSensitive := [], true;
    }

    ghost predicate Ready()
      reads this, badChar
    {
      && pattern != [] && badChar.Length == BM_ALPHABET_SIZE
      && forall c: Byte :: SafeShift(pattern, caseSensitive, c, badChar[c])
    }

    /** `compute_bad_char`: every entry is a safe shift, at least 1, and no larger than need be. */
    method ComputeBadChar()
      requires pattern != [] && badChar.Length == BM_ALPHABET_SIZE
      modifies badChar
      ensures Ready()
      ensures forall c: Byte :: badChar[c] < |pattern| ==> Normalize(pattern[|pattern| - 1 - badChar[c]], caseSensitive) == c
    {
      for i := 0 to BM_ALPHABET_SIZE
        invariant forall c :: 0 <= c < i ==> badChar[c] == |pattern|
      {
        badChar[i] := |pattern|;
      }
      for i := 0 to |pattern| - 1
        invariant forall c: Byte :: |pattern| - i <= badChar[c] <= |pattern|
        invariant forall c: Byte, k :: 0 <= k < i && Normalize(pattern[k], caseSensitive) == c ==> badChar[c] <= |pattern| - 1 - k
        invariant forall c: Byte :: badChar[c] < |pattern| ==> Normalize(pattern[|pattern| - 1 - badChar[c]], caseSensitive) == c
      {
        var c := Normalize(pattern[i], caseSensitive);
        badChar[c] := |pattern| - 1 - i;
      }
    }

    /** `bm_init`; `ok` is a zero return. */
    method Init(pattern: seq<Byte>, caseSensitive: bool) returns (ok: bool)
      requires badChar.Length == BM_ALPHABET_SIZE
      modifies this, badChar
      ensures ok <==> 0 < |pattern| <= BM_MAX_PATTERN
      ensures ok ==> Ready() && this.pattern == pattern && this.caseSensitive == caseSensitive
    {
      if |pattern| <= 0 || |pattern| > BM_MAX_PATTERN {
        return false;
      }
      this.pattern, this.caseSensitive := pattern, caseSensitive;
      ComputeBadChar();
      return true;
    }

    /** The comparison of one window, from its last character to its first. */
    method Compare(text: seq<Byte>, i: nat) returns (hit: bool)
      requires Ready() && i + |pattern| <= |text|
      ensures hit <==> MatchAt(text, i, pattern, caseSensitive)
    {
      var j := |pattern| - 1;
      while j >= 0 && Normalize(text[i + j], caseSensitive) == Normalize(pattern[j], caseSensitive)
        invariant -1 <= j < |pattern|
        invariant forall k :: j < k < |pattern| ==> Normalize(text[i + k], caseSensitive) == Normalize(pattern[k], caseSensitive)
      {
        j := j - 1;
      }
      return j < 0;
    }

    /** The shift after a window that did not match. */
    method Shift(text: seq<Byte>, i: nat) returns (shift: int)
      requires Ready() && i + |pattern| <= |text|
      ensures SafeShift(pattern, caseSensitive, Normalize(text[i + |pattern| - 1], caseSensitive), shift)
    {
      var bad := Normalize(text[i + |pattern| - 1], caseSensitive);
      var badShift := badChar[bad];
      shift := if badShift > 0 then badShift else 1;
    }

    /** `bm_search`: the first match at or after `start`, or -1 iff there is none. */
    method Search(text: seq<Byte>, start: int) returns (r: int)
      requires Ready()
      ensures start < 0 ==> r == -1
      ensures start >= 0 && r == -1 ==> forall k :: start <= k ==> !MatchAt(text, k, pattern, caseSensitive)
      ensures r != -1 ==> 0 <= start <= r && MatchAt(text, r, pattern, caseSensitive)
      ensures r != -1 ==> forall k :: start <= k < r ==> !MatchAt(text, k, pattern, caseSensitive)
    {
      var m, n := |pattern|, |text|;
      if start < 0 || start >= n || m > n {
        return -1;
      }
      var i := start;
      while i <= n - m
        invariant start <= i
        invariant forall k :: start <= k < i ==> !MatchAt(text, k, pattern, caseSensitive)
        decreases n - i
      {
        var hit := Compare(text, i);
        if hit {
          return i;
        }
        var shift := Shift(text, i);
        forall k | i < k < i + shift ensures !MatchAt(text, k, pattern, caseSensitive) {
          SkipIsSafe(text, i, pattern, caseSensitive, shift, k);
        }
        i := i + shift;
      }
      return -1;
    }

    /** The last window `bm_search_reverse` looks at. */
    ghost function LastWindow(n: int, start: int): int
      reads this
    {
      var end := start - |pattern| + 1;
      var end' := if end > n - |pattern| then n - |pattern| else end;
      if end' < 0 then 0 else end'
    }

    /** `bm_search_reverse` on the first `n` bytes of `mem`: the last match at or before its last
        window. The window at 0 is looked at in any case, so in a text shorter than the pattern the
        bytes behind the text are read too. */
    method SearchReverse(mem: seq<Byte>, n: nat, start: int) returns (r: int)
      requires Ready() && n <= |mem| && (0 <= start < n ==> |pattern| <= |mem|)
      ensures !(0 <= start < n) ==> r == -1
      ensures 0 <= start < n && r == -1 ==> forall k :: k <= LastWindow(n, start) ==> !MatchAt(mem, k, pattern, caseSensitive)
      ensures r != -1 ==> 0 <= start < n && r <= LastWindow(n, start) && MatchAt(mem, r, pattern, caseSensitive)
      ensures r != -1 ==> forall k :: r < k <= LastWindow(n, start) ==> !MatchAt(mem, k, pattern, caseSensitive)
      // so it is the last match that ends at or before `start`, unless the text up to `start` is too
      // short for the pattern and the pattern stands at 0
      ensures 0 <= start < n ==>
        (IsLastEndingBy(mem, start, r) <==> |pattern| <= start + 1 || !MatchAt(mem, 0, pattern, caseSensitive))
      // a match that is not within the text is one at 0 in a text shorter than the pattern
      ensures r != -1 ==> (r + |pattern| > n <==> n < |pattern|)
    {
      var m := |pattern|;
      if start >= n || start < 0 {
        return -1;
      }
      var last := -1;
      var end := start - m + 1;
      if end > n - m {
        end := n - m;
      }
      if end < 0 {
        end := 0;
      }
      var i := 0;
      while i <= end
        invariant 0 <= i && end == LastWindow(n, start)
        invariant last == -1 || (0 <= last <= end && last < i && MatchAt(mem, last, pattern, caseSensitive))
        invariant forall k :: last < k < i ==> !MatchAt(mem, k, pattern, caseSensitive)
        decreases end - i
      {
        var hit := Compare(mem, i);
        if hit {
          last := i;
          i := i + 1;
        } else {
          var shift := Shift(mem, i);
          forall k | i < k < i + shift ensures !MatchAt(mem, k, pattern, caseSensitive) {
            SkipIsSafe(mem, i, pattern, caseSensitive, shift, k);
          }
          i := i + shift;
        }
      }
      return last;
    }

    /** `r` is the greatest match that ends at or before `start`, or -1 and there is none. */
    ghost predicate IsLastEndingBy(text: seq<Byte>, start: int, r: int)
      reads this
    {
      if r == -1 then forall k :: k + |pattern| <= start + 1 ==> !MatchAt(text, k, pattern, caseSensitive)
      else
        && MatchAt(text, r, pattern, caseSensitive) && r + |pattern| <= start + 1
        && forall k :: r < k && k + |pattern| <= start + 1 ==> !MatchAt(text, k, pattern, caseSensitive)
    }
  }

  /** Two backward searches that find a match although it ends after the place searched from, the
      bound on the window being cut off at 0 and not given up: in `abc` from the `a`, and in the text
      `a` with a `b` behind it in memory, where the match is not even in the text. */
  lemma ReverseOvershoots(c: Context, mem: seq<Byte>, n: nat)
    requires c.pattern == [97, 98] && mem == [97, 98, 99] && n in {1, 3}
    ensures MatchAt(mem, 0, c.pattern, c.caseSensitive) && c.LastWindow(n, 0) == 0 && !c.IsLastEndingBy(mem, 0, 0)
    ensures 0 + |c.pattern| > n <==> n == 1
  {
    assert forall j :: 0 <= j < 2 ==> mem[0 + j] == c.pattern[j];
  }
}
