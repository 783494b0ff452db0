/** Files written and read through the cipher: `ffputline` and `ffgetline` of fileio.c, on one stream of
    bytes. */
module CryptFile {
  import opened Bytes
  import opened Crypt

  /** The most `fgets` puts into a buffer of NSTRING bytes. */
  const CHUNK := 8191

  // ---- Writing ----

  /** Each character is enciphered by a call of its own. */
  function ByCharacter(s: State, t: seq<Byte>): seq<Byte>
    decreases |t|
  {
    if t == [] then [] else Encrypt(s, [t[0]]) + ByCharacter(EndState(s, [t[0]]), t[1..])
  }

  function CharacterState(s: State, t: seq<Byte>): State
    decreases |t|
  {
    if t == [] then s else CharacterState(EndState(s, [t[0]]), t[1..])
  }

  /** The file: every line enciphered, each followed by a newline that is not. */
  function WriteFile(s: State, lines: seq<seq<Byte>>): seq<Byte>
    decreases |lines|
  {
    if lines == [] then []
    else ByCharacter(s, lines[0]) + [NEWLINE] + WriteFile(CharacterState(s, lines[0]), lines[1..])
  }

  lemma {:induction false} CharactersJoin(s: State, t: seq<Byte>)
    ensures ByCharacter(s, t) == Encrypt(s, t) && CharacterState(s, t) == EndState(s, t)
    decreases |t|
  {
    if t != [] {
      CharactersJoin(EndState(s, [t[0]]), t[1..]);
      assert t == [t[0]] + t[1..];
      ChunksJoin(s, [t[0]], t[1..]);
    }
  }

  /** Enciphering brings in and takes out no newline and no NUL. */
  lemma LinesSurvive(s: State, t: seq<Byte>, b: Byte)
    requires !Printable(b)
    ensures b in Encrypt(s, t) <==> b in t
  {
    forall i | 0 <= i < |t| ensures Encrypt(s, t)[i] == b <==> t[i] == b {
      AlphabetKept(s, t, i);
    }
  }

  // ---- Reading ----

  /** How many bytes `fgets` takes: up to and with the first newline, `limit` at most. */
  function Taken(f: seq<Byte>, limit: nat): (k: nat)
    ensures k <= |f| && k <= limit
    ensures f != [] && limit > 0 ==> k > 0
  {
    if f == [] || limit == 0 then 0
    else if f[0] == NEWLINE then 1
    else 1 + Taken(f[1..], limit - 1)
  }

  /** What the string functions see: everything before the first NUL. */
  function CString(s: seq<Byte>): (c: seq<Byte>)
    ensures 0 !in c && |c| <= |s|
  {
    if s == [] || s[0] == 0 then [] else [s[0]] + CString(s[1..])
  }

  function Stripped(s: seq<Byte>): seq<Byte> {
    if s != [] && s[|s| - 1] == NEWLINE then s[..|s| - 1] else s
  }

  /** The next line as `safe_fread_line` leaves it. */
  function Piece(f: seq<Byte>): seq<Byte> {
    Stripped(CString(f[..Taken(f, CHUNK)]))
  }

  /** `fgets` ran into the end of the file. */
  predicate HitsEnd(f: seq<Byte>) {
    var k := Taken(f, CHUNK);
    k == |f| && k < CHUNK && (k == 0 || f[k - 1] != NEWLINE)
  }

  /** The lines `ffgetline` returns, each deciphered by one call. */
  function ReadFile(s: State, f: seq<Byte>): seq<seq<Byte>>
    decreases |f|
  {
    if f == [] || (Piece(f) == [] && HitsEnd(f)) then []
    else [Encrypt(s, Piece(f))] + ReadFile(EndState(s, Piece(f)), f[Taken(f, CHUNK)..])
  }

  // ---- When a file is read back ----

  /** Lines the reader can return at all, and lines it finds again. */
  predicate Readable(t: seq<Byte>) {
    0 !in t && NEWLINE !in t && |t| <= CHUNK
  }

  predicate Writable(t: seq<Byte>) {
    0 !in t && NEWLINE !in t && |t| < CHUNK
  }

  lemma {:induction false} TakenLine(t: seq<Byte>, rest: seq<Byte>, limit: nat)
    requires NEWLINE !in t
    ensures Taken(t + [NEWLINE] + rest, limit) == if |t| < limit then |t| + 1 else limit
    decreases |t|
  {
    var f := t + [NEWLINE] + rest;
    if t != [] && limit > 0 {
      assert f[0] == t[0] && f[1..] == t[1..] + [NEWLINE] + rest;
      TakenLine(t[1..], rest, limit - 1);
    }
  }

  lemma {:induction false} CStringWhole(s: seq<Byte>)
    requires 0 !in s
    ensures CString(s) == s
  {
    if s != [] {
      CStringWhole(s[1..]);
    }
  }

  /** Reading a line that fits the chunk with its newline, and one that fills it. */
  lemma PieceOfLine(t: seq<Byte>, rest: seq<Byte>)
    requires Readable(t)
    ensures var f := t + [NEWLINE] + rest;
      && Piece(f) == t && !HitsEnd(f)
      && f[Taken(f, CHUNK)..] == if |t| < CHUNK then rest else [NEWLINE] + rest
  {
    var f := t + [NEWLINE] + rest;
    TakenLine(t, rest, CHUNK);
    var k := Taken(f, CHUNK);
    hide Taken, CString;
    if |t| < CHUNK {
      assert f[..k] == t + [NEWLINE] && f[k..] == rest && f[k - 1] == NEWLINE;
      CStringWhole(t + [NEWLINE]);
      assert Stripped(t + [NEWLINE]) == t;
    } else {
      assert f[..k] == t && f[k..] == [NEWLINE] + rest;
      CStringWhole(t);
    }
  }

  /** The newline such a line leaves reads as an empty line. */
  lemma PieceOfNewline(rest: seq<Byte>)
    ensures var f := [NEWLINE] + rest; Piece(f) == [] && !HitsEnd(f) && f[Taken(f, CHUNK)..] == rest
  {
    assert [] + [NEWLINE] + rest == [NEWLINE] + rest;
    PieceOfLine([], rest);
  }

  /** A line that fills the chunk leaves its newline behind, which reads as an empty line. */
  function Expanded(lines: seq<seq<Byte>>): seq<seq<Byte>> {
    if lines == [] then []
    else [lines[0]] + (if |lines[0]| == CHUNK then [[]] else []) + Expanded(lines[1..])
  }

  /** What comes back of readable lines. */
  lemma {:induction false} ReadWritten(s: State, lines: seq<seq<Byte>>)
    requires forall i :: 0 <= i < |lines| ==> Readable(lines[i])
    ensures ReadFile(s, WriteFile(s, lines)) == Expanded(lines)
    decreases |lines|
  {
    hide Encrypt, EndState, Piece, HitsEnd, Taken, ReadFile, ByCharacter, CharacterState;
    if lines == [] {
      ReadNothing(s);
    } else {
      var t, s' := lines[0], EndState(s, lines[0]);
      var c, rest := Encrypt(s, t), WriteFile(s', lines[1..]);
      CharactersJoin(s, t);
      EncryptIsInvolution(s, t);
      LinesSurvive(s, t, 0);
      LinesSurvive(s, t, NEWLINE);
      ReadLine(s, c, rest);
      ReadWritten(s', lines[1..]);
    }
  }

  lemma ReadNothing(s: State)
    ensures ReadFile(s, []) == []
  {
  }

  /** The lines read of a file whose first line is `c`. */
  lemma ReadLine(s: State, c: seq<Byte>, rest: seq<Byte>)
    requires Readable(c)
    ensures ReadFile(s, c + [NEWLINE] + rest)
      == [Encrypt(s, c)] + (if |c| == CHUNK then [[]] else []) + ReadFile(EndState(s, c), rest)
  {
    hide Encrypt, EndState, Piece, HitsEnd, Taken;
    PieceOfLine(c, rest);
    if |c| == CHUNK {
      PieceOfNewline(rest);
      NothingEnciphered(EndState(s, c));
      assert ReadFile(EndState(s, c), [NEWLINE] + rest) == [[]] + ReadFile(EndState(s, c), rest);
    }
  }

  lemma NothingEnciphered(s: State)
    ensures Encrypt(s, []) == [] && EndState(s, []) == s
  {
  }

  /** Whatever the file holds, the reader returns readable lines only. */
  lemma {:induction false} ReadIsReadable(s: State, f: seq<Byte>, i: nat)
    requires i < |ReadFile(s, f)|
    ensures Readable(ReadFile(s, f)[i])
    decreases |f|
  {
    PieceIsReadable(f);
    LinesSurvive(s, Piece(f), 0);
    LinesSurvive(s, Piece(f), NEWLINE);
    if i > 0 {
      ReadIsReadable(EndState(s, Piece(f)), f[Taken(f, CHUNK)..], i - 1);
    }
  }

  lemma {:induction false} TakenNewline(f: seq<Byte>, limit: nat)
    ensures NEWLINE !in f[..Taken(f, limit)]
      || (Taken(f, limit) > 0 && f[Taken(f, limit) - 1] == NEWLINE && NEWLINE !in f[..Taken(f, limit) - 1])
    decreases limit
  {
    if f != [] && limit > 0 && f[0] != NEWLINE {
      TakenNewline(f[1..], limit - 1);
      var k := Taken(f[1..], limit - 1);
      assert f[..k + 1] == [f[0]] + f[1..][..k];
      if k > 0 {
        assert f[..k] == [f[0]] + f[1..][..k - 1];
      }
    }
  }

  lemma {:induction false} CStringPrefix(s: seq<Byte>)
    ensures CString(s) == s[..|CString(s)|]
  {
    if s != [] && s[0] != 0 {
      CStringPrefix(s[1..]);
    }
  }

  lemma PieceIsReadable(f: seq<Byte>)
    ensures Readable(Piece(f))
  {
    var chunk := f[..Taken(f, CHUNK)];
    TakenNewline(f, CHUNK);
    CStringPrefix(chunk);
    var c := CString(chunk);
    if |c| == |chunk| > 0 {
      assert Stripped(c) == f[..|chunk| - 1] || NEWLINE !in chunk;
    } else if |c| < |chunk| {
      assert forall x :: x in c ==> x in f[..|chunk| - 1];
    }
  }

  lemma {:induction false} ExpandedSame(lines: seq<seq<Byte>>)
    ensures |Expanded(lines)| >= |lines|
    ensures Expanded(lines) == lines <==> forall i :: 0 <= i < |lines| ==> |lines[i]| != CHUNK
    ensures |Expanded(lines)| == |lines| ==> Expanded(lines) == lines
  {
    if lines != [] {
      ExpandedSame(lines[1..]);
      if |lines[0]| != CHUNK {
        assert Expanded(lines) == [lines[0]] + Expanded(lines[1..]);
        assert forall i :: 1 <= i < |lines| ==> lines[i] == lines[1..][i - 1];
      }
    }
  }

  /** The lines of a file are read back as they were written iff none holds a NUL or a newline and
      none is longer than 8190 bytes. */
  lemma FileRoundTrip(s: State, lines: seq<seq<Byte>>)
    ensures ReadFile(s, WriteFile(s, lines)) == lines <==> forall i :: 0 <= i < |lines| ==> Writable(lines[i])
  {
    var f := WriteFile(s, lines);
    if ReadFile(s, f) == lines {
      forall i | 0 <= i < |lines| ensures Readable(lines[i]) {
        ReadIsReadable(s, f, i);
      }
      ReadWritten(s, lines);
      ExpandedSame(lines);
    } else if forall i :: 0 <= i < |lines| ==> Writable(lines[i]) {
      ReadWritten(s, lines);
      ExpandedSame(lines);
    }
  }

  /** A NUL costs more than its line: the characters behind it never turn the key on reading, and the
      next line is deciphered with the wrong one. */
  lemma NulShiftsKey(s: State, a: seq<Byte>, b: seq<Byte>)
    requires NEWLINE !in a && |a| + 1 < CHUNK && Writable(b)
    ensures ReadFile(s, WriteFile(s, [[0] + a, b])) == [[], Encrypt(s, Encrypt(EndState(s, a), b))]
  {
    hide Piece, HitsEnd, Taken;
    var s' := EndState(s, a);
    var ca, cb := Encrypt(s, a), Encrypt(s', b);
    CharactersJoin(s, [0] + a);
    assert ([0] + a)[1..] == a;
    CharactersJoin(s', b);
    LinesSurvive(s, a, NEWLINE);
    LinesSurvive(s', b, NEWLINE);
    LinesSurvive(s', b, 0);
    NulPiece(ca, cb + [NEWLINE]);
    PieceOfLine(cb, []);
    assert WriteFile(s', [b]) == cb + [NEWLINE] + [];
    assert [[0] + a, b][1..] == [b];
    assert WriteFile(s, [[0] + a, b]) == ([0] + ca) + [NEWLINE] + (cb + [NEWLINE]);
    NothingEnciphered(s);
    assert ReadFile(s, cb + [NEWLINE] + []) == [Encrypt(s, cb)] + ReadFile(EndState(s, cb), []);
  }

  lemma NulPiece(c: seq<Byte>, rest: seq<Byte>)
    requires NEWLINE !in c && |c| + 1 < CHUNK
    ensures var f := ([0] + c) + [NEWLINE] + rest; Piece(f) == [] && !HitsEnd(f) && f[Taken(f, CHUNK)..] == rest
  {
    var f := ([0] + c) + [NEWLINE] + rest;
    TakenLine([0] + c, rest, CHUNK);
    assert f[|c| + 1] == NEWLINE;
  }

  // ---- As it runs ----

  /** A file being written or read, with the cipher `resetkey` seeded. */
  class Stream {
    const cipher: Machine
    var bytes: seq<Byte>  // all that was written, or what is still to be read
    var eof: bool

    constructor (cipher: Machine, bytes: seq<Byte>)
      ensures this.cipher == cipher && this.bytes == bytes && !eof
    {
      this.cipher, this.bytes, eof := cipher, bytes, false;
    }

    /** `ffputline`. */
    method PutLine(buf: seq<Byte>)
      modifies this`bytes, cipher
      ensures bytes == old(bytes) + ByCharacter(old(cipher.Now()), buf) + [NEWLINE]
      ensures cipher.Now() == CharacterState(old(cipher.Now()), buf)
    {
      ghost var s, before := cipher.Now(), bytes;
      ghost var out: seq<Byte> := [];
      for i := 0 to |buf|
        invariant bytes == before + out
        invariant ByCharacter(s, buf) == out + ByCharacter(cipher.Now(), buf[i..])
        invariant CharacterState(s, buf) == CharacterState(cipher.Now(), buf[i..])
      {
        hide Cipher, Turn;
        OneCharacter(cipher.Now(), buf, i);
        var c := cipher.Step(buf[i]);
        bytes := bytes + [c];
        out := out + [c];
      }
      bytes := bytes + [NEWLINE];
    }

    /** `fgets` with a buffer of NSTRING bytes. */
    method FGets() returns (chunk: seq<Byte>)
      modifies this`bytes, this`eof
      ensures chunk == old(bytes)[..Taken(old(bytes), CHUNK)] && bytes == old(bytes)[Taken(old(bytes), CHUNK)..]
      ensures eof == (old(eof) || HitsEnd(old(bytes)))
    {
      var k := 0;
      while k < |bytes| && k < CHUNK && (k == 0 || bytes[k - 1] != NEWLINE)
        invariant 0 <= k <= |bytes| && k <= CHUNK && bytes == old(bytes) && eof == old(eof)
        invariant Taken(bytes, CHUNK) == if k > 0 && bytes[k - 1] == NEWLINE then k else k + Taken(bytes[k..], CHUNK - k)
        decreases CHUNK - k
      {
        assert bytes[k..][0] == bytes[k] && bytes[k..][1..] == bytes[k + 1..];
        k := k + 1;
      }
      if k == |bytes| && k < CHUNK && (k == 0 || bytes[k - 1] != NEWLINE) {
        eof := true;
      }
      chunk, bytes := bytes[..k], bytes[k..];
    }

    /** `ffgetline`; None is FIOEOF. */
    method GetLine() returns (line: Option<seq<Byte>>)
      requires eof ==> bytes == []
      modifies this`bytes, this`eof, cipher
      ensures eof ==> bytes == []
      ensures line.None? ==> ReadFile(old(cipher.Now()), old(bytes)) == []
      ensures line.Some? ==>
        ReadFile(old(cipher.Now()), old(bytes)) == [line.value] + ReadFile(cipher.Now(), bytes) && |bytes| < |old(bytes)|
    {
      hide Encrypt, EndState, Taken, HitsEnd;
      ghost var f := bytes;
      EndOfNothing();
      if eof {
        return None;
      }
      EndIsEnd(f);
      var chunk := FGets();
      var c := StrLen(chunk);
      var t := if c > 0 && chunk[c - 1] == NEWLINE then chunk[..c - 1] else chunk[..c];
      if |t| == 0 && eof {
        return None;
      }
      var buf := new Byte[|t|](i requires 0 <= i < |t| => t[i]);
      assert buf[..] == t == Piece(f);
      cipher.Apply(buf);
      line := Some(buf[..]);
    }

    /** The reading loop of `readin`. */
    method ReadAll() returns (lines: seq<seq<Byte>>)
      requires !eof
      modifies this`bytes, this`eof, cipher
      ensures lines == ReadFile(old(cipher.Now()), old(bytes))
    {
      hide ReadFile;
      lines := [];
      while true
        invariant eof ==> bytes == []
        invariant lines + ReadFile(cipher.Now(), bytes) == ReadFile(old(cipher.Now()), old(bytes))
        decreases |bytes|
      {
        var line := GetLine();
        if line.None? {
          return;
        }
        lines := lines + [line.value];
      }
    }
  }

  /** `strlen`. */
  method StrLen(s: seq<Byte>) returns (n: nat)
    ensures n <= |s| && s[..n] == CString(s)
  {
    n := 0;
    while n < |s| && s[n] != 0
      invariant n <= |s| && CString(s) == s[..n] + CString(s[n..])
    {
      assert s[n..][0] == s[n] && s[n..][1..] == s[n + 1..];
      n := n + 1;
    }
  }

  lemma OneCharacter(s: State, buf: seq<Byte>, i: nat)
    requires i < |buf|
    ensures ByCharacter(s, buf[i..]) == [Cipher(s, buf[i])] + ByCharacter(Turn(s, buf[i]), buf[i + 1..])
    ensures CharacterState(s, buf[i..]) == CharacterState(Turn(s, buf[i]), buf[i + 1..])
  {
    hide Cipher, Turn;
    assert buf[i..][0] == buf[i] && buf[i..][1..] == buf[i + 1..];
    SingleCharacter(s, buf[i]);
  }

  lemma SingleCharacter(s: State, b: Byte)
    ensures Encrypt(s, [b]) == [Cipher(s, b)] && EndState(s, [b]) == Turn(s, b)
  {
    hide Cipher, Turn;
    NothingEnciphered(Turn(s, b));
    assert [b][1..] == [];
  }

  lemma EndOfNothing()
    ensures Piece([]) == [] && HitsEnd([])
  {
  }

  lemma EndIsEnd(f: seq<Byte>)
    ensures HitsEnd(f) ==> f[Taken(f, CHUNK)..] == []
    ensures f != [] ==> Taken(f, CHUNK) > 0
  {
  }
}
