/** The Beaufort autokey cipher of crypt.c, and the files written and read through it. */
module Crypt {
  import opened Bytes

  const KEY_LIMIT := 0x2000_0000
  const FEEDBACK_BIT := 0x1000_0000
  const SALT_MODULUS := 20857

  /** The static `key` and `salt` of `myencrypt`. */
  datatype State = State(key: nat, salt: nat)

  predicate Printable(b: Byte) {
    32 <= b <= 126
  }

  /** The key as it is used: 29 bits, the top one fed back. */
  function Used(key: nat): (k: nat)
    ensures k < KEY_LIMIT
  {
    var low := key % KEY_LIMIT;
    if low >= FEEDBACK_BIT then ((low as bv29) ^ 0x0040A001) as nat else low
  }

  /** Beaufort encipherment in the alphabet of the 95 printable characters. */
  function Beaufort(key: nat, b: Byte): (c: Byte)
    requires Printable(b)
    ensures Printable(c)
  {
    (key % 95 - (b - 32)) % 95 + 32
  }

  function NextSalt(salt: nat): nat {
    if salt + 1 >= SALT_MODULUS then 0 else salt + 1
  }

  /** One character: what it becomes, and the state behind it. */
  function Cipher(s: State, b: Byte): Byte {
    if Printable(b) then Beaufort(Used(s.key), b) else b
  }

  function Turn(s: State, b: Byte): State {
    if Printable(b) then
      var key, salt := Used(s.key), NextSalt(s.salt);
      State(key + key + Beaufort(key, b) + b + salt, salt)
    else s
  }

  function Encrypt(s: State, t: seq<Byte>): (r: seq<Byte>)
    ensures |r| == |t|
    decreases |t|
  {
    if t == [] then [] else [Cipher(s, t[0])] + Encrypt(Turn(s, t[0]), t[1..])
  }

  function EndState(s: State, t: seq<Byte>): State
    decreases |t|
  {
    if t == [] then s else EndState(Turn(s, t[0]), t[1..])
  }

  // ---- Properties ----

  lemma BeaufortIsInvolution(key: nat, b: Byte)
    requires Printable(b)
    ensures Beaufort(key, Beaufort(key, b)) == b
  {
    var k, p := key % 95, b - 32;
    var c := (k - p) % 95;
    assert c == if k >= p then k - p else k - p + 95;
  }

  /** Deciphering a character gives it back and leaves the state that enciphering it left. */
  lemma TurnIsInvolution(s: State, b: Byte)
    ensures Cipher(s, Cipher(s, b)) == b && Turn(s, Cipher(s, b)) == Turn(s, b)
  {
    hide Beaufort, Used, NextSalt;
    if Printable(b) {
      BeaufortIsInvolution(Used(s.key), b);
    }
  }

  /** The cipher is its own inverse on any bytes, and both directions end in the same state. */
  lemma {:induction false} EncryptIsInvolution(s: State, t: seq<Byte>)
    ensures Encrypt(s, Encrypt(s, t)) == t
    ensures EndState(s, Encrypt(s, t)) == EndState(s, t)
    decreases |t|
  {
    hide Cipher, Turn;
    if t != [] {
      TurnIsInvolution(s, t[0]);
      EncryptIsInvolution(Turn(s, t[0]), t[1..]);
      assert Encrypt(s, t)[1..] == Encrypt(Turn(s, t[0]), t[1..]);
    }
  }

  /** Printable characters stay printable, all others stay what they are. */
  lemma {:induction false} AlphabetKept(s: State, t: seq<Byte>, i: nat)
    requires i < |t|
    ensures Printable(Encrypt(s, t)[i]) <==> Printable(t[i])
    ensures !Printable(t[i]) ==> Encrypt(s, t)[i] == t[i]
    decreases |t|
  {
    hide Beaufort, Used, Turn;
    if i > 0 {
      AlphabetKept(Turn(s, t[0]), t[1..], i - 1);
    }
  }

  /** How the stream is cut into calls does not matter. */
  lemma {:induction false} ChunksJoin(s: State, a: seq<Byte>, b: seq<Byte>)
    ensures Encrypt(s, a + b) == Encrypt(s, a) + Encrypt(EndState(s, a), b)
    ensures EndState(s, a + b) == EndState(EndState(s, a), b)
    decreases |a|
  {
    hide Cipher, Turn;
    if a == [] {
      assert a + b == b;
    } else {
      assert (a + b)[1..] == a[1..] + b;
      ChunksJoin(Turn(s, a[0]), a[1..], b);
    }
  }

  /** The key fits 31 bits and the salt stays below its modulus, whatever is enciphered. */
  predicate InRange(s: State) {
    s.key < 2 * KEY_LIMIT + SALT_MODULUS + 252 && s.salt < SALT_MODULUS
  }

  lemma {:induction false} StateInRange(s: State, t: seq<Byte>)
    requires InRange(s)
    ensures InRange(EndState(s, t)) && EndState(s, t).key < 0x8000_0000
    decreases |t|
  {
    hide Used, Beaufort;
    if t != [] {
      StateInRange(Turn(s, t[0]), t[1..]);
    }
  }

  // ---- The autokey ----

  /** What a printable character becomes and what it does to key and salt, in plain arithmetic: with `k`
      the 29 bits of the key, the feedback applied, and `k % 95` the letter of the key, the key takes in
      itself twice, clear text, cipher text and salt. Clear and cipher text add up to the letter of the
      key, or to 95 more if the clear text lies beyond it. */
  lemma AutokeyAdvances(s: State, b: Byte) returns (k: nat)
    requires 32 <= b <= 126 && s.salt < 20857
    ensures FoldedTo(s.key, k)
    ensures var over, s' := (if b - 32 > k % 95 then 95 else 0), EndState(s, [b]);
      && Encrypt(s, [b]) == [k % 95 + over - (b - 32) + 32]
      && s'.salt == (s.salt + 1) % 20857
      && s'.key == 2 * k + k % 95 + 64 + over + s'.salt
  {
    hide Used, EndState, Encrypt, FoldedTo;
    k := Used(s.key);
    UsedIsFolded(s.key);
    AutokeyOf(s, b, k);
  }

  /** The low 29 bits of the key, with three further bits and the lowest turned over if the top one is set. */
  predicate FoldedTo(key: nat, k: nat) {
    var low := key % 0x2000_0000;
    k == if low < 0x1000_0000 then low else ((low as bv29) ^ 0x0040A001) as nat
  }

  lemma UsedIsFolded(key: nat)
    ensures FoldedTo(key, Used(key))
  {
  }

  lemma AutokeyOf(s: State, b: Byte, k: nat)
    requires 32 <= b <= 126 && s.salt < 20857 && k == Used(s.key)
    ensures var over, s' := (if b - 32 > k % 95 then 95 else 0), EndState(s, [b]);
      && Encrypt(s, [b]) == [k % 95 + over - (b - 32) + 32]
      && s'.salt == (s.salt + 1) % 20857
      && s'.key == 2 * k + k % 95 + 64 + over + s'.salt
  {
    hide Used;
    var c := k % 95 - (b - 32);
    assert c % 95 == if c < 0 then c + 95 else c;
    assert [b][1..] == [];
    assert EndState(s, [b]) == Turn(s, b);
    assert Encrypt(Turn(s, b), [b][1..]) == [];
    assert Encrypt(s, [b]) == [Cipher(s, b)];
  }

  /** So two printable characters leave the same state iff both or neither lie beyond the letter of the
      key; and no other character changes the state at all. */
  lemma SameStateIff(s: State, a: Byte, b: Byte, k: nat)
    requires 32 <= a <= 126 && 32 <= b <= 126 && s.salt < 20857 && FoldedTo(s.key, k)
    ensures EndState(s, [a]) == EndState(s, [b]) <==> (a - 32 > k % 95 <==> b - 32 > k % 95)
  {
    hide EndState, Encrypt, FoldedTo;
    var i := AutokeyAdvances(s, a);
    var j := AutokeyAdvances(s, b);
    FoldIsUnique(s.key, i, k);
    FoldIsUnique(s.key, j, k);
  }

  lemma FoldIsUnique(key: nat, i: nat, j: nat)
    requires FoldedTo(key, i) && FoldedTo(key, j)
    ensures i == j
  {
  }

  lemma OthersPass(s: State, b: Byte)
    requires b < 32 || b > 126
    ensures Encrypt(s, [b]) == [b] && EndState(s, [b]) == s
  {
    assert [b][1..] == [];
  }

  function Printables(t: seq<Byte>): nat {
    if t == [] then 0 else (if 32 <= t[0] <= 126 then 1 else 0) + Printables(t[1..])
  }

  /** Over a text the salt counts the printable characters. */
  lemma {:induction false} SaltCounts(s: State, t: seq<Byte>)
    requires s.salt < 20857
    ensures EndState(s, t).salt == (s.salt + Printables(t)) % 20857
    decreases |t|
  {
    hide Used, Beaufort;
    if t != [] {
      var s1 := Turn(s, t[0]);
      SaltCounts(s1, t[1..]);
      SaltWraps(s.salt, Printables(t[1..]));
    }
  }

  lemma SaltWraps(salt: nat, n: nat)
    requires salt < 20857
    ensures (NextSalt(salt) + n) % 20857 == (salt + 1 + n) % 20857
  {
  }

  // ---- The cipher as it runs ----

  /** `mod95`: the mathematical remainder, by repeated subtraction and addition. */
  method Mod95(val: int) returns (r: int)
    ensures 0 <= r < 95 && r == val % 95
  {
    r := val;
    ghost var q := 0;
    while r >= 9500
      invariant val == r + 95 * q
    {
      r, q := r - 9500, q + 100;
    }
    while r >= 950
      invariant val == r + 95 * q
    {
      r, q := r - 950, q + 10;
    }
    while r >= 95
      invariant val == r + 95 * q
    {
      r, q := r - 95, q + 1;
    }
    while r < 0
      invariant r < 95 && val == r + 95 * q
      decreases -r
    {
      r, q := r + 95, q - 1;
    }
  }

  lemma EncryptStep(s: State, t: seq<Byte>, i: nat)
    requires i < |t|
    ensures Encrypt(s, t[i..]) == [Cipher(s, t[i])] + Encrypt(Turn(s, t[i]), t[i + 1..])
    ensures EndState(s, t[i..]) == EndState(Turn(s, t[i]), t[i + 1..])
    ensures forall done: seq<Byte> {:trigger done + Encrypt(s, t[i..])} ::
      done + Encrypt(s, t[i..]) == (done + [Cipher(s, t[i])]) + Encrypt(Turn(s, t[i]), t[i + 1..])
  {
    hide Cipher, Turn;
    assert t[i..][0] == t[i] && t[i..][1..] == t[i + 1..];
  }

  lemma EncryptEnd(s: State, t: seq<Byte>)
    ensures Encrypt(s, t[|t|..]) == [] && EndState(s, t[|t|..]) == s
  {
  }

  lemma StoreNext(done: seq<Byte>, t: seq<Byte>, i: nat, c: Byte)
    requires |done| == i < |t|
    ensures (done + t[i..])[i := c] == (done + [c]) + t[i + 1..]
  {
  }

  class Machine {
    var key: nat
    var salt: nat

    constructor ()
      ensures Now() == State(0, 0)
    {
      key, salt := 0, 0;
    }

    function Now(): State
      reads this
    {
      State(key, salt)
    }

    /** `myencrypt(NULL, len)`. */
    method Seed(len: nat)
      modifies this
      ensures Now() == State(len, len)
    {
      key, salt := len, len;
    }

    /** `myencrypt(bptr, len)`: enciphers or deciphers in place. */
    method Apply(buf: array<Byte>)
      modifies this, buf
      ensures buf[..] == Encrypt(old(Now()), old(buf[..]))
      ensures Now() == EndState(old(Now()), old(buf[..]))
      // the same call from the same state takes it back
      ensures Encrypt(old(Now()), buf[..]) == old(buf[..]) && EndState(old(Now()), buf[..]) == Now()
    {
      hide Encrypt, EndState, Cipher, Turn;
      ghost var t, s := buf[..], Now();
      ghost var done: seq<Byte> := [];
      var i := 0;
      assert t[0..] == t && [] + Encrypt(s, t) == Encrypt(s, t);
      while i < buf.Length
        invariant 0 <= i <= buf.Length && |done| == i && buf[..] == done + t[i..]
        invariant Encrypt(s, t) == done + Encrypt(Now(), t[i..])
        invariant EndState(s, t) == EndState(Now(), t[i..])
      {
        EncryptStep(Now(), t, i);
        assert buf[i] == (done + t[i..])[i] == t[i];
        var cc := Step(buf[i]);
        StoreNext(done, t, i, cc);
        buf[i] := cc;
        done := done + [cc];
        i := i + 1;
      }
      EncryptEnd(Now(), t);
      EncryptIsInvolution(s, t);
    }

    /** Strips the overflow off the key and feeds its top bit back. */
    method Fold()
      modifies this`key
      ensures key == Used(old(key))
    {
      key := key % KEY_LIMIT;
      if key >= FEEDBACK_BIT {
        key := ((key as bv29) ^ 0x0040A001) as nat;
      }
    }

    /** One round of the loop. */
    method Step(b: Byte) returns (cc: Byte)
      modifies this
      ensures cc == Cipher(old(Now()), b) && Now() == Turn(old(Now()), b)
    {
      hide Used;
      cc := b;
      if b >= 32 && b <= 126 {
        Fold();
        var m := Mod95(key % 95 - (b - 32));
        cc := m + 32;
        salt := salt + 1;
        if salt >= SALT_MODULUS {
          salt := 0;
        }
        key := key + key + cc + b + salt;
      }
    }
  }

  // ---- Stored keys ----

  /** The key string of a buffer, with the cipher `resetkey` seeds. */
  method ResetKey(m: Machine, bufferKey: array<Byte>)
    modifies m, bufferKey
    ensures bufferKey[..] == old(bufferKey[..])
    // the state for the file depends on the stored key alone
    ensures m.Now() == EndState(State(0, 0), bufferKey[..])
  {
    m.Seed(0);
    m.Apply(bufferKey);
    m.Seed(0);
    m.Apply(bufferKey);
  }
}
