/** The FNV-1a hash of json_fnv1a, as a left fold over the bytes of a key. */
module Fnv {
  import opened Base

  const OFFSET: nat := 0x811C9DC5
  const PRIME: nat := 0x01000193

  /** Bitwise exclusive or, bit by bit. */
  function Xor(a: nat, b: nat): nat {
    if a == 0 && b == 0 then 0 else 2 * Xor(a / 2, b / 2) + (a + b) % 2
  }

  /** One round: 32-bit `hash ^= b; hash *= PRIME`. */
  function Mix(hash: nat, b: byte): nat { Xor(hash, b) * PRIME % 0x1_0000_0000 }

  function Hash(s: bytes): nat {
    if s == [] then OFFSET else Mix(Hash(s[..|s| - 1]), s[|s| - 1])
  }

  lemma FnvSnoc(s: bytes, b: byte)
    ensures Hash(s + [b]) == Mix(Hash(s), b)
  {
    assert (s + [b])[..|s|] == s;
  }

  /** json_fnv1a. */
  method Fnv1a(s: bytes) returns (hash: nat)
    ensures hash == Hash(s)
  {
    hash := OFFSET;
    for i := 0 to |s|
      invariant hash == Hash(s[..i])
    {
      FnvSnoc(s[..i], s[i]);
      assert s[..i] + [s[i]] == s[..i + 1];
      hash := Mix(hash, s[i]);
    }
    assert s[..|s|] == s;
  }

  // ---------- what the operations are ----------

  /** Bit number k of n. */
  function Bit(n: nat, k: nat): nat {
    if k == 0 then n % 2 else Bit(n / 2, k - 1)
  }

  lemma XorStep(a: nat, b: nat)
    ensures Xor(a, b) == 2 * Xor(a / 2, b / 2) + (a + b) % 2
  {}

  /** Every bit of the result is set exactly when the bits of the operands differ. */
  lemma {:induction false} XorBits(a: nat, b: nat, k: nat)
    ensures Bit(Xor(a, b), k) == if Bit(a, k) == Bit(b, k) then 0 else 1
    decreases k
  {
    hide Xor;
    XorStep(a, b);
    if k > 0 { XorBits(a / 2, b / 2, k - 1); }
  }

  lemma {:induction false} XorZero(a: nat)
    ensures Xor(a, 0) == a
  {
    if a > 0 { XorZero(a / 2); }
  }

  lemma FirstXor()
    ensures Xor(0x811C9DC5, 0x61) == 0x811C9DA4
  {
    hide Xor;
    XorZero(0x102393B);
    assert Xor(0x2047277, 0x1) == 0x2047276 by { XorStep(0x2047277, 0x1); }
    assert Xor(0x408E4EE, 0x3) == 0x408E4ED by { XorStep(0x408E4EE, 0x3); }
    assert Xor(0x811C9DC, 0x6) == 0x811C9DA by { XorStep(0x811C9DC, 0x6); }
    assert Xor(0x102393B8, 0xC) == 0x102393B4 by { XorStep(0x102393B8, 0xC); }
    assert Xor(0x20472771, 0x18) == 0x20472769 by { XorStep(0x20472771, 0x18); }
    assert Xor(0x408E4EE2, 0x30) == 0x408E4ED2 by { XorStep(0x408E4EE2, 0x30); }
    assert Xor(0x811C9DC5, 0x61) == 0x811C9DA4 by { XorStep(0x811C9DC5, 0x61); }
  }

  lemma NoBytes()
    ensures Hash([]) == OFFSET
  {}

  /** Published values of 32-bit FNV-1a: of nothing, and of "a". */
  lemma KnownHashes()
    ensures Hash([]) == 0x811C9DC5
    ensures Hash([0x61]) == 0xE40C292C
  {
    hide Xor, Hash;
    FirstXor();
    NoBytes();
    FnvSnoc([], 0x61);
    assert [] + [0x61] == [0x61];
  }
}
