/** The packer's byte-wise exclusive-or cipher (`xor_encrypt` with the
    one-byte key `KEY`). */
module Cipher {
  import opened Wrappers
  import opened Bytes

  /** The key the packer encrypts every entry with. */
  const KEY: int := 0x5A

  function Pow2(n: nat): (r: nat)
    ensures r >= 1
  {
    if n == 0 then 1 else 2 * Pow2(n - 1)
  }

  /** Bitwise exclusive or of two non-negative integers, defined one bit at
      a time from the lowest. */
  function NatXor(a: nat, b: nat): nat
    decreases a + b
  {
    if a == 0 && b == 0 then 0 else 2 * NatXor(a / 2, b / 2) + (a + b) % 2
  }

  /** Python's `b ^ key` for a byte b and any integer key; a negative key is
      an infinite two's complement, so `b ^ key == ~(b ^ ~key)`. */
  function PyXor(b: nat, key: int): int
  {
    if key >= 0 then NatXor(b, key) else -1 - NatXor(b, -1 - key)
  }

  /** `xor_encrypt(data, key)`: the list comprehension `[b ^ key for b in data]`
      handed to `bytes(...)`, which raises ValueError (here None) unless
      every element lies in 0..255. That happens exactly when the key itself
      is a byte, or when there is nothing to encrypt. */
  function XorEncrypt(data: seq<byte>, key: int): (r: Option<seq<byte>>)
    ensures r.Some? <==> (data == [] || 0 <= key < 256)
    ensures r.Some? ==> |r.value| == |data|
    ensures r.Some? ==> forall i :: 0 <= i < |data| ==> r.value[i] == PyXor(data[i], key)
  {
    var xs := seq(|data|, i requires 0 <= i < |data| => PyXor(data[i], key));
    XorInByteRange(key);
    assert data != [] ==> xs[0] == PyXor(data[0], key);
    if forall i :: 0 <= i < |xs| ==> 0 <= xs[i] < 256
    then Some(seq(|xs|, i requires 0 <= i < |xs| && 0 <= xs[i] < 256 => xs[i] as byte))
    else None
  }

  /** The lowest bit and the remaining bits of an exclusive or. */
  lemma NatXorBits(a: nat, b: nat)
    ensures NatXor(a, b) % 2 == (a + b) % 2
    ensures NatXor(a, b) / 2 == NatXor(a / 2, b / 2)
  {
    if !(a == 0 && b == 0) {
      var x, bit := NatXor(a / 2, b / 2), (a + b) % 2;
      assert NatXor(a, b) == 2 * x + bit;
      Halve(x, bit);
    }
  }

  lemma Halve(x: int, bit: int)
    requires 0 <= bit < 2
    ensures (2 * x + bit) / 2 == x && (2 * x + bit) % 2 == bit
  {
  }

  lemma {:induction false} NatXorBelow(a: nat, b: nat, n: nat)
    requires a < Pow2(n) && b < Pow2(n)
    ensures NatXor(a, b) < Pow2(n)
  {
    if n > 0 && !(a == 0 && b == 0) {
      NatXorBelow(a / 2, b / 2, n - 1);
    }
  }

  lemma {:induction false} NatXorAtLeast(a: nat, b: nat, n: nat)
    requires a < Pow2(n) <= b
    ensures NatXor(a, b) >= Pow2(n)
    decreases n, b
  {
    if n == 0 {
      if b % 2 == 0 {
        NatXorAtLeast(a / 2, b / 2, 0);
      }
    } else {
      NatXorAtLeast(a / 2, b / 2, n - 1);
    }
  }

  /** `b ^ key` is again a byte for every byte b exactly when key is one:
      a key of 256 or more keeps a high bit set, a negative key makes the
      result negative. */
  lemma XorInByteRange(key: int)
    ensures forall b: byte :: 0 <= PyXor(b, key) < 256 <==> 0 <= key < 256
  {
    assert Pow2(8) == 256;
    forall b: byte
      ensures 0 <= PyXor(b, key) < 256 <==> 0 <= key < 256
    {
      if 0 <= key < 256 {
        NatXorBelow(b, key, 8);
      } else if key >= 256 {
        NatXorAtLeast(b, key, 8);
      }
    }
  }

  /** Exclusive or with the same key twice gives back the input. */
  lemma {:induction false} NatXorTwice(a: nat, k: nat)
    ensures NatXor(NatXor(a, k), k) == a
    decreases a + k
  {
    var x := NatXor(a, k);
    var y := NatXor(x, k);
    NatXorBits(a, k);
    NatXorBits(x, k);
    if !(a == 0 && k == 0) {
      NatXorTwice(a / 2, k / 2);
    }
    assert y / 2 == a / 2;
    ParityTwice(a, k, x);
    assert y % 2 == a % 2;
  }

  lemma ParityTwice(a: nat, k: nat, x: nat)
    requires x % 2 == (a + k) % 2
    ensures (x + k) % 2 == a % 2
  {
  }

  /** Encrypting with the same key twice restores the input: this is what
      lets the engine's loader decrypt with the key the packer used. */
  lemma XorEncryptInvolution(data: seq<byte>, key: int)
    requires XorEncrypt(data, key).Some?
    ensures XorEncrypt(XorEncrypt(data, key).value, key) == Some(data)
  {
    var e := XorEncrypt(data, key).value;
    if data != [] {
      var d := XorEncrypt(e, key).value;
      forall i | 0 <= i < |data|
        ensures d[i] == data[i]
      {
        NatXorTwice(data[i], key);
      }
      assert d == data;
    }
  }

  /** With the packer's key, encryption never fails, keeps the length, and is
      undone by a second application. */
  lemma KeyEncryptsEverything(data: seq<byte>)
    ensures XorEncrypt(data, KEY).Some?
    ensures |XorEncrypt(data, KEY).value| == |data|
    ensures XorEncrypt(XorEncrypt(data, KEY).value, KEY) == Some(data)
  {
    XorEncryptInvolution(data, KEY);
  }

  /** Two bytes through the packer's key: 0x00 becomes 0x5A, 0xFF becomes
      0xA5. */
  lemma KeyExample()
    ensures XorEncrypt([0x00, 0xFF], KEY) == Some([0x5A, 0xA5])
  {
    KeyExampleBits();
    var r := XorEncrypt([0x00, 0xFF], KEY).value;
    assert r[0] == PyXor(0x00, KEY) && r[1] == PyXor(0xFF, KEY);
    assert r == [0x5A, 0xA5];
  }

  lemma KeyExampleBits()
    ensures NatXor(0, 0x5A) == 0x5A && NatXor(0xFF, 0x5A) == 0xA5
  {
    assert NatXor(0, 1) == 1 && NatXor(0, 2) == 2 && NatXor(0, 5) == 5;
    assert NatXor(0, 11) == 11 && NatXor(0, 22) == 22 && NatXor(0, 45) == 45;
    assert NatXor(1, 0) == 1 && NatXor(3, 1) == 2 && NatXor(7, 2) == 5;
    assert NatXor(15, 5) == 10 && NatXor(31, 11) == 20 && NatXor(63, 22) == 41;
    assert NatXor(127, 45) == 82;
  }
}
