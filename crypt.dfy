/** Repeating-key XOR of `rust/src/crypt.rs`: the `Crypt` trait's two
    operations for a byte vector. */
module Crypt {
  import opened Prelude

  /** `data.iter().zip(key.into_iter().cycle()).map(|(a, b)| a ^ b)` with the
      cycled key positioned at `offset`. The zip ends when either side ends,
      and cycling an empty key yields nothing at all. */
  function XorFrom(data: seq<byte>, key: seq<byte>, offset: nat): (r: seq<byte>)
    requires key == [] || offset < |key|
    ensures |r| == if key == [] then 0 else |data|
    decreases |data|
  {
    if data == [] || key == [] then []
    else [data[0] ^ key[offset]] + XorFrom(data[1..], key, if offset + 1 == |key| then 0 else offset + 1)
  }

  /** `xor_encrypt_with` on `Vec<u8>`. */
  function XorEncryptWith(data: seq<byte>, key: seq<byte>): (r: seq<byte>)
    ensures |r| == if key == [] then 0 else |data|
  {
    XorFrom(data, key, 0)
  }

  /** Byte `i` of the output combines byte `i` of the data with the key byte
      `i` places further round the cycle. */
  lemma {:induction false} XorFromAt(data: seq<byte>, key: seq<byte>, offset: nat, i: nat)
    requires offset < |key| && i < |data|
    ensures XorFrom(data, key, offset)[i] == data[i] ^ key[(offset + i) % |key|]
    decreases i
  {
    if i > 0 {
      var next := if offset + 1 == |key| then 0 else offset + 1;
      XorFromAt(data[1..], key, next, i - 1);
      if offset + 1 == |key| {
        ModShift(i - 1, |key|);
      }
    }
  }

  /** Euclidean remainders are unique. */
  lemma ModUnique(a: int, n: int, q: int, r: int)
    requires n > 0 && 0 <= r < n && a == q * n + r
    ensures a % n == r
  {
    var q0, r0 := a / n, a % n;
    assert a == q0 * n + r0;
    assert (q - q0) * n == r0 - r;
    if q > q0 {
      MultipleAtLeast(q - q0, n);
    } else if q < q0 {
      MultipleAtLeast(q0 - q, n);
    }
  }

  lemma MultipleAtLeast(d: int, n: int)
    requires d >= 1 && n > 0
    ensures d * n >= n
  {
  }

  lemma ModSmall(i: int, n: int)
    requires 0 <= i < n
    ensures i % n == i
  {
    ModUnique(i, n, 0, i);
  }

  lemma ModShift(x: nat, n: int)
    requires n > 0
    ensures (x + n) % n == x % n
  {
    var q, r := x / n, x % n;
    assert x + n == (q + 1) * n + r;
    ModUnique(x + n, n, q + 1, r);
  }

  /** The element-wise definition: output byte `i` is `data[i] ^ key[i mod |key|]`. */
  lemma XorElementwise(data: seq<byte>, key: seq<byte>)
    requires key != []
    ensures |XorEncryptWith(data, key)| == |data|
    ensures forall i :: 0 <= i < |data| ==> XorEncryptWith(data, key)[i] == data[i] ^ key[i % |key|]
  {
    forall i | 0 <= i < |data|
      ensures XorEncryptWith(data, key)[i] == data[i] ^ key[i % |key|]
    {
      XorFromAt(data, key, 0, i);
    }
  }

  /** An empty key gives an empty output, whatever the data. */
  lemma XorEmptyKey(data: seq<byte>)
    ensures XorEncryptWith(data, []) == []
  {
  }

  /** `xor_decrypt_with` is `xor_encrypt_with`, so with a non-empty key it
      undoes encryption. */
  function XorDecryptWith(data: seq<byte>, key: seq<byte>): (r: seq<byte>)
    ensures key != [] ==> XorEncryptWith(r, key) == data
    ensures key == [] ==> r == []
  {
    if key == [] then XorEncryptWith(data, key)
    else XorInvolution(data, key); XorEncryptWith(data, key)
  }

  /** Encrypting twice with the same non-empty key restores the data. */
  lemma XorInvolution(data: seq<byte>, key: seq<byte>)
    requires key != []
    ensures XorEncryptWith(XorEncryptWith(data, key), key) == data
  {
    var once := XorEncryptWith(data, key);
    XorElementwise(data, key);
    XorElementwise(once, key);
    forall i | 0 <= i < |data|
      ensures XorEncryptWith(once, key)[i] == data[i]
    {
      assert (data[i] ^ key[i % |key|]) ^ key[i % |key|] == data[i];
    }
  }

  /** A key at least as long as the data contributes only its first
      `|data|` bytes. */
  lemma XorLongKey(data: seq<byte>, key: seq<byte>)
    requires |key| >= |data|
    ensures XorEncryptWith(data, key) == XorEncryptWith(data, key[..|data|])
  {
    if data != [] {
      var short := key[..|data|];
      XorElementwise(data, key);
      XorElementwise(data, short);
      forall i | 0 <= i < |data|
        ensures XorEncryptWith(data, key)[i] == XorEncryptWith(data, short)[i]
      {
        ModSmall(i, |key|);
        ModSmall(i, |short|);
      }
    }
  }

  /** With a key of the data's length the operation is plain element-wise
      XOR, and the two operands may be exchanged. */
  lemma XorEqualLength(data: seq<byte>, key: seq<byte>)
    requires |key| == |data|
    ensures forall i :: 0 <= i < |data| ==> XorEncryptWith(data, key)[i] == data[i] ^ key[i]
    ensures XorEncryptWith(data, key) == XorEncryptWith(key, data)
  {
    if data != [] {
      XorElementwise(data, key);
      XorElementwise(key, data);
      forall i | 0 <= i < |data|
        ensures XorEncryptWith(data, key)[i] == data[i] ^ key[i]
        ensures XorEncryptWith(key, data)[i] == data[i] ^ key[i]
      {
        ModSmall(i, |key|);
      }
    }
  }

  /** A one-byte key XORs every byte of the data with that byte. */
  lemma XorSingleByte(data: seq<byte>, k: byte)
    ensures |XorEncryptWith(data, [k])| == |data|
    ensures forall i :: 0 <= i < |data| ==> XorEncryptWith(data, [k])[i] == data[i] ^ k
  {
    XorElementwise(data, [k]);
  }
}
