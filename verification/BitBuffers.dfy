/**
 The appendable bit sequence of the encoder, and the correspondence between numbers,
 bytes and big-endian bit sequences.
 */
module BitBuffers {
  import opened Bitwise
  import opened GaloisField

  type uint32 = x: int | 0 <= x < 0x1_0000_0000

  /** The low `len` bits of a value, most significant first. */
  function Bits(val: nat, len: nat): (b: seq<bool>)
    ensures |b| == len
  {
    if len == 0 then [] else Bits(val / 2, len - 1) + [val % 2 == 1]
  }

  /** The number that a bit sequence spells. */
  function Value(b: seq<bool>): nat {
    if b == [] then 0 else 2 * Value(b[..|b| - 1]) + (if b[|b| - 1] then 1 else 0)
  }

  lemma {:induction false} ValueOfBits(val: nat, len: nat)
    requires val < Pow2(len)
    ensures Value(Bits(val, len)) == val
  {
    if len > 0 {
      ValueOfBits(val / 2, len - 1);
      assert Bits(val, len)[..len - 1] == Bits(val / 2, len - 1);
    }
  }

  lemma {:induction false} BitsOfValue(b: seq<bool>)
    ensures Value(b) < Pow2(|b|)
    ensures Bits(Value(b), |b|) == b
  {
    if b != [] {
      BitsOfValue(b[..|b| - 1]);
    }
  }

  lemma {:induction false} BitsAt(val: nat, len: nat, k: nat)
    requires k < len
    ensures Bits(val, len)[k] == GetBit(val, len - 1 - k)
  {
    if k < len - 1 {
      BitsAt(val / 2, len - 1, k);
    }
  }

  lemma {:induction false} ShrIsZero(x: nat, n: nat)
    ensures Shr(x, n) == 0 <==> x < Pow2(n)
    decreases n
  {
    if n > 0 {
      ShrIsZero(x / 2, n - 1);
    }
  }

  class BitBuffer {
    var bits: seq<bool>

    constructor ()
      ensures bits == []
    {
      bits := [];
    }

    /** Fails (throws, in C++) exactly when the value does not fit the width. */
    method AppendBits(val: uint32, len: int) returns (ok: bool)
      modifies this
      ensures ok <==> 0 <= len <= 31 && val < Pow2(len)
      ensures bits == if ok then old(bits) + Bits(val, len) else old(bits)
    {
      if len >= 0 {
        ShrIsZero(val, len);
      }
      if len < 0 || len > 31 || Shr(val, len) != 0 {
        return false;
      }
      for i := len downto 0
        invariant bits == old(bits) + Bits(val, len)[..len - i]
      {
        bits := bits + [GetBit(val, i)];
        BitsAt(val, len, len - 1 - i);
      }
      assert Bits(val, len)[..len] == Bits(val, len);
      return true;
    }
  }

  lemma SliceOfRest<T>(s: seq<T>, a: nat, lo: nat, hi: nat)
    requires lo <= hi && a + hi <= |s|
    ensures s[a..][lo..hi] == s[a + lo..a + hi]
  {
  }

  /*---- Bytes ----*/

  /** The bits of a byte sequence, each byte most significant bit first. */
  function ByteBits(bytes: seq<byte>): (b: seq<bool>)
    ensures |b| == 8 * |bytes|
  {
    if bytes == [] then [] else Bits(bytes[0], 8) + ByteBits(bytes[1..])
  }

  lemma {:induction false} ByteBitsAppend(a: seq<byte>, b: seq<byte>)
    ensures ByteBits(a + b) == ByteBits(a) + ByteBits(b)
  {
    if a == [] {
      assert a + b == b;
    } else {
      assert (a + b)[1..] == a[1..] + b;
      ByteBitsAppend(a[1..], b);
    }
  }

  lemma {:induction false} ByteBitsAt(bytes: seq<byte>, i: nat)
    requires i < 8 * |bytes|
    ensures ByteBits(bytes)[i] == GetBit(bytes[i / 8], 7 - i % 8)
  {
    if i < 8 {
      BitsAt(bytes[0], 8, i);
    } else {
      ByteBitsAt(bytes[1..], i - 8);
    }
  }

  function PackByte(b: seq<bool>): byte
    requires |b| == 8
  {
    BitsOfValue(b);
    assert Pow2(8) == 256;
    Value(b)
  }

  /** The bytes that eight bits each spell; trailing bits that do not fill a byte are dropped. */
  function PackBytes(bits: seq<bool>): (r: seq<byte>)
    ensures |r| == |bits| / 8
  {
    if |bits| < 8 then [] else [PackByte(bits[..8])] + PackBytes(bits[8..])
  }

  lemma {:induction false} PackAt(bits: seq<bool>, k: nat)
    requires 8 * k + 8 <= |bits|
    ensures PackBytes(bits)[k] == Value(bits[8 * k..8 * k + 8])
  {
    if k > 0 {
      PackAt(bits[8..], k - 1);
      SliceOfRest(bits, 8, 8 * (k - 1), 8 * (k - 1) + 8);
    }
  }

  /** Packing and unpacking are inverse, whatever follows the last whole byte. */
  lemma {:induction false} PackOfByteBits(bytes: seq<byte>, rest: seq<bool>)
    requires |rest| < 8
    ensures PackBytes(ByteBits(bytes) + rest) == bytes
  {
    var b := ByteBits(bytes) + rest;
    if bytes != [] {
      assert b[..8] == Bits(bytes[0], 8);
      assert b[8..] == ByteBits(bytes[1..]) + rest;
      assert Pow2(8) == 256;
      ValueOfBits(bytes[0], 8);
      PackOfByteBits(bytes[1..], rest);
    }
  }

  lemma {:induction false} ByteBitsOfPack(bits: seq<bool>)
    requires |bits| % 8 == 0
    ensures ByteBits(PackBytes(bits)) == bits
  {
    if |bits| >= 8 {
      BitsOfValue(bits[..8]);
      ByteBitsOfPack(bits[8..]);
      assert bits == bits[..8] + bits[8..];
    }
  }
}
