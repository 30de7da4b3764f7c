/** Byte-level arithmetic used by the particulate-sensor frame decoder:
    the `u8` and `u16` machine types, `u16::from_be_bytes`, and the
    wrapping `u16` fold that computes the frame checksum. */
module Bytes {

  const BYTE_MODULUS: int := 0x100
  const U16_MODULUS: int := 0x1_0000

  type Byte = b: int | 0 <= b < 0x100
  type U16 = w: int | 0 <= w < 0x1_0000

  /** `u16::from_be_bytes([hi, lo])`: the high byte comes first on the wire. */
  function FromBeBytes(hi: Byte, lo: Byte): (w: U16)
    ensures w / BYTE_MODULUS == hi && w % BYTE_MODULUS == lo
  {
    hi * BYTE_MODULUS + lo
  }

  /** `u16::to_be_bytes(w)`, the inverse of `FromBeBytes`. */
  function ToBeBytes(w: U16): (r: (Byte, Byte))
    ensures FromBeBytes(r.0, r.1) == w
  {
    (w / BYTE_MODULUS, w % BYTE_MODULUS)
  }

  lemma FromBeBytesInjective(hi: Byte, lo: Byte, hi': Byte, lo': Byte)
    ensures FromBeBytes(hi, lo) == FromBeBytes(hi', lo') <==> hi == hi' && lo == lo'
  {
  }

  /** `a + b` on `u16` as it behaves in a release build: wrapping. */
  function WrappingAdd(a: U16, b: U16): (r: U16)
    ensures a + b < U16_MODULUS ==> r == a + b
    ensures a + b >= U16_MODULUS ==> r == a + b - U16_MODULUS
  {
    (a + b) % U16_MODULUS
  }

  /** `bytes.iter().fold(acc, |acc, x| acc + (x as u16))`, left to right. */
  function FoldSum16(acc: U16, bytes: seq<Byte>): (r: U16)
    ensures r == (acc + Sum(bytes)) % U16_MODULUS
    decreases |bytes|
  {
    if |bytes| == 0 then acc else FoldSum16(WrappingAdd(acc, bytes[0]), bytes[1..])
  }

  /** The mathematical sum of a byte sequence, with no width limit. */
  function Sum(bytes: seq<Byte>): nat
    decreases |bytes|
  {
    if |bytes| == 0 then 0 else bytes[0] + Sum(bytes[1..])
  }

  lemma {:induction false} SumBound(bytes: seq<Byte>)
    ensures Sum(bytes) <= 0xFF * |bytes|
    decreases |bytes|
  {
    if |bytes| > 0 {
      SumBound(bytes[1..]);
    }
  }

  lemma {:induction false} SumConcat(a: seq<Byte>, b: seq<Byte>)
    ensures Sum(a + b) == Sum(a) + Sum(b)
    decreases |a|
  {
    if |a| > 0 {
      assert (a + b)[1..] == a[1..] + b;
      SumConcat(a[1..], b);
    } else {
      assert a + b == b;
    }
  }

  /** Changing one byte changes the sum by exactly the difference of the two values. */
  lemma {:induction false} SumUpdate(bytes: seq<Byte>, k: nat, b: Byte)
    requires k < |bytes|
    ensures Sum(bytes[k := b]) == Sum(bytes) - bytes[k] + b
    decreases |bytes|
  {
    if k > 0 {
      assert bytes[k := b][1..] == bytes[1..][k - 1 := b];
      SumUpdate(bytes[1..], k - 1, b);
    } else {
      assert bytes[k := b][1..] == bytes[1..];
    }
  }

  /** As long as the running total stays below 2^16, the wrapping fold is the plain sum. */
  lemma {:induction false} FoldSum16NoWrap(acc: U16, bytes: seq<Byte>)
    requires acc + Sum(bytes) < U16_MODULUS
    ensures FoldSum16(acc, bytes) == acc + Sum(bytes)
    decreases |bytes|
  {
    if |bytes| > 0 {
      FoldSum16NoWrap(acc + bytes[0], bytes[1..]);
    }
  }

  /** A 30-byte frame prefix sums to at most 30 * 255 = 7650, so the `u16`
      checksum fold starting at 0 never wraps and equals the plain sum. */
  lemma ChecksumNeverWraps(bytes: seq<Byte>)
    requires |bytes| == 30
    ensures Sum(bytes) <= 7650
    ensures FoldSum16(0, bytes) == Sum(bytes)
  {
    SumBound(bytes);
    FoldSum16NoWrap(0, bytes);
  }
}
