/**
 * Bytes and the fixed-width signed integers of the PKG header.
 *
 * Every integer field of the format is a 4-byte two's-complement value
 * (Python's struct format 'i', native byte order and size). The model fixes
 * that native order to little-endian.
 */
module Int32 {

  type byte = b: int | 0 <= b < 256

  const TWO_31: int := 0x8000_0000
  const TWO_32: int := 0x1_0000_0000

  /** The values a 4-byte signed integer can hold. */
  predicate InRange(x: int) {
    -TWO_31 <= x < TWO_31
  }

  function Pow256(n: nat): (p: nat)
    ensures p > 0
  {
    if n == 0 then 1 else 256 * Pow256(n - 1)
  }

  /** The unsigned value of the `n` bytes `s[pos..pos + n]`, least significant first. */
  function ValueAt(s: seq<byte>, pos: nat, n: nat): (u: nat)
    requires pos + n <= |s|
    ensures u < Pow256(n)
    decreases n
  {
    if n == 0 then 0 else s[pos] + 256 * ValueAt(s, pos + 1, n - 1)
  }

  /** Two's complement: the unsigned 32-bit pattern `u` read as a signed value. */
  function Signed(u: nat): (x: int)
    requires u < TWO_32
    ensures InRange(x)
  {
    if u < TWO_31 then u else u - TWO_32
  }

  function Unsigned(x: int): (u: nat)
    requires InRange(x)
    ensures u < TWO_32
  {
    if x < 0 then x + TWO_32 else x
  }

  /** `struct.unpack('i', s[pos..pos + 4])`. */
  function DecodeAt(s: seq<byte>, pos: nat): (x: int)
    requires pos + 4 <= |s|
    ensures InRange(x)
  {
    assert Pow256(4) == TWO_32;
    Signed(ValueAt(s, pos, 4))
  }

  /** The `n` bytes of `u`, least significant first. */
  function Digits(u: nat, n: nat): (w: seq<byte>)
    ensures |w| == n
  {
    if n == 0 then [] else [u % 256] + Digits(u / 256, n - 1)
  }

  /** `struct.pack('i', x)`. */
  function Encode(x: int): (w: seq<byte>)
    requires InRange(x)
    ensures |w| == 4
  {
    Digits(Unsigned(x), 4)
  }

  lemma {:induction false} ValueOfDigits(s: seq<byte>, pos: nat, u: nat, n: nat)
    requires u < Pow256(n) && pos + n <= |s| && s[pos..pos + n] == Digits(u, n)
    ensures ValueAt(s, pos, n) == u
    decreases n
  {
    if n > 0 {
      var w := Digits(u, n);
      assert s[pos] == w[0];
      assert s[pos + 1..pos + n] == w[1..];
      ValueOfDigits(s, pos + 1, u / 256, n - 1);
    }
  }

  lemma {:induction false} DigitsOfValue(s: seq<byte>, pos: nat, n: nat)
    requires pos + n <= |s|
    ensures Digits(ValueAt(s, pos, n), n) == s[pos..pos + n]
    decreases n
  {
    if n > 0 {
      var u := ValueAt(s, pos, n);
      assert u % 256 == s[pos] && u / 256 == ValueAt(s, pos + 1, n - 1);
      DigitsOfValue(s, pos + 1, n - 1);
      assert s[pos..pos + n] == [s[pos]] + s[pos + 1..pos + n];
    }
  }

  lemma {:induction false} ValueOfSlice(s: seq<byte>, a: nat, b: nat, k: nat, n: nat)
    requires a + k + n <= b <= |s|
    ensures ValueAt(s[a..b], k, n) == ValueAt(s, a + k, n)
    decreases n
  {
    if n > 0 {
      ValueOfSlice(s, a, b, k + 1, n - 1);
    }
  }

  /** Decoding the four bytes read out of `s` is decoding them in place. */
  lemma DecodeOfSlice(s: seq<byte>, pos: nat)
    requires pos + 4 <= |s|
    ensures DecodeAt(s[pos..pos + 4], 0) == DecodeAt(s, pos)
  {
    ValueOfSlice(s, pos, pos + 4, 0, 4);
  }

  /** Reading back a written integer gives the integer. */
  lemma DecodeEncode(s: seq<byte>, pos: nat, x: int)
    requires InRange(x) && pos + 4 <= |s| && s[pos..pos + 4] == Encode(x)
    ensures DecodeAt(s, pos) == x
  {
    assert Pow256(4) == TWO_32;
    ValueOfDigits(s, pos, Unsigned(x), 4);
  }

  /** Every 4-byte word is the encoding of the integer it denotes. */
  lemma EncodeDecode(s: seq<byte>, pos: nat)
    requires pos + 4 <= |s|
    ensures Encode(DecodeAt(s, pos)) == s[pos..pos + 4]
  {
    assert Pow256(4) == TWO_32;
    DigitsOfValue(s, pos, 4);
  }
}
