/** Byte layouts of a 64-bit unsigned integer.

    The filter keeps its probe counter in an 8-byte buffer and reads that
    buffer in two ways: through a `*uint64` pointer (the host's native byte
    order, fixed here to little-endian) and through a big-endian decoder.
    Mixing the two is what turns probe 0 into a byte-swapped copy of the
    base hash. */
module ByteOrder {

  /** Go's `byte`. */
  type byte = x: int | 0 <= x < 0x100

  /** Go's `uint64`. */
  type u64 = x: int | 0 <= x < 0x1_0000_0000_0000_0000

  /** 256 to the power `n`: one more than the largest value `n` bytes hold. */
  function Pow256(n: nat): (p: nat)
    ensures p > 0
  {
    if n == 0 then 1 else 0x100 * Pow256(n - 1)
  }

  lemma Pow256Of8()
    ensures Pow256(8) == 0x1_0000_0000_0000_0000
  {
  }

  /** The value of `b` read with byte 0 least significant. */
  function LeValue(b: seq<byte>): (x: nat)
    ensures x < Pow256(|b|)
  {
    if b == [] then 0 else b[0] + 0x100 * LeValue(b[1..])
  }

  /** The value of `b` read with byte 0 most significant. */
  function BeValue(b: seq<byte>): (x: nat)
    ensures x < Pow256(|b|)
  {
    if b == [] then 0 else BeValue(b[..|b| - 1]) * 0x100 + b[|b| - 1]
  }

  /** The `n` low-order bytes of `x`, least significant first. */
  function LeBytesOf(x: nat, n: nat): (r: seq<byte>)
    ensures |r| == n
  {
    if n == 0 then [] else [x % 0x100] + LeBytesOf(x / 0x100, n - 1)
  }

  /** Writing a value that fits in `n` bytes and reading it back gives the
      value. */
  lemma {:induction false} LeValueOfBytes(x: nat, n: nat)
    requires x < Pow256(n)
    ensures LeValue(LeBytesOf(x, n)) == x
  {
    if n > 0 {
      LeValueOfBytes(x / 0x100, n - 1);
      assert LeBytesOf(x, n)[1..] == LeBytesOf(x / 0x100, n - 1);
    }
  }

  /** Reading bytes and writing the value back gives the bytes. */
  lemma {:induction false} BytesOfLeValue(b: seq<byte>)
    ensures LeBytesOf(LeValue(b), |b|) == b
  {
    if b != [] {
      BytesOfLeValue(b[1..]);
      var x := LeValue(b);
      assert x % 0x100 == b[0] && x / 0x100 == LeValue(b[1..]);
    }
  }

  /** The 8 bytes of `x` as a little-endian host stores them: what `*p = x`
      writes into the counter buffer. */
  function LeBytes(x: u64): (r: seq<byte>)
    ensures |r| == 8
  {
    LeBytesOf(x, 8)
  }

  /** The integer a little-endian host reads from an 8-byte buffer through a
      `*uint64` pointer. */
  function LeUint64(b: seq<byte>): u64
    requires |b| == 8
  {
    Pow256Of8();
    LeValue(b)
  }

  /** `binary.BigEndian.Uint64`: byte 0 is the most significant. */
  function BeUint64(b: seq<byte>): u64
    requires |b| == 8
  {
    Pow256Of8();
    BeValue(b)
  }

  /** The bytes of `b` in the opposite order. */
  function Reversed(b: seq<byte>): (r: seq<byte>)
    ensures |r| == |b|
    ensures forall j :: 0 <= j < |b| ==> r[j] == b[|b| - 1 - j]
  {
    if b == [] then [] else Reversed(b[1..]) + [b[0]]
  }

  /** `x` with the order of its 8 bytes reversed. */
  function ByteSwap64(x: u64): u64
  {
    LeUint64(Reversed(LeBytes(x)))
  }

  /** Storing a word and reading it back through the pointer gives the word;
      reading the buffer and storing the result gives the same bytes. */
  lemma LittleEndianRoundTrip(x: u64, b: seq<byte>)
    requires |b| == 8
    ensures LeUint64(LeBytes(x)) == x
    ensures LeBytes(LeUint64(b)) == b
  {
    Pow256Of8();
    LeValueOfBytes(x, 8);
    BytesOfLeValue(b);
  }

  /** A big-endian read is a little-endian read of the reversed bytes. */
  lemma {:induction false} BeValueIsReversedLe(b: seq<byte>)
    ensures BeValue(b) == LeValue(Reversed(b))
  {
    if b != [] {
      var init := b[..|b| - 1];
      BeValueIsReversedLe(init);
      var r := Reversed(b);
      assert r[0] == b[|b| - 1];
      assert r[1..] == Reversed(init);
    }
  }

  /** A word stored little-endian and read back big-endian comes out byte
      swapped: the value of probe 0 on a little-endian host. */
  lemma BigEndianReadSwaps(x: u64)
    ensures BeUint64(LeBytes(x)) == ByteSwap64(x)
  {
    BeValueIsReversedLe(LeBytes(x));
  }

  /** Swapping twice restores the word, so probe 0 keeps all of the base
      hash's information. */
  lemma ByteSwapInvolutive(x: u64)
    ensures ByteSwap64(ByteSwap64(x)) == x
  {
    var b := LeBytes(x);
    LittleEndianRoundTrip(x, Reversed(b));
    assert Reversed(Reversed(b)) == b;
  }
}
