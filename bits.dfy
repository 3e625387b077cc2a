/**
 * Bit strings, bytes and the padded MSB-first packing the container uses.
 *
 * Several short lemmas here state a single step (an associativity, one
 * shift, one pop, one run). Dafny proves most of them without help; they are
 * separate so that the proofs calling them see only that one fact, which
 * keeps each of those proof obligations small.
 */
module Bits {

  /** Sequence concatenation is associative. */
  lemma ConcatAssoc<T>(a: seq<T>, b: seq<T>, c: seq<T>)
    ensures (a + b) + c == a + (b + c)
  {
  }

  /** Rust's `u8`. */
  type Byte = x: int | 0 <= x < 256

  function Pow2(n: nat): (r: nat)
    ensures r >= 1
  {
    if n == 0 then 1 else 2 * Pow2(n - 1)
  }

  lemma {:induction false} Pow2Mono(a: nat, b: nat)
    requires a <= b
    ensures Pow2(a) <= Pow2(b)
    decreases b
  {
    if a < b {
      Pow2Mono(a, b - 1);
    }
  }

  lemma Pow2Byte()
    ensures Pow2(7) == 128 && Pow2(8) == 256
  {
  }

  /** `n` zero bits. */
  function Zeros(n: nat): (r: seq<bool>)
    ensures |r| == n && forall i :: 0 <= i < n ==> !r[i]
  {
    if n == 0 then [] else Zeros(n - 1) + [false]
  }

  /**
   * The number a bit string spells when read most significant bit first:
   * it is what `byte = byte << 1 | bit` accumulates, one bit at a time.
   */
  function Value(bits: seq<bool>): (v: nat)
    ensures v < Pow2(|bits|)
  {
    if bits == [] then 0
    else 2 * Value(bits[..|bits| - 1]) + (if bits[|bits| - 1] then 1 else 0)
  }

  /** Appending a bit doubles the value and adds the bit. */
  lemma ValueSnoc(bits: seq<bool>, b: bool)
    ensures Value(bits + [b]) == 2 * Value(bits) + (if b then 1 else 0)
  {
    assert (bits + [b])[..|bits|] == bits;
  }

  /** Shifting left by `k` is appending `k` zero bits. */
  lemma {:induction false} ValueZeros(bits: seq<bool>, k: nat)
    ensures Value(bits + Zeros(k)) == Value(bits) * Pow2(k)
  {
    if k > 0 {
      var shorter := bits + Zeros(k - 1);
      var padded := bits + Zeros(k);
      assert padded == shorter + [false];
      assert padded[..|padded| - 1] == shorter;
      ValueZeros(bits, k - 1);
      MulDouble(Value(bits), Pow2(k - 1));
    } else {
      assert bits + Zeros(0) == bits;
    }
  }

  lemma MulDouble(v: int, p: int)
    ensures v * (2 * p) == 2 * (v * p)
  {
  }

  /** The leading bit of a string weighs `2^(|rest|)`. */
  lemma {:induction false} ValueCons(b: bool, rest: seq<bool>)
    ensures Value([b] + rest) == (if b then Pow2(|rest|) else 0) + Value(rest)
  {
    if rest != [] {
      var s := [b] + rest;
      assert s[..|s| - 1] == [b] + rest[..|rest| - 1];
      ValueCons(b, rest[..|rest| - 1]);
    } else {
      assert [b] + rest == [b];
    }
  }

  /**
   * The `n` bits the decoder reads out of `c`: test bit 7 (`c >> 7 & 1`),
   * then shift left as a `u8` (`c <<= 1`), `n` times.
   */
  function MsbBits(c: Byte, n: nat): (r: seq<bool>)
    ensures |r| == n
    decreases n
  {
    if n == 0 then [] else [(c / 128) % 2 == 1] + MsbBits((c * 2) % 256, n - 1)
  }

  /** One test-and-shift step on a byte whose top bit is `b`. */
  lemma ShiftStep(b: bool, low: nat)
    requires low < 128
    ensures ((if b then 128 else 0) + low) / 128 % 2 == 1 <==> b
    ensures ((if b then 128 else 0) + low) * 2 % 256 == 2 * low
  {
  }

  /**
   * Testing bit 7 of the byte an eight-bit string spells gives its first
   * bit; shifting the byte left spells the rest followed by a zero.
   */
  lemma ByteStep(s: seq<bool>)
    requires |s| == 8
    ensures Value(s) < 256
    ensures (Value(s) / 128) % 2 == 1 <==> s[0]
    ensures (Value(s) * 2) % 256 == Value(s[1..] + [false])
  {
    Pow2Byte();
    assert s == [s[0]] + s[1..];
    ValueCons(s[0], s[1..]);
    ShiftStep(s[0], Value(s[1..]));
    var shifted := s[1..] + [false];
    assert shifted[..|shifted| - 1] == s[1..];
  }

  /**
   * Reading `k` bits back out of the byte an eight-bit string spells, with
   * the decoder's test-and-shift, gives the first `k` bits of the string.
   */
  lemma {:induction false} MsbBitsValue(s: seq<bool>, k: nat)
    requires |s| == 8 && k <= 8
    ensures Value(s) < 256
    ensures MsbBits(Value(s), k) == s[..k]
    decreases k
  {
    ByteStep(s);
    if k > 0 {
      var shifted := s[1..] + [false];
      MsbBitsValue(shifted, k - 1);
      assert s[..k] == [s[0]] + shifted[..k - 1];
    }
  }

  /**
   * The zero bits that fill the last byte of `B` bits: none when `B` is a
   * multiple of 8, otherwise `8 - B mod 8`, which is `(8 - B mod 8) mod 8`.
   */
  function Padding(bitCount: nat): (p: nat)
    ensures p < 8 && (bitCount + p) % 8 == 0
    ensures p == (8 - bitCount % 8) % 8
  {
    if bitCount % 8 == 0 then 0 else 8 - bitCount % 8
  }

  /** Groups a bit string of whole bytes into bytes, MSB first. */
  function Chunk(bits: seq<bool>): (r: seq<Byte>)
    requires |bits| % 8 == 0
    ensures |r| == |bits| / 8
  {
    if bits == [] then []
    else
      Pow2Byte();
      [Value(bits[..8])] + Chunk(bits[8..])
  }

  /** Eight bits make one byte. */
  lemma ChunkByte(bits: seq<bool>)
    requires |bits| == 8
    ensures Value(bits) < 256 && Chunk(bits) == [Value(bits)]
  {
    Pow2Byte();
    assert bits[..8] == bits && bits[8..] == [];
  }

  lemma {:induction false} ChunkAppend(a: seq<bool>, b: seq<bool>)
    requires |a| % 8 == 0 && |b| % 8 == 0
    ensures Chunk(a + b) == Chunk(a) + Chunk(b)
  {
    if a != [] {
      assert (a + b)[..8] == a[..8];
      assert (a + b)[8..] == a[8..] + b;
      ChunkAppend(a[8..], b);
    } else {
      assert a + b == b;
    }
  }

  /** Expands every byte into its eight bits, most significant first. */
  function Unpack(bytes: seq<Byte>): (r: seq<bool>)
    ensures |r| == 8 * |bytes|
  {
    if bytes == [] then [] else MsbBits(bytes[0], 8) + Unpack(bytes[1..])
  }

  lemma {:induction false} UnpackSnoc(bytes: seq<Byte>, b: Byte)
    ensures Unpack(bytes + [b]) == Unpack(bytes) + MsbBits(b, 8)
  {
    if bytes != [] {
      assert (bytes + [b])[1..] == bytes[1..] + [b];
      UnpackSnoc(bytes[1..], b);
    } else {
      assert bytes + [b] == [b];
    }
  }

  /** Unpacking undoes grouping into bytes. */
  lemma {:induction false} UnpackChunk(bits: seq<bool>)
    requires |bits| % 8 == 0
    ensures Unpack(Chunk(bits)) == bits
  {
    if bits != [] {
      var head, tail := bits[..8], bits[8..];
      UnpackChunkStep(bits, Chunk(bits));
      MsbBitsValue(head, 8);
      assert head[..8] == head;
      UnpackChunk(tail);
      assert bits == head + tail;
    }
  }

  /** Unpacking the bytes of a bit string: the first byte's bits, then the rest's. */
  lemma UnpackChunkStep(bits: seq<bool>, c: seq<Byte>)
    requires |bits| % 8 == 0 && bits != [] && c == Chunk(bits)
    ensures Value(bits[..8]) < 256
    ensures Unpack(c) == MsbBits(Value(bits[..8]), 8) + Unpack(Chunk(bits[8..]))
  {
    assert c[0] == Value(bits[..8]) && c[1..] == Chunk(bits[8..]);
  }

  /**
   * The packed form of a bit string: the padding byte, then the bits padded
   * with zeros to whole bytes, MSB first.
   */
  function Pack(bits: seq<bool>): (r: seq<Byte>)
    ensures |r| == 1 + (|bits| + 7) / 8
    ensures r[0] == Padding(|bits|) && r[0] < 8
  {
    var p := Padding(|bits|);
    [p] + Chunk(bits + Zeros(p))
  }

  /**
   * Unpacking drops the trailing `padding` bits of the expanded data bytes;
   * it needs a padding byte and no more padding than data bits.
   */
  function Unpadded(data: seq<Byte>): (r: seq<bool>)
    requires |data| >= 1 && data[0] <= 8 * (|data| - 1)
    ensures |r| == 8 * (|data| - 1) - data[0]
  {
    Unpack(data[1..])[..8 * (|data| - 1) - data[0]]
  }

  /**
   * The data bytes hold the bits MSB first followed by zero padding bits,
   * and dropping the padding gives the bits back.
   */
  lemma UnpackPack(bits: seq<bool>)
    ensures Unpack(Pack(bits)[1..]) == bits + Zeros(Padding(|bits|))
    ensures Pack(bits)[0] <= 8 * (|Pack(bits)| - 1)
    ensures Unpadded(Pack(bits)) == bits
  {
    var p := Padding(|bits|);
    var padded := bits + Zeros(p);
    UnpackChunk(padded);
    assert Pack(bits)[1..] == Chunk(padded);
    assert padded[..|bits|] == bits;
  }
}
