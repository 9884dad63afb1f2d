/** Storage-level view of the memory the feature extractor works on: bytes,
    single-precision floats as the four bytes they occupy, and the one C
    library primitive the extractor calls on its feature buffer (memmove). */
module Memory {

  /** One byte of RAM. */
  type Byte = x: int | 0 <= x < 256

  /** A single-precision float as the four bytes it occupies, lowest address
      first. The model never does arithmetic on floats (the per-frame MFCC
      transform is uninterpreted), so their storage image is all it needs. */
  datatype Float32 = Float32(b0: Byte, b1: Byte, b2: Byte, b3: Byte)
  {
    function Bytes(): seq<Byte> {
      [b0, b1, b2, b3]
    }
  }

  /** Contiguous storage of a float array, lowest address first: byte p
      is byte p % 4 of float p / 4 (4 == sizeof(float)). */
  function ByteImage(buf: seq<Float32>): (r: seq<Byte>)
    ensures |r| == 4 * |buf|
  {
    seq(4 * |buf|, p requires 0 <= p < 4 * |buf| => buf[p / 4].Bytes()[p % 4])
  }

  /** Byte o of float q of a float array. */
  function ByteOf(buf: seq<Float32>, q: int, o: int): Byte
    requires 0 <= q < |buf| && 0 <= o < 4
  {
    buf[q].Bytes()[o]
  }

  /** Float q occupies the bytes [4 * q, 4 * q + 4) of the image. */
  lemma ByteAt(buf: seq<Float32>, q: int, o: int)
    requires 0 <= q < |buf| && 0 <= o < 4
    ensures ByteImage(buf)[4 * q + o] == ByteOf(buf, q, o)
  {
    assert (4 * q + o) / 4 == q && (4 * q + o) % 4 == o;
  }

  /** Two byte sequences that agree byte for byte on every float slot are equal. */
  lemma ImageExt(a: seq<Byte>, b: seq<Byte>, m: nat)
    requires |a| == |b| == 4 * m
    requires forall q, o :: 0 <= q < m && 0 <= o < 4 ==> Slice4(a, q, o) == Slice4(b, q, o)
    ensures a == b
  {
    forall p | 0 <= p < |a|
      ensures a[p] == b[p]
    {
      assert Slice4(a, p / 4, p % 4) == Slice4(b, p / 4, p % 4);
    }
  }

  /** Byte o of the 4-byte group q of a byte sequence. */
  function Slice4(s: seq<Byte>, q: int, o: int): Byte
    requires 0 <= q && 0 <= o < 4 && 4 * q + o < |s|
  {
    s[4 * q + o]
  }

  /** `memmove(base, base + src, n)` with n counted in elements of `mem`: the n
      elements that start at `src` are copied to the front (overlap-safe, the
      source is read before it is overwritten) and everything from n on is
      left as it was. */
  function MoveToFront<T>(mem: seq<T>, src: nat, n: nat): (r: seq<T>)
    requires src + n <= |mem|
    ensures |r| == |mem|
    ensures r[..n] == mem[src..src + n]
    ensures r[n..] == mem[n..]
  {
    mem[src..src + n] + mem[n..]
  }

  /** Moving n floats is moving 4 * n bytes: memmove on a float array
      must be given the element count times sizeof(float). */
  lemma MoveImage(buf: seq<Float32>, src: nat, n: nat)
    requires src + n <= |buf|
    ensures ByteImage(MoveToFront(buf, src, n))
         == MoveToFront(ByteImage(buf), 4 * src, 4 * n)
  {
    var lhs := ByteImage(MoveToFront(buf, src, n));
    var rhs := MoveToFront(ByteImage(buf), 4 * src, 4 * n);
    forall q, o | 0 <= q < |buf| && 0 <= o < 4
      ensures Slice4(lhs, q, o) == Slice4(rhs, q, o)
    {
      MovedByte(buf, src, n, q, o);
    }
    ImageExt(lhs, rhs, |buf|);
  }

  /** Byte o of float slot q agrees after both moves. */
  lemma MovedByte(buf: seq<Float32>, src: nat, n: nat, q: nat, o: nat)
    requires src + n <= |buf| && q < |buf| && o < 4
    ensures ByteImage(MoveToFront(buf, src, n))[4 * q + o]
         == MoveToFront(ByteImage(buf), 4 * src, 4 * n)[4 * q + o]
  {
    if q < n {
      MovedByteFront(buf, src, n, q, o);
    } else {
      MovedByteRest(buf, src, n, q, o);
    }
  }

  /** MovedByte for a slot inside the moved range. */
  lemma MovedByteFront(buf: seq<Float32>, src: nat, n: nat, q: nat, o: nat)
    requires src + n <= |buf| && q < n && o < 4
    ensures ByteImage(MoveToFront(buf, src, n))[4 * q + o]
         == MoveToFront(ByteImage(buf), 4 * src, 4 * n)[4 * q + o]
  {
    var moved := MoveToFront(buf, src, n);
    var rhs := MoveToFront(ByteImage(buf), 4 * src, 4 * n);
    ByteAt(moved, q, o);
    ByteAt(buf, src + q, o);
    assert moved[q] == moved[..n][q];
    assert rhs[4 * q + o] == rhs[..4 * n][4 * q + o];
    assert 4 * (src + q) + o == 4 * src + 4 * q + o;
  }

  /** MovedByte for a slot past the moved range. */
  lemma MovedByteRest(buf: seq<Float32>, src: nat, n: nat, q: nat, o: nat)
    requires src + n <= |buf| && n <= q < |buf| && o < 4
    ensures ByteImage(MoveToFront(buf, src, n))[4 * q + o]
         == MoveToFront(ByteImage(buf), 4 * src, 4 * n)[4 * q + o]
  {
    var moved := MoveToFront(buf, src, n);
    var rhs := MoveToFront(ByteImage(buf), 4 * src, 4 * n);
    ByteAt(moved, q, o);
    ByteAt(buf, q, o);
    assert moved[q] == moved[n..][q - n];
    assert rhs[4 * q + o] == rhs[4 * n..][4 * q + o - 4 * n];
  }
}
