/** Bytes, the big-endian integers of java.io.DataOutputStream and
    DataInputStream, and a file seen as a sequence of bytes. */
module Bytes {

  import opened Wrappers

  /** One byte, as an unsigned value. */
  type Byte = b: int | 0 <= b < 256

  const Int32Modulus: int := 0x1_0000_0000
  const Int64Modulus: int := 0x1_0000_0000_0000_0000

  /** Java's int and long. */
  type Int32 = x: int | -0x8000_0000 <= x < 0x8000_0000
  type Int64 = x: int | -0x8000_0000_0000_0000 <= x < 0x8000_0000_0000_0000

  function Pow256(n: nat): (r: nat)
    ensures r >= 1
  {
    if n == 0 then 1 else 256 * Pow256(n - 1)
  }

  lemma Pow256Values()
    ensures Pow256(4) == Int32Modulus
    ensures Pow256(8) == Int64Modulus
  {
    assert Pow256(1) == 256;
    assert Pow256(2) == 0x1_0000;
    assert Pow256(3) == 0x100_0000;
    assert Pow256(4) == 0x1_0000_0000;
    assert Pow256(5) == 0x100_0000_0000;
    assert Pow256(6) == 0x1_0000_0000_0000;
    assert Pow256(7) == 0x100_0000_0000_0000;
  }

  function Zeros(n: nat): (r: seq<Byte>)
    ensures |r| == n && forall i :: 0 <= i < n ==> r[i] == 0
  {
    seq(n, _ => 0)
  }


  lemma ZerosSlice(n: nat, a: nat, b: nat)
    requires a <= b <= n
    ensures Zeros(n)[a..b] == Zeros(b - a)
  {
  }

  /** The n low-order bytes of u, most significant first. */
  function ToBigEndian(u: nat, n: nat): (r: seq<Byte>)
    ensures |r| == n
  {
    if n == 0 then [] else ToBigEndian(u / 256, n - 1) + [u % 256]
  }

  /** The unsigned value of a big-endian byte sequence. */
  function FromBigEndian(bs: seq<Byte>): (r: nat)
    ensures r < Pow256(|bs|)
  {
    if |bs| == 0 then 0
    else
      var high := FromBigEndian(bs[..|bs| - 1]);
      assert high <= Pow256(|bs| - 1) - 1;
      assert high * 256 <= Pow256(|bs|) - 256;
      high * 256 + bs[|bs| - 1]
  }

  lemma DivModUnique(u: int, d: int, q: int, r: int)
    requires d > 0 && u == d * q + r && 0 <= r < d
    ensures u / d == q && u % d == r
  {
    var q0, r0 := u / d, u % d;
    assert u == d * q0 + r0;
    assert d * (q - q0) == r0 - r by {
      assert d * q - d * q0 == d * (q - q0);
    }
    MulBounds(d, q - q0);
  }

  lemma MulBounds(d: int, k: int)
    requires d > 0
    ensures k >= 1 ==> d * k >= d
    ensures k <= -1 ==> d * k <= -d
  {
    if k >= 1 {
      assert d * k == d + d * (k - 1);
    } else if k <= -1 {
      assert d * k == -d + d * (k + 1);
    }
  }

  lemma ModSplit(u: nat, p: nat)
    requires p > 0
    ensures (u / 256 % p) * 256 + u % 256 == u % (256 * p)
  {
    var q, r0 := u / 256, u % 256;
    var k, q' := q / p, q % p;
    assert u == 256 * q + r0;
    assert q == p * k + q';
    assert u == (256 * p) * k + (256 * q' + r0) by {
      assert 256 * q == 256 * (p * k) + 256 * q';
      assert 256 * (p * k) == (256 * p) * k;
    }
    assert 256 * q' + r0 < 256 * p by {
      assert q' <= p - 1;
      assert 256 * q' <= 256 * p - 256;
    }
    DivModUnique(u, 256 * p, k, 256 * q' + r0);
  }

  /** Decoding the n-byte big-endian form of u gives u modulo 256^n. */
  lemma {:induction false} BigEndianRoundTrip(u: nat, n: nat)
    ensures FromBigEndian(ToBigEndian(u, n)) == u % Pow256(n)
  {
    if n > 0 {
      var bs := ToBigEndian(u, n);
      assert bs[..n - 1] == ToBigEndian(u / 256, n - 1);
      assert bs[n - 1] == u % 256;
      BigEndianRoundTrip(u / 256, n - 1);
      ModSplit(u, Pow256(n - 1));
    }
  }

  /** DataOutputStream.writeInt: four bytes of the two's complement form. */
  function EncodeInt32(x: int): (r: seq<Byte>)
    ensures |r| == 4
  {
    ToBigEndian(x % Int32Modulus, 4)
  }

  /** DataInputStream.readInt. */
  function DecodeInt32(bs: seq<Byte>): Int32
    requires |bs| == 4
  {
    Pow256Values();
    var u := FromBigEndian(bs);
    if u < 0x8000_0000 then u else u - Int32Modulus
  }

  /** DataOutputStream.writeLong. */
  function EncodeInt64(x: int): (r: seq<Byte>)
    ensures |r| == 8
  {
    ToBigEndian(x % Int64Modulus, 8)
  }

  /** DataInputStream.readLong. */
  function DecodeInt64(bs: seq<Byte>): Int64
    requires |bs| == 8
  {
    Pow256Values();
    var u := FromBigEndian(bs);
    if u < 0x8000_0000_0000_0000 then u else u - Int64Modulus
  }

  lemma Int32RoundTrip(x: Int32)
    ensures DecodeInt32(EncodeInt32(x)) == x
  {
    Pow256Values();
    var u := x % Int32Modulus;
    if x >= 0 {
      DivModUnique(x, Int32Modulus, 0, x);
    } else {
      DivModUnique(x, Int32Modulus, -1, x + Int32Modulus);
    }
    BigEndianRoundTrip(u, 4);
    DivModUnique(u, Int32Modulus, 0, u);
    assert FromBigEndian(EncodeInt32(x)) == u;
  }

  lemma Int64RoundTrip(x: Int64)
    ensures DecodeInt64(EncodeInt64(x)) == x
  {
    Pow256Values();
    var u := x % Int64Modulus;
    if x >= 0 {
      DivModUnique(x, Int64Modulus, 0, x);
    } else {
      DivModUnique(x, Int64Modulus, -1, x + Int64Modulus);
    }
    BigEndianRoundTrip(u, 8);
    DivModUnique(u, Int64Modulus, 0, u);
    assert FromBigEndian(EncodeInt64(x)) == u;
  }

  /** Writing a range leaves the bytes of a range apart from it as they
      were. */
  lemma WriteAtElsewhere(file: seq<Byte>, off: nat, bytes: seq<Byte>, at: nat, n: nat)
    requires at + n <= |file|
    requires at + n <= off || off + |bytes| <= at
    ensures ReadAt(WriteAt(file, off, bytes), at, n) == ReadAt(file, at, n)
  {
    var r := WriteAt(file, off, bytes);
    assert r[at..at + n] == file[at..at + n] by {
      forall i | at <= i < at + n
        ensures r[i] == file[i]
      {
      }
    }
  }

  /** Zero is written as n zero bytes. */
  lemma {:induction false} ZeroToBigEndian(n: nat)
    ensures ToBigEndian(0, n) == Zeros(n)
  {
    if n > 0 {
      ZeroToBigEndian(n - 1);
      assert Zeros(n - 1) + [0] == Zeros(n);
    }
  }

  /** Four zero bytes read as an int give 0 (likewise for a long). */
  lemma {:induction false} ZerosDecodeToZero(n: nat)
    ensures FromBigEndian(Zeros(n)) == 0
  {
    if n > 0 {
      assert Zeros(n)[..n - 1] == Zeros(n - 1);
      ZerosDecodeToZero(n - 1);
    }
  }

  function Max(a: int, b: int): int { if a < b then b else a }

  /** RandomAccessFile: seek to off, then write bytes. Writing past the end
      extends the file; the gap reads as zero bytes. */
  function WriteAt(file: seq<Byte>, off: nat, bytes: seq<Byte>): (r: seq<Byte>)
    ensures |r| == Max(|file|, off + |bytes|)
    ensures r[off..off + |bytes|] == bytes
    ensures forall i :: 0 <= i < |r| && !(off <= i < off + |bytes|) ==>
              r[i] == if i < |file| then file[i] else 0
  {
    var padded := if |file| < off then file + Zeros(off - |file|) else file;
    padded[..off] + bytes + (if off + |bytes| < |padded| then padded[off + |bytes|..] else [])
  }

  /** RandomAccessFile: seek to off, then readFully n bytes; None when the
      offset is negative (an IOException) or the file ends first (EOFException). */
  function ReadAt(file: seq<Byte>, off: int, n: nat): (r: Option<seq<Byte>>)
    ensures r.Some? <==> 0 <= off && off + n <= |file|
    ensures r.Some? ==> |r.value| == n && forall i :: 0 <= i < n ==> r.value[i] == file[off + i]
  {
    if 0 <= off && off + n <= |file| then Some(file[off..off + n]) else None
  }
}
