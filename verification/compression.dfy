/**
 * The compression envelope of the container: a zlib stream followed by the
 * uncompressed length as a big-endian 32-bit trailer, recognised on read by
 * sniffing the zlib header (section 2.2 of RFC 1950). zlib's own `compress2`
 * and `uncompress` are parameters with a stated contract.
 */
module Compression {
  import opened Common

  /** zlib's Z_OK status. */
  const Z_OK: int := 0
  /** zlib's Z_DEFAULT_COMPRESSION level. */
  const Z_DEFAULT_COMPRESSION: int := -1
  /** 2^32: the first length the 32-bit trailer cannot hold. */
  const Two32: nat := 0x1_0000_0000

  /** What a zlib call reports: its status and the bytes it wrote to the destination. */
  datatype ZResult = ZResult(status: int, output: seq<byte>)

  /**
   * zlib as the envelope calls it:
   * compress2(source, level, destinationCapacity) and
   * uncompress(source, destinationCapacity).
   */
  datatype Zlib = Zlib(
    compress2: (seq<byte>, int, nat) -> ZResult,
    uncompress: (seq<byte>, nat) -> ZResult)

  /**
   * The destination room zlib documents as always sufficient for compress2
   * of n bytes: at least 0.1% more than the source, plus 12 bytes.
   */
  predicate RoomForDeflate(n: nat, cap: int)
  {
    1000 * cap >= 1001 * n + 12000
  }

  /** The levels compress2 accepts: Z_DEFAULT_COMPRESSION and 0 to 9; deflateInit2 rejects any other. */
  predicate ValidLevel(level: int)
  {
    Z_DEFAULT_COMPRESSION <= level <= 9
  }

  /**
   * What the envelope relies on from zlib: at a level it accepts and with
   * the documented room, compress2 succeeds, stays within the room, starts its stream with a valid zlib
   * header, and uncompress of that stream into exactly the original length
   * gives the original bytes back.
   */
  ghost predicate ZlibContract(z: Zlib)
  {
    forall src, level, cap | ValidLevel(level) && RoomForDeflate(|src|, cap) :: DeflateBehaves(z, src, level, cap)
  }

  ghost predicate DeflateBehaves(z: Zlib, src: seq<byte>, level: int, cap: nat)
  {
    var r := z.compress2(src, level, cap);
    r.status == Z_OK && |r.output| <= cap && IsCompressed(r.output)
    && z.uncompress(r.output, |src|) == ZResult(Z_OK, src)
  }

  // ---------------------------------------------------------------------
  // The header sniff

  /**
   * isCompressed(): the first two bytes look like a zlib header: compression
   * method 8 in the low nibble of byte 0, the top bit of byte 0 clear, and
   * the big-endian 16-bit value of the two bytes a multiple of 31.
   */
  predicate IsCompressed(data: seq<byte>): (b: bool)
    ensures b ==> |data| >= 2
  {
    if |data| < 2 then false
    else
      var b0 := data[0] as bv8;
      var fcheck := data[0] as int * 256 + data[1] as int;
      b0 & 0x0F == 8 && b0 & 0x80 == 0 && fcheck % 31 == 0
  }

  /**
   * The sniff in the terms of section 2.2 of RFC 1950: CM (bits 0-3 of CMF)
   * is 8, CINFO (bits 4-7) is at most 7, and CMF*256 + FLG is a multiple of 31.
   */
  lemma SniffIsZlibHeader(data: seq<byte>)
    ensures IsCompressed(data) <==>
      |data| >= 2 && data[0] % 16 == 8 && data[0] / 16 <= 7
      && (data[0] as int * 256 + data[1] as int) % 31 == 0
  {
    if |data| >= 2 {
      MaskArithmetic(data[0]);
    }
  }

  lemma MaskArithmetic(b: byte)
    ensures (b as bv8 & 0x0F == 8) <==> b % 16 == 8
    ensures (b as bv8 & 0x80 == 0) <==> b / 16 <= 7
  {
  }

  /** The sniff reads nothing past the first two bytes. */
  lemma SniffReadsHeaderOnly(head: seq<byte>, rest: seq<byte>)
    requires |head| >= 2
    ensures IsCompressed(head + rest) == IsCompressed(head)
  {
    assert (head + rest)[0] == head[0] && (head + rest)[1] == head[1];
  }

  /** The default zlib header 0x78 0x9C sniffs as compressed; anything shorter than two bytes does not. */
  lemma SniffExamples(short: seq<byte>)
    requires |short| < 2
    ensures IsCompressed([0x78, 0x9C])
    ensures !IsCompressed(short)
  {
    assert (0x78 as bv8) & 0x0F == 8 && (0x78 as bv8) & 0x80 == 0;
  }

  // ---------------------------------------------------------------------
  // The big-endian 32-bit length trailer

  /** The four bytes CFSwapInt32HostToBig(UInt32(n)) stores. */
  function Be32Encode(n: nat): (r: seq<byte>)
    requires n < Two32
    ensures |r| == 4
  {
    [(n / 0x100_0000) as byte, (n / 0x1_0000 % 256) as byte,
     (n / 0x100 % 256) as byte, (n % 256) as byte]
  }

  /** The value CFSwapInt32BigToHost reads from four bytes. */
  function Be32Decode(s: seq<byte>): (n: nat)
    requires |s| == 4
    ensures n < Two32
  {
    s[0] as nat * 0x100_0000 + s[1] as nat * 0x1_0000 + s[2] as nat * 0x100 + s[3] as nat
  }

  /** Reading the trailer gives back every length the trailer can hold. */
  lemma Be32DecodeEncode(n: nat)
    requires n < Two32
    ensures Be32Decode(Be32Encode(n)) == n
  {
    var r := Be32Encode(n);
    var a, b, c, d := n / 0x100_0000, n / 0x1_0000 % 256, n / 0x100 % 256, n % 256;
    assert r[0] as nat == a && r[1] as nat == b && r[2] as nat == c && r[3] as nat == d;
    assert n / 0x100 == a * 0x1_0000 + b * 0x100 + c;
    assert n == (n / 0x100) * 0x100 + d;
  }

  /** Writing a decoded trailer reproduces its four bytes. */
  lemma Be32EncodeDecode(s: seq<byte>)
    requires |s| == 4
    ensures Be32Encode(Be32Decode(s)) == s
  {
    var n := Be32Decode(s);
    var w, x, y, z := s[0] as nat, s[1] as nat, s[2] as nat, s[3] as nat;
    assert n / 0x100 == w * 0x1_0000 + x * 0x100 + y;
    assert n / 0x1_0000 == w * 0x100 + x;
    assert n / 0x100_0000 == w;
  }

  // ---------------------------------------------------------------------
  // compress(atLevel:)

  /**
   * The destination buffer compress provisions: ceil(n * 1.001) + 12 + 4,
   * with the ceiling of the product taken in integers. It is the ceiling
   * plus 16, and it leaves zlib's documented room with 4 bytes to spare for
   * the trailer.
   */
  function CompressBufferLength(n: nat): (len: nat)
    ensures len >= 16
    ensures 1000 * (len - 16) >= 1001 * n && 1000 * (len - 17) < 1001 * n
    ensures RoomForDeflate(n, len - 4)
  {
    (1001 * n + 999) / 1000 + 12 + 4
  }

  /**
   * What compress(atLevel:) yields: the zlib stream followed by the input
   * length as a big-endian 32-bit trailer, or Halt when its assertion
   * (output within the buffer, status Z_OK) fails or the length does not
   * fit UInt32.
   */
  function Compressed(z: Zlib, data: seq<byte>, level: int): (r: Outcome<seq<byte>>)
    ensures r.Done? ==> |r.value| >= 4 && Be32Decode(r.value[|r.value| - 4..]) == |data|
    ensures r.Done? ==> |data| < Two32
    ensures ZlibContract(z) && ValidLevel(level) && |data| < Two32 ==> r.Done? && IsCompressed(r.value)
  {
    var cap := CompressBufferLength(|data|);
    var zr := z.compress2(data, level, cap);
    assert ZlibContract(z) && ValidLevel(level) ==> DeflateBehaves(z, data, level, cap);
    if !(|zr.output| <= cap && zr.status == Z_OK) then Halt
    else if |data| >= Two32 then Halt
    else
      var framed := zr.output + Be32Encode(|data|);
      assert framed[|framed| - 4..] == Be32Encode(|data|);
      Be32DecodeEncode(|data|);
      assert IsCompressed(zr.output) ==> IsCompressed(framed) by {
        if |zr.output| >= 2 { SniffReadsHeaderOnly(zr.output, Be32Encode(|data|)); }
      }
      Done(framed)
  }

  /** compress(atLevel:) over a mutable output buffer. */
  method Compress(z: Zlib, data: seq<byte>, level: int := Z_DEFAULT_COMPRESSION)
    returns (r: Outcome<seq<byte>>)
    ensures r == Compressed(z, data, level)
  {
    var bufferLength := CompressBufferLength(|data|);
    var compressedData := new byte[bufferLength](_ => 0);
    var zr := z.compress2(data, level, bufferLength);
    var compressedSize := |zr.output|;
    if !(compressedSize <= bufferLength && zr.status == Z_OK) {
      return Halt;
    }
    // compress2 fills the front of the destination buffer
    var i := 0;
    while i < compressedSize
      invariant 0 <= i <= compressedSize
      invariant compressedData[..i] == zr.output[..i]
    {
      compressedData[i] := zr.output[i];
      i := i + 1;
    }
    assert compressedData[..compressedSize] == zr.output;
    // compressedData.count = compressedSize + 4 keeps the stream and makes room for the trailer
    var framed := new byte[compressedSize + 4](_ => 0);
    i := 0;
    while i < compressedSize
      invariant 0 <= i <= compressedSize
      invariant compressedData[..compressedSize] == zr.output
      invariant framed[..i] == zr.output[..i]
    {
      framed[i] := compressedData[i];
      i := i + 1;
    }
    if |data| >= Two32 {
      return Halt;
    }
    var sizeBytes := Be32Encode(|data|);
    framed[compressedSize] := sizeBytes[0];
    framed[compressedSize + 1] := sizeBytes[1];
    framed[compressedSize + 2] := sizeBytes[2];
    framed[compressedSize + 3] := sizeBytes[3];
    assert framed[..compressedSize] == zr.output[..compressedSize] == zr.output;
    assert framed[..] == zr.output + sizeBytes;
    r := Done(framed[..]);
  }

  // ---------------------------------------------------------------------
  // decompress()

  /**
   * The compressed branch of decompress() on a buffer long enough to hold a
   * trailer: a trailer of 0 gives the empty buffer without calling zlib;
   * otherwise the stream before the trailer is inflated into exactly the
   * trailer's length, and anything else trips the assertion.
   */
  function Inflated(z: Zlib, data: seq<byte>): (r: Outcome<seq<byte>>)
    requires |data| >= 4
    ensures r.Done? ==> |r.value| == Be32Decode(data[|data| - 4..])
    ensures Be32Decode(data[|data| - 4..]) == 0 ==> r == Done([])
  {
    var uncompressedSize := Be32Decode(data[|data| - 4..]);
    if uncompressedSize == 0 then Done([])
    else
      var zr := z.uncompress(data[..|data| - 4], uncompressedSize);
      if |zr.output| == uncompressedSize && zr.status == Z_OK then Done(zr.output) else Halt
  }

  /**
   * decompress() as written: a buffer that does not sniff as compressed is
   * returned unchanged; one that does must hold at least 4 bytes, or the
   * assertion stops the process.
   */
  function DecompressedAsWritten(z: Zlib, data: seq<byte>): (r: Outcome<seq<byte>>)
    ensures !IsCompressed(data) ==> r == Done(data)
    ensures IsCompressed(data) && |data| < 4 ==> r == Halt
  {
    if !IsCompressed(data) then Done(data)
    else if |data| < 4 then Halt
    else Inflated(z, data)
  }

  /**
   * decompress() with the length check folded into the sniff: a buffer too
   * short to carry a trailer is raw data and passes through unchanged, so
   * the only way to stop is zlib failing on a buffer that does carry one.
   */
  function Decompressed(z: Zlib, data: seq<byte>): (r: Outcome<seq<byte>>)
    ensures !IsCompressed(data) || |data| < 4 ==> r == Done(data)
    ensures r == Halt ==>
      |data| >= 4 && IsCompressed(data) && Be32Decode(data[|data| - 4..]) != 0
    ensures r.Done? && IsCompressed(data) && |data| >= 4 ==>
      |r.value| == Be32Decode(data[|data| - 4..])
    ensures !(IsCompressed(data) && |data| < 4) ==> r == DecompressedAsWritten(z, data)
  {
    if !IsCompressed(data) || |data| < 4 then Done(data)
    else Inflated(z, data)
  }

  /** The compressed branch over a destination buffer sized from the trailer. */
  method Inflate(z: Zlib, data: seq<byte>) returns (r: Outcome<seq<byte>>)
    requires |data| >= 4
    ensures r == Inflated(z, data)
  {
    var uncompressedSize := Be32Decode(data[|data| - 4..]);
    if uncompressedSize == 0 {
      return Done([]);
    }
    var uncompressedData := new byte[uncompressedSize](_ => 0);
    var compressedSize := |data| - 4;
    var zr := z.uncompress(data[..compressedSize], uncompressedSize);
    var bytesWritten := |zr.output|;
    if !(bytesWritten == uncompressedSize && zr.status == Z_OK) {
      return Halt;
    }
    // uncompress fills the destination buffer
    var i := 0;
    while i < bytesWritten
      invariant 0 <= i <= bytesWritten
      invariant uncompressedData[..i] == zr.output[..i]
    {
      uncompressedData[i] := zr.output[i];
      i := i + 1;
    }
    assert uncompressedData[..] == uncompressedData[..bytesWritten] == zr.output;
    r := Done(uncompressedData[..]);
  }

  /** decompress() exactly as the source has it. */
  method DecompressAsWritten(z: Zlib, data: seq<byte>) returns (r: Outcome<seq<byte>>)
    ensures r == DecompressedAsWritten(z, data)
  {
    if IsCompressed(data) {
      if |data| < 4 {
        return Halt;
      }
      r := Inflate(z, data);
    } else {
      r := Done(data);
    }
  }

  /** decompress() with the corrected guard; the container pipeline uses this one. */
  method Decompress(z: Zlib, data: seq<byte>) returns (r: Outcome<seq<byte>>)
    ensures r == Decompressed(z, data)
  {
    if IsCompressed(data) && |data| >= 4 {
      r := Inflate(z, data);
    } else {
      r := Done(data);
    }
  }

  // ---------------------------------------------------------------------
  // Properties of the envelope

  /** Unwrapping a wrapped buffer gives the buffer back, the empty buffer included. */
  lemma CompressRoundTrip(z: Zlib, data: seq<byte>, level: int)
    requires ZlibContract(z) && ValidLevel(level)
    requires |data| < Two32
    ensures Compressed(z, data, level).Done?
    ensures Decompressed(z, Compressed(z, data, level).value) == Done(data)
    ensures DecompressedAsWritten(z, Compressed(z, data, level).value) == Done(data)
  {
    var cap := CompressBufferLength(|data|);
    assert DeflateBehaves(z, data, level, cap);
    var zr := z.compress2(data, level, cap);
    var framed := Compressed(z, data, level).value;
    assert framed == zr.output + Be32Encode(|data|);
    assert framed[..|framed| - 4] == zr.output;
    assert framed[|framed| - 4..] == Be32Encode(|data|);
    Be32DecodeEncode(|data|);
  }

  /**
   * The assertion of decompress() as written fires on a two-byte buffer that
   * sniffs as compressed, whatever zlib does; the corrected decompress
   * passes the same buffer through.
   */
  lemma ShortZlibHeaderHalts(z: Zlib)
    ensures IsCompressed([0x78, 0x01])
    ensures DecompressedAsWritten(z, [0x78, 0x01]) == Halt
    ensures Decompressed(z, [0x78, 0x01]) == Done([0x78, 0x01])
  {
    assert (0x78 as bv8) & 0x0F == 8 && (0x78 as bv8) & 0x80 == 0;
  }
}
