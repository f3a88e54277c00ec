/**
 * Key derivation and cipher framing: the passphrase-to-key construction of
 * `Data.key(fromString:)` and the buffer handling of
 * `BlowfishCryptOperation`. SHA-1 (FIPS 180-4) and Blowfish-CBC with PKCS#7
 * padding (CommonCrypto's CC_SHA1 and CCCrypt) are parameters: SHA-1 is any
 * function with 20-byte results, CCCrypt any function obeying CipherContract.
 */
module Crypto {
  import opened Common

  /** kCCBlockSizeBlowfish. */
  const BlockSizeBlowfish: nat := 8
  /** CC_SHA1_DIGEST_LENGTH. */
  const Sha1DigestLength: nat := 20
  /** kCCKeySizeMinBlowfish and kCCKeySizeMaxBlowfish. */
  const KeySizeMinBlowfish: nat := 8
  const KeySizeMaxBlowfish: nat := 56
  /** kCCSuccess. */
  const kCCSuccess: int := 0
  /** kCCOptionPKCS7Padding, the default options of encrypt and decrypt. */
  const PKCS7Padding: int := 1

  /** A SHA-1 digest. */
  type Digest = s: seq<byte> | |s| == Sha1DigestLength witness seq(20, _ => 0)

  /** CC_SHA1 over a whole buffer (the sha1() extension). */
  type Sha1 = seq<byte> -> Digest

  // ---------------------------------------------------------------------
  // UTF-16 big-endian text

  /** The UTF-16BE code units of one Unicode scalar value, high byte first. */
  function Utf16BEScalar(c: char): (r: seq<byte>)
    ensures |r| == 2 || |r| == 4
    ensures |r| == 2 <==> c as int < 0x1_0000
  {
    var v := c as int;
    if v < 0x1_0000 then
      [(v / 0x100) as byte, (v % 0x100) as byte]
    else
      var u := v - 0x1_0000;
      var high := 0xD800 + u / 0x400;
      var low := 0xDC00 + u % 0x400;
      [(high / 0x100) as byte, (high % 0x100) as byte, (low / 0x100) as byte, (low % 0x100) as byte]
  }

  /** `str.data(using: .utf16BigEndian)`: the code units of every scalar, no byte-order mark. */
  function Utf16BE(str: string): (r: seq<byte>)
    ensures |r| % 2 == 0
    ensures |r| >= 2 * |str|
  {
    if str == [] then [] else Utf16BEScalar(str[0]) + Utf16BE(str[1..])
  }

  /** Reading UTF-16BE back into scalars; None for an odd length or an unpaired surrogate. */
  function Utf16BEDecode(b: seq<byte>): (r: Option<string>)
    decreases |b|
  {
    if b == [] then Some([])
    else if |b| < 2 then None
    else
      var unit := b[0] as int * 0x100 + b[1] as int;
      if unit < 0xD800 || 0xE000 <= unit then
        match Utf16BEDecode(b[2..])
        case None => None
        case Some(rest) => Some([unit as char] + rest)
      else if unit < 0xDC00 && |b| >= 4 then
        var next := b[2] as int * 0x100 + b[3] as int;
        if 0xDC00 <= next < 0xE000 then
          match Utf16BEDecode(b[4..])
          case None => None
          case Some(rest) => Some([(0x1_0000 + (unit - 0xD800) * 0x400 + (next - 0xDC00)) as char] + rest)
        else None
      else None
  }

  lemma Utf16BEScalarDecodes(c: char, tail: seq<byte>, rest: string)
    requires Utf16BEDecode(tail) == Some(rest)
    ensures Utf16BEDecode(Utf16BEScalar(c) + tail) == Some([c] + rest)
  {
    var b := Utf16BEScalar(c) + tail;
    var v := c as int;
    if v < 0x1_0000 {
      assert b[2..] == tail;
      assert b[0] as int * 0x100 + b[1] as int == v;
    } else {
      var u := v - 0x1_0000;
      var high := 0xD800 + u / 0x400;
      var low := 0xDC00 + u % 0x400;
      assert b[4..] == tail;
      assert b[0] as int * 0x100 + b[1] as int == high;
      assert b[2] as int * 0x100 + b[3] as int == low;
      assert 0x1_0000 + (high - 0xD800) * 0x400 + (low - 0xDC00) == v;
    }
  }

  /** Decoding the UTF-16BE encoding of a string gives the string back. */
  lemma {:induction false} Utf16BERoundTrip(str: string)
    ensures Utf16BEDecode(Utf16BE(str)) == Some(str)
  {
    if str != [] {
      Utf16BERoundTrip(str[1..]);
      Utf16BEScalarDecodes(str[0], Utf16BE(str[1..]), str[1..]);
      assert [str[0]] + str[1..] == str;
    }
  }

  // ---------------------------------------------------------------------
  // key(fromString:)

  /** The buffer key(fromString:) hashes: the big-endian byte-order mark 0xFE 0xFF (section 3.2 of RFC 2781), then UTF-16BE. */
  function PassphraseData(str: string): (r: seq<byte>)
    ensures |r| % 2 == 0 && |r| >= 2
    ensures r[..2] == [0xFE, 0xFF] && r[2..] == Utf16BE(str)
  {
    [0xFE, 0xFF] + Utf16BE(str)
  }

  /** key(fromString:): the SHA-1 digest of each half of the passphrase buffer, concatenated. */
  function KeyFromString(sha1: Sha1, str: string): (key: seq<byte>)
    ensures |key| == 2 * Sha1DigestLength
    ensures KeySizeMinBlowfish <= |key| <= KeySizeMaxBlowfish
  {
    var passphraseData := PassphraseData(str);
    var length := |passphraseData|;
    sha1(passphraseData[0..length / 2]) + sha1(passphraseData[length / 2..length])
  }

  /**
   * The two hashed halves have the same length and together are the whole
   * passphrase buffer; the key is the digest of the first half followed by
   * the digest of the second.
   */
  lemma KeyHalves(sha1: Sha1, str: string)
    ensures var data := PassphraseData(str);
      var half := |data| / 2;
      var key := KeyFromString(sha1, str);
      |data[..half]| == |data[half..]| == |Utf16BE(str)| / 2 + 1
      && data[..half] + data[half..] == data
      && key[..Sha1DigestLength] == sha1(data[..half])
      && key[Sha1DigestLength..] == sha1(data[half..])
  {
    var data := PassphraseData(str);
    var half := |data| / 2;
    assert data[0..half] == data[..half] && data[half..|data|] == data[half..];
  }

  /** For the empty passphrase the halves are the two byte-order-mark bytes. */
  lemma EmptyPassphraseKey(sha1: Sha1)
    ensures KeyFromString(sha1, "") == sha1([0xFE]) + sha1([0xFF])
  {
    var data := PassphraseData("");
    assert data == [0xFE, 0xFF];
    assert data[0..1] == [0xFE] && data[1..2] == [0xFF];
  }

  // ---------------------------------------------------------------------
  // BlowfishCryptOperation

  /** kCCEncrypt and kCCDecrypt. */
  datatype Operation = EncryptOperation | DecryptOperation

  /** The arguments BlowfishCryptOperation passes to CCCrypt. */
  datatype CryptCall = CryptCall(
    op: Operation, options: int, key: seq<byte>, iv: Option<seq<byte>>,
    dataIn: seq<byte>, capacity: nat)

  /** What CCCrypt reports: its status, the bytes it wrote to the front of the output buffer, and dataOutMoved. */
  datatype CryptReply = CryptReply(status: int, written: seq<byte>, moved: nat)

  /** CCCrypt with kCCAlgorithmBlowfish. */
  type CCCrypt = CryptCall -> CryptReply

  /** The (status, data) pair BlowfishCryptOperation returns. */
  datatype CryptResult = CryptResult(status: int, data: seq<byte>)

  /** A key length CCCrypt accepts for Blowfish. */
  predicate ValidKey(key: seq<byte>)
  {
    KeySizeMinBlowfish <= |key| <= KeySizeMaxBlowfish
  }

  /** An IV BlowfishCryptOperation accepts: absent, or exactly one block. */
  predicate ValidIv(iv: Option<seq<byte>>)
  {
    iv.Some? ==> |iv.value| == BlockSizeBlowfish
  }

  /** The output capacity: room for the input and one more block of PKCS#7 padding. */
  function Capacity(n: nat): (c: nat)
    ensures c % BlockSizeBlowfish == 0
    ensures n < c <= n + BlockSizeBlowfish
  {
    ((n + BlockSizeBlowfish) / BlockSizeBlowfish) * BlockSizeBlowfish
  }

  /** The capacity is the least block multiple above n, which is the PKCS#7-padded length of n bytes. */
  lemma CapacityIsPaddedLength(n: nat, m: nat)
    requires m % BlockSizeBlowfish == 0 && m > n
    ensures Capacity(n) <= m
    ensures Capacity(n) == (n / BlockSizeBlowfish + 1) * BlockSizeBlowfish
  {
    var q := n / BlockSizeBlowfish;
    assert n == q * BlockSizeBlowfish + n % BlockSizeBlowfish;
    assert (n + BlockSizeBlowfish) / BlockSizeBlowfish == q + 1;
    assert m == (m / BlockSizeBlowfish) * BlockSizeBlowfish;
    assert m / BlockSizeBlowfish >= q + 1;
  }

  /** The output buffer after CCCrypt wrote into a zeroed buffer of `capacity` bytes. */
  function Filled(capacity: nat, written: seq<byte>): (buf: seq<byte>)
    ensures |buf| == capacity
    ensures |written| <= capacity ==> buf[..|written|] == written
  {
    var n := if |written| <= capacity then |written| else capacity;
    written[..n] + Zeros(capacity - n)
  }

  /** `dataOut.count = n`: truncation, or growth with zero bytes. */
  function Resized(buf: seq<byte>, n: nat): (r: seq<byte>)
    ensures |r| == n
    ensures n <= |buf| ==> r == buf[..n]
  {
    if n <= |buf| then buf[..n] else buf + Zeros(n - |buf|)
  }

  /**
   * What BlowfishCryptOperation returns: CCCrypt's status unchanged, and the
   * output buffer cut (or grown) to the byte count CCCrypt reports.
   */
  function BlowfishCrypt(cc: CCCrypt, op: Operation, dataIn: seq<byte>, key: seq<byte>,
                         options: int, iv: Option<seq<byte>>): (r: CryptResult)
    requires ValidIv(iv)
    ensures var reply := cc(CryptCall(op, options, key, iv, dataIn, Capacity(|dataIn|)));
      r.status == reply.status && |r.data| == reply.moved
      && (reply.moved <= |reply.written| <= Capacity(|dataIn|) ==> r.data == reply.written[..reply.moved])
  {
    var capacity := Capacity(|dataIn|);
    var reply := cc(CryptCall(op, options, key, iv, dataIn, capacity));
    CryptResult(reply.status, Resized(Filled(capacity, reply.written), reply.moved))
  }

  /** BlowfishCryptOperation over a mutable output buffer. */
  method BlowfishCryptOperation(cc: CCCrypt, operation: Operation, dataIn: seq<byte>, key: seq<byte>,
                                options: int := PKCS7Padding, iv: Option<seq<byte>> := None)
    returns (status: int, dataOut: seq<byte>)
    requires ValidIv(iv)
    ensures CryptResult(status, dataOut) == BlowfishCrypt(cc, operation, dataIn, key, options, iv)
  {
    var capacity := ((|dataIn| + BlockSizeBlowfish) / BlockSizeBlowfish) * BlockSizeBlowfish;
    var buffer := new byte[capacity](_ => 0);
    var reply := cc(CryptCall(operation, options, key, iv, dataIn, capacity));
    // CCCrypt writes its output to the front of the buffer, never past capacity
    var n := if |reply.written| <= capacity then |reply.written| else capacity;
    var i := 0;
    while i < n
      invariant 0 <= i <= n
      invariant buffer[..i] == reply.written[..i]
      invariant forall k :: n <= k < capacity ==> buffer[k] == 0
    {
      buffer[i] := reply.written[i];
      i := i + 1;
    }
    assert buffer[..] == Filled(capacity, reply.written);
    // dataOut.count = dataOutMoved
    if reply.moved <= capacity {
      dataOut := buffer[..reply.moved];
    } else {
      dataOut := buffer[..] + Zeros(reply.moved - capacity);
    }
    status := reply.status;
  }

  /** Data.encrypt(withKey:iv:options:). */
  method Encrypt(cc: CCCrypt, data: seq<byte>, key: seq<byte>, iv: Option<seq<byte>> := None,
                 options: int := PKCS7Padding)
    returns (status: int, encrypted: seq<byte>)
    requires ValidIv(iv)
    ensures CryptResult(status, encrypted) == BlowfishCrypt(cc, EncryptOperation, data, key, options, iv)
  {
    status, encrypted := BlowfishCryptOperation(cc, EncryptOperation, data, key, options, iv);
  }

  /** Data.decrypt(withKey:iv:options:). */
  method Decrypt(cc: CCCrypt, data: seq<byte>, key: seq<byte>, iv: Option<seq<byte>> := None,
                 options: int := PKCS7Padding)
    returns (status: int, decrypted: seq<byte>)
    requires ValidIv(iv)
    ensures CryptResult(status, decrypted) == BlowfishCrypt(cc, DecryptOperation, data, key, options, iv)
  {
    status, decrypted := BlowfishCryptOperation(cc, DecryptOperation, data, key, options, iv);
  }

  // ---------------------------------------------------------------------
  // The cipher's contract and the round trip

  /**
   * What the container relies on from Blowfish-CBC with PKCS#7 padding: for a
   * valid key and IV, encryption into a padded-length buffer succeeds and
   * fills it exactly (PKCS#7 output is the padded length), and decrypting those bytes with the
   * same key and IV succeeds and writes back the plaintext.
   */
  ghost predicate CipherContract(cc: CCCrypt)
  {
    forall key, iv, plain | ValidKey(key) && ValidIv(iv) :: CbcRoundTrips(cc, key, iv, plain)
  }

  ghost predicate CbcRoundTrips(cc: CCCrypt, key: seq<byte>, iv: Option<seq<byte>>, plain: seq<byte>)
  {
    var e := cc(CryptCall(EncryptOperation, PKCS7Padding, key, iv, plain, Capacity(|plain|)));
    e.status == kCCSuccess && e.moved == |e.written| == Capacity(|plain|)
    && cc(CryptCall(DecryptOperation, PKCS7Padding, key, iv, e.written, Capacity(|e.written|)))
       == CryptReply(kCCSuccess, plain, |plain|)
  }

  /** Decrypting an encryption under the same key and IV returns the original, through the buffer framing. */
  lemma CryptRoundTrip(cc: CCCrypt, key: seq<byte>, iv: Option<seq<byte>>, plain: seq<byte>)
    requires CipherContract(cc) && ValidKey(key) && ValidIv(iv)
    ensures var e := BlowfishCrypt(cc, EncryptOperation, plain, key, PKCS7Padding, iv);
      e.status == kCCSuccess
      && BlowfishCrypt(cc, DecryptOperation, e.data, key, PKCS7Padding, iv) == CryptResult(kCCSuccess, plain)
  {
    assert CbcRoundTrips(cc, key, iv, plain);
    var reply := cc(CryptCall(EncryptOperation, PKCS7Padding, key, iv, plain, Capacity(|plain|)));
    var e := BlowfishCrypt(cc, EncryptOperation, plain, key, PKCS7Padding, iv);
    assert reply.written[..reply.moved] == reply.written;
    assert e.data == reply.written;
    var d := cc(CryptCall(DecryptOperation, PKCS7Padding, key, iv, e.data, Capacity(|e.data|)));
    assert d.written[..d.moved] == plain;
  }
}
