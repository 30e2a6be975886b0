/**
 * The formatted-digest record that the `fsverity digest --for-builtin-sig`
 * command hands to an offline signer (struct fsverity_signed_digest in
 * programs/cmd_digest.c): the ASCII magic "FSVerity", the digest algorithm
 * as a little-endian 16-bit value, the digest size as a little-endian
 * 16-bit value, then the digest bytes, with no padding anywhere.
 *
 * The C code fills a zeroed heap buffer through a struct overlay; here the
 * record is a serialisation function over byte sequences, so host byte
 * order and alignment play no part.
 */
module SignedDigest {
  import opened Wrappers

  newtype byte = x: int | 0 <= x < 0x100
  newtype u16 = x: int | 0 <= x < 0x1_0000

  /** FS_VERITY_MAX_DIGEST_SIZE: the largest digest any supported hash produces (SHA-512). */
  const MaxDigestSize: nat := 64

  /** sizeof(struct fsverity_signed_digest): 8 + 2 + 2, the flexible array adds nothing. */
  const HeaderSize: nat := 12

  /** The 8 magic bytes, "FSVerity" in ASCII, without a terminator. */
  const Magic: seq<byte> := [0x46, 0x53, 0x56, 0x65, 0x72, 0x69, 0x74, 0x79]

  /**
   * A digest as libfsverity_compute_digest returns it (struct
   * libfsverity_digest): the algorithm id and the digest bytes; its
   * digest_size field is the length of `bytes`.
   */
  datatype Digest = Digest(algorithm: u16, bytes: seq<byte>)

  /** cpu_to_le16: the low byte first, whatever the host byte order. */
  function Le16(v: u16): (r: seq<byte>)
    ensures |r| == 2
    ensures r[0] as int == v as int % 0x100 && r[1] as int == v as int / 0x100
  {
    [(v % 0x100) as byte, (v / 0x100) as byte]
  }

  /** le16_to_cpu: reads back what Le16 wrote. */
  function FromLe16(lo: byte, hi: byte): (v: u16)
    ensures Le16(v) == [lo, hi]
  {
    (lo as int + 0x100 * hi as int) as u16
  }

  /**
   * The record for a digest: magic, algorithm, size, digest bytes.
   * The digest size must fit the 16-bit size field, as libfsverity's
   * 16-bit digest_size always does.
   */
  function EncodeSignedDigest(algorithm: u16, digest: seq<byte>): (r: seq<byte>)
    requires |digest| < 0x1_0000
    ensures |r| == HeaderSize + |digest|
    ensures r[..8] == Magic
    ensures r[8] as int == algorithm as int % 0x100 && r[9] as int == algorithm as int / 0x100
    ensures r[10] as int == |digest| % 0x100 && r[11] as int == |digest| / 0x100
    ensures r[HeaderSize..] == digest
  {
    Magic + Le16(algorithm) + Le16(|digest| as u16) + digest
  }

  /**
   * Reads a record back: it must hold the magic, and its size field must
   * give exactly the number of bytes that follow the header.
   */
  function DecodeSignedDigest(s: seq<byte>): (r: Option<Digest>)
    ensures r.Some? ==> |s| == HeaderSize + |r.value.bytes| && s[..8] == Magic
  {
    if |s| < HeaderSize || s[..8] != Magic then None
    else if FromLe16(s[10], s[11]) as int != |s| - HeaderSize then None
    else Some(Digest(FromLe16(s[8], s[9]), s[HeaderSize..]))
  }

  /** Decoding an encoded record gives back the algorithm and the digest. */
  lemma DecodeEncode(algorithm: u16, digest: seq<byte>)
    requires |digest| < 0x1_0000
    ensures DecodeSignedDigest(EncodeSignedDigest(algorithm, digest)) == Some(Digest(algorithm, digest))
  {
  }

  /**
   * Every byte sequence that decodes is the encoding of what it decodes to:
   * the layout has exactly one spelling for each record.
   */
  lemma EncodeDecode(s: seq<byte>)
    requires DecodeSignedDigest(s).Some?
    ensures |DecodeSignedDigest(s).value.bytes| < 0x1_0000
    ensures EncodeSignedDigest(DecodeSignedDigest(s).value.algorithm, DecodeSignedDigest(s).value.bytes) == s
  {
  }
}
