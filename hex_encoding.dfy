/**
 * bin2hex as the digest command uses it: every byte becomes two lower-case
 * hexadecimal digits, high nibble first, with no separators, and the text
 * is NUL-terminated inside the caller's fixed `digest_hex` buffer.
 */
module HexEncoding {
  import opened Wrappers
  import opened SignedDigest

  const HexDigits: string := "0123456789abcdef"

  /** The NUL that ends the C string in digest_hex. */
  const Nul: char := 0 as char

  /**
   * char digest_hex[FS_VERITY_MAX_DIGEST_SIZE * 2 +
   *                 sizeof(struct fsverity_signed_digest) * 2 + 1]
   */
  const HexBufferLen: nat := MaxDigestSize * 2 + HeaderSize * 2 + 1

  function HexDigit(n: nat): char
    requires n < 16
  {
    HexDigits[n]
  }

  /** The value of one lower-case hex digit; anything else is not a digit. */
  function HexValue(c: char): (r: Option<nat>)
    ensures r.Some? ==> r.value < 16 && HexDigit(r.value) == c
  {
    if '0' <= c <= '9' then Some(c as int - '0' as int)
    else if 'a' <= c <= 'f' then Some(c as int - 'a' as int + 10)
    else None
  }

  /** The hex text of a byte string. */
  function Hex(bin: seq<byte>): (r: string)
    ensures |r| == 2 * |bin|
  {
    if bin == [] then []
    else [HexDigit(bin[0] as int / 16), HexDigit(bin[0] as int % 16)] + Hex(bin[1..])
  }

  /** Byte i of the input becomes characters 2i (high nibble) and 2i+1 (low nibble). */
  lemma {:induction false} HexAt(bin: seq<byte>, i: nat)
    requires i < |bin|
    ensures Hex(bin)[2 * i] == HexDigit(bin[i] as int / 16)
    ensures Hex(bin)[2 * i + 1] == HexDigit(bin[i] as int % 16)
  {
    if i > 0 {
      var tail := bin[1..];
      HexAt(tail, i - 1);
      assert Hex(bin) == [HexDigit(bin[0] as int / 16), HexDigit(bin[0] as int % 16)] + Hex(tail);
      assert bin[i] == tail[i - 1];
    }
  }

  /** Reads hex text back into bytes; odd length or a non-digit fails. */
  function Unhex(s: string): (r: Option<seq<byte>>)
    decreases |s|
  {
    if s == [] then Some([])
    else if |s| == 1 then None
    else match (HexValue(s[0]), HexValue(s[1]), Unhex(s[2..]))
      case (Some(hi), Some(lo), Some(rest)) => Some([(hi * 16 + lo) as byte] + rest)
      case _ => None
  }

  lemma {:induction false} HexAppend(a: seq<byte>, b: seq<byte>)
    ensures Hex(a + b) == Hex(a) + Hex(b)
  {
    if a != [] {
      var c := a[0] as int;
      assert (a + b)[0] == a[0] && (a + b)[1..] == a[1..] + b;
      HexAppend(a[1..], b);
      calc {
        Hex(a + b);
        [HexDigit(c / 16), HexDigit(c % 16)] + Hex(a[1..] + b);
        [HexDigit(c / 16), HexDigit(c % 16)] + (Hex(a[1..]) + Hex(b));
        ([HexDigit(c / 16), HexDigit(c % 16)] + Hex(a[1..])) + Hex(b);
        Hex(a) + Hex(b);
      }
    } else {
      assert a + b == b;
    }
  }

  lemma HexValueOfDigit(n: nat)
    requires n < 16
    ensures HexValue(HexDigit(n)) == Some(n)
  {
  }

  /** Hex loses nothing: Unhex recovers the bytes. */
  lemma {:induction false} UnhexHex(bin: seq<byte>)
    ensures Unhex(Hex(bin)) == Some(bin)
  {
    if bin != [] {
      var b := bin[0] as int;
      var hi, lo := b / 16, b % 16;
      var tail := Hex(bin[1..]);
      var h := [HexDigit(hi), HexDigit(lo)] + tail;
      assert Hex(bin) == h;
      assert h[0] == HexDigit(hi) && h[1] == HexDigit(lo) && h[2..] == tail;
      HexValueOfDigit(hi);
      HexValueOfDigit(lo);
      UnhexHex(bin[1..]);
      assert Unhex(h) == Some([(hi * 16 + lo) as byte] + bin[1..]);
      assert (hi * 16 + lo) as byte == bin[0];
      assert [bin[0]] + bin[1..] == bin;
    }
  }

  /** Hex text holds hex digits only, so never a separator of an output line. */
  lemma HexDigitsOnly(bin: seq<byte>)
    ensures forall c :: c in Hex(bin) ==> c in HexDigits
    ensures ' ' !in Hex(bin) && ':' !in Hex(bin) && Nul !in Hex(bin)
  {
  }

  /**
   * In --for-builtin-sig mode the printed hex is the hex of the magic
   * (bytes 0-7 of the record), of the algorithm and of the size (bytes 8-9
   * and 10-11, low byte first), 24 digits in all, then the hex of the digest.
   */
  lemma {:induction false} SignedDigestHex(algorithm: u16, digest: seq<byte>)
    requires |digest| < 0x1_0000
    ensures var r := EncodeSignedDigest(algorithm, digest);
            Hex(r) == Hex(r[..8]) + Hex(r[8..10]) + Hex(r[10..HeaderSize]) + Hex(digest)
  {
    var r := EncodeSignedDigest(algorithm, digest);
    assert r == r[..8] + r[8..10] + r[10..HeaderSize] + digest;
    HexAppend(r[..8] + r[8..10] + r[10..HeaderSize], digest);
    HexAppend(r[..8] + r[8..10], r[10..HeaderSize]);
    HexAppend(r[..8], r[8..10]);
  }

  /**
   * Whatever bin2hex is given in the digest command (a raw digest or a
   * signed-digest record of a digest within FS_VERITY_MAX_DIGEST_SIZE),
   * its hex text and terminator fit digest_hex.
   */
  lemma HexFitsBuffer(digest: seq<byte>, forBuiltinSig: bool)
    requires |digest| <= MaxDigestSize
    ensures 2 * (if forBuiltinSig then HeaderSize + |digest| else |digest|) + 1 <= HexBufferLen
  {
  }

  /**
   * bin2hex(bin, bin_len, hex): writes Hex(bin) at the front of `hex`,
   * then a NUL; the rest of the buffer is left as it was.
   */
  method Bin2Hex(bin: seq<byte>, hex: array<char>)
    requires 2 * |bin| + 1 <= hex.Length
    modifies hex
    ensures hex[..2 * |bin|] == Hex(bin)
    ensures hex[2 * |bin|] == Nul
    ensures forall k :: 2 * |bin| < k < hex.Length ==> hex[k] == old(hex[k])
  {
    var i := 0;
    while i < |bin|
      invariant 0 <= i <= |bin|
      invariant forall j :: 0 <= j < i ==>
                  hex[2 * j] == HexDigit(bin[j] as int / 16) && hex[2 * j + 1] == HexDigit(bin[j] as int % 16)
      invariant forall k :: 2 * i <= k < hex.Length ==> hex[k] == old(hex[k])
    {
      hex[2 * i] := HexDigits[bin[i] as int / 16];
      hex[2 * i + 1] := HexDigits[bin[i] as int % 16];
      i := i + 1;
    }
    hex[2 * |bin|] := Nul;
    var h := Hex(bin);
    forall k | 0 <= k < 2 * |bin| ensures hex[k] == h[k] {
      var j := k / 2;
      assert k == 2 * j || k == 2 * j + 1;
      HexAt(bin, j);
    }
  }
}
