/** The hexadecimal encoders of `EncryptionUtils` (both copies of the file are
    the same code): `byteToStr`, which renders cipher bytes, and the MD5 hex
    loop that renders a 16-byte digest. The AES cipher and the MD5 digest
    themselves are foreign calls; their bytes are inputs here. */
module Hex {
  import opened Wrappers

  /** A Kotlin `Byte`: signed, two's complement. */
  newtype SByte = x: int | -128 <= x < 128

  const LowerDigits: string := "0123456789abcdef"
  const UpperDigits: string := "0123456789ABCDEF"

  /** `b.toInt() and 255`: the byte read as an unsigned number. */
  function Unsigned(b: SByte): (u: int)
    ensures 0 <= u < 256
    ensures (u - b as int) % 256 == 0
  {
    if b < 0 then b as int + 256 else b as int
  }

  /** `Integer.toHexString(u)` for `0 <= u < 256`: lower-case, no leading zero. */
  function ToHexString(u: int): string
    requires 0 <= u < 256
  {
    if u < 16 then [LowerDigits[u]] else [LowerDigits[u / 16], LowerDigits[u % 16]]
  }

  /** `Char.toUpperCase()` on the ASCII letters. */
  function UpperChar(c: char): char
  {
    if 'a' <= c <= 'z' then (c as int - 32) as char else c
  }

  /** `String.toUpperCase()`, character by character. */
  function UpperCase(s: string): (r: string)
    ensures |r| == |s|
    ensures forall i :: 0 <= i < |s| ==> r[i] == UpperChar(s[i])
  {
    if |s| == 0 then "" else [UpperChar(s[0])] + UpperCase(s[1..])
  }

  /** One byte as `byteToStr` writes it: hex string of `b and 255`, '0'
      prepended when it is one character long, upper-cased. */
  function WrittenChunk(b: SByte): string
  {
    var h := ToHexString(Unsigned(b));
    UpperCase(if |h| == 1 then "0" + h else h)
  }

  /** The two upper-case hex digits of `b and 255`, high nibble first. */
  function Chunk(b: SByte): (r: string)
    ensures |r| == 2
  {
    [UpperDigits[Unsigned(b) / 16], UpperDigits[Unsigned(b) % 16]]
  }

  lemma UpperDigitOfLower(k: int)
    requires 0 <= k < 16
    ensures UpperChar(LowerDigits[k]) == UpperDigits[k]
  {
  }

  /** What the source writes for a byte is exactly its two upper-case hex
      digits: the padding makes every chunk two characters long. */
  lemma ChunkDigits(b: SByte)
    ensures WrittenChunk(b) == Chunk(b)
  {
    var u := Unsigned(b);
    UpperDigitOfLower(u / 16);
    UpperDigitOfLower(u % 16);
    if u < 16 {
      assert "0"[0] == LowerDigits[0];
    }
  }

  /** The whole `byteToStr` output: chunks in input order. */
  function HexEncode(bytes: seq<SByte>): string
  {
    if |bytes| == 0 then "" else HexEncode(bytes[..|bytes| - 1]) + Chunk(bytes[|bytes| - 1])
  }

  /** `byteToStr`: a StringBuilder loop over the array. */
  method ByteToStr(bArr: array<SByte>) returns (r: string)
    ensures r == HexEncode(bArr[..])
  {
    var sb := "";
    for k := 0 to bArr.Length
      invariant sb == HexEncode(bArr[..k])
    {
      var b := bArr[k];
      var hexString := ToHexString(Unsigned(b));
      if |hexString| == 1 {
        var sb2 := "0" + hexString;
        hexString := sb2;
      }
      sb := sb + UpperCase(hexString);
      ChunkDigits(b);
      assert bArr[..k + 1][..k] == bArr[..k];
    }
    assert bArr[..bArr.Length] == bArr[..];
    r := sb;
  }

  /** Encoding is a homomorphism: bytes are rendered in input order. */
  lemma {:induction false} HexEncodeAppend(a: seq<SByte>, b: seq<SByte>)
    ensures HexEncode(a + b) == HexEncode(a) + HexEncode(b)
    decreases |b|
  {
    if |b| == 0 {
      assert a + b == a;
    } else {
      var init := b[..|b| - 1];
      var last := b[|b| - 1];
      assert b == init + [last];
      assert a + b == (a + init) + [last];
      HexEncodeAppend(a, init);
      HexEncodeSnoc(a + init, last);
      HexEncodeSnoc(init, last);
      var x, y, z := HexEncode(a), HexEncode(init), Chunk(last);
      assert (x + y) + z == x + (y + z);
    }
  }

  /** Encoding one more byte appends its two digits. */
  lemma HexEncodeSnoc(s: seq<SByte>, b: SByte)
    ensures HexEncode(s + [b]) == HexEncode(s) + Chunk(b)
  {
    var t := s + [b];
    assert t[..|t| - 1] == s && t[|t| - 1] == b;
  }

  /** The output is twice as long as the input, and characters 2k and 2k+1
      are the high and low upper-case hex digits of byte k. */
  lemma {:induction false} HexEncodeAt(bytes: seq<SByte>)
    ensures |HexEncode(bytes)| == 2 * |bytes|
    ensures forall k :: 0 <= k < |bytes| ==>
      HexEncode(bytes)[2 * k] == UpperDigits[Unsigned(bytes[k]) / 16] &&
      HexEncode(bytes)[2 * k + 1] == UpperDigits[Unsigned(bytes[k]) % 16]
    decreases |bytes|
  {
    if |bytes| > 0 {
      var init, last := bytes[..|bytes| - 1], bytes[|bytes| - 1];
      HexEncodeAt(init);
      var e := HexEncode(bytes);
      assert e == HexEncode(init) + Chunk(last);
      forall k | 0 <= k < |bytes|
        ensures e[2 * k] == UpperDigits[Unsigned(bytes[k]) / 16] && e[2 * k + 1] == UpperDigits[Unsigned(bytes[k]) % 16]
      {
        if k < |init| {
          assert bytes[k] == init[k];
        } else {
          assert bytes[k] == last;
        }
      }
    }
  }

  /** Only the sixteen characters 0-9 and A-F ever appear. */
  lemma HexEncodeAlphabet(bytes: seq<SByte>)
    ensures forall i :: 0 <= i < |HexEncode(bytes)| ==> HexEncode(bytes)[i] in UpperDigits
  {
    HexEncodeAt(bytes);
    forall i | 0 <= i < |HexEncode(bytes)|
      ensures HexEncode(bytes)[i] in UpperDigits
    {
      var k := i / 2;
      assert i == 2 * k || i == 2 * k + 1;
    }
  }

  /** Reading one upper-case hex digit back. */
  function HexDigitValue(c: char): (v: int)
    ensures -1 <= v < 16
  {
    if '0' <= c <= '9' then c as int - '0' as int
    else if 'A' <= c <= 'F' then c as int - 'A' as int + 10
    else -1
  }

  /** The inverse of `Unsigned`. */
  function Signed(u: int): SByte
    requires 0 <= u < 256
  {
    if u >= 128 then (u - 256) as SByte else u as SByte
  }

  /** A decoder for the encoding, used to state that it loses nothing: pairs of
      digits are read back from the end, as the encoder writes them. */
  function HexDecode(s: string): Option<seq<SByte>>
    decreases |s|
  {
    if |s| == 0 then Some([])
    else if |s| == 1 then None
    else
      var hi, lo := HexDigitValue(s[|s| - 2]), HexDigitValue(s[|s| - 1]);
      if hi < 0 || lo < 0 then None
      else match HexDecode(s[..|s| - 2])
        case None => None
        case Some(init) => Some(init + [Signed(hi * 16 + lo)])
  }

  lemma UpperDigitValue(k: int)
    requires 0 <= k < 16
    ensures HexDigitValue(UpperDigits[k]) == k
  {
  }

  /** Decoding two more digits appends the byte they spell. */
  lemma HexDecodePair(t: string, hi: char, lo: char)
    requires HexDigitValue(hi) >= 0 && HexDigitValue(lo) >= 0
    ensures HexDecode(t + [hi, lo]) == match HexDecode(t)
      case None => None
      case Some(init) => Some(init + [Signed(HexDigitValue(hi) * 16 + HexDigitValue(lo))])
  {
    var s := t + [hi, lo];
    assert s[..|s| - 2] == t;
  }

  /** Decoding `byteToStr`'s output gives back the bytes. */
  lemma {:induction false} HexRoundTrip(bytes: seq<SByte>)
    ensures HexDecode(HexEncode(bytes)) == Some(bytes)
    decreases |bytes|
  {
    if |bytes| > 0 {
      var init, last := bytes[..|bytes| - 1], bytes[|bytes| - 1];
      var u := Unsigned(last);
      var hi, lo := UpperDigits[u / 16], UpperDigits[u % 16];
      assert HexEncode(bytes) == HexEncode(init) + [hi, lo];
      HexRoundTrip(init);
      UpperDigitValue(u / 16);
      UpperDigitValue(u % 16);
      HexDecodePair(HexEncode(init), hi, lo);
      assert Signed(HexDigitValue(hi) * 16 + HexDigitValue(lo)) == last by {
        assert HexDigitValue(hi) * 16 + HexDigitValue(lo) == u;
      }
      assert init + [last] == bytes;
    }
  }

  /** The MD5 hex loop: two characters per digest byte, written through the
      index variables of the source, then the whole string upper-cased. */
  method Md5Hex(digest: array<SByte>) returns (r: string)
    requires digest.Length == 16
    ensures |r| == 32
    ensures forall k :: 0 <= k < 16 ==>
      r[2 * k] == UpperDigits[Unsigned(digest[k]) / 16] &&
      r[2 * k + 1] == UpperDigits[Unsigned(digest[k]) % 16]
    ensures r == HexEncode(digest[..])
  {
    var cArr2 := new char[32];
    var i := 0;
    for i2 := 0 to 16
      invariant i == 2 * i2
      invariant forall k :: 0 <= k < i2 ==>
        cArr2[2 * k] == LowerDigits[Unsigned(digest[k]) / 16] &&
        cArr2[2 * k + 1] == LowerDigits[Unsigned(digest[k]) % 16]
    {
      var b := digest[i2];
      var i3 := i + 1;
      cArr2[i] := LowerDigits[Unsigned(b) / 16];
      i := i3 + 1;
      cArr2[i3] := LowerDigits[Unsigned(b) % 16];
    }
    r := UpperCase(cArr2[..]);
    forall k | 0 <= k < 16
      ensures r[2 * k] == UpperDigits[Unsigned(digest[k]) / 16]
      ensures r[2 * k + 1] == UpperDigits[Unsigned(digest[k]) % 16]
    {
      UpperDigitOfLower(Unsigned(digest[k]) / 16);
      UpperDigitOfLower(Unsigned(digest[k]) % 16);
    }
    DigitPairsAreHexEncode(r, digest[..]);
  }

  /** A string holding the two digits of each byte in turn is the encoding. */
  lemma DigitPairsAreHexEncode(r: string, bytes: seq<SByte>)
    requires |r| == 2 * |bytes|
    requires forall k :: 0 <= k < |bytes| ==>
      r[2 * k] == UpperDigits[Unsigned(bytes[k]) / 16] && r[2 * k + 1] == UpperDigits[Unsigned(bytes[k]) % 16]
    ensures r == HexEncode(bytes)
  {
    HexEncodeAt(bytes);
    var e := HexEncode(bytes);
    forall k | 0 <= k < |bytes| ensures r[2 * k] == e[2 * k] && r[2 * k + 1] == e[2 * k + 1] {
    }
    PairwiseEqual(r, e, |bytes|);
  }

  lemma PairwiseEqual(r: string, e: string, n: nat)
    requires |r| == |e| == 2 * n
    requires forall k :: 0 <= k < n ==> r[2 * k] == e[2 * k] && r[2 * k + 1] == e[2 * k + 1]
    ensures r == e
  {
    forall i | 0 <= i < |r| ensures r[i] == e[i] {
      var k := i / 2;
      assert 0 <= k < n && (i == 2 * k || i == 2 * k + 1);
    }
  }

  /** `aes`: the cipher's output bytes rendered by `byteToStr`, or "" when the
      key is null or the cipher throws (the catch-all of the source). */
  function Aes(key: Option<string>, cipherBytes: Option<seq<SByte>>): (r: string)
    ensures key.None? || cipherBytes.None? ==> r == ""
    ensures key.Some? && cipherBytes.Some? ==> |r| == 2 * |cipherBytes.value|
  {
    if key.None? || cipherBytes.None? then ""
    else
      HexEncodeAt(cipherBytes.value);
      HexEncode(cipherBytes.value)
  }

  /** `encrypt`: null exactly when URL-encoding the input fails; otherwise
      what `aes` returns for the URL-encoded text. */
  function Encrypt(urlEncoded: Option<string>, key: Option<string>, cipherBytes: Option<seq<SByte>>): (r: Option<string>)
    ensures r.None? <==> urlEncoded.None?
    ensures r.Some? ==> r.value == Aes(key, cipherBytes)
  {
    if urlEncoded.None? then None else Some(Aes(key, cipherBytes))
  }
}
