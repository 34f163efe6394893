/** `Buffer.toString("base64url")`: the URL- and filename-safe base64 alphabet of
    section 5 of RFC 4648, without `=` padding (server.js:159), together with the
    decoder a consumer of the token applies. */
module Base64Url {
  import opened Wrappers

  type byte = bv8

  /** The 64 characters of the URL-safe alphabet: `A-Z`, `a-z`, `0-9`, `-`, `_`. */
  predicate IsUrlSafeChar(c: char) {
    'A' <= c <= 'Z' || 'a' <= c <= 'z' || '0' <= c <= '9' || c == '-' || c == '_'
  }

  /** The character for a 6-bit value. */
  function Char(v: byte): (c: char)
    requires v < 64
    ensures IsUrlSafeChar(c)
  {
    CharOf(v as int)
  }

  function CharOf(n: int): (c: char)
    requires 0 <= n < 64
    ensures IsUrlSafeChar(c)
  {
    if n < 26 then ('A' as int + n) as char
    else if n < 52 then ('a' as int + n - 26) as char
    else if n < 62 then ('0' as int + n - 52) as char
    else if n == 62 then '-'
    else '_'
  }

  function ValueOf(c: char): (n: int)
    requires IsUrlSafeChar(c)
    ensures 0 <= n < 64 && CharOf(n) == c
  {
    if 'A' <= c <= 'Z' then c as int - 'A' as int
    else if 'a' <= c <= 'z' then c as int - 'a' as int + 26
    else if '0' <= c <= '9' then c as int - '0' as int + 52
    else if c == '-' then 62
    else 63
  }

  /** The 6-bit value of an alphabet character. */
  function Value(c: char): (v: byte)
    requires IsUrlSafeChar(c)
    ensures v < 64
  {
    ValueOf(c) as byte
  }

  lemma ValueChar(v: byte)
    requires v < 64
    ensures Value(Char(v)) == v
  {
    var n := v as int;
    assert ValueOf(CharOf(n)) == n;
  }

  /** Three bytes as four characters. */
  function EncodeGroup(a: byte, b: byte, c: byte): string {
    [Char(a >> 2), Char(((a & 3) << 4) | (b >> 4)), Char(((b & 15) << 2) | (c >> 6)), Char(c & 63)]
  }

  /** The bytes left over at the end: one byte as two characters, two as three,
      the unused low bits zero and no padding. */
  function EncodeTail(t: seq<byte>): string
    requires |t| < 3
  {
    if |t| == 0 then ""
    else if |t| == 1 then [Char(t[0] >> 2), Char((t[0] & 3) << 4)]
    else [Char(t[0] >> 2), Char(((t[0] & 3) << 4) | (t[1] >> 4)), Char((t[1] & 15) << 2)]
  }

  /** `Buffer.from(bytes).toString("base64url")`. */
  function Encode(bytes: seq<byte>): (s: string)
    ensures |s| == (4 * |bytes| + 2) / 3
    ensures forall k :: 0 <= k < |s| ==> IsUrlSafeChar(s[k])
    decreases |bytes|
  {
    if |bytes| < 3 then EncodeTail(bytes)
    else EncodeGroup(bytes[0], bytes[1], bytes[2]) + Encode(bytes[3..])
  }

  /** Four characters back to three bytes. */
  function DecodeGroup(s: string): seq<byte>
    requires |s| == 4 && forall k :: 0 <= k < 4 ==> IsUrlSafeChar(s[k])
  {
    var v0, v1, v2, v3 := Value(s[0]), Value(s[1]), Value(s[2]), Value(s[3]);
    [(v0 << 2) | (v1 >> 4), ((v1 & 15) << 4) | (v2 >> 2), ((v2 & 3) << 6) | v3]
  }

  /** Two or three final characters back to one or two bytes. */
  function DecodeTail(s: string): seq<byte>
    requires |s| == 0 || |s| == 2 || |s| == 3
    requires forall k :: 0 <= k < |s| ==> IsUrlSafeChar(s[k])
  {
    if |s| == 0 then []
    else
      var v0, v1 := Value(s[0]), Value(s[1]);
      if |s| == 2 then [(v0 << 2) | (v1 >> 4)]
      else [(v0 << 2) | (v1 >> 4), ((v1 & 15) << 4) | (Value(s[2]) >> 2)]
  }

  /** Unpadded base64url decoding: `None` for a character outside the alphabet
      or a length that leaves a single character over. */
  function Decode(s: string): Option<seq<byte>>
    decreases |s|
  {
    if exists k :: 0 <= k < |s| && !IsUrlSafeChar(s[k]) then None
    else if |s| < 4 then
      if |s| == 1 then None else Some(DecodeTail(s))
    else
      match Decode(s[4..])
      case None => None
      case Some(rest) => Some(DecodeGroup(s[..4]) + rest)
  }

  lemma GroupRoundTrip(a: byte, b: byte, c: byte)
    ensures DecodeGroup(EncodeGroup(a, b, c)) == [a, b, c]
  {
    ValueChar(a >> 2);
    ValueChar(((a & 3) << 4) | (b >> 4));
    ValueChar(((b & 15) << 2) | (c >> 6));
    ValueChar(c & 63);
  }

  lemma TailRoundTrip(t: seq<byte>)
    requires |t| < 3
    ensures DecodeTail(EncodeTail(t)) == t
  {
    if |t| >= 1 {
      ValueChar(t[0] >> 2);
      if |t| == 1 {
        ValueChar((t[0] & 3) << 4);
      } else {
        ValueChar(((t[0] & 3) << 4) | (t[1] >> 4));
        ValueChar((t[1] & 15) << 2);
      }
    }
  }

  /** Decoding undoes encoding, for every byte string. */
  lemma {:induction false} RoundTrip(bytes: seq<byte>)
    ensures Decode(Encode(bytes)) == Some(bytes)
    decreases |bytes|
  {
    var s := Encode(bytes);
    if |bytes| < 3 {
      TailRoundTrip(bytes);
    } else {
      var g := EncodeGroup(bytes[0], bytes[1], bytes[2]);
      RoundTrip(bytes[3..]);
      GroupRoundTrip(bytes[0], bytes[1], bytes[2]);
      assert s[..4] == g && s[4..] == Encode(bytes[3..]);
      assert bytes == [bytes[0], bytes[1], bytes[2]] + bytes[3..];
    }
  }

  // ---------------------------------------------------------------------------
  // Test vectors of section 10 of RFC 4648, in the URL-safe alphabet and
  // without padding

  lemma EncodeVectorsShort()
    ensures Encode([]) == ""
    ensures Encode([0x66]) == "Zg"
    ensures Encode([0x66, 0x6f]) == "Zm8"
  {
  }

  lemma EncodeVectorsOneGroup()
    ensures Encode([0x66, 0x6f, 0x6f]) == "Zm9v"
    ensures Encode([0x66, 0x6f, 0x6f, 0x62]) == "Zm9vYg"
  {
  }

  lemma EncodeVectorsTwoGroups()
    ensures Encode([0x66, 0x6f, 0x6f, 0x62, 0x61]) == "Zm9vYmE"
    ensures Encode([0x66, 0x6f, 0x6f, 0x62, 0x61, 0x72]) == "Zm9vYmFy"
  {
  }

  /** The two characters that differ from the standard alphabet: 62 is `-` and
      63 is `_`. */
  lemma EncodeVectorUrlSafe()
    ensures Encode([0xfb, 0xff]) == "-_8"
  {
  }
}
