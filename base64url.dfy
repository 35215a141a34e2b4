/**
 * The "URL and Filename safe" Base 64 encoding of section 5 of RFC 4648, without the
 * '=' padding (what `Base64.getUrlEncoder().withoutPadding()` produces), together with
 * its inverse, which shows that the encoding loses nothing.
 */
module Base64Url {
  import opened Wrappers

  /** An octet. */
  type byte = x: int | 0 <= x < 256

  /** A 6-bit group; one output character carries one sextet. */
  type sextet = x: int | 0 <= x < 64

  /** The 64 characters of the URL-safe alphabet: A-Z, a-z, 0-9, '-' and '_'. */
  predicate IsUrlSafe(c: char) {
    ('A' <= c <= 'Z') || ('a' <= c <= 'z') || ('0' <= c <= '9') || c == '-' || c == '_'
  }

  /** The value of an alphabet character, or None for any other character. */
  function SextetOf(c: char): (r: Option<sextet>)
    ensures r.Some? <==> IsUrlSafe(c)
  {
    if 'A' <= c <= 'Z' then Some(c as int - 'A' as int)
    else if 'a' <= c <= 'z' then Some(c as int - 'a' as int + 26)
    else if '0' <= c <= '9' then Some(c as int - '0' as int + 52)
    else if c == '-' then Some(62)
    else if c == '_' then Some(63)
    else None
  }

  /** Table 2 of RFC 4648: the character that encodes a sextet. */
  function CharOf(s: sextet): char {
    if s < 26 then ('A' as int + s) as char
    else if s < 52 then ('a' as int + (s - 26)) as char
    else if s < 62 then ('0' as int + (s - 52)) as char
    else if s == 62 then '-'
    else '_'
  }

  /** Every sextet is encoded by an alphabet character, whose value is that sextet. */
  lemma CharOfSextet(s: sextet)
    ensures IsUrlSafe(CharOf(s)) && SextetOf(CharOf(s)) == Some(s)
  {
  }

  /** Number of characters of the unpadded encoding of n octets: 4 per full group of 3,
      plus 2 for a trailing octet, plus 3 for two trailing octets. */
  function EncodedLength(n: nat): nat {
    (4 * n + 2) / 3
  }

  /** The four characters encoding one full group of three octets. */
  function EncodeGroup(b0: byte, b1: byte, b2: byte): (r: string)
    ensures |r| == 4
  {
    [CharOf(b0 / 4), CharOf((b0 % 4) * 16 + b1 / 16), CharOf((b1 % 16) * 4 + b2 / 64), CharOf(b2 % 64)]
  }

  /** A group's four characters are in the alphabet. */
  lemma GroupIsUrlSafe(b0: byte, b1: byte, b2: byte)
    ensures forall i :: 0 <= i < 4 ==> IsUrlSafe(EncodeGroup(b0, b1, b2)[i])
  {
    CharOfSextet(b0 / 4);
    CharOfSextet((b0 % 4) * 16 + b1 / 16);
    CharOfSextet((b1 % 16) * 4 + b2 / 64);
    CharOfSextet(b2 % 64);
  }

  /** The two or three characters encoding a final one or two octets (none for none). */
  function EncodeTail(b: seq<byte>): string
    requires |b| < 3
  {
    if |b| == 0 then ""
    else if |b| == 1 then [CharOf(b[0] / 4), CharOf((b[0] % 4) * 16)]
    else [CharOf(b[0] / 4), CharOf((b[0] % 4) * 16 + b[1] / 16), CharOf((b[1] % 16) * 4)]
  }

  /** The unpadded URL-safe encoding of an octet sequence. */
  function Encode(b: seq<byte>): string
    decreases |b|
  {
    if |b| < 3 then EncodeTail(b)
    else EncodeGroup(b[0], b[1], b[2]) + Encode(b[3..])
  }

  /** The final group has the length the formula gives, and alphabet characters only. */
  lemma TailShape(b: seq<byte>)
    requires |b| < 3
    ensures |EncodeTail(b)| == EncodedLength(|b|)
    ensures forall i :: 0 <= i < |EncodeTail(b)| ==> IsUrlSafe(EncodeTail(b)[i])
  {
    if |b| == 1 {
      CharOfSextet(b[0] / 4);
      CharOfSextet((b[0] % 4) * 16);
    } else if |b| == 2 {
      CharOfSextet(b[0] / 4);
      CharOfSextet((b[0] % 4) * 16 + b[1] / 16);
      CharOfSextet((b[1] % 16) * 4);
    }
  }

  /** The encoding of n octets has (4n + 2) / 3 characters, all from the URL-safe alphabet. */
  lemma {:induction false} EncodeShape(b: seq<byte>)
    ensures |Encode(b)| == EncodedLength(|b|)
    ensures forall i :: 0 <= i < |Encode(b)| ==> IsUrlSafe(Encode(b)[i])
    decreases |b|
  {
    if |b| < 3 {
      TailShape(b);
    } else {
      EncodeShape(b[3..]);
      GroupIsUrlSafe(b[0], b[1], b[2]);
      var g, r := EncodeGroup(b[0], b[1], b[2]), Encode(b[3..]);
      assert Encode(b) == g + r;
      assert forall i :: 0 <= i < |g + r| ==> (g + r)[i] == if i < 4 then g[i] else r[i - 4];
    }
  }

  /** The three octets a full group of four sextets carries. */
  function DecodeQuad(s: string): Option<seq<byte>>
    requires |s| == 4
  {
    match (SextetOf(s[0]), SextetOf(s[1]), SextetOf(s[2]), SextetOf(s[3]))
    case (Some(s0), Some(s1), Some(s2), Some(s3)) =>
      var a: int, b: int, c: int, d: int := s0, s1, s2, s3;
      Some([a * 4 + b / 16, (b % 16) * 16 + c / 4, (c % 4) * 64 + d])
    case _ => None
  }

  /** The octets a final group of fewer than four characters carries: none for none, one
      for two characters, two for three; a single dangling character decodes to nothing. */
  function DecodeTail(s: string): Option<seq<byte>>
    requires |s| < 4
  {
    if |s| == 0 then Some([])
    else if |s| == 1 then None
    else
      match (SextetOf(s[0]), SextetOf(s[1]))
      case (Some(a), Some(b)) =>
        if |s| == 2 then Some([a * 4 + b / 16])
        else (
          match SextetOf(s[2])
          case Some(c) => Some([a * 4 + b / 16, (b % 16) * 16 + c / 4])
          case None => None
        )
      case _ => None
  }

  /** The concatenation of two decoded parts, or None when either failed. */
  function Join(head: Option<seq<byte>>, tail: Option<seq<byte>>): Option<seq<byte>> {
    if head.Some? && tail.Some? then Some(head.value + tail.value) else None
  }

  /** Decoding of an unpadded URL-safe text: None when a character lies outside the
      alphabet or the length leaves a single dangling character. */
  function Decode(s: string): Option<seq<byte>>
    decreases |s|
  {
    if |s| < 4 then DecodeTail(s)
    else Join(DecodeQuad(s[..4]), Decode(s[4..]))
  }

  /** Decoding undoes encoding, so no two octet sequences share an encoding. */
  lemma {:induction false} DecodeEncode(b: seq<byte>)
    ensures Decode(Encode(b)) == Some(b)
    decreases |b|
  {
    if |b| < 3 {
      TailShape(b);
      TailRoundTrip(b);
    } else {
      DecodeEncode(b[3..]);
      assert b == [b[0], b[1], b[2]] + b[3..];
      DecodeGroupStep(b[0], b[1], b[2], b[3..]);
    }
  }

  /** A final group of fewer than three octets survives the round trip. */
  lemma TailRoundTrip(b: seq<byte>)
    requires |b| < 3
    ensures DecodeTail(EncodeTail(b)) == Some(b)
  {
    if |b| == 1 {
      assert b == [b[0]];
      DecodeOneOctet(b[0]);
    } else if |b| == 2 {
      assert b == [b[0], b[1]];
      DecodeTwoOctets(b[0], b[1]);
    }
  }

  /** One octet: two characters carrying its upper six and lower two bits. */
  lemma DecodeOneOctet(x: byte)
    ensures DecodeTail(EncodeTail([x])) == Some([x])
  {
    var p, q := x / 4, (x % 4) * 16;
    assert EncodeTail([x]) == [CharOf(p), CharOf(q)];
    CharOfSextet(p);
    CharOfSextet(q);
  }

  /** Two octets: three characters, the last with four zero bits. */
  lemma DecodeTwoOctets(x: byte, y: byte)
    ensures DecodeTail(EncodeTail([x, y])) == Some([x, y])
  {
    var p, q, r := x / 4, (x % 4) * 16 + y / 16, (y % 16) * 4;
    assert EncodeTail([x, y]) == [CharOf(p), CharOf(q), CharOf(r)];
    CharOfSextet(p);
    CharOfSextet(q);
    CharOfSextet(r);
    assert p * 4 + q / 16 == x;
    assert (q % 16) * 16 + r / 4 == y;
  }

  /** Encoding a group of three octets in front of the rest. */
  lemma EncodeStep(x: byte, y: byte, z: byte, rest: seq<byte>)
    ensures Encode([x, y, z] + rest) == EncodeGroup(x, y, z) + Encode(rest)
  {
    var b := [x, y, z] + rest;
    assert b[0] == x && b[1] == y && b[2] == z && b[3..] == rest;
  }

  /** One group of three octets in front of a part that already decodes. */
  lemma DecodeGroupStep(x: byte, y: byte, z: byte, rest: seq<byte>)
    requires Decode(Encode(rest)) == Some(rest)
    ensures Decode(Encode([x, y, z] + rest)) == Some([x, y, z] + rest)
  {
    EncodeStep(x, y, z, rest);
    DecodeGroup(x, y, z, Encode(rest));
  }

  /** The sextets of a group give its octets back. */
  lemma GroupSextets(x: byte, y: byte, z: byte)
    ensures var a, b, c, d := x / 4, (x % 4) * 16 + y / 16, (y % 16) * 4 + z / 64, z % 64;
      a * 4 + b / 16 == x && (b % 16) * 16 + c / 4 == y && (c % 4) * 64 + d == z
  {
    var b, c := (x % 4) * 16 + y / 16, (y % 16) * 4 + z / 64;
    assert b / 16 == x % 4 && b % 16 == y / 16;
    assert c / 4 == y % 16 && c % 4 == z / 64;
  }

  /** The sextet values of a group's four characters. */
  lemma GroupCharacters(x: byte, y: byte, z: byte)
    ensures var g := EncodeGroup(x, y, z);
      SextetOf(g[0]) == Some(x / 4) && SextetOf(g[1]) == Some((x % 4) * 16 + y / 16) &&
      SextetOf(g[2]) == Some((y % 16) * 4 + z / 64) && SextetOf(g[3]) == Some(z % 64)
  {
    CharOfSextet(x / 4);
    CharOfSextet((x % 4) * 16 + y / 16);
    CharOfSextet((y % 16) * 4 + z / 64);
    CharOfSextet(z % 64);
  }

  /** A full group decodes to its three octets. */
  lemma DecodeQuadGroup(x: byte, y: byte, z: byte)
    ensures DecodeQuad(EncodeGroup(x, y, z)) == Some([x, y, z])
  {
    GroupSextets(x, y, z);
    GroupCharacters(x, y, z);
  }

  /** Decoding a full group in front of any text. */
  lemma DecodeGroup(x: byte, y: byte, z: byte, t: string)
    ensures Decode(EncodeGroup(x, y, z) + t) == Join(Some([x, y, z]), Decode(t))
  {
    var g := EncodeGroup(x, y, z);
    assert (g + t)[..4] == g && (g + t)[4..] == t;
    DecodeQuadGroup(x, y, z);
  }

  /** A test vector of section 10 of RFC 4648: "foob" encodes to "Zm9vYg" (unpadded). */
  lemma TestVectorFoob()
    ensures Encode([0x66, 0x6F, 0x6F, 0x62]) == "Zm9vYg"
  {
    assert CharOf(25) == 'Z' && CharOf(38) == 'm' && CharOf(61) == '9' && CharOf(47) == 'v';
    assert CharOf(24) == 'Y' && CharOf(32) == 'g';
    assert EncodeGroup(0x66, 0x6F, 0x6F) == "Zm9v";
    assert [0x66, 0x6F, 0x6F, 0x62][3..] == [0x62];
    assert EncodeTail([0x62]) == "Yg";
  }

  /** The octets 0xFB 0xFF encode to "-_8", where the standard alphabet would give "+/8". */
  lemma TestVectorUrlSafe()
    ensures Encode([0xFB, 0xFF]) == "-_8"
  {
  }
}
