/**
 * Short-code generation (UUIDCompressUtils): the 128 bits of a UUID are written into a
 * 16-byte buffer as two big-endian longs, the buffer is encoded with the unpadded
 * URL-safe Base 64 alphabet, and the first `length` characters are the code.
 * The random UUID is a parameter here.
 */
module CompressUtils {
  import opened Wrappers
  import opened JavaTypes
  import opened Base64Url

  const TWO_TO_64: int := 0x1_0000_0000_0000_0000

  /** `java.util.UUID`: its two halves as the signed longs returned by
      getMostSignificantBits and getLeastSignificantBits. */
  datatype Uuid = Uuid(mostSigBits: long, leastSigBits: long)

  /** The two's-complement bit pattern of a long, read as an unsigned number. */
  function Unsigned(v: long): (u: nat)
    ensures u < TWO_TO_64
    ensures (u - v) % TWO_TO_64 == 0
  {
    if v < 0 then v + TWO_TO_64 else v
  }

  /** The long whose bit pattern is u. */
  function Signed(u: nat): (v: long)
    requires u < TWO_TO_64
    ensures Unsigned(v) == u
  {
    if u <= LONG_MAX then u else u - TWO_TO_64
  }

  function Pow256(n: nat): (p: nat)
    ensures p >= 1
  {
    if n == 0 then 1 else 256 * Pow256(n - 1)
  }

  /** The value of octets read most significant first. */
  function FromBigEndian(s: seq<byte>): (v: nat)
    ensures v < Pow256(|s|)
  {
    if s == [] then 0 else FromBigEndian(s[..|s| - 1]) * 256 + s[|s| - 1]
  }

  /** The n octets of v, most significant first (what ByteBuffer.putLong writes for n = 8).
      Reading them back gives v. */
  function BigEndian(v: nat, n: nat): (r: seq<byte>)
    requires v < Pow256(n)
    ensures |r| == n
    ensures FromBigEndian(r) == v
  {
    if n == 0 then [] else
      assert v / 256 < Pow256(n - 1);
      var r := BigEndian(v / 256, n - 1) + [v % 256];
      assert r[..|r| - 1] == BigEndian(v / 256, n - 1);
      r
  }

  /** Writing the octets of a value back gives the octets. */
  lemma {:induction false} BigEndianFromBigEndian(s: seq<byte>)
    ensures BigEndian(FromBigEndian(s), |s|) == s
  {
    if s != [] {
      var init := s[..|s| - 1];
      BigEndianFromBigEndian(init);
      var v := FromBigEndian(s);
      assert v / 256 == FromBigEndian(init) && v % 256 == s[|s| - 1];
      assert s == init + [s[|s| - 1]];
    }
  }

  /** The 16 bytes of the buffer after the two putLong calls. */
  function UuidBytes(u: Uuid): (r: seq<byte>)
    ensures |r| == 16
  {
    assert Pow256(8) == TWO_TO_64;
    BigEndian(Unsigned(u.mostSigBits), 8) + BigEndian(Unsigned(u.leastSigBits), 8)
  }

  /** The UUID whose bytes are b. */
  function UuidOf(b: seq<byte>): (u: Uuid)
    requires |b| == 16
  {
    assert Pow256(8) == TWO_TO_64;
    Uuid(Signed(FromBigEndian(b[..8])), Signed(FromBigEndian(b[8..])))
  }

  /** Packing a UUID is a bijection onto the 16-byte sequences: no two UUIDs give the same
      bytes, and every 16-byte sequence is the packing of some UUID; so modelling the UUID
      as an arbitrary 16-byte input loses nothing. */
  lemma UuidPackingIsBijective(u: Uuid, b: seq<byte>)
    requires |b| == 16
    ensures UuidOf(UuidBytes(u)) == u
    ensures UuidBytes(UuidOf(b)) == b
  {
    assert Pow256(8) == TWO_TO_64;
    var bytes := UuidBytes(u);
    assert bytes[..8] == BigEndian(Unsigned(u.mostSigBits), 8);
    assert bytes[8..] == BigEndian(Unsigned(u.leastSigBits), 8);
    BigEndianFromBigEndian(b[..8]);
    BigEndianFromBigEndian(b[8..]);
    assert b == b[..8] + b[8..];
  }

  /** `java.nio.ByteBuffer` as used here: a backing array and a write position. */
  class ByteBuffer {
    const data: array<byte>
    var position: nat

    ghost predicate Valid()
      reads this
    {
      position <= data.Length
    }

    /** ByteBuffer.allocate: a zero-filled buffer positioned at its start. */
    constructor Allocate(capacity: nat)
      ensures Valid() && fresh(data)
      ensures data.Length == capacity && position == 0
      ensures forall i :: 0 <= i < capacity ==> data[i] == 0
    {
      data := new byte[capacity](_ => 0);
      position := 0;
    }

    /** ByteBuffer.putLong: the eight bytes of v, big-endian, at the position, which then
        moves past them. */
    method PutLong(v: long)
      requires Valid() && position + 8 <= data.Length
      modifies this, data
      ensures Valid() && position == old(position) + 8
      ensures data[..] == old(data[..position]) + BigEndian(Unsigned(v), 8) + old(data[position + 8..])
    {
      assert Pow256(8) == TWO_TO_64;
      var bytes := BigEndian(Unsigned(v), 8);
      forall i | 0 <= i < 8 {
        data[position + i] := bytes[i];
      }
      position := position + 8;
    }
  }

  /** The code compress returns for a given UUID: a prefix of the 22-character encoding of
      its bytes; None when `substring(0, length)` would throw. The source URL plays no part. */
  function CompressedCode(u: Uuid, length: int): (r: Option<string>)
  {
    var encoded := Encode(UuidBytes(u));
    if 0 <= length <= |encoded| then Some(encoded[..length]) else None
  }

  /** UUIDCompressUtils.compress with the random UUID made a parameter. */
  method Compress(src: Option<string>, u: Uuid, length: int) returns (r: Option<string>)
    ensures r == CompressedCode(u, length)
  {
    var buffer := new ByteBuffer.Allocate(16);
    buffer.PutLong(u.mostSigBits);
    assert buffer.data[..8] == BigEndian(Unsigned(u.mostSigBits), 8);
    ghost var first := buffer.data[..8];
    buffer.PutLong(u.leastSigBits);
    assert buffer.data[..] == first + BigEndian(Unsigned(u.leastSigBits), 8);
    assert buffer.data[..] == UuidBytes(u);
    var encoded := Encode(buffer.data[..]);
    if 0 <= length <= |encoded| {
      r := Some(encoded[..length]);
    } else {
      r := None;
    }
  }

  /** The encoding of the 16 bytes has exactly 22 characters, all URL-safe; compress
      succeeds exactly for lengths 0 to 22, returning that many characters. */
  lemma CompressedCodeShape(u: Uuid, length: int)
    ensures |Encode(UuidBytes(u))| == 22
    ensures CompressedCode(u, length).Some? <==> 0 <= length <= 22
    ensures CompressedCode(u, length).Some? ==>
      var code := CompressedCode(u, length).value;
      |code| == length && code == Encode(UuidBytes(u))[..length] &&
      forall i :: 0 <= i < |code| ==> IsUrlSafe(code[i])
  {
    EncodeShape(UuidBytes(u));
  }
}
