/**
 * The fixed-width integer readers and writers of the `Binary` utility class
 * (src/PEPacketAnalyze/utils/Binary.php), on a 64-bit PHP build. Each reader
 * takes a byte string at least as long as its width (PHP's `unpack` and
 * string offsets need those bytes; a shorter string is a caller error there);
 * bytes beyond the width are handled exactly as `unpack` handles them.
 */
module Binary {
  import opened Bytes
  import opened PhpInt

  /** `readTriad`: unpack("N", "\x00" . str), a 3-byte big-endian number. */
  function ReadTriad(str: seq<uint8>): (r: int)
    requires |str| >= 3
    ensures r == BigEndian(str[..3])
    ensures 0 <= r < 0x100_0000
  {
    assert ([0] + str)[..4] == [0] + str[..3];
    BigEndianLeadingZero(str[..3]);
    Pow2Values();
    BigEndian(([0] + str)[..4])
  }

  /**
   * `readLTriad`: unpack("V", str . "\x00"), a 3-byte little-endian number.
   * The padding byte only comes into play for a string of exactly 3 bytes;
   * from a longer one `V` reads the fourth byte of str instead.
   */
  function ReadLTriad(str: seq<uint8>): (r: int)
    requires |str| >= 3
    ensures |str| == 3 ==> r == LittleEndian(str) && 0 <= r < 0x100_0000
    ensures |str| > 3 ==> r == LittleEndian(str[..4])
  {
    LittleEndianTrailingZero(str);
    Pow2Values();
    assert |str| == 3 ==> (str + [0])[..4] == str + [0];
    assert |str| > 3 ==> (str + [0])[..4] == str[..4];
    LittleEndian((str + [0])[..4])
  }

  /** `writeLTriad`: substr(pack("V", value), 0, -1), the low three bytes of value, least significant first. */
  function WriteLTriad(value: int): (r: seq<uint8>)
    ensures |r| == 3
    ensures LittleEndian(r) == value % 0x100_0000
  {
    ToLittleEndianPrefix(value, 3);
    LittleEndianRoundTrip(value, 3);
    Pow2Values();
    ToLittleEndian(value, 4)[..3]
  }

  /** `readByte`: ord of the first byte, sign-extended by `<< 56 >> 56` when signed. */
  function ReadByte(c: seq<uint8>, signed: bool): (r: int)
    requires |c| >= 1
    ensures signed ==> -0x80 <= r < 0x80
    ensures signed ==> r == if c[0] >= 0x80 then c[0] as int - 0x100 else c[0]
    ensures !signed ==> r == c[0]
  {
    var b := c[0];
    if signed then
      Pow2Values();
      ShiftPairSignExtends(b, 8);
      Sar(Shl(b, 56), 56)
    else
      b
  }

  /** `writeShort`: pack("n", value), the low two bytes of value, most significant first. */
  function WriteShort(value: int): (r: seq<uint8>)
    ensures |r| == 2
    ensures BigEndian(r) == value % 0x1_0000
  {
    BigEndianRoundTrip(value, 2);
    Pow2Values();
    ToBigEndian(value, 2)
  }

  /**
   * `readShort`: unpack("n", str), 16-bit unsigned big-endian. It loses
   * nothing: writeShort of the result gives back the two bytes read.
   */
  function ReadShort(str: seq<uint8>): (r: int)
    requires |str| >= 2
    ensures 0 <= r < 0x1_0000
    ensures WriteShort(r) == str[..2]
  {
    Pow2Values();
    BigEndianInverse(str[..2]);
    BigEndian(str[..2])
  }

  /** `readSignedShort`: unpack("n", str) << 48 >> 48. */
  function ReadSignedShort(str: seq<uint8>): (r: int)
    requires |str| >= 2
    ensures -0x8000 <= r < 0x8000
    ensures r == ToSigned(ReadShort(str), 16)
  {
    Pow2Values();
    ShiftPairSignExtends(ReadShort(str), 16);
    Sar(Shl(ReadShort(str), 48), 48)
  }

  /**
   * `readLShort`: unpack("v", str), 16-bit unsigned little-endian. It loses
   * nothing: `pack("v")` of the result gives back the two bytes read.
   */
  function ReadLShort(str: seq<uint8>): (r: int)
    requires |str| >= 2
    ensures 0 <= r < 0x1_0000
    ensures ToLittleEndian(r, 2) == str[..2]
  {
    Pow2Values();
    LittleEndianInverse(str[..2]);
    LittleEndian(str[..2])
  }

  /** `readSignedLShort`: unpack("v", str) << 48 >> 48. */
  function ReadSignedLShort(str: seq<uint8>): (r: int)
    requires |str| >= 2
    ensures -0x8000 <= r < 0x8000
    ensures r == ToSigned(ReadLShort(str), 16)
  {
    Pow2Values();
    ShiftPairSignExtends(ReadLShort(str), 16);
    Sar(Shl(ReadLShort(str), 48), 48)
  }

  /** `readInt`: unpack("N", str) << 32 >> 32, 32-bit signed big-endian. */
  function ReadInt(str: seq<uint8>): (r: int)
    requires |str| >= 4
    ensures -0x8000_0000 <= r < 0x8000_0000
    ensures r == ToSigned(BigEndian(str[..4]), 32)
  {
    Pow2Values();
    ShiftPairSignExtends(BigEndian(str[..4]), 32);
    Sar(Shl(BigEndian(str[..4]), 32), 32)
  }

  /** `writeInt`: pack("N", value), the low four bytes of value, most significant first. */
  function WriteInt(value: int): (r: seq<uint8>)
    ensures |r| == 4
    ensures BigEndian(r) == value % 0x1_0000_0000
  {
    BigEndianRoundTrip(value, 4);
    Pow2Values();
    ToBigEndian(value, 4)
  }

  /** `readLInt`: unpack("V", str) << 32 >> 32, 32-bit signed little-endian. */
  function ReadLInt(str: seq<uint8>): (r: int)
    requires |str| >= 4
    ensures -0x8000_0000 <= r < 0x8000_0000
    ensures r == ToSigned(LittleEndian(str[..4]), 32)
  {
    Pow2Values();
    ShiftPairSignExtends(LittleEndian(str[..4]), 32);
    Sar(Shl(LittleEndian(str[..4]), 32), 32)
  }

  /**
   * `readLong`: the two big-endian 32-bit halves of unpack("N*", x) joined as
   * `(hi << 32) | lo`. The shift leaves the low 32 bits of `hi << 32` clear
   * (JoinHalves), so the `|` is written as `+`.
   */
  function ReadLong(x: seq<uint8>): (r: int)
    requires |x| >= 8
    ensures -0x8000_0000_0000_0000 <= r < 0x8000_0000_0000_0000
    ensures r == ToSigned(BigEndian(x[..8]), 64)
  {
    LongHalves(x);
    Pow2Values();
    Or(Shl(BigEndian(x[..4]), 32), BigEndian(x[4..8]))
  }

  /** The two big-endian 32-bit halves that readLong joins make up the 64-bit big-endian reading. */
  lemma LongHalves(x: seq<uint8>)
    requires |x| >= 8
    ensures Or(Shl(BigEndian(x[..4]), 32), BigEndian(x[4..8])) == ToSigned(BigEndian(x[..8]), 64)
  {
    var hi := BigEndian(x[..4]);
    var lo := BigEndian(x[4..8]);
    assert x[..8] == x[..4] + x[4..8];
    BigEndianAppend(x[..4], x[4..8]);
    Pow2Values();
    assert BigEndian(x[..8]) == hi * Pow2(32) + lo;
    JoinHalves(hi, lo);
    OrJoinsHalves(hi, lo);
  }


  /**
   * `readLLong`: readLong(strrev(str)), 64-bit signed little-endian. From a
   * string longer than 8 bytes it is the last 8 bytes that are read.
   */
  function ReadLLong(str: seq<uint8>): (r: int)
    requires |str| >= 8
    ensures -0x8000_0000_0000_0000 <= r < 0x8000_0000_0000_0000
    ensures r == ToSigned(LittleEndian(str[|str| - 8..]), 64)
  {
    var tail := str[|str| - 8..];
    assert Reverse(str)[..8] == Reverse(tail);
    LittleEndianIsReversedBigEndian(tail);
    ReadLong(Reverse(str))
  }

  /** writeLTriad keeps the low 24 bits of its argument, which readLTriad gives back. */
  lemma LTriadRoundTrip(value: int)
    ensures ReadLTriad(WriteLTriad(value)) == value % 0x100_0000
    ensures 0 <= value < 0x100_0000 ==> ReadLTriad(WriteLTriad(value)) == value
  {
  }

  /** A triad read big-endian is the reversed triad read little-endian. */
  lemma TriadIsReversedLTriad(b: seq<uint8>)
    requires |b| == 3
    ensures ReadTriad(b) == ReadLTriad(Reverse(b))
    ensures 0 <= ReadTriad(b) < 0x100_0000
  {
    assert b[..3] == b;
    ReverseReverse(b);
    LittleEndianIsReversedBigEndian(Reverse(b));
  }

  /**
   * writeShort then readShort gives back the low 16 bits; readSignedShort
   * gives back any value that fits in a signed 16-bit integer.
   */
  lemma ShortRoundTrip(value: int)
    ensures ReadShort(WriteShort(value)) == value % 0x1_0000
    ensures 0 <= value < 0x1_0000 ==> ReadShort(WriteShort(value)) == value
    ensures -0x8000 <= value < 0x8000 ==> ReadSignedShort(WriteShort(value)) == value
  {
    var w := WriteShort(value);
    assert w[..2] == w;
    if -0x8000 <= value < 0 {
      DivModUnique(value, 0x1_0000, -1, value + 0x1_0000);
    }
    Pow2Values();
  }

  /** The little-endian short readers are the big-endian ones on the reversed bytes. */
  lemma LShortIsReversedShort(b: seq<uint8>)
    requires |b| == 2
    ensures ReadLShort(b) == ReadShort(Reverse(b))
    ensures ReadSignedLShort(b) == ReadSignedShort(Reverse(b))
  {
    assert b[..2] == b && Reverse(b)[..2] == Reverse(b);
    LittleEndianIsReversedBigEndian(b);
  }

  /**
   * writeInt then readInt gives back the low 32 bits read as a signed
   * number, so every signed 32-bit value comes back unchanged.
   */
  lemma IntRoundTrip(value: int)
    ensures ReadInt(WriteInt(value)) == ToSigned(value % 0x1_0000_0000, 32)
    ensures -0x8000_0000 <= value < 0x8000_0000 ==> ReadInt(WriteInt(value)) == value
  {
    var w := WriteInt(value);
    assert w[..4] == w;
    Pow2Values();
    if -0x8000_0000 <= value < 0 {
      DivModUnique(value, 0x1_0000_0000, -1, value + 0x1_0000_0000);
    } else if 0 <= value < 0x8000_0000 {
      DivModUnique(value, 0x1_0000_0000, 0, value);
    }
  }

  /** readLInt is readInt on the reversed bytes. */
  lemma LIntIsReversedInt(b: seq<uint8>)
    requires |b| == 4
    ensures ReadLInt(b) == ReadInt(Reverse(b))
  {
    assert b[..4] == b && Reverse(b)[..4] == Reverse(b);
    LittleEndianIsReversedBigEndian(b);
  }

  /** readLong of 8 bytes is readLLong of the same bytes reversed. */
  lemma LongIsReversedLLong(b: seq<uint8>)
    requires |b| == 8
    ensures ReadLong(b) == ReadLLong(Reverse(b))
  {
    var r := Reverse(b);
    assert b[..8] == b && r[|r| - 8..] == r;
    ReverseReverse(b);
    LittleEndianIsReversedBigEndian(r);
  }
}
