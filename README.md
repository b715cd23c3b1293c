# Binary codec of PocketEdition Packet Analyze, in Dafny

This project models the `Binary` utility class of PocketEdition Packet
Analyze (`src/PEPacketAnalyze/utils/Binary.php`). The class has two parts:

- **Integer readers and writers.** They handle 3-, 16-, 32- and 64-bit
  integers, big- and little-endian. The signed readers sign-extend with a
  pair of PHP shifts.
- **`readMetadata`.** It decodes an entity-metadata stream: a run of
  records, each a tag byte followed by a payload. The tag's low 5 bits are
  the record's key and its high 3 bits are the type code, which fixes the
  payload's layout. A tag byte 127 ends the stream.

The model is split into four modules:

- `Bytes` (`bytes.dfy`) covers byte strings as `seq<uint8>`. It has
  big- and little-endian values (`unpack` "N"/"n"/"V"/"v"), their writers
  (`pack`), and `strrev`.
- `PhpInt` (`phpint.dfy`) covers the integers of a 64-bit PHP build. `<<`
  wraps the product into signed 64 bits (`Shl`), `>>` is an arithmetic
  shift (`Sar`), and `|` is the OR of the two's-complement bit patterns
  (`Or`). It proves that `x << k >> k` is the two's-complement
  reading of the low `64 - k` bits.
- `Binary` (`binary.dfy`) holds one function per reader and writer, with
  round-trip and byte-order lemmas.
- `Metadata` (`metadata.dfy`) models `readMetadata`:
  - `Decode`, the loop written as a recursive function (`Loop`), with the
    payload switch passed in as a parameter;
  - `ReadMetadata`, the source's `while` loop as a method, proved to
    compute `Decode`;
  - `ReadValue`, the source's `switch` as a method, proved to compute
    `ReadPayload`.

  The source has no metadata writer. `EncodeRecords` writes a stream so
  that what the decoder recovers can be stated as a round trip.

Where a decoder has a choice, the model does what `readMetadata` does:

- **Stream ends without a terminator.** A stricter decoder could reject a
  stream that runs out after a complete record. `readMetadata` returns the
  entries read so far, the same as when it reads the terminator, and so
  does `Decode` (`DecodeUnterminated`).
- **Payload runs past the end.** In that case the PHP code reads past the
  end of the string (notices and `false` values). The model reports
  `Truncated(at)` instead.
- **Offset.** The by-reference `$offset` is returned with the map, as
  `Decoded(entries, offset)`. The metadata starts the string, and the
  bytes after the terminator belong to the rest of the packet: they are
  never read (`DecodeEncoded`).

## Model

| member | source | states |
|---|---|---|
| Binary.ReadTriad | src/PEPacketAnalyze/utils/Binary.php:33-35 | the first three bytes read big-endian (the leading `\x00` adds nothing), in 0..2^24 |
| Binary.ReadLTriad | src/PEPacketAnalyze/utils/Binary.php:44-46 | a 3-byte string read little-endian, in 0..2^24; from a longer string the padding is not reached and the first four bytes are read |
| Binary.WriteLTriad | src/PEPacketAnalyze/utils/Binary.php:55-57 | three bytes whose little-endian value is the argument modulo 2^24 |
| Binary.LTriadRoundTrip | src/PEPacketAnalyze/utils/Binary.php:44-57 | readLTriad(writeLTriad(v)) is v modulo 2^24, so v itself when it fits in 24 bits |
| Binary.TriadIsReversedLTriad | src/PEPacketAnalyze/utils/Binary.php:33-46 | readTriad of three bytes equals readLTriad of the same bytes reversed |
| Binary.ReadByte | src/PEPacketAnalyze/utils/Binary.php:67-79 | unsigned: the byte; signed: `<< 56 >> 56` gives the byte's two's-complement value, in -128..128 |
| Binary.WriteShort | src/PEPacketAnalyze/utils/Binary.php:88-90 | two bytes whose big-endian value is the argument modulo 2^16 |
| Binary.ReadShort | src/PEPacketAnalyze/utils/Binary.php:99-101 | the first two bytes read big-endian, in 0..2^16; writeShort of the result gives back those two bytes, so every 2-byte string is read without loss |
| Binary.ShortRoundTrip | src/PEPacketAnalyze/utils/Binary.php:88-116 | readShort(writeShort(v)) is v modulo 2^16; readSignedShort(writeShort(v)) is v for every signed 16-bit v |
| Binary.ReadSignedShort | src/PEPacketAnalyze/utils/Binary.php:110-116 | `unpack("n") << 48 >> 48` is the signed 16-bit reading of the big-endian short, in -2^15..2^15 |
| Binary.ReadLShort | src/PEPacketAnalyze/utils/Binary.php:125-127 | the first two bytes read little-endian, in 0..2^16; `pack("v")` of the result gives back those two bytes |
| Binary.ReadSignedLShort | src/PEPacketAnalyze/utils/Binary.php:136-142 | `unpack("v") << 48 >> 48` is the signed 16-bit reading of the little-endian short |
| Binary.LShortIsReversedShort | src/PEPacketAnalyze/utils/Binary.php:99-142 | readLShort and readSignedLShort of two bytes are readShort and readSignedShort of the reversed bytes |
| Binary.ReadInt | src/PEPacketAnalyze/utils/Binary.php:144-150 | `unpack("N") << 32 >> 32` is the signed 32-bit reading of the first four bytes, big-endian |
| Binary.WriteInt | src/PEPacketAnalyze/utils/Binary.php:152-154 | four bytes whose big-endian value is the argument modulo 2^32 |
| Binary.IntRoundTrip | src/PEPacketAnalyze/utils/Binary.php:144-154 | readInt(writeInt(v)) is the low 32 bits of v read as signed, so v for every signed 32-bit v |
| Binary.ReadLInt | src/PEPacketAnalyze/utils/Binary.php:156-162 | `unpack("V") << 32 >> 32` is the signed 32-bit reading of the first four bytes, little-endian |
| Binary.LIntIsReversedInt | src/PEPacketAnalyze/utils/Binary.php:144-162 | readLInt of four bytes is readInt of the reversed bytes |
| Binary.ReadLong | src/PEPacketAnalyze/utils/Binary.php:184-187 | `(hi << 32) \| lo` of the two big-endian halves, with `\|` the bitwise OR of the 64-bit patterns (`PhpInt.Or`), is the signed 64-bit reading of the first eight bytes |
| Binary.ReadLLong | src/PEPacketAnalyze/utils/Binary.php:203-205 | readLong(strrev(s)) is the signed 64-bit little-endian reading of the last eight bytes of s |
| Binary.LongIsReversedLLong | src/PEPacketAnalyze/utils/Binary.php:184-205 | readLong of eight bytes is readLLong of the reversed bytes |
| PhpInt.ShlScales | src/PEPacketAnalyze/utils/Binary.php:146 | `x << n` is x times 2^n wrapped into signed 64 bits |
| PhpInt.SarDivides | src/PEPacketAnalyze/utils/Binary.php:146 | `x >> n` is x divided by 2^n, rounded toward negative infinity |
| PhpInt.ShiftPairSignExtends | src/PEPacketAnalyze/utils/Binary.php:110-116 | for x of w bits, `x << (64 - w) >> (64 - w)` is the two's-complement value of x as a w-bit pattern |
| PhpInt.JoinHalves | src/PEPacketAnalyze/utils/Binary.php:187 | `hi << 32` has its low 32 bits clear, and `(hi << 32) + lo` is the signed 64-bit reading of hi·2^32 + lo |
| PhpInt.OrDisjoint | src/PEPacketAnalyze/utils/Binary.php:187 | OR of two bit patterns that share no set bit (one below bit k, the other with no bit below k) is their sum |
| PhpInt.OrJoinsHalves | src/PEPacketAnalyze/utils/Binary.php:187 | for 32-bit unsigned halves, `(hi << 32) \| lo` equals `(hi << 32) + lo` |
| Metadata.TagFields | src/PEPacketAnalyze/utils/Binary.php:221-222 | a tag byte is `$type` · 32 + `$bottom`; it is 127 exactly when the type is 3 and the key 31 |
| Metadata.Key | src/PEPacketAnalyze/utils/Binary.php:221 | `$b & 0x1F` is a key in 0..32 |
| Metadata.TypeCode | src/PEPacketAnalyze/utils/Binary.php:222 | `$b >> 5` of a byte is a type code in 0..8 |
| Metadata.Tag | src/PEPacketAnalyze/utils/Binary.php:221-222 | the tag of a record splits back into its key and its value's type code; it is the terminator only for a float under key 31 |
| Metadata.ByteAt | src/PEPacketAnalyze/utils/Binary.php:224-227 | parses iff one byte remains; a signed byte, cursor + 1 |
| Metadata.ShortAt | src/PEPacketAnalyze/utils/Binary.php:228-231 | parses iff two bytes remain; an unsigned short in range, cursor + 2 |
| Metadata.IntAt | src/PEPacketAnalyze/utils/Binary.php:232-235 | parses iff four bytes remain; a signed 32-bit int, cursor + 4 |
| Metadata.FloatAt | src/PEPacketAnalyze/utils/Binary.php:236-239 | parses iff four bytes remain; the four raw bytes, cursor + 4 |
| Metadata.StringAt | src/PEPacketAnalyze/utils/Binary.php:240-245 | parses iff the length field and that many bytes remain; cursor + 2 + length |
| Metadata.SlotAt | src/PEPacketAnalyze/utils/Binary.php:246-254 | parses iff five bytes remain; id, count, damage in range, cursor + 5 |
| Metadata.VectorAt | src/PEPacketAnalyze/utils/Binary.php:255-261 | parses iff twelve bytes remain; three signed 32-bit ints, cursor + 12 |
| Metadata.ReadPayload | src/PEPacketAnalyze/utils/Binary.php:223-269 | unknown type exactly for type code 7 (`default`); otherwise parses iff the payload fits, with a value of that type code, in range, ending inside the stream |
| Metadata.SwitchReadsTyped | src/PEPacketAnalyze/utils/Binary.php:223-261 | every value the switch parses has the type code it was read with and fits its encoding |
| Metadata.ReadValue | src/PEPacketAnalyze/utils/Binary.php:223-269 | the switch with its moving cursor (and the three-step loop of case 6) computes ReadPayload; case 8 is unreachable |
| Metadata.StoreKeepsWellKeyed | src/PEPacketAnalyze/utils/Binary.php:270-274 | storing a value under a 5-bit key keeps every entry 5-bit keyed, in range, and typed exactly when `$types` |
| Metadata.LoopOutcome | src/PEPacketAnalyze/utils/Binary.php:220-277 | from any state the loop ends with a well-keyed map and an offset no smaller than the current one and at most one past the end, or truncated inside the stream |
| Metadata.DecodeOutcome | src/PEPacketAnalyze/utils/Binary.php:215-280 | readMetadata terminates on every input, with a well-keyed map and 1 ≤ `$offset` ≤ length + 1, or a truncation inside the stream |
| Metadata.ReadMetadata | src/PEPacketAnalyze/utils/Binary.php:215-280 | the `while` loop computes Decode: the result and the final `$offset` |
| Metadata.CollectAppend | src/PEPacketAnalyze/utils/Binary.php:270-274 | storing one more record changes the map under that record's key only |
| Metadata.CollectKeys | src/PEPacketAnalyze/utils/Binary.php:270-274 | a key is in the map iff it was there before or some record carries it |
| Metadata.LShortReadsBack | src/PEPacketAnalyze/utils/Binary.php:125-127 | readLShort gives back a 16-bit value written little-endian |
| Metadata.LIntReadsBack | src/PEPacketAnalyze/utils/Binary.php:156-162 | readLInt gives back a signed 32-bit value written little-endian in two's complement |
| Metadata.ByteReadsBack | src/PEPacketAnalyze/utils/Binary.php:224-227 | case 0 reads back an encoded signed byte |
| Metadata.StringReadsBack | src/PEPacketAnalyze/utils/Binary.php:240-245 | case 4 reads back a string written as its length and its bytes |
| Metadata.SlotReadsBack | src/PEPacketAnalyze/utils/Binary.php:246-254 | case 5 reads back an encoded slot |
| Metadata.VectorReadsBack | src/PEPacketAnalyze/utils/Binary.php:255-261 | case 6 reads back three encoded coordinates |
| Metadata.ReadEncoded | src/PEPacketAnalyze/utils/Binary.php:223-261 | the switch reads back every encoded value, ending just past its encoding |
| Metadata.LoopRecords | src/PEPacketAnalyze/utils/Binary.php:220-277 | for any reader that reads back the encoder, the loop runs over a run of records, storing each in order, and resumes at the byte after them |
| Metadata.DecodeEncoded | src/PEPacketAnalyze/utils/Binary.php:215-280 | records followed by 127 and then any bytes decode to the map that storing the records in order gives, with `$offset` just past the terminator; with no records, a string that starts with 127 gives an empty map |
| Metadata.DecodeUnterminated | src/PEPacketAnalyze/utils/Binary.php:220 | records without a terminator decode to the same map: running out of stream ends the loop like the terminator |
| Metadata.DecodeDanglingTag | src/PEPacketAnalyze/utils/Binary.php:218-220 | a tag byte with nothing after it is dropped: records followed by any one byte decode to the records' map, with `$offset` one past the end; a 1-byte string gives an empty map |
| Metadata.DecodeAbortsOnType7 | src/PEPacketAnalyze/utils/Binary.php:266-267 | a type-7 tag after any records gives an empty map, dropping the records read before it |
| Metadata.LaterRecordWins | src/PEPacketAnalyze/utils/Binary.php:270-274 | when records share a key, the decoded map holds the last one, whatever follows the terminator |

## Left out

- readFloat, readLFloat, readDouble, readLDouble and printFloat are not modelled. They decode IEEE-754 values and format them with `sprintf` and a regular expression. A float payload in a metadata record is kept as its four raw bytes.
- The `ENDIANNESS` probe at load time is not modelled. It only picks which of `unpack("f")`/`strrev` the float readers use.
- The 32-bit PHP branches (`PHP_INT_SIZE !== 8`) are not modelled: the `<< 24 >> 24` and `<< 16 >> 16` sign extensions and readLong's `bcmath` loop. Only the 64-bit build is modelled.
- The readers require at least as many bytes as they read. With fewer bytes, PHP's `unpack` and string offsets emit notices and read `false`, `null` or `""`; that path is not modelled. For readLong with 4 to 7 bytes, `unpack("N*")` yields only the high half, `$int[2]` is an undefined index read as `null`, and the result is `hi << 32`.
- Metadata.ReadPayload: a payload that runs past the end of the stream yields `Truncated(at)`. The PHP code instead reads the missing bytes as empty strings, stores whatever that gives, and ends the loop; that garbage entry is not modelled.
- Metadata.ReadValue: the dead `case 8` reads `substr($value, $offset, 4)` but advances the offset by 8. It is not modelled beyond showing that it cannot be reached.
- A float record under key 31 has tag byte 127, the terminator, so no stream can carry it (`Tag`). The encoder excludes it (`Encodable`).
- The order of the keys in `$m`: a PHP array keeps its keys in order of first insertion, and a later record under the same key keeps that key's place. `map<int, Entry>` has no order, so the model states which entries the map holds, not the order a caller iterating over it sees.
