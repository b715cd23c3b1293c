/**
 * `Binary::readMetadata` (src/PEPacketAnalyze/utils/Binary.php): the decoder
 * of an entity-metadata stream. The stream is a run of records, each a tag
 * byte followed by a payload; the low 5 bits of the tag are the record's key
 * and the high 3 bits its type code, which fixes the payload's layout. A tag
 * byte 127 ends the stream.
 *
 * `Decode` is the specification, one record per recursive step of `Loop`;
 * `ReadMetadata` is the source's `while` loop, proved to compute `Decode`.
 * `Loop` takes the payload switch as a parameter (`Switch` is the source's),
 * so the facts about the loop are proved once from what any reader
 * promises, and the facts about the switch separately.
 * `EncodeRecords` writes a stream (the source has no such writer) so that
 * what the decoder recovers can be stated as a round trip.
 */
module Metadata {
  import opened Bytes
  import opened PhpInt
  import opened Binary

  /** The tag byte that ends a stream. */
  const TERMINATOR: uint8 := 0x7F

  /** A decoded payload, one alternative per type code. */
  datatype Value =
    | Byte(b: int)                            // 0: signed byte
    | Short(s: int)                           // 1: unsigned 16-bit, little-endian
    | Int(i: int)                             // 2: signed 32-bit, little-endian
    | Float(raw: seq<uint8>)                  // 3: the 4 bytes of a little-endian IEEE-754 single
    | Str(bytes: seq<uint8>)                  // 4: 16-bit little-endian length, then that many bytes
    | Slot(id: int, count: int, damage: int)  // 5: unsigned 16-bit LE, unsigned byte, unsigned 16-bit LE
    | Vec3(x: int, y: int, z: int)            // 6: three signed 32-bit little-endian

  /**
   * One entry of the result: `$m[$bottom] = $r`, or `[$r, $type]` when the
   * caller asked for types.
   */
  datatype Entry = Plain(value: Value) | Typed(value: Value, code: int)

  /** The outcome of reading one record's payload. */
  datatype Payload =
    | Parsed(value: Value, next: nat)  // the value and the offset just past it
    | OutOfData                        // the payload runs past the end of the stream
    | UnknownType                      // type code 7

  /** The outcome of a decode: the entries and the final `$offset`, or the offset of a payload that runs past the end. */
  datatype Outcome = Decoded(entries: map<int, Entry>, offset: nat) | Truncated(at: nat)

  /** `$b & 0x1F`: the key of a tag byte (masking the low 5 bits of a non-negative number leaves it modulo 32). */
  function Key(b: uint8): (k: int)
    ensures 0 <= k < 32
  {
    b % 32
  }

  /** `$b >> 5`: the type code of a tag byte (shifting a non-negative number right by 5 divides it by 32). */
  function TypeCode(b: uint8): (t: int)
    ensures 0 <= t < 8
  {
    b / 32
  }

  /** A tag byte is exactly its type code and key side by side. */
  lemma TagFields(b: uint8)
    ensures b == TypeCode(b) * 32 + Key(b)
    ensures b == TERMINATOR <==> TypeCode(b) == 3 && Key(b) == 31
  {

  }

  /** The type code that announces a value on the wire. */
  function TypeCodeOf(v: Value): (t: int)
    ensures 0 <= t < 7
  {
    match v
    case Byte(_) => 0
    case Short(_) => 1
    case Int(_) => 2
    case Float(_) => 3
    case Str(_) => 4
    case Slot(_, _, _) => 5
    case Vec3(_, _, _) => 6
  }

  /** The bytes a payload of type code `code` takes at least (all of them but a string's contents). */
  function MinWidth(code: int): nat
  {
    match code
    case 0 => 1
    case 1 => 2
    case 2 => 4
    case 3 => 4
    case 4 => 2
    case 5 => 5
    case 6 => 12
    case _ => 0
  }

  /** The bytes the payload of v takes on the wire. */
  function Width(v: Value): (n: nat)
    ensures n >= 1
  {
    MinWidth(TypeCodeOf(v)) + if v.Str? then |v.bytes| else 0
  }

  predicate IsSigned32(x: int)
  {
    -0x8000_0000 <= x < 0x8000_0000
  }

  /** The values the wire can carry: each field within the width of its encoding. */
  predicate InRange(v: Value)
  {
    match v
    case Byte(b) => -0x80 <= b < 0x80
    case Short(s) => 0 <= s < 0x1_0000
    case Int(i) => IsSigned32(i)
    case Float(raw) => |raw| == 4
    case Str(bytes) => |bytes| < 0x1_0000
    case Slot(id, count, damage) => 0 <= id < 0x1_0000 && 0 <= count < 0x100 && 0 <= damage < 0x1_0000
    case Vec3(x, y, z) => IsSigned32(x) && IsSigned32(y) && IsSigned32(z)
  }

  function EntryFor(v: Value, code: int, types: bool): Entry
  {
    if types then Typed(v, code) else Plain(v)
  }

  /**
   * What every decoded map satisfies: keys are 5-bit, values in range, and
   * each entry is typed exactly when types were asked for, with the type
   * code of its value.
   */
  predicate WellKeyed(m: map<int, Entry>, types: bool)
  {
    forall k | k in m ::
      && 0 <= k < 32
      && InRange(m[k].value)
      && if types then m[k].Typed? && m[k].code == TypeCodeOf(m[k].value) else m[k].Plain?
  }

  /**
   * What every payload reader promises: it never reports an unknown type, and
   * a value it parses has type code `code`, fits its encoding, and ends at
   * the returned offset, within the stream.
   */
  predicate ReadsCode(data: seq<uint8>, code: int, at: nat, p: Payload)
  {
    && !p.UnknownType?
    && (p.Parsed? ==> TypeCodeOf(p.value) == code && InRange(p.value) && p.next == at + Width(p.value) <= |data|)
  }

  /** `case 0`: `self::readByte($value{$offset})`, a signed byte. */
  function ByteAt(data: seq<uint8>, at: nat): (p: Payload)
    ensures ReadsCode(data, 0, at, p)
    ensures p.Parsed? <==> at + 1 <= |data|
  {
    if |data| < at + 1 then OutOfData
    else Parsed(Byte(ReadByte(data[at..at + 1], true)), at + 1)
  }

  /** `case 1`: `self::readLShort(substr($value, $offset, 2))`. */
  function ShortAt(data: seq<uint8>, at: nat): (p: Payload)
    ensures ReadsCode(data, 1, at, p)
    ensures p.Parsed? <==> at + 2 <= |data|
  {
    if |data| < at + 2 then OutOfData
    else Parsed(Short(ReadLShort(data[at..at + 2])), at + 2)
  }

  /** `case 2`: `self::readLInt(substr($value, $offset, 4))`. */
  function IntAt(data: seq<uint8>, at: nat): (p: Payload)
    ensures ReadsCode(data, 2, at, p)
    ensures p.Parsed? <==> at + 4 <= |data|
  {
    if |data| < at + 4 then OutOfData
    else Parsed(Int(ReadLInt(data[at..at + 4])), at + 4)
  }

  /** `case 3`: the four bytes `self::readLFloat` would decode. */
  function FloatAt(data: seq<uint8>, at: nat): (p: Payload)
    ensures ReadsCode(data, 3, at, p)
    ensures p.Parsed? <==> at + 4 <= |data|
  {
    if |data| < at + 4 then OutOfData
    else Parsed(Float(data[at..at + 4]), at + 4)
  }

  /** `case 4`: a 16-bit little-endian length, then that many bytes. */
  function StringAt(data: seq<uint8>, at: nat): (p: Payload)
    ensures ReadsCode(data, 4, at, p)
    ensures p.Parsed? <==> at + 2 <= |data| && at + 2 + ReadLShort(data[at..at + 2]) <= |data|
  {
    if |data| < at + 2 then OutOfData
    else
      var len := ReadLShort(data[at..at + 2]);
      if |data| < at + 2 + len then OutOfData
      else Parsed(Str(data[at + 2..at + 2 + len]), at + 2 + len)
  }

  /** `case 5`: an item slot, id, count and damage. */
  function SlotAt(data: seq<uint8>, at: nat): (p: Payload)
    ensures ReadsCode(data, 5, at, p)
    ensures p.Parsed? <==> at + 5 <= |data|
  {
    if |data| < at + 5 then OutOfData
    else
      var id := ReadLShort(data[at..at + 2]);
      var count := data[at + 2];
      var damage := ReadLShort(data[at + 3..at + 5]);
      Parsed(Slot(id, count, damage), at + 5)
  }

  /** `case 6`: three signed 32-bit little-endian coordinates. */
  function VectorAt(data: seq<uint8>, at: nat): (p: Payload)
    ensures ReadsCode(data, 6, at, p)
    ensures p.Parsed? <==> at + 12 <= |data|
  {
    if |data| < at + 12 then OutOfData
    else
      var x := ReadLInt(data[at..at + 4]);
      var y := ReadLInt(data[at + 4..at + 8]);
      var z := ReadLInt(data[at + 8..at + 12]);
      Parsed(Vec3(x, y, z), at + 12)
  }

  /**
   * The source's `switch ($type)`: read the payload of type `code` that
   * starts at offset `at`. Type code 7 has no case and ends the decode.
   */
  function ReadPayload(data: seq<uint8>, code: int, at: nat): (p: Payload)
    requires 0 <= code < 8
    ensures p.UnknownType? <==> code == 7
    ensures code < 7 ==>
      (p.Parsed? <==> at + MinWidth(code) <= |data|
                      && (code == 4 ==> at + 2 + ReadLShort(data[at..at + 2]) <= |data|))
    ensures code < 7 ==> ReadsCode(data, code, at, p)
  {
    match code
    case 0 => ByteAt(data, at)
    case 1 => ShortAt(data, at)
    case 2 => IntAt(data, at)
    case 3 => FloatAt(data, at)
    case 4 => StringAt(data, at)
    case 5 => SlotAt(data, at)
    case 6 => VectorAt(data, at)
    case _ => UnknownType
  }

  /** `ord($value{$i})`: a missing offset reads as `ord("")`, which is 0. */
  function TagAt(data: seq<uint8>, i: nat): uint8
  {
    if i < |data| then data[i] else 0
  }

  /** A reader of payloads: the payload of type code `code` that starts at offset `at`. */
  type Reader = (int, nat) -> Payload

  /** A reader the loop can run with: a payload it parses ends past its start, within the stream. */
  ghost predicate Advances(data: seq<uint8>, read: Reader)
  {
    forall code: int, at: nat :: read(code, at).Parsed? ==> at < read(code, at).next <= |data|
  }

  /** A reader whose parsed values have the type code they were read with and fit their encoding. */
  ghost predicate ReadsTyped(read: Reader)
  {
    forall code: int, at: nat :: read(code, at).Parsed? ==>
      TypeCodeOf(read(code, at).value) == code && InRange(read(code, at).value)
  }

  /** The source's `switch ($type)` over the stream `data`, as a reader. */
  function Switch(data: seq<uint8>): (read: Reader)
    ensures Advances(data, read)
  {
    (code: int, at: nat) => if 0 <= code < 8 then ReadPayload(data, code, at) else UnknownType
  }

  /** Every payload the switch parses is typed by the code it was read with. */
  lemma SwitchReadsTyped(data: seq<uint8>)
    ensures ReadsTyped(Switch(data))
  {
    forall code: int, at: nat | Switch(data)(code, at).Parsed?
      ensures TypeCodeOf(Switch(data)(code, at).value) == code && InRange(Switch(data)(code, at).value)
    {
      assert 0 <= code < 7;
      assert Switch(data)(code, at) == ReadPayload(data, code, at);
    }
  }

  /**
   * The source's `while` loop, with `read` for its `switch`, from the state
   * where tag byte b has been read and `$offset` is just past it, with m
   * decoded so far.
   */
  function Loop(data: seq<uint8>, read: Reader, types: bool, b: uint8, offset: nat, m: map<int, Entry>): Outcome
    requires Advances(data, read)
    decreases |data| + 1 - offset
  {
    if b == TERMINATOR || offset >= |data| then Decoded(m, offset)
    else
      match read(TypeCode(b), offset)
      case UnknownType => Decoded(map[], offset)
      case OutOfData => Truncated(offset)
      case Parsed(v, next) =>
        Loop(data, read, types, TagAt(data, next), next + 1, m[Key(b) := EntryFor(v, TypeCode(b), types)])
  }

  /** `readMetadata($value, $types)`, as a function of the stream. */
  function Decode(data: seq<uint8>, types: bool): Outcome
  {
    Loop(data, Switch(data), types, TagAt(data, 0), 1, map[])
  }

  /** One turn of the loop: a record whose payload parses is stored under its key. */
  lemma LoopStep(data: seq<uint8>, read: Reader, types: bool, b: uint8, offset: nat, m: map<int, Entry>, v: Value, next: nat)
    requires Advances(data, read)
    requires b != TERMINATOR && offset < |data|
    requires read(TypeCode(b), offset) == Parsed(v, next)
    ensures Loop(data, read, types, b, offset, m)
         == Loop(data, read, types, TagAt(data, next), next + 1, m[Key(b) := EntryFor(v, TypeCode(b), types)])
  {
  }

  /** Storing a value under a 5-bit key, with the type code of the value, keeps a map well keyed. */
  lemma StoreKeepsWellKeyed(m: map<int, Entry>, types: bool, k: int, v: Value, code: int)
    requires WellKeyed(m, types)
    requires 0 <= k < 32 && InRange(v) && TypeCodeOf(v) == code
    ensures WellKeyed(m[k := EntryFor(v, code, types)], types)
  {
  }

  /**
   * From any state of the loop, a decoded map is well keyed and the final
   * offset neither goes back nor passes one beyond the end; a truncation is
   * reported at an offset inside the stream.
   */
  lemma {:induction false} LoopOutcome(data: seq<uint8>, read: Reader, types: bool, b: uint8, offset: nat, m: map<int, Entry>)
    requires Advances(data, read) && ReadsTyped(read)
    requires 1 <= offset <= |data| + 1
    requires WellKeyed(m, types)
    ensures Loop(data, read, types, b, offset, m).Decoded? ==>
      WellKeyed(Loop(data, read, types, b, offset, m).entries, types)
      && offset <= Loop(data, read, types, b, offset, m).offset <= |data| + 1
    ensures Loop(data, read, types, b, offset, m).Truncated? ==> offset <= Loop(data, read, types, b, offset, m).at < |data|
    decreases |data| + 1 - offset
  {
    if b != TERMINATOR && offset < |data| && read(TypeCode(b), offset).Parsed? {
      var p := read(TypeCode(b), offset);
      StoreKeepsWellKeyed(m, types, Key(b), p.value, TypeCode(b));
      LoopOutcome(data, read, types, TagAt(data, p.next), p.next + 1, m[Key(b) := EntryFor(p.value, TypeCode(b), types)]);
    }
  }

  /**
   * What `readMetadata` returns: a map of well-keyed entries with an offset
   * past the first tag byte and at most one past the end of the stream, or a
   * truncation inside the stream.
   */
  lemma DecodeOutcome(data: seq<uint8>, types: bool)
    ensures Decode(data, types).Decoded? ==>
      WellKeyed(Decode(data, types).entries, types) && 1 <= Decode(data, types).offset <= |data| + 1
    ensures Decode(data, types).Truncated? ==> 1 <= Decode(data, types).at < |data|
  {
    SwitchReadsTyped(data);
    LoopOutcome(data, Switch(data), types, TagAt(data, 0), 1, map[]);
  }

  /** One record of a stream: a key and the value stored under it. */
  datatype Record = Record(key: int, value: Value)

  /**
   * A record a stream can carry: a 5-bit key, a value within its encoding,
   * and not a float under key 31, whose tag byte would be the terminator.
   */
  predicate Encodable(r: Record)
  {
    0 <= r.key < 32 && InRange(r.value) && !(r.value.Float? && r.key == 31)
  }

  predicate AllEncodable(rs: seq<Record>)
  {
    forall i | 0 <= i < |rs| :: Encodable(rs[i])
  }

  /** The tag byte of a record: the type code of its value in the high 3 bits, its key in the low 5. */
  function Tag(r: Record): (t: uint8)
    requires 0 <= r.key < 32
    ensures Key(t) == r.key && TypeCode(t) == TypeCodeOf(r.value)
    ensures t == TERMINATOR <==> r.value.Float? && r.key == 31
  {
    TypeCodeOf(r.value) * 32 + r.key
  }

  /** The map the loop builds from m for a run of records: each stored under its key, a later one replacing an earlier. */
  function Collect(m: map<int, Entry>, rs: seq<Record>, types: bool): map<int, Entry>
    decreases |rs|
  {
    if rs == [] then m
    else Collect(m[rs[0].key := EntryFor(rs[0].value, TypeCodeOf(rs[0].value), types)], rs[1..], types)
  }

  /** Storing one more record updates the map under that record's key only. */
  lemma {:induction false} CollectAppend(m: map<int, Entry>, rs: seq<Record>, r: Record, types: bool)
    ensures Collect(m, rs + [r], types) == Collect(m, rs, types)[r.key := EntryFor(r.value, TypeCodeOf(r.value), types)]
    decreases |rs|
  {
    if rs != [] {
      assert (rs + [r])[1..] == rs[1..] + [r];
      CollectAppend(m[rs[0].key := EntryFor(rs[0].value, TypeCodeOf(rs[0].value), types)], rs[1..], r, types);
    }
  }

  /** The keys of the map are those of m and of the records. */
  lemma {:induction false} CollectKeys(m: map<int, Entry>, rs: seq<Record>, types: bool, k: int)
    ensures k in Collect(m, rs, types) <==> k in m || exists i :: 0 <= i < |rs| && rs[i].key == k
    decreases |rs|
  {
    if rs != [] {
      CollectKeys(m[rs[0].key := EntryFor(rs[0].value, TypeCodeOf(rs[0].value), types)], rs[1..], types, k);
      if exists i :: 0 <= i < |rs[1..]| && rs[1..][i].key == k {
        var i :| 0 <= i < |rs[1..]| && rs[1..][i].key == k;
        assert rs[i + 1].key == k;
      }
      if exists i :: 0 <= i < |rs| && rs[i].key == k {
        var i :| 0 <= i < |rs| && rs[i].key == k;
        if i > 0 {
          assert rs[1..][i - 1].key == k;
        }
      }
    }
  }

  /** An encoder of payloads. */
  type Encoder = Value -> seq<uint8>

  /** An encoder that gives every value the width the readers expect of it. */
  ghost predicate Sized(enc: Encoder)
  {
    forall v: Value :: InRange(v) ==> |enc(v)| == Width(v)
  }

  /** A stream of records without its terminator: each record's tag byte, then its payload. */
  function Serialize(enc: Encoder, rs: seq<Record>): seq<uint8>
    requires AllEncodable(rs)
    decreases |rs|
  {
    if rs == [] then [] else [Tag(rs[0])] + enc(rs[0].value) + Serialize(enc, rs[1..])
  }

  /** The bytes the encoding of a run of records takes. */
  function Size(rs: seq<Record>): nat
    decreases |rs|
  {
    if rs == [] then 0 else 1 + Width(rs[0].value) + Size(rs[1..])
  }

  /** The bytes at offset `at` of `data` are the encoding of v. */
  predicate EncodedAt(data: seq<uint8>, enc: Encoder, v: Value, at: nat)
  {
    InRange(v) && at + Width(v) <= |data| && data[at..at + Width(v)] == enc(v)
  }

  /** A reader that reads back every value encoded by enc, ending just past its encoding. */
  ghost predicate ReadsBack(data: seq<uint8>, read: Reader, enc: Encoder)
  {
    forall v: Value, at: nat :: EncodedAt(data, enc, v, at) ==> read(TypeCodeOf(v), at) == Parsed(v, at + Width(v))
  }

  /** The records rs lie one after the other in data, the first with its tag byte at offset `at`. */
  predicate RunAt(data: seq<uint8>, enc: Encoder, rs: seq<Record>, at: nat)
    decreases |rs|
  {
    || rs == []
    || (&& Encodable(rs[0])
        && at < |data| && data[at] == Tag(rs[0])
        && EncodedAt(data, enc, rs[0].value, at + 1)
        && RunAt(data, enc, rs[1..], at + 1 + Width(rs[0].value)))
  }

  /** A run is its first record, in place, followed by the run of the others. */
  lemma RunCons(data: seq<uint8>, enc: Encoder, rs: seq<Record>, at: nat)
    requires rs != [] && Encodable(rs[0])
    requires at < |data| && data[at] == Tag(rs[0]) && EncodedAt(data, enc, rs[0].value, at + 1)
    requires RunAt(data, enc, rs[1..], at + 1 + Width(rs[0].value))
    ensures RunAt(data, enc, rs, at)
  {
  }

  /** A tag byte and its payload, placed between `pre` and the rest of a stream. */
  lemma RecordLayout(pre: seq<uint8>, t: uint8, ev: seq<uint8>, tail: seq<uint8>, post: seq<uint8>)
    ensures var data := pre + ([t] + ev + tail) + post;
      && data == (pre + [t] + ev) + tail + post
      && |pre| < |data| && data[|pre|] == t
      && data[|pre| + 1..|pre| + 1 + |ev|] == ev
  {
    var data := pre + ([t] + ev + tail) + post;
    assert data == (pre + [t] + ev) + tail + post;
    assert data == (pre + [t]) + ev + (tail + post);
    assert data[|pre| + 1..|pre| + 1 + |ev|] == ((pre + [t]) + ev + (tail + post))[|pre + [t]|..|pre + [t]| + |ev|];
  }

  /** A serialized run of records, wherever it is placed, lays the records out one after the other. */
  lemma {:induction false} SerializedRun(enc: Encoder, pre: seq<uint8>, rs: seq<Record>, post: seq<uint8>)
    requires Sized(enc) && AllEncodable(rs)
    ensures |Serialize(enc, rs)| == Size(rs)
    ensures RunAt(pre + Serialize(enc, rs) + post, enc, rs, |pre|)
    decreases |rs|
  {
    if rs != [] {
      var r, tail := rs[0], Serialize(enc, rs[1..]);
      var ev := enc(r.value);
      assert |ev| == Width(r.value);
      assert Serialize(enc, rs) == [Tag(r)] + ev + tail;
      var data := pre + Serialize(enc, rs) + post;
      RecordLayout(pre, Tag(r), ev, tail, post);
      assert data == pre + ([Tag(r)] + ev + tail) + post;
      SerializedRun(enc, pre + [Tag(r)] + ev, rs[1..], post);
      assert EncodedAt(data, enc, r.value, |pre| + 1);
      assert RunAt(data, enc, rs[1..], |pre| + 1 + Width(r.value));
      RunCons(data, enc, rs, |pre|);
    }
  }

  /** A serialized run at the start of a stream lays the records out from offset 0. */
  lemma SerializedStart(enc: Encoder, rs: seq<Record>, post: seq<uint8>)
    requires Sized(enc) && AllEncodable(rs)
    ensures |Serialize(enc, rs)| == Size(rs)
    ensures RunAt(Serialize(enc, rs) + post, enc, rs, 0)
  {
    SerializedRun(enc, [], rs, post);
    assert [] + Serialize(enc, rs) + post == Serialize(enc, rs) + post;
  }

  /**
   * The loop reads a run of records from offset `at` on, storing each under
   * its key, and resumes at the tag byte just past them.
   */
  lemma {:induction false} LoopRecords(data: seq<uint8>, read: Reader, enc: Encoder, types: bool, rs: seq<Record>, at: nat, m: map<int, Entry>)
    requires Advances(data, read) && ReadsBack(data, read, enc)
    requires RunAt(data, enc, rs, at)
    ensures Loop(data, read, types, TagAt(data, at), at + 1, m)
         == Loop(data, read, types, TagAt(data, at + Size(rs)), at + Size(rs) + 1, Collect(m, rs, types))
    decreases |rs|
  {
    if rs != [] {
      var r := rs[0];
      var next := at + 1 + Width(r.value);
      assert read(TypeCodeOf(r.value), at + 1) == Parsed(r.value, next);
      LoopStep(data, read, types, Tag(r), at + 1, m, r.value, next);
      LoopRecords(data, read, enc, types, rs[1..], next, m[r.key := EntryFor(r.value, TypeCodeOf(r.value), types)]);
    }
  }

  /** The loop reads a run of records that starts the stream. */
  lemma LoopFromStart(data: seq<uint8>, read: Reader, enc: Encoder, types: bool, rs: seq<Record>, m: map<int, Entry>)
    requires Advances(data, read) && ReadsBack(data, read, enc) && RunAt(data, enc, rs, 0)
    ensures Loop(data, read, types, TagAt(data, 0), 1, m)
         == Loop(data, read, types, TagAt(data, Size(rs)), Size(rs) + 1, Collect(m, rs, types))
  {
    LoopRecords(data, read, enc, types, rs, 0, m);
    assert 0 + Size(rs) == Size(rs);
  }

  /** The bytes of a payload as the source's readers take them: little-endian, two's complement. */
  function EncodeValue(v: Value): (e: seq<uint8>)
    ensures InRange(v) ==> |e| == Width(v)
  {
    match v
    case Byte(x) => ToLittleEndian(x, 1)
    case Short(s) => ToLittleEndian(s, 2)
    case Int(i) => ToLittleEndian(i, 4)
    case Float(raw) => raw
    case Str(bytes) => ToLittleEndian(|bytes|, 2) + bytes
    case Slot(id, count, damage) => ToLittleEndian(id, 2) + ToLittleEndian(count, 1) + ToLittleEndian(damage, 2)
    case Vec3(x, y, z) => ToLittleEndian(x, 4) + ToLittleEndian(y, 4) + ToLittleEndian(z, 4)
  }

  lemma EncodeValueSized()
    ensures Sized(EncodeValue)
  {
  }

  /** A stream of records, without its terminator, as the source's readers take it. */
  function EncodeRecords(rs: seq<Record>): seq<uint8>
    requires AllEncodable(rs)
  {
    Serialize(EncodeValue, rs)
  }

  /** Two pieces laid side by side in a stream can each be sliced out again. */
  lemma SplitSlice(data: seq<uint8>, at: nat, a: seq<uint8>, b: seq<uint8>)
    requires at + |a| + |b| <= |data| && data[at..at + |a| + |b|] == a + b
    ensures data[at..at + |a|] == a
    ensures data[at + |a|..at + |a| + |b|] == b
  {
    assert data[at..at + |a|] == data[at..at + |a| + |b|][..|a|];
    assert data[at + |a|..at + |a| + |b|] == data[at..at + |a| + |b|][|a|..];
  }

  /** `readLShort` reads back a 16-bit value written little-endian. */
  lemma LShortReadsBack(s: seq<uint8>, v: int)
    requires 0 <= v < 0x1_0000 && s == ToLittleEndian(v, 2)
    ensures ReadLShort(s) == v
  {
    Pow2Values();
    LittleEndianRoundTrip(v, 2);
    assert s[..2] == s;
  }

  /** `readLInt` reads back a signed 32-bit value written little-endian in two's complement. */
  lemma LIntReadsBack(s: seq<uint8>, v: int)
    requires IsSigned32(v) && s == ToLittleEndian(v, 4)
    ensures ReadLInt(s) == v
  {
    Pow2Values();
    LittleEndianRoundTrip(v, 4);
    ToSignedOfLowBits(v, 32);
    assert s[..4] == s;
  }

  /** `case 0` reads back a signed byte written in two's complement. */
  lemma ByteReadsBack(data: seq<uint8>, at: nat, x: int)
    requires EncodedAt(data, EncodeValue, Byte(x), at)
    ensures ByteAt(data, at) == Parsed(Byte(x), at + 1)
  {
    assert data[at..at + 1] == [x % 0x100];
    DivModUnique(x, 0x100, if x < 0 then -1 else 0, if x < 0 then x + 0x100 else x);
  }

  /** `case 4` parses a string whose length field and bytes are in place. */
  lemma StringParsed(data: seq<uint8>, at: nat, bytes: seq<uint8>)
    requires at + 2 + |bytes| <= |data|
    requires ReadLShort(data[at..at + 2]) == |bytes| && data[at + 2..at + 2 + |bytes|] == bytes
    ensures StringAt(data, at) == Parsed(Str(bytes), at + 2 + |bytes|)
  {
  }

  /** `case 4` reads back a string written as its 16-bit length and its bytes. */
  lemma StringReadsBack(data: seq<uint8>, at: nat, bytes: seq<uint8>)
    requires EncodedAt(data, EncodeValue, Str(bytes), at)
    ensures StringAt(data, at) == Parsed(Str(bytes), at + 2 + |bytes|)
  {
    SplitSlice(data, at, ToLittleEndian(|bytes|, 2), bytes);
    LShortReadsBack(data[at..at + 2], |bytes|);
    StringParsed(data, at, bytes);
  }

  /** `case 5` parses a slot whose three fields are in place. */
  lemma SlotParsed(data: seq<uint8>, at: nat, id: int, count: int, damage: int)
    requires at + 5 <= |data|
    requires ReadLShort(data[at..at + 2]) == id && data[at + 2] == count && ReadLShort(data[at + 3..at + 5]) == damage
    ensures SlotAt(data, at) == Parsed(Slot(id, count, damage), at + 5)
  {
  }

  /** `case 5` reads back an item slot written as id, count and damage. */
  lemma SlotReadsBack(data: seq<uint8>, at: nat, id: int, count: int, damage: int)
    requires EncodedAt(data, EncodeValue, Slot(id, count, damage), at)
    ensures SlotAt(data, at) == Parsed(Slot(id, count, damage), at + 5)
  {
    SplitSlice(data, at, ToLittleEndian(id, 2) + ToLittleEndian(count, 1), ToLittleEndian(damage, 2));
    SplitSlice(data, at, ToLittleEndian(id, 2), ToLittleEndian(count, 1));
    LShortReadsBack(data[at..at + 2], id);
    LShortReadsBack(data[at + 3..at + 5], damage);
    assert data[at + 2] == data[at + 2..at + 3][0] == count % 0x100;
    SlotParsed(data, at, id, count, damage);
  }

  /** `case 6` parses a vector whose three coordinates are in place. */
  lemma VectorParsed(data: seq<uint8>, at: nat, x: int, y: int, z: int)
    requires at + 12 <= |data|
    requires ReadLInt(data[at..at + 4]) == x && ReadLInt(data[at + 4..at + 8]) == y && ReadLInt(data[at + 8..at + 12]) == z
    ensures VectorAt(data, at) == Parsed(Vec3(x, y, z), at + 12)
  {
  }

  /** `case 6` reads back three signed 32-bit coordinates. */
  lemma VectorReadsBack(data: seq<uint8>, at: nat, x: int, y: int, z: int)
    requires EncodedAt(data, EncodeValue, Vec3(x, y, z), at)
    ensures VectorAt(data, at) == Parsed(Vec3(x, y, z), at + 12)
  {
    SplitSlice(data, at, ToLittleEndian(x, 4) + ToLittleEndian(y, 4), ToLittleEndian(z, 4));
    SplitSlice(data, at, ToLittleEndian(x, 4), ToLittleEndian(y, 4));
    LIntReadsBack(data[at..at + 4], x);
    LIntReadsBack(data[at + 4..at + 8], y);
    LIntReadsBack(data[at + 8..at + 12], z);
    VectorParsed(data, at, x, y, z);
  }

  /** The switch reads every encoded value back, ending just past its encoding. */
  lemma ReadEncoded(data: seq<uint8>, v: Value, at: nat)
    requires EncodedAt(data, EncodeValue, v, at)
    ensures ReadPayload(data, TypeCodeOf(v), at) == Parsed(v, at + Width(v))
  {
    match v
    case Byte(x) =>
      ByteReadsBack(data, at, x);
    case Short(s) =>
      LShortReadsBack(data[at..at + 2], s);
    case Int(i) =>
      LIntReadsBack(data[at..at + 4], i);
    case Float(raw) =>
    case Str(bytes) =>
      StringReadsBack(data, at, bytes);
    case Slot(id, count, damage) =>
      SlotReadsBack(data, at, id, count, damage);
    case Vec3(x, y, z) =>
      VectorReadsBack(data, at, x, y, z);
  }

  lemma SwitchReadsBack(data: seq<uint8>)
    ensures ReadsBack(data, Switch(data), EncodeValue)
  {
    forall v: Value, at: nat | EncodedAt(data, EncodeValue, v, at)
      ensures Switch(data)(TypeCodeOf(v), at) == Parsed(v, at + Width(v))
    {
      ReadEncoded(data, v, at);
    }
  }

  /** The source's switch, over a stream that holds records and then `post`, reads the records back. */
  lemma DecodeRecords(rs: seq<Record>, post: seq<uint8>, types: bool)
    requires AllEncodable(rs)
    ensures |EncodeRecords(rs)| == Size(rs)
    ensures var data := EncodeRecords(rs) + post;
      Decode(data, types) == Loop(data, Switch(data), types, TagAt(data, Size(rs)), Size(rs) + 1, Collect(map[], rs, types))
  {
    var data := EncodeRecords(rs) + post;
    EncodeValueSized();
    SwitchReadsBack(data);
    SerializedStart(EncodeValue, rs, post);
    LoopFromStart(data, Switch(data), EncodeValue, types, rs, map[]);
  }

  /**
   * A stream of records closed by the terminator decodes to the map that
   * storing the records in order gives, with `$offset` just past the
   * terminator; whatever follows the terminator in the packet is not read.
   */
  lemma DecodeEncoded(rs: seq<Record>, rest: seq<uint8>, types: bool)
    requires AllEncodable(rs)
    ensures Decode(EncodeRecords(rs) + [TERMINATOR] + rest, types)
         == Decoded(Collect(map[], rs, types), |EncodeRecords(rs)| + 1)
  {
    var e := EncodeRecords(rs);
    DecodeRecords(rs, [TERMINATOR] + rest, types);
    var data := e + ([TERMINATOR] + rest);
    assert e + [TERMINATOR] + rest == data;
    assert TagAt(data, |e|) == TERMINATOR;
  }

  /**
   * A tag byte with nothing after it ends the loop before its payload is
   * read: the tag is dropped and the records before it are kept.
   */
  lemma DecodeDanglingTag(rs: seq<Record>, t: uint8, types: bool)
    requires AllEncodable(rs)
    ensures Decode(EncodeRecords(rs) + [t], types) == Decoded(Collect(map[], rs, types), |EncodeRecords(rs)| + 1)
  {
    DecodeRecords(rs, [t], types);
  }

  /** Without the terminator the loop runs out of stream after the last record and returns the same map. */
  lemma DecodeUnterminated(rs: seq<Record>, types: bool)
    requires AllEncodable(rs)
    ensures Decode(EncodeRecords(rs), types) == Decoded(Collect(map[], rs, types), |EncodeRecords(rs)| + 1)
  {
    DecodeRecords(rs, [], types);
    assert EncodeRecords(rs) + [] == EncodeRecords(rs);
  }

  /**
   * A tag byte of type code 7 after a run of records ends the decode with
   * an empty map, dropping the records already read; `$offset` is left just
   * past that tag byte.
   */
  lemma DecodeAbortsOnType7(rs: seq<Record>, k: int, rest: seq<uint8>, types: bool)
    requires AllEncodable(rs) && 0 <= k < 32 && rest != []
    ensures Decode(EncodeRecords(rs) + [0xE0 + k] + rest, types) == Decoded(map[], |EncodeRecords(rs)| + 1)
  {
    var e := EncodeRecords(rs);
    DecodeRecords(rs, [0xE0 + k] + rest, types);
    var data := e + ([0xE0 + k] + rest);
    assert e + [0xE0 + k] + rest == data;
    assert TagAt(data, |e|) == 0xE0 + k;
    assert Switch(data)(7, |e| + 1) == UnknownType;
  }

  /** When two records share a key, the later one's value is what the decoded map holds. */
  lemma LaterRecordWins(rs: seq<Record>, r: Record, rest: seq<uint8>, types: bool)
    requires AllEncodable(rs + [r])
    ensures var o := Decode(EncodeRecords(rs + [r]) + [TERMINATOR] + rest, types);
      o.Decoded? && r.key in o.entries && o.entries[r.key] == EntryFor(r.value, TypeCodeOf(r.value), types)
  {
    DecodeEncoded(rs + [r], rest, types);
    CollectAppend(map[], rs, r, types);
  }

  /**
   * The source's `switch ($type)`: read the payload of type `code` that
   * starts at `offset`, moving the cursor over it field by field.
   */
  method ReadValue(data: seq<uint8>, code: int, at: nat) returns (p: Payload)
    requires 0 <= code < 8
    requires at < |data|  // the loop only enters the switch when `isset($value{$offset})`
    ensures p == ReadPayload(data, code, at)
  {
    var offset := at;
    var v: Value;
    match code {
      case 0 =>
        v := Byte(ReadByte(data[offset..offset + 1], true));
        offset := offset + 1;
      case 1 =>
        if |data| - offset < 2 {
          return OutOfData;
        }
        v := Short(ReadLShort(data[offset..offset + 2]));
        offset := offset + 2;
      case 2 =>
        if |data| - offset < 4 {
          return OutOfData;
        }
        v := Int(ReadLInt(data[offset..offset + 4]));
        offset := offset + 4;
      case 3 =>
        if |data| - offset < 4 {
          return OutOfData;
        }
        v := Float(data[offset..offset + 4]);
        offset := offset + 4;
      case 4 =>
        if |data| - offset < 2 {
          return OutOfData;
        }
        var len := ReadLShort(data[offset..offset + 2]);
        offset := offset + 2;
        if |data| - offset < len {
          return OutOfData;
        }
        v := Str(data[offset..offset + len]);
        offset := offset + len;
      case 5 =>
        if |data| - offset < 5 {
          return OutOfData;
        }
        var id := ReadLShort(data[offset..offset + 2]);
        offset := offset + 2;
        var count := data[offset];
        offset := offset + 1;
        var damage := ReadLShort(data[offset..offset + 2]);
        offset := offset + 2;
        v := Slot(id, count, damage);
      case 6 =>
        if |data| - offset < 12 {
          return OutOfData;
        }
        var xyz: seq<int> := [];
        var i := 0;
        while i < 3
          invariant 0 <= i <= 3 && |xyz| == i && offset == at + 4 * i
          invariant i > 0 ==> xyz[0] == ReadLInt(data[at..at + 4])
          invariant i > 1 ==> xyz[1] == ReadLInt(data[at + 4..at + 8])
          invariant i > 2 ==> xyz[2] == ReadLInt(data[at + 8..at + 12])
        {
          xyz := xyz + [ReadLInt(data[offset..offset + 4])];
          offset := offset + 4;
          i := i + 1;
        }
        v := Vec3(xyz[0], xyz[1], xyz[2]);
      case 8 =>
        // The source's Long case: a 3-bit type code never reaches 8.
        assert false;
      case _ =>
        return UnknownType;
    }
    return Parsed(v, offset);
  }

  /** `Binary::readMetadata`: the source's loop, returning the final `$offset` with the map. */
  method ReadMetadata(value: seq<uint8>, types: bool) returns (r: Outcome)
    ensures r == Decode(value, types)
  {
    var offset: nat := 0;
    var m: map<int, Entry> := map[];
    var b := TagAt(value, offset);
    offset := offset + 1;
    while b != TERMINATOR && offset < |value|
      invariant Loop(value, Switch(value), types, b, offset, m) == Decode(value, types)
      decreases |value| + 1 - offset
    {
      var bottom := Key(b);
      var code := TypeCode(b);
      var p := ReadValue(value, code, offset);
      match p {
        case UnknownType =>
          return Decoded(map[], offset);
        case OutOfData =>
          return Truncated(offset);
        case Parsed(v, next) =>
          LoopStep(value, Switch(value), types, b, offset, m, v, next);
          m := m[bottom := EntryFor(v, code, types)];
          b := TagAt(value, next);
          offset := next + 1;
      }
    }
    return Decoded(m, offset);
  }
}
