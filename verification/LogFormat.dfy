/** The bytes of a recording (docs/LOG_FORMAT.md): 16-byte binary records and the 8-byte
    companion entries that belong to them by position. */
module LogFormat {
  import opened CArithmetic

  const TWO_TO_31 := 0x8000_0000
  const TWO_TO_32 := 0x1_0000_0000
  const TWO_TO_63 := 0x8000_0000_0000_0000
  const TWO_TO_64 := 0x1_0000_0000_0000_0000
  const RECORD_BYTES := 16
  const UTC_BYTES := 8

  type Word32 = x: nat | x < TWO_TO_32
  type Word64 = x: nat | x < TWO_TO_64
  type Int64 = x: int | -TWO_TO_63 <= x < TWO_TO_63

  datatype Record = Record(id: Word32, data: Word64)

  /** A sample on its way to the card, with the UTC it was given when it was accepted. */
  datatype Sample = Sample(record: Record, utcMs: Int64)

  // ---------------------------------------------------------------------------
  // Little-endian words.
  // ---------------------------------------------------------------------------

  function Power256(n: nat): (power: nat)
    ensures 0 < power
  {
    if n == 0 then 1 else 256 * Power256(n - 1)
  }

  function ToBytes(value: nat, n: nat): (bytes: seq<Byte>)
    ensures |bytes| == n
  {
    if n == 0 then [] else [value % 256] + ToBytes(value / 256, n - 1)
  }

  function FromBytes(bytes: seq<Byte>): nat {
    if bytes == [] then 0 else bytes[0] + 256 * FromBytes(bytes[1..])
  }

  lemma {:induction false} BytesRoundTrip(value: nat, n: nat)
    requires value < Power256(n)
    ensures FromBytes(ToBytes(value, n)) == value
  {
    if n == 0 {
    } else {
      BytesRoundTrip(value / 256, n - 1);
      assert ToBytes(value, n)[1..] == ToBytes(value / 256, n - 1);
    }
  }

  lemma {:induction false} FromBytesBound(bytes: seq<Byte>)
    ensures FromBytes(bytes) < Power256(|bytes|)
  {
    if bytes == [] {
    } else {
      FromBytesBound(bytes[1..]);
    }
  }

  lemma EightBytes()
    ensures Power256(8) == TWO_TO_64
  {
    assert Power256(4) == 256 * Power256(3) == 0x1_0000_0000;
    assert Power256(6) == 256 * Power256(5) == 0x1_0000_0000_0000;
  }

  // ---------------------------------------------------------------------------
  // Records and companion entries.
  // ---------------------------------------------------------------------------

  function RecordBytes(s: Sample): (bytes: seq<Byte>)
    ensures |bytes| == RECORD_BYTES
  {
    ToBytes(s.record.id, 8) + ToBytes(s.record.data, 8)
  }

  function UtcBytes(s: Sample): (bytes: seq<Byte>)
    ensures |bytes| == UTC_BYTES
  {
    ToBytes(s.utcMs % TWO_TO_64, 8)
  }

  function Encode(bytesOf: Sample -> seq<Byte>, samples: seq<Sample>): seq<Byte> {
    if samples == [] then []
    else Encode(bytesOf, samples[..|samples| - 1]) + bytesOf(samples[|samples| - 1])
  }

  function Records(samples: seq<Sample>): seq<Byte> {
    Encode(RecordBytes, samples)
  }

  function Utcs(samples: seq<Sample>): seq<Byte> {
    Encode(UtcBytes, samples)
  }

  lemma {:induction false} EncodeLength(bytesOf: Sample -> seq<Byte>, width: nat, samples: seq<Sample>)
    requires forall s :: |bytesOf(s)| == width
    ensures |Encode(bytesOf, samples)| == |samples| * width
  {
    if samples == [] {
    } else {
      var n := |samples| - 1;
      EncodeLength(bytesOf, width, samples[..n]);
      assert (n + 1) * width == n * width + width;
    }
  }

  lemma {:induction false} EncodeAppend(bytesOf: Sample -> seq<Byte>, a: seq<Sample>, b: seq<Sample>)
    ensures Encode(bytesOf, a + b) == Encode(bytesOf, a) + Encode(bytesOf, b)
  {
    if b == [] {
      assert a + b == a;
    } else {
      EncodeAppend(bytesOf, a, b[..|b| - 1]);
      assert (a + b)[..|a + b| - 1] == a + b[..|b| - 1];
    }
  }

  /** The first n samples occupy the first n * width bytes. */
  lemma EncodePrefix(bytesOf: Sample -> seq<Byte>, width: nat, samples: seq<Sample>, n: nat)
    requires (forall s :: |bytesOf(s)| == width) && n <= |samples|
    ensures n * width <= |Encode(bytesOf, samples)| == |samples| * width
    ensures Encode(bytesOf, samples)[..n * width] == Encode(bytesOf, samples[..n])
  {
    EncodeLength(bytesOf, width, samples);
    EncodeLength(bytesOf, width, samples[..n]);
    EncodeAppend(bytesOf, samples[..n], samples[n..]);
    assert samples == samples[..n] + samples[n..];
  }

  function Chunk(bytes: seq<Byte>, width: nat, i: nat): seq<Byte>
    requires (i + 1) * width <= |bytes|
  {
    bytes[i * width..(i + 1) * width]
  }

  /** The i-th chunk of an encoding is the i-th sample's. */
  lemma EncodeChunk(bytesOf: Sample -> seq<Byte>, width: nat, samples: seq<Sample>, i: nat)
    requires (forall s :: |bytesOf(s)| == width) && i < |samples|
    ensures (i + 1) * width <= |Encode(bytesOf, samples)|
    ensures Chunk(Encode(bytesOf, samples), width, i) == bytesOf(samples[i])
  {
    EncodePrefix(bytesOf, width, samples, i + 1);
    EncodeLength(bytesOf, width, samples[..i]);
    assert samples[..i + 1][..i] == samples[..i];
    assert (i + 1) * width == i * width + width;
    var all, first := Encode(bytesOf, samples), Encode(bytesOf, samples[..i]);
    assert all[..(i + 1) * width] == first + bytesOf(samples[i]);
    assert Chunk(all, width, i) == all[..(i + 1) * width][i * width..];
  }

  // ---------------------------------------------------------------------------
  // Reading back.
  // ---------------------------------------------------------------------------

  function RecordCount(file: seq<Byte>): nat {
    |file| / RECORD_BYTES
  }

  function RecordAt(file: seq<Byte>, i: nat): Record
    requires i < RecordCount(file)
  {
    var bytes := Chunk(file, RECORD_BYTES, i);
    FromBytesBound(bytes[..8]);
    FromBytesBound(bytes[8..]);
    EightBytes();
    Record(FromBytes(bytes[..8]) % TWO_TO_32, FromBytes(bytes[8..]))
  }

  /** A word of eight bytes is its low four and its high four, the low byte first in each. */
  lemma EightByteWord(bytes: seq<Byte>)
    requires |bytes| == 8
    ensures FromBytes(bytes) == FourBytes(bytes, 0) + 4_294_967_296 * FourBytes(bytes, 4)
    ensures FourBytes(bytes, 0) < 4_294_967_296 && FourBytes(bytes, 4) < 4_294_967_296
  {
    LastFour(bytes[4..]);
    FourThenRest(bytes);
  }

  /** Four bytes as a number, the low one first. */
  function FourBytes(bytes: seq<Byte>, at: nat): nat
    requires at + 4 <= |bytes|
  {
    bytes[at] + 256 * (bytes[at + 1] as nat) + 65_536 * (bytes[at + 2] as nat) + 16_777_216 * (bytes[at + 3] as nat)
  }

  lemma LastFour(bytes: seq<Byte>)
    requires |bytes| == 4
    ensures FromBytes(bytes) == FourBytes(bytes, 0)
  {
    var b1, b2, b3 := bytes[1..], bytes[2..], bytes[3..];
    assert b1[1..] == b2 && b2[1..] == b3 && b3[1..] == [];
    assert FromBytes(b3) == bytes[3];
    assert FromBytes(b2) == bytes[2] + 256 * FromBytes(b3);
    assert FromBytes(b1) == bytes[1] + 256 * FromBytes(b2);
  }

  lemma FourThenRest(bytes: seq<Byte>)
    requires |bytes| == 8
    ensures FromBytes(bytes) == FourBytes(bytes, 0) + 4_294_967_296 * FromBytes(bytes[4..])
  {
    var b1, b2, b3 := bytes[1..], bytes[2..], bytes[3..];
    assert b1[1..] == b2 && b2[1..] == b3 && b3[1..] == bytes[4..];
    assert FromBytes(b3) == bytes[3] + 256 * FromBytes(bytes[4..]);
    assert FromBytes(b2) == bytes[2] + 256 * FromBytes(b3);
    assert FromBytes(b1) == bytes[1] + 256 * FromBytes(b2);
  }

  /** The record read at a position, from the bytes there: a 32-bit identifier in bytes 0 to 3, the
      payload in bytes 8 to 15, of which 12 to 15 are the high half. */
  lemma RecordInBytes(file: seq<Byte>, i: nat)
    requires i < RecordCount(file)
    ensures 16 * i + 16 <= |file|
    ensures RecordAt(file, i).id == FourBytes(file, 16 * i)
    ensures RecordAt(file, i).data == FourBytes(file, 16 * i + 8) + 4_294_967_296 * FourBytes(file, 16 * i + 12)
    ensures FourBytes(file, 16 * i + 8) < 4_294_967_296 && FourBytes(file, 16 * i + 12) < 4_294_967_296
  {
    var bytes := Chunk(file, RECORD_BYTES, i);
    assert forall k :: 0 <= k < 16 ==> bytes[k] == file[16 * i + k];
    EightByteWord(bytes[..8]);
    EightByteWord(bytes[8..]);
  }

  function SignedWord(x: Word64): Int64 {
    if x < TWO_TO_63 then x else x - TWO_TO_64
  }

  /** The companion entry at position i: 0 when it is missing, incomplete or not positive. */
  function UtcEntry(companion: seq<Byte>, i: nat): Int64 {
    if (i + 1) * UTC_BYTES <= |companion| then
      var bytes := Chunk(companion, UTC_BYTES, i);
      FromBytesBound(bytes);
      EightBytes();
      var utcMs := SignedWord(FromBytes(bytes));
      if utcMs > 0 then utcMs else 0
    else 0
  }

  /** The entry read at a position, from the bytes there: blank unless all eight are there and the
      number they write in two's complement is positive. */
  lemma UtcInBytes(companion: seq<Byte>, i: nat)
    ensures UtcEntry(companion, i)
            == if 8 * i + 8 <= |companion| && companion[8 * i + 7] < 128
               then FourBytes(companion, 8 * i) + 4_294_967_296 * FourBytes(companion, 8 * i + 4) else 0
  {
    if 8 * i + 8 <= |companion| {
      var bytes := Chunk(companion, UTC_BYTES, i);
      assert forall k :: 0 <= k < 8 ==> bytes[k] == companion[8 * i + k];
      EightByteWord(bytes);
    }
  }

  lemma WordRoundTrip(word: nat)
    requires word < TWO_TO_64
    ensures FromBytes(ToBytes(word, 8)) == word
  {
    EightBytes();
    BytesRoundTrip(word, 8);
  }

  lemma RecordRoundTrip(s: Sample)
    ensures RecordCount(RecordBytes(s)) == 1 && RecordAt(RecordBytes(s), 0) == s.record
  {
    var bytes := RecordBytes(s);
    WordRoundTrip(s.record.id);
    WordRoundTrip(s.record.data);
    assert Chunk(bytes, RECORD_BYTES, 0) == bytes;
    assert bytes[..8] == ToBytes(s.record.id, 8) && bytes[8..] == ToBytes(s.record.data, 8);
  }

  /** What the logger writes for a sample, byte for byte: the identifier in four bytes and four zeros,
      then the low and the high half of the payload. */
  lemma RecordWrittenInBytes(s: Sample)
    ensures var bytes := RecordBytes(s);
            && FourBytes(bytes, 0) == s.record.id && FourBytes(bytes, 4) == 0
            && FourBytes(bytes, 8) == s.record.data % 4_294_967_296
            && FourBytes(bytes, 12) == s.record.data / 4_294_967_296
  {
    var bytes := RecordBytes(s);
    WordRoundTrip(s.record.id);
    assert bytes[..8] == ToBytes(s.record.id, 8);
    EightByteWord(bytes[..8]);
    RecordRoundTrip(s);
    RecordInBytes(bytes, 0);
  }

  /** And the entry of its UTC: eight bytes, in two's complement. */
  lemma UtcWrittenInBytes(s: Sample)
    ensures var bytes := UtcBytes(s);
            FourBytes(bytes, 0) + 4_294_967_296 * FourBytes(bytes, 4)
            == s.utcMs + if s.utcMs < 0 then 18_446_744_073_709_551_616 else 0
  {
    WordRoundTrip(s.utcMs % TWO_TO_64);
    EightByteWord(UtcBytes(s));
  }

  lemma UtcRoundTrip(s: Sample)
    ensures UtcEntry(UtcBytes(s), 0) == if s.utcMs > 0 then s.utcMs else 0
  {
    WordRoundTrip(s.utcMs % TWO_TO_64);
    assert Chunk(UtcBytes(s), UTC_BYTES, 0) == UtcBytes(s);
  }

  /** What the logger guarantees about the two files: the binary starts with the records of
      `aligned`, and the companion is some initial part of their UTC entries. */
  predicate Companion(log: seq<Byte>, companion: seq<Byte>, aligned: seq<Sample>) {
    Records(aligned) <= log && companion <= Utcs(aligned)
  }

  /** Whoever reads the two files position by position gets, for every record, its own UTC or a
      blank, never another record's. */
  lemma OwnUtcOrBlank(log: seq<Byte>, companion: seq<Byte>, aligned: seq<Sample>, i: nat)
    requires Companion(log, companion, aligned)
    ensures UtcEntry(companion, i) != 0 ==>
              && i < |aligned| && i < RecordCount(log)
              && RecordAt(log, i) == aligned[i].record && UtcEntry(companion, i) == aligned[i].utcMs
  {
    EncodeLength(UtcBytes, UTC_BYTES, aligned);
    if (i + 1) * UTC_BYTES <= |companion| {
      assert i < |aligned|;
      EncodeChunk(UtcBytes, UTC_BYTES, aligned, i);
      assert Chunk(companion, UTC_BYTES, i) == Chunk(Utcs(aligned), UTC_BYTES, i);
      SameEntry(companion, UtcBytes(aligned[i]), i);
      UtcRoundTrip(aligned[i]);
      StoredRecord(log, aligned, i);
    }
  }

  lemma SameEntry(companion: seq<Byte>, entry: seq<Byte>, i: nat)
    requires (i + 1) * UTC_BYTES <= |companion| && |entry| == UTC_BYTES
    requires Chunk(companion, UTC_BYTES, i) == entry
    ensures UtcEntry(companion, i) == UtcEntry(entry, 0)
  {
    assert Chunk(entry, UTC_BYTES, 0) == entry;
  }

  lemma StoredRecord(log: seq<Byte>, stored: seq<Sample>, i: nat)
    requires Records(stored) <= log && i < |stored|
    ensures i < RecordCount(log) && RecordAt(log, i) == stored[i].record
  {
    EncodeChunk(RecordBytes, RECORD_BYTES, stored, i);
    var bytes := RecordBytes(stored[i]);
    assert Chunk(log, RECORD_BYTES, i) == Chunk(Records(stored), RECORD_BYTES, i) == bytes;
    assert Chunk(bytes, RECORD_BYTES, 0) == bytes;
    RecordRoundTrip(stored[i]);
  }

  /** Reading back a complete recording gives every sample's record and UTC, in order. */
  lemma CompleteRecordingReadsBack(samples: seq<Sample>, i: nat)
    requires i < |samples|
    ensures RecordCount(Records(samples)) == |samples|
    ensures RecordAt(Records(samples), i) == samples[i].record
    ensures UtcEntry(Utcs(samples), i) == if samples[i].utcMs > 0 then samples[i].utcMs else 0
  {
    EncodeLength(RecordBytes, RECORD_BYTES, samples);
    StoredRecord(Records(samples), samples, i);
    EncodeChunk(UtcBytes, UTC_BYTES, samples, i);
    SameEntry(Utcs(samples), UtcBytes(samples[i]), i);
    UtcRoundTrip(samples[i]);
  }
}
