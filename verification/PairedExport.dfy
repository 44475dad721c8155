/** The powertrain export (master-node/src/web/web_server.c): one pass over a recording that
    holds the latest value of every supporting signal, and the as-of join it computes. */
module PairedExport {
  import opened CArithmetic
  import opened LogFormat
  import opened Wrappers
  import Log = DataLogger

  const FRONT_BRAKE := 0x0B1
  const BEARING_ENCODER := 0x0B9
  const ENGINE_RPM := 0x0BB
  const GPS_SPEED := 0x700
  const GPS_LATITUDE := 0x701
  const GPS_LONGITUDE := 0x702
  const RECENT_MS := 100

  /** A record as the exporter takes it apart: 11-bit id, 32-bit time, signed 32-bit value. */
  datatype Reading = Reading(id: nat, timestamp: Word32, value: int)

  function Unpack(r: Record): Reading {
    var low := r.data % TWO_TO_32;
    Reading(r.id % 0x800, r.data / TWO_TO_32, if low < TWO_TO_31 then low else low - TWO_TO_32)
  }

  /** One row; the values are the integers behind the formatted cells. */
  datatype Row = Row(timestamp: Word32, utcMs: Int64, brake: Option<int>, bearing: int, engine: int,
                     latitude: Option<int>, longitude: Option<int>, speed: Option<int>)

  function Readings(file: seq<Byte>): (rs: seq<Reading>)
    ensures |rs| == RecordCount(file)
  {
    seq(RecordCount(file), i requires 0 <= i < RecordCount(file) => Unpack(RecordAt(file, i)))
  }

  /** One companion entry, or a blank, for every record. */
  function Entries(companion: seq<Byte>, n: nat): (us: seq<Int64>)
    ensures |us| == n
  {
    seq(n, i requires 0 <= i < n => UtcEntry(companion, i))
  }

  // ---------------------------------------------------------------------------
  // The join.
  // ---------------------------------------------------------------------------

  /** The position of the last reading of signal `id` before position `n`, or -1. */
  function LastBefore(rs: seq<Reading>, id: nat, n: nat): (j: int)
    requires n <= |rs|
    ensures -1 <= j < n
  {
    if n == 0 then -1
    else if rs[n - 1].id == id then n - 1
    else LastBefore(rs, id, n - 1)
  }

  lemma {:induction false} LastBeforeIsLast(rs: seq<Reading>, id: nat, n: nat)
    requires n <= |rs|
    ensures var j := LastBefore(rs, id, n);
            && (0 <= j ==> rs[j].id == id)
            && forall k :: j < k < n ==> rs[k].id != id
  {
    if n > 0 && rs[n - 1].id != id {
      LastBeforeIsLast(rs, id, n - 1);
    }
  }

  /** How much later `now` is than `past`, on a 32-bit clock that wraps. */
  function Age(now: Word32, past: Word32): Word32 {
    (now - past) % TWO_TO_32
  }

  /** The last earlier value of a signal, if it was sampled at most `limit` before reading i. */
  function AsOf(rs: seq<Reading>, id: nat, i: nat, limit: nat): Option<int>
    requires i < |rs|
  {
    var j := LastBefore(rs, id, i);
    if 0 <= j && Age(rs[i].timestamp, rs[j].timestamp) <= limit then Some(rs[j].value) else None
  }

  predicate HasRow(rs: seq<Reading>, i: nat)
    requires i < |rs|
  {
    rs[i].id == ENGINE_RPM && AsOf(rs, BEARING_ENCODER, i, RECENT_MS).Some?
  }

  function RowOf(rs: seq<Reading>, us: seq<Int64>, i: nat): Row
    requires i < |rs| == |us| && HasRow(rs, i)
  {
    Row(rs[i].timestamp, us[i], AsOf(rs, FRONT_BRAKE, i, RECENT_MS),
        AsOf(rs, BEARING_ENCODER, i, RECENT_MS).value, rs[i].value,
        AsOf(rs, GPS_LATITUDE, i, TWO_TO_31 - 1), AsOf(rs, GPS_LONGITUDE, i, TWO_TO_31 - 1),
        AsOf(rs, GPS_SPEED, i, TWO_TO_31 - 1))
  }

  /** The export of the first n records. */
  function Join(rs: seq<Reading>, us: seq<Int64>, n: nat): seq<Row>
    requires n <= |rs| == |us|
  {
    if n == 0 then []
    else Join(rs, us, n - 1) + if HasRow(rs, n - 1) then [RowOf(rs, us, n - 1)] else []
  }

  /** How many of the first n readings get a row: the place a row has in the export. */
  function RowsBefore(rs: seq<Reading>, n: nat): nat
    requires n <= |rs|
  {
    if n == 0 then 0 else RowsBefore(rs, n - 1) + if HasRow(rs, n - 1) then 1 else 0
  }

  /** Every reading that qualifies has its row, at the place given by the qualifying readings
      before it in the file; and there are no others. */
  lemma {:induction false} JoinIsComplete(rs: seq<Reading>, us: seq<Int64>, i: nat, n: nat)
    requires i < n <= |rs| == |us|
    ensures |Join(rs, us, n)| == RowsBefore(rs, n)
    ensures HasRow(rs, i) ==> RowsBefore(rs, i) < RowsBefore(rs, n)
                              && Join(rs, us, n)[RowsBefore(rs, i)] == RowOf(rs, us, i)
    decreases n
  {
    if i < n - 1 {
      JoinIsComplete(rs, us, i, n - 1);
    } else if i > 0 {
      JoinIsComplete(rs, us, i - 1, n - 1);
    }
  }

  /** Conversely, every row of the export is the row of one reading that qualifies. */
  lemma {:induction false} RowHasItsReading(rs: seq<Reading>, us: seq<Int64>, n: nat, r: nat) returns (i: nat)
    requires n <= |rs| == |us| && r < |Join(rs, us, n)|
    ensures i < n && HasRow(rs, i) && RowsBefore(rs, i) == r && Join(rs, us, n)[r] == RowOf(rs, us, i)
    decreases n
  {
    if r < |Join(rs, us, n - 1)| {
      i := RowHasItsReading(rs, us, n - 1, r);
    } else {
      i := n - 1;
      if i > 0 { JoinIsComplete(rs, us, i - 1, i); }
    }
  }

  /** A GPS reading has an age limit after all: at 2^31 ms of the wrapping clock its cell is blank,
      one millisecond sooner it is not. */
  lemma GpsReadingTurnsBlank(speed: int, bearing: int, engine: int, us: seq<Int64>, age: Word32)
    requires |us| == 3
    ensures var rs := [Reading(GPS_SPEED, 0, speed), Reading(BEARING_ENCODER, age, bearing),
                       Reading(ENGINE_RPM, age, engine)];
            && HasRow(rs, 2) && Age(rs[2].timestamp, rs[0].timestamp) == age
            && RowOf(rs, us, 2).speed == if age < TWO_TO_31 then Some(speed) else None
  {
    var rs := [Reading(GPS_SPEED, 0, speed), Reading(BEARING_ENCODER, age, bearing), Reading(ENGINE_RPM, age, engine)];
    assert LastBefore(rs, GPS_SPEED, 1) == 0 && LastBefore(rs, GPS_SPEED, 2) == 0;
    assert LastBefore(rs, BEARING_ENCODER, 2) == 1;
  }

  // ---------------------------------------------------------------------------
  // The export in the records of the file alone.
  // ---------------------------------------------------------------------------

  /** The last record before record i that carries an identifier. */
  ghost predicate LastRecord(file: seq<Byte>, id: nat, i: nat, j: nat)
    requires i < RecordCount(file)
  {
    && j < i && RecordAt(file, j).id % 2048 == id
    && forall k :: j < k < i ==> RecordAt(file, k).id % 2048 != id
  }

  /** It is less than `limit` milliseconds older than record i, on a clock that wraps at 32 bits, and
      the low half of its payload is v as a signed number. */
  ghost predicate Gives(file: seq<Byte>, i: nat, j: nat, limit: nat, v: int)
    requires i < RecordCount(file) && j < RecordCount(file)
  {
    && (RecordAt(file, i).data / 4_294_967_296 - RecordAt(file, j).data / 4_294_967_296) % 4_294_967_296 < limit
    && -2_147_483_648 <= v < 2_147_483_648 && v % 4_294_967_296 == RecordAt(file, j).data % 4_294_967_296
  }

  /** A cell shows v if and only if the last earlier record of its signal is recent enough and says v. */
  ghost predicate CellIsRight(cell: Option<int>, file: seq<Byte>, id: nat, i: nat, limit: nat)
    requires i < RecordCount(file)
  {
    && (cell.Some? ==> exists j :: LastRecord(file, id, i, j) && Gives(file, i, j, limit, cell.value))
    && (cell.None? ==> forall j, v :: LastRecord(file, id, i, j) ==> !Gives(file, i, j, limit, v))
  }

  /** Every cell of the row of record i. */
  ghost predicate RowIsRight(row: Row, file: seq<Byte>, companion: seq<Byte>, i: nat)
    requires i < RecordCount(file)
  {
    && RecordAt(file, i).id % 2048 == 0x0BB
    && row.timestamp == RecordAt(file, i).data / 4_294_967_296
    && -2_147_483_648 <= row.engine < 2_147_483_648
    && row.engine % 4_294_967_296 == RecordAt(file, i).data % 4_294_967_296
    && row.utcMs == UtcEntry(companion, i)
    && CellIsRight(Some(row.bearing), file, 0x0B9, i, 101)
    && CellIsRight(row.brake, file, 0x0B1, i, 101)
    && CellIsRight(row.latitude, file, 0x701, i, 2_147_483_648)
    && CellIsRight(row.longitude, file, 0x702, i, 2_147_483_648)
    && CellIsRight(row.speed, file, 0x700, i, 2_147_483_648)
  }

  /** The engine records that get a row: those with a bearing record at most 100 ms before. */
  ghost predicate GetsRow(file: seq<Byte>, i: nat)
    requires i < RecordCount(file)
  {
    && RecordAt(file, i).id % 2048 == 0x0BB
    && exists j, v :: LastRecord(file, 0x0B9, i, j) && Gives(file, i, j, 101, v)
  }

  /** `origin` says which record each row is of: the engine records that get a row, in file order. */
  ghost predicate IsExport(rows: seq<Row>, file: seq<Byte>, companion: seq<Byte>, origin: seq<nat>) {
    && |origin| == |rows|
    && (forall r {:trigger origin[r]} :: 0 <= r < |rows| ==>
          origin[r] < RecordCount(file) && RowIsRight(rows[r], file, companion, origin[r]))
    && (forall q, r :: 0 <= q < r < |rows| ==> origin[q] < origin[r])
    && (forall i {:trigger GetsRow(file, i)} :: 0 <= i < RecordCount(file) ==> (GetsRow(file, i) <==> i in origin))
  }

  lemma ReadingInRecord(file: seq<Byte>, k: nat)
    requires k < RecordCount(file)
    ensures var r := Readings(file)[k];
            && r.id == RecordAt(file, k).id % 2048 && r.timestamp == RecordAt(file, k).data / 4_294_967_296
            && -2_147_483_648 <= r.value < 2_147_483_648
            && r.value % 4_294_967_296 == RecordAt(file, k).data % 4_294_967_296
  {
  }

  lemma LastIsLastRecord(file: seq<Byte>, id: nat, i: nat, j: nat)
    requires i < RecordCount(file)
    ensures LastRecord(file, id, i, j) <==> j == LastBefore(Readings(file), id, i)
  {
    var rs := Readings(file);
    LastBeforeIsLast(rs, id, i);
    forall k | 0 <= k < i ensures rs[k].id == RecordAt(file, k).id % 2048 {
      ReadingInRecord(file, k);
    }
    var last := LastBefore(rs, id, i);
    if LastRecord(file, id, i, j) {
      assert rs[j].id == id;
      assert j <= last;
      assert rs[last].id == id;
    }
  }

  lemma SameSigned(x: int, y: int)
    requires -2_147_483_648 <= x < 2_147_483_648 && -2_147_483_648 <= y < 2_147_483_648
    requires x % 4_294_967_296 == y % 4_294_967_296
    ensures x == y
  {
  }

  lemma AsOfIsRight(file: seq<Byte>, id: nat, i: nat, limit: nat)
    requires i < RecordCount(file)
    ensures CellIsRight(AsOf(Readings(file), id, i, limit), file, id, i, limit + 1)
  {
    var rs := Readings(file);
    var last := LastBefore(rs, id, i);
    ReadingInRecord(file, i);
    if 0 <= last {
      ReadingInRecord(file, last);
      LastIsLastRecord(file, id, i, last);
    }
    forall j | LastRecord(file, id, i, j) ensures j == last {
      LastIsLastRecord(file, id, i, j);
    }
  }

  lemma RowOfIsRight(file: seq<Byte>, companion: seq<Byte>, i: nat)
    requires i < RecordCount(file)
    ensures HasRow(Readings(file), i) <==> GetsRow(file, i)
    ensures HasRow(Readings(file), i) ==>
              RowIsRight(RowOf(Readings(file), Entries(companion, RecordCount(file)), i), file, companion, i)
  {
    ReadingInRecord(file, i);
    AsOfIsRight(file, 0x0B9, i, 100);
    AsOfIsRight(file, 0x0B1, i, 100);
    AsOfIsRight(file, 0x701, i, 2_147_483_647);
    AsOfIsRight(file, 0x702, i, 2_147_483_647);
    AsOfIsRight(file, 0x700, i, 2_147_483_647);
  }

  /** The records that have a row, among the first n. */
  function Origins(rs: seq<Reading>, n: nat): seq<nat>
    requires n <= |rs|
  {
    if n == 0 then [] else Origins(rs, n - 1) + if HasRow(rs, n - 1) then [n - 1] else []
  }

  lemma {:induction false} OriginOfRow(rs: seq<Reading>, us: seq<Int64>, n: nat, r: nat)
    requires n <= |rs| == |us|
    ensures |Origins(rs, n)| == |Join(rs, us, n)|
    ensures r < |Origins(rs, n)| ==>
              var i := Origins(rs, n)[r];
              i < n && HasRow(rs, i) && Join(rs, us, n)[r] == RowOf(rs, us, i)
    decreases n
  {
    if n == 0 {
    } else {
      OriginOfRow(rs, us, n - 1, r);
    }
  }

  lemma {:induction false} OriginsAscend(rs: seq<Reading>, us: seq<Int64>, n: nat, q: nat, r: nat)
    requires n <= |rs| == |us| && q < r < |Origins(rs, n)|
    ensures Origins(rs, n)[q] < Origins(rs, n)[r]
    decreases n
  {
    OriginOfRow(rs, us, n - 1, q);
    if r < |Origins(rs, n - 1)| {
      OriginsAscend(rs, us, n - 1, q, r);
    }
  }

  lemma {:induction false} HasOrigin(rs: seq<Reading>, n: nat, i: nat)
    requires i < n <= |rs| && HasRow(rs, i)
    ensures i in Origins(rs, n)
    decreases n
  {
    if i < n - 1 {
      HasOrigin(rs, n - 1, i);
    } else {
      assert Origins(rs, n)[|Origins(rs, n - 1)|] == i;
    }
  }

  /** The join is the export, told in the records of the file. */
  lemma JoinIsExport(file: seq<Byte>, companion: seq<Byte>) returns (origin: seq<nat>)
    ensures var n := RecordCount(file);
            IsExport(Join(Readings(file), Entries(companion, n), n), file, companion, origin)
  {
    var rs, us, n := Readings(file), Entries(companion, RecordCount(file)), RecordCount(file);
    origin := Origins(rs, n);
    OriginOfRow(rs, us, n, 0);
    forall r {:trigger origin[r]} | 0 <= r < |origin|
      ensures origin[r] < n && HasRow(rs, origin[r])
      ensures RowIsRight(Join(rs, us, n)[r], file, companion, origin[r])
    {
      OriginOfRow(rs, us, n, r);
      RowOfIsRight(file, companion, origin[r]);
    }
    forall q, r | 0 <= q < r < |origin| ensures origin[q] < origin[r] {
      OriginsAscend(rs, us, n, q, r);
    }
    forall i | 0 <= i < n ensures GetsRow(file, i) <==> i in origin {
      RowOfIsRight(file, companion, i);
      if HasRow(rs, i) { HasOrigin(rs, n, i); }
    }
  }

  // ---------------------------------------------------------------------------
  // The pass.
  // ---------------------------------------------------------------------------

  predicate SampleAtOrBefore(timestamp: Word32, sampleTimestamp: Word32) {
    (timestamp - sampleTimestamp) % TWO_TO_32 < TWO_TO_31
  }

  /** The latest value of one signal the pass has seen. */
  datatype Held = Held(have: bool, timestamp: Word32, value: int) {
    predicate Follows(rs: seq<Reading>, id: nat, n: nat)
      requires n <= |rs|
    {
      var j := LastBefore(rs, id, n);
      have == (0 <= j) && (0 <= j ==> timestamp == rs[j].timestamp && value == rs[j].value)
    }

    function Earlier(now: Word32): Option<int> {
      if have && SampleAtOrBefore(now, timestamp) then Some(value) else None
    }

    function Recent(now: Word32): Option<int> {
      if have && SampleAtOrBefore(now, timestamp) && (now - timestamp) % TWO_TO_32 <= RECENT_MS then Some(value)
      else None
    }
  }

  /** The values the pass holds, one for each supporting signal. */
  datatype Latest = Latest(brake: Held, bearing: Held, speed: Held, latitude: Held, longitude: Held) {
    predicate Follows(rs: seq<Reading>, n: nat)
      requires n <= |rs|
    {
      && brake.Follows(rs, FRONT_BRAKE, n) && bearing.Follows(rs, BEARING_ENCODER, n)
      && speed.Follows(rs, GPS_SPEED, n)
      && latitude.Follows(rs, GPS_LATITUDE, n) && longitude.Follows(rs, GPS_LONGITUDE, n)
    }
  }

  lemma HeldIsAsOf(h: Held, rs: seq<Reading>, id: nat, i: nat)
    requires i < |rs| && h.Follows(rs, id, i)
    ensures h.Earlier(rs[i].timestamp) == AsOf(rs, id, i, TWO_TO_31 - 1)
    ensures h.Recent(rs[i].timestamp) == AsOf(rs, id, i, RECENT_MS)
  {
    LastBeforeIsLast(rs, id, i);
  }

  /** Hold a supporting reading; any other leaves what is held as it is. */
  method Hold(latest: Latest, r: Reading, ghost rs: seq<Reading>, ghost n: nat) returns (next: Latest, held: bool)
    requires n < |rs| && rs[n] == r && latest.Follows(rs, n)
    ensures next.Follows(rs, n + 1)
    ensures held == (r.id in {FRONT_BRAKE, BEARING_ENCODER, GPS_SPEED, GPS_LATITUDE, GPS_LONGITUDE})
    ensures !held ==> next == latest
  {
    next, held := latest, true;
    var reading := Held(true, r.timestamp, r.value);
    if r.id == FRONT_BRAKE {
      next := latest.(brake := reading);
    } else if r.id == BEARING_ENCODER {
      next := latest.(bearing := reading);
    } else if r.id == GPS_SPEED {
      next := latest.(speed := reading);
    } else if r.id == GPS_LATITUDE {
      next := latest.(latitude := reading);
    } else if r.id == GPS_LONGITUDE {
      next := latest.(longitude := reading);
    } else {
      held := false;
    }
  }

  /** The row of an engine reading, or none if there is no recent bearing speed to go with it. */
  method EngineRow(latest: Latest, r: Reading, utcMs: Int64, ghost rs: seq<Reading>, ghost us: seq<Int64>, ghost i: nat)
    returns (row: Option<Row>)
    requires i < |rs| == |us| && rs[i] == r && us[i] == utcMs && latest.Follows(rs, i)
    ensures row == if HasRow(rs, i) then Some(RowOf(rs, us, i)) else None
  {
    HeldIsAsOf(latest.bearing, rs, BEARING_ENCODER, i);
    if r.id != ENGINE_RPM || latest.bearing.Recent(r.timestamp).None? {
      return None;
    }
    HeldIsAsOf(latest.brake, rs, FRONT_BRAKE, i);
    HeldIsAsOf(latest.speed, rs, GPS_SPEED, i);
    HeldIsAsOf(latest.latitude, rs, GPS_LATITUDE, i);
    HeldIsAsOf(latest.longitude, rs, GPS_LONGITUDE, i);
    row := Some(Row(r.timestamp, utcMs, latest.brake.Recent(r.timestamp), latest.bearing.value, r.value,
                    latest.latitude.Earlier(r.timestamp), latest.longitude.Earlier(r.timestamp),
                    latest.speed.Earlier(r.timestamp)));
  }

  /** Read one record: the next 16 bytes of the file, if there are that many. */
  method ReadRecord(file: seq<Byte>, i: nat) returns (ok: bool, reading: Reading)
    ensures ok == (i < RecordCount(file))
    ensures ok ==> reading == Readings(file)[i]
  {
    reading := Reading(0, 0, 0);
    ok := (i + 1) * RECORD_BYTES <= |file|;
    if ok {
      reading := Unpack(RecordAt(file, i));
    }
  }

  function CompanionBytes(companion: Option<seq<Byte>>): seq<Byte> {
    if companion.Some? then companion.value else []
  }

  /** Where the companion's read position is after n entries: a short read uses up the rest. */
  function OffsetAfter(companion: seq<Byte>, n: nat): nat {
    if n * UTC_BYTES <= |companion| then n * UTC_BYTES else |companion|
  }

  /** Read one companion entry, if there is a companion and it has one left. */
  method ReadUtcMs(companion: Option<seq<Byte>>, offset: nat, ghost n: nat) returns (utcMs: Int64, next: nat)
    requires offset == OffsetAfter(CompanionBytes(companion), n)
    ensures next == OffsetAfter(CompanionBytes(companion), n + 1)
    ensures utcMs == UtcEntry(CompanionBytes(companion), n)
  {
    if companion.None? {
      return 0, offset;
    }
    if |companion.value| < offset + UTC_BYTES {
      return 0, |companion.value|;
    }
    next := offset + UTC_BYTES;
    var entry := companion.value[offset..next];
    assert Chunk(entry, UTC_BYTES, 0) == entry == Chunk(companion.value, UTC_BYTES, n);
    utcMs := UtcEntry(entry, 0);
  }

  /** The whole pass computes exactly the join. */
  method StreamPairedCsv(file: seq<Byte>, companion: Option<seq<Byte>>)
    returns (rows: seq<Row>, ghost origin: seq<nat>)
    ensures IsExport(rows, file, CompanionBytes(companion), origin)
    ensures rows == Join(Readings(file), Entries(CompanionBytes(companion), RecordCount(file)), RecordCount(file))
  {
    rows := [];
    var i, offset := 0, 0;
    ghost var rs, us := Readings(file), Entries(CompanionBytes(companion), RecordCount(file));
    var nothing := Held(false, 0, 0);
    var latest := Latest(nothing, nothing, nothing, nothing, nothing);
    while true
      invariant i <= |rs|
      invariant offset == OffsetAfter(CompanionBytes(companion), i)
      invariant latest.Follows(rs, i)
      invariant rows == Join(rs, us, i)
      decreases |rs| - i
    {
      var ok, r := ReadRecord(file, i);
      if !ok {
        break;
      }
      var utcMs: Int64;
      utcMs, offset := ReadUtcMs(companion, offset, i);
      latest, rows := TakeRecord(latest, r, utcMs, rows, rs, us, i);
      i := i + 1;
    }
    origin := JoinIsExport(file, CompanionBytes(companion));
  }

  /** One record: it is held, or may complete a row. */
  method TakeRecord(latest: Latest, r: Reading, utcMs: Int64, rows: seq<Row>,
                    ghost rs: seq<Reading>, ghost us: seq<Int64>, ghost i: nat) returns (next: Latest, more: seq<Row>)
    requires i < |rs| == |us| && rs[i] == r && us[i] == utcMs && latest.Follows(rs, i) && rows == Join(rs, us, i)
    ensures next.Follows(rs, i + 1) && more == Join(rs, us, i + 1)
  {
    more := rows;
    var held;
    next, held := Hold(latest, r, rs, i);
    if !held {
      var row := EngineRow(latest, r, utcMs, rs, us, i);
      if row.Some? {
        more := rows + [row.value];
      }
    }
  }

  /** Logger to export: for the two files the logger leaves behind, under whatever faults, the
      absolute time of every row is blank or the UTC its own engine sample was given. */
  lemma RowsCarryTheirOwnUtc(log: seq<Byte>, companion: seq<Byte>, aligned: seq<Sample>, r: nat) returns (i: nat)
    requires Companion(log, companion, aligned)
    requires r < |Join(Readings(log), Entries(companion, RecordCount(log)), RecordCount(log))|
    ensures i < RecordCount(log) && HasRow(Readings(log), i) && RowsBefore(Readings(log), i) == r
    ensures var row := Join(Readings(log), Entries(companion, RecordCount(log)), RecordCount(log))[r];
            && row == RowOf(Readings(log), Entries(companion, RecordCount(log)), i)
            && (row.utcMs != 0 ==>
                  i < |aligned| && Unpack(aligned[i].record) == Readings(log)[i] && row.utcMs == aligned[i].utcMs)
  {
    i := RowHasItsReading(Readings(log), Entries(companion, RecordCount(log)), RecordCount(log), r);
    OwnUtcOrBlank(log, companion, aligned, i);
  }

  /** The rows of the export of a logger's two files. */
  ghost function Exported(logger: Log.Logger): seq<Row>
    reads logger
  {
    var n := RecordCount(logger.log);
    Join(Readings(logger.log), Entries(logger.companion, n), n)
  }

  /** From logger to export: whatever faults a session had, each row of the export of its two files
      that has a UTC is the row of a record whose sample was accepted with that very UTC. */
  lemma ExportedRowsOfRecording(logger: Log.Logger, r: nat) returns (i: nat)
    requires logger.Valid() && r < |Exported(logger)|
    ensures i < RecordCount(logger.log) && HasRow(Readings(logger.log), i) && RowsBefore(Readings(logger.log), i) == r
    ensures var us := Entries(logger.companion, RecordCount(logger.log));
            var row := Exported(logger)[r];
            && row == RowOf(Readings(logger.log), us, i)
            && (row.utcMs != 0 ==>
                  && i < |logger.session.accepted| && row.utcMs == logger.session.accepted[i].utcMs
                  && Readings(logger.log)[i] == Unpack(logger.session.accepted[i].record))
  {
    i := RowsCarryTheirOwnUtc(logger.log, logger.companion, logger.session.aligned, r);
  }
}
