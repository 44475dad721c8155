/** The SD-card logger (master-node/src/logger/data_logger.c) as the atomic steps of its three
    kinds of task: the lifecycle calls, the producers, and the writer. Every write and reopen may
    fail; what reaches a file is the prefix that the fault parameters allow. */
module DataLogger {
  import opened CArithmetic
  import opened LogFormat

  const QUEUE_LENGTH := 256
  const RECORDS_PER_BLOCK := 100

  datatype State = Idle | Running | Stopping

  datatype StartResult = StartOk | Active | InvalidName | Exists | OpenFailed

  /** What the file system does to one start. */
  datatype OpenOutcome = OpenOutcome(validName: bool, present: bool, logOpens: bool, utcOpens: bool,
                                     alreadyExists: bool)

  /** How many bytes of one block write reach the binary and the companion, and whether the
      companion's flush succeeds. Counts beyond the block mean the whole block. */
  datatype WriteOutcome = WriteOutcome(logBytes: nat, utcBytes: nat, utcFlushed: bool) {
    predicate WritesAll(count: nat) {
      count * RECORD_BYTES <= logBytes && count * UTC_BYTES <= utcBytes && utcFlushed
    }
  }

  function Upto(bytes: seq<Byte>, n: nat): seq<Byte> {
    if n < |bytes| then bytes[..n] else bytes
  }

  // ---------------------------------------------------------------------------
  // What a session has done so far, and what the two files owe to it.
  // ---------------------------------------------------------------------------

  /** `accepted`: the samples the queue took. `stored`: the blocks written so far. `lossless`:
      no binary write was short. `intact`: the companion was never closed early. `aligned`: the
      samples the companion speaks about. `whole`: no binary write ended inside a record; while
      that is so, `recorded`: the samples whose records the binary holds. */
  datatype Session = Session(offered: nat, dropped: nat, accepted: seq<Sample>, stored: seq<Sample>,
                             lossless: bool, intact: bool, aligned: seq<Sample>,
                             whole: bool, recorded: seq<Sample>)

  const NEW_SESSION := Session(0, 0, [], [], true, true, [], true, [])

  /** Alignment under every fault; conservation while no binary write was short. */
  ghost predicate Consistent(s: Session, log: seq<Byte>, companion: seq<Byte>,
                             buffered: seq<Sample>, queue: seq<Sample>) {
    && s.offered == |s.accepted| + s.dropped
    && Companion(log, companion, s.aligned)
    && s.aligned <= s.accepted
    && (s.lossless ==> log == Records(s.stored) && s.stored + buffered + queue == s.accepted)
    && (s.intact ==> s.lossless && s.aligned == s.stored && companion == Utcs(s.stored))
  }

  predicate AllIn(some: seq<Sample>, all: seq<Sample>) {
    forall i :: 0 <= i < |some| ==> some[i] in all
  }

  /** While every write ended with a whole record, the binary is the records of accepted samples,
      though some may be missing and some repeated. */
  ghost predicate Readable(s: Session, log: seq<Byte>, buffered: seq<Sample>, queue: seq<Sample>) {
    && AllIn(buffered, s.accepted) && AllIn(queue, s.accepted) && AllIn(s.recorded, s.accepted)
    && (s.whole ==> log == Records(s.recorded))
    && (s.lossless ==> s.whole)
  }

  /** The part of a block that reaches the binary. */
  ghost function Written(block: seq<Sample>, logOpen: bool, outcome: WriteOutcome): seq<Byte> {
    if logOpen then Upto(Records(block), outcome.logBytes) else []
  }

  /** The samples of the block that are whole in the binary. */
  ghost function Whole(block: seq<Sample>, logOpen: bool, outcome: WriteOutcome): seq<Sample> {
    var complete := |Written(block, logOpen, outcome)| / RECORD_BYTES;
    if complete <= |block| then block[..complete] else block
  }

  /** The part of their companion entries that reaches the companion, while it is open. */
  ghost function Entries(block: seq<Sample>, logOpen: bool, utcOpen: bool, outcome: WriteOutcome): seq<Byte> {
    if utcOpen then Upto(Utcs(Whole(block, logOpen, outcome)), outcome.utcBytes) else []
  }

  ghost predicate WroteBlock(block: seq<Sample>, logOpen: bool, outcome: WriteOutcome) {
    |Written(block, logOpen, outcome)| == |block| * RECORD_BYTES
  }

  ghost predicate WroteEntries(block: seq<Sample>, logOpen: bool, utcOpen: bool, outcome: WriteOutcome) {
    utcOpen && outcome.utcFlushed && |Entries(block, logOpen, utcOpen, outcome)| == |block| * UTC_BYTES
  }

  ghost function AfterWrite(s: Session, block: seq<Sample>, logOpen: bool, outcome: WriteOutcome): Session {
    s.(stored := s.stored + block,
       lossless := s.lossless && WroteBlock(block, logOpen, outcome),
       intact := WroteBlock(block, logOpen, outcome) && WroteEntries(block, logOpen, s.intact, outcome),
       aligned := if s.intact then s.aligned + Whole(block, logOpen, outcome) else s.aligned,
       whole := s.whole && EndsWhole(block, logOpen, outcome),
       recorded := s.recorded + Whole(block, logOpen, outcome))
  }

  ghost predicate EndsWhole(block: seq<Sample>, logOpen: bool, outcome: WriteOutcome) {
    |Written(block, logOpen, outcome)| % RECORD_BYTES == 0
  }

  /** One block write that ends with a whole record adds the records of the block's first samples. */
  lemma BlockReadable(s: Session, log: seq<Byte>, block: seq<Sample>, queue: seq<Sample>,
                      logOpen: bool, outcome: WriteOutcome)
    requires Readable(s, log, block, queue)
    ensures Readable(AfterWrite(s, block, logOpen, outcome), log + Written(block, logOpen, outcome), [], queue)
  {
    BlockLengths(block);
    if EndsWhole(block, logOpen, outcome) {
      var complete := |Written(block, logOpen, outcome)| / RECORD_BYTES;
      EncodePrefix(RecordBytes, RECORD_BYTES, block, complete);
      EncodeAppend(RecordBytes, s.recorded, Whole(block, logOpen, outcome));
    }
  }

  /** A block that failed to be written may also be kept. */
  lemma KeptBlockStays(after: Session, log: seq<Byte>, companion: seq<Byte>, before: Session, block: seq<Sample>,
                       queue: seq<Sample>, logOpen: bool, outcome: WriteOutcome)
    requires after == AfterWrite(before, block, logOpen, outcome) && AllIn(block, before.accepted)
    requires Consistent(after, log, companion, [], queue) && Readable(after, log, [], queue)
    requires !WroteBlock(block, logOpen, outcome)
    ensures Consistent(after, log, companion, block, queue) && Readable(after, log, block, queue)
  {
  }

  /** A write whose byte count is a multiple of the record size ends with a whole record. */
  lemma MultipleEndsWhole(block: seq<Sample>, logOpen: bool, outcome: WriteOutcome)
    ensures outcome.logBytes % RECORD_BYTES == 0 ==> EndsWhole(block, logOpen, outcome)
    ensures WroteBlock(block, logOpen, outcome) ==> EndsWhole(block, logOpen, outcome)
    ensures 0 < |block| ==> (WroteBlock(block, logOpen, outcome) <==> logOpen && 16 * |block| <= outcome.logBytes)
  {
    BlockLengths(block);
  }

  lemma AcceptKeepsReadable(s: Session, log: seq<Byte>, buffered: seq<Sample>, queue: seq<Sample>, sample: Sample)
    requires Readable(s, log, buffered, queue)
    ensures Readable(s.(offered := s.offered + 1, accepted := s.accepted + [sample]), log, buffered, queue + [sample])
  {
  }

  /** The condition is needed. When 8 bytes of a record reach the card and the block is then written
      again, the record read at that place has the identifier for its payload. */
  lemma PartialRetryShifts(sample: Sample)
    ensures var log := Written([sample], true, WriteOutcome(8, 0, true))
                       + Written([sample], true, WriteOutcome(RECORD_BYTES, 0, true));
            && RecordCount(log) == 1
            && RecordAt(log, 0) == Record(sample.record.id, sample.record.id)
  {
    var id, bytes := ToBytes(sample.record.id, 8), RecordBytes(sample);
    assert Records([sample]) == bytes by {
      assert [sample][..0] == [] && Records([]) == [];
    }
    var log := bytes[..8] + bytes;
    assert bytes[..8] == id;
    assert Chunk(log, RECORD_BYTES, 0) == id + id;
    assert (id + id)[..8] == id && (id + id)[8..] == id;
    WordRoundTrip(sample.record.id);
  }

  /** One block write, however short: the records of the block that are whole in the binary, and
      the entries written for them, extend the alignment; if the companion stays open, the whole
      block and all its entries were written. */
  lemma BlockWritten(s: Session, log: seq<Byte>, companion: seq<Byte>, block: seq<Sample>, queue: seq<Sample>,
                     logOpen: bool, outcome: WriteOutcome)
    requires Consistent(s, log, companion, block, queue)
    ensures Consistent(AfterWrite(s, block, logOpen, outcome), log + Written(block, logOpen, outcome),
                       companion + Entries(block, logOpen, s.intact, outcome), [], queue)
  {
    BlockLengths(block);
    EncodeAppend(RecordBytes, s.stored, block);
    assert s.stored + block + [] + queue == s.stored + block + queue;
    if s.intact {
      AlignedBlock(s.stored, block, logOpen, outcome);
      WholeIsPrefix(s.stored, block, queue, logOpen, outcome);
    }
  }

  lemma AcceptKeeps(s: Session, log: seq<Byte>, companion: seq<Byte>,
                    buffered: seq<Sample>, queue: seq<Sample>, sample: Sample)
    requires Consistent(s, log, companion, buffered, queue)
    ensures Consistent(s.(offered := s.offered + 1, accepted := s.accepted + [sample]),
                       log, companion, buffered, queue + [sample])
  {
    assert s.stored + buffered + (queue + [sample]) == s.stored + buffered + queue + [sample];
  }

  lemma DropCounted(before: Word32, dropped: nat)
    ensures ((before + dropped) % TWO_TO_32 + 1) % TWO_TO_32 == (before + (dropped + 1)) % TWO_TO_32
  {
  }

  lemma WholeIsPrefix(stored: seq<Sample>, block: seq<Sample>, queue: seq<Sample>, logOpen: bool, outcome: WriteOutcome)
    ensures stored + Whole(block, logOpen, outcome) <= stored + block + queue
    ensures WroteBlock(block, logOpen, outcome) ==> Whole(block, logOpen, outcome) == block
  {
  }

  lemma BlockLengths(block: seq<Sample>)
    ensures |Records(block)| == |block| * RECORD_BYTES && |Utcs(block)| == |block| * UTC_BYTES
  {
    EncodeLength(RecordBytes, RECORD_BYTES, block);
    EncodeLength(UtcBytes, UTC_BYTES, block);
  }

  lemma AlignedBlock(stored: seq<Sample>, block: seq<Sample>, logOpen: bool, outcome: WriteOutcome)
    ensures var written, whole := Written(block, logOpen, outcome), Whole(block, logOpen, outcome);
            var entries := Entries(block, logOpen, true, outcome);
            && Companion(Records(stored) + written, Utcs(stored) + entries, stored + whole)
            && (WroteBlock(block, logOpen, outcome) && WroteEntries(block, logOpen, true, outcome) ==>
                  Utcs(stored) + entries == Utcs(stored + whole))
  {
    var written, whole := Written(block, logOpen, outcome), Whole(block, logOpen, outcome);
    var complete := |written| / RECORD_BYTES;
    BlockLengths(block);
    EncodePrefix(RecordBytes, RECORD_BYTES, block, complete);
    BlockLengths(whole);
    EncodeAppend(RecordBytes, stored, whole);
    EncodeAppend(UtcBytes, stored, whole);
    assert Records(whole) == written[..complete * RECORD_BYTES];
  }

  /** What the state can become without a lifecycle call. */
  predicate StateMayFollow(before: State, after: State) {
    before == after || (before == Stopping && after == Idle)
  }

  /** What the producers and the writer may do while another task is busy. */
  datatype Work =
    | Offer(sample: Sample)
    | Receive(outcome: WriteOutcome)
    | CheckpointPass(due: bool, outcome: WriteOutcome, logReopens: bool, utcReopens: bool)
    | DrainPass(outcome: WriteOutcome)

  function Offers(work: seq<Work>, n: nat): nat
    requires n <= |work|
  {
    if n == 0 then 0 else Offers(work, n - 1) + if work[n - 1].Offer? then 1 else 0
  }

  class Logger {
    var state: State
    var queue: seq<Sample>
    const records: array<Record>
    const utc: array<Int64>
    var count: nat
    var logOpen: bool
    var utcOpen: bool
    var log: seq<Byte>
    var companion: seq<Byte>
    var queueDrops: Word32
    ghost var session: Session
    ghost var dropsBefore: Word32
    ghost var buffered: seq<Sample>

    ghost predicate Shaped()
      reads this`count, this`buffered, this`queue, records, utc
    {
      && records.Length == utc.Length == RECORDS_PER_BLOCK
      && count == |buffered| <= RECORDS_PER_BLOCK && |queue| <= QUEUE_LENGTH
      && forall i :: 0 <= i < count ==> buffered[i] == Sample(records[i], utc[i])
    }

    /** What the two files owe to the session. */
    ghost predicate Accounted()
      reads this`session, this`log, this`companion, this`buffered, this`queue
    {
      Consistent(session, log, companion, buffered, queue) && Readable(session, log, buffered, queue)
    }

    /** What holds between any two steps, and also when a block has just filled up. */
    ghost predicate Steady()
      reads this, records, utc
    {
      && Shaped() && Accounted()
      && queueDrops == (dropsBefore + session.dropped) % TWO_TO_32
      && (state != Idle ==> utcOpen == session.intact)
      && (state == Idle ==> count == 0 && queue == [] && !logOpen && !utcOpen)
    }

    ghost predicate Valid()
      reads this, records, utc
    {
      Steady() && count < RECORDS_PER_BLOCK
    }

    constructor ()
      ensures Valid() && state == Idle && log == [] && companion == [] && queueDrops == 0
      ensures fresh(records) && fresh(utc)
    {
      records := new Record[RECORDS_PER_BLOCK](_ => Record(0, 0));
      utc := new Int64[RECORDS_PER_BLOCK](_ => 0);
      state, queue, count, logOpen, utcOpen, log, companion := Idle, [], 0, false, false, [], [];
      queueDrops, dropsBefore, session, buffered := 0, 0, NEW_SESSION, [];
    }

    /** A session starts empty: new files, nothing left over in the queue or the buffer. */
    method Start(open: OpenOutcome) returns (result: StartResult)
      requires Valid()
      modifies this
      ensures Valid() && queueDrops == old(queueDrops)
      ensures result == StartOk <==>
                old(state) == Idle && open.validName && !open.present && open.logOpens && open.utcOpens
      ensures result == Active <==> old(state) != Idle
      ensures result == InvalidName <==> old(state) == Idle && !open.validName
      ensures result == Exists <==>
                && old(state) == Idle && open.validName
                && (open.present || (!(open.logOpens && open.utcOpens) && open.alreadyExists))
      ensures result == StartOk ==>
                && state == Running && logOpen && utcOpen && log == [] && companion == []
                && queue == [] && count == 0 && session == NEW_SESSION
      ensures result != StartOk ==> unchanged(this)
    {
      if state != Idle {
        return Active;
      }
      if !open.validName {
        return InvalidName;
      }
      if open.present {
        return Exists;
      }
      if !open.logOpens || !open.utcOpens {
        return if open.alreadyExists then Exists else OpenFailed;
      }
      BeginSession();
      result := StartOk;
    }

    method BeginSession()
      requires Valid() && count == 0
      modifies this
      ensures Valid() && queueDrops == old(queueDrops)
      ensures state == Running && logOpen && utcOpen && log == [] && companion == []
      ensures queue == [] && count == 0 && session == NEW_SESSION
    {
      state, logOpen, utcOpen := Running, true, true;
      ForgetSession();
      dropsBefore := queueDrops;
    }

    /** New files, and nothing queued for them. */
    method ForgetSession()
      requires Shaped() && count == 0
      modifies this`log, this`companion, this`queue, this`session
      ensures Shaped() && Accounted()
      ensures log == [] && companion == [] && queue == [] && session == NEW_SESSION
    {
      log, companion, queue := [], [], [];
      session := NEW_SESSION;
    }

    method Stop() returns (stopped: bool)
      requires Valid()
      modifies this`state
      ensures Valid() && stopped == (old(state) == Running)
      ensures state == if stopped then Stopping else old(state)
    {
      if state != Running {
        return false;
      }
      state := Stopping;
      stopped := true;
    }

    /** Offer a sample: the test of the state and the send are one step. Every sample offered
        while running is either accepted or counted as dropped. */
    method Enqueue(sample: Sample)
      requires Valid()
      modifies this`queue, this`queueDrops, this`session
      ensures Valid()
      ensures state != Running ==> queue == old(queue) && session == old(session) && queueDrops == old(queueDrops)
      ensures state == Running && |old(queue)| < 256 ==>
                && queue == old(queue) + [sample] && queueDrops == old(queueDrops)
                && session == old(session).(offered := old(session).offered + 1,
                                            accepted := old(session).accepted + [sample])
      ensures state == Running && |old(queue)| == 256 ==>
                && queue == old(queue) && queueDrops == (old(queueDrops) + 1) % 4_294_967_296
                && session == old(session).(offered := old(session).offered + 1,
                                            dropped := old(session).dropped + 1)
    {
      if state != Running {
        return;
      }
      if |queue| < QUEUE_LENGTH {
        Accept(sample);
      } else {
        Drop();
      }
    }

    method Accept(sample: Sample)
      requires Shaped() && Accounted() && |queue| < QUEUE_LENGTH
      modifies this`queue, this`session
      ensures Shaped() && Accounted() && queue == old(queue) + [sample]
      ensures session == old(session).(offered := old(session).offered + 1,
                                       accepted := old(session).accepted + [sample])
    {
      AcceptKeeps(session, log, companion, buffered, queue, sample);
      AcceptKeepsReadable(session, log, buffered, queue, sample);
      session := session.(offered := session.offered + 1, accepted := session.accepted + [sample]);
      queue := queue + [sample];
    }

    method Drop()
      requires Steady()
      modifies this`queueDrops, this`session
      ensures Steady() && queueDrops == (old(queueDrops) + 1) % TWO_TO_32
      ensures session == old(session).(offered := old(session).offered + 1, dropped := old(session).dropped + 1)
    {
      DropCounted(dropsBefore, session.dropped);
      queueDrops := (queueDrops + 1) % TWO_TO_32;
      session := session.(offered := session.offered + 1, dropped := session.dropped + 1);
    }

    /** Append the buffered block to the files, as far as the card lets it. The companion gets
        entries for complete records only, and is closed for the rest of the session at the
        first sign of trouble. */
    method WriteRecords(outcome: WriteOutcome) returns (ok: bool)
      requires Steady() && 0 < count && state != Idle
      modifies this`log, this`companion, this`utcOpen, this`session
      ensures Consistent(session, log, companion, [], queue) && Readable(session, log, [], queue)
      ensures utcOpen == session.intact
      ensures log == old(log) + Written(buffered, logOpen, outcome)
      ensures companion == old(companion) + Entries(buffered, logOpen, old(utcOpen), outcome)
      ensures session == AfterWrite(old(session), buffered, logOpen, outcome)
      ensures ok == WroteBlock(buffered, logOpen, outcome)
      ensures logOpen && outcome.WritesAll(count) ==> ok && utcOpen == old(utcOpen)
    {
      ghost var block := buffered;
      var blockBytes, blockUtcs := BlockBytes();
      var written, entries, intact := FileWrites(block, blockBytes, blockUtcs, logOpen, utcOpen, outcome);
      ok := |written| == count * RECORD_BYTES;
      BlockWritten(session, log, companion, block, queue, logOpen, outcome);
      BlockReadable(session, log, block, queue, logOpen, outcome);
      log, companion, utcOpen := log + written, companion + entries, intact;
      session := AfterWrite(session, block, logOpen, outcome);
    }

    /** Write the buffered block and forget it, whatever became of it. */
    method WriteAndForget(outcome: WriteOutcome) returns (ok: bool)
      requires Steady() && 0 < count && state != Idle
      modifies this`count, this`buffered, this`log, this`companion, this`utcOpen, this`session
      ensures Steady() && count == 0
      ensures old(log) <= log && old(companion) <= companion
      ensures session.accepted == old(session).accepted && session.offered == old(session).offered
      ensures session.lossless == (old(session).lossless && ok)
      ensures outcome.logBytes % RECORD_BYTES == 0 ==> session.whole == old(session).whole
      ensures logOpen && outcome.WritesAll(old(count)) ==> ok && session.intact == old(session).intact
    {
      ok := WriteBuffered(outcome);
      ForgetBlock();
    }

    /** Write the buffered block, and keep it if that failed. */
    method WriteOrKeep(outcome: WriteOutcome) returns (ok: bool)
      requires Steady() && 0 < count && state != Idle
      modifies this`count, this`buffered, this`log, this`companion, this`utcOpen, this`session
      ensures Steady() && count == (if ok then 0 else old(count)) && (!ok ==> buffered == old(buffered))
      ensures ok <==> logOpen && 16 * old(count) <= outcome.logBytes
      ensures old(log) <= log && old(companion) <= companion
      ensures session.accepted == old(session).accepted && session.offered == old(session).offered
      ensures session.lossless == (old(session).lossless && ok)
      ensures outcome.logBytes % RECORD_BYTES == 0 ==> session.whole == old(session).whole
      ensures logOpen && outcome.WritesAll(old(count)) ==> ok && session.intact == old(session).intact
    {
      ok := WriteBuffered(outcome);
      if ok {
        ForgetBlock();
      }
    }

    /** Write the buffered block; the books balance whether it is forgotten or, having failed, kept. */
    method WriteBuffered(outcome: WriteOutcome) returns (ok: bool)
      requires Steady() && 0 < count && state != Idle
      modifies this`log, this`companion, this`utcOpen, this`session
      ensures Consistent(session, log, companion, [], queue) && Readable(session, log, [], queue)
      ensures utcOpen == session.intact && (!ok ==> Accounted())
      ensures old(log) <= log && old(companion) <= companion
      ensures session.accepted == old(session).accepted && session.offered == old(session).offered
      ensures session.dropped == old(session).dropped && session.lossless == (old(session).lossless && ok)
      ensures ok <==> logOpen && 16 * count <= outcome.logBytes
      ensures outcome.logBytes % RECORD_BYTES == 0 ==> session.whole == old(session).whole
      ensures logOpen && outcome.WritesAll(count) ==> ok && session.intact == old(session).intact
    {
      ghost var before := session;
      ok := WriteRecords(outcome);
      MultipleEndsWhole(buffered, logOpen, outcome);
      if !ok {
        KeptBlockStays(session, log, companion, before, buffered, queue, logOpen, outcome);
      }
    }

    method ForgetBlock()
      requires Shaped() && Consistent(session, log, companion, [], queue) && Readable(session, log, [], queue)
      modifies this`count, this`buffered
      ensures Shaped() && Accounted() && count == 0
    {
      count, buffered := 0, [];
    }

    /** The fwrite calls of one block: what they deliver, and whether the companion stays open. */
    static method FileWrites(ghost block: seq<Sample>, blockBytes: seq<Byte>, blockUtcs: seq<Byte>,
                             logOpen: bool, utcOpen: bool, outcome: WriteOutcome)
      returns (written: seq<Byte>, entries: seq<Byte>, stillOpen: bool)
      requires blockBytes == Records(block) && blockUtcs == Utcs(block)
      ensures written == Written(block, logOpen, outcome)
      ensures entries == Entries(block, logOpen, utcOpen, outcome)
      ensures stillOpen == (WroteBlock(block, logOpen, outcome) && WroteEntries(block, logOpen, utcOpen, outcome))
      ensures logOpen && outcome.WritesAll(|block|) ==> WroteBlock(block, logOpen, outcome) && stillOpen == utcOpen
    {
      BlockLengths(block);
      stillOpen := utcOpen;
      written := if logOpen then Upto(blockBytes, outcome.logBytes) else [];
      var complete := |written| / RECORD_BYTES;
      entries := [];
      if utcOpen {
        EncodePrefix(UtcBytes, UTC_BYTES, block, complete);
        entries := Upto(blockUtcs[..complete * UTC_BYTES], outcome.utcBytes);
        if |entries| / UTC_BYTES != complete || !outcome.utcFlushed {
          stillOpen := false;
        }
      }
      if |written| != |blockBytes| && stillOpen {
        stillOpen := false;
      }
    }

    method BlockBytes() returns (recordBytes: seq<Byte>, utcBytes: seq<Byte>)
      requires Shaped()
      ensures recordBytes == Records(buffered) && utcBytes == Utcs(buffered)
    {
      recordBytes, utcBytes := [], [];
      ghost var block := buffered;
      for i := 0 to count
        invariant recordBytes == Records(block[..i]) && utcBytes == Utcs(block[..i])
      {
        assert block[..i + 1][..i] == block[..i];
        recordBytes := recordBytes + RecordBytes(Sample(records[i], utc[i]));
        utcBytes := utcBytes + UtcBytes(Sample(records[i], utc[i]));
      }
      assert block[..count] == block;
    }

    /** The writer takes one sample off the queue; a full block is written and, whatever became
        of it, forgotten. */
    method WriterReceive(outcome: WriteOutcome)
      requires Valid()
      modifies this`queue, this`count, this`buffered, this`log, this`companion, this`utcOpen, this`session, records, utc
      ensures Valid()
      ensures queue == if old(queue) == [] then [] else old(queue)[1..]
      ensures count == if old(queue) == [] then old(count) else (old(count) + 1) % 100
      ensures old(log) <= log && old(companion) <= companion
      ensures outcome.logBytes % RECORD_BYTES == 0 ==> session.whole == old(session).whole
      ensures session.accepted == old(session).accepted && session.offered == old(session).offered
      ensures logOpen && outcome.WritesAll(RECORDS_PER_BLOCK) ==>
                session.lossless == old(session).lossless && session.intact == old(session).intact
    {
      if queue == [] {
        return;
      }
      StoreSample();
      if count == RECORDS_PER_BLOCK {
        var ok := WriteAndForget(outcome);
      }
    }

    method StoreSample()
      requires Valid() && queue != []
      modifies this`queue, this`count, this`buffered, records, utc
      ensures Steady() && state != Idle && queue == old(queue)[1..] && count == old(count) + 1
    {
      var sample := queue[0];
      ghost var before := buffered;
      records[count] := sample.record;
      utc[count] := sample.utcMs;
      queue := queue[1..];
      count := count + 1;
      buffered := buffered + [sample];
      assert old(queue) == [sample] + queue;
      assert session.stored + (before + [sample]) + queue == session.stored + before + old(queue);
    }

    /** Every 15 s the writer writes what it has and closes and reopens both files. After a
        failed write the block is kept, to be written again. */
    method Checkpoint(due: bool, outcome: WriteOutcome, logReopens: bool, utcReopens: bool)
      requires Valid()
      modifies this`count, this`buffered, this`logOpen, this`log, this`companion, this`utcOpen, this`session
      ensures Valid()
      ensures outcome.logBytes % RECORD_BYTES == 0 ==> session.whole == old(session).whole
      ensures session.accepted == old(session).accepted && session.offered == old(session).offered
      ensures old(log) <= log && old(companion) <= companion
      ensures state != Running || !due ==>
                log == old(log) && companion == old(companion) && session == old(session) && logOpen == old(logOpen)
      ensures state == Running && due && session.lossless ==> count == 0
      // A block that did not get through whole is kept, and the file stays open or closed as it was.
      ensures if state == Running && due && (old(count) == 0 || (old(logOpen) && 16 * old(count) <= outcome.logBytes))
              then count == 0 && logOpen == logReopens
              else count == old(count) && buffered == old(buffered) && logOpen == old(logOpen)
      ensures old(logOpen) && logReopens && utcReopens && outcome.WritesAll(old(count)) ==>
                logOpen && session.lossless == old(session).lossless && session.intact == old(session).intact
    {
      if state != Running || !due {
        return;
      }
      var ok := count == 0;
      if !ok {
        ok := WriteOrKeep(outcome);
      }
      if ok {
        CheckpointFile(logReopens, utcReopens);
      }
    }

    method CheckpointFile(logReopens: bool, utcReopens: bool)
      requires Valid() && state == Running
      modifies this`logOpen, this`utcOpen, this`session
      ensures Valid() && logOpen == logReopens && utcOpen == (old(utcOpen) && utcReopens)
      ensures session == old(session).(intact := utcOpen)
    {
      logOpen := logReopens;
      if utcOpen {
        utcOpen := utcReopens;
      }
      StaysAccounted();
      session := session.(intact := utcOpen);
    }

    lemma StaysAccounted()
      requires Accounted() && (utcOpen ==> session.intact)
      ensures Consistent(session.(intact := utcOpen), log, companion, buffered, queue)
      ensures Readable(session.(intact := utcOpen), log, buffered, queue)
    {
    }

    /** Once stopping and out of samples, the writer writes the rest, closes and goes idle. */
    method Drain(outcome: WriteOutcome)
      requires Valid()
      modifies this`state, this`count, this`buffered, this`logOpen, this`log, this`companion, this`utcOpen, this`session
      ensures Valid()
      ensures outcome.logBytes % RECORD_BYTES == 0 ==> session.whole == old(session).whole
      ensures session.accepted == old(session).accepted && session.offered == old(session).offered
      ensures old(log) <= log && old(companion) <= companion
      ensures state == if old(state) == Stopping && queue == [] then Idle else old(state)
      ensures state == old(state) ==> logOpen == old(logOpen)
      ensures old(logOpen) && outcome.WritesAll(old(count)) ==>
                session.lossless == old(session).lossless && session.intact == old(session).intact
    {
      if state == Stopping && queue == [] {
        if count > 0 {
          var ok := WriteAndForget(outcome);
        }
        Close();
      }
    }

    method Close()
      requires Valid() && count == 0 && queue == []
      modifies this`state, this`logOpen, this`utcOpen
      ensures Valid() && state == Idle
    {
      logOpen, utcOpen := false, false;
      state := Idle;
    }

    /** From a stop on, the writer's loop empties the queue and goes idle, whatever happens to the
        write of each pass; when every write goes through, the files then hold exactly the accepted
        samples and their UTCs, in order. */
    method RunUntilIdle(outcomes: nat -> WriteOutcome)
      requires Valid() && state == Stopping
      modifies this, records, utc
      ensures Valid() && state == Idle && session.accepted == old(session).accepted
      ensures old(log) <= log && old(companion) <= companion
      ensures old(logOpen && session.lossless && session.intact)
              && (forall i :: outcomes(i).WritesAll(RECORDS_PER_BLOCK)) ==>
                log == Records(session.accepted) && companion == Utcs(session.accepted)
    {
      ghost var good := logOpen && session.lossless && session.intact
                        && forall i :: outcomes(i).WritesAll(RECORDS_PER_BLOCK);
      var pass := 0;
      while state == Stopping
        invariant 0 <= pass && Valid() && state != Running && session.accepted == old(session).accepted
        invariant old(log) <= log && old(companion) <= companion
        invariant good ==> session.lossless && session.intact && (state == Stopping ==> logOpen)
        decreases if state == Stopping then 1 + |queue| else 0
      {
        WriterPass(outcomes(pass));
        pass := pass + 1;
      }
      WholeQueueStored();
    }

    /** One pass of the writer's loop while stopping. */
    method WriterPass(outcome: WriteOutcome)
      requires Valid() && state == Stopping
      modifies this, records, utc
      ensures Valid() && queue == if old(queue) == [] then [] else old(queue)[1..]
      ensures state == if queue == [] then Idle else Stopping
      ensures outcome.logBytes % RECORD_BYTES == 0 ==> session.whole == old(session).whole
      ensures session.accepted == old(session).accepted
      ensures old(log) <= log && old(companion) <= companion
      ensures old(logOpen) && outcome.WritesAll(RECORDS_PER_BLOCK) ==>
                && session.lossless == old(session).lossless && session.intact == old(session).intact
                && (state == Stopping ==> logOpen)
    {
      WriterReceive(outcome);
      Drain(outcome);
    }

    /** One step of a producer or of the writer. */
    method Do(w: Work)
      requires Valid()
      modifies this, records, utc
      ensures Valid() && StateMayFollow(old(state), state)
      ensures session.accepted == old(session).accepted
                + if w.Offer? && session.accepted != old(session).accepted then [w.sample] else []
      ensures session.offered == old(session).offered + if w.Offer? && old(state) == Running then 1 else 0
      ensures old(state) != Running ==> session.accepted == old(session).accepted
    {
      match w
      case Offer(sample) => Enqueue(sample);
      case Receive(outcome) => WriterReceive(outcome);
      case CheckpointPass(due, outcome, logReopens, utcReopens) => Checkpoint(due, outcome, logReopens, utcReopens);
      case DrainPass(outcome) => Drain(outcome);
    }

    /** Any work of theirs: a running session stays running and takes only what is offered meanwhile,
        a stopping one takes nothing and may become idle. */
    method OtherTasks(work: seq<Work>)
      requires Valid()
      modifies this, records, utc
      ensures Valid() && StateMayFollow(old(state), state)
      ensures old(session).accepted <= session.accepted
      ensures forall i :: |old(session).accepted| <= i < |session.accepted| ==> Offer(session.accepted[i]) in work
      ensures old(state) == Running ==> session.offered == old(session).offered + Offers(work, |work|)
      ensures old(state) != Running ==> session.accepted == old(session).accepted
    {
      for k := 0 to |work|
        invariant Valid() && StateMayFollow(old(state), state)
        invariant old(session).accepted <= session.accepted
        invariant forall i :: |old(session).accepted| <= i < |session.accepted| ==> Offer(session.accepted[i]) in work
        invariant old(state) == Running ==> session.offered == old(session).offered + Offers(work, k)
        invariant old(state) != Running ==> session.accepted == old(session).accepted
      {
        Do(work[k]);
      }
    }

    lemma WholeQueueStored()
      requires Valid() && state == Idle
      ensures session.lossless ==> log == Records(session.accepted)
      ensures session.intact ==> companion == Utcs(session.accepted)
    {
      assert session.stored + [] + [] == session.stored;
    }

    /** While every write ended with a whole record, a failed checkpoint included, every record read
        from the binary is that of a sample accepted in this session. */
    lemma EveryRecordWasAccepted(i: nat)
      requires Valid() && session.whole && i < RecordCount(log)
      ensures |session.recorded| == RecordCount(log) && session.recorded[i] in session.accepted
      ensures RecordAt(log, i) == session.recorded[i].record
    {
      BlockLengths(session.recorded);
      StoredRecord(log, session.recorded, i);
    }

    /** At any moment, under any faults so far: a companion entry is the UTC of the sample whose
        record stands at the same position of the binary, the i-th sample accepted. */
    lemma EveryEntryIsItsOwn(i: nat)
      requires Valid()
      ensures UtcEntry(companion, i) != 0 ==>
                && i < |session.accepted| && i < RecordCount(log)
                && RecordAt(log, i) == session.accepted[i].record
                && UtcEntry(companion, i) == session.accepted[i].utcMs
    {
      OwnUtcOrBlank(log, companion, session.aligned, i);
    }
  }
}
