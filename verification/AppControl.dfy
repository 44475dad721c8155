/** The master's side of a session: lifecycle calls under one mutex
    (master-node/src/app/app_control.c) and the time beacon (master-node/src/time/time_beacon.c),
    with the receiving end of its payload (sensor-node/src/can/can_node.c). */
module AppControl {
  import opened CArithmetic
  import opened LogFormat
  import opened DataLogger
  import opened CanTransmit
  import NodeProtocol
  import Session = SessionProtocol

  datatype ControlResult = ControlOk | Conflict | InvalidFilename | FilenameExists | Failed

  /** The result a refused start of the logger is reported as. */
  function Refusal(result: StartResult): ControlResult {
    match result
    case InvalidName => InvalidFilename
    case Exists => FilenameExists
    case Active => Conflict
    case _ => Failed
  }

  class Control {
    const logger: Logger
    const can: Transmitter
    var recording: bool
    var monitoring: bool

    /** What holds whenever the lifecycle mutex is free: the beacon flag is set exactly when the
        logger is running. */
    ghost predicate Valid()
      reads this, logger, logger.records, logger.utc, can, can.payload
    {
      && logger.Valid() && can.Valid()
      && recording == monitoring == (logger.state == Running)
    }

    constructor ()
      ensures Valid() && !recording && logger.state == Idle && can.handedOver == []
      ensures fresh(logger) && fresh(logger.records) && fresh(logger.utc) && fresh(can) && fresh(can.payload)
    {
      logger := new Logger();
      can := new Transmitter();
      recording, monitoring := false, false;
    }

    /** A session starts only from idle; a refused start changes nothing. Once the logger has
        started the session stands, even if some or all of the START copies fail. `meanwhile` is what
        producers and the writer do to the logger during the call, once it runs: nothing that was
        not offered since is in the new session. */
    method StartLogging(mutexTaken: bool, open: OpenOutcome, bus: seq<Circumstances>, meanwhile: seq<Work>)
      returns (result: ControlResult, ghost sent: nat)
      requires Valid() && |bus| == COMMAND_REPEAT_COUNT
      modifies this, logger, logger.records, logger.utc, can, can.payload
      ensures Valid() && sent <= 5
      ensures result == ControlOk <==>
                && mutexTaken && old(logger.state) == Idle
                && open.validName && !open.present && open.logOpens && open.utcOpens
      ensures result == Conflict <==> mutexTaken && old(logger.state) != Idle
      ensures result == InvalidFilename <==> mutexTaken && old(logger.state) == Idle && !open.validName
      ensures result == FilenameExists <==>
                && mutexTaken && old(logger.state) == Idle && open.validName
                && (open.present || (!(open.logOpens && open.utcOpens) && open.alreadyExists))
      ensures result == ControlOk ==>
                && recording && logger.session.offered == Offers(meanwhile, |meanwhile|)
                && (forall i :: 0 <= i < |logger.session.accepted| ==> Offer(logger.session.accepted[i]) in meanwhile)
                && can.handedOver == old(can.handedOver) + Copies(Frame(0x0A1, []), sent)
      ensures result != ControlOk ==> unchanged(this) && unchanged(logger) && unchanged(can)
    {
      sent := 0;
      if !mutexTaken {
        return Failed, 0;
      }
      if logger.state != Idle {
        return Conflict, 0;
      }
      var startResult := logger.Start(open);
      if startResult != StartOk {
        return Refusal(startResult), 0;
      }
      logger.OtherTasks(meanwhile);
      monitoring := true;
      recording := true;
      sent := Burst(NodeProtocol.CAN_ID_START, bus);
      result := ControlOk;
    }

    /** A session stops only while running; samples already accepted stay accepted, and no more are.
        The writer may have finished by the time the call returns. */
    method StopLogging(mutexTaken: bool, bus: seq<Circumstances>, meanwhile: seq<Work>)
      returns (result: ControlResult, ghost sent: nat)
      requires Valid() && |bus| == COMMAND_REPEAT_COUNT
      modifies this, logger, logger.records, logger.utc, can, can.payload
      ensures Valid() && sent <= 5
      ensures result == ControlOk <==> mutexTaken && old(logger.state) == Running
      ensures result == ControlOk ==>
                && (logger.state == Stopping || logger.state == Idle) && !recording
                && logger.session.accepted == old(logger.session.accepted)
                && can.handedOver == old(can.handedOver) + Copies(Frame(0x0A0, []), sent)
      ensures result != ControlOk ==> unchanged(this) && unchanged(logger) && unchanged(can)
      ensures result == Conflict <==> mutexTaken && old(logger.state) != Running
    {
      sent := 0;
      if !mutexTaken {
        return Failed, 0;
      }
      if logger.state != Running {
        return Conflict, 0;
      }
      var stopped := logger.Stop();
      if !stopped {
        result := Failed;
        return;
      }
      logger.OtherTasks(meanwhile);
      recording := false;
      monitoring := false;
      sent := Burst(NodeProtocol.CAN_ID_STOP, bus);
      result := ControlOk;
    }

    /** Between its calls the master is as the session protocol has it while the mutex is free. */
    lemma BetweenCalls(sampled: seq<bool>, held: seq<Session.Request>, inboxes: seq<seq<Session.Request>>,
                       nodes: seq<Session.Member>)
      requires Valid() && |held| <= 1 && |inboxes| == |nodes|
      ensures Session.Invariant(Session.System(logger.state, recording, Session.Free, sampled, held, inboxes, nodes))
    {
    }

    /** The logger and the transmitter share nothing: what others do to the one and the burst on the
        other may interleave in any way. */
    method Burst(id: nat, bus: seq<Circumstances>) returns (ghost sent: nat)
      requires can.Valid() && |bus| == COMMAND_REPEAT_COUNT
      modifies can, can.payload
      ensures can.Valid() && sent <= COMMAND_REPEAT_COUNT
      ensures can.handedOver == old(can.handedOver) + Copies(Frame(id, []), sent)
    {
      var first;
      ghost var results;
      first, results, sent := can.SendCommandBurst(id, bus);
    }
  }

  // ---------------------------------------------------------------------------
  // The beacon payload.
  // ---------------------------------------------------------------------------

  /** 63 bits of time and the recording flag. */
  function BeaconWord(timeUs: nat, recording: bool): Word64 {
    timeUs % TWO_TO_63 + if recording then TWO_TO_63 else 0
  }

  function ShiftedByte(word: nat, i: nat): Byte {
    word / Power256(i) % 256
  }

  lemma {:induction false} ByteOfWord(word: nat, n: nat, i: nat)
    requires i < n
    ensures ToBytes(word, n)[i] == ShiftedByte(word, i)
  {
    if i == 0 {
    } else {
      ByteOfWord(word / 256, n - 1, i - 1);
      DivideTwice(word, Power256(i - 1));
    }
  }

  lemma DivideTwice(word: nat, power: nat)
    requires 0 < power
    ensures word / 256 / power == word / (256 * power)
  {
    var q := word / 256;
    var r := q / power;
    assert r * power <= q < r * power + power;
    assert r * (256 * power) == 256 * (r * power);
    QuotientUnique(word, 256 * power, r);
  }

  /** Byte by byte: 63 bits of time, the low byte first, and the recording flag in the top bit. */
  lemma BeaconInBytes(timeUs: nat, recording: bool)
    ensures var bytes := ToBytes(BeaconWord(timeUs, recording), 8);
            && (recording <==> 128 <= bytes[7])
            && FourBytes(bytes, 0) + 4_294_967_296 * FourBytes(bytes, 4)
               == timeUs % 0x8000_0000_0000_0000 + if recording then 0x8000_0000_0000_0000 else 0
  {
    var bytes := ToBytes(BeaconWord(timeUs, recording), 8);
    EightBytes();
    BytesRoundTrip(BeaconWord(timeUs, recording), 8);
    EightByteWord(bytes);
  }

  method BuildBeacon(timeUs: nat, recording: bool) returns (payload: array<Byte>)
    ensures fresh(payload) && payload[..] == ToBytes(BeaconWord(timeUs, recording), 8)
    ensures recording <==> 128 <= payload[7]
  {
    payload := new Byte[8](_ => 0);
    var word := timeUs % TWO_TO_63;
    if recording {
      word := word + TWO_TO_63;
    }
    var power: nat := 1;
    for i := 0 to 8
      invariant power == Power256(i)
      invariant forall k :: 0 <= k < i ==> payload[k] == ToBytes(word, 8)[k]
    {
      ByteOfWord(word, 8, i);
      payload[i] := word / power % 256;
      power := power * 256;
    }
    BeaconInBytes(timeUs, recording);
  }

  /** The receive interrupt puts the bytes back together. */
  method ReceiveWord(payload: seq<Byte>) returns (word: nat)
    ensures word == FromBytes(payload)
  {
    word := 0;
    var power: nat := 1;
    for i := 0 to |payload|
      invariant power == Power256(i)
      invariant word == FromBytes(payload[..i])
    {
      FromBytesAppend(payload[..i], payload[i]);
      assert payload[..i + 1] == payload[..i] + [payload[i]];
      word := word + payload[i] * power;
      power := power * 256;
    }
    assert payload[..|payload|] == payload;
  }

  lemma {:induction false} FromBytesAppend(bytes: seq<Byte>, b: Byte)
    ensures FromBytes(bytes + [b]) == FromBytes(bytes) + b * Power256(|bytes|)
  {
    if bytes == [] {
    } else {
      FromBytesAppend(bytes[1..], b);
      assert (bytes + [b])[1..] == bytes[1..] + [b];
    }
  }

  /** A node recovers from a beacon exactly the flag and the time, modulo 2^63. */
  lemma BeaconRoundTrip(timeUs: nat, recording: bool, nodeId: nat)
    ensures var word := FromBytes(ToBytes(BeaconWord(timeUs, recording), 8));
            && word < TWO_TO_64 && word % TWO_TO_63 == timeUs % TWO_TO_63
            && var beacon := NodeProtocol.Message(NodeProtocol.CAN_ID_MASTER_TIME, 8, word);
               NodeProtocol.Wanted(beacon, nodeId) == [recording]
  {
    EightBytes();
    BytesRoundTrip(BeaconWord(timeUs, recording), 8);
  }

  // ---------------------------------------------------------------------------
  // From the master's frames to what nodes are asked.
  // ---------------------------------------------------------------------------

  /** A frame as a node's receive interrupt passes it on. */
  function Received(f: Frame): NodeProtocol.Message
    requires |f.bytes| == 0 || |f.bytes| == 8
  {
    FromBytesBound(f.bytes);
    EightBytes();
    NodeProtocol.Message(f.id, |f.bytes|, FromBytes(f.bytes))
  }

  /** What the session protocol hands to the driver stands for the frames on the wire: empty START
      and STOP frames, and beacons with the flag that was sampled. */
  lemma HandedIsOnTheWire(s: Session.System, l: Session.Label, t: Session.System, timeUs: nat, nodeId: nat)
    requires Session.Step(s, l, t)
    ensures l == Session.CommandSent(true) ==>
              && t.held == [Session.Request(s.phase.StartBurst?, true)]
              && var f := Frame(if s.phase.StartBurst? then 0x0A1 else 0x0A0, []);
                 NodeProtocol.Wanted(Received(f), nodeId) == [t.held[0].wanted]
    ensures l == Session.BeaconSent(true) ==>
              && t.held == [Session.Request(s.sampled[0], false)]
              && var f := Frame(0x0A2, ToBytes(BeaconWord(timeUs, s.sampled[0]), 8));
                 NodeProtocol.Wanted(Received(f), nodeId) == [t.held[0].wanted]
  {
    NodeProtocol.WantedOnTheWire(nodeId, 0);
    if l == Session.BeaconSent(true) {
      BeaconRoundTrip(timeUs, s.sampled[0], nodeId);
    }
  }
}
