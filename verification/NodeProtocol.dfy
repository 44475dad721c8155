/** A sensor node's side of the recording protocol: frame dispatch and state reports
    (sensor-node/src/can/can_node.c) and the sampler they switch (sensor-node/src/sampler/sampler.c). */
module NodeProtocol {
  import opened LogFormat

  const CAN_ID_STOP := 0x0A0
  const CAN_ID_START := 0x0A1
  const CAN_ID_MASTER_TIME := 0x0A2
  const RECORDING_FLAG := TWO_TO_63

  datatype Message = Message(id: nat, dlc: nat, data: Word64)

  datatype Reason = Boot | CommandStop | CommandStart | Recovery | BeaconSync

  datatype Report = Report(active: bool, reason: Reason)

  /** What a node believes, whether its sampler really runs, and the on_start (true) and on_stop
      (false) callbacks made since boot. */
  datatype View = View(state: bool, sampling: bool, calls: seq<bool>) {
    predicate Agrees() {
      state == sampling
    }

    predicate Settled(b: bool) {
      state == b && sampling == b
    }

    /** Callbacks alternate, beginning with a start, and the last one is what the sampler does. */
    predicate CallsAlternate() {
      && (forall i {:trigger calls[i]} :: 0 <= i < |calls| ==> calls[i] == (i % 2 == 0))
      && sampling == (|calls| % 2 == 1)
    }
  }

  const BOOTED := View(false, false, [])

  /** The state a frame asks this node for, if it is a protocol frame for this node. */
  function Wanted(m: Message, nodeId: nat): (wanted: seq<bool>)
    ensures |wanted| <= 1
  {
    var forUs := m.dlc == 0 || m.data % 256 == nodeId || m.data % 256 == 0xFF;
    if m.id == CAN_ID_MASTER_TIME && m.dlc == 8 then [m.data >= RECORDING_FLAG]
    else if m.id == CAN_ID_START && forUs then [true]
    else if m.id == CAN_ID_STOP && forUs then [false]
    else []
  }

  /** On the wire: an empty START asks every node to run, an empty STOP to rest, a beacon for its top bit. */
  lemma WantedOnTheWire(nodeId: nat, data: Word64)
    ensures Wanted(Message(0x0A1, 0, data), nodeId) == [true]
    ensures Wanted(Message(0x0A0, 0, data), nodeId) == [false]
    ensures Wanted(Message(0x0A2, 8, data), nodeId) == [data >= 0x8000_0000_0000_0000]
  {
  }

  /** Being asked for state b: a callback if the node believes otherwise, and the belief. */
  function Follow(v: View, b: bool): View {
    if v.state == b then v else View(b, b, v.calls + [b])
  }

  /** The dispatch task does this in two steps: it compares and makes the callback, then it sets the
      state; other tasks may read or set the state in between. */
  function Examine(v: View, b: bool): View {
    if v.state == b then v else View(v.state, b, v.calls + [b])
  }

  lemma FollowIsExamineAndSet(v: View, b: bool)
    ensures Follow(v, b) == Examine(v, b).(state := b)
  {
  }

  /** The recovery report writes back a state it read earlier. */
  function WriteBack(v: View, read: bool): View {
    v.(state := read)
  }

  class Node {
    const nodeId: nat
    var currentState: bool
    var samplerActive: bool
    var reports: seq<Report>
    var timeUpdates: seq<nat>
    ghost var calls: seq<bool>

    ghost function TheView(): View
      reads this
    {
      View(currentState, samplerActive, calls)
    }

    constructor (id: nat)
      ensures nodeId == id && TheView() == BOOTED && reports == [Report(false, Boot)] && timeUpdates == []
    {
      nodeId, currentState, samplerActive, calls := id, false, false, [];
      reports, timeUpdates := [Report(false, Boot)], [];
    }

    /** sampler_start: a second start changes nothing. */
    method OnStart()
      modifies this`samplerActive, this`calls
      ensures samplerActive && calls == old(calls) + [true]
    {
      calls := calls + [true];
      if samplerActive {
        return;
      }
      samplerActive := true;
    }

    method OnStop()
      modifies this`samplerActive, this`calls
      ensures !samplerActive && calls == old(calls) + [false]
    {
      calls := calls + [false];
      if !samplerActive {
        return;
      }
      samplerActive := false;
    }

    method ReportState(state: bool, reason: Reason)
      modifies this`currentState, this`reports
      ensures currentState == state && reports == old(reports) + [Report(state, reason)]
    {
      currentState := state;
      reports := reports + [Report(state, reason)];
    }

    /** One received message. A command is acknowledged every time, a beacon only when it
        changes something, and a beacon's time is passed on; either way the node follows, and
        nothing else moves it. */
    method Dispatch(m: Message)
      modifies this
      ensures var wanted := Wanted(m, nodeId);
              TheView() == if wanted == [] then old(TheView()) else Follow(old(TheView()), wanted[0])
      ensures var wanted := Wanted(m, nodeId);
              reports == old(reports)
                + if wanted == [] || (m.id == CAN_ID_MASTER_TIME && wanted[0] == old(currentState)) then []
                  else [Report(wanted[0], if m.id == CAN_ID_MASTER_TIME then BeaconSync
                                          else if wanted[0] then CommandStart else CommandStop)]
      ensures timeUpdates == old(timeUpdates)
                + if m.id == CAN_ID_MASTER_TIME && m.dlc == 8 then [m.data % RECORDING_FLAG] else []
      // The same on the wire. START, for all nodes or for this one:
      ensures m.id == 0x0A1 && (m.dlc == 0 || m.data % 256 == nodeId || m.data % 256 == 0xFF) ==>
                currentState && samplerActive == (old(samplerActive) || !old(currentState))
      // STOP:
      ensures m.id == 0x0A0 && (m.dlc == 0 || m.data % 256 == nodeId || m.data % 256 == 0xFF) ==>
                !currentState && samplerActive == (old(samplerActive) && !old(currentState))
      // A beacon:
      ensures m.id == 0x0A2 && m.dlc == 8 ==>
                && currentState == (m.data >= 0x8000_0000_0000_0000)
                && samplerActive == (if currentState == old(currentState) then old(samplerActive) else currentState)
                && timeUpdates == old(timeUpdates) + [m.data % 0x8000_0000_0000_0000]
      // Anything else:
      ensures !(m.id == 0x0A2 && m.dlc == 8)
              && !((m.id == 0x0A0 || m.id == 0x0A1) && (m.dlc == 0 || m.data % 256 in {nodeId, 0xFF})) ==>
                unchanged(this)
    {
      if m.id == CAN_ID_MASTER_TIME && m.dlc == 8 {
        timeUpdates := timeUpdates + [m.data % RECORDING_FLAG];
        var masterState := m.data >= RECORDING_FLAG;
        if masterState != currentState {
          if masterState {
            OnStart();
          } else {
            OnStop();
          }
          ReportState(masterState, BeaconSync);
        }
      } else if m.id == CAN_ID_START && TargetsThisNode(m) {
        if !currentState {
          OnStart();
        }
        ReportState(true, CommandStart);
      } else if m.id == CAN_ID_STOP && TargetsThisNode(m) {
        if currentState {
          OnStop();
        }
        ReportState(false, CommandStop);
      }
    }

    function TargetsThisNode(m: Message): bool {
      m.dlc == 0 || m.data % 256 == nodeId || m.data % 256 == 0xFF
    }

    /** The recovery report, `read` being the state it read when it began. */
    method ReportRecovery(read: bool)
      modifies this`currentState, this`reports
      ensures TheView() == WriteBack(old(TheView()), read)
      ensures reports == old(reports) + [Report(read, Recovery)]
    {
      ReportState(read, Recovery);
    }
  }

  // ---------------------------------------------------------------------------
  // Agreement between belief and sampler.
  // ---------------------------------------------------------------------------

  lemma FollowKeepsAlternation(v: View, b: bool)
    requires v.Agrees() && v.CallsAlternate()
    ensures Follow(v, b).Settled(b) && Follow(v, b).CallsAlternate()
  {
  }

  /** A frame asking for b leaves belief and sampler both at b if and only if they agreed, or
      the node believed the opposite. */
  lemma FrameHealsExactly(v: View, b: bool)
    ensures Follow(v, b).state == b
    ensures Follow(v, b).Settled(b) <==> v.Agrees() || v.state != b
  {
  }

  function FollowAll(v: View, bs: seq<bool>): View
    decreases |bs|
  {
    if bs == [] then v else FollowAll(Follow(v, bs[0]), bs[1..])
  }

  /** A node whose belief already is b but whose sampler is not stays that way however many
      frames ask for b: only one that asks for the opposite repairs it. */
  lemma {:induction false} DisagreementOutlivesSameFrames(v: View, bs: seq<bool>)
    requires !v.Agrees()
    ensures FollowAll(v, bs).Agrees() <==> exists i :: 0 <= i < |bs| && bs[i] != v.state
    decreases |bs|
  {
    if bs == [] {
    } else {
      if bs[0] == v.state {
        DisagreementOutlivesSameFrames(v, bs[1..]);
        if i :| 0 <= i < |bs[1..]| && bs[1..][i] != v.state {
          assert bs[i + 1] != v.state;
        }
        if i :| 0 <= i < |bs| && bs[i] != v.state {
          assert bs[1..][i - 1] != v.state;
        }
      } else {
        AgreementLasts(Follow(v, bs[0]), bs[1..]);
      }
    }
  }

  lemma {:induction false} AgreementLasts(v: View, bs: seq<bool>)
    requires v.Agrees()
    ensures FollowAll(v, bs).Agrees()
    ensures bs != [] ==> FollowAll(v, bs).Settled(bs[|bs| - 1])
    decreases |bs|
  {
    if bs == [] {
    } else {
      AgreementLasts(Follow(v, bs[0]), bs[1..]);
    }
  }

  /** The recovery report preserves agreement if and only if the frames dispatched between its
      read and its write left the state as it was read. */
  lemma RecoveryKeepsAgreementExactly(v: View, between: seq<bool>)
    requires v.Agrees()
    ensures var now := FollowAll(v, between);
            WriteBack(now, v.state).Agrees() <==> now.state == v.state
  {
    AgreementLasts(v, between);
  }

  /** A start that lands inside a recovery report, then a stop: the sampler runs on while the
      node reports idle, and no number of idle beacons stops it. */
  lemma RacingRecoveryLeavesSamplerRunning(beacons: nat)
    ensures var raced := WriteBack(FollowAll(BOOTED, [true]), BOOTED.state);
            var later := FollowAll(Follow(raced, false), seq(beacons, _ => false));
            !later.state && later.sampling
  {
    var raced := WriteBack(FollowAll(BOOTED, [true]), BOOTED.state);
    assert FollowAll(BOOTED, [true]) == Follow(BOOTED, true);
    var idle := seq(beacons, _ => false);
    DisagreementOutlivesSameFrames(raced, idle);
    StateFollows(raced, idle);
  }

  lemma {:induction false} StateFollows(v: View, bs: seq<bool>)
    requires forall i :: 0 <= i < |bs| ==> bs[i] == v.state
    ensures FollowAll(v, bs) == v
    decreases |bs|
  {
    if bs == [] {
    } else {
      StateFollows(v, bs[1..]);
    }
  }
}
