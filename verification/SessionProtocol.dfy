/** The recording session across the system: the master's lifecycle calls
    (master-node/src/app/app_control.c), its beacon (master-node/src/time/time_beacon.c) and its
    transmitter, a broadcast bus that may lose or repeat frames, and nodes that may reboot, in each
    of which the dispatch task shares its state with tasks that report it
    (sensor-node/src/can/can_node.c, sensor-node/src/main.c). */
module SessionProtocol {
  import opened NodeProtocol
  import Log = DataLogger
  import Can = CanTransmit

  /** Where the task that holds the lifecycle mutex has got to. */
  datatype Phase = Free | StartedLogger | StartBurst(left: nat) | StoppedLogger | StopBurst(left: nat)

  /** A frame, as what it asks of a node. */
  datatype Request = Request(wanted: bool, command: bool)

  /** A node. `answering`: the state its dispatch task is about to set, having made the callback.
      `writes`: states that other tasks are about to set, having read them earlier: the recovery
      report, and at boot the boot report's idle. */
  datatype Member = Member(view: View, answering: seq<bool>, writes: seq<bool>)

  const BOOTING := Member(BOOTED, [], [false])

  /** `sampled`: the flag a beacon was built from, while it waits to be sent. `held`: the frame
      the transmit driver still holds. `inboxes`: the frames each node has received and not yet
      dispatched. */
  datatype System = System(logger: Log.State, recording: bool, phase: Phase, sampled: seq<bool>, held: seq<Request>,
                           inboxes: seq<seq<Request>>, nodes: seq<Member>)

  datatype Label =
    | LoggerStarts | FlagSet | LoggerStops | FlagCleared | CommandSent(accepted: bool) | MutexReleased
    | WriterIdle | BeaconBuilt | BeaconSent(accepted: bool) | FrameOut(copies: seq<nat>)
    | Dispatched(node: nat) | Answered(node: nat) | StateRead(node: nat) | StateWritten(node: nat, which: nat)
    | Rebooted(node: nat)

  // ---------------------------------------------------------------------------
  // The steps.
  // ---------------------------------------------------------------------------

  /** A send that the driver accepts waits in its one buffer, however long; any other is lost. */
  function Handed(s: System, r: Request, accepted: bool): System {
    if accepted then s.(held := [r]) else s
  }

  /** A broadcast reaches each node some number of times: none if lost, several if repeated. */
  ghost predicate Broadcast(before: System, after: System, r: Request, copies: seq<nat>) {
    && |copies| == |before.inboxes| == |after.inboxes|
    && forall n {:trigger after.inboxes[n]} :: 0 <= n < |copies| ==>
         after.inboxes[n] == before.inboxes[n] + seq(copies[n], _ => r)
  }

  /** A node compares its state with a frame, makes the callback, and has yet to set the state. */
  function Examined(m: Member, r: Request): Member {
    Member(Examine(m.view, r.wanted), if m.view.state != r.wanted || r.command then [r.wanted] else [], m.writes)
  }

  function Set(m: Member, state: bool): Member {
    m.(view := WriteBack(m.view, state))
  }

  function Without(writes: seq<bool>, i: nat): seq<bool>
    requires i < |writes|
  {
    writes[..i] + writes[i + 1..]
  }

  /** The steps of one node, on its own state. */
  ghost predicate NodeStep(m: Member, inbox: seq<Request>, l: Label, t: Member) {
    match l
    case Dispatched(_) => m.answering == [] && inbox != [] && t == Examined(m, inbox[0])
    case Answered(_) => m.answering != [] && t == Set(m, m.answering[0]).(answering := [])
    case StateRead(_) => t == m.(writes := m.writes + [m.view.state])
    case StateWritten(_, i) => i < |m.writes| && t == Set(m, m.writes[i]).(writes := Without(m.writes, i))
    case Rebooted(_) => t == BOOTING
    case _ => false
  }

  /** A dispatch that nothing disturbs has the effect of the whole dispatch of a frame. */
  lemma UndisturbedDispatchFollows(m: Member, inbox: seq<Request>, n: nat, t: Member)
    requires NodeStep(m, inbox, Dispatched(n), t)
    ensures (if t.answering == [] then t else Set(t, t.answering[0])).view == Follow(m.view, inbox[0].wanted)
  {
  }

  predicate OfNode(l: Label) {
    l.Dispatched? || l.Answered? || l.StateRead? || l.StateWritten? || l.Rebooted?
  }

  /** What is left in the inbox of the node that steps. */
  function InboxAfter(inbox: seq<Request>, l: Label): seq<Request> {
    if l.Rebooted? then [] else if l.Dispatched? && inbox != [] then inbox[1..] else inbox
  }

  ghost predicate Step(s: System, l: Label, t: System) {
    && |s.inboxes| == |s.nodes|
    && match l
       case LoggerStarts => s.phase == Free && s.logger == Log.Idle
                            && t == s.(logger := Log.Running, phase := StartedLogger)
       case FlagSet => s.phase == StartedLogger
                       && t == s.(recording := true, phase := StartBurst(Can.COMMAND_REPEAT_COUNT))
       case LoggerStops => s.phase == Free && s.logger == Log.Running
                           && t == s.(logger := Log.Stopping, phase := StoppedLogger)
       case FlagCleared => s.phase == StoppedLogger
                           && t == s.(recording := false, phase := StopBurst(Can.COMMAND_REPEAT_COUNT))
       case CommandSent(accepted) =>
         (accepted ==> s.held == []) &&
         (match s.phase
          case StartBurst(left) =>
            0 < left && t == Handed(s, Request(true, true), accepted).(phase := StartBurst(left - 1))
          case StopBurst(left) =>
            0 < left && t == Handed(s, Request(false, true), accepted).(phase := StopBurst(left - 1))
          case _ => false)
       case MutexReleased => (s.phase == StartBurst(0) || s.phase == StopBurst(0)) && t == s.(phase := Free)
       case WriterIdle => s.logger == Log.Stopping && t == s.(logger := Log.Idle)
       case BeaconBuilt => s.sampled == [] && t == s.(sampled := [s.recording])
       case BeaconSent(accepted) =>
         s.sampled != [] && (accepted ==> s.held == [])
         && t == Handed(s, Request(s.sampled[0], false), accepted).(sampled := s.sampled[1..])
       case FrameOut(copies) => s.held != [] && Broadcast(s, t, s.held[0], copies)
                                && t == s.(held := [], inboxes := t.inboxes)
       case _ => l.node < |s.nodes| == |t.nodes|
                 && NodeStep(s.nodes[l.node], s.inboxes[l.node], l, t.nodes[l.node])
                 && t == s.(nodes := s.nodes[l.node := t.nodes[l.node]],
                            inboxes := s.inboxes[l.node := InboxAfter(s.inboxes[l.node], l)])
  }

  /** A run: one more state than labels, each step allowed. */
  ghost predicate IsRun(states: seq<System>, labels: seq<Label>) {
    && |states| == |labels| + 1
    && forall k {:trigger labels[k]} :: 0 <= k < |labels| ==> Step(states[k], labels[k], states[k + 1])
  }

  // ---------------------------------------------------------------------------
  // The master, in every reachable state.
  // ---------------------------------------------------------------------------

  ghost predicate Invariant(s: System) {
    && |s.inboxes| == |s.nodes| && |s.held| <= 1
    && match s.phase
       case Free => s.recording == (s.logger == Log.Running)
       case StartedLogger => s.logger == Log.Running && !s.recording
       case StartBurst(_) => s.logger == Log.Running && s.recording
       case StoppedLogger => s.logger != Log.Running && s.recording
       case StopBurst(_) => s.logger != Log.Running && !s.recording
  }

  ghost predicate Initial(s: System) {
    && s.logger == Log.Idle && !s.recording && s.phase == Free && s.sampled == [] && s.held == []
    && |s.inboxes| == |s.nodes| && (forall n :: 0 <= n < |s.nodes| ==> s.nodes[n] == BOOTING)
  }

  lemma StepKeepsInvariant(s: System, l: Label, t: System)
    requires Invariant(s) && Step(s, l, t)
    ensures Invariant(t) && |t.nodes| == |s.nodes|
  {
  }

  /** In every state of every run from power-on, whenever the lifecycle mutex is free the beacon
      flag is set exactly when the logger is running, and the driver holds one frame at most. */
  lemma {:induction false} InvariantOverRuns(states: seq<System>, labels: seq<Label>, k: nat)
    requires IsRun(states, labels) && k < |states| && Initial(states[0])
    ensures Invariant(states[k]) && |states[k].nodes| == |states[0].nodes|
  {
    if k == 0 {
    } else {
      InvariantOverRuns(states, labels, k - 1);
      StepKeepsInvariant(states[k - 1], labels[k - 1], states[k]);
    }
  }

  // ---------------------------------------------------------------------------
  // One node: belief, sampler and callbacks.
  // ---------------------------------------------------------------------------

  /** The state the node has, or is about to set, is what its sampler does, and its callbacks have
      strictly alternated since boot. */
  predicate Consistent(m: Member) {
    && |m.answering| <= 1
    && m.view.sampling == (if m.answering == [] then m.view.state else m.answering[0])
    && m.view.CallsAlternate()
  }

  /** Another task sets the node to a state it read before the node left that state. */
  predicate Stale(m: Member, l: Label) {
    l.StateWritten? && m.answering == [] && l.which < |m.writes| && m.writes[l.which] != m.view.state
  }

  /** One step keeps a node consistent if and only if it is not a stale write of its state. */
  lemma NodeStaysConsistentExactly(m: Member, inbox: seq<Request>, l: Label, t: Member)
    requires Consistent(m) && NodeStep(m, inbox, l, t)
    ensures Consistent(t) <==> !Stale(m, l)
  {
  }

  /** What a step of the system does to node n. */
  lemma StepOfNode(s: System, l: Label, t: System, n: nat)
    requires Step(s, l, t) && n < |s.nodes|
    ensures |t.nodes| == |s.nodes|
    ensures if OfNode(l) && l.node == n then NodeStep(s.nodes[n], s.inboxes[n], l, t.nodes[n])
            else t.nodes[n] == s.nodes[n]
  {
  }

  predicate StaleAt(s: System, l: Label, n: nat)
    requires n < |s.nodes|
  {
    OfNode(l) && l.node == n && Stale(s.nodes[n], l)
  }

  ghost predicate ConsistentUpTo(states: seq<System>, n: nat, k: nat)
    requires k < |states|
  {
    forall i :: 0 <= i <= k ==> n < |states[i].nodes| && Consistent(states[i].nodes[n])
  }

  ghost predicate NoStaleWrite(states: seq<System>, labels: seq<Label>, n: nat, k: nat)
    requires k <= |labels| && |states| == |labels| + 1
  {
    forall i {:trigger labels[i]} :: 0 <= i < k ==> n < |states[i].nodes| && !StaleAt(states[i], labels[i], n)
  }

  /** Over every run, a node's belief is what its sampler does and its start and stop callbacks
      strictly alternate per boot, up to any point, if and only if no stale write of its state
      has happened before that point. */
  lemma {:induction false} ConsistentExactlyWithoutStaleWrites(states: seq<System>, labels: seq<Label>, n: nat, k: nat)
    requires IsRun(states, labels) && k < |states| && n < |states[0].nodes| && Consistent(states[0].nodes[n])
    ensures n < |states[k].nodes|
    ensures ConsistentUpTo(states, n, k) <==> NoStaleWrite(states, labels, n, k)
  {
    if k == 0 {
    } else {
      ConsistentExactlyWithoutStaleWrites(states, labels, n, k - 1);
      var s, l, t := states[k - 1], labels[k - 1], states[k];
      assert Step(s, l, t);
      StepOfNode(s, l, t, n);
      assert ConsistentUpTo(states, n, k) <==> ConsistentUpTo(states, n, k - 1) && Consistent(t.nodes[n]);
      assert NoStaleWrite(states, labels, n, k) <==> NoStaleWrite(states, labels, n, k - 1) && !StaleAt(s, l, n);
      if Consistent(s.nodes[n]) && OfNode(l) && l.node == n {
        NodeStaysConsistentExactly(s.nodes[n], s.inboxes[n], l, t.nodes[n]);
      }
    }
  }

  // ---------------------------------------------------------------------------
  // Self-stabilisation.
  // ---------------------------------------------------------------------------

  predicate Only(states: seq<bool>, b: bool) {
    forall i :: 0 <= i < |states| ==> states[i] == b
  }

  predicate OnlyAsk(frames: seq<Request>, b: bool) {
    forall i :: 0 <= i < |frames| ==> frames[i].wanted == b
  }

  /** The flag is b and nothing older is under way: no other frame waits in an inbox or is held
      by the driver, and no beacon built from another flag waits to be sent. */
  ghost predicate Calm(s: System, b: bool) {
    && s.recording == b
    && Only(s.sampled, b) && OnlyAsk(s.held, b)
    && forall n {:trigger s.inboxes[n]} :: 0 <= n < |s.inboxes| ==> OnlyAsk(s.inboxes[n], b)
  }

  lemma StepKeepsCalm(s: System, l: Label, t: System, b: bool)
    requires Invariant(s) && Calm(s, b) && Step(s, l, t) && t.recording == b
    ensures Calm(t, b)
  {
    forall n | 0 <= n < |t.inboxes| ensures OnlyAsk(t.inboxes[n], b) {
      assert OnlyAsk(s.inboxes[n], b);
    }
  }

  ghost predicate FlagStays(states: seq<System>, b: bool) {
    forall i :: 0 <= i < |states| ==> states[i].recording == b
  }

  lemma {:induction false} CalmOverRuns(states: seq<System>, labels: seq<Label>, b: bool, k: nat)
    requires IsRun(states, labels) && k < |states| && Invariant(states[0]) && Calm(states[0], b) && FlagStays(states, b)
    ensures Invariant(states[k]) && Calm(states[k], b) && |states[k].nodes| == |states[0].nodes|
  {
    if k == 0 {
    } else {
      CalmOverRuns(states, labels, b, k - 1);
      assert Step(states[k - 1], labels[k - 1], states[k]);
      StepKeepsInvariant(states[k - 1], labels[k - 1], states[k]);
      StepKeepsCalm(states[k - 1], labels[k - 1], states[k], b);
    }
  }

  /** The node believes b, and no write of another state is outstanding. */
  predicate Believes(m: Member, b: bool) {
    m.view.state == b && Only(m.answering, b) && Only(m.writes, b)
  }

  /** Frames for b and writes of b move neither its belief nor its sampler. */
  lemma BelieverStays(m: Member, inbox: seq<Request>, l: Label, t: Member, b: bool)
    requires Believes(m, b) && OnlyAsk(inbox, b) && NodeStep(m, inbox, l, t) && !l.Rebooted?
    ensures Believes(t, b) && t.view.sampling == m.view.sampling
  {
  }

  ghost predicate NoReboot(labels: seq<Label>, n: nat) {
    forall i :: 0 <= i < |labels| ==> labels[i] != Rebooted(n)
  }

  /** From then on its sampler does for good what it does now, right or wrong. */
  lemma {:induction false} BelieverStaysOverRuns(states: seq<System>, labels: seq<Label>, b: bool, n: nat,
                                                 from: nat, k: nat)
    requires IsRun(states, labels) && from <= k < |states| && n < |states[0].nodes|
    requires Invariant(states[0]) && Calm(states[0], b) && FlagStays(states, b) && NoReboot(labels, n)
    requires n < |states[from].nodes| && Believes(states[from].nodes[n], b)
    ensures n < |states[k].nodes| && Believes(states[k].nodes[n], b)
    ensures states[k].nodes[n].view.sampling == states[from].nodes[n].view.sampling
  {
    if from < k {
      BelieverStaysOverRuns(states, labels, b, n, from, k - 1);
      var s, l, t := states[k - 1], labels[k - 1], states[k];
      CalmOverRuns(states, labels, b, k - 1);
      assert Step(s, l, t) && OnlyAsk(s.inboxes[n], b);
      StepOfNode(s, l, t, n);
      if OfNode(l) && l.node == n {
        BelieverStays(s.nodes[n], s.inboxes[n], l, t.nodes[n], b);
      }
    }
  }

  /** Node n dispatches a frame for b first thing, and is done with it at k. */
  ghost predicate DoneAt(states: seq<System>, labels: seq<Label>, b: bool, n: nat, k: nat)
    requires IsRun(states, labels) && k < |states|
  {
    && 0 < k && labels[0] == Dispatched(n)
    && n < |states[0].inboxes| && states[0].inboxes[n] != [] && states[0].inboxes[n][0].wanted == b
    && (forall i :: 0 < i < k ==> n < |states[i].nodes| && states[i].nodes[n].answering != [])
    && n < |states[k].nodes| && states[k].nodes[n].answering == []
  }

  /** While it answers, whatever other tasks do to its state, its sampler does what the frame made it do. */
  lemma {:induction false} SamplerWhileAnswering(states: seq<System>, labels: seq<Label>, b: bool, n: nat,
                                                 k: nat, i: nat)
    requires IsRun(states, labels) && k < |states| && DoneAt(states, labels, b, n, k) && NoReboot(labels, n)
    requires 0 < i < k
    ensures n < |states[0].nodes| && states[i].nodes[n].answering == [b]
    ensures states[i].nodes[n].view.sampling == Examine(states[0].nodes[n].view, b).sampling
  {
    var s, l, t := states[i - 1], labels[i - 1], states[i];
    assert Step(s, l, t);
    if i > 1 {
      SamplerWhileAnswering(states, labels, b, n, k, i - 1);
    }
    StepOfNode(s, l, t, n);
  }

  /** When a node is done with a frame for b it believes b; its sampler does b as well if and only
      if, when it dispatched the frame, belief and sampler agreed or it believed the opposite. */
  lemma FrameSettlesExactly(states: seq<System>, labels: seq<Label>, b: bool, n: nat, k: nat)
    requires IsRun(states, labels) && k < |states| && DoneAt(states, labels, b, n, k) && NoReboot(labels, n)
    ensures n < |states[0].nodes| && states[k].nodes[n].view.state == b
    ensures states[k].nodes[n].view.Settled(b)
            <==> states[0].nodes[n].view.Agrees() || states[0].nodes[n].view.state != b
  {
    var s, l, t := states[k - 1], labels[k - 1], states[k];
    assert Step(s, l, t);
    if k > 1 {
      SamplerWhileAnswering(states, labels, b, n, k, k - 1);
    }
    StepOfNode(s, l, t, n);
  }

  /** Self-stabilisation, exactly. The flag stays at b and nothing older is under way; a node
      dispatches a frame, and when it is done with it no other task is about to set an older
      state. Then, whatever is lost or repeated and however its tasks interleave, at every later
      moment until it reboots the node believes b and samples accordingly if and only if, when it
      dispatched that frame, belief and sampler agreed or it believed the opposite of b. */
  lemma SelfStabilisesExactly(states: seq<System>, labels: seq<Label>, b: bool, n: nat, done: nat, k: nat)
    requires IsRun(states, labels) && done <= k < |states| && NoReboot(labels, n)
    requires Invariant(states[0]) && Calm(states[0], b) && FlagStays(states, b)
    requires DoneAt(states, labels, b, n, done) && Only(states[done].nodes[n].writes, b)
    ensures n < |states[0].nodes| && n < |states[k].nodes|
    ensures states[k].nodes[n].view.Settled(b)
            <==> states[0].nodes[n].view.Agrees() || states[0].nodes[n].view.state != b
  {
    FrameSettlesExactly(states, labels, b, n, done);
    BelieverStaysOverRuns(states, labels, b, n, done, k);
  }

  /** The condition on older writes is needed: one that is still outstanding unsettles the node as
      soon as it happens, until it is done with the next frame. */
  lemma OlderWriteUnsettles(s: System, b: bool, n: nat, i: nat) returns (t: System)
    requires |s.inboxes| == |s.nodes| && n < |s.nodes| && s.nodes[n].view.Settled(b)
    requires i < |s.nodes[n].writes| && s.nodes[n].writes[i] != b
    ensures Step(s, StateWritten(n, i), t) && n < |t.nodes| && !t.nodes[n].view.Settled(b)
    ensures t.nodes[n].view.state != b
  {
    var m := s.nodes[n];
    var u := Set(m, m.writes[i]).(writes := Without(m.writes, i));
    t := s.(nodes := s.nodes[n := u], inboxes := s.inboxes[n := s.inboxes[n]]);
  }
}
