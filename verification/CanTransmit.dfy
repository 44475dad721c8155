/** The single retained transmit frame (master-node/src/can/can_master.c and, with another
    timeout, sensor-node/src/can/can_node.c). The driver keeps pointers into the frame and its
    payload until it is done with them, which may be long after the send has timed out. */
module CanTransmit {
  import opened CArithmetic

  const PAYLOAD_MAX := 8
  const COMMAND_REPEAT_COUNT := 5

  datatype Frame = Frame(id: nat, bytes: seq<Byte>)

  datatype SendResult = SendOk | InvalidArgument | Timeout | TransmitError

  /** One wait for the driver: whether it finishes meanwhile, and whether the wait notices. */
  datatype Wait = Wait(finishes: bool, noticed: bool) {
    predicate Frees(held: bool) {
      (held ==> finishes) && noticed
    }
  }

  /** What happens around one send. */
  datatype Circumstances = Circumstances(mutexTaken: bool, before: Wait, accepted: bool, after: Wait)

  class Transmitter {
    var frameId: nat
    var frameLength: nat
    const payload: array<Byte>
    var pending: bool
    // The driver: whether it holds the frame, and what it has put on the wire by reading
    // through the pointers it was given.
    var driverHolds: bool
    var wire: seq<Frame>
    ghost var handedOver: seq<Frame>

    function InBuffer(): Frame
      requires frameLength <= payload.Length
      reads this, payload
    {
      Frame(frameId, payload[..frameLength])
    }

    /** Whenever the mutex is free. A held frame is intact: with it, the wire carries exactly the
        frames handed over, in order. */
    ghost predicate Valid()
      reads this, payload
    {
      && payload.Length == PAYLOAD_MAX && frameLength <= PAYLOAD_MAX
      && (driverHolds ==> pending)
      && wire + (if driverHolds then [InBuffer()] else []) == handedOver
    }

    constructor ()
      ensures Valid() && !driverHolds && handedOver == [] && fresh(payload)
    {
      payload := new Byte[PAYLOAD_MAX](_ => 0);
      frameId, frameLength, pending, driverHolds := 0, 0, false, false;
      wire, handedOver := [], [];
    }

    /** The driver finishes at any moment, with whatever the buffer then contains. */
    method DriverCompletes()
      requires Valid()
      modifies this`wire, this`driverHolds
      ensures Valid() && !driverHolds && wire == handedOver
    {
      if driverHolds {
        wire := wire + [InBuffer()];
        driverHolds := false;
      }
    }

    /** The wait succeeds only if nothing is held. */
    method WaitAllDone(wait: Wait) returns (ok: bool)
      requires Valid()
      modifies this`wire, this`driverHolds
      ensures Valid() && old(wire) <= wire
      ensures ok <==> wait.Frees(old(driverHolds))
      ensures ok ==> !driverHolds
      ensures !old(driverHolds) ==> !driverHolds && wire == old(wire)
    {
      if wait.finishes {
        DriverCompletes();
      }
      ok := !driverHolds && wait.noticed;
    }

    /** Whether a send that is let in and finds the buffer free is accepted by the driver. */
    predicate HandsOver(bytes: seq<Byte>, c: Circumstances)
      reads this
    {
      |bytes| <= PAYLOAD_MAX && c.mutexTaken && (pending ==> c.before.Frees(driverHolds)) && c.accepted
    }

    /** Whatever the timeouts, a send hands over its own frame or none, and does not touch a
        buffer the driver holds. A timeout can be reported for a frame that does go out. */
    method Send(id: nat, bytes: seq<Byte>, c: Circumstances) returns (result: SendResult)
      requires Valid()
      modifies this, payload
      ensures Valid() && old(wire) <= wire
      ensures handedOver == old(handedOver) + if old(HandsOver(bytes, c)) then [Frame(id, bytes)] else []
      ensures result == SendOk <==> old(HandsOver(bytes, c)) && c.after.Frees(true)
      ensures result == SendOk ==> wire == handedOver && !driverHolds
      ensures result == InvalidArgument <==> |bytes| > 8
      ensures result == TransmitError <==>
                |bytes| <= 8 && c.mutexTaken && (old(pending) ==> c.before.Frees(old(driverHolds))) && !c.accepted
      ensures result == TransmitError ==> handedOver == old(handedOver)
      ensures |bytes| > 8 || !c.mutexTaken ==> unchanged(this) && unchanged(payload)
      ensures driverHolds && handedOver == old(handedOver) ==> InBuffer() == old(InBuffer())
    {
      if |bytes| > PAYLOAD_MAX {
        return InvalidArgument;
      }
      if !c.mutexTaken {
        return Timeout;
      }
      if pending {
        var done := WaitAllDone(c.before);
        if !done {
          return Timeout;
        }
        pending := false;
      }
      FillBuffer(id, bytes);
      if !c.accepted {
        return TransmitError;
      }
      driverHolds := true;
      handedOver := handedOver + [Frame(id, bytes)];
      pending := true;
      var done := WaitAllDone(c.after);
      if !done {
        return Timeout;
      }
      pending := false;
      result := SendOk;
    }

    method FillBuffer(id: nat, bytes: seq<Byte>)
      requires Valid() && !driverHolds && |bytes| <= PAYLOAD_MAX
      modifies this`frameId, this`frameLength, payload
      ensures Valid() && InBuffer() == Frame(id, bytes)
    {
      forall i | 0 <= i < |bytes| {
        payload[i] := bytes[i];
      }
      frameId, frameLength := id, |bytes|;
    }

    /** A command is sent five times with an empty payload; the first failure is reported. */
    method SendCommandBurst(id: nat, cs: seq<Circumstances>)
      returns (first: SendResult, ghost results: seq<SendResult>, ghost accepted: nat)
      requires Valid() && |cs| == 5
      modifies this, payload
      ensures Valid() && |results| == 5 && first == FirstError(results)
      ensures accepted <= 5
      ensures handedOver == old(handedOver) + Copies(Frame(id, []), accepted)
      ensures first == SendOk ==> accepted == 5 && wire == handedOver
    {
      first, results, accepted := SendOk, [], 0;
      for attempt := 0 to COMMAND_REPEAT_COUNT
        invariant Valid() && |results| == attempt && first == FirstError(results)
        invariant accepted <= attempt && handedOver == old(handedOver) + Copies(Frame(id, []), accepted)
        invariant first == SendOk ==> accepted == attempt && (0 < attempt ==> wire == handedOver)
      {
        ghost var before := handedOver;
        var result := Send(id, [], cs[attempt]);
        if result != SendOk && first == SendOk {
          first := result;
        }
        FirstErrorAppend(results, result);
        results := results + [result];
        if handedOver != before {
          OneMoreCopy(old(handedOver), Frame(id, []), accepted);
          accepted := accepted + 1;
        }
      }
    }
  }

  function Copies(f: Frame, n: nat): seq<Frame> {
    seq(n, _ => f)
  }

  lemma OneMoreCopy(before: seq<Frame>, f: Frame, n: nat)
    ensures before + Copies(f, n) + [f] == before + Copies(f, n + 1)
  {
  }

  lemma FirstErrorAppend(results: seq<SendResult>, last: SendResult)
    ensures FirstError(results + [last]) == if FirstError(results) != SendOk then FirstError(results) else last
  {
    assert (results + [last])[..|results|] == results;
  }

  function FirstError(results: seq<SendResult>): SendResult {
    if results == [] then SendOk
    else
      var earlier := FirstError(results[..|results| - 1]);
      if earlier != SendOk then earlier else results[|results| - 1]
  }

  /** Any other report is that of the first copy that failed. */
  lemma {:induction false} FirstErrorIsFirst(results: seq<SendResult>, k: nat)
    requires k < |results| && results[k] != SendOk && forall i :: 0 <= i < k ==> results[i] == SendOk
    ensures FirstError(results) == results[k]
    decreases |results|
  {
    var n := |results| - 1;
    if k < n {
      FirstErrorIsFirst(results[..n], k);
    } else {
      NoErrorMeansAllSent(results[..n]);
    }
  }

  /** SendOk is reported for a burst if and only if every copy went out. */
  lemma {:induction false} NoErrorMeansAllSent(results: seq<SendResult>)
    ensures FirstError(results) == SendOk <==> forall i :: 0 <= i < |results| ==> results[i] == SendOk
  {
    if results == [] {
    } else {
      NoErrorMeansAllSent(results[..|results| - 1]);
    }
  }
}
