/** The sampling pipeline of a sensor node (sensor-node/src/sampler/sampler.c): the bounded output
    queue, whole engine events, and the periodic schedule. */
module Sampler {
  import opened CArithmetic
  import opened EngineSpeed

  const QUEUE_LENGTH := 64
  const CAN_ID_ENGINE_RPM := 0x0BB
  const CAN_ID_ENGINE_SPARK := 0x0BC

  datatype Sample = Sample(canId: nat, timestampMs: int, value: int)

  // ---------------------------------------------------------------------------
  // The periodic output queue.
  // ---------------------------------------------------------------------------

  class OutputQueue {
    var queue: seq<Sample>
    // Every sample ever offered, and how many of them have left the queue at its front.
    ghost var offered: seq<Sample>
    ghost var gone: nat

    /** The queue is an unbroken run of the offered samples, up to the newest. */
    ghost predicate Valid()
      reads this
    {
      |queue| <= QUEUE_LENGTH && gone <= |offered| && queue == offered[gone..]
    }

    constructor ()
      ensures Valid() && queue == [] && offered == []
    {
      queue, offered, gone := [], [], 0;
    }

    /** The send task takes up to n samples. */
    method Drain(n: nat)
      requires Valid()
      modifies this`queue, this`gone
      ensures Valid() && gone == old(gone) + Min(n, |old(queue)|)
    {
      var taken := if n < |queue| then n else |queue|;
      queue := queue[taken..];
      gone := gone + taken;
    }

    method Reset()
      requires Valid()
      modifies this`queue, this`gone
      ensures Valid() && queue == []
    {
      queue, gone := [], |offered|;
    }

    /** Offer a sample; the send task may drain some while a full queue is being relieved of its
        oldest. The newest sample is always in; the oldest is lost only if the queue was full. */
    method EnqueueLatest(sample: Sample, drainedFirst: nat, drainedThen: nat)
      requires Valid()
      modifies this
      ensures Valid() && offered == old(offered) + [sample]
      ensures queue != [] && queue[|queue| - 1] == sample
      ensures |old(queue)| < 64 ==> gone == old(gone)
      ensures |old(queue)| == 64 && drainedFirst + drainedThen == 0 ==> gone == old(gone) + 1
    {
      if |queue| < QUEUE_LENGTH {
        queue := queue + [sample];
        offered := offered + [sample];
        return;
      }
      Drain(drainedFirst);
      if queue != [] {
        queue := queue[1..];
        gone := gone + 1;
      }
      Drain(drainedThen);
      queue := queue + [sample];
      offered := offered + [sample];
    }
  }

  // ---------------------------------------------------------------------------
  // Engine events.
  // ---------------------------------------------------------------------------

  /** The samples one event stands for: a spark, a speed, or a spark with its speed. */
  function SamplesOf(e: Event, timestampMs: int): seq<Sample> {
    (if e.spark then [Sample(CAN_ID_ENGINE_SPARK, timestampMs, 1)] else [])
    + (if !e.spark || e.rpm > 0 then [Sample(CAN_ID_ENGINE_RPM, timestampMs, e.rpm)] else [])
  }

  /** A stream of samples in which no positive speed is without its spark right before it. */
  ghost predicate Paired(stream: seq<Sample>) {
    forall i :: 0 <= i < |stream| && HasSpeed(stream[i]) ==> SparkBefore(stream, i)
  }

  predicate HasSpeed(s: Sample) {
    s.canId == CAN_ID_ENGINE_RPM && s.value > 0
  }

  predicate SparkBefore(stream: seq<Sample>, i: nat)
    requires i < |stream|
  {
    0 < i && stream[i - 1] == Sample(CAN_ID_ENGINE_SPARK, stream[i].timestampMs, 1)
  }

  lemma PairedAppend(stream: seq<Sample>, e: Event, timestampMs: int)
    requires Paired(stream) && (!e.spark ==> e.rpm <= 0)
    ensures Paired(stream + SamplesOf(e, timestampMs))
  {
    var all := stream + SamplesOf(e, timestampMs);
    forall i | 0 <= i < |all| && HasSpeed(all[i]) ensures SparkBefore(all, i) {
      if i < |stream| {
        assert SparkBefore(stream, i);
      }
    }
  }

  class EngineQueue {
    var queue: seq<Sample>
    // Samples that have left the queue, since the last reset.
    ghost var sent: seq<Sample>

    /** Without resets, what has been sent followed by what is queued keeps every positive speed
        right behind its spark. */
    ghost predicate Valid()
      reads this
    {
      |queue| <= QUEUE_LENGTH && Paired(sent + queue)
    }

    constructor ()
      ensures Valid() && queue == [] && sent == []
    {
      queue, sent := [], [];
    }

    method Drain(n: nat)
      requires Valid()
      modifies this
      ensures Valid() && sent + queue == old(sent + queue)
      ensures |queue| == |old(queue)| - Min(n, |old(queue)|)
    {
      var taken := if n < |queue| then n else |queue|;
      assert sent + queue == sent + queue[..taken] + queue[taken..];
      sent := sent + queue[..taken];
      queue := queue[taken..];
    }

    method Reset()
      modifies this
      ensures Valid() && queue == [] && sent == []
    {
      queue, sent := [], [];
      assert sent + queue == [];
    }

    /** A whole event goes in, or nothing of it: room is tested for both samples first, and the
        send task can only make more room between the two sends. */
    method EnqueueEngineEvent(e: Event, timestampMs: int, drainedBetween: nat) returns (stored: bool)
      requires Valid() && (!e.spark ==> e.rpm <= 0)
      modifies this
      ensures Valid()
      ensures stored <==> |old(queue)| + (if e.spark && e.rpm > 0 then 2 else 1) <= 64
      ensures sent + queue == old(sent + queue)
                + if !stored then []
                  else if !e.spark then [Sample(0x0BB, timestampMs, e.rpm)]
                  else if e.rpm > 0 then [Sample(0x0BC, timestampMs, 1), Sample(0x0BB, timestampMs, e.rpm)]
                  else [Sample(0x0BC, timestampMs, 1)]
    {
      var hasRpm := !e.spark || e.rpm > 0;
      var count := (if e.spark then 1 else 0) + (if hasRpm then 1 else 0);
      if QUEUE_LENGTH - |queue| < count {
        return false;
      }
      stored := true;
      PairedAppend(sent + queue, e, timestampMs);
      ghost var stream := sent + queue;
      ghost var speed := if hasRpm then [Sample(CAN_ID_ENGINE_RPM, timestampMs, e.rpm)] else [];
      if e.spark {
        queue := queue + [Sample(CAN_ID_ENGINE_SPARK, timestampMs, 1)];
        assert sent + queue == stream + [Sample(CAN_ID_ENGINE_SPARK, timestampMs, 1)];
        SparkKeepsPairing(stream, timestampMs);
        Drain(drainedBetween);
      }
      ghost var before := sent + queue;
      if hasRpm {
        queue := queue + [Sample(CAN_ID_ENGINE_RPM, timestampMs, e.rpm)];
        assert sent + queue == before + speed;
      }
      assert sent + queue == stream + SamplesOf(e, timestampMs);
    }
  }

  lemma SparkKeepsPairing(stream: seq<Sample>, timestampMs: int)
    requires Paired(stream)
    ensures Paired(stream + [Sample(CAN_ID_ENGINE_SPARK, timestampMs, 1)])
  {
    var all := stream + [Sample(CAN_ID_ENGINE_SPARK, timestampMs, 1)];
    forall i | 0 <= i < |all| && HasSpeed(all[i]) ensures SparkBefore(all, i) {
      assert SparkBefore(stream, i);
    }
  }

  // ---------------------------------------------------------------------------
  // The schedule.
  // ---------------------------------------------------------------------------

  /** The slot of the grid armed at `armedUs` that a moment falls into. */
  function SlotOf(armedUs: int, periodUs: nat, nowUs: int): int
    requires 0 < periodUs
  {
    (nowUs - armedUs) / periodUs
  }

  class Schedule {
    const periodUs: nat
    var nextSampleUs: int
    // When the schedule was armed, the slot the next sample is due in, and the slots read so far.
    ghost var armedUs: int
    ghost var nextSlot: nat
    ghost var slots: seq<int>

    /** The next time is on the armed grid, and every slot was read at most once, in order. */
    ghost predicate Valid()
      reads this
    {
      && 0 < periodUs
      && nextSampleUs == armedUs + nextSlot * periodUs
      && (forall i, j :: 0 <= i < j < |slots| ==> slots[i] < slots[j])
      && (forall i :: 0 <= i < |slots| ==> 0 <= slots[i] < nextSlot)
    }

    constructor (period: nat, nowUs: int)
      requires 0 < period
      ensures Valid() && periodUs == period && armedUs == nowUs && slots == []
    {
      periodUs, nextSampleUs, armedUs, nextSlot, slots := period, nowUs, nowUs, 0, [];
    }

    method Arm(nowUs: int)
      requires Valid()
      modifies this
      ensures Valid() && armedUs == nowUs && nextSampleUs == nowUs && slots == []
    {
      nextSampleUs, armedUs, nextSlot, slots := nowUs, nowUs, 0, [];
    }

    /** One pass of the sampling task at this sensor: it is read if a slot is due, and then the
        schedule catches up to the first slot after now, however many were missed. */
    method Poll(nowUs: int) returns (due: bool)
      requires Valid()
      modifies this`nextSampleUs, this`nextSlot, this`slots
      ensures Valid() && due == (nowUs >= old(nextSampleUs))
      ensures due ==>
                && slots == old(slots) + [SlotOf(armedUs, periodUs, nowUs)]
                && nextSlot == SlotOf(armedUs, periodUs, nowUs) + 1
                && nextSampleUs - periodUs <= nowUs < nextSampleUs
      ensures !due ==> slots == old(slots) && nextSampleUs == old(nextSampleUs)
    {
      due := nowUs >= nextSampleUs;
      if due {
        while nextSampleUs <= nowUs
          invariant nextSampleUs == armedUs + nextSlot * periodUs && old(nextSlot) <= nextSlot
          invariant nextSampleUs - periodUs <= nowUs
          invariant nextSlot == old(nextSlot) ==> nextSampleUs == old(nextSampleUs)
          modifies this`nextSampleUs, this`nextSlot
          decreases nowUs - nextSampleUs
        {
          assert (nextSlot + 1) * periodUs == nextSlot * periodUs + periodUs;
          nextSampleUs := nextSampleUs + periodUs;
          nextSlot := nextSlot + 1;
        }
        assert (nextSlot - 1) * periodUs == nextSlot * periodUs - periodUs;
        QuotientUnique(nowUs - armedUs, periodUs, nextSlot - 1);
        slots := slots + [nextSlot - 1];
      }
    }
  }
}
