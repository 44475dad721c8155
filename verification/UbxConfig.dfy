/** The u-blox binary commands (master-node/src/gps/ubx_config.c; u-blox 6 Receiver Description
    Including Protocol Specification, "UBX Checksum" and "ACK-ACK") and the matcher that waits for
    their acknowledgement in a byte stream (master-node/src/gps/gps_receiver.c). */
module UbxConfig {
  import opened CArithmetic

  const SYNC_1: Byte := 0xB5
  const SYNC_2: Byte := 0x62
  const CLASS_ACK: Byte := 0x05
  const ID_ACK_ACK: Byte := 0x01
  const CLASS_CFG: Byte := 0x06
  const ID_CFG_MSG: Byte := 0x01
  const ID_CFG_RATE: Byte := 0x08
  const NMEA_CLASS: Byte := 0xF0
  const UNUSED_NMEA_IDS: seq<Byte> := [0x00, 0x01, 0x02, 0x03, 0x05]
  const MEASUREMENT_PERIOD_MS := 200
  const FRAME_MAX := 32
  const RATE_COMMAND_COUNT := 6

  type Bytes = seq<Byte>

  // ---------------------------------------------------------------------------
  // Framing.
  // ---------------------------------------------------------------------------

  /** The sum of the first n bytes. */
  function PlainSum(s: Bytes, n: nat): nat
    requires n <= |s|
  {
    if n == 0 then 0 else PlainSum(s, n - 1) + s[n - 1]
  }

  /** The first n bytes, weighted: the first one `top` times, the next once less, and so on. */
  function WeightedSum(s: Bytes, n: nat, top: nat): nat
    requires n <= |s| && n <= top
  {
    if n == 0 then 0 else WeightedSum(s, n - 1, top) + (top - (n - 1)) * s[n - 1]
  }

  lemma {:induction false} RaiseWeights(s: Bytes, n: nat, top: nat)
    requires n <= |s| && n <= top
    ensures WeightedSum(s, n, top + 1) == WeightedSum(s, n, top) + PlainSum(s, n)
  {
    if n == 0 {
    } else {
      RaiseWeights(s, n - 1, top);
      assert (top + 1 - (n - 1)) * s[n - 1] == (top - (n - 1)) * s[n - 1] + s[n - 1];
    }
  }

  /** The two check bytes: the plain sum, and the sum that counts every byte as often as there
      are bytes from it to the end, modulo 256. */
  function CheckBytes(s: Bytes): Bytes {
    [PlainSum(s, |s|) % 256, WeightedSum(s, |s|, |s|) % 256]
  }

  function Body(messageClass: Byte, id: Byte, payload: Bytes): Bytes
    requires |payload| < 0x1_0000
  {
    [messageClass, id, |payload| % 256, |payload| / 256] + payload
  }

  function Framed(messageClass: Byte, id: Byte, payload: Bytes): Bytes
    requires |payload| < 0x1_0000
  {
    var body := Body(messageClass, id, payload);
    [SYNC_1, SYNC_2] + body + CheckBytes(body)
  }

  /** Build one frame in the caller's buffer; the running 8-bit sums are the plain and the
      weighted sum modulo 256. */
  method Frame(messageClass: Byte, id: Byte, payload: Bytes, out: array<Byte>) returns (length: nat)
    requires |payload| + 8 <= out.Length && |payload| < 0x1_0000
    modifies out
    ensures length == |payload| + 8
    ensures out[..length] == Framed(messageClass, id, payload)
    ensures forall i :: length <= i < out.Length ==> out[i] == old(out[i])
  {
    length := |payload| + 8;
    WriteHeader(messageClass, id, |payload|, out);
    CopyPayload(payload, out);
    ghost var body := Body(messageClass, id, payload);
    BodyPlace(out[..], Header(messageClass, id, |payload|), payload, body);
    AppendChecksums(out, length - 2, body);
  }

  /** The two check bytes go behind the body. */
  method AppendChecksums(out: array<Byte>, end: nat, ghost body: Bytes)
    requires 2 <= end <= out.Length - 2 && out[2..end] == body
    modifies out
    ensures out[..end + 2] == old(out[..end]) + CheckBytes(body)
    ensures forall i :: end + 2 <= i < out.Length ==> out[i] == old(out[i])
  {
    var a, b := Checksums(out, end, body);
    out[end], out[end + 1] := a, b;
  }

  function Header(messageClass: Byte, id: Byte, size: nat): Bytes
    requires size < 0x1_0000
  {
    [SYNC_1, SYNC_2, messageClass, id, size % 256, size / 256]
  }

  method WriteHeader(messageClass: Byte, id: Byte, size: nat, out: array<Byte>)
    requires 6 <= out.Length && size < 0x1_0000
    modifies out
    ensures out[..6] == Header(messageClass, id, size)
    ensures forall i :: 6 <= i < out.Length ==> out[i] == old(out[i])
  {
    out[0], out[1], out[2], out[3] := SYNC_1, SYNC_2, messageClass, id;
    out[4], out[5] := size % 256, size / 256;
  }

  lemma BodyPlace(out: Bytes, header: Bytes, payload: Bytes, body: Bytes)
    requires |header| == 6 && |payload| + 6 <= |out| && body == header[2..] + payload
    requires out[..6] == header && out[6..6 + |payload|] == payload
    ensures out[2..6 + |payload|] == body && out[..6 + |payload|] == header[..2] + body
  {
  }

  method CopyPayload(payload: Bytes, out: array<Byte>)
    requires |payload| + 8 <= out.Length
    modifies out
    ensures out[..6] == old(out[..6]) && out[6..6 + |payload|] == payload
    ensures forall i :: 6 + |payload| <= i < out.Length ==> out[i] == old(out[i])
  {
    forall i | 0 <= i < |payload| {
      out[6 + i] := payload[i];
    }
  }

  method Checksums(out: array<Byte>, end: nat, ghost body: Bytes) returns (a: Byte, b: Byte)
    requires 2 <= end <= out.Length && out[2..end] == body
    ensures [a, b] == CheckBytes(body)
  {
    a, b := 0, 0;
    for i := 2 to end
      invariant a == PlainSum(body, i - 2) % 256
      invariant b == WeightedSum(body, i - 2, i - 2) % 256
    {
      ghost var k := i - 2;
      assert out[i] == body[k];
      RaiseWeights(body, k, k);
      ModularSums(PlainSum(body, k), WeightedSum(body, k, k), body[k]);
      a := (a + out[i]) % 256;
      b := (b + a) % 256;
    }
  }

  lemma ModularSums(plain: nat, weighted: nat, x: nat)
    ensures (plain % 256 + x) % 256 == (plain + x) % 256
    ensures (weighted % 256 + (plain + x) % 256) % 256 == (weighted + plain + x) % 256
  {
    AddResidue(plain, x);
    AddResidue(weighted, (plain + x) % 256);
    AddResidue(plain + x, weighted);
  }

  lemma AddResidue(a: nat, b: nat)
    ensures (a % 256 + b) % 256 == (a + b) % 256
  {
    assert a + b == 256 * (a / 256) + (a % 256 + b);
  }

  /** Silence the sentences that are not wanted, one command each; then raise the rate. */
  function RateCommand(index: nat): Bytes {
    if index < |UNUSED_NMEA_IDS| then Framed(CLASS_CFG, ID_CFG_MSG, [NMEA_CLASS, UNUSED_NMEA_IDS[index], 0])
    else if index == |UNUSED_NMEA_IDS| then
      Framed(CLASS_CFG, ID_CFG_RATE, [MEASUREMENT_PERIOD_MS % 256, MEASUREMENT_PERIOD_MS / 256, 1, 0, 1, 0])
    else []
  }

  /** One more byte x adds x to the plain sum, and the new plain sum to the weighted one. */
  lemma OneMore(s: Bytes, n: nat, x: nat, plain: nat, weighted: nat)
    requires n < |s| && s[n] == x && PlainSum(s, n) == plain && WeightedSum(s, n, n) == weighted
    ensures PlainSum(s, n + 1) == plain + x && WeightedSum(s, n + 1, n + 1) == weighted + plain + x
  {
    RaiseWeights(s, n, n);
  }

  /** The check bytes of a body with a payload of two bytes, and the beginning of any other body. */
  lemma SumsOfSix(s: Bytes, a: nat, b: nat, c: nat, d: nat, e: nat, f: nat)
    requires 6 <= |s| && s[0] == a && s[1] == b && s[2] == c && s[3] == d && s[4] == e && s[5] == f
    ensures PlainSum(s, 6) == a + b + c + d + e + f
    ensures WeightedSum(s, 6, 6) == 6 * a + 5 * b + 4 * c + 3 * d + 2 * e + f
  {
    OneMore(s, 0, a, 0, 0);
    OneMore(s, 1, b, a, a);
    OneMore(s, 2, c, a + b, 2 * a + b);
    OneMore(s, 3, d, a + b + c, 3 * a + 2 * b + c);
    OneMore(s, 4, e, a + b + c + d, 4 * a + 3 * b + 2 * c + d);
    OneMore(s, 5, f, a + b + c + d + e, 5 * a + 4 * b + 3 * c + 2 * d + e);
  }

  lemma SilencingSums(body: Bytes, id: Byte)
    requires body == [0x06, 0x01, 0x03, 0x00, 0xF0, id, 0x00]
    ensures CheckBytes(body) == [(0xFA + id as nat) % 256, (0x30F + 2 * id as nat) % 256]
  {
    SumsOfSix(body, 6, 1, 3, 0, 240, id);
    OneMore(body, 6, 0, 250 + id as nat, 533 + id as nat);
    assert CheckBytes(body) == [PlainSum(body, 7) % 256, WeightedSum(body, 7, 7) % 256];
  }

  lemma MeasurementSums(body: Bytes)
    requires body == [0x06, 0x08, 0x06, 0x00, 0xC8, 0x00, 0x01, 0x00, 0x01, 0x00]
    ensures CheckBytes(body) == [0xDE, 0x6A]
  {
    SumsOfSix(body, 6, 8, 6, 0, 200, 0);
    OneMore(body, 6, 1, 220, 500);
    OneMore(body, 7, 0, 221, 721);
    OneMore(body, 8, 1, 221, 942);
    OneMore(body, 9, 0, 222, 1164);
  }

  /** A command that silences one sentence, byte for byte. */
  lemma SilencingCommand(index: nat, id: Byte)
    requires index < 5 && [0x00, 0x01, 0x02, 0x03, 0x05][index] == id
    ensures var a, b := (0xFA + id as nat) % 256, (0x30F + 2 * id as nat) % 256;
            RateCommand(index) == [0xB5, 0x62, 0x06, 0x01, 0x03, 0x00, 0xF0, id, 0x00, a, b]
  {
    var body := Body(0x06, 0x01, [0xF0, id, 0]);
    assert body == [0x06, 0x01, 0x03, 0x00, 0xF0, id, 0x00];
    SilencingSums(body, id);
  }

  /** The command for one measurement every 200 ms, byte for byte. */
  lemma MeasurementCommand()
    ensures RateCommand(5) == [0xB5, 0x62, 0x06, 0x08, 0x06, 0x00, 0xC8, 0x00, 0x01, 0x00, 0x01, 0x00, 0xDE, 0x6A]
  {
    var body := Body(0x06, 0x08, [0xC8, 0, 1, 0, 1, 0]);
    assert body == [0x06, 0x08, 0x06, 0x00, 0xC8, 0x00, 0x01, 0x00, 0x01, 0x00];
    MeasurementSums(body);
  }

  /** The acknowledgement of a command, byte for byte. */
  lemma AckBytes(command: Bytes)
    requires 4 <= |command|
    ensures var a, b := (8 + command[2] as nat + command[3] as nat) % 256,
                        (43 + 2 * command[2] as nat + command[3] as nat) % 256;
            ExpectedAck(command) == [0xB5, 0x62, 0x05, 0x01, 0x02, 0x00, command[2], command[3], a, b]
  {
    var body := Body(0x05, 0x01, [command[2], command[3]]);
    assert body == [0x05, 0x01, 0x02, 0x00, command[2], command[3]];
    SumsOfSix(body, 5, 1, 2, 0, command[2], command[3]);
  }

  /** There are six commands. */
  lemma SixCommands(index: nat)
    ensures RateCommand(index) == [] <==> 6 <= index
  {
  }

  method BuildRateCommand(index: nat, out: array<Byte>) returns (length: nat)
    requires out.Length == FRAME_MAX
    modifies out
    ensures length == |RateCommand(index)| <= FRAME_MAX && out[..length] == RateCommand(index)
  {
    if index < |UNUSED_NMEA_IDS| {
      length := Frame(CLASS_CFG, ID_CFG_MSG, [NMEA_CLASS, UNUSED_NMEA_IDS[index], 0], out);
    } else if index == |UNUSED_NMEA_IDS| {
      var payload := [MEASUREMENT_PERIOD_MS % 256, MEASUREMENT_PERIOD_MS / 256, 1, 0, 1, 0];
      length := Frame(CLASS_CFG, ID_CFG_RATE, payload, out);
    } else {
      length := 0;
    }
  }

  /** The acknowledgement names the class and id of the command. */
  function ExpectedAck(command: Bytes): Bytes
    requires 4 <= |command|
  {
    Framed(CLASS_ACK, ID_ACK_ACK, [command[2], command[3]])
  }

  method BuildExpectedAck(command: Bytes, out: array<Byte>) returns (length: nat)
    requires 4 <= |command| && out.Length == FRAME_MAX
    modifies out
    ensures length == |ExpectedAck(command)| && out[..length] == ExpectedAck(command)
  {
    length := Frame(CLASS_ACK, ID_ACK_ACK, [command[2], command[3]], out);
  }

  // ---------------------------------------------------------------------------
  // The matcher.
  // ---------------------------------------------------------------------------

  /** The first n bytes of the stream end with the whole pattern. */
  predicate EndsWith(pattern: Bytes, s: Bytes, n: nat)
    requires n <= |s|
  {
    |pattern| <= n && s[n - |pattern|..n] == pattern
  }

  /** The one counter, after n bytes; it stays put once the pattern is complete. */
  function Matched(pattern: Bytes, s: Bytes, n: nat): (m: nat)
    requires n <= |s| && 0 < |pattern|
    ensures m <= |pattern|
  {
    if n == 0 then 0
    else
      var m, b := Matched(pattern, s, n - 1), s[n - 1];
      if m == |pattern| then m
      else if b == pattern[m] then m + 1
      else if b == pattern[0] then 1
      else 0
  }

  /** Read bytes until the pattern is complete or the stream, up to the deadline, is used up. */
  method WaitForAck(pattern: Bytes, s: Bytes) returns (found: bool, consumed: nat)
    requires 0 < |pattern|
    ensures consumed <= |s| && (found <==> Matched(pattern, s, consumed) == |pattern|)
    ensures forall n :: 0 <= n < consumed ==> Matched(pattern, s, n) < |pattern|
    ensures !found ==> consumed == |s|
  {
    var matched := 0;
    consumed := 0;
    while consumed < |s|
      invariant consumed <= |s| && matched == Matched(pattern, s, consumed) < |pattern|
      invariant forall n :: 0 <= n <= consumed ==> Matched(pattern, s, n) < |pattern|
    {
      var byte := s[consumed];
      consumed := consumed + 1;
      if byte == pattern[matched] {
        matched := matched + 1;
        if matched == |pattern| {
          return true, consumed;
        }
      } else {
        matched := if byte == pattern[0] then 1 else 0;
      }
    }
    found := false;
  }

  /** A wrong byte x after the first k bytes leaves, as its longest useful ending, at most the
      one byte the counter falls back to. */
  predicate FallsBackRight(pattern: Bytes, k: nat, x: Byte, j: nat)
    requires 2 <= j <= k < |pattern|
  {
    pattern[..j] != (pattern[..k] + [x])[k + 1 - j..]
  }

  ghost predicate OverlapFree(pattern: Bytes) {
    forall k: nat, x: Byte, j: nat {:trigger FallsBackRight(pattern, k, x, j)} ::
      2 <= j <= k < |pattern| && x != pattern[k] ==> FallsBackRight(pattern, k, x, j)
  }

  ghost predicate Occurred(pattern: Bytes, s: Bytes, n: nat)
    requires n <= |s|
  {
    exists k :: 0 <= k <= n && EndsWith(pattern, s, k)
  }

  /** On every stream, the matcher has succeeded by byte n exactly when the pattern has occurred. */
  ghost predicate MatchesExactly(pattern: Bytes)
    requires 0 < |pattern|
  {
    forall s: Bytes, n: nat {:trigger Matched(pattern, s, n)} ::
      n <= |s| ==> (Matched(pattern, s, n) == |pattern| <==> Occurred(pattern, s, n))
  }

  /** The last `length` of the first n bytes are the first `length` of the pattern. */
  predicate Partial(pattern: Bytes, s: Bytes, n: nat, length: nat)
    requires n <= |s|
  {
    length <= n && length <= |pattern| && s[n - length..n] == pattern[..length]
  }

  lemma PartialStep(pattern: Bytes, s: Bytes, n: nat, length: nat)
    requires n < |s| && length < |pattern|
    ensures Partial(pattern, s, n + 1, length + 1) <==> Partial(pattern, s, n, length) && s[n] == pattern[length]
  {
    if length <= n {
      assert s[n - length..n + 1] == s[n - length..n] + [s[n]];
      assert pattern[..length + 1] == pattern[..length] + [pattern[length]];
    }
  }

  /** While incomplete, the counter is the length of the longest ending that starts the pattern. */
  lemma {:induction false} CounterIsLongest(pattern: Bytes, s: Bytes, n: nat, length: nat)
    requires 0 < |pattern| && OverlapFree(pattern) && n <= |s|
    requires Matched(pattern, s, n) < |pattern|
    ensures Partial(pattern, s, n, Matched(pattern, s, n))
    ensures Partial(pattern, s, n, length) ==> length <= Matched(pattern, s, n)
    decreases n
  {
    if n == 0 {
    } else {
      var m, b := Matched(pattern, s, n - 1), s[n - 1];
      CounterIsLongest(pattern, s, n - 1, if length == 0 then 0 else length - 1);
      PartialStep(pattern, s, n - 1, m);
      PartialStep(pattern, s, n - 1, 0);
      if 0 < length && Partial(pattern, s, n, length) {
        PartialStep(pattern, s, n - 1, length - 1);
        if b != pattern[m] && 2 <= length {
          NoLongEnding(pattern, s, n, m, length);
        }
      }
    }
  }

  /** No ending of two or more bytes can start the pattern right after a mismatch. */
  lemma NoLongEnding(pattern: Bytes, s: Bytes, n: nat, m: nat, length: nat)
    requires OverlapFree(pattern) && 0 < n <= |s| && m < |pattern| && s[n - 1] != pattern[m]
    requires Partial(pattern, s, n - 1, m) && 2 <= length <= m + 1
    ensures !Partial(pattern, s, n, length)
  {
    if length <= m {
      assert FallsBackRight(pattern, m, s[n - 1], length);
      assert s[n - 1 - m..n] == pattern[..m] + [s[n - 1]];
      assert s[n - length..n] == s[n - 1 - m..n][m + 1 - length..];
    } else {
      PartialStep(pattern, s, n - 1, m);
    }
  }

  lemma OccurredStep(pattern: Bytes, s: Bytes, n: nat)
    requires n < |s|
    ensures Occurred(pattern, s, n + 1) <==> Occurred(pattern, s, n) || EndsWith(pattern, s, n + 1)
  {
  }

  lemma CompletesNow(pattern: Bytes, s: Bytes, n: nat)
    requires 0 < |pattern| && OverlapFree(pattern) && n < |s| && Matched(pattern, s, n) < |pattern|
    ensures Matched(pattern, s, n + 1) == |pattern| <==> EndsWith(pattern, s, n + 1)
  {
    var p := |pattern|;
    CounterIsLongest(pattern, s, n, p - 1);
    PartialStep(pattern, s, n, p - 1);
    assert pattern[..p] == pattern;
    assert EndsWith(pattern, s, n + 1) <==> Partial(pattern, s, n + 1, p);
  }

  lemma {:induction false} CompleteExactly(pattern: Bytes, s: Bytes, n: nat)
    requires 0 < |pattern| && OverlapFree(pattern) && n <= |s|
    ensures Matched(pattern, s, n) == |pattern| <==> Occurred(pattern, s, n)
    decreases n
  {
    if n == 0 {
    } else {
      CompleteExactly(pattern, s, n - 1);
      OccurredStep(pattern, s, n - 1);
      if Matched(pattern, s, n - 1) < |pattern| {
        CompletesNow(pattern, s, n - 1);
      }
    }
  }

  lemma {:induction false} OwnPrefixMatches(pattern: Bytes, s: Bytes, k: nat)
    requires k < |pattern| && k <= |s| && s[..k] == pattern[..k]
    ensures Matched(pattern, s, k) == k
  {
    if k == 0 {
    } else {
      assert s[..k][k - 1] == s[k - 1] && pattern[..k][k - 1] == pattern[k - 1];
      assert s[..k - 1] == s[..k][..k - 1] && pattern[..k - 1] == pattern[..k][..k - 1];
      OwnPrefixMatches(pattern, s, k - 1);
    }
  }

  lemma {:induction false} CounterClimbsByOne(pattern: Bytes, s: Bytes, n: nat, m: nat)
    requires 0 < |pattern| && n <= m <= |s|
    ensures Matched(pattern, s, m) <= Matched(pattern, s, n) + (m - n) || Matched(pattern, s, m) <= m - n
    decreases m
  {
    if n == m {
    } else {
      CounterClimbsByOne(pattern, s, n, m - 1);
    }
  }

  /** A pattern that overlaps itself has a stream on which the matcher misses it. */
  lemma OverlapIsMissed(pattern: Bytes, k: nat, x: Byte, j: nat)
    requires 2 <= j <= k < |pattern| && x != pattern[k] && !FallsBackRight(pattern, k, x, j)
    ensures var s := pattern[..k] + [x] + pattern[j..];
            EndsWith(pattern, s, |s|) && Matched(pattern, s, |s|) < |pattern|
  {
    OverlapEndsWith(pattern, k, x, j);
    CounterFallsBehind(pattern, k, x, j);
  }

  lemma OverlapEndsWith(pattern: Bytes, k: nat, x: Byte, j: nat)
    requires 2 <= j <= k < |pattern| && !FallsBackRight(pattern, k, x, j)
    ensures var s := pattern[..k] + [x] + pattern[j..]; EndsWith(pattern, s, |s|)
  {
    var s := pattern[..k] + [x] + pattern[j..];
    assert s[k + 1 - j..] == (pattern[..k] + [x])[k + 1 - j..] + pattern[j..];
    assert pattern[..j] + pattern[j..] == pattern;
    assert |s| - |pattern| == k + 1 - j;
  }

  lemma CounterFallsBehind(pattern: Bytes, k: nat, x: Byte, j: nat)
    requires 2 <= j <= k < |pattern| && x != pattern[k]
    ensures var s := pattern[..k] + [x] + pattern[j..]; Matched(pattern, s, |s|) < |pattern|
  {
    var s := pattern[..k] + [x] + pattern[j..];
    assert s[..k] == pattern[..k];
    OwnPrefixMatches(pattern, s, k);
    assert Matched(pattern, s, k + 1) <= 1;
    CounterClimbsByOne(pattern, s, k + 1, |s|);
  }

  /** The one-counter matcher is right on every stream if and only if no wrong byte can leave a
      useful ending of two or more bytes. */
  lemma MatcherExactCondition(pattern: Bytes)
    requires 0 < |pattern|
    ensures MatchesExactly(pattern) <==> OverlapFree(pattern)
  {
    if OverlapFree(pattern) {
      forall s: Bytes, n: nat | n <= |s|
        ensures Matched(pattern, s, n) == |pattern| <==> Occurred(pattern, s, n)
      {
        CompleteExactly(pattern, s, n);
      }
    } else {
      var k: nat, x: Byte, j: nat :| 2 <= j <= k < |pattern| && x != pattern[k] && !FallsBackRight(pattern, k, x, j);
      OverlapIsMissed(pattern, k, x, j);
      var s := pattern[..k] + [x] + pattern[j..];
      assert Matched(pattern, s, |s|) < |pattern| && Occurred(pattern, s, |s|);
    }
  }

  /** A pattern whose first byte does not recur meets the condition. */
  lemma UniqueFirstByteSuffices(pattern: Bytes)
    requires 0 < |pattern| && forall i :: 0 < i < |pattern| ==> pattern[i] != pattern[0]
    ensures OverlapFree(pattern)
  {
    forall k: nat, x: Byte, j: nat | 2 <= j <= k < |pattern| && x != pattern[k]
      ensures FallsBackRight(pattern, k, x, j)
    {
      assert (pattern[..k] + [x])[k + 1 - j..][0] == pattern[k + 1 - j];
    }
  }

  /** The acknowledgements of all six set-up commands are matched exactly, on every stream. */
  lemma AcksAreMatchedExactly(index: nat)
    requires index < 6
    ensures 4 <= |RateCommand(index)| && MatchesExactly(ExpectedAck(RateCommand(index)))
  {
    var command := RateCommand(index);
    var id := command[3];
    assert command[2] == CLASS_CFG && (id == ID_CFG_MSG || id == ID_CFG_RATE);
    var ack := ExpectedAck(command);
    AckBytes(command);
    assert ack == [0xB5, 0x62, 0x05, 0x01, 2, 0, 0x06, id, ack[8], ack[9]];
    UniqueFirstByteSuffices(ack);
    MatcherExactCondition(ack);
  }
}
