/** The NMEA RMC sentence parser (master-node/src/gps/rmc_parser.c): checksum and field splitting,
    and UTC from the time and date fields. */
module RmcParser {
  import opened CArithmetic

  const DOLLAR: Byte := 0x24
  const STAR: Byte := 0x2A
  const COMMA: Byte := 0x2C
  const DOT: Byte := 0x2E
  const ZERO: Byte := 0x30
  const FIELD_COUNT := 10
  const FIELD_SIZE := 24
  const RMC: seq<Byte> := [0x52, 0x4D, 0x43]
  const ACTIVE: seq<Byte> := [0x41]

  type Text = seq<Byte>

  predicate IsDigit(b: Byte) {
    0x30 <= b <= 0x39
  }

  predicate IsUpper(b: Byte) {
    0x41 <= b <= 0x5A
  }

  predicate IsHex(b: Byte) {
    IsDigit(b) || 0x41 <= b <= 0x46 || 0x61 <= b <= 0x66
  }

  function HexValue(b: Byte): nat
    requires IsHex(b)
  {
    if IsDigit(b) then b - 0x30 else if b <= 0x46 then b - 0x41 + 10 else b - 0x61 + 10
  }

  function HexDigit(v: nat): (b: Byte)
    requires v < 16
    ensures IsHex(b) && HexValue(b) == v
  {
    if v < 10 then 0x30 + v else 0x41 + v - 10
  }

  // ---------------------------------------------------------------------------
  // Exclusive or, bit by bit.
  // ---------------------------------------------------------------------------

  function Power2(n: nat): nat {
    if n == 0 then 1 else 2 * Power2(n - 1)
  }

  function XorBits(a: nat, b: nat, bits: nat): (x: nat)
    ensures x < Power2(bits)
  {
    if bits == 0 then 0 else (a + b) % 2 + 2 * XorBits(a / 2, b / 2, bits - 1)
  }

  function Xor(a: Byte, b: Byte): Byte {
    EightBits();
    XorBits(a, b, 8)
  }

  lemma {:induction false} XorCommutes(a: nat, b: nat, bits: nat)
    ensures XorBits(a, b, bits) == XorBits(b, a, bits)
  {
    if bits == 0 {
    } else {
      XorCommutes(a / 2, b / 2, bits - 1);
    }
  }

  lemma {:induction false} XorCancels(x: nat, y: nat, a: nat, bits: nat)
    requires x < Power2(bits) && y < Power2(bits) && XorBits(x, a, bits) == XorBits(y, a, bits)
    ensures x == y
  {
    if bits == 0 {
    } else {
      var xs, ys := XorBits(x / 2, a / 2, bits - 1), XorBits(y / 2, a / 2, bits - 1);
      assert (x + a) % 2 + 2 * xs == (y + a) % 2 + 2 * ys;
      XorCancels(x / 2, y / 2, a / 2, bits - 1);
      SameParity(x, y, a);
    }
  }

  lemma SameParity(x: nat, y: nat, a: nat)
    requires (x + a) % 2 == (y + a) % 2
    ensures x % 2 == y % 2
  {
  }

  lemma EightBits()
    ensures Power2(8) == 256
  {
    assert Power2(8) == 4 * Power2(6) == 16 * Power2(4) == 256;
  }

  lemma XorTellsApart(x: Byte, y: Byte, a: Byte, b: Byte)
    ensures x != y ==> Xor(x, a) != Xor(y, a)
    ensures a != b ==> Xor(x, a) != Xor(x, b)
  {
    EightBits();
    if Xor(x, a) == Xor(y, a) {
      XorCancels(x, y, a, 8);
    }
    if Xor(x, a) == Xor(x, b) {
      XorCommutes(x, a, 8);
      XorCommutes(x, b, 8);
      XorCancels(a, b, x, 8);
    }
  }

  function Checksum(s: Text): Byte {
    if s == [] then 0 else Xor(Checksum(s[..|s| - 1]), s[|s| - 1])
  }

  /** Changing one byte always changes the checksum. */
  lemma {:induction false} ChecksumDetects(s: Text, k: nat, b: Byte)
    requires k < |s| && b != s[k]
    ensures Checksum(s[k := b]) != Checksum(s)
  {
    var n, t := |s| - 1, s[k := b];
    if k == n {
      assert t[..n] == s[..n];
      XorTellsApart(Checksum(s[..n]), 0, s[n], b);
    } else {
      ChecksumDetects(s[..n], k, b);
      assert t[..n] == s[..n][k := b];
      XorTellsApart(Checksum(s[..n]), Checksum(t[..n]), s[n], 0);
    }
  }

  // ---------------------------------------------------------------------------
  // Fields.
  // ---------------------------------------------------------------------------

  /** A text taken apart at its commas: the fields that end in one, and the field after the last. */
  datatype Fields = Fields(closed: seq<Text>, open: Text) {
    function All(): (fields: seq<Text>)
      ensures |fields| == |closed| + 1
    {
      closed + [open]
    }

    function Add(c: Byte): Fields {
      if c == COMMA then Fields(closed + [open], []) else Fields(closed, open + [c])
    }
  }

  /** The first n bytes of a text, taken apart. */
  function SplitFirst(s: Text, n: nat): Fields
    requires n <= |s|
  {
    if n == 0 then Fields([], []) else SplitFirst(s, n - 1).Add(s[n - 1])
  }

  function Split(s: Text): Fields {
    SplitFirst(s, |s|)
  }

  function JoinClosed(closed: seq<Text>): Text {
    if closed == [] then [] else JoinClosed(closed[..|closed| - 1]) + (closed[|closed| - 1] + [COMMA])
  }

  function Join(fields: Fields): Text {
    JoinClosed(fields.closed) + fields.open
  }

  lemma JoinOne(fields: Fields, c: Byte)
    ensures Join(fields.Add(c)) == Join(fields) + [c]
  {
    if c == COMMA {
      assert (fields.closed + [fields.open])[..|fields.closed|] == fields.closed;
    }
  }

  lemma {:induction false} JoinOfSplitFirst(s: Text, n: nat)
    requires n <= |s|
    ensures Join(SplitFirst(s, n)) == s[..n]
  {
    if n == 0 {
    } else {
      JoinOfSplitFirst(s, n - 1);
      JoinOne(SplitFirst(s, n - 1), s[n - 1]);
      assert s[..n] == s[..n - 1] + [s[n - 1]];
    }
  }

  /** Splitting and joining on commas gives the payload back. */
  lemma JoinOfSplit(s: Text)
    ensures Join(Split(s)) == s
  {
    JoinOfSplitFirst(s, |s|);
    assert s[..|s|] == s;
  }

  predicate NoComma(field: Text) {
    forall i :: 0 <= i < |field| ==> field[i] != COMMA
  }

  lemma {:induction false} SplitPrefix(s: Text, t: Text, n: nat)
    requires n <= |s|
    ensures SplitFirst(s + t, n) == SplitFirst(s, n)
  {
    if n == 0 {
    } else {
      SplitPrefix(s, t, n - 1);
    }
  }

  lemma {:induction false} SplitRun(s: Text, n: nat, field: Text)
    requires n + |field| <= |s| && NoComma(field) && s[n..n + |field|] == field
    ensures SplitFirst(s, n + |field|) == Fields(SplitFirst(s, n).closed, SplitFirst(s, n).open + field)
  {
    if field == [] {
    } else {
      var k := |field| - 1;
      assert s[n..n + k] == field[..k] && s[n + k] == field[k];
      SplitRun(s, n, field[..k]);
      assert SplitFirst(s, n).open + field == SplitFirst(s, n).open + field[..k] + [field[k]];
    }
  }

  lemma {:induction false} SplitOfJoinClosed(closed: seq<Text>)
    requires forall i :: 0 <= i < |closed| ==> NoComma(closed[i])
    ensures Split(JoinClosed(closed)) == Fields(closed, [])
  {
    if closed == [] {
    } else {
      var n := |closed| - 1;
      assert NoComma(closed[n]);
      SplitOfJoinClosed(closed[..n]);
      OneMoreClosed(JoinClosed(closed[..n]), closed[..n], closed[n]);
      assert closed[..n] + [closed[n]] == closed;
    }
  }

  lemma OneMoreClosed(before: Text, closed: seq<Text>, field: Text)
    requires Split(before) == Fields(closed, []) && NoComma(field)
    ensures Split(before + (field + [COMMA])) == Fields(closed + [field], [])
  {
    var s := before + (field + [COMMA]);
    SplitPrefix(before, field + [COMMA], |before|);
    SplitRun(s, |before|, field);
    assert [] + field == field;
  }

  /** Joining and splitting gives comma-free fields back. */
  lemma SplitOfJoin(fields: Fields)
    requires NoComma(fields.open) && forall i :: 0 <= i < |fields.closed| ==> NoComma(fields.closed[i])
    ensures Split(Join(fields)) == fields
  {
    SplitOfJoinClosed(fields.closed);
    LastField(JoinClosed(fields.closed), fields.closed, fields.open);
  }

  lemma LastField(before: Text, closed: seq<Text>, field: Text)
    requires Split(before) == Fields(closed, []) && NoComma(field)
    ensures Split(before + field) == Fields(closed, field)
  {
    SplitPrefix(before, field, |before|);
    SplitRun(before + field, |before|, field);
    assert [] + field == field;
  }

  /** Fields already closed are final, whatever follows. */
  lemma {:induction false} ClosedIsFinal(s: Text, n: nat, m: nat)
    requires n <= m <= |s|
    ensures SplitFirst(s, n).closed <= SplitFirst(s, m).closed
  {
    if n == m {
    } else {
      ClosedIsFinal(s, n, m - 1);
    }
  }

  function Payload(line: Text): Text
    requires 4 <= |line|
  {
    line[1..|line| - 3]
  }

  predicate IsPrintable(b: Byte) {
    32 <= b <= 126
  }

  predicate IsRmcType(field: Text) {
    |field| == 5 && IsUpper(field[0]) && IsUpper(field[1]) && field[2..] == RMC
  }

  predicate WellFormed(line: Text) {
    && 4 <= |line| && line[0] == DOLLAR && line[|line| - 3] == STAR && STAR !in Payload(line)
    && IsHex(line[|line| - 2]) && IsHex(line[|line| - 1])
  }

  predicate ChecksumMatches(line: Text)
    requires WellFormed(line)
  {
    Checksum(Payload(line)) == 16 * HexValue(line[|line| - 2]) + HexValue(line[|line| - 1])
  }

  predicate FieldsFit(payload: Text) {
    && (forall i :: 0 <= i < |payload| ==> IsPrintable(payload[i]))
    && (forall i :: 0 <= i < |Split(payload).closed| ==> |Split(payload).closed[i]| < FIELD_SIZE)
    && |Split(payload).open| < FIELD_SIZE
  }

  /** What a sentence must be for its fields to be taken. */
  predicate Accepts(line: Text) {
    && WellFormed(line) && ChecksumMatches(line) && FieldsFit(Payload(line))
    && var fields := Split(Payload(line)).All();
       FIELD_COUNT <= |fields| && IsRmcType(fields[0]) && fields[2] == ACTIVE
  }

  method FieldsFromRmc(line: Text) returns (ok: bool, fields: seq<Text>)
    ensures ok <==> Accepts(line)
    ensures ok ==> fields == Split(Payload(line)).All()[..FIELD_COUNT]
    ensures ok ==>
              && |fields| == 10 && fields[2] == [0x41]
              && |fields[0]| == 5 && 65 <= fields[0][0] <= 90 && 65 <= fields[0][1] <= 90
              && fields[0][2..] == [0x52, 0x4D, 0x43]
  {
    ok, fields := false, [];
    if line == [] || line[0] != DOLLAR {
      return;
    }
    var star := FindStar(line);
    StarOfWellFormed(line, star);
    if star == |line| || |line| - star != 3 || !IsHex(line[star + 1]) || !IsHex(line[star + 2]) {
      return;
    }
    var checksum := ComputeChecksum(line, star);
    if checksum != 16 * HexValue(line[star + 1]) + HexValue(line[star + 2]) {
      return;
    }
    var count;
    ok, fields, count := SplitFields(line[1..star]);
    ok := ok && count >= FIELD_COUNT && |fields[0]| == 5 && IsUpper(fields[0][0]) && IsUpper(fields[0][1])
          && fields[0][2..] == RMC && fields[2] == ACTIVE;
  }

  method FindStar(line: Text) returns (star: nat)
    requires line != [] && line[0] == DOLLAR
    ensures 0 < star <= |line| && forall i :: 0 <= i < star ==> line[i] != STAR
    ensures star < |line| ==> line[star] == STAR
  {
    star := 0;
    while star < |line| && line[star] != STAR
      invariant star <= |line| && forall i :: 0 <= i < star ==> line[i] != STAR
    {
      star := star + 1;
    }
  }

  lemma StarOfWellFormed(line: Text, star: nat)
    requires 0 < star <= |line| && (forall i :: 0 <= i < star ==> line[i] != STAR)
    requires star < |line| ==> line[star] == STAR
    ensures WellFormed(line) ==> |line| - star == 3
  {
    assert star < |line| - 3 ==> Payload(line)[star - 1] == STAR;
  }

  method ComputeChecksum(line: Text, star: nat) returns (checksum: Byte)
    requires 1 <= star <= |line|
    ensures checksum == Checksum(line[1..star])
  {
    checksum := 0;
    for p := 1 to star
      invariant checksum == Checksum(line[1..p])
    {
      assert line[1..p + 1][..p - 1] == line[1..p];
      checksum := Xor(checksum, line[p]);
    }
  }

  /** One pass over the payload: every field is checked, the first ten are stored. */
  method SplitFields(payload: Text) returns (ok: bool, fields: seq<Text>, count: nat)
    ensures ok <==> FieldsFit(payload)
    ensures ok ==> var all := Split(payload).All(); count == |all| && fields == all[..Min(|all|, FIELD_COUNT)]
  {
    ok, fields, count := false, [], 0;
    var start := 0;
    ghost var closed: seq<Text> := [];
    for p := 0 to |payload|
      invariant start <= p
      invariant SplitFirst(payload, p) == Fields(closed, payload[start..p])
      invariant forall i :: 0 <= i < p ==> IsPrintable(payload[i])
      invariant forall i :: 0 <= i < |closed| ==> |closed[i]| < FIELD_SIZE
      invariant count == |closed| && fields == closed[..Min(count, FIELD_COUNT)]
    {
      var c := payload[p];
      if c != COMMA {
        if c < 32 || c > 126 {
          return;
        }
        assert payload[start..p + 1] == payload[start..p] + [c];
      } else {
        if p - start >= FIELD_SIZE {
          ClosedIsFinal(payload, p + 1, |payload|);
          assert Split(payload).closed[|closed|] == payload[start..p];
          return;
        }
        fields := StoreField(fields, count, payload[start..p], closed);
        closed := closed + [payload[start..p]];
        count := count + 1;
        start := p + 1;
      }
    }
    assert Split(payload) == Fields(closed, payload[start..]);
    if |payload| - start >= FIELD_SIZE {
      return;
    }
    fields := StoreField(fields, count, payload[start..], closed);
    count := count + 1;
    ok := true;
  }

  /** Only the first ten fields are stored. */
  method StoreField(fields: seq<Text>, count: nat, field: Text, ghost closed: seq<Text>) returns (stored: seq<Text>)
    requires count == |closed| && fields == closed[..Min(count, FIELD_COUNT)]
    ensures var all := closed + [field]; stored == all[..Min(|all|, FIELD_COUNT)]
  {
    stored := if count < FIELD_COUNT then fields + [field] else fields;
  }

  // ---------------------------------------------------------------------------
  // Printing and substitution.
  // ---------------------------------------------------------------------------

  function Sentence(fields: Fields): Text {
    var payload := Join(fields);
    var checksum := Checksum(payload);
    [DOLLAR] + payload + [STAR, HexDigit(checksum / 16), HexDigit(checksum % 16)]
  }

  predicate CleanText(s: Text) {
    forall i :: 0 <= i < |s| ==> IsPrintable(s[i]) && s[i] != STAR
  }

  /** What a field may contain. */
  predicate Printable(field: Text) {
    |field| < FIELD_SIZE && NoComma(field) && CleanText(field)
  }

  lemma {:induction false} JoinIsClean(closed: seq<Text>)
    requires forall i :: 0 <= i < |closed| ==> Printable(closed[i])
    ensures CleanText(JoinClosed(closed))
  {
    if closed == [] {
    } else {
      assert Printable(closed[|closed| - 1]);
      JoinIsClean(closed[..|closed| - 1]);
    }
  }

  /** A sentence printed from valid fields, with its checksum, gives those fields back. */
  lemma SentenceParsesBack(fields: Fields)
    requires Printable(fields.open) && (forall i :: 0 <= i < |fields.closed| ==> Printable(fields.closed[i]))
    requires FIELD_COUNT <= |fields.All()| && IsRmcType(fields.All()[0]) && fields.All()[2] == ACTIVE
    ensures Accepts(Sentence(fields)) && Split(Payload(Sentence(fields))) == fields
  {
    JoinIsClean(fields.closed);
    assert forall i :: 0 <= i < |fields.closed| ==> Printable(fields.closed[i]) && NoComma(fields.closed[i]);
    SplitOfJoin(fields);
    assert Payload(Sentence(fields)) == Join(fields);
  }

  /** Of the sentences printed from printable fields, each with its checksum, exactly those of the
      right type, status and number of fields are accepted. */
  lemma PrintedAcceptedExactly(fields: Fields)
    requires Printable(fields.open) && (forall i :: 0 <= i < |fields.closed| ==> Printable(fields.closed[i]))
    ensures Accepts(Sentence(fields)) <==>
              var all := fields.All();
              && 10 <= |all| && all[2] == [0x41]
              && |all[0]| == 5 && 65 <= all[0][0] <= 90 && 65 <= all[0][1] <= 90
              && all[0][2..] == [0x52, 0x4D, 0x43]
  {
    JoinIsClean(fields.closed);
    assert forall i :: 0 <= i < |fields.closed| ==> Printable(fields.closed[i]) && NoComma(fields.closed[i]);
    SplitOfJoin(fields);
    assert Payload(Sentence(fields)) == Join(fields);
  }

  // ---------------------------------------------------------------------------
  // Acceptance in bytes and numbers alone.
  // ---------------------------------------------------------------------------

  /** Binary place i of a number. */
  function Place(x: nat, i: nat): (bit: nat)
    ensures bit < 2
  {
    if i == 0 then x % 2 else Place(x / 2, i - 1)
  }

  lemma HalfFirst(x: nat, power: nat)
    requires 0 < power
    ensures x / (2 * power) == x / 2 / power
  {
    var half := x / 2;
    var q := half / power;
    assert q * power <= half < q * power + power;
    assert q * (2 * power) == 2 * (q * power);
    QuotientUnique(x, 2 * power, q);
  }

  lemma {:induction false} PlaceIsQuotient(x: nat, i: nat)
    ensures 0 < Power2(i) && Place(x, i) == x / Power2(i) % 2
  {
    if i == 0 {
    } else {
      PlaceIsQuotient(x / 2, i - 1);
      HalfFirst(x, Power2(i - 1));
    }
  }

  lemma PowersOfTwo(i: nat)
    requires i < 8
    ensures Power2(i) == [1, 2, 4, 8, 16, 32, 64, 128][i]
  {
    assert Power2(2) == 4 && Power2(4) == 16 && Power2(6) == 64;
  }

  /** The eight places of a byte. */
  lemma PlaceOfByte(x: Byte, i: nat, worth: nat)
    requires i < 8 && worth == [1, 2, 4, 8, 16, 32, 64, 128][i]
    ensures Place(x, i) == x / worth % 2
  {
    PlaceIsQuotient(x, i);
    PowersOfTwo(i);
  }

  /** How many bytes of s have a one in place i. */
  function Ones(s: Text, i: nat): nat {
    if s == [] then 0 else Ones(s[..|s| - 1], i) + Place(s[|s| - 1], i)
  }

  lemma {:induction false} XorPlace(a: nat, b: nat, bits: nat, i: nat)
    requires i < bits
    ensures Place(XorBits(a, b, bits), i) == (Place(a, i) + Place(b, i)) % 2
  {
    XorHalves(a, b, bits);
    if i == 0 {
      ParityOfSum(a, b);
    } else {
      XorPlace(a / 2, b / 2, bits - 1, i - 1);
      PlaceOfHalf(a, i);
      PlaceOfHalf(b, i);
      PlaceOfHalf(XorBits(a, b, bits), i);
    }
  }

  lemma PlaceOfHalf(x: nat, i: nat)
    requires 0 < i
    ensures Place(x, i) == Place(x / 2, i - 1)
  {
  }

  lemma ParityOfSum(a: nat, b: nat)
    ensures (a + b) % 2 == (a % 2 + b % 2) % 2
  {
  }

  lemma XorHalves(a: nat, b: nat, bits: nat)
    requires 0 < bits
    ensures XorBits(a, b, bits) % 2 == (a + b) % 2
    ensures XorBits(a, b, bits) / 2 == XorBits(a / 2, b / 2, bits - 1)
  {
  }

  /** Every binary place of the checksum is the parity of that place over the payload. */
  lemma {:induction false} ChecksumIsParity(s: Text, i: nat)
    requires i < 8
    ensures Place(Checksum(s), i) == Ones(s, i) % 2
  {
    if s == [] {
      PlacesOfZero(i);
    } else {
      ChecksumIsParity(s[..|s| - 1], i);
      XorPlace(Checksum(s[..|s| - 1]), s[|s| - 1], 8, i);
      ParityOfSum(Ones(s[..|s| - 1], i), Place(s[|s| - 1], i));
    }
  }

  lemma {:induction false} PlacesOfZero(i: nat)
    ensures Place(0, i) == 0
  {
    if i == 0 {
    } else {
      PlacesOfZero(i - 1);
    }
  }

  function Count(s: Text, b: nat): nat {
    if s == [] then 0 else Count(s[..|s| - 1], b) + if s[|s| - 1] == b then 1 else 0
  }

  /** Splitting cuts at every byte 44 and nowhere else; JoinOfSplit says that nothing is lost. */
  lemma {:induction false} SplitCutsAtCommas(s: Text, n: nat)
    requires n <= |s|
    ensures |SplitFirst(s, n).closed| == Count(s[..n], 44)
    ensures 44 !in SplitFirst(s, n).open
    ensures forall i :: 0 <= i < |SplitFirst(s, n).closed| ==> 44 !in SplitFirst(s, n).closed[i]
  {
    if n == 0 {
    } else {
      SplitCutsAtCommas(s, n - 1);
      assert s[..n][..n - 1] == s[..n - 1];
    }
  }

  /** Which lines are accepted, from their bytes and the parity checksum. */
  lemma AcceptedInBytes(line: Text)
    ensures Accepts(line) <==>
              && 4 <= |line| && line[0] == 36 && line[|line| - 3] == 42
              && (forall i :: 1 <= i < |line| - 3 ==> line[i] != 42 && 32 <= line[i] <= 126)
              && var high, low := line[|line| - 2], line[|line| - 1];
                 var payload := line[1..|line| - 3];
                 var all := Split(payload).All();
              && (48 <= high <= 57 || 65 <= high <= 70 || 97 <= high <= 102)
              && (48 <= low <= 57 || 65 <= low <= 70 || 97 <= low <= 102)
              && Checksum(payload)
                 == 16 * (if high <= 57 then high - 48 else if high <= 70 then high - 55 else high - 87)
                    + (if low <= 57 then low - 48 else if low <= 70 then low - 55 else low - 87)
              && (forall i :: 0 <= i < |all| ==> |all[i]| <= 23)
              && 10 <= |all| && all[2] == [65]
              && |all[0]| == 5 && 65 <= all[0][0] <= 90 && 65 <= all[0][1] <= 90 && all[0][2..] == [82, 77, 67]
  {
    if 4 <= |line| {
      var payload := line[1..|line| - 3];
      assert forall i :: 0 <= i < |payload| ==> payload[i] == line[i + 1];
      assert (forall i :: 1 <= i < |line| - 3 ==> line[i] != 42) <==> STAR !in payload by {
        assert forall i :: 1 <= i < |line| - 3 ==> line[i] == payload[i - 1];
      }
      assert (forall i :: 1 <= i < |line| - 3 ==> IsPrintable(line[i]))
             <==> (forall i :: 0 <= i < |payload| ==> IsPrintable(payload[i])) by {
        assert forall i :: 1 <= i < |line| - 3 ==> line[i] == payload[i - 1];
      }
      var split := Split(payload);
      assert forall i :: 0 <= i < |split.closed| ==> split.All()[i] == split.closed[i];
      assert split.All()[|split.closed|] == split.open;
    }
  }

  /** Replacing any one byte of an accepted sentence's payload gets it rejected. */
  lemma SubstitutionRejected(line: Text, k: nat, b: Byte)
    requires Accepts(line) && 1 <= k < |line| - 3 && b != line[k]
    ensures !Accepts(line[k := b])
  {
    assert Payload(line[k := b]) == Payload(line)[k - 1 := b];
    ChecksumDetects(Payload(line), k - 1, b);
  }
}
