/** Which bytes make the scanner wait, and which it calls garbled and why. */
module ScanVerdicts {
  import opened Wrappers
  import opened Bytes
  import opened Sequences
  import opened Framing
  import opened FrameFormat

  /** A BeginString field ends at `a`, and room for a tag follows it. */
  predicate SecondTagAt(buf: bytes, a: nat) {
    BeginStringAt(buf, a) && a + 3 <= |buf|
  }

  /** A BeginString field ends at `a`, and a BodyLength field of `length` after it ends at `b`. */
  predicate LengthKnown(buf: bytes, a: nat, b: nat, length: nat) {
    BeginStringAt(buf, a) && BodyLengthAt(buf, a + 1, b, length)
  }

  /** The length of the frame whose BodyLength field, of `length`, ends at `b`. */
  function FrameLen(b: nat, length: nat): nat {
    b + 1 + length + CHECKSUM_FIELD_LEN
  }

  /** The whole frame has arrived, and is within the cap. */
  predicate FrameArrived(buf: bytes, maxFrameSize: nat, a: nat, b: nat, length: nat) {
    LengthKnown(buf, a, b, length) && FrameLen(b, length) <= maxFrameSize && FrameLen(b, length) <= |buf|
  }

  /** Where the CheckSum field should start, one does, after the SOH that ends the body. */
  predicate TrailerInPlace(buf: bytes, at: nat) {
    1 <= at && at + CHECKSUM_FIELD_LEN <= |buf| && buf[at - 1] == SOH && buf[at..at + 3] == CHECKSUM_TAG
  }

  predicate ThreeDigitsAt(buf: bytes, at: nat) {
    at + CHECKSUM_FIELD_LEN <= |buf| && AllDigits(buf[at + 3..at + 6]) && buf[at + 6] == SOH
  }

  /** What is wrong with a frame that has arrived, BodyLength first, then CheckSum, then MsgType. */
  predicate FrameGarbles(buf: bytes, b: nat, length: nat, reason: GarbledReason)
    requires FrameLen(b, length) <= |buf|
  {
    var at := b + 1 + length;
    if !TrailerInPlace(buf, at) then reason == BodyLengthMismatch
    else if !ThreeDigitsAt(buf, at) then reason == MalformedChecksum
    else if DigitsValue(buf[at + 3..at + 6]) != Sum(buf[..at]) % 0x100 then reason == ChecksumMismatch
    else reason == MissingMsgType && !StartsWith(buf[b + 1..at], MSG_TYPE_TAG)
  }

  ghost predicate NoBodyLengthAt(buf: bytes, from: nat) {
    forall b: nat, length: nat :: !BodyLengthAt(buf, from, b, length)
  }

  /** The bytes so far decide nothing: a field that has not ended may yet, or the frame has not arrived. */
  ghost predicate Waits(buf: bytes, maxFrameSize: nat) {
    || (|buf| < |BEGIN_STRING_PREFIX| && StartsWith(BEGIN_STRING_PREFIX, buf))
    || (StartsWith(buf, BEGIN_STRING_PREFIX) && |buf| <= MAX_BEGIN_STRING_LEN && SOH !in buf[2..])
    || (exists a: nat :: BeginStringAt(buf, a) && |buf| < a + 3)
    || (exists a: nat :: SecondTagAt(buf, a) && buf[a + 1..a + 3] == BODY_LENGTH_TAG
                    && |buf| <= a + 3 + MAX_BODY_LENGTH_DIGITS && SOH !in buf[a + 3..])
    || (exists a: nat, b: nat, length: nat :: LengthKnown(buf, a, b, length) && |buf| < FrameLen(b, length) <= maxFrameSize)
  }

  /** The first thing wrong with the bytes is `reason`. */
  ghost predicate Garbles(buf: bytes, maxFrameSize: nat, reason: GarbledReason) {
    match reason
    case MissingBeginString => !CouldBegin(buf)
    case MalformedBeginString =>
      StartsWith(buf, BEGIN_STRING_PREFIX) && |buf| > MAX_BEGIN_STRING_LEN && SOH !in buf[2..MAX_BEGIN_STRING_LEN + 1]
    case MissingBodyLength => exists a: nat :: SecondTagAt(buf, a) && buf[a + 1..a + 3] != BODY_LENGTH_TAG
    case MalformedBodyLength =>
      exists a: nat :: SecondTagAt(buf, a) && buf[a + 1..a + 3] == BODY_LENGTH_TAG
                  && (|buf| > a + 3 + MAX_BODY_LENGTH_DIGITS || SOH in buf[a + 3..])
                  && NoBodyLengthAt(buf, a + 1)
    case FrameTooLarge => exists a: nat, b: nat, length: nat :: LengthKnown(buf, a, b, length) && FrameLen(b, length) > maxFrameSize
    case _ => exists a: nat, b: nat, length: nat :: FrameArrived(buf, maxFrameSize, a, b, length) && FrameGarbles(buf, b, length, reason)
  }

  // BeginString.

  lemma NotOpened(buf: bytes, maxFrameSize: nat)
    requires !StartsWith(buf, BEGIN_STRING_PREFIX)
    ensures forall a :: !BeginStringAt(buf, a)
    ensures Scan(buf, maxFrameSize) ==
            if StartsWith(BEGIN_STRING_PREFIX, buf) then Err(Incomplete) else Err(StructuralGarble(MissingBeginString, buf))
  {
  }

  lemma PrefixIsShort(buf: bytes)
    requires StartsWith(BEGIN_STRING_PREFIX, buf)
    ensures |buf| < |BEGIN_STRING_PREFIX| <==> !StartsWith(buf, BEGIN_STRING_PREFIX)
  {
    if |buf| == |BEGIN_STRING_PREFIX| { assert buf[..5] == buf == BEGIN_STRING_PREFIX[..5] == BEGIN_STRING_PREFIX; }
  }

  /** What becomes of a buffer that opens with `8=FIX`. */
  lemma OpenedBeginString(buf: bytes)
    requires StartsWith(buf, BEGIN_STRING_PREFIX)
    ensures match ParseBeginString(buf)
            case Ok((_, start)) => start > 0 && BeginStringAt(buf, start - 1)
            case Err(Incomplete) => |buf| <= MAX_BEGIN_STRING_LEN && SOH !in buf[2..]
            case Err(Garbled(reason, _)) =>
              && reason == MalformedBeginString && |buf| > MAX_BEGIN_STRING_LEN && SOH !in buf[2..MAX_BEGIN_STRING_LEN + 1]
              && ParseBeginString(buf) == Err(StructuralGarble(reason, buf))
  {
    hide BeginStringAt, FindNextBeginString, ClassifyBeginString;
    if ParseBeginString(buf).Ok? {
      ParsedBeginString(buf, |buf|);
      assert buf[..|buf|] == buf;
    }
  }

  lemma BeginStringEnds(buf: bytes, a: nat)
    requires BeginStringAt(buf, a)
    ensures StartsWith(buf, BEGIN_STRING_PREFIX) && ParseBeginString(buf) == Ok((ClassifyBeginString(buf[2..a]), a + 1))
    ensures |BEGIN_STRING_PREFIX| <= a < |buf| && a <= MAX_BEGIN_STRING_LEN && SOH in buf[2..]
    ensures |buf| > MAX_BEGIN_STRING_LEN ==> SOH in buf[2..MAX_BEGIN_STRING_LEN + 1]
  {
    hide ParseBeginString, ClassifyBeginString;
    FrameOpens(buf, a);
    WellFormedBeginStringParses(buf, a);
    assert buf[2..][a - 2] == SOH;
    if |buf| > MAX_BEGIN_STRING_LEN { assert buf[2..MAX_BEGIN_STRING_LEN + 1][a - 2] == SOH; }
  }

  // BodyLength.

  /** What becomes of the field after BeginString. */
  lemma AfterBeginString(buf: bytes, a: nat)
    requires |BEGIN_STRING_PREFIX| <= a < |buf| && !StartsWith(BEGIN_STRING_PREFIX, buf)
    ensures match ParseBodyLength(buf, a + 1)
            case Ok((length, next)) => next > 0 && BodyLengthAt(buf, a + 1, next - 1, length)
            case Err(Incomplete) =>
              |buf| < a + 3
              || (buf[a + 1..a + 3] == BODY_LENGTH_TAG && |buf| <= a + 3 + MAX_BODY_LENGTH_DIGITS && SOH !in buf[a + 3..])
            case Err(Garbled(MissingBodyLength, _)) => a + 3 <= |buf| && buf[a + 1..a + 3] != BODY_LENGTH_TAG
            case Err(Garbled(reason, _)) =>
              && reason == MalformedBodyLength && a + 3 <= |buf| && buf[a + 1..a + 3] == BODY_LENGTH_TAG
              && (|buf| > a + 3 + MAX_BODY_LENGTH_DIGITS || SOH in buf[a + 3..])
              && NoBodyLengthAt(buf, a + 1)
  {
    hide BodyLengthAt, FindNextBeginString, ParseUsize, NoBodyLengthAt;
    match ParseBodyLength(buf, a + 1)
    case Ok(_) =>
      ParsedBodyLength(buf, a + 1, |buf|);
      assert buf[..|buf|] == buf;
    case Err(Incomplete) =>
    case Err(Garbled(MissingBodyLength, _)) =>
    case Err(Garbled(_, _)) => MalformedHasNoLength(buf, a);
  }

  lemma MalformedHasNoLength(buf: bytes, a: nat)
    requires |BEGIN_STRING_PREFIX| <= a < |buf| && !StartsWith(BEGIN_STRING_PREFIX, buf)
    requires ParseBodyLength(buf, a + 1).Err?
    ensures NoBodyLengthAt(buf, a + 1)
  {
    hide ParseBodyLength, BodyLengthAt;
    var from := a + 1;
    forall b: nat, length: nat ensures !BodyLengthAt(buf, from, b, length) {
      if BodyLengthAt(buf, from, b, length) { WellFormedBodyLengthParses(buf, from, b, length); }
    }
  }

  lemma BodyLengthEnds(buf: bytes, a: nat, b: nat, length: nat)
    requires |BEGIN_STRING_PREFIX| <= a && BodyLengthAt(buf, a + 1, b, length)
    ensures a + 3 < b < |buf| && b <= a + 3 + MAX_BODY_LENGTH_DIGITS && buf[a + 1..a + 3] == BODY_LENGTH_TAG && SOH in buf[a + 3..]
    ensures ParseBodyLength(buf, a + 1) == Ok((length, b + 1)) && length < 100_0000_0000
  {
    hide ParseBodyLength, DigitsValue;
    WellFormedBodyLengthParses(buf, a + 1, b, length);
    TenDigitsFit(buf[a + 3..b]);
    assert buf[a + 3..][b - (a + 3)] == SOH;
  }

  // Whole scans.

  lemma ScanPastBeginString(buf: bytes, maxFrameSize: nat, a: nat)
    requires BeginStringAt(buf, a)
    ensures |BEGIN_STRING_PREFIX| <= a < |buf| && !StartsWith(BEGIN_STRING_PREFIX, buf)
    ensures ParseBodyLength(buf, a + 1).Err? ==> Scan(buf, maxFrameSize) == Err(ParseBodyLength(buf, a + 1).error)
  {
    hide ParseBeginString, ParseBodyLength, BeginStringAt;
    BeginStringEnds(buf, a);
  }

  lemma ScanPastBodyLength(buf: bytes, maxFrameSize: nat, a: nat, b: nat, length: nat)
    requires LengthKnown(buf, a, b, length)
    ensures |BEGIN_STRING_PREFIX| <= a < b < |buf| && !StartsWith(BEGIN_STRING_PREFIX, buf)
    ensures Scan(buf, maxFrameSize) ==
            if FrameLen(b, length) > maxFrameSize then Err(StructuralGarble(FrameTooLarge, buf))
            else if |buf| < FrameLen(b, length) then Err(Incomplete)
            else ReadFrame(buf, ClassifyBeginString(buf[2..a]), b + 1, length, FrameLen(b, length))
  {
    hide ParseBeginString, ParseBodyLength, BeginStringAt, BodyLengthAt, ReadFrame, FindNextBeginString, ClassifyBeginString;
    BeginStringEnds(buf, a);
    BodyLengthEnds(buf, a, b, length);
    BodyLengthField(buf, a + 1);
  }

  /** What becomes of a frame that has arrived. */
  lemma ArrivedFrame(buf: bytes, beginString: BeginString, b: nat, length: nat)
    requires FrameLen(b, length) <= |buf| && !StartsWith(BEGIN_STRING_PREFIX, buf)
    ensures match ReadFrame(buf, beginString, b + 1, length, FrameLen(b, length))
            case Ok(_) => forall reason :: !FrameGarbles(buf, b, length, reason)
            case Err(Incomplete) => false
            case Err(Garbled(reason, skipped)) =>
              && FrameGarbles(buf, b, length, reason)
              && skipped == if reason == BodyLengthMismatch then FindNextBeginString(buf) else FrameLen(b, length)
  {
    hide FindNextBeginString, WrappingSum, Sum, DigitsValue, ParseMsgType, StartsWith;
    var at, n := b + 1 + length, FrameLen(b, length);
    SliceOfTake(buf, n, at + 3, at + 6);
    SliceOfTake(buf, n, 0, at);
    SliceOfTake(buf, n, b + 1, at);
    WrappingSumIsSumMod256(buf[..at]);
    if ThreeDigitsAt(buf, at) { ThreeDigits(buf[at + 3..at + 6]); }
    if TrailerInPlace(buf, at) { BodyHasMsgType(buf, b, length); }
  }

  lemma BodyHasMsgType(buf: bytes, b: nat, length: nat)
    requires b + 1 + length <= |buf| && buf[b + length] == SOH
    ensures ParseMsgType(buf[b + 1..b + 1 + length]).Some? <==> StartsWith(buf[b + 1..b + 1 + length], MSG_TYPE_TAG)
  {
    var body := buf[b + 1..b + 1 + length];
    if StartsWith(body, MSG_TYPE_TAG) {
      assert body[2] == body[..3][2] == EQUALS;
      assert body[length - 1] == buf[b + length] == SOH;
    }
  }

  /** The scanner's verdict and the skip it gives say what the bytes are. */
  ghost predicate VerdictFits(buf: bytes, maxFrameSize: nat, verdict: Outcome) {
    match verdict
    case Ok(_) => exists a: nat, b: nat, length: nat :: FrameArrived(buf, maxFrameSize, a, b, length) && NothingGarbles(buf, b, length)
    case Err(Incomplete) => Waits(buf, maxFrameSize)
    case Err(Garbled(reason, skipped)) => Garbles(buf, maxFrameSize, reason) && SkipFits(buf, maxFrameSize, reason, skipped)
  }

  /** A garble found once the frame's extent is trusted skips the frame, any other to the next possible start. */
  ghost predicate SkipFits(buf: bytes, maxFrameSize: nat, reason: GarbledReason, skipped: nat) {
    if reason in {MalformedChecksum, ChecksumMismatch, MissingMsgType}
    then exists a: nat, b: nat, length: nat :: FrameArrived(buf, maxFrameSize, a, b, length) && skipped == FrameLen(b, length)
    else skipped == SkipOf(buf)
  }

  predicate NothingGarbles(buf: bytes, b: nat, length: nat) {
    FrameLen(b, length) <= |buf| && forall reason :: !FrameGarbles(buf, b, length, reason)
  }

  /** Where a structural garble resynchronises, defined on all buffers. */
  function SkipOf(buf: bytes): nat {
    if StartsWith(BEGIN_STRING_PREFIX, buf) then 0 else FindNextBeginString(buf)
  }

  lemma OpenedWaits(buf: bytes, maxFrameSize: nat)
    requires StartsWith(buf, BEGIN_STRING_PREFIX) && ParseBeginString(buf).Err?
    ensures Scan(buf, maxFrameSize) == Err(ParseBeginString(buf).error)
  {
    hide ParseBeginString, ParseBodyLength;
  }

  /** Every scan's verdict fits the bytes. */
  lemma VerdictAlwaysFits(buf: bytes, maxFrameSize: nat)
    ensures VerdictFits(buf, maxFrameSize, Scan(buf, maxFrameSize))
  {
    hide Scan, ParseBeginString, ParseBodyLength, ReadFrame, FindNextBeginString, BeginStringAt, BodyLengthAt, FrameGarbles, NoBodyLengthAt;
    if !StartsWith(buf, BEGIN_STRING_PREFIX) {
      NotOpened(buf, maxFrameSize);
      if StartsWith(BEGIN_STRING_PREFIX, buf) { PrefixIsShort(buf); }
    } else {
      OpenedBeginString(buf);
      match ParseBeginString(buf) {
        case Err(_) => OpenedWaits(buf, maxFrameSize);
        case Ok((_, start)) => OpenedVerdictFits(buf, maxFrameSize, start - 1);
      }
    }
  }

  lemma OpenedVerdictFits(buf: bytes, maxFrameSize: nat, a: nat)
    requires BeginStringAt(buf, a)
    ensures VerdictFits(buf, maxFrameSize, Scan(buf, maxFrameSize))
  {
    hide Scan, ParseBeginString, ParseBodyLength, ReadFrame, FindNextBeginString, BeginStringAt, BodyLengthAt, FrameGarbles, NoBodyLengthAt;
    ScanPastBeginString(buf, maxFrameSize, a);
    AfterBeginString(buf, a);
    match ParseBodyLength(buf, a + 1)
    case Ok((length, next)) => KnownVerdictFits(buf, maxFrameSize, a, next - 1, length);
    case Err(Incomplete) =>
      assert |buf| >= a + 3 ==> SecondTagAt(buf, a);
    case Err(Garbled(_, _)) =>
      assert SecondTagAt(buf, a);
      BodyLengthSkips(buf, a + 1);
  }

  lemma BodyLengthSkips(buf: bytes, start: nat)
    requires start <= |buf| && !StartsWith(BEGIN_STRING_PREFIX, buf)
    requires ParseBodyLength(buf, start).Err? && ParseBodyLength(buf, start).error.Garbled?
    ensures ParseBodyLength(buf, start).error.reason in {MissingBodyLength, MalformedBodyLength} && ParseBodyLength(buf, start).error.skipped == SkipOf(buf)
  {
    hide FindNextBeginString, ParseUsize;
  }

  lemma KnownVerdictFits(buf: bytes, maxFrameSize: nat, a: nat, b: nat, length: nat)
    requires LengthKnown(buf, a, b, length)
    ensures VerdictFits(buf, maxFrameSize, Scan(buf, maxFrameSize))
  {
    hide Scan, ReadFrame, FindNextBeginString, BeginStringAt, BodyLengthAt, FrameGarbles, ClassifyBeginString;
    ScanPastBodyLength(buf, maxFrameSize, a, b, length);
    if FrameLen(b, length) <= |buf| && FrameLen(b, length) <= maxFrameSize {
      assert FrameArrived(buf, maxFrameSize, a, b, length);
      ArrivedFrame(buf, ClassifyBeginString(buf[2..a]), b, length);
      ReasonOfFrame(buf, b, length);
    }
  }

  lemma ReasonOfFrame(buf: bytes, b: nat, length: nat)
    requires FrameLen(b, length) <= |buf|
    ensures forall reason :: FrameGarbles(buf, b, length, reason) ==>
              reason in {BodyLengthMismatch, MalformedChecksum, ChecksumMismatch, MissingMsgType}
  {
    hide TrailerInPlace, ThreeDigitsAt, Sum, DigitsValue;
  }

  /** A buffer that waits is scanned as waiting. */
  lemma WaitingScans(buf: bytes, maxFrameSize: nat)
    requires Waits(buf, maxFrameSize)
    ensures Scan(buf, maxFrameSize) == Err(Incomplete)
  {
    hide Scan, ParseBeginString, ParseBodyLength, ReadFrame, FindNextBeginString, BeginStringAt, BodyLengthAt, ClassifyBeginString;
    if |buf| < |BEGIN_STRING_PREFIX| && StartsWith(BEGIN_STRING_PREFIX, buf) {
      PrefixIsShort(buf);
      NotOpened(buf, maxFrameSize);
    } else if StartsWith(buf, BEGIN_STRING_PREFIX) && |buf| <= MAX_BEGIN_STRING_LEN && SOH !in buf[2..] {
      OpenedUnended(buf, maxFrameSize);
    } else if a: nat :| BeginStringAt(buf, a) && |buf| < a + 3 {
      ScanPastBeginString(buf, maxFrameSize, a);
      NoRoomForTag(buf, a);
    } else if a: nat :| SecondTagAt(buf, a) && buf[a + 1..a + 3] == BODY_LENGTH_TAG
                        && |buf| <= a + 3 + MAX_BODY_LENGTH_DIGITS && SOH !in buf[a + 3..] {
      ScanPastBeginString(buf, maxFrameSize, a);
      UnendedLength(buf, a);
    } else {
      var a: nat, b: nat, length: nat :| LengthKnown(buf, a, b, length) && |buf| < FrameLen(b, length) <= maxFrameSize;
      ScanPastBodyLength(buf, maxFrameSize, a, b, length);
    }
  }

  lemma OpenedUnended(buf: bytes, maxFrameSize: nat)
    requires StartsWith(buf, BEGIN_STRING_PREFIX) && |buf| >= 2
    ensures |buf| <= MAX_BEGIN_STRING_LEN && SOH !in buf[2..] ==> Scan(buf, maxFrameSize) == Err(Incomplete)
    ensures |buf| > MAX_BEGIN_STRING_LEN && SOH !in buf[2..MAX_BEGIN_STRING_LEN + 1] ==>
              Scan(buf, maxFrameSize).Err? && Scan(buf, maxFrameSize).error.Garbled? && Scan(buf, maxFrameSize).error.reason == MalformedBeginString
  {
    hide ParseBodyLength, ClassifyBeginString, FindNextBeginString;
    var end := Min(|buf|, MAX_BEGIN_STRING_LEN + 1);
    if SOH !in buf[2..end] {
      forall j | 2 <= j < end ensures buf[j] != SOH { assert buf[j] == buf[2..end][j - 2]; }
    }
    assert |buf| <= MAX_BEGIN_STRING_LEN ==> buf[2..] == buf[2..end];
  }

  lemma NoRoomForTag(buf: bytes, a: nat)
    requires a < |buf| < a + 3 && !StartsWith(BEGIN_STRING_PREFIX, buf)
    ensures ParseBodyLength(buf, a + 1) == Err(Incomplete)
  {
  }

  lemma UnendedLength(buf: bytes, a: nat)
    requires a + 3 <= |buf| <= a + 3 + MAX_BODY_LENGTH_DIGITS && !StartsWith(BEGIN_STRING_PREFIX, buf)
    requires buf[a + 1..a + 3] == BODY_LENGTH_TAG && SOH !in buf[a + 3..]
    ensures ParseBodyLength(buf, a + 1) == Err(Incomplete)
  {
    forall j | a + 3 <= j < |buf| ensures buf[j] != SOH { assert buf[j] == buf[a + 3..][j - (a + 3)]; }
  }

  /** And one that is garbled, as garbled for its reason. */
  lemma GarbledScans(buf: bytes, maxFrameSize: nat, reason: GarbledReason)
    requires Garbles(buf, maxFrameSize, reason)
    ensures Scan(buf, maxFrameSize).Err? && Scan(buf, maxFrameSize).error.Garbled? && Scan(buf, maxFrameSize).error.reason == reason
  {
    hide Scan, ParseBeginString, ParseBodyLength, ReadFrame, FindNextBeginString, BeginStringAt, BodyLengthAt, ClassifyBeginString, FrameGarbles, NoBodyLengthAt;
    match reason
    case MissingBeginString => NotOpened(buf, maxFrameSize);
    case MalformedBeginString => OpenedUnended(buf, maxFrameSize);
    case MissingBodyLength =>
      var a: nat :| SecondTagAt(buf, a) && buf[a + 1..a + 3] != BODY_LENGTH_TAG;
      ScanPastBeginString(buf, maxFrameSize, a);
      OtherTag(buf, a);
    case MalformedBodyLength =>
      var a: nat :| SecondTagAt(buf, a) && buf[a + 1..a + 3] == BODY_LENGTH_TAG
                    && (|buf| > a + 3 + MAX_BODY_LENGTH_DIGITS || SOH in buf[a + 3..]) && NoBodyLengthAt(buf, a + 1);
      ScanPastBeginString(buf, maxFrameSize, a);
      AfterBeginString(buf, a);
      ParsedHasLength(buf, a);
    case FrameTooLarge =>
      var a: nat, b: nat, length: nat :| LengthKnown(buf, a, b, length) && FrameLen(b, length) > maxFrameSize;
      ScanPastBodyLength(buf, maxFrameSize, a, b, length);
    case _ =>
      var a: nat, b: nat, length: nat :| FrameArrived(buf, maxFrameSize, a, b, length) && FrameGarbles(buf, b, length, reason);
      ScanPastBodyLength(buf, maxFrameSize, a, b, length);
      ArrivedFrame(buf, ClassifyBeginString(buf[2..a]), b, length);
      OneReason(buf, b, length);
  }

  lemma OtherTag(buf: bytes, a: nat)
    requires a + 3 <= |buf| && buf[a + 1..a + 3] != BODY_LENGTH_TAG && !StartsWith(BEGIN_STRING_PREFIX, buf)
    ensures ParseBodyLength(buf, a + 1) == Err(StructuralGarble(MissingBodyLength, buf))
  {
  }

  lemma ParsedHasLength(buf: bytes, a: nat)
    requires |BEGIN_STRING_PREFIX| <= a < |buf| && !StartsWith(BEGIN_STRING_PREFIX, buf) && NoBodyLengthAt(buf, a + 1)
    ensures ParseBodyLength(buf, a + 1).Err?
  {
    hide ParseBodyLength, BodyLengthAt;
    AfterBeginString(buf, a);
  }

  lemma OneReason(buf: bytes, b: nat, length: nat)
    requires FrameLen(b, length) <= |buf|
    ensures forall r, q :: FrameGarbles(buf, b, length, r) && FrameGarbles(buf, b, length, q) ==> r == q
  {
    hide TrailerInPlace, ThreeDigitsAt, Sum, DigitsValue;
  }

  /** The scanner waits, and calls bytes garbled for a reason, exactly when the bytes say so, and skips as far as they say. */
  lemma VerdictsExactly(buf: bytes, maxFrameSize: nat, reason: GarbledReason)
    ensures Scan(buf, maxFrameSize) == Err(Incomplete) <==> Waits(buf, maxFrameSize)
    ensures Scan(buf, maxFrameSize).Err? && Scan(buf, maxFrameSize).error.Garbled? && Scan(buf, maxFrameSize).error.reason == reason
       <==> Garbles(buf, maxFrameSize, reason)
    ensures Garbles(buf, maxFrameSize, reason) ==> SkipFits(buf, maxFrameSize, reason, Scan(buf, maxFrameSize).error.skipped)
  {
    hide Scan, Waits, Garbles, SkipFits;
    VerdictAlwaysFits(buf, maxFrameSize);
    if Waits(buf, maxFrameSize) { WaitingScans(buf, maxFrameSize); }
    if Garbles(buf, maxFrameSize, reason) { GarbledScans(buf, maxFrameSize, reason); }
  }

  /** So the scanner never waits with the largest frame, or 30 bytes, in the buffer. */
  lemma WaitsAreShort(buf: bytes, maxFrameSize: nat)
    requires Scan(buf, maxFrameSize) == Err(Incomplete)
    ensures |buf| < 30 || |buf| < maxFrameSize
  {
    hide Scan, BodyLengthAt, BeginStringAt;
    VerdictsExactly(buf, maxFrameSize, MissingBeginString);
    forall a: nat | BeginStringAt(buf, a) ensures a <= MAX_BEGIN_STRING_LEN { BeginStringEnds(buf, a); }
  }
}
