/** Delimiting one checksum-verified FIX message at the front of a buffer. */
module Framing {
  import opened Wrappers
  import opened Bytes

  const MAX_BEGIN_STRING_LEN: nat := 16
  const MAX_BODY_LENGTH_DIGITS: nat := 10
  const CHECKSUM_FIELD_LEN: nat := 7
  const DEFAULT_MAX_FRAME_SIZE: nat := 0x10_0000

  /** `8=FIX` */
  const BEGIN_STRING_PREFIX: bytes := [56, 61, 70, 73, 88]
  /** `9=` */
  const BODY_LENGTH_TAG: bytes := [57, 61]
  /** `10=` */
  const CHECKSUM_TAG: bytes := [49, 48, 61]
  /** `35=` */
  const MSG_TYPE_TAG: bytes := [51, 53, 61]

  datatype GarbledReason =
    | MissingBeginString
    | MalformedBeginString
    | MissingBodyLength
    | MalformedBodyLength
    | BodyLengthMismatch
    | MissingMsgType
    | MalformedChecksum
    | ChecksumMismatch
    | FrameTooLarge

  datatype BeginString =
    | Fix40 | Fix41 | Fix42 | Fix43 | Fix44 | Fixt11
    | Other(value: bytes)

  datatype Frame = Frame(bytes: bytes, beginString: BeginString, bodyLength: nat, msgType: bytes)

  datatype Halt = Incomplete | Garbled(reason: GarbledReason, skipped: nat)

  type Outcome = Result<Frame, Halt>

  /** Whether `s`, or `s` with more bytes after it, opens with `8=FIX`. */
  predicate CouldBegin(s: bytes) {
    StartsWith(s, BEGIN_STRING_PREFIX) || StartsWith(BEGIN_STRING_PREFIX, s)
  }

  /** The first `8=FIX` at or after `from`. */
  function FindBeginString(buf: bytes, from: nat): (r: Option<nat>)
    ensures r.Some? ==> from <= r.value <= |buf| && StartsWith(buf[r.value..], BEGIN_STRING_PREFIX)
    ensures r.Some? ==> forall p :: from <= p < r.value ==> !StartsWith(buf[p..], BEGIN_STRING_PREFIX)
    ensures r.None? ==> forall p :: from <= p <= |buf| ==> !StartsWith(buf[p..], BEGIN_STRING_PREFIX)
    decreases |buf| - from
  {
    if from > |buf| then None
    else if StartsWith(buf[from..], BEGIN_STRING_PREFIX) then Some(from)
    else FindBeginString(buf, from + 1)
  }

  /** The longest partial `8=FIX` of at most `k` bytes that ends `buf`, as a position. */
  function FindPartialTail(buf: bytes, k: nat): (p: nat)
    requires k < |BEGIN_STRING_PREFIX| && k <= |buf|
    ensures |buf| - k <= p <= |buf| && StartsWith(BEGIN_STRING_PREFIX, buf[p..])
    ensures forall q :: |buf| - k <= q < p ==> !StartsWith(BEGIN_STRING_PREFIX, buf[q..])
  {
    if k == 0 then |buf|
    else if buf[|buf| - k..] == BEGIN_STRING_PREFIX[..k] then |buf| - k
    else FindPartialTail(buf, k - 1)
  }

  /**
   * Where to resynchronise: the next `8=FIX` after offset 0, else the longest partial
   * `8=FIX` at the tail, else the whole buffer. That is the first later position from
   * which a message could still begin.
   */
  function FindNextBeginString(buf: bytes): (skip: nat)
    requires !StartsWith(BEGIN_STRING_PREFIX, buf)
    ensures 1 <= skip <= |buf|
    ensures CouldBegin(buf[skip..])
    ensures forall p :: 1 <= p < skip ==> !CouldBegin(buf[p..])
  {
    match FindBeginString(buf, 1)
    case Some(skip) => skip
    case None =>
      var maxK := Min(|BEGIN_STRING_PREFIX| - 1, |buf|);
      var skip := FindPartialTail(buf, maxK);
      assert buf[0..] == buf;
      assert forall p :: 1 <= p < skip && StartsWith(BEGIN_STRING_PREFIX, buf[p..]) ==> |buf| - p <= 5;
      skip
  }

  /** A garble whose extent cannot be trusted, so the skip searches for the next BeginString. */
  function StructuralGarble(reason: GarbledReason, buf: bytes): (h: Halt)
    requires !StartsWith(BEGIN_STRING_PREFIX, buf)
  {
    Garbled(reason, FindNextBeginString(buf))
  }

  /** A garble found once the frame's extent is trusted, so the skip is the whole frame. */
  function PostStructuralGarble(reason: GarbledReason, frame: bytes): (h: Halt) {
    Garbled(reason, |frame|)
  }

  predicate IsStructural(reason: GarbledReason) {
    !(reason.MalformedChecksum? || reason.ChecksumMismatch? || reason.MissingMsgType?)
  }

  /** `FIX.4.0` and its siblings are recognised, any other value is kept. */
  function ClassifyBeginString(value: bytes): BeginString {
    if value == [70, 73, 88, 46, 52, 46, 48] then Fix40
    else if value == [70, 73, 88, 46, 52, 46, 49] then Fix41
    else if value == [70, 73, 88, 46, 52, 46, 50] then Fix42
    else if value == [70, 73, 88, 46, 52, 46, 51] then Fix43
    else if value == [70, 73, 88, 46, 52, 46, 52] then Fix44
    else if value == [70, 73, 88, 84, 46, 49, 46, 49] then Fixt11
    else Other(value)
  }

  /** BeginString and the offset of the BodyLength field. */
  function ParseBeginString(buf: bytes): (r: Result<(BeginString, nat), Halt>)
    requires StartsWith(buf, BEGIN_STRING_PREFIX)
    ensures r.Ok? ==> |BEGIN_STRING_PREFIX| < r.value.1 <= |buf| && r.value.1 <= MAX_BEGIN_STRING_LEN + 1
  {
    assert forall i :: 0 <= i < |BEGIN_STRING_PREFIX| ==> buf[i] == BEGIN_STRING_PREFIX[i] != SOH;
    match FindByte(buf, SOH, 2, Min(|buf|, MAX_BEGIN_STRING_LEN + 1))
    case Some(soh) => Ok((ClassifyBeginString(buf[2..soh]), soh + 1))
    case None =>
      if |buf| <= MAX_BEGIN_STRING_LEN then Err(Incomplete)
      else Err(StructuralGarble(MalformedBeginString, buf))
  }

  /** One or more digits that fit a `usize`. */
  function ParseUsize(digits: bytes): (r: Option<nat>) {
    if digits == [] || !AllDigits(digits) then None else CheckedFold(digits, USIZE_MAX)
  }

  /** The body length and the offset just past the BodyLength field. */
  function ParseBodyLength(buf: bytes, start: nat): (r: Result<(nat, nat), Halt>)
    requires start <= |buf| && !StartsWith(BEGIN_STRING_PREFIX, buf)
  {
    if |buf| - start < 2 then Err(Incomplete)
    else if buf[start..start + 2] != BODY_LENGTH_TAG then Err(StructuralGarble(MissingBodyLength, buf))
    else
      var digitsStart := start + 2;
      match FindByte(buf, SOH, digitsStart, Min(|buf|, digitsStart + MAX_BODY_LENGTH_DIGITS + 1))
      case None =>
        if |buf| <= digitsStart + MAX_BODY_LENGTH_DIGITS then Err(Incomplete)
        else Err(StructuralGarble(MalformedBodyLength, buf))
      case Some(soh) =>
        match ParseUsize(buf[digitsStart..soh])
        case None => Err(StructuralGarble(MalformedBodyLength, buf))
        case Some(bodyLength) => Ok((bodyLength, soh + 1))
  }

  function SaturatingAdd(a: nat, b: nat): nat {
    Min(a + b, USIZE_MAX)
  }

  /** The whole frame's length, once it is within the cap and buffered. */
  function ValidatedFrameLen(buf: bytes, bodyStart: nat, bodyLength: nat, maxFrameSize: nat): (r: Result<nat, Halt>)
    requires !StartsWith(BEGIN_STRING_PREFIX, buf)
  {
    var frameLen := SaturatingAdd(SaturatingAdd(bodyStart, bodyLength), CHECKSUM_FIELD_LEN);
    if frameLen > maxFrameSize then Err(StructuralGarble(FrameTooLarge, buf))
    else if |buf| < frameLen then Err(Incomplete)
    else Ok(frameLen)
  }

  predicate TrailerStartsAt(buf: bytes, at: nat) {
    1 <= at && at + 3 <= |buf| && buf[at - 1] == SOH && buf[at..at + 3] == CHECKSUM_TAG
  }

  /** What is wrong with the CheckSum field at `at`, whose `10=` is already confirmed. */
  function VerifyChecksum(frame: bytes, at: nat): (r: Option<GarbledReason>)
    requires at + CHECKSUM_FIELD_LEN <= |frame|
  {
    var digits := frame[at + 3..at + 6];
    if frame[at + 6] != SOH || !AllDigits(digits) then Some(MalformedChecksum)
    else
      var stated := (digits[0] - ZERO) * 100 + (digits[1] - ZERO) * 10 + (digits[2] - ZERO);
      if WrappingSum(frame[..at]) != stated then Some(ChecksumMismatch) else None
  }

  /** The MsgType value, which must open the body. */
  function ParseMsgType(body: bytes): (r: Option<bytes>) {
    if !StartsWith(body, MSG_TYPE_TAG) then None
    else
      match FindByte(body, SOH, 3, |body|)
      case None => None
      case Some(soh) => Some(body[3..soh])
  }

  /** Reads the frame of `frameLen` bytes whose body is `bodyStart..bodyStart + bodyLength`. */
  function ReadFrame(buf: bytes, beginString: BeginString, bodyStart: nat, bodyLength: nat, frameLen: nat): (r: Outcome)
    requires !StartsWith(BEGIN_STRING_PREFIX, buf)
    requires bodyStart + bodyLength + CHECKSUM_FIELD_LEN == frameLen <= |buf|
  {
    var frame := buf[..frameLen];
    var checksumStart := bodyStart + bodyLength;
    if !TrailerStartsAt(buf, checksumStart) then Err(StructuralGarble(BodyLengthMismatch, buf))
    else
      match VerifyChecksum(frame, checksumStart)
      case Some(reason) => Err(PostStructuralGarble(reason, frame))
      case None =>
        match ParseMsgType(frame[bodyStart..checksumStart])
        case None => Err(PostStructuralGarble(MissingMsgType, frame))
        case Some(msgType) => Ok(Frame(frame, beginString, bodyLength, msgType))
  }

  /** Ten digits cannot leave a 64-bit `usize`, so the overflow guards never fire. */
  lemma TenDigitsFit(s: bytes)
    requires AllDigits(s) && |s| <= MAX_BODY_LENGTH_DIGITS
    ensures DigitsValue(s) < 100_0000_0000 <= USIZE_MAX
    ensures CheckedFold(s, USIZE_MAX) == Some(DigitsValue(s))
  {
    DigitsValueBound(s);
    CheckedFoldIsValue(s, USIZE_MAX);
    Pow10Monotone(|s|, MAX_BODY_LENGTH_DIGITS);
    assert Pow10(10) == 100_0000_0000 by {
      assert Pow10(5) == 100_000;
    }
  }

  lemma {:induction false} Pow10Monotone(a: nat, b: nat)
    requires a <= b
    ensures Pow10(a) <= Pow10(b)
    decreases b - a
  {
    if a < b { Pow10Monotone(a + 1, b); }
  }

  /** What `parse_body_length` hands on: a field of at most ten digits before `bodyStart`. */
  lemma BodyLengthField(buf: bytes, start: nat)
    requires start <= |buf| && !StartsWith(BEGIN_STRING_PREFIX, buf)
    requires ParseBodyLength(buf, start).Ok?
    ensures var (bodyLength, bodyStart) := ParseBodyLength(buf, start).value;
            && start + 4 <= bodyStart <= start + 13 && bodyStart <= |buf|
            && buf[start..start + 2] == BODY_LENGTH_TAG && buf[bodyStart - 1] == SOH
            && AllDigits(buf[start + 2..bodyStart - 1])
            && bodyLength == DigitsValue(buf[start + 2..bodyStart - 1]) < 100_0000_0000
  {
    var (_, bodyStart) := ParseBodyLength(buf, start).value;
    TenDigitsFit(buf[start + 2..bodyStart - 1]);
  }

  /** Attempts to delimit one frame from the start of `buf`. */
  function Scan(buf: bytes, maxFrameSize: nat): (r: Outcome)
  {
    if !StartsWith(buf, BEGIN_STRING_PREFIX) then
      if StartsWith(BEGIN_STRING_PREFIX, buf) then Err(Incomplete)
      else Err(StructuralGarble(MissingBeginString, buf))
    else
      var (beginString, bodyLengthStart) :- ParseBeginString(buf);
      var (bodyLength, bodyStart) :- ParseBodyLength(buf, bodyLengthStart);
      var frameLen :- ValidatedFrameLen(buf, bodyStart, bodyLength, maxFrameSize);
      BodyLengthField(buf, bodyLengthStart);
      ReadFrame(buf, beginString, bodyStart, bodyLength, frameLen)
  }
}
