/** The wire format of a frame, and the scanner accepting exactly that format. */
module FrameFormat {
  import opened Wrappers
  import opened Bytes
  import opened Sequences
  import opened Framing
  import opened FramingLaws

  /** `8=` */
  const BEGIN_STRING_TAG: bytes := [56, 61]
  /** `FIX` */
  const FIX: bytes := [70, 73, 88]

  /** Where each section of a frame ends. */
  datatype Layout = Layout(beginStringEnd: nat, bodyLengthEnd: nat, bodyEnd: nat)

  /** `s[from..until]` is a field of `tag`, ended by the first SOH after it, at `until`. */
  predicate FieldAt(s: bytes, tag: bytes, from: nat, until: nat) {
    && from + |tag| <= until < |s|
    && s[from..from + |tag|] == tag
    && s[until] == SOH
    && SOH !in s[from + |tag|..until]
  }

  /** BeginString opens `s` and ends at `until`. */
  predicate BeginStringAt(s: bytes, until: nat) {
    && FieldAt(s, BEGIN_STRING_TAG, 0, until)
    && StartsWith(s, BEGIN_STRING_PREFIX)
    && until <= MAX_BEGIN_STRING_LEN
  }

  /** A BodyLength field of `length` sits at `from..until`. */
  predicate BodyLengthAt(s: bytes, from: nat, until: nat, length: nat) {
    && FieldAt(s, BODY_LENGTH_TAG, from, until)
    && var digits := s[from + 2..until];
    && 1 <= |digits| <= MAX_BODY_LENGTH_DIGITS && AllDigits(digits)
    && length == DigitsValue(digits)
  }

  predicate IsBody(body: bytes) {
    StartsWith(body, MSG_TYPE_TAG) && body[|body| - 1] == SOH
  }

  /** `s` ends with a CheckSum field at `at` that is right for the bytes before it. */
  predicate ChecksumAt(s: bytes, at: nat) {
    && |s| == at + CHECKSUM_FIELD_LEN
    && s[at..at + 3] == CHECKSUM_TAG
    && var digits := s[at + 3..at + 6];
    && AllDigits(digits) && DigitsValue(digits) == Sum(s[..at]) % 0x100
    && s[at + 6] == SOH
  }

  /** `frame` is one FIX message laid out as `l`, with a right BodyLength and CheckSum. */
  predicate WellFormed(frame: bytes, l: Layout) {
    && BeginStringAt(frame, l.beginStringEnd)
    && l.bodyLengthEnd < l.bodyEnd <= |frame|
    && BodyLengthAt(frame, l.beginStringEnd + 1, l.bodyLengthEnd, l.bodyEnd - (l.bodyLengthEnd + 1))
    && IsBody(frame[l.bodyLengthEnd + 1..l.bodyEnd])
    && ChecksumAt(frame, l.bodyEnd)
  }

  /** The MsgType value of a body: what follows `35=` up to its first SOH. */
  ghost predicate IsMsgType(body: bytes, msgType: bytes) {
    && StartsWith(body, MSG_TYPE_TAG + msgType + [SOH])
    && SOH !in msgType
  }

  lemma ThreeDigits(s: bytes)
    requires |s| == 3 && AllDigits(s)
    ensures DigitsValue(s) == (s[0] - ZERO) * 100 + (s[1] - ZERO) * 10 + (s[2] - ZERO)
  {
    assert s[..2][..1] == s[..1] && s[..1][..0] == [];
    assert DigitsValue(s[..1]) == s[0] - ZERO;
    assert DigitsValue(s[..2]) == (s[0] - ZERO) * 10 + (s[1] - ZERO);
  }

  lemma MsgTypeFound(body: bytes)
    requires IsBody(body)
    ensures ParseMsgType(body).Some? && IsMsgType(body, ParseMsgType(body).value)
  {
    var msgType := ParseMsgType(body).value;
    assert body[..4 + |msgType|] == MSG_TYPE_TAG + msgType + [SOH];
  }

  lemma ParsedBeginString(buf: bytes, n: nat)
    requires StartsWith(buf, BEGIN_STRING_PREFIX) && ParseBeginString(buf).Ok?
    requires ParseBeginString(buf).value.1 <= n <= |buf|
    ensures var (beginString, next) := ParseBeginString(buf).value;
            && BeginStringAt(buf[..n], next - 1)
            && beginString == ClassifyBeginString(buf[..n][2..next - 1])
  {
    var soh, frame := ParseBeginString(buf).value.1 - 1, buf[..n];
    SliceOfTake(buf, n, 0, 5);
    SliceOfTake(buf, n, 2, soh);
    assert frame[..2] == buf[..5][..2];
  }

  lemma ParsedBodyLength(buf: bytes, start: nat, n: nat)
    requires |BEGIN_STRING_PREFIX| < start <= |buf| && ParseBodyLength(buf, start).Ok?
    requires ParseBodyLength(buf, start).value.1 <= n <= |buf|
    ensures var (length, next) := ParseBodyLength(buf, start).value;
            start + 4 <= next && BodyLengthAt(buf[..n], start, next - 1, length)
  {
    BodyLengthField(buf, start);
    var soh, frame := ParseBodyLength(buf, start).value.1 - 1, buf[..n];
    SliceOfTake(buf, n, start, start + 2);
    SliceOfTake(buf, n, start + 2, soh);
  }

  lemma ReadFrameChecks(buf: bytes, beginString: BeginString, bodyStart: nat, bodyLength: nat, n: nat)
    requires |BEGIN_STRING_PREFIX| < bodyStart && bodyStart + bodyLength + CHECKSUM_FIELD_LEN == n <= |buf|
    requires ReadFrame(buf, beginString, bodyStart, bodyLength, n).Ok?
    ensures var body := buf[..n][bodyStart..bodyStart + bodyLength];
            && ChecksumAt(buf[..n], bodyStart + bodyLength) && IsBody(body)
            && ParseMsgType(body).Some?
            && ReadFrame(buf, beginString, bodyStart, bodyLength, n) ==
               Ok(Frame(buf[..n], beginString, bodyLength, ParseMsgType(body).value))
  {
    hide ParseMsgType, WrappingSum, Sum, DigitsValue;
    var frame, at := buf[..n], bodyStart + bodyLength;
    SliceOfTake(buf, n, at, at + 3);
    assert frame[bodyStart..at][..3] == MSG_TYPE_TAG by { MsgTypeOpens(frame[bodyStart..at]); }
    assert frame[at - 1] == buf[at - 1];
    WrappingSumIsSumMod256(frame[..at]);
    ThreeDigits(frame[at + 3..at + 6]);
  }

  lemma MsgTypeOpens(body: bytes)
    requires ParseMsgType(body).Some?
    ensures StartsWith(body, MSG_TYPE_TAG)
  {
  }

  /** The steps an accepting scan takes. */
  lemma AcceptingScan(buf: bytes, maxFrameSize: nat)
    requires Scan(buf, maxFrameSize).Ok?
    ensures StartsWith(buf, BEGIN_STRING_PREFIX) && ParseBeginString(buf).Ok?
    ensures var (beginString, start) := ParseBeginString(buf).value;
            && |BEGIN_STRING_PREFIX| < start <= |buf| && ParseBodyLength(buf, start).Ok?
            && var (bodyLength, bodyStart) := ParseBodyLength(buf, start).value;
               var n := bodyStart + bodyLength + CHECKSUM_FIELD_LEN;
            && start + 4 <= bodyStart && n <= |buf| && n <= maxFrameSize
            && Scan(buf, maxFrameSize) == ReadFrame(buf, beginString, bodyStart, bodyLength, n)
  {
    var (beginString, start) := ParseBeginString(buf).value;
    BodyLengthField(buf, start);
  }

  /** A frame the scanner accepts is a prefix of the buffer that is a whole message. */
  lemma AcceptedFrameIsWellFormed(buf: bytes, maxFrameSize: nat) returns (l: Layout)
    requires Scan(buf, maxFrameSize).Ok?
    ensures var frame := Scan(buf, maxFrameSize).value;
            && StartsWith(buf, frame.bytes) && |frame.bytes| <= maxFrameSize
            && WellFormed(frame.bytes, l)
            && frame.beginString == ClassifyBeginString(frame.bytes[2..l.beginStringEnd])
            && frame.bodyLength == l.bodyEnd - (l.bodyLengthEnd + 1)
            && IsMsgType(frame.bytes[l.bodyLengthEnd + 1..l.bodyEnd], frame.msgType)
  {
    hide Scan, ParseBeginString, ParseBodyLength, ReadFrame, ParseMsgType, BeginStringAt, BodyLengthAt, ChecksumAt, IsBody, IsMsgType, ClassifyBeginString;
    AcceptingScan(buf, maxFrameSize);
    var (beginString, start) := ParseBeginString(buf).value;
    var (bodyLength, bodyStart) := ParseBodyLength(buf, start).value;
    l := Layout(start - 1, bodyStart - 1, bodyStart + bodyLength);
    var n := l.bodyEnd + CHECKSUM_FIELD_LEN;
    ParsedBeginString(buf, n);
    ParsedBodyLength(buf, start, n);
    ReadFrameChecks(buf, beginString, bodyStart, bodyLength, n);
    MsgTypeFound(buf[..n][bodyStart..l.bodyEnd]);
    PrefixStarts(buf, n);
  }

  lemma PrefixStarts(s: bytes, n: nat)
    requires n <= |s|
    ensures StartsWith(s, s[..n])
  {
  }

  /** A whole message is accepted with its parts, whatever follows it. */
  lemma WellFormedFrameIsAccepted(frame: bytes, l: Layout, more: bytes, maxFrameSize: nat)
    requires WellFormed(frame, l) && |frame| <= maxFrameSize
    ensures Scan(frame + more, maxFrameSize).Ok?
    ensures var found := Scan(frame + more, maxFrameSize).value;
            && found.bytes == frame
            && found.beginString == ClassifyBeginString(frame[2..l.beginStringEnd])
            && found.bodyLength == l.bodyEnd - (l.bodyLengthEnd + 1)
            && IsMsgType(frame[l.bodyLengthEnd + 1..l.bodyEnd], found.msgType)
  {
    WellFormedFrameScans(frame, l, maxFrameSize);
    ScanStable(frame, more, maxFrameSize);
  }

  lemma WellFormedFrameScans(frame: bytes, l: Layout, maxFrameSize: nat)
    requires WellFormed(frame, l) && |frame| <= maxFrameSize
    ensures Scan(frame, maxFrameSize).Ok?
    ensures var found := Scan(frame, maxFrameSize).value;
            && found.bytes == frame
            && found.beginString == ClassifyBeginString(frame[2..l.beginStringEnd])
            && found.bodyLength == l.bodyEnd - (l.bodyLengthEnd + 1)
            && IsMsgType(frame[l.bodyLengthEnd + 1..l.bodyEnd], found.msgType)
  {
    hide Scan, ParseBeginString, ParseBodyLength, ReadFrame, ParseMsgType, IsMsgType, ClassifyBeginString, BeginStringAt, BodyLengthAt, IsBody;
    FrameOpens(frame, l.beginStringEnd);
    WellFormedBeginStringParses(frame, l.beginStringEnd);
    WellFormedBodyLengthParses(frame, l.beginStringEnd + 1, l.bodyLengthEnd, l.bodyEnd - (l.bodyLengthEnd + 1));
    ScanReads(frame, ClassifyBeginString(frame[2..l.beginStringEnd]), l.beginStringEnd + 1, l.bodyEnd - (l.bodyLengthEnd + 1), l.bodyLengthEnd + 1, maxFrameSize);
    WellFormedFrameReads(frame, ClassifyBeginString(frame[2..l.beginStringEnd]), l);
  }

  lemma FrameOpens(s: bytes, until: nat)
    requires BeginStringAt(s, until)
    ensures StartsWith(s, BEGIN_STRING_PREFIX) && |BEGIN_STRING_PREFIX| <= until < |s| && until <= MAX_BEGIN_STRING_LEN
  {
    forall j | 0 <= j < |BEGIN_STRING_PREFIX| ensures s[j] != SOH {
      assert s[j] == s[..|BEGIN_STRING_PREFIX|][j];
    }
  }

  /** A scan whose BeginString and BodyLength parse, of a buffer of just the length they give, reads it as a frame. */
  lemma ScanReads(s: bytes, beginString: BeginString, start: nat, bodyLength: nat, bodyStart: nat, maxFrameSize: nat)
    requires StartsWith(s, BEGIN_STRING_PREFIX) && ParseBeginString(s) == Ok((beginString, start))
    requires |BEGIN_STRING_PREFIX| < start <= MAX_BEGIN_STRING_LEN + 1 && start <= |s|
    requires ParseBodyLength(s, start) == Ok((bodyLength, bodyStart))
    requires bodyStart + bodyLength + CHECKSUM_FIELD_LEN == |s| <= maxFrameSize
    ensures Scan(s, maxFrameSize) == ReadFrame(s, beginString, bodyStart, bodyLength, |s|)
  {
    hide ParseBeginString, ParseBodyLength, ReadFrame;
    BodyLengthField(s, start);
  }

  lemma WellFormedBeginStringParses(s: bytes, until: nat)
    requires BeginStringAt(s, until)
    ensures ParseBeginString(s) == Ok((ClassifyBeginString(s[2..until]), until + 1))
  {
    forall j | 2 <= j < until ensures s[j] != SOH {
      assert s[j] == s[2..until][j - 2];
    }
    assert FindByte(s, SOH, 2, Min(|s|, MAX_BEGIN_STRING_LEN + 1)) == Some(until);
  }

  lemma WellFormedBodyLengthParses(s: bytes, from: nat, until: nat, length: nat)
    requires |BEGIN_STRING_PREFIX| < from && BodyLengthAt(s, from, until, length)
    ensures from + 2 < until && ParseBodyLength(s, from) == Ok((length, until + 1))
  {
    forall j | from + 2 <= j < until ensures s[j] != SOH {
      assert s[j] == s[from + 2..until][j - (from + 2)];
    }
    assert FindByte(s, SOH, from + 2, Min(|s|, from + 2 + MAX_BODY_LENGTH_DIGITS + 1)) == Some(until);
    TenDigitsFit(s[from + 2..until]);
  }

  lemma WellFormedFrameReads(frame: bytes, beginString: BeginString, l: Layout)
    requires |BEGIN_STRING_PREFIX| < l.bodyLengthEnd < l.bodyEnd <= |frame|
    requires IsBody(frame[l.bodyLengthEnd + 1..l.bodyEnd]) && ChecksumAt(frame, l.bodyEnd)
    ensures var bodyLength := l.bodyEnd - (l.bodyLengthEnd + 1);
            var body := frame[l.bodyLengthEnd + 1..l.bodyEnd];
            && ParseMsgType(body).Some? && IsMsgType(body, ParseMsgType(body).value)
            && ReadFrame(frame, beginString, l.bodyLengthEnd + 1, bodyLength, |frame|) ==
               Ok(Frame(frame, beginString, bodyLength, ParseMsgType(body).value))
  {
    var at := l.bodyEnd;
    assert frame[..|frame|] == frame;
    var body := frame[l.bodyLengthEnd + 1..at];
    assert frame[at - 1] == body[|body| - 1];
    WrappingSumIsSumMod256(frame[..at]);
    ThreeDigits(frame[at + 3..at + 6]);
    MsgTypeFound(body);
  }

  /** The scanner accepts a frame exactly when some prefix within the cap is a whole message. */
  lemma ScanAcceptsExactlyWellFormedFrames(buf: bytes, maxFrameSize: nat)
    ensures Scan(buf, maxFrameSize).Ok? <==>
            exists n, l :: 0 <= n <= |buf| && n <= maxFrameSize && WellFormed(buf[..n], l)
  {
    hide Scan, WellFormed, ClassifyBeginString, IsMsgType;
    if Scan(buf, maxFrameSize).Ok? {
      var l := AcceptedFrameIsWellFormed(buf, maxFrameSize);
      var n := |Scan(buf, maxFrameSize).value.bytes|;
      assert WellFormed(buf[..n], l);
    }
    forall n, l | 0 <= n <= |buf| && n <= maxFrameSize && WellFormed(buf[..n], l)
      ensures Scan(buf, maxFrameSize).Ok?
    {
      WellFormedFrameIsAccepted(buf[..n], l, buf[n..], maxFrameSize);
      assert buf[..n] + buf[n..] == buf;
    }
  }

  /** An accepted frame rescans to itself. */
  lemma FrameRescans(buf: bytes, maxFrameSize: nat)
    requires Scan(buf, maxFrameSize).Ok?
    ensures Scan(Scan(buf, maxFrameSize).value.bytes, maxFrameSize) == Scan(buf, maxFrameSize)
  {
    hide Scan, WellFormed, ClassifyBeginString, IsMsgType;
    var frame := Scan(buf, maxFrameSize).value;
    var l := AcceptedFrameIsWellFormed(buf, maxFrameSize);
    WellFormedFrameScans(frame.bytes, l, maxFrameSize);
    ScanStable(frame.bytes, buf[|frame.bytes|..], maxFrameSize);
    assert frame.bytes + buf[|frame.bytes|..] == buf;
  }

  /** `n` in three digits, as `format!("{n:03}")` writes it. */
  function ThreeDigitText(n: byte): (s: bytes) {
    [ZERO + n / 100, ZERO + n / 10 % 10, ZERO + n % 10]
  }

  lemma ThreeDigitTextValue(n: byte)
    ensures |ThreeDigitText(n)| == 3 && AllDigits(ThreeDigitText(n)) && DigitsValue(ThreeDigitText(n)) == n
  {
    ThreeDigits(ThreeDigitText(n));
  }

  function Preamble(begin: bytes, body: bytes): (s: bytes) {
    BEGIN_STRING_TAG + begin + [SOH] + (BODY_LENGTH_TAG + Decimal(|body|) + [SOH])
  }

  /** A frame with a right BodyLength and CheckSum around `body`. */
  function Encode(begin: bytes, body: bytes): (frame: bytes) {
    var head := Preamble(begin, body) + body;
    head + (CHECKSUM_TAG + ThreeDigitText(WrappingSum(head)) + [SOH])
  }

  /** An encoded frame scans back to its parts, whatever follows. */
  lemma EncodedFrameScansBack(begin: bytes, body: bytes, more: bytes, maxFrameSize: nat)
    requires StartsWith(begin, FIX) && |begin| <= 14 && SOH !in begin
    requires IsBody(body) && |body| < Pow10(MAX_BODY_LENGTH_DIGITS)
    requires |Encode(begin, body)| <= maxFrameSize
    ensures Scan(Encode(begin, body) + more, maxFrameSize).Ok?
    ensures var found := Scan(Encode(begin, body) + more, maxFrameSize).value;
            && found.bytes == Encode(begin, body)
            && found.beginString == ClassifyBeginString(begin)
            && found.bodyLength == |body|
            && IsMsgType(body, found.msgType)
  {
    var frame := Encode(begin, body);
    var digits := Decimal(|body|);
    var l := Layout(2 + |begin|, 5 + |begin| + |digits|, 6 + |begin| + |digits| + |body|);
    EncodedFrameIsWellFormed(begin, body, l);
    WellFormedFrameIsAccepted(frame, l, more, maxFrameSize);
  }

  lemma {:induction false} DecimalLength(n: nat, k: nat)
    requires 1 <= k && n < Pow10(k)
    ensures |Decimal(n)| <= k
  {
    if n >= 10 { DecimalLength(n / 10, k - 1); }
  }

  lemma EncodedFrameIsWellFormed(begin: bytes, body: bytes, l: Layout)
    requires StartsWith(begin, FIX) && |begin| <= 14 && SOH !in begin
    requires IsBody(body) && |body| < Pow10(MAX_BODY_LENGTH_DIGITS)
    requires var d := |Decimal(|body|)|; l == Layout(2 + |begin|, 5 + |begin| + d, 6 + |begin| + d + |body|)
    ensures WellFormed(Encode(begin, body), l)
    ensures Encode(begin, body)[2..l.beginStringEnd] == begin
    ensures Encode(begin, body)[l.bodyLengthEnd + 1..l.bodyEnd] == body
  {
    hide Decimal, ThreeDigitText, WrappingSum, Sum, DigitsValue, BeginStringAt, BodyLengthAt, ChecksumAt, IsBody, Pow10;
    var frame, digits := Encode(begin, body), Decimal(|body|);
    DecimalLength(|body|, MAX_BODY_LENGTH_DIGITS);
    var head := Preamble(begin, body) + body;
    var text := ThreeDigitText(WrappingSum(head));
    WrappingSumIsSumMod256(head);
    ThreeDigitTextValue(WrappingSum(head));
    EncodedChecksum(head, text);
    var trailer := CHECKSUM_TAG + text + [SOH];
    EncodedBeginString(begin, BODY_LENGTH_TAG + digits + [SOH] + body + trailer);
    EncodedBodyLength(|body|, BEGIN_STRING_TAG + begin + [SOH], body + trailer);
    EncodedPieces(begin, digits, body, trailer);
  }

  /** The pieces of a frame, regrouped around each field. */
  lemma EncodedPieces(begin: bytes, digits: bytes, body: bytes, trailer: bytes)
    ensures var lengthField := BODY_LENGTH_TAG + digits + [SOH];
            var frame := BEGIN_STRING_TAG + begin + [SOH] + lengthField + body + trailer;
            && frame == BEGIN_STRING_TAG + begin + [SOH] + (lengthField + body + trailer)
            && frame == BEGIN_STRING_TAG + begin + [SOH] + BODY_LENGTH_TAG + digits + [SOH] + (body + trailer)
            && frame[6 + |begin| + |digits|..6 + |begin| + |digits| + |body|] == body
  {
  }

  lemma EncodedBeginString(begin: bytes, more: bytes)
    requires StartsWith(begin, FIX) && |begin| <= 14 && SOH !in begin
    ensures BeginStringAt(BEGIN_STRING_TAG + begin + [SOH] + more, 2 + |begin|)
    ensures (BEGIN_STRING_TAG + begin + [SOH] + more)[2..2 + |begin|] == begin
  {
    var s := BEGIN_STRING_TAG + begin + [SOH] + more;
    assert s[2..2 + |begin|] == begin;
    assert s[..2] == BEGIN_STRING_TAG;
    assert begin[..3] == FIX;
    assert s[..5] == BEGIN_STRING_TAG + begin[..3];
  }

  lemma EncodedBodyLength(n: nat, before: bytes, more: bytes)
    requires |Decimal(n)| <= MAX_BODY_LENGTH_DIGITS
    ensures BodyLengthAt(before + BODY_LENGTH_TAG + Decimal(n) + [SOH] + more, |before|, |before| + 2 + |Decimal(n)|, n)
  {
    var digits := Decimal(n);
    var s := before + BODY_LENGTH_TAG + digits + [SOH] + more;
    DecimalRoundTrip(n);
    assert s[|before|..|before| + 2] == BODY_LENGTH_TAG;
    assert s[|before| + 2..|before| + 2 + |digits|] == digits;
    forall j | 0 <= j < |digits| ensures digits[j] != SOH {
      assert IsDigit(digits[j]);
    }
  }

  lemma EncodedChecksum(head: bytes, text: bytes)
    requires |text| == 3 && AllDigits(text) && DigitsValue(text) == Sum(head) % 0x100
    ensures ChecksumAt(head + (CHECKSUM_TAG + text + [SOH]), |head|)
  {
    var s := head + (CHECKSUM_TAG + text + [SOH]);
    assert s[..|head|] == head;
    assert s[|head|..|head| + 3] == CHECKSUM_TAG;
    assert s[|head| + 3..|head| + 6] == text;
  }

  // BeginString.

  predicate IsText(value: bytes, text: string) {
    |value| == |text| && forall i :: 0 <= i < |text| ==> value[i] == text[i] as int
  }

  /** The value reads as that version's BeginString. */
  predicate Names(value: bytes, version: BeginString) {
    match version
    case Fix40 => IsText(value, "FIX.4.0")
    case Fix41 => IsText(value, "FIX.4.1")
    case Fix42 => IsText(value, "FIX.4.2")
    case Fix43 => IsText(value, "FIX.4.3")
    case Fix44 => IsText(value, "FIX.4.4")
    case Fixt11 => IsText(value, "FIXT.1.1")
    case Other(_) => false
  }

  lemma FixTexts(value: bytes, last: byte, text: string)
    requires |text| == 7 && text[..6] == "FIX.4." && text[6] as int == last
    ensures value == [70, 73, 88, 46, 52, 46, last] <==> IsText(value, text)
  {
    assert "FIX.4."[0] == 'F' && "FIX.4."[1] == 'I' && "FIX.4."[2] == 'X' && "FIX.4."[3] == '.' && "FIX.4."[4] == '4' && "FIX.4."[5] == '.';
    assert forall i :: 0 <= i < 6 ==> text[i] == text[..6][i];
  }

  lemma FixtText(value: bytes)
    ensures value == [70, 73, 88, 84, 46, 49, 46, 49] <==> IsText(value, "FIXT.1.1")
  {
  }

  /** A value is recognised exactly as the version it names, and kept whole when it names none. */
  lemma VersionsAreNamed(value: bytes)
    ensures forall version :: Names(value, version) ==> ClassifyBeginString(value) == version
    ensures ClassifyBeginString(value) == Other(value) || Names(value, ClassifyBeginString(value))
  {
    hide IsText;
    FixTexts(value, 48, "FIX.4.0");
    FixTexts(value, 49, "FIX.4.1");
    FixTexts(value, 50, "FIX.4.2");
    FixTexts(value, 51, "FIX.4.3");
    FixTexts(value, 52, "FIX.4.4");
    FixtText(value);
  }
}
