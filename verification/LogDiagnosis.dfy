/** When each diagnostic is reported about a message read from a log. */
module LogDiagnosis {
  import opened Wrappers
  import opened Bytes
  import opened Division
  import opened Tags
  import opened Tokenizer
  import opened LogStart
  import opened LogEnd
  import opened LogReader

  /** `s` with each separator as the SOH it stands for. */
  function AsSoh(s: bytes, separator: byte): (r: bytes)
    ensures |r| == |s| && forall i :: 0 <= i < |s| ==> r[i] == if s[i] == separator then SOH else s[i]
  {
    seq(|s|, i requires 0 <= i < |s| => if s[i] == separator then SOH else s[i])
  }

  lemma {:induction false} ChecksumIsSum(s: bytes, separator: byte)
    ensures CalculatedChecksum(s, separator) == Sum(AsSoh(s, separator)) % 0x100
  {
    if s != [] {
      ChecksumIsSum(s[..|s| - 1], separator);
      var before := AsSoh(s[..|s| - 1], separator);
      assert AsSoh(s, separator)[..|s| - 1] == before;
      RestOfSum(Sum(before), AsSoh(s, separator)[|s| - 1], 0x100);
    }
  }

  predicate HasBodyLength(fields: seq<RawField>) {
    |fields| > 1 && fields[1].tag == BODY_LENGTH
  }

  /** The second field is BodyLength, and its value writes `n`. */
  predicate Declares(s: bytes, fields: seq<RawField>, n: nat)
    requires InOrder(s, fields)
  {
    HasBodyLength(fields) && n <= U32_MAX && Writes(s[fields[1].valueStart..fields[1].valueEnd], n)
  }

  /** Where the last field starts: after the separator of the one before it. */
  function LastStart(fields: seq<RawField>): nat
    requires fields != []
  {
    if |fields| == 1 then 0 else fields[|fields| - 2].valueEnd + 1
  }

  function LastValue(s: bytes, fields: seq<RawField>): bytes
    requires InOrder(s, fields) && fields != []
  {
    s[fields[|fields| - 1].valueStart..fields[|fields| - 1].valueEnd]
  }

  predicate ThreeDigits(s: bytes) {
    |s| == 3 && AllDigits(s)
  }

  /** What makes each diagnostic true of a message and its fields. */
  ghost predicate Holds(diagnostic: LogDiagnostic, s: bytes, fields: seq<RawField>, separator: byte, truncated: bool)
    requires InOrder(s, fields)
  {
    match diagnostic
    case MissingBodyLength => !HasBodyLength(fields)
    case MalformedBodyLength => HasBodyLength(fields) && forall n: nat :: !Declares(s, fields, n)
    case MissingMsgType =>
      var at := if HasBodyLength(fields) then 2 else 1;
      |fields| <= at || fields[at].tag != MSG_TYPE
    case Truncated => truncated
    case BodyLengthMismatch =>
      !truncated && fields != [] && exists n: nat :: Declares(s, fields, n) && fields[1].valueEnd + 1 + n != LastStart(fields)
    case ChecksumMismatch =>
      && !truncated && fields != [] && ThreeDigits(LastValue(s, fields))
      && DigitsValue(LastValue(s, fields)) != Sum(AsSoh(s[..LastStart(fields)], separator)) % 0x100
    case MalformedChecksum => !truncated && fields != [] && !ThreeDigits(LastValue(s, fields))
    case PrefixTruncated => false
  }

  /** The order diagnostics are reported in. */
  function Rank(diagnostic: LogDiagnostic): nat {
    match diagnostic
    case PrefixTruncated => 0
    case MissingBodyLength => 1
    case MalformedBodyLength => 1
    case MissingMsgType => 2
    case Truncated => 3
    case BodyLengthMismatch => 4
    case ChecksumMismatch => 5
    case MalformedChecksum => 5
  }

  predicate InRank(diagnostics: seq<LogDiagnostic>) {
    forall i, j :: 0 <= i < j < |diagnostics| ==> Rank(diagnostics[i]) < Rank(diagnostics[j])
  }

  lemma DeclaresIs(s: bytes, fields: seq<RawField>, n: nat)
    requires InOrder(s, fields)
    ensures Declares(s, fields, n) <==> DeclaredLength(s, fields) == Some(n)
  {
    if HasBodyLength(fields) { ParseU32Is(s[fields[1].valueStart..fields[1].valueEnd], n); }
  }

  lemma HeaderHolds(s: bytes, fields: seq<RawField>, separator: byte, truncated: bool, d: LogDiagnostic)
    requires InOrder(s, fields)
    ensures d in HeaderDiagnostics(s, fields) <==> Rank(d) < 3 && Holds(d, s, fields, separator, truncated)
    ensures InRank(HeaderDiagnostics(s, fields)) && forall e :: e in HeaderDiagnostics(s, fields) ==> 0 < Rank(e) < 3
  {
    hide DeclaredLength, Declares;
    forall n: nat ensures Declares(s, fields, n) <==> DeclaredLength(s, fields) == Some(n) { DeclaresIs(s, fields, n); }
  }

  lemma TrailerHolds(s: bytes, fields: seq<RawField>, separator: byte, d: LogDiagnostic)
    requires InOrder(s, fields) && fields != []
    ensures d in TrailerDiagnostics(s, fields, separator) <==> Rank(d) > 3 && Holds(d, s, fields, separator, false)
    ensures InRank(TrailerDiagnostics(s, fields, separator)) && forall e :: e in TrailerDiagnostics(s, fields, separator) ==> 3 < Rank(e)
  {
    hide DeclaredLength, Declares, CalculatedChecksum, ParseU32, DigitsValue, Sum, AsSoh;
    forall n: nat ensures Declares(s, fields, n) <==> DeclaredLength(s, fields) == Some(n) { DeclaresIs(s, fields, n); }
    DeclaredHasField(s, fields);
    LastStartIsInside(s, fields);
    ChecksumIsSum(s[..LastStart(fields)], separator);
    StatedIs(LastValue(s, fields), Sum(AsSoh(s[..LastStart(fields)], separator)) % 0x100);
  }

  lemma LastStartIsInside(s: bytes, fields: seq<RawField>)
    requires InOrder(s, fields) && fields != []
    ensures LastStart(fields) <= |s|
  {
    var last := |fields| - 1;
    assert fields[last].valueStart <= |s|;
    if last > 0 { assert fields[last - 1].valueEnd < fields[last].valueStart; }
  }

  lemma DeclaredHasField(s: bytes, fields: seq<RawField>)
    requires InOrder(s, fields)
    ensures DeclaredLength(s, fields).Some? ==> HasBodyLength(fields)
  {
  }

  lemma StatedIs(stated: bytes, sum: nat)
    requires sum <= U32_MAX
    ensures ThreeDigits(stated) ==> (ParseU32(stated) == Some(sum) <==> DigitsValue(stated) == sum)
  {
    ParseU32Is(stated, sum);
  }

  /** A message is diagnosed with exactly what holds of it, each once, in one order. */
  lemma DiagnosisExactly(s: bytes, fields: seq<RawField>, separator: byte, truncated: bool, d: LogDiagnostic)
    requires InOrder(s, fields)
    ensures d in Diagnosis(s, fields, separator, truncated) <==> Holds(d, s, fields, separator, truncated)
    ensures InRank(Diagnosis(s, fields, separator, truncated))
    ensures PrefixTruncated !in Diagnosis(s, fields, separator, truncated)
  {
    hide HeaderDiagnostics, TrailerDiagnostics, Declares, ThreeDigits, LastValue, LastStart, DigitsValue, Sum, AsSoh;
    HeaderHolds(s, fields, separator, truncated, d);
    if !truncated && fields != [] { TrailerHolds(s, fields, separator, d); }
  }

  lemma PrefixTruncatedIsFirst(diagnostics: seq<LogDiagnostic>)
    requires InRank(diagnostics) && PrefixTruncated !in diagnostics
    ensures InRank([PrefixTruncated] + diagnostics)
  {
    var all := [PrefixTruncated] + diagnostics;
    forall i, j | 0 <= i < j < |all| ensures Rank(all[i]) < Rank(all[j]) { assert all[j] in diagnostics; }
  }

  /** A record's fields are its message's, and its diagnostics hold of them, but for the one about its prefix, which comes first. */
  lemma RecordIsDiagnosed(lengthTags: seq<Tag>, prefix: bytes, prefixTruncated: bool, message: FoundMessage, d: LogDiagnostic)
    requires |message.bytes| <= MAX_MESSAGE_LEN
    ensures var record := RecordOf(lengthTags, prefix, prefixTruncated, message);
            && record.message == RawMessage(message.bytes, AllFields(lengthTags, message.bytes, message.separator))
            && InOrder(message.bytes, record.message.fields)
            && (d in record.diagnostics <==>
                 if d.PrefixTruncated? then prefixTruncated
                 else Holds(d, message.bytes, record.message.fields, message.separator, message.end.truncated))
            && InRank(record.diagnostics)
  {
    hide Diagnosis, Holds, InRank, Fields;
    FieldsAreInOrder(lengthTags, message.bytes, 0, None, message.separator);
    var fields := AllFields(lengthTags, message.bytes, message.separator);
    DiagnosisExactly(message.bytes, fields, message.separator, message.end.truncated, d);
    var diagnosis := Diagnosis(message.bytes, fields, message.separator, message.end.truncated);
    PrefixTruncatedIsFirst(diagnosis);
    assert [] + diagnosis == diagnosis;
  }

  /**
   * A record read is of the first message found, with its fields and just the diagnostics that hold of
   * it, those of a message cut short exactly when its end says so.
   */
  lemma StepIsDiagnosed(lengthTags: seq<Tag>, given: Option<byte>, s: LogState, atEnd: bool, d: LogDiagnostic)
    requires s.searched <= |s.buf| && ReadStep(lengthTags, given, s, atEnd).taken.Some?
    ensures var next := FindStart(s.buf, s.searched, |s.buf|, given, atEnd);
            && next.Found?
            && var found := MessageAt(lengthTags, given, s.buf[next.start.at..], next.start.separator, atEnd);
            && found.Some?
            && var record, message := ReadStep(lengthTags, given, s, atEnd).taken.value.record, found.value;
            && record.message == RawMessage(message.bytes, AllFields(lengthTags, message.bytes, message.separator))
            && InOrder(message.bytes, record.message.fields) && InRank(record.diagnostics)
            && (!d.PrefixTruncated? ==>
                 (d in record.diagnostics <==> Holds(d, message.bytes, record.message.fields, message.separator, message.end.truncated)))
  {
    hide FindStart, MessageAt, Check, RightEnd, RecordOf, Holds, InRank, Fields;
    var next := FindStart(s.buf, s.searched, |s.buf|, given, atEnd);
    SearchIsWithin(s.buf, s.searched, given, atEnd);
    var message := MessageAt(lengthTags, given, s.buf[next.start.at..], next.start.separator, atEnd).value;
    var excess := Excess(next.start.at);
    RecordIsDiagnosed(lengthTags, s.buf[excess..next.start.at], s.prefixTruncated || excess > 0, message, d);
  }
}
