/** Reading messages out of a FIX log fed in pieces. */
module LogReader {
  import opened Wrappers
  import opened Bytes
  import opened Sequences
  import opened Tags
  import Framing
  import opened Tokenizer
  import opened LogStart
  import opened LogEnd
  import opened CaretA

  const MAX_PREFIX_LEN: nat := 0x10_0000

  datatype LogDiagnostic =
    | MissingBodyLength
    | MalformedBodyLength
    | BodyLengthMismatch
    | MissingMsgType
    | MalformedChecksum
    | ChecksumMismatch
    | Truncated
    | PrefixTruncated

  /** A message read from a log, with the bytes before it. */
  datatype LogRecord = LogRecord(prefix: bytes, message: RawMessage, diagnostics: seq<LogDiagnostic>)

  /** Fields lie within `s`, each after the separator of the one before. */
  predicate InOrder(s: bytes, fields: seq<RawField>) {
    && (forall i :: 0 <= i < |fields| ==> fields[i].valueStart <= fields[i].valueEnd <= |s|)
    && (forall i :: 0 < i < |fields| ==> fields[i - 1].valueEnd < fields[i].valueStart)
  }

  lemma {:induction false} FieldsAreInOrder(lengthTags: seq<Tag>, s: bytes, pos: nat, dataLen: Option<nat>, separator: byte)
    requires |s| <= U32_MAX
    ensures InOrder(s, Fields(lengthTags, s, pos, dataLen, separator))
    ensures var fields := Fields(lengthTags, s, pos, dataLen, separator); fields != [] ==> pos <= fields[0].valueStart
    decreases |s| + 1 - pos
  {
    hide NextField, PendingDataLen;
    match NextField(s, pos, dataLen, separator)
    case None =>
    case Some((field, next)) =>
      FieldsAreInOrder(lengthTags, s, next, PendingDataLen(lengthTags, s, field), separator);
      var rest := Fields(lengthTags, s, next, PendingDataLen(lengthTags, s, field), separator);
      assert Fields(lengthTags, s, pos, dataLen, separator) == [field] + rest;
  }

  function ValueOf(s: bytes, field: RawField): (r: bytes)
    requires field.valueStart <= field.valueEnd <= |s|
  {
    s[field.valueStart..field.valueEnd]
  }

  /** The checksum of `s`, counting each separator as SOH. */
  function CalculatedChecksum(s: bytes, separator: byte): (r: byte) {
    if s == [] then 0
    else (CalculatedChecksum(s[..|s| - 1], separator) + if s[|s| - 1] == separator then SOH else s[|s| - 1]) % 0x100
  }

  /** The BodyLength field, which must be the second. */
  function BodyLengthField(fields: seq<RawField>): (r: Option<RawField>) {
    if |fields| > 1 && fields[1].tag == BODY_LENGTH then Some(fields[1]) else None
  }

  function DeclaredLength(s: bytes, fields: seq<RawField>): (r: Option<nat>)
    requires InOrder(s, fields)
  {
    match BodyLengthField(fields)
    case Some(field) => ParseU32(ValueOf(s, field))
    case None => None
  }

  function HeaderDiagnostics(s: bytes, fields: seq<RawField>): (r: seq<LogDiagnostic>)
    requires InOrder(s, fields)
  {
    var bodyLength := BodyLengthField(fields);
    var msgTypeIndex := if bodyLength.Some? then 2 else 1;
    (if bodyLength.None? then [MissingBodyLength]
     else if DeclaredLength(s, fields).None? then [MalformedBodyLength]
     else [])
    + (if msgTypeIndex < |fields| && fields[msgTypeIndex].tag == MSG_TYPE then [] else [MissingMsgType])
  }

  /** Where the last field starts. */
  function TrailerStart(fields: seq<RawField>): nat
    requires fields != []
  {
    if |fields| == 1 then 0 else fields[|fields| - 2].valueEnd + 1
  }

  function TrailerDiagnostics(s: bytes, fields: seq<RawField>, separator: byte): (r: seq<LogDiagnostic>)
    requires InOrder(s, fields) && fields != []
  {
    var trailerStart := TrailerStart(fields);
    var declared := DeclaredLength(s, fields);
    var stated := ValueOf(s, fields[|fields| - 1]);
    (if declared.Some? && fields[1].valueEnd + 1 + declared.value != trailerStart then [BodyLengthMismatch] else [])
    + (if |stated| == 3 && AllDigits(stated) then
         if ParseU32(stated) != Some(CalculatedChecksum(s[..trailerStart], separator)) then [ChecksumMismatch] else []
       else [MalformedChecksum])
  }

  /** What could not be verified about the message in `s`. */
  function Diagnosis(s: bytes, fields: seq<RawField>, separator: byte, truncated: bool): (r: seq<LogDiagnostic>)
    requires InOrder(s, fields)
  {
    HeaderDiagnostics(s, fields)
    + (if truncated then [Truncated]
       else if fields == [] then []
       else TrailerDiagnostics(s, fields, separator))
  }

  method Diagnose(s: bytes, fields: seq<RawField>, separator: byte, truncated: bool) returns (diagnostics: seq<LogDiagnostic>)
    requires InOrder(s, fields)
    ensures diagnostics == Diagnosis(s, fields, separator, truncated)
  {
    hide CalculatedChecksum, ParseU32;
    diagnostics := [];
    var bodyLength := BodyLengthField(fields);
    var declared := DeclaredLength(s, fields);
    if bodyLength.None? {
      diagnostics := diagnostics + [MissingBodyLength];
    } else if declared.None? {
      diagnostics := diagnostics + [MalformedBodyLength];
    }
    var msgTypeIndex := if bodyLength.Some? then 2 else 1;
    if !(msgTypeIndex < |fields| && fields[msgTypeIndex].tag == MSG_TYPE) {
      diagnostics := diagnostics + [MissingMsgType];
    }
    assert diagnostics == HeaderDiagnostics(s, fields);
    if truncated {
      diagnostics := diagnostics + [Truncated];
      return;
    }
    if fields == [] {
      return;
    }
    var trailerStart := TrailerStart(fields);
    ghost var header: seq<LogDiagnostic>, trailer: seq<LogDiagnostic> := diagnostics, [];
    if declared.Some? && fields[1].valueEnd + 1 + declared.value != trailerStart {
      diagnostics := diagnostics + [BodyLengthMismatch];
      trailer := [BodyLengthMismatch];
    }
    assert diagnostics == header + trailer;
    var stated := ValueOf(s, fields[|fields| - 1]);
    if |stated| == 3 && AllDigits(stated) {
      if ParseU32(stated) != Some(CalculatedChecksum(s[..trailerStart], separator)) {
        Associates(header, trailer, [ChecksumMismatch]);
        diagnostics := diagnostics + [ChecksumMismatch];
        trailer := trailer + [ChecksumMismatch];
      }
    } else {
      Associates(header, trailer, [MalformedChecksum]);
      diagnostics := diagnostics + [MalformedChecksum];
      trailer := trailer + [MalformedChecksum];
    }
    assert trailer == TrailerDiagnostics(s, fields, separator);
  }

  /** A reader's buffer, where its search resumes, and whether the next prefix lost bytes. */
  datatype LogState = LogState(buf: bytes, searched: nat, prefixTruncated: bool)

  const START: LogState := LogState([], 0, false)

  /** A message found at the front of `s`: its end there, its bytes, and the byte that ends its fields. */
  datatype FoundMessage = FoundMessage(end: End, bytes: bytes, separator: byte)

  function MessageAt(lengthTags: seq<Tag>, given: Option<byte>, s: bytes, separator: Separator, atEnd: bool): (r: Option<FoundMessage>)
    requires Check(s, given) == IsStart(separator)
    ensures r.Some? ==> RightEnd(s, r.value.end) && 1 <= |r.value.bytes| <= MAX_MESSAGE_LEN
    ensures atEnd ==> r.Some?
  {
    match separator
    case Byte(byte) =>
      StartOpens(s, given, byte);
      EndsAreRight(lengthTags, s, byte, given, atEnd);
      EndsAreCapped(lengthTags, s, byte, given, atEnd);
      (match FindEnd(lengthTags, s, byte, given, atEnd)
       case None => None
       case Some(end) => Some(FoundMessage(end, s[..end.len], byte)))
    case CaretA =>
      CopiesAreRight(lengthTags, s, atEnd);
      match CopiedMessage(lengthTags, s, atEnd)
      case None => None
      case Some((end, copy)) => Some(FoundMessage(end, copy, SOH))
  }

  /** What a record takes off the buffer: itself, the message as it was logged, and a line break. */
  datatype Taken = Taken(record: LogRecord, logged: bytes, lineBreak: bytes)

  datatype ReadResult = ReadResult(state: LogState, dropped: bytes, taken: Option<Taken>)

  function RecordIn(r: ReadResult): (record: Option<LogRecord>) {
    match r.taken
    case Some(taken) => Some(taken.record)
    case None => None
  }

  /** How many of the oldest bytes of a prefix of `len` bytes are past the cap. */
  function Excess(len: nat): nat {
    if len <= MAX_PREFIX_LEN then 0 else len - MAX_PREFIX_LEN
  }

  function RecordOf(lengthTags: seq<Tag>, prefix: bytes, prefixTruncated: bool, message: FoundMessage): (r: LogRecord)
    requires |message.bytes| <= MAX_MESSAGE_LEN
  {
    FieldsAreInOrder(lengthTags, message.bytes, 0, None, message.separator);
    var fields := AllFields(lengthTags, message.bytes, message.separator);
    LogRecord(
      prefix,
      RawMessage(message.bytes, fields),
      (if prefixTruncated then [PrefixTruncated] else [])
      + Diagnosis(message.bytes, fields, message.separator, message.end.truncated))
  }

  /** The state a step leaves when there is no record to give: the search resumes at `reached`. */
  function Wait(s: LogState, reached: nat): (r: ReadResult)
    requires reached <= |s.buf|
    ensures r.state.searched <= |r.state.buf|
  {
    var excess := Excess(reached);
    ReadResult(LogState(s.buf[excess..], reached - excess, s.prefixTruncated || excess > 0), s.buf[..excess], None)
  }

  /** Takes the message found at `reached` off the buffer, with the prefix before it. */
  function Take(lengthTags: seq<Tag>, s: LogState, reached: nat, message: FoundMessage): (r: ReadResult)
    requires reached <= |s.buf| && RightEnd(s.buf[reached..], message.end) && |message.bytes| <= MAX_MESSAGE_LEN
    ensures r.state.searched <= |r.state.buf|
  {
    var excess, rest := Excess(reached), s.buf[reached..];
    ReadResult(
      LogState(rest[message.end.consumed..], 0, false),
      s.buf[..excess],
      Some(Taken(
        RecordOf(lengthTags, s.buf[excess..reached], s.prefixTruncated || excess > 0, message),
        rest[..message.end.len],
        rest[message.end.len..message.end.consumed])))
  }

  /** Reads the next record, or moves on to where the next one may start. */
  function ReadStep(lengthTags: seq<Tag>, given: Option<byte>, s: LogState, atEnd: bool): (r: ReadResult)
    requires s.searched <= |s.buf|
    ensures r.state.searched <= |r.state.buf|
  {
    var next := FindStart(s.buf, s.searched, |s.buf|, given, atEnd);
    SearchIsWithin(s.buf, s.searched, given, atEnd);
    var reached := Reached(next, |s.buf|);
    match next
    case PendingStart(_) => Wait(s, reached)
    case NoStart => Wait(s, reached)
    case Found(start) =>
      match MessageAt(lengthTags, given, s.buf[reached..], start.separator, atEnd)
      case None => Wait(s, reached)
      case Some(message) => Take(lengthTags, s, reached, message)
  }

  lemma SearchIsWithin(s: bytes, from: nat, given: Option<byte>, atEnd: bool)
    requires from <= |s|
    ensures from <= Reached(FindStart(s, from, |s|, given, atEnd), |s|) <= |s|
  {
  }

  lemma EndsAreCapped(lengthTags: seq<Tag>, s: bytes, separator: byte, given: Option<byte>, atEnd: bool)
    requires Opens(s, separator)
    ensures var r := FindEnd(lengthTags, s, separator, given, atEnd); r.Some? ==> r.value.len <= |Capped(s, atEnd)|
  {
    var claim := DeclaredTrailer(Capped(s, atEnd), separator);
    if claim.Claim? { TrailerEndIsCapped(s, separator, claim.start, atEnd); }
    WalkIsCapped(lengthTags, s, separator, given, atEnd, 0, None);
    hide TrailerEnd, Walk, DeclaredTrailer;
  }

  /** A `\r` that ends the input is the start of a line break, and in no message. */
  lemma LastCrIsLeft(lengthTags: seq<Tag>, s: bytes, separator: byte, given: Option<byte>)
    requires Opens(s, separator) && s[|s| - 1] == CR
    ensures FindEnd(lengthTags, s, separator, given, true).Some? && FindEnd(lengthTags, s, separator, given, true).value.len < |s|
  {
    hide FindEnd;
    EndsAreRight(lengthTags, s, separator, given, true);
    EndsAreCapped(lengthTags, s, separator, given, true);
  }

  lemma TrailerEndIsCapped(s: bytes, separator: byte, start: nat, atEnd: bool)
    requires 4 <= start
    ensures var r := TrailerEnd(s, separator, start, atEnd); r.EndFound? ==> r.end.len <= |Capped(s, atEnd)|
  {
  }

  lemma {:induction false} WalkIsCapped(
    lengthTags: seq<Tag>, s: bytes, separator: byte, given: Option<byte>, atEnd: bool, pos: nat, dataLen: Option<nat>)
    requires Opens(s, separator) && pos <= |Capped(s, atEnd)|
    ensures var r := Walk(lengthTags, s, separator, given, atEnd, pos, dataLen); r.Some? ==> r.value.len <= |Capped(s, atEnd)|
    decreases |Capped(s, atEnd)| - pos
  {
    StepIsCapped(lengthTags, s, separator, given, atEnd, pos, dataLen);
    var step := StepWalk(lengthTags, s, separator, given, atEnd, pos, dataLen);
    hide StepWalk;
    if step.GoOn? { WalkIsCapped(lengthTags, s, separator, given, atEnd, step.pos, step.dataLen); }
  }

  lemma StepIsCapped(
    lengthTags: seq<Tag>, s: bytes, separator: byte, given: Option<byte>, atEnd: bool, pos: nat, dataLen: Option<nat>)
    requires Opens(s, separator) && pos <= |Capped(s, atEnd)|
    ensures var r := StepWalk(lengthTags, s, separator, given, atEnd, pos, dataLen);
            r.Over? && r.end.Some? ==> r.end.value.len <= |Capped(s, atEnd)|
  {
    hide NextField, FindStart, FindByte, Capped, Opens, StartsWith;
    FirstFieldIsLong(s, atEnd, dataLen, separator);
  }

  /** A message copied from its line has a right end in the line's terms, and restores what it took. */
  lemma CopiesAreRight(lengthTags: seq<Tag>, s: bytes, atEnd: bool)
    requires StartsWith(s, Framing.BEGIN_STRING_PREFIX)
    ensures var r := CopiedMessage(lengthTags, s, atEnd);
            && (atEnd ==> r.Some?)
            && (r.Some? ==>
                 && RightEnd(s, r.value.0) && 1 <= |r.value.1| <= MAX_MESSAGE_LEN
                 && r.value.1 == Restored(s[..r.value.0.len]))
  {
    hide FindEnd, FirstLine, Restored, TakenBy, RightEnd, Opens;
    var first := FirstLine(s, atEnd);
    AtEndThereIsALine(s);
    if first.Some? {
      var (line, lineConsumed) := first.value;
      LineOpens(s, atEnd);
      assert s[0] == Framing.BEGIN_STRING_PREFIX[0] by { assert s[..5][0] == s[0]; }
      LineIsRight(s, atEnd);
      var copy := Restored(line);
      EndsAreRight(lengthTags, copy, SOH, None, true);
      var end := FindEnd(lengthTags, copy, SOH, None, true).value;
      RightEndIsWithin(copy, end);
      OriginalOffsetInverts(line, end.len);
      NoTakingNothing(line, end.len);
      LineEndIsRight(s, line, TakenBy(line, copy, end.len), lineConsumed, end.truncated);
    }
  }

  lemma AtEndThereIsALine(s: bytes)
    ensures FirstLine(s, true).Some?
  {
  }

  lemma RightEndIsWithin(s: bytes, end: End)
    requires RightEnd(s, end)
    ensures 1 <= end.len <= end.consumed <= |s|
  {
  }

  /** An end inside a line takes no line break, and one at its end takes the line's. */
  lemma LineEndIsRight(s: bytes, line: bytes, len: nat, lineConsumed: nat, truncated: bool)
    requires |line| <= lineConsumed <= |s| && line == s[..|line|] && 1 <= len <= |line|
    requires s[|line|..lineConsumed] == [] || s[|line|..lineConsumed] == [LF] || s[|line|..lineConsumed] == [CR, LF]
    ensures RightEnd(s, End(len, if len == |line| then lineConsumed else len, truncated))
    ensures line[..len] == s[..len]
  {
  }

  lemma NoTakingNothing(line: bytes, offset: nat)
    requires 1 <= offset <= |Restored(line)|
    ensures 1 <= TakenBy(line, Restored(line), offset)
  {
  }

  lemma LineIsRight(s: bytes, atEnd: bool)
    requires FirstLine(s, atEnd).Some? && s != [] && s[0] != CR && s[0] != LF
    ensures var (line, consumed) := FirstLine(s, atEnd).value;
            && |line| <= MAX_MESSAGE_LEN && line == s[..|line|] && |line| <= consumed <= |s|
            && (s[|line|..consumed] == [] || s[|line|..consumed] == [LF] || s[|line|..consumed] == [CR, LF])
  {
    var capped := s[..Min(|s|, MAX_MESSAGE_LEN)];
    var found := FindByte(capped, LF, 0, |capped|);
    if found.Some? {
      assert s[found.value..found.value + 1] == [LF];
      if capped[found.value - 1] == CR { assert s[found.value - 1..found.value + 1] == [CR, LF]; }
    }
  }

  /** The bytes a reading step takes off the buffer, in the order they were in it. */
  function Released(r: ReadResult): (s: bytes) {
    r.dropped + match r.taken
                case Some(taken) => taken.record.prefix + taken.logged + taken.lineBreak
                case None => []
  }

  /**
   * One step loses nothing: what it drops, the record's prefix, the message as logged, its line
   * break and what stays in the buffer are the buffer.
   */
  lemma StepConservesBytes(lengthTags: seq<Tag>, given: Option<byte>, s: LogState, atEnd: bool)
    requires s.searched <= |s.buf|
    ensures var r := ReadStep(lengthTags, given, s, atEnd);
            && Released(r) + r.state.buf == s.buf
            && (r.taken.Some? ==> |r.state.buf| < |s.buf|)
  {
    hide MessageAt, Restored, Check, FindStart, RightEnd, Take, Wait, Released;
    var next := FindStart(s.buf, s.searched, |s.buf|, given, atEnd);
    var reached := Reached(next, |s.buf|);
    SearchIsWithin(s.buf, s.searched, given, atEnd);
    WaitConserves(s, reached);
    if next.Found? {
      var message := MessageAt(lengthTags, given, s.buf[reached..], next.start.separator, atEnd);
      if message.Some? {
        TakenIsRestored(lengthTags, given, s.buf[reached..], next.start.separator, atEnd);
        TakeConserves(lengthTags, s, reached, message.value);
      }
    }
  }

  /**
   * A record's prefix stays within the cap, and reports a truncation exactly when bytes before
   * it were dropped, now or earlier. Its message is the bytes logged, or those with SOH
   * restored, and what goes with it is at most one line break.
   */
  lemma StepRecordsFaithfully(lengthTags: seq<Tag>, given: Option<byte>, s: LogState, atEnd: bool)
    requires s.searched <= |s.buf|
    ensures var r := ReadStep(lengthTags, given, s, atEnd);
            match r.taken
            case None => r.state.prefixTruncated == (s.prefixTruncated || r.dropped != [])
            case Some(taken) =>
              && !r.state.prefixTruncated
              && |taken.record.prefix| <= MAX_PREFIX_LEN
              && (PrefixTruncated in taken.record.diagnostics <==> s.prefixTruncated || r.dropped != [])
              && (taken.record.message.bytes == taken.logged || taken.record.message.bytes == Restored(taken.logged))
              && (taken.lineBreak == [] || taken.lineBreak == [LF] || taken.lineBreak == [CR, LF])
  {
    hide MessageAt, Restored, Check, FindStart, RightEnd, Take, Wait, Released;
    var next := FindStart(s.buf, s.searched, |s.buf|, given, atEnd);
    var reached := Reached(next, |s.buf|);
    SearchIsWithin(s.buf, s.searched, given, atEnd);
    WaitConserves(s, reached);
    if next.Found? {
      var message := MessageAt(lengthTags, given, s.buf[reached..], next.start.separator, atEnd);
      if message.Some? {
        TakenIsRestored(lengthTags, given, s.buf[reached..], next.start.separator, atEnd);
        TakeConserves(lengthTags, s, reached, message.value);
      }
    }
  }

  lemma WaitConserves(s: LogState, reached: nat)
    requires reached <= |s.buf|
    ensures var r := Wait(s, reached);
            && r.taken == None && Released(r) + r.state.buf == s.buf
            && r.state.prefixTruncated == (s.prefixTruncated || r.dropped != [])
  {
    var excess := Excess(reached);
    assert s.buf[..excess] + [] + s.buf[excess..] == s.buf;
  }

  lemma TakeConserves(lengthTags: seq<Tag>, s: LogState, reached: nat, message: FoundMessage)
    requires reached <= |s.buf| && RightEnd(s.buf[reached..], message.end) && 1 <= message.end.len <= message.end.consumed <= |s.buf[reached..]|
    requires |message.bytes| <= MAX_MESSAGE_LEN
    ensures var r := Take(lengthTags, s, reached, message);
            && Released(r) + r.state.buf == s.buf
            && r.taken.Some? && r.taken.value.record.message.bytes == message.bytes
            && r.taken.value.logged == s.buf[reached..][..message.end.len]
            && r.taken.value.lineBreak == s.buf[reached..][message.end.len..message.end.consumed]
            && |r.state.buf| < |s.buf| && !r.state.prefixTruncated
            && |r.taken.value.record.prefix| <= MAX_PREFIX_LEN
            && (PrefixTruncated in r.taken.value.record.diagnostics <==> s.prefixTruncated || r.dropped != [])
  {
    var excess, rest, end := Excess(reached), s.buf[reached..], message.end;
    OnlyPrefixesReportTruncation(lengthTags, s.buf[excess..reached], s.prefixTruncated || excess > 0, message);
    hide RecordOf, RightEnd;
    PiecesAreWhole(s.buf, excess, reached, end.len, end.consumed);
  }

  lemma PiecesAreWhole(s: bytes, excess: nat, reached: nat, len: nat, consumed: nat)
    requires excess <= reached <= |s| && len <= consumed <= |s[reached..]|
    ensures var rest := s[reached..];
            s[..excess] + (s[excess..reached] + rest[..len] + rest[len..consumed]) + rest[consumed..] == s
  {
  }

  lemma StepReleases(lengthTags: seq<Tag>, given: Option<byte>, s: LogState, atEnd: bool, released: bytes)
    requires s.searched <= |s.buf|
    ensures var r := ReadStep(lengthTags, given, s, atEnd);
            && released + Released(r) + r.state.buf == released + s.buf
            && (r.taken.Some? ==> |r.state.buf| < |s.buf|)
  {
    StepConservesBytes(lengthTags, given, s, atEnd);
    hide ReadStep, Released;
    var r := ReadStep(lengthTags, given, s, atEnd);
    Associates(released, Released(r), r.state.buf);
  }

  lemma TakenIsRestored(lengthTags: seq<Tag>, given: Option<byte>, s: bytes, separator: Separator, atEnd: bool)
    requires Check(s, given) == IsStart(separator) && MessageAt(lengthTags, given, s, separator, atEnd).Some?
    ensures var message := MessageAt(lengthTags, given, s, separator, atEnd).value;
            && RightEnd(s, message.end)
            && 1 <= message.end.len <= message.end.consumed <= |s|
            && (message.bytes == s[..message.end.len] || message.bytes == Restored(s[..message.end.len]))
            && var lineBreak := s[message.end.len..message.end.consumed];
               lineBreak == [] || lineBreak == [LF] || lineBreak == [CR, LF]
  {
    if separator.CaretA? {
      CopiesAreRight(lengthTags, s, atEnd);
    }
    hide FindEnd, CopiedMessage;
  }

  lemma OnlyPrefixesReportTruncation(lengthTags: seq<Tag>, prefix: bytes, prefixTruncated: bool, message: FoundMessage)
    requires |message.bytes| <= MAX_MESSAGE_LEN
    ensures PrefixTruncated in RecordOf(lengthTags, prefix, prefixTruncated, message).diagnostics <==> prefixTruncated
    ensures RecordOf(lengthTags, prefix, prefixTruncated, message).prefix == prefix
    ensures RecordOf(lengthTags, prefix, prefixTruncated, message).message.bytes == message.bytes
  {
    FieldsAreInOrder(lengthTags, message.bytes, 0, None, message.separator);
    DiagnosisHasNoPrefix(message.bytes, AllFields(lengthTags, message.bytes, message.separator), message.separator, message.end.truncated);
    hide Diagnosis, Fields;
  }

  lemma DiagnosisHasNoPrefix(s: bytes, fields: seq<RawField>, separator: byte, truncated: bool)
    requires InOrder(s, fields)
    ensures PrefixTruncated !in Diagnosis(s, fields, separator, truncated)
  {
    hide CalculatedChecksum, ParseU32;
  }

  /** Reads the messages in a FIX log from incrementally fed bytes. */
  class LogReader {
    const lengthTags: seq<Tag>
    const given: Option<byte>
    var buf: bytes
    /** Where the search for the next message start resumes. */
    var searched: nat
    /** Whether the next record's prefix lost bytes to the cap. */
    var prefixTruncated: bool
    /** Every byte fed, and every byte since dropped or given out in a record, in order. */
    ghost var fed: bytes
    ghost var released: bytes

    ghost predicate Valid()
      reads this
    {
      searched <= |buf| && released + buf == fed
    }

    ghost function State(): LogState
      reads this
    {
      LogState(buf, searched, prefixTruncated)
    }

    constructor (lengthTags: seq<Tag>, given: Option<byte>)
      ensures Valid() && State() == START && fed == [] && released == []
      ensures this.lengthTags == lengthTags && this.given == given
    {
      this.lengthTags := lengthTags;
      this.given := given;
      buf, searched, prefixTruncated := [], 0, false;
      fed, released := [], [];
    }

    /** Appends bytes to the reader's buffer. */
    method Feed(bytes: bytes)
      requires Valid()
      modifies this`buf, this`fed
      ensures Valid() && State() == old(State()).(buf := old(buf) + bytes)
      ensures fed == old(fed) + bytes
    {
      buf := buf + bytes;
      fed := fed + bytes;
      assert released + buf == old(released + buf) + bytes;
    }

    /** Drops the oldest bytes of a prefix of `len` bytes past the cap, and returns its length after. */
    method CapPrefix(len: nat) returns (kept: nat)
      requires len <= |buf|
      modifies this`buf, this`prefixTruncated
      ensures kept == len - Excess(len) && buf == old(buf)[Excess(len)..]
      ensures prefixTruncated == (old(prefixTruncated) || Excess(len) > 0)
    {
      if len <= MAX_PREFIX_LEN {
        return len;
      }
      buf := buf[len - MAX_PREFIX_LEN..];
      prefixTruncated := true;
      return MAX_PREFIX_LEN;
    }

    /** Where the message at the front of `s` ends, with its bytes and separator. */
    method ReadMessage(s: bytes, separator: Separator, atEnd: bool) returns (message: Option<FoundMessage>)
      requires Check(s, given) == IsStart(separator)
      ensures message == MessageAt(lengthTags, given, s, separator, atEnd)
    {
      match separator {
        case Byte(byte) =>
          StartOpens(s, given, byte);
          EndsAreRight(lengthTags, s, byte, given, atEnd);
          var end := FindMessageEnd(lengthTags, s, byte, given, atEnd);
          message := if end.None? then None else Some(FoundMessage(end.value, s[..end.value.len], byte));
        case CaretA =>
          var copied := CopyMessage(lengthTags, s, atEnd);
          message := if copied.None? then None else Some(FoundMessage(copied.value.0, copied.value.1, SOH));
      }
    }

    /** Takes the message at `prefixLen` off the buffer, and makes it and the prefix before it a record. */
    method TakeRecord(prefixLen: nat, found: FoundMessage) returns (record: LogRecord)
      requires prefixLen <= |buf| && RightEnd(buf[prefixLen..], found.end) && |found.bytes| <= MAX_MESSAGE_LEN
      modifies this`buf, this`searched, this`prefixTruncated
      ensures record == RecordOf(lengthTags, old(buf)[..prefixLen], old(prefixTruncated), found)
      ensures State() == LogState(old(buf)[prefixLen..][found.end.consumed..], 0, false)
    {
      var prefix, rest := buf[..prefixLen], buf[prefixLen..];
      buf := rest[found.end.consumed..];
      searched := 0;
      var diagnostics: seq<LogDiagnostic> := if prefixTruncated then [PrefixTruncated] else [];
      prefixTruncated := false;
      var fields := TokenizeFields(lengthTags, found.bytes, found.separator);
      FieldsAreInOrder(lengthTags, found.bytes, 0, None, found.separator);
      var more := Diagnose(found.bytes, fields, found.separator, found.end.truncated);
      record := LogRecord(prefix, RawMessage(found.bytes, fields), diagnostics + more);
    }

    /** Reads the next record, or `None` until more bytes are fed. */
    method Read(atEnd: bool) returns (record: Option<LogRecord>)
      requires Valid()
      modifies this`buf, this`searched, this`prefixTruncated, this`released
      ensures Valid() && fed == old(fed)
      ensures var r := ReadStep(lengthTags, given, old(State()), atEnd);
              && State() == r.state && released == old(released) + Released(r)
              && record == RecordIn(r)
      ensures record.Some? ==> |buf| < old(|buf|)
    {
      hide ReadStep, Released;
      ghost var r := ReadStep(lengthTags, given, State(), atEnd);
      StepReleases(lengthTags, given, State(), atEnd, released);
      record := ReadRecord(atEnd);
      released := released + Released(r);
    }

    method ReadRecord(atEnd: bool) returns (record: Option<LogRecord>)
      requires searched <= |buf|
      modifies this`buf, this`searched, this`prefixTruncated
      ensures var r := ReadStep(lengthTags, given, old(State()), atEnd);
              State() == r.state && record == RecordIn(r)
    {
      hide MessageAt, Check, FindStart, RightEnd, RecordOf;
      ghost var s := State();
      var next := Locate(atEnd);
      if !next.Found? {
        return None;
      }
      ghost var reached := Reached(next, |s.buf|);
      assert buf[searched..] == s.buf[reached..];
      assert buf[..searched] == s.buf[Excess(reached)..reached];
      var message := ReadMessage(buf[searched..], next.start.separator, atEnd);
      if message.None? {
        return None;
      }
      var taken := TakeRecord(searched, message.value);
      return Some(taken);
    }

    /** Searches on for a start, and drops what is past the cap before where the search got to. */
    method Locate(atEnd: bool) returns (next: NextStart)
      requires searched <= |buf|
      modifies this`buf, this`searched, this`prefixTruncated
      ensures next == FindStart(old(buf), old(searched), |old(buf)|, given, atEnd)
      ensures Reached(next, |old(buf)|) <= |old(buf)| && State() == Wait(old(State()), Reached(next, |old(buf)|)).state
    {
      next := FindStart(buf, searched, |buf|, given, atEnd);
      SearchIsWithin(buf, searched, given, atEnd);
      var prefixLen := CapPrefix(Reached(next, |buf|));
      searched := prefixLen;
    }

    /** Consumes and returns the next record, or `None` until more bytes are fed. */
    method NextRecord() returns (record: Option<LogRecord>)
      requires Valid()
      modifies this`buf, this`searched, this`prefixTruncated, this`released
      ensures Valid() && fed == old(fed)
      ensures var r := ReadStep(lengthTags, given, old(State()), false);
              && State() == r.state && released == old(released) + Released(r)
              && record == RecordIn(r)
      ensures record.Some? ==> |buf| < old(|buf|)
    {
      record := Read(false);
    }

    /** Ends the input and returns the records still pending. It stops once no start is left. */
    method Finish() returns (records: seq<LogRecord>)
      requires Valid()
      modifies this`buf, this`searched, this`prefixTruncated, this`released
      ensures Valid() && fed == old(fed)
      ensures records == Remaining(lengthTags, given, old(State()))
    {
      hide ReadStep, Released, Remaining;
      records := [];
      while true
        invariant Valid() && fed == old(fed)
        invariant records + Remaining(lengthTags, given, State()) == Remaining(lengthTags, given, old(State()))
        decreases |buf|
      {
        RemainingFrom(lengthTags, given, State(), records);
        var record := Read(true);
        if record.None? {
          return;
        }
        records := records + [record.value];
      }
    }
  }

  /** What is pending is what the next step gives, and then what is pending after it. */
  lemma RemainingFrom(lengthTags: seq<Tag>, given: Option<byte>, s: LogState, before: seq<LogRecord>)
    requires s.searched <= |s.buf|
    ensures var r := ReadStep(lengthTags, given, s, true);
            before + Remaining(lengthTags, given, s) ==
            match RecordIn(r)
            case None => before
            case Some(record) => before + [record] + Remaining(lengthTags, given, r.state)
  {
    hide ReadStep, Remaining;
    RemainingUnfolds(lengthTags, given, s);
    var r := ReadStep(lengthTags, given, s, true);
    if r.taken.Some? {
      Associates(before, [r.taken.value.record], Remaining(lengthTags, given, r.state));
    } else {
      assert before + [] == before;
    }
  }

  lemma RemainingUnfolds(lengthTags: seq<Tag>, given: Option<byte>, s: LogState)
    requires s.searched <= |s.buf|
    ensures var r := ReadStep(lengthTags, given, s, true);
            Remaining(lengthTags, given, s) ==
            match r.taken
            case None => []
            case Some(taken) => [taken.record] + Remaining(lengthTags, given, r.state)
  {
    hide ReadStep;
  }

  /** The records pending once the input has ended. */
  function Remaining(lengthTags: seq<Tag>, given: Option<byte>, s: LogState): (r: seq<LogRecord>)
    requires s.searched <= |s.buf|
    decreases |s.buf|
  {
    StepConservesBytes(lengthTags, given, s, true);
    match ReadStep(lengthTags, given, s, true)
    case ReadResult(_, _, None) => []
    case ReadResult(next, _, Some(taken)) => [taken.record] + Remaining(lengthTags, given, next)
  }
}
