/** Logs written as messages with other text around them read back as written. */
module LogText {
  import opened Wrappers
  import opened Bytes
  import opened Sequences
  import opened Tags
  import Framing
  import opened FrameFormat
  import opened Tokenizer
  import opened TokenizerLaws
  import opened CaretA
  import opened LogStart
  import opened LogStartLaws
  import opened LogEnd
  import opened LogEndLaws
  import opened LogForms
  import opened LogWalkLaws
  import opened LogReader
  import opened LogReaderLaws
  import StrictDiagnosis

  /** A message as it is logged: the text before it, its frame, what stands for SOH, and the line break after it. */
  datatype Logged = Logged(prefix: bytes, frame: bytes, separator: Separator, lineBreak: bytes)

  function LoggedFrame(item: Logged): bytes {
    LoggedAs(item.frame, item.separator)
  }

  /**
   * The frame is one the strict scanner accepts and the log's start check takes in the form it is
   * logged in, no message starts in the text before it, which is within the cap and ends in no
   * digit, and a line break follows.
   */
  predicate Readable(given: Option<byte>, item: Logged) {
    && Loggable(item.frame, item.separator)
    && Check(LoggedFrame(item), given) == IsStart(item.separator)
    && |item.prefix| <= MAX_PREFIX_LEN
    && (item.prefix == [] || !IsDigit(item.prefix[|item.prefix| - 1]))
    && (forall q :: 0 <= q < |item.prefix| ==> Dead(item.prefix + LoggedFrame(item), q, given))
    && IsLineBreak(item.lineBreak)
  }

  predicate AllReadable(given: Option<byte>, items: seq<Logged>) {
    forall i :: 0 <= i < |items| ==> Readable(given, items[i])
  }

  function Written(items: seq<Logged>): (s: bytes) {
    if items == [] then []
    else items[0].prefix + (LoggedFrame(items[0]) + (items[0].lineBreak + Written(items[1..])))
  }

  /** The message a logged frame reads as: in the bytes it is logged in, or with SOH restored. */
  function MessageOf(item: Logged): bytes {
    if item.separator.CaretA? then item.frame else LoggedFrame(item)
  }

  function SeparatorOf(item: Logged): byte {
    if item.separator.CaretA? then SOH else item.separator.byte
  }

  /** The record that a logged frame reads as: its fields and diagnostics are the frame's own. */
  function RecordFor(lengthTags: seq<Tag>, item: Logged): LogRecord
    requires |item.frame| <= U32_MAX
  {
    FieldsAreInOrder(lengthTags, item.frame, 0, None, SOH);
    var fields := AllFields(lengthTags, item.frame, SOH);
    LogRecord(item.prefix, RawMessage(MessageOf(item), fields), Diagnosis(item.frame, fields, SOH, false))
  }

  function RecordsFor(lengthTags: seq<Tag>, given: Option<byte>, items: seq<Logged>): seq<LogRecord>
    requires AllReadable(given, items)
  {
    if items == [] then [] else [RecordFor(lengthTags, items[0])] + RecordsFor(lengthTags, given, items[1..])
  }

  /** Every encoded message is readable on a line of its own, in every form the start check detects. */
  lemma EncodedIsReadable(given: Option<byte>, begin: bytes, body: bytes, separator: Separator, lineBreak: bytes)
    requires StartsWith(begin, FIX) && |begin| <= 14 && (forall j :: 0 <= j < |begin| ==> IsValueByte(begin[j]))
    requires IsBody(body) && |body| < Pow10(Framing.MAX_BODY_LENGTH_DIGITS) && |Encode(begin, body)| <= MAX_MESSAGE_LEN
    requires IsDetected(separator, given) && IsLineBreak(lineBreak)
    requires FitsForm(Encode(begin, body), separator)
    ensures Readable(given, Logged([], Encode(begin, body), separator, lineBreak))
  {
    hide Framing.Scan, IsBody, Encode, Check, Pow10, WellFormed, BeginStringAt, Decimal, LoggedAs, FitsForm;
    var frame := Encode(begin, body);
    EncodedFrameScansBack(begin, body, [], U32_MAX);
    assert frame + [] == frame;
    EncodedOpens(begin, body);
    var digits := Decimal(|body|);
    var l := Layout(2 + |begin|, 5 + |begin| + |digits|, 6 + |begin| + |digits| + |body|);
    EncodedFrameIsWellFormed(begin, body, l);
    BeginStringIs(frame, l);
    FirstSohEndsBeginString(frame, 2 + |begin|);
    LoggedFrameStarts(frame, separator, given);
    assert [] + LoggedAs(frame, separator) == LoggedAs(frame, separator);
  }

  lemma BeginStringIs(s: bytes, l: Layout)
    requires WellFormed(s, l)
    ensures BeginStringAt(s, l.beginStringEnd)
  {
    hide BodyLengthAt, IsBody, ChecksumAt;
  }

  lemma EncodedOpens(begin: bytes, body: bytes)
    requires forall j :: 0 <= j < |begin| ==> IsValueByte(begin[j])
    ensures 2 + |begin| <= |Encode(begin, body)|
    ensures forall j :: 2 <= j < 2 + |begin| ==> IsValueByte(Encode(begin, body)[j])
  {
    hide Decimal, WrappingSum, ThreeDigitText;
  }

  /** The first message of a written log is found after its prefix. */
  lemma FirstIsFound(given: Option<byte>, item: Logged, rest: bytes)
    requires Readable(given, item)
    ensures var s := item.prefix + (LoggedFrame(item) + rest);
            && FindStart(s, 0, |s|, given, false) == Found(Start(|item.prefix|, item.separator))
            && s[|item.prefix|..] == LoggedFrame(item) + rest
            && Check(LoggedFrame(item) + rest, given) == IsStart(item.separator)
  {
    hide Check, FindStart, CheckFrame, Dead, LoggedAs, Loggable;
    var logged := LoggedFrame(item);
    var s, at := item.prefix + (logged + rest), |item.prefix|;
    Associates(item.prefix, logged, rest);
    forall q | 0 <= q < at ensures Dead(s, q, given) {
      DeadStays(item.prefix + logged, rest, q, given);
    }
    CheckStable(logged, rest, given);
    assert s[at..] == logged + rest;
    SkipDead(s, 0, at, |s|, given, false);
    FrameIsEligible(given, item, s);
    StartsHere(s, at, given, item.separator);
  }

  lemma StartIsEight(s: bytes, given: Option<byte>)
    requires Check(s, given).IsStart?
    ensures s != [] && s[0] == 56
  {
    hide CheckValue;
    assert s[..5][0] == s[0];
  }

  lemma FrameIsEligible(given: Option<byte>, item: Logged, s: bytes)
    requires Readable(given, item) && item.prefix + LoggedFrame(item) <= s
    ensures |item.prefix| < |s| && Eligible(s, |item.prefix|)
  {
    hide CheckFrame, Check, LoggedAs, Loggable, Dead;
    var at := |item.prefix|;
    StartIsEight(LoggedFrame(item), given);
    assert s[at] == (item.prefix + LoggedFrame(item))[at] == LoggedFrame(item)[0];
    if at > 0 { assert s[at - 1] == (item.prefix + LoggedFrame(item))[at - 1] == item.prefix[at - 1]; }
  }

  /** Logged in one byte for SOH, it ends by BodyLength at its last byte, with its line break. */
  lemma FirstEnds(given: Option<byte>, item: Logged, rest: bytes)
    requires Readable(given, item) && item.separator.Byte?
    ensures var len := |LoggedFrame(item)|;
            ByBodyLength(LoggedFrame(item) + (item.lineBreak + rest), item.separator.byte, false)
            == EndFound(End(len, len + |item.lineBreak|, false))
  {
    hide CheckFrame, ByBodyLength, Check, CanLog, Dead;
    if item.separator.byte == SOH {
      RenamedAsItself(item.frame);
      FrameThenBreak(item.frame, item.lineBreak, rest);
    } else {
      RenamedThenBreak(item.frame, item.separator.byte, item.lineBreak, rest, given);
    }
  }

  /** Logged with `^A`, it is copied from its line. */
  lemma FirstIsCopied(lengthTags: seq<Tag>, given: Option<byte>, item: Logged, rest: bytes)
    requires Readable(given, item) && item.separator.CaretA?
    ensures var s, len := LoggedFrame(item) + (item.lineBreak + rest), |LoggedFrame(item)|;
            && StartsWith(s, Framing.BEGIN_STRING_PREFIX)
            && CopiedMessage(lengthTags, s, false) == Some((End(len, len + |item.lineBreak|, false), item.frame))
  {
    hide CheckFrame, CopiedMessage, FirstLine, Shown, Check, HoldsNoCaretA, Dead;
    var line, s := Shown(item.frame), LoggedFrame(item) + (item.lineBreak + rest);
    CheckStable(line, item.lineBreak + rest, given);
    StartOpensLine(s, given);
    ShownHoldsNoBreak(item.frame);
    StrictFrameEndsWithSoh(item.frame);
    ShownEnds(item.frame);
    LineIsFirst(line, item.lineBreak, rest, false);
    assert line + [] == line;
    ShownFrameIsCopied(lengthTags, s, false, item.frame, [], |line| + |item.lineBreak|);
  }

  lemma StartOpensLine(s: bytes, given: Option<byte>)
    requires Check(s, given).IsStart?
    ensures StartsWith(s, Framing.BEGIN_STRING_PREFIX)
  {
    hide CheckValue;
  }

  lemma {:induction false} ShownHoldsNoBreak(message: bytes)
    requires LF !in message
    ensures LF !in Shown(message)
    decreases |message|
  {
    if message != [] { ShownHoldsNoBreak(message[1..]); }
  }

  lemma {:induction false} ShownEnds(message: bytes)
    requires message != [] && message[|message| - 1] == SOH
    ensures Shown(message) != [] && Shown(message)[|Shown(message)| - 1] == UPPER_A
    decreases |message|
  {
    if |message| == 1 {
      assert message[1..] == [];
    } else {
      ShownEnds(message[1..]);
    }
  }

  lemma FirstMessage(lengthTags: seq<Tag>, given: Option<byte>, item: Logged, rest: bytes)
    requires Readable(given, item)
    ensures var message, len := LoggedFrame(item) + (item.lineBreak + rest), |LoggedFrame(item)|;
            && Check(message, given) == IsStart(item.separator)
            && MessageAt(lengthTags, given, message, item.separator, false)
               == Some(FoundMessage(End(len, len + |item.lineBreak|, false), MessageOf(item), SeparatorOf(item)))
  {
    hide Check, CheckFrame, ByBodyLength, RightEnd, Opens, Dead, Walk, CopiedMessage, LoggedAs, Loggable;
    var logged := LoggedFrame(item);
    var message := logged + (item.lineBreak + rest);
    CheckStable(logged, item.lineBreak + rest, given);
    match item.separator
    case Byte(byte) =>
      FirstEnds(given, item, rest);
      StartOpens(message, given, byte);
      EndsAreRight(lengthTags, message, byte, given, false);
      assert message[..|logged|] == logged;
    case CaretA => FirstIsCopied(lengthTags, given, item, rest);
  }

  /** A step over a written log takes its first record, and leaves the rest. */
  lemma StepReadsFirst(lengthTags: seq<Tag>, given: Option<byte>, item: Logged, rest: bytes)
    requires Readable(given, item)
    ensures |item.frame| <= U32_MAX
    ensures var s := item.prefix + (LoggedFrame(item) + (item.lineBreak + rest));
            var step := ReadStep(lengthTags, given, LogState(s, 0, false), false);
            && step.state == LogState(rest, 0, false)
            && step.taken.Some? && step.taken.value.record == RecordFor(lengthTags, item)
  {
    hide Check, FindStart, Readable, MessageAt, ReadStep, RightEnd, Take, LoggedAs;
    FirstIsFound(given, item, item.lineBreak + rest);
    FirstMessage(lengthTags, given, item, rest);
    var s := item.prefix + (LoggedFrame(item) + (item.lineBreak + rest));
    TakesThere(lengthTags, given, LogState(s, 0, false), Start(|item.prefix|, item.separator));
    ReadableFits(given, item);
    TakesFirst(lengthTags, item, rest);
  }

  lemma ReadableFits(given: Option<byte>, item: Logged)
    requires Readable(given, item)
    ensures 1 <= |item.frame| <= MAX_MESSAGE_LEN && 1 <= |LoggedFrame(item)| && 1 <= |MessageOf(item)| <= MAX_MESSAGE_LEN
    ensures |item.prefix| <= MAX_PREFIX_LEN && IsLineBreak(item.lineBreak)
    ensures item.separator.Byte? && item.separator.byte != SOH ==> CanStandFor(item.frame, item.separator.byte)
  {
    hide CheckFrame, CheckValue, Dead, CanStandFor;
    StrictFrameEndsWithSoh(item.frame);
    StartIsEight(LoggedFrame(item), given);
  }

  /** In every form, the message has the frame's fields and diagnostics. */
  lemma FormKeepsDiagnosis(lengthTags: seq<Tag>, item: Logged)
    requires |item.frame| <= U32_MAX
    requires item.separator.Byte? && item.separator.byte != SOH ==> CanStandFor(item.frame, item.separator.byte)
    ensures |MessageOf(item)| <= U32_MAX && InOrder(item.frame, AllFields(lengthTags, item.frame, SOH))
    ensures var fields := AllFields(lengthTags, item.frame, SOH);
            && AllFields(lengthTags, MessageOf(item), SeparatorOf(item)) == fields
            && InOrder(MessageOf(item), fields)
            && Diagnosis(MessageOf(item), fields, SeparatorOf(item), false) == Diagnosis(item.frame, fields, SOH, false)
  {
    hide Diagnosis, Fields, CanStandFor;
    FieldsAreInOrder(lengthTags, item.frame, 0, None, SOH);
    FieldsAreInOrder(lengthTags, MessageOf(item), 0, None, SeparatorOf(item));
    RenamedAsItself(item.frame);
    if item.separator.Byte? && item.separator.byte != SOH {
      RenamingKeepsDiagnostics(lengthTags, item.frame, item.separator.byte, false);
    }
  }

  lemma TakesFirst(lengthTags: seq<Tag>, item: Logged, rest: bytes)
    requires 1 <= |LoggedFrame(item)| && |item.frame| <= MAX_MESSAGE_LEN && |MessageOf(item)| <= MAX_MESSAGE_LEN
    requires |item.prefix| <= MAX_PREFIX_LEN && IsLineBreak(item.lineBreak)
    requires item.separator.Byte? && item.separator.byte != SOH ==> CanStandFor(item.frame, item.separator.byte)
    ensures var s := item.prefix + (LoggedFrame(item) + (item.lineBreak + rest));
            var end := End(|LoggedFrame(item)|, |LoggedFrame(item)| + |item.lineBreak|, false);
            && RightEnd(s[|item.prefix|..], end)
            && var r := Take(lengthTags, LogState(s, 0, false), |item.prefix|, FoundMessage(end, MessageOf(item), SeparatorOf(item)));
            && r.state == LogState(rest, 0, false) && r.taken.Some? && r.taken.value.record == RecordFor(lengthTags, item)
  {
    hide Diagnosis, Fields, CanStandFor, LoggedAs;
    var logged := LoggedFrame(item);
    var message := logged + (item.lineBreak + rest);
    var s := item.prefix + message;
    assert s[|item.prefix|..] == message && s[..|item.prefix|] == item.prefix;
    assert message[|logged|..|logged| + |item.lineBreak|] == item.lineBreak;
    assert message[|logged| + |item.lineBreak|..] == rest;
    FormKeepsDiagnosis(lengthTags, item);
    NothingBefore(Diagnosis(item.frame, AllFields(lengthTags, item.frame, SOH), SOH, false));
  }

  lemma NothingBefore(diagnostics: seq<LogDiagnostic>)
    ensures [] + diagnostics == diagnostics
  {
  }

  /** Reading a whole written log gives its records, and nothing is left. */
  lemma {:induction false} WrittenDrains(lengthTags: seq<Tag>, given: Option<byte>, before: seq<LogRecord>, items: seq<Logged>)
    requires AllReadable(given, items)
    ensures Drain(lengthTags, given, LogReading(before, LogState(Written(items), 0, false)))
         == LogReading(before + RecordsFor(lengthTags, given, items), START)
    decreases |items|
  {
    hide ReadStep, Readable, LoggedAs;
    if items == [] {
      NothingIsWritten(lengthTags, given, before);
    } else {
      StepReadsFirst(lengthTags, given, items[0], Written(items[1..]));
      DrainUnfolds(lengthTags, given, LogReading(before, LogState(Written(items), 0, false)));
      hide Drain;
      WrittenDrains(lengthTags, given, before + [RecordFor(lengthTags, items[0])], items[1..]);
      Associates(before, [RecordFor(lengthTags, items[0])], RecordsFor(lengthTags, given, items[1..]));
    }
  }

  lemma NothingIsWritten(lengthTags: seq<Tag>, given: Option<byte>, before: seq<LogRecord>)
    ensures Drain(lengthTags, given, LogReading(before, START)) == LogReading(before, START) && before + [] == before
  {
  }

  /** And how it is fed does not matter. */
  lemma {:induction false} WrittenIsUnaffected(lengthTags: seq<Tag>, given: Option<byte>, items: seq<Logged>, arrived: nat)
    requires AllReadable(given, items)
    ensures !FeedingMatters(lengthTags, given, LogState(Written(items), 0, false), arrived)
    decreases |items|
  {
    hide ReadStep, Readable, NextHidesBreak, LoggedAs;
    var s := LogState(Written(items), 0, false);
    forall cut | arrived <= cut <= |s.buf| ensures !MattersAt(lengthTags, given, s, cut) {
      StepConservesBytes(lengthTags, given, s, false);
      if items == [] {
        NothingHidden(lengthTags, given, cut);
      } else {
        var rest := Written(items[1..]);
        FirstHidesNothing(lengthTags, given, items[0], rest, cut);
        StepReadsFirst(lengthTags, given, items[0], rest);
        if |s.buf| - |rest| <= cut {
          WrittenIsUnaffected(lengthTags, given, items[1..], cut - (|s.buf| - |rest|));
        }
      }
    }
  }

  lemma NothingHidden(lengthTags: seq<Tag>, given: Option<byte>, cut: nat)
    requires cut == 0
    ensures !NextHidesBreak(lengthTags, given, START, cut) && ReadStep(lengthTags, given, START, false).taken.None?
  {
  }

  lemma FirstHidesNothing(lengthTags: seq<Tag>, given: Option<byte>, item: Logged, rest: bytes, cut: nat)
    requires Readable(given, item) && cut <= |item.prefix + (LoggedFrame(item) + (item.lineBreak + rest))|
    ensures !NextHidesBreak(lengthTags, given, LogState(item.prefix + (LoggedFrame(item) + (item.lineBreak + rest)), 0, false), cut)
  {
    hide Check, FindStart, CheckFrame, ByBodyLength, Opens, BreakHidden, Dead, LoggedAs, Loggable, Readable, MessageHidesBreak;
    var message := LoggedFrame(item) + (item.lineBreak + rest);
    FirstIsFound(given, item, item.lineBreak + rest);
    if |item.prefix| <= cut && item.separator.Byte? {
      FirstEnds(given, item, rest);
      EndedHidesNothing(lengthTags, given, message, item.separator.byte, cut - |item.prefix|);
    }
  }

  /** A message that BodyLength ends hides no line break. */
  lemma EndedHidesNothing(lengthTags: seq<Tag>, given: Option<byte>, s: bytes, separator: byte, cut: nat)
    requires cut <= |s| && ByBodyLength(s, separator, false).EndFound?
    ensures !MessageHidesBreak(lengthTags, given, s, separator, cut)
  {
    hide Check, ByBodyLength, Opens, BreakHidden;
    if MessageHidesBreak(lengthTags, given, s, separator, cut) {
      assert s[..cut] + s[cut..] == s;
      ByBodyLengthStable(s[..cut], s[cut..], given, separator);
    }
  }

  /**
   * However a log written as readable frames is fed, its records are those frames with the text
   * before them, and nothing is left over.
   */
  lemma WrittenReadsBack(lengthTags: seq<Tag>, given: Option<byte>, items: seq<Logged>, chunks: seq<bytes>)
    requires AllReadable(given, items) && Joined(chunks) == Written(items)
    ensures ReadChunks(lengthTags, given, LogReading([], START), chunks) == LogReading(RecordsFor(lengthTags, given, items), START)
  {
    hide Drain, ReadChunks, FeedingMatters, AllReadable;
    assert [] + Written(items) == Written(items);
    WrittenIsUnaffected(lengthTags, given, items, 0);
    ChunksReadAsWhole(lengthTags, given, chunks);
    WrittenDrains(lengthTags, given, [], items);
    assert [] + RecordsFor(lengthTags, given, items) == RecordsFor(lengthTags, given, items);
  }

  /** With no length field just before CheckSum, nothing is diagnosed about them either. */
  lemma WrittenIsClean(lengthTags: seq<Tag>, given: Option<byte>, item: Logged)
    requires Readable(given, item)
    requires var fields := AllFields(lengthTags, item.frame, SOH);
             |fields| > 1 ==> fields[|fields| - 2].tag !in lengthTags
    ensures RecordFor(lengthTags, item).diagnostics == []
  {
    hide Check, CheckFrame, Dead, Fields, Diagnosis, LoggedAs;
    StrictDiagnosis.WithoutDataStrictFramesAreClean(lengthTags, item.frame);
  }
}
