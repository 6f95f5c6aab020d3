/** A log that reads differently fed in two pieces than fed whole. */
module FeedingExample {
  import opened Wrappers
  import opened Bytes
  import opened Tags
  import opened Sequences
  import Framing
  import opened Tokenizer
  import opened LogStart
  import opened LogEnd
  import opened LogEndLaws
  import opened LogReader
  import opened LogReaderLaws

  /** `8=FIX|95=10|`: a message that declares ten bytes of data, with no BodyLength. */
  const HEAD: bytes := [56, 61, 70, 73, 88, 124, 57, 53, 61, 49, 48, 124]
  /** `abc` and a line break: the first four bytes of the data. */
  const DATA_CUT: bytes := [97, 98, 99, 10]
  /** `defghi|`: the other six, and the separator after them. */
  const DATA_REST: bytes := [100, 101, 102, 103, 104, 105, 124]
  const BAR: byte := 124
  /** 95 is a length tag. */
  const LENGTH_TAGS: seq<Tag> := [95]

  lemma {:induction false} NoEightNoStart(s: bytes, from: nat, until: nat, given: Option<byte>, atEnd: bool)
    requires until <= |s| && forall j :: from <= j < until ==> s[j] != 56
    ensures FindStart(s, from, until, given, atEnd) == NoStart
    decreases until - from
  {
    hide Check;
    if from < until { NoEightNoStart(s, from + 1, until, given, atEnd); }
  }

  lemma ShortDecimals()
    ensures ParseU32([56]) == Some(8) && ParseU32([57, 53]) == Some(95) && ParseU32([49, 48]) == Some(10)
  {
    assert [56][..0] == [] && [57, 53][..1] == [57] && [57][..0] == [] && [49, 48][..1] == [49] && [49][..0] == [];
    assert CheckedFold([57], U32_MAX) == Some(9) && CheckedFold([49], U32_MAX) == Some(1);
  }

  /** Bytes that open with the head, and are all of a message so far. */
  predicate Opened(s: bytes, atEnd: bool) {
    && HEAD <= s && |HEAD| < |s| < MAX_MESSAGE_LEN && Capped(s, atEnd) == s
  }

  lemma OpenedIs(s: bytes, atEnd: bool)
    requires HEAD <= s && |HEAD| < |s| < MAX_MESSAGE_LEN && s[|s| - 1] != CR
    ensures Opened(s, atEnd)
  {
    assert s[..|s|] == s;
  }

  lemma HeadBytes(s: bytes)
    requires HEAD <= s
    ensures s[0] == 56 && s[1] == EQUALS && s[2] == 70 && s[3] == 73 && s[4] == 88 && s[5] == BAR
    ensures s[6] == 57 && s[7] == 53 && s[8] == EQUALS && s[9] == 49 && s[10] == 48 && s[11] == BAR
  {
  }

  lemma HeadOpens(s: bytes)
    requires HEAD <= s
    ensures Opens(s, BAR)
  {
    assert s[..5] == HEAD[..5] == Framing.BEGIN_STRING_PREFIX;
  }

  /** The reader takes the head for a message start, with `|` as separator. */
  lemma HeadStarts(s: bytes, atEnd: bool)
    requires HEAD <= s
    ensures Check(s, None) == IsStart(Byte(BAR))
    ensures FindStart(s, 0, |s|, None, atEnd) == Found(Start(0, Byte(BAR)))
  {
    HeadBytes(s);
    assert s[..5] == HEAD[..5] == Framing.BEGIN_STRING_PREFIX;
    assert ValueRun(s, 5, Framing.MAX_BEGIN_STRING_LEN) == 0;
    TagIsThere(s);
    hide CheckTag, ValueRun;
    assert CheckAfterValue(s, 5, None) == IsStart(Byte(BAR));
    assert s[0..] == s;
    hide Check;
    FoundAtOnce(s, atEnd);
  }

  lemma TagIsThere(s: bytes)
    requires HEAD <= s
    ensures CheckTag(s, 6, Byte(BAR)) == IsStart(Byte(BAR))
  {
    HeadBytes(s);
    assert DigitRun(s, 8, MAX_TAG_DIGITS - 1) == 0;
    assert DigitRun(s, 7, MAX_TAG_DIGITS) == 1;
    assert DigitRun(s, 6, MAX_TAG_DIGITS + 1) == 2;
  }

  lemma FoundAtOnce(s: bytes, atEnd: bool)
    requires s != [] && s[0] == 56 && s[0..] == s && Check(s, None) == IsStart(Byte(BAR))
    ensures FindStart(s, 0, |s|, None, atEnd) == Found(Start(0, Byte(BAR)))
  {
    hide Check;
  }

  lemma HeadFields(s: bytes)
    requires HEAD <= s && |s| <= U32_MAX
    ensures NextField(s, 0, None, BAR) == Some((RawField(8, 2, 5), 6)) && PendingDataLen(LENGTH_TAGS, s, RawField(8, 2, 5)) == None
    ensures NextField(s, 6, None, BAR) == Some((RawField(95, 9, 11), 12)) && PendingDataLen(LENGTH_TAGS, s, RawField(95, 9, 11)) == Some(10)
    ensures forall j :: 1 <= j < |HEAD| ==> s[j] != LF && s[j] != 56
  {
    ShortDecimals();
    hide ParseU32;
    HeadBytes(s);
    FirstTagEndAt(s, 0, BAR, Equals(1));
    FirstTagEndAt(s, 6, BAR, Equals(8));
    FirstByteAt(s, BAR, 2, |s|, 5);
    FirstByteAt(s, BAR, 9, |s|, 11);
    assert s[0..1] == [56] && s[6..8] == [57, 53] && s[9..11] == [49, 48];
  }

  /** A step over a field that holds no start and no line break, and is not the last. */
  lemma PlainStep(s: bytes, atEnd: bool, pos: nat, dataLen: Option<nat>)
    requires Opens(s, BAR) && Capped(s, atEnd) == s && pos <= |s| < MAX_MESSAGE_LEN
    requires NextField(s, pos, dataLen, BAR).Some?
    requires var (field, _) := NextField(s, pos, dataLen, BAR).value;
             && field.valueEnd < |s| && field.tag != CHECKSUM
             && (dataLen.Some? ==> field.valueStart + dataLen.value < |s|)
             && var from, checkedEnd := if pos == 0 then 1 else pos, CheckedEnd(s, pos, NextField(s, pos, dataLen, BAR), dataLen);
             from <= checkedEnd <= |s| && forall j :: from <= j < checkedEnd ==> s[j] != LF && s[j] != 56
    ensures var (field, after) := NextField(s, pos, dataLen, BAR).value;
            StepWalk(LENGTH_TAGS, s, BAR, None, atEnd, pos, dataLen) == GoOn(after, PendingDataLen(LENGTH_TAGS, s, field))
  {
    hide NextField, FindStart, Opens, PendingDataLen, Capped;
    var from, checkedEnd := if pos == 0 then 1 else pos, CheckedEnd(s, pos, NextField(s, pos, dataLen, BAR), dataLen);
    assert FindByte(s, LF, from, checkedEnd) == None;
    NoEightNoStart(s, from, checkedEnd, None, atEnd);
  }

  /** The walk passes over the two fields of the head. */
  lemma WalkPassesHead(s: bytes, atEnd: bool)
    requires Opened(s, atEnd) && Opens(s, BAR)
    ensures Walk(LENGTH_TAGS, s, BAR, None, atEnd, 0, None) == Walk(LENGTH_TAGS, s, BAR, None, atEnd, |HEAD|, Some(10))
  {
    hide Walk, StepWalk, FindStart, Opens, Capped, NextField, PendingDataLen;
    HeadFields(s);
    PlainStep(s, atEnd, 0, None);
    PlainStep(s, atEnd, 6, None);
    WalkUnfolds(LENGTH_TAGS, s, BAR, None, atEnd, 0, None);
    WalkUnfolds(LENGTH_TAGS, s, BAR, None, atEnd, 6, None);
  }

  lemma HeadClaimsNothing(s: bytes, atEnd: bool)
    requires Opened(s, atEnd)
    ensures ByBodyLength(s, BAR, atEnd) == NoEnd
  {
    hide Capped;
    HeadBytes(s);
    FirstByteAt(s, BAR, 0, |s|, 5);
    assert s[6..][..2] == [57, 53];
  }

  lemma CutDataEnds(s: bytes)
    requires s == HEAD + DATA_CUT && Opened(s, false) && Opens(s, BAR)
    ensures Walk(LENGTH_TAGS, s, BAR, None, false, |HEAD|, Some(10)) == Some(End(15, 16, true))
  {
    hide Opens, Capped;
    assert FindTagEnd(s, 12, BAR) == None;
    assert NextField(s, 12, Some(10), BAR) == None;
    assert FindByte(s, LF, 12, 16) == Some(15);
    NoEightNoStart(s, 12, 15, None, false);
    assert StepWalk(LENGTH_TAGS, s, BAR, None, false, 12, Some(10)) == Over(Some(End(15, 16, true))) by { hide NextField, FindStart, FindByte; }
  }

  /** With all the data there, the walk passes over it, and ends only at the end of the input. */
  lemma WholeDataIsPassed(s: bytes, atEnd: bool)
    requires s == HEAD + DATA_CUT + DATA_REST && Opened(s, atEnd) && Opens(s, BAR)
    ensures Walk(LENGTH_TAGS, s, BAR, None, atEnd, |HEAD|, Some(10)) == if atEnd then Some(End(23, 23, true)) else None
  {
    hide Opens, Walk, StepWalk, Capped;
    forall j | 12 <= j < 22 ensures s[j] != EQUALS && s[j] != BAR {
      assert s[j] == (DATA_CUT + DATA_REST)[j - 12];
    }
    FirstTagEndAt(s, 12, BAR, Separator(22));
    assert NextField(s, 12, Some(10), BAR) == Some((RawField(MALFORMED, 12, 22), 23));
    PlainStep(s, atEnd, 12, Some(10));
    WalkUnfolds(LENGTH_TAGS, s, BAR, None, atEnd, 12, Some(10));
    WalkUnfolds(LENGTH_TAGS, s, BAR, None, atEnd, 23, None);
    NothingLeft(s, atEnd);
  }

  lemma NothingLeft(s: bytes, atEnd: bool)
    requires Opens(s, BAR) && Capped(s, atEnd) == s && 1 < |s| < MAX_MESSAGE_LEN
    ensures StepWalk(LENGTH_TAGS, s, BAR, None, atEnd, |s|, None) == Over(if atEnd then Some(End(|s|, |s|, true)) else None)
  {
    hide Capped;
    assert NextField(s, |s|, None, BAR) == None;
    assert FindByte(s, LF, |s|, |s|) == None;
  }

  /** Where the message ends: at the line break with part of its data, and after all of it with all. */
  lemma EndsDependOnFeeding()
    ensures var s := HEAD + DATA_CUT;
            && Opens(s, BAR) && Opens(s + DATA_REST, BAR)
            && FindEnd(LENGTH_TAGS, s, BAR, None, false) == Some(End(15, 16, true))
            && FindEnd(LENGTH_TAGS, s + DATA_REST, BAR, None, false) == None
            && FindEnd(LENGTH_TAGS, s + DATA_REST, BAR, None, true) == Some(End(23, 23, true))
  {
    hide Walk, Opens, ByBodyLength, Capped;
    var s := HEAD + DATA_CUT;
    var t := s + DATA_REST;
    HeadOpens(s);
    HeadOpens(t);
    OpenedIs(s, false);
    HeadClaimsNothing(s, false);
    WalkPassesHead(s, false);
    CutDataEnds(s);
    forall atEnd: bool ensures FindEnd(LENGTH_TAGS, t, BAR, None, atEnd) == if atEnd then Some(End(23, 23, true)) else None {
      OpenedIs(t, atEnd);
      HeadClaimsNothing(t, atEnd);
      WalkPassesHead(t, atEnd);
      WholeDataIsPassed(t, atEnd);
    }
  }

  /** What has been read before a feed is not read again. */
  lemma FirstRecordStays(lengthTags: seq<Tag>, given: Option<byte>, s: bytes, rest: bytes)
    requires var drained := Drain(lengthTags, given, LogReading([], Fed(START, s))); drained.records != []
    ensures var drained := Drain(lengthTags, given, LogReading([], Fed(START, s)));
            var records := AllRecords(lengthTags, given, ReadChunks(lengthTags, given, LogReading([], START), [s, rest]));
            records != [] && records[0] == drained.records[0]
  {
    hide ReadStep, Drain;
    var drained := Drain(lengthTags, given, LogReading([], Fed(START, s)));
    assert [s, rest] == [s] + [rest];
    ReadChunksThen(lengthTags, given, LogReading([], START), s, [rest]);
    assert [rest] == [rest] + [];
    ReadChunksThen(lengthTags, given, drained, rest, []);
    DrainKeepsRecords(lengthTags, given, LogReading(drained.records, Fed(drained.state, rest)));
  }

  /** Fed in two pieces, the message is read at the line break. */
  lemma PiecesReadEarly()
    ensures var records := AllRecords(LENGTH_TAGS, None, ReadChunks(LENGTH_TAGS, None, LogReading([], START), [HEAD + DATA_CUT, DATA_REST]));
            records != [] && |records[0].message.bytes| == 15
  {
    hide FindEnd, ReadStep, Drain, FindStart, Check, RightEnd, Opens, AllRecords, ReadChunks;
    var s := HEAD + DATA_CUT;
    EndsDependOnFeeding();
    HeadStarts(s, false);
    assert s[0..] == s && [] + s == s;
    var fed := LogReading([], Fed(START, s));
    TakesThere(LENGTH_TAGS, None, fed.state, Start(0, Byte(BAR)));
    EndsAreRight(LENGTH_TAGS, s, BAR, None, false);
    var found := MessageAt(LENGTH_TAGS, None, s, Byte(BAR), false).value;
    TakenHolds(LENGTH_TAGS, fed.state, 0, found);
    TakenIsRead(LENGTH_TAGS, None, fed);
    FirstRecordStays(LENGTH_TAGS, None, s, DATA_REST);
  }

  /** Fed whole, it is read with all its data. */
  lemma WholeReadsAll()
    ensures var records := AllRecords(LENGTH_TAGS, None, ReadChunks(LENGTH_TAGS, None, LogReading([], START), [HEAD + DATA_CUT + DATA_REST]));
            records != [] && |records[0].message.bytes| == 23
  {
    hide FindEnd, ReadStep, Drain, FindStart, Check, RightEnd, Opens, Remaining;
    var t := HEAD + DATA_CUT + DATA_REST;
    EndsDependOnFeeding();
    HeadStarts(t, false);
    HeadStarts(t, true);
    assert t[0..] == t && [] + t == t;
    var fed := LogReading([], Fed(START, t));
    WaitsThere(LENGTH_TAGS, None, fed.state);
    DrainUnfolds(LENGTH_TAGS, None, fed);
    assert [t] == [t] + [];
    ReadChunksThen(LENGTH_TAGS, None, LogReading([], START), t, []);
    RemainingUnfolds(LENGTH_TAGS, None, fed.state);
    EndsAreRight(LENGTH_TAGS, t, BAR, None, true);
    TakesAtEnd(LENGTH_TAGS, None, fed.state, Start(0, Byte(BAR)));
    TakenHolds(LENGTH_TAGS, fed.state, 0, MessageAt(LENGTH_TAGS, None, t, Byte(BAR), true).value);
  }

  lemma TakesAtEnd(lengthTags: seq<Tag>, given: Option<byte>, s: LogState, start: Start)
    requires Sound(s) && FindStart(s.buf, s.searched, |s.buf|, given, true) == Found(start)
    ensures var message := MessageAt(lengthTags, given, s.buf[start.at..], start.separator, true).value;
            ReadStep(lengthTags, given, s, true) == Take(lengthTags, s, start.at, message)
  {
    hide FindStart, MessageAt, Check, RightEnd, Take;
  }

  /**
   * A log whose records depend on how it is fed: a message without BodyLength, with a line break
   * in the data that its length field declares.
   */
  lemma RecordsDependOnFeeding()
    ensures var s, rest := HEAD + DATA_CUT, DATA_REST;
            && Joined([s, rest]) == Joined([s + rest])
            && AllRecords(LENGTH_TAGS, None, ReadChunks(LENGTH_TAGS, None, LogReading([], START), [s, rest]))
               != AllRecords(LENGTH_TAGS, None, ReadChunks(LENGTH_TAGS, None, LogReading([], START), [s + rest]))
            && FeedingMatters(LENGTH_TAGS, None, Whole(s + rest).state, 0)
  {
    hide AllRecords, ReadChunks, FeedingMatters;
    var s, rest := HEAD + DATA_CUT, DATA_REST;
    PiecesReadEarly();
    WholeReadsAll();
    JoinedOne(s + rest);
    JoinedOne(rest);
    JoinedThen(s, [rest]);
    assert [s, rest] == [s] + [rest];
    if !FeedingMatters(LENGTH_TAGS, None, Whole(s + rest).state, 0) {
      ChunksReadAsWhole(LENGTH_TAGS, None, [s, rest]);
      ChunksReadAsWhole(LENGTH_TAGS, None, [s + rest]);
      assert false;
    }
  }
}
