/** What the log reader diagnoses about frames the strict scanner accepts. */
module StrictDiagnosis {
  import opened Wrappers
  import opened Bytes
  import Sequences
  import opened Tags
  import Framing
  import opened FrameFormat
  import opened Messages
  import opened Tokenizer
  import opened TokenizerLaws
  import opened LogReader
  import LogReaderLaws

  /** A field of a known tag text that a SOH ends, read with no length declared for it. */
  lemma PlainField(s: bytes, tag: bytes, from: nat, until: nat)
    requires |s| <= U32_MAX && tag != [] && AllDigits(tag) && FieldAt(s, tag + [EQUALS], from, until)
    ensures NextField(s, from, None, SOH) == Some((RawField(TagOf(tag), from + |tag| + 1, until), until + 1))
  {
    TagIsRead(s, tag, from);
    var start := from + |tag| + 1;
    forall j | start <= j < until ensures s[j] != SOH {
      assert s[j] == s[start..until][j - start];
    }
    assert FindByte(s, SOH, start, |s|) == Some(until);
    hide FindTagEnd, TagOf;
  }

  lemma TagIsRead(s: bytes, tag: bytes, from: nat)
    requires tag != [] && AllDigits(tag) && from + |tag| < |s| && s[from..from + |tag| + 1] == tag + [EQUALS]
    ensures FindTagEnd(s, from, SOH) == Some(Equals(from + |tag|)) && s[from..from + |tag|] == tag
  {
    forall j | from <= j < from + |tag| ensures s[j] == tag[j - from] && s[j] != EQUALS && s[j] != SOH {
      assert s[j] == s[from..from + |tag| + 1][j - from];
      assert IsDigit(tag[j - from]);
    }
    assert s[from + |tag|] == s[from..from + |tag| + 1][|tag|] == EQUALS;
  }

  lemma HeaderTags()
    ensures TagOf([56]) == 8 && TagOf([57]) == BODY_LENGTH && TagOf([51, 53]) == MSG_TYPE
  {
    assert [56][..0] == [] && [57][..0] == [] && [51, 53][..1] == [51] && [51][..0] == [];
    assert CheckedFold([51], U32_MAX) == Some(3);
  }

  /** An accepted frame's first three fields are BeginString, BodyLength and MsgType, whatever the length tags. */
  lemma HeaderFields(lengthTags: seq<Tag>, s: bytes, l: Layout)
    requires |s| <= U32_MAX && WellFormed(s, l)
    ensures var fields := AllFields(lengthTags, s, SOH);
            && |fields| >= 3
            && fields[1] == RawField(BODY_LENGTH, l.beginStringEnd + 3, l.bodyLengthEnd)
            && fields[2].tag == MSG_TYPE
  {
    hide WellFormed, PendingDataLen, NextField, Fields, BeginStringAt, BodyLengthAt, TagOf, ParseU32;
    HeaderTags();
    BeginStringIsRead(lengthTags, s, l);
    BodyLengthIsRead(s, l);
    MsgTypeIsRead(s, l, PendingDataLen(lengthTags, s, RawField(BODY_LENGTH, l.beginStringEnd + 3, l.bodyLengthEnd)));
    FieldsThen(lengthTags, s, 0, None, SOH);
    FieldsThen(lengthTags, s, l.beginStringEnd + 1, None, SOH);
    FieldsThen(lengthTags, s, l.bodyLengthEnd + 1, PendingDataLen(lengthTags, s, RawField(BODY_LENGTH, l.beginStringEnd + 3, l.bodyLengthEnd)), SOH);
  }

  lemma BeginStringIsRead(lengthTags: seq<Tag>, s: bytes, l: Layout)
    requires |s| <= U32_MAX && WellFormed(s, l)
    ensures 2 <= l.beginStringEnd <= |s|
    ensures NextField(s, 0, None, SOH) == Some((RawField(8, 2, l.beginStringEnd), l.beginStringEnd + 1))
    ensures PendingDataLen(lengthTags, s, RawField(8, 2, l.beginStringEnd)) == None
  {
    hide NextField, BodyLengthAt, IsBody, ChecksumAt, TagOf;
    HeaderTags();
    assert [56] + [EQUALS] == BEGIN_STRING_TAG;
    PlainField(s, [56], 0, l.beginStringEnd);
    assert s[2] == 70 by { assert s[..5][2] == 70; }
    FixIsNoNumber(s, l.beginStringEnd);
  }

  lemma FixIsNoNumber(s: bytes, until: nat)
    requires 2 <= until <= |s| && (until > 2 ==> s[2] == 70)
    ensures ParseU32(s[2..until]) == None
  {
    if until > 2 { assert s[2..until][0] == 70; }
  }

  lemma BodyLengthIsRead(s: bytes, l: Layout)
    requires |s| <= U32_MAX && WellFormed(s, l)
    ensures l.beginStringEnd + 3 <= l.bodyLengthEnd < |s|
    ensures NextField(s, l.beginStringEnd + 1, None, SOH) ==
            Some((RawField(BODY_LENGTH, l.beginStringEnd + 3, l.bodyLengthEnd), l.bodyLengthEnd + 1))
  {
    hide NextField, BeginStringAt, IsBody, ChecksumAt, TagOf;
    HeaderTags();
    assert [57] + [EQUALS] == Framing.BODY_LENGTH_TAG;
    PlainField(s, [57], l.beginStringEnd + 1, l.bodyLengthEnd);
  }

  lemma MsgTypeIsRead(s: bytes, l: Layout, dataLen: Option<nat>)
    requires |s| <= U32_MAX && WellFormed(s, l)
    ensures NextField(s, l.bodyLengthEnd + 1, dataLen, SOH).Some? && NextField(s, l.bodyLengthEnd + 1, dataLen, SOH).value.0.tag == MSG_TYPE
  {
    hide BeginStringAt, BodyLengthAt, ChecksumAt, TagOf, ValueEnd;
    HeaderTags();
    var from := l.bodyLengthEnd + 1;
    var body := s[from..l.bodyEnd];
    assert s[from..from + 3] == body[..3] == [51, 53] + [EQUALS];
    TagIsRead(s, [51, 53], from);
  }

  /** The header of an accepted frame is never diagnosed, and BodyLength declares where its CheckSum starts. */
  lemma HeaderIsClean(lengthTags: seq<Tag>, s: bytes, l: Layout)
    requires |s| <= U32_MAX && WellFormed(s, l) && InOrder(s, AllFields(lengthTags, s, SOH))
    ensures var fields := AllFields(lengthTags, s, SOH);
            && HeaderDiagnostics(s, fields) == []
            && DeclaredLength(s, fields) == Some(l.bodyEnd - (l.bodyLengthEnd + 1))
  {
    hide Fields, BeginStringAt, IsBody, ChecksumAt, DigitsValue;
    HeaderFields(lengthTags, s, l);
    var digits := s[l.beginStringEnd + 3..l.bodyLengthEnd];
    assert digits == s[l.beginStringEnd + 1 + 2..l.bodyLengthEnd];
    CheckedFoldIsValue(digits, U32_MAX);
  }

  /** A last field that starts where the CheckSum field does is the CheckSum field, and is right. */
  lemma TrailerIsClean(s: bytes, l: Layout, fields: seq<RawField>, pending: Option<nat>)
    requires |s| <= U32_MAX && WellFormed(s, l) && InOrder(s, fields) && fields != []
    requires TrailerStart(fields) == l.bodyEnd && DeclaredLength(s, fields) == Some(l.bodyEnd - (l.bodyLengthEnd + 1))
    requires |fields| > 1 && fields[1].valueEnd == l.bodyLengthEnd
    requires RunAt(s, l.bodyEnd, fields[|fields| - 1], pending, SOH) && fields[|fields| - 1].valueEnd == |s| - 1
    ensures TrailerDiagnostics(s, fields, SOH) == []
  {
    hide BeginStringAt, BodyLengthAt, IsBody, TagOf;
    var last, at := fields[|fields| - 1], l.bodyEnd;
    assert s[at..at + 3] == Framing.CHECKSUM_TAG;
    assert s[at] == 49 && s[at + 1] == 48 && s[at + 2] == EQUALS;
    assert last.valueStart == at + 3;
    var digits := s[at + 3..at + 6];
    assert ValueOf(s, last) == digits;
    StatedIsCalculated(s, at, digits);
    hide CalculatedChecksum, ParseU32;
  }

  lemma StatedIsCalculated(s: bytes, at: nat, digits: bytes)
    requires at <= |s| && |digits| == 3 && AllDigits(digits) && DigitsValue(digits) == Sum(s[..at]) % 0x100
    ensures ParseU32(digits) == Some(CalculatedChecksum(s[..at], SOH))
  {
    WrappingSumIsSumMod256(s[..at]);
    LogReaderLaws.SohChecksumIsStrict(s[..at]);
    CheckedFoldIsValue(digits, U32_MAX);
  }

  /**
   * Nothing is diagnosed about a frame the strict scanner accepts exactly when its last field is
   * read where BodyLength puts CheckSum, which a data value reaching over it can prevent.
   */
  lemma StrictFramesAreClean(lengthTags: seq<Tag>, s: bytes) returns (l: Layout)
    requires CheckFrame(s) == None
    ensures WellFormed(s, l) && |s| <= U32_MAX
    ensures var fields := AllFields(lengthTags, s, SOH);
            && fields != [] && InOrder(s, fields)
            && (Diagnosis(s, fields, SOH, false) == [] <==> TrailerStart(fields) == l.bodyEnd)
            && (TrailerStart(fields) != l.bodyEnd ==> BodyLengthMismatch in Diagnosis(s, fields, SOH, false))
  {
    hide CheckFrame, Fields, WellFormed, RunIsRight, RunAt, DeclaredLength;
    CheckedFrameFits(s);
    l := AcceptedFrameIsWellFormed(s, U32_MAX);
    FieldsAreInOrder(lengthTags, s, 0, None, SOH);
    var fields := AllFields(lengthTags, s, SOH);
    HeaderFields(lengthTags, s, l);
    HeaderIsClean(lengthTags, s, l);
    if TrailerStart(fields) == l.bodyEnd {
      LastRun(lengthTags, s);
      TrailerIsClean(s, l, fields, PendingDataLen(lengthTags, s, fields[|fields| - 2]));
    } else {
      MismatchIsDiagnosed(s, fields, l.bodyEnd);
    }
  }

  lemma MismatchIsDiagnosed(s: bytes, fields: seq<RawField>, bodyEnd: nat)
    requires InOrder(s, fields) && |fields| > 1 && DeclaredLength(s, fields).Some?
    requires fields[1].valueEnd + 1 + DeclaredLength(s, fields).value == bodyEnd != TrailerStart(fields)
    ensures BodyLengthMismatch in TrailerDiagnostics(s, fields, SOH)
  {
    hide DeclaredLength, CalculatedChecksum, ParseU32;
  }

  lemma LastRun(lengthTags: seq<Tag>, s: bytes)
    requires CheckFrame(s) == None && |s| <= U32_MAX && |AllFields(lengthTags, s, SOH)| > 1
    ensures var fields := AllFields(lengthTags, s, SOH);
            && fields[|fields| - 2].valueStart <= fields[|fields| - 2].valueEnd <= |s|
            && RunAt(s, TrailerStart(fields), fields[|fields| - 1], PendingDataLen(lengthTags, s, fields[|fields| - 2]), SOH)
            && fields[|fields| - 1].valueEnd == |s| - 1
  {
    hide CheckFrame, AllFields, Fields, RunAt, PendingDataLen;
    AcceptedFrameIsTiled(lengthTags, s);
    var fields := AllFields(lengthTags, s, SOH);
    assert RunIsRight(lengthTags, s, fields, |fields| - 1, SOH);
  }

  /** With no length tag before the last field, nothing is diagnosed about a frame the strict scanner accepts. */
  lemma WithoutDataStrictFramesAreClean(lengthTags: seq<Tag>, s: bytes)
    requires CheckFrame(s) == None && |s| <= U32_MAX
    requires var fields := AllFields(lengthTags, s, SOH);
             |fields| > 1 ==> fields[|fields| - 2].tag !in lengthTags
    ensures InOrder(s, AllFields(lengthTags, s, SOH)) && Diagnosis(s, AllFields(lengthTags, s, SOH), SOH, false) == []
  {
    hide CheckFrame, Fields, WellFormed, RunAt, Diagnosis;
    var l := StrictFramesAreClean(lengthTags, s);
    HeaderFields(lengthTags, s, l);
    LastRun(lengthTags, s);
    var fields := AllFields(lengthTags, s, SOH);
    PreviousEndsInSoh(lengthTags, s);
    TrailerIsLastRun(s, l, TrailerStart(fields), fields[|fields| - 1]);
  }

  lemma PreviousEndsInSoh(lengthTags: seq<Tag>, s: bytes)
    requires CheckFrame(s) == None && |s| <= U32_MAX && |AllFields(lengthTags, s, SOH)| > 2
    ensures var start := TrailerStart(AllFields(lengthTags, s, SOH)); 1 <= start <= |s| && s[start - 1] == SOH
  {
    hide CheckFrame, Fields;
    AcceptedFrameIsTiled(lengthTags, s);
    var fields := AllFields(lengthTags, s, SOH);
    assert RunIsRight(lengthTags, s, fields, |fields| - 2, SOH);
  }

  lemma TrailerIsLastRun(s: bytes, l: Layout, start: nat, last: RawField)
    requires WellFormed(s, l) && 1 <= start <= |s| && s[start - 1] == SOH
    requires RunAt(s, start, last, None, SOH) && last.valueEnd == |s| - 1
    ensures start == l.bodyEnd
  {
    hide BeginStringAt, BodyLengthAt, TagOf;
    var at := l.bodyEnd;
    var body, digits := s[l.bodyLengthEnd + 1..at], s[at + 3..at + 6];
    assert s[at - 1] == body[|body| - 1] == SOH;
    assert s[at..at + 3] == Framing.CHECKSUM_TAG;
    assert s[at] == 49 && s[at + 1] == 48 && s[at + 2] == EQUALS;
    forall j | at <= j < at + 6 ensures s[j] != SOH {
      if j >= at + 3 { assert s[j] == digits[j - (at + 3)]; }
    }
  }

  // A frame the strict scanner accepts whose last data value reaches over its CheckSum field.

  const FIX: bytes := FrameFormat.FIX
  const LENGTH_TAGS: seq<Tag> := [95]
  /** MsgType, a length field that declares eight bytes, and a data field of one. */
  const BODY: seq<Entry> := [Entry(35, [48]), Entry(95, [56]), Entry(96, [97])]

  function Overreaching(): bytes {
    Encode(FIX, EncodeEntries(BODY, SOH))
  }

  function BodyText(): bytes {
    [51, 53, 61, 48, SOH, 57, 53, 61, 56, SOH, 57, 54, 61, 97, SOH]
  }

  function Digits(): bytes {
    ThreeDigitText(WrappingSum(Preamble(FIX, BodyText()) + BodyText()))
  }

  /** The fields as they are read: the data value takes the CheckSum field with it. */
  function OverreachingEntries(): seq<Entry> {
    [Entry(8, FIX), Entry(9, [49, 53]), Entry(35, [48]), Entry(95, [56]), Entry(96, [97, SOH] + Framing.CHECKSUM_TAG + Digits())]
  }

  lemma ShortTags()
    ensures Decimal(8) == [56] && Decimal(9) == [57] && Decimal(10) == [49, 48] && Decimal(15) == [49, 53]
    ensures Decimal(35) == [51, 53] && Decimal(95) == [57, 53] && Decimal(96) == [57, 54]
  {
    assert Decimal(1) == [49] && Decimal(3) == [51] && Decimal(9) == [57];
  }

  lemma BodyIsText()
    ensures EncodeEntries(BODY, SOH) == BodyText()
  {
    ShortTags();
    hide Decimal;
    FirstThenRest(BODY, SOH);
    FirstThenRest(BODY[1..], SOH);
    FirstThenRest(BODY[2..], SOH);
    assert BODY[1..][1..] == BODY[2..] && BODY[2..][1..] == [];
  }

  lemma EntryTexts()
    ensures EncodeEntry(Entry(8, FIX), SOH) == [56, EQUALS] + FIX + [SOH]
    ensures EncodeEntry(Entry(9, [49, 53]), SOH) == [57, EQUALS, 49, 53, SOH]
    ensures EncodeEntry(Entry(35, [48]), SOH) == [51, 53, 61, 48, SOH]
    ensures EncodeEntry(Entry(95, [56]), SOH) == [57, 53, 61, 56, SOH]
  {
    ShortTags();
    hide Decimal;
  }

  lemma LastEntryText(digits: bytes)
    ensures EncodeEntry(Entry(96, [97, SOH] + Framing.CHECKSUM_TAG + digits), SOH)
         == [57, 54, 61, 97, SOH] + Framing.CHECKSUM_TAG + digits + [SOH]
  {
    ShortTags();
    hide Decimal;
  }

  lemma EntriesAreText()
    ensures EncodeEntries(OverreachingEntries(), SOH)
         == [56, EQUALS] + FIX + [SOH] + [57, EQUALS, 49, 53, SOH] + BodyText() + Framing.CHECKSUM_TAG + Digits() + [SOH]
  {
    hide EncodeEntry, EncodeEntries, Digits;
    EntryTexts();
    LastEntryText(Digits());
    var all := OverreachingEntries();
    FirstThenRest(all, SOH);
    FirstThenRest(all[1..], SOH);
    FirstThenRest(all[2..], SOH);
    FirstThenRest(all[3..], SOH);
    FirstThenRest(all[4..], SOH);
    assert all[1..][1..] == all[2..] && all[2..][1..] == all[3..] && all[3..][1..] == all[4..] && all[4..][1..] == [];
    NoEntries();
    TextsJoin([56, EQUALS] + FIX + [SOH], [57, EQUALS, 49, 53, SOH], [51, 53, 61, 48, SOH], [57, 53, 61, 56, SOH], [57, 54, 61, 97, SOH], Framing.CHECKSUM_TAG, Digits());
    assert BodyText() == [51, 53, 61, 48, SOH] + [57, 53, 61, 56, SOH] + [57, 54, 61, 97, SOH];
  }

  lemma NoEntries()
    ensures EncodeEntries([], SOH) == []
  {
  }

  lemma TextsJoin(a: bytes, b: bytes, c: bytes, d: bytes, e: bytes, f: bytes, g: bytes)
    ensures a + (b + (c + (d + ((e + f + g + [SOH]) + [])))) == a + b + (c + d + e) + f + g + [SOH]
  {
  }

  lemma OverreachingIsItsEntries()
    ensures Overreaching() == EncodeEntries(OverreachingEntries(), SOH) && |Overreaching()| == 33
  {
    ShortTags();
    BodyIsText();
    EntriesAreText();
    hide EncodeEntries, Decimal;
    assert BEGIN_STRING_TAG + FIX + [SOH] + (Framing.BODY_LENGTH_TAG + [49, 53] + [SOH]) == [56, EQUALS] + FIX + [SOH] + [57, EQUALS, 49, 53, SOH];
    var head := Preamble(FIX, BodyText()) + BodyText();
    Sequences.Associates(head, Framing.CHECKSUM_TAG + Digits(), [SOH]);
    Sequences.Associates(head, Framing.CHECKSUM_TAG, Digits());
  }

  lemma OverreachingIsAccepted()
    ensures CheckFrame(Overreaching()) == None
  {
    OverreachingIsItsEntries();
    assert BODY[1..][1..] == [BODY[2]] && [BODY[2]][1..] == [];
    assert Separable([], BODY, None, SOH);
    hide Separable, EncodeEntries, Encode, CheckFrame;
    FramedEntriesReadBack([], FIX, BODY);
  }

  lemma OverreachingReads()
    ensures |Overreaching()| <= U32_MAX && ReadFrom(LENGTH_TAGS, Overreaching(), 0, None, SOH) == OverreachingEntries()
  {
    OverreachingIsItsEntries();
    OverreachingIsSeparable();
    hide EncodeEntries, Separable, Encode, ReadFrom;
    EncodedEntriesReadBack(LENGTH_TAGS, OverreachingEntries(), SOH);
  }

  lemma OverreachingIsSeparable()
    ensures Separable(LENGTH_TAGS, OverreachingEntries(), None, SOH)
  {
    var all := OverreachingEntries();
    assert ParseU32([56]) == Some(8) by { assert [56][..0] == []; }
    assert all[1..][1..] == all[2..] && all[2..][1..] == all[3..] && all[3..][1..] == all[4..] && all[4..][1..] == [];
    hide ParseU32;
    assert Separable(LENGTH_TAGS, all[4..], Some(8), SOH);
    assert Separable(LENGTH_TAGS, all[3..], None, SOH);
    assert Separable(LENGTH_TAGS, all[2..], None, SOH);
    assert Separable(LENGTH_TAGS, all[1..], None, SOH);
  }

  /** Its last field is read before its CheckSum field, and the log reader diagnoses a BodyLength mismatch. */
  lemma StrictFrameCanMismatch()
    ensures var s := Overreaching();
            && CheckFrame(s) == None && |s| <= U32_MAX
            && InOrder(s, AllFields(LENGTH_TAGS, s, SOH))
            && BodyLengthMismatch in Diagnosis(s, AllFields(LENGTH_TAGS, s, SOH), SOH, false)
  {
    hide CheckFrame, Fields, WellFormed, RunAt, Diagnosis, Overreaching, ReadFrom;
    var s := Overreaching();
    OverreachingIsAccepted();
    OverreachingReads();
    var l := StrictFramesAreClean(LENGTH_TAGS, s);
    var fields := AllFields(LENGTH_TAGS, s, SOH);
    LastValueIs(s, fields);
    LastRun(LENGTH_TAGS, s);
    TrailerIsBefore(s, l, TrailerStart(fields), fields[|fields| - 1]);
  }

  lemma LastValueIs(s: bytes, fields: seq<RawField>)
    requires |s| <= U32_MAX && fields == AllFields(LENGTH_TAGS, s, SOH) && ReadFrom(LENGTH_TAGS, s, 0, None, SOH) == OverreachingEntries()
    ensures |fields| == 5 && fields[4].valueStart <= fields[4].valueEnd && fields[4].valueEnd - fields[4].valueStart == 8
  {
    hide Fields;
    FieldsAreWithin(LENGTH_TAGS, s, 0, None, SOH);
    var entries := ReadFrom(LENGTH_TAGS, s, 0, None, SOH);
    assert entries[4].value == s[fields[4].valueStart..fields[4].valueEnd];
    assert |OverreachingEntries()[4].value| == 8;
  }

  lemma TrailerIsBefore(s: bytes, l: Layout, start: nat, last: RawField)
    requires WellFormed(s, l) && last.valueStart + 8 == last.valueEnd == |s| - 1
    requires exists pending :: RunAt(s, start, last, pending, SOH)
    ensures start < l.bodyEnd
  {
    hide BeginStringAt, BodyLengthAt, IsBody, TagOf;
  }
}
