/** The end BodyLength gives is stable and strict frames keep theirs; the walk and the tokenizer agree. */
module LogEndLaws {
  import opened Wrappers
  import opened Bytes
  import opened Tags
  import opened Framing
  import opened FrameFormat
  import opened Tokenizer
  import opened LogStart
  import opened LogEnd

  /** What an accepted start looks like up to the `=` of its second field. */
  lemma StartShape(s: bytes, given: Option<byte>, separator: byte) returns (valueEnd: nat)
    requires Check(s, given) == IsStart(Byte(separator))
    ensures |BEGIN_STRING_PREFIX| <= valueEnd <= MAX_BEGIN_STRING_LEN && valueEnd + 3 <= |s|
    ensures s[valueEnd] == separator && !IsValueByte(separator)
    ensures s[..5] == BEGIN_STRING_PREFIX
    ensures forall j :: 5 <= j < valueEnd ==> IsValueByte(s[j])
  {
    hide ValueRun, DigitRun;
    valueEnd := |BEGIN_STRING_PREFIX| + ValueRun(s, |BEGIN_STRING_PREFIX|, MAX_BEGIN_STRING_LEN);
    var digits := DigitRun(s, valueEnd + 1, MAX_TAG_DIGITS + 1);
    assert CheckSeparator(s, valueEnd, given) == IsStart(Byte(separator));
    assert valueEnd + 1 + digits < |s| && digits > 0;
  }

  /** An accepted start holds its separator early on, with a tag and its `=` after it. */
  lemma StartHoldsSeparator(s: bytes, given: Option<byte>, separator: byte)
    requires Check(s, given) == IsStart(Byte(separator))
    ensures FindByte(s, separator, 0, |s|).Some?
    ensures FindByte(s, separator, 0, |s|).value <= MAX_BEGIN_STRING_LEN
    ensures FindByte(s, separator, 0, |s|).value + 3 <= |s|
  {
    hide Check, FindByte;
    var valueEnd := StartShape(s, given, separator);
    assert s[1] == BEGIN_STRING_PREFIX[1] by { assert s[..5][1] == s[1]; }
    forall j | 0 <= j < valueEnd && j != 1 ensures s[j] != separator {
      if j < 5 { assert s[j] == s[..5][j]; }
    }
    var found := FindByte(s, separator, 0, |s|);
    assert found.Some?;
  }

  lemma CappedGrows(s: bytes, more: bytes)
    ensures Capped(s, false) <= Capped(s + more, false)
    ensures CapIsFinal(s, false) ==> CapIsFinal(s + more, false) && Capped(s + more, false) == Capped(s, false)
    ensures |Capped(s, false)| < |s| ==> CapIsFinal(s, false)
  {
    var capped, later := Capped(s, false), Capped(s + more, false);
    assert later[..|capped|] == capped;
    if CapIsFinal(s, false) { assert |later| == |capped|; }
  }

  /** BodyLength's claim, once made or ruled out, stands. */
  lemma ClaimStable(s: bytes, t: bytes, separator: byte)
    requires s <= t && !DeclaredTrailer(s, separator).ClaimPending?
    requires FindByte(s, separator, 0, |s|).Some? && FindByte(s, separator, 0, |s|).value + 3 <= |s|
    ensures DeclaredTrailer(t, separator) == DeclaredTrailer(s, separator)
  {
    hide FindByte, ClaimAt;
    FindByteExtends(s, t, separator, 0, |s|, |t|);
    var tagStart := FindByte(s, separator, 0, |s|).value + 1;
    assert t[tagStart..][..2] == s[tagStart..][..2];
    if StartsWith(s[tagStart..], BODY_LENGTH_TAG) {
      ClaimAtStable(s, t, tagStart + 2, separator);
    }
  }

  lemma ClaimAtStable(s: bytes, t: bytes, from: nat, separator: byte)
    requires s <= t && 2 < from <= |s| && !ClaimAt(s, from, separator).ClaimPending?
    ensures ClaimAt(t, from, separator) == ClaimAt(s, from, separator)
  {
    hide DigitRun, ParseU32;
    DigitRunStable(s, t, from, MAX_BODY_LENGTH_DIGITS + 1);
    var digits := DigitRun(s, from, MAX_BODY_LENGTH_DIGITS + 1);
    assert t[from..from + digits] == s[from..from + digits];
  }

  lemma FindValueEndExtends(s: bytes, t: bytes, from: nat, separator: byte)
    requires s <= t && from <= |s|
    ensures FindValueEnd(s, from, separator).Some? ==> FindValueEnd(t, from, separator) == FindValueEnd(s, from, separator)
  {
    var found := FindValueEnd(t, from, separator);
  }

  lemma AfterMessageStable(s: bytes, more: bytes, len: nat)
    requires len <= |s| && AfterMessage(s, len, false).Some?
    ensures AfterMessage(s + more, len, false) == AfterMessage(s, len, false)
  {
    assert (s + more)[len..] == s[len..] + more;
  }

  lemma TrailerEndStable(s: bytes, more: bytes, separator: byte, start: nat)
    requires 4 <= start && !TrailerEnd(s, separator, start, false).EndPending?
    ensures TrailerEnd(s + more, separator, start, false) == TrailerEnd(s, separator, start, false)
  {
    hide AfterMessage, FindValueEnd, Capped;
    CappedGrows(s, more);
    var capped, later := Capped(s, false), Capped(s + more, false);
    if start + 3 <= |capped| {
      assert later[start - 1..start + 3] == capped[start - 1..start + 3];
      if capped[start - 1..start + 3] == [separator] + CHECKSUM_TAG {
        FindValueEndExtends(capped, later, start + 3, separator);
        var end := FindValueEnd(capped, start + 3, separator);
        if end.Some? && capped[end.value] == separator {
          AfterMessageStable(s, more, end.value + 1);
        }
      }
    }
  }

  /** Unless it waits, what BodyLength says of an accepted start does not change with more bytes. */
  lemma ByBodyLengthStable(s: bytes, more: bytes, given: Option<byte>, separator: byte)
    requires Check(s, given) == IsStart(Byte(separator)) && !ByBodyLength(s, separator, false).EndPending?
    ensures ByBodyLength(s + more, separator, false) == ByBodyLength(s, separator, false)
  {
    CappedGrows(s, more);
    StartIsInCapped(s, given, separator);
    var capped, later := Capped(s, false), Capped(s + more, false);
    hide Check, Capped, DeclaredTrailer, TrailerEnd, FindByte, CapIsFinal;
    var claim := DeclaredTrailer(capped, separator);
    if !claim.ClaimPending? {
      ClaimStable(capped, later, separator);
      if claim.Claim? {
        TrailerEndStable(s, more, separator, claim.start);
      }
    }
  }

  lemma StartIsInCapped(s: bytes, given: Option<byte>, separator: byte)
    requires Check(s, given) == IsStart(Byte(separator))
    ensures var capped := Capped(s, false);
            FindByte(capped, separator, 0, |capped|).Some? && FindByte(capped, separator, 0, |capped|).value + 3 <= |capped|
  {
    StartHoldsSeparator(s, given, separator);
    hide Check;
    var capped := Capped(s, false);
    var found := FindByte(capped, separator, 0, |capped|);
    assert capped[FindByte(s, separator, 0, |s|).value] == separator;
  }

  /**
   * A frame the strict scanner accepts, logged with SOH and followed by anything, ends where
   * the scanner ends it, as soon as the line break after it is settled.
   */
  lemma StrictFramesEndTheSame(s: bytes, atEnd: bool)
    requires Scan(s, MAX_MESSAGE_LEN).Ok?
    ensures var n := |Scan(s, MAX_MESSAGE_LEN).value.bytes|;
            && n <= |s|
            && ByBodyLength(s, SOH, atEnd) ==
               match AfterMessage(s, n, atEnd)
               case Some(end) => EndFound(end)
               case None => EndPending
  {
    var l := AcceptedFrameIsWellFormed(s, MAX_MESSAGE_LEN);
    var frame := Scan(s, MAX_MESSAGE_LEN).value.bytes;
    hide Scan, ByBodyLength, AfterMessage;
    WellFormedFrameEnds(s, frame, l, atEnd);
  }

  lemma WellFormedFrameEnds(s: bytes, frame: bytes, l: Layout, atEnd: bool)
    requires WellFormed(frame, l) && StartsWith(s, frame) && |frame| <= MAX_MESSAGE_LEN
    ensures ByBodyLength(s, SOH, atEnd) ==
            match AfterMessage(s, |frame|, atEnd)
            case Some(end) => EndFound(end)
            case None => EndPending
  {
    assert frame[|frame| - 1] == SOH;
    hide WellFormed, DeclaredTrailer, TrailerEnd, AfterMessage, Capped, FindByte;
    FrameIsInCapped(s, frame, atEnd);
    WellFormedClaims(frame, l);
    ClaimStable(frame, Capped(s, atEnd), SOH);
    WellFormedTrailerEnds(s, frame, l, atEnd);
  }

  lemma FrameIsInCapped(s: bytes, frame: bytes, atEnd: bool)
    requires StartsWith(s, frame) && frame != [] && |frame| <= MAX_MESSAGE_LEN && frame[|frame| - 1] == SOH
    ensures frame <= Capped(s, atEnd)
  {
    assert s[|frame| - 1] == SOH by { assert s[..|frame|][|frame| - 1] == SOH; }
    var capped := Capped(s, atEnd);
    assert capped[..|frame|] == s[..|frame|];
  }

  lemma WellFormedClaims(frame: bytes, l: Layout)
    requires WellFormed(frame, l) && |frame| <= MAX_MESSAGE_LEN
    ensures DeclaredTrailer(frame, SOH) == Claim(l.bodyEnd)
    ensures FindByte(frame, SOH, 0, |frame|) == Some(l.beginStringEnd) && l.beginStringEnd + 3 <= |frame|
  {
    hide WellFormed, BeginStringAt, BodyLengthAt, FindByte, DeclaredTrailer;
    WellFormedParts(frame, l);
    FirstSohEndsBeginString(frame, l.beginStringEnd);
    LengthFieldClaims(frame, l.beginStringEnd, l.bodyLengthEnd, l.bodyEnd - (l.bodyLengthEnd + 1));
  }

  lemma WellFormedParts(frame: bytes, l: Layout)
    requires WellFormed(frame, l)
    ensures BeginStringAt(frame, l.beginStringEnd) && 1 <= l.beginStringEnd && l.beginStringEnd + 3 <= |frame|
    ensures l.bodyLengthEnd < l.bodyEnd <= |frame|
    ensures BodyLengthAt(frame, l.beginStringEnd + 1, l.bodyLengthEnd, l.bodyEnd - (l.bodyLengthEnd + 1))
  {
    hide IsBody, ChecksumAt;
  }

  lemma LengthFieldClaims(s: bytes, p: nat, until: nat, length: nat)
    requires FindByte(s, SOH, 0, |s|) == Some(p) && 1 <= p && BodyLengthAt(s, p + 1, until, length) && length <= U32_MAX
    ensures DeclaredTrailer(s, SOH) == Claim(until + 1 + length)
  {
    hide ClaimAt, FindByte, StartsWith, FrameFormat.BodyLengthAt;
    LengthTagOpens(s, p + 1, until, length);
    WellFormedLengthClaims(s, p + 1, until, length);
  }

  lemma LengthTagOpens(s: bytes, from: nat, until: nat, length: nat)
    requires BodyLengthAt(s, from, until, length)
    ensures from + 2 <= |s| && StartsWith(s[from..], BODY_LENGTH_TAG)
  {
    hide DigitsValue;
    assert s[from..][..2] == s[from..from + 2];
  }

  lemma FirstSohEndsBeginString(s: bytes, end: nat)
    requires BeginStringAt(s, end)
    ensures FindByte(s, SOH, 0, |s|) == Some(end)
  {
    assert s[0] == BEGIN_STRING_TAG[0] && s[1] == BEGIN_STRING_TAG[1] by { assert s[..2] == BEGIN_STRING_TAG; }
    forall j | 2 <= j < end ensures s[j] != SOH { assert s[j] == s[2..end][j - 2]; }
    var found := FindByte(s, SOH, 0, |s|);
  }

  lemma WellFormedLengthClaims(s: bytes, from: nat, until: nat, length: nat)
    requires 1 < from && BodyLengthAt(s, from, until, length) && length <= U32_MAX
    ensures ClaimAt(s, from + 2, SOH) == Claim(until + 1 + length)
  {
    hide DigitRun, ParseU32;
    LengthDigitsRun(s, from, until, length);
    LengthParses(s[from + 2..until], length);
  }

  lemma LengthDigitsRun(s: bytes, from: nat, until: nat, length: nat)
    requires BodyLengthAt(s, from, until, length)
    ensures DigitRun(s, from + 2, MAX_BODY_LENGTH_DIGITS + 1) == until - (from + 2)
  {
    hide DigitRun, DigitsValue;
    var digits := s[from + 2..until];
    forall j | from + 2 <= j < until ensures IsDigit(s[j]) { assert s[j] == digits[j - (from + 2)]; }
    DigitRunIs(s, from + 2, MAX_BODY_LENGTH_DIGITS + 1, until);
  }

  lemma LengthParses(digits: bytes, length: nat)
    requires digits != [] && AllDigits(digits) && DigitsValue(digits) == length <= U32_MAX
    ensures ParseU32(digits) == Some(length)
  {
    hide DigitsValue, CheckedFold;
    CheckedFoldIsValue(digits, U32_MAX);
  }

  lemma {:induction false} DigitRunIs(s: bytes, from: nat, cap: nat, until: nat)
    requires from <= until < |s| && until - from < cap && !IsDigit(s[until]) && forall j :: from <= j < until ==> IsDigit(s[j])
    ensures DigitRun(s, from, cap) == until - from
    decreases cap
  {
    if from < until { DigitRunIs(s, from + 1, cap - 1, until); }
  }

  lemma WellFormedTrailerEnds(s: bytes, frame: bytes, l: Layout, atEnd: bool)
    requires WellFormed(frame, l) && frame <= Capped(s, atEnd) && |frame| <= |s|
    ensures TrailerEnd(s, SOH, l.bodyEnd, atEnd) ==
            match AfterMessage(s, |frame|, atEnd)
            case Some(end) => EndFound(end)
            case None => EndPending
  {
    hide WellFormed, AfterMessage;
    var capped, at := Capped(s, atEnd), l.bodyEnd;
    TrailerBytes(frame, l);
    assert forall j :: 0 <= j < |frame| ==> capped[j] == frame[j];
    assert capped[at - 1..at + 3] == frame[at - 1..at + 3];
    var found := FindValueEnd(capped, at + 3, SOH);
    assert found == Some(at + 6);
  }

  lemma TrailerBytes(frame: bytes, l: Layout)
    requires WellFormed(frame, l)
    ensures var at := l.bodyEnd;
            && 4 <= at && |frame| == at + 7
            && frame[at - 1..at + 3] == [SOH] + CHECKSUM_TAG
            && frame[at + 6] == SOH
            && forall j :: at + 3 <= j < at + 6 ==> frame[j] != SOH && frame[j] != LF
  {
    hide BeginStringAt;
    var at := l.bodyEnd;
    var body, digits := frame[l.bodyLengthEnd + 1..at], frame[at + 3..at + 6];
    assert frame[at - 1] == body[|body| - 1] == SOH;
    assert frame[at - 1..at + 3] == [SOH] + frame[at..at + 3];
    forall j | at + 3 <= j < at + 6 ensures frame[j] != SOH && frame[j] != LF {
      assert frame[j] == digits[j - (at + 3)] && IsDigit(digits[j - (at + 3)]);
    }
  }

  /** A field that ends inside a shorter message is the same field there. */
  lemma NextFieldCut(s: bytes, cut: bytes, pos: nat, dataLen: Option<nat>, separator: byte)
    requires cut <= s && |s| <= U32_MAX
    requires NextField(s, pos, dataLen, separator).Some? && NextField(s, pos, dataLen, separator).value.0.valueEnd < |cut|
    ensures NextField(cut, pos, dataLen, separator) == NextField(s, pos, dataLen, separator)
  {
    hide FindTagEnd, ValueEnd, TagOf;
    var at := FindTagEnd(s, pos, separator).value.at;
    TagEndCut(s, cut, pos, separator);
    assert cut[pos..at] == s[pos..at];
    if FindTagEnd(s, pos, separator).value.Equals? { ValueEndCut(s, cut, at + 1, dataLen, separator); }
  }

  lemma TagEndCut(s: bytes, cut: bytes, pos: nat, separator: byte)
    requires cut <= s && FindTagEnd(s, pos, separator).Some? && FindTagEnd(s, pos, separator).value.at < |cut|
    ensures FindTagEnd(cut, pos, separator) == FindTagEnd(s, pos, separator)
  {
    var tagEnd, tagEnd' := FindTagEnd(s, pos, separator), FindTagEnd(cut, pos, separator);
    assert cut[tagEnd.value.at] == s[tagEnd.value.at];
  }

  lemma ValueEndCut(s: bytes, cut: bytes, start: nat, dataLen: Option<nat>, separator: byte)
    requires cut <= s && start <= |cut| && ValueEnd(s, start, dataLen, separator) < |cut|
    ensures ValueEnd(cut, start, dataLen, separator) == ValueEnd(s, start, dataLen, separator)
  {
    FindByteExtends(cut, s, separator, start, |cut|, |s|);
    var found, found' := FindByte(s, separator, start, |s|), FindByte(cut, separator, start, |cut|);
  }

  /** A CheckSum field cut inside its value, before any separator, is all that is left. */
  lemma CheckSumCut(s: bytes, cut: bytes, pos: nat, dataLen: Option<nat>, separator: byte)
    requires cut <= s && |s| <= U32_MAX && NextField(s, pos, dataLen, separator).Some?
    requires var field := NextField(s, pos, dataLen, separator).value.0;
             && field.tag == CHECKSUM && field.valueStart <= |cut| <= field.valueEnd
             && (dataLen == Some(field.valueEnd - field.valueStart) ==> |cut| == field.valueEnd)
             && (|cut| == field.valueEnd ==> |cut| == |s|)
    ensures var field := NextField(s, pos, dataLen, separator).value.0;
            NextField(cut, pos, dataLen, separator) == Some((RawField(CHECKSUM, field.valueStart, |cut|), |cut| + 1))
  {
    hide FindTagEnd, ValueEnd, ParseU32;
    var field := NextField(s, pos, dataLen, separator).value.0;
    var tagEnd := FindTagEnd(s, pos, separator).value;
    TagEndCut(s, cut, pos, separator);
    ValueCutShort(s, cut, field.valueStart, dataLen, separator);
    assert cut[pos..tagEnd.at] == s[pos..tagEnd.at];
  }

  /** A value cut short runs to the end of what is left, unless it was read by its length. */
  lemma ValueCutShort(s: bytes, cut: bytes, start: nat, dataLen: Option<nat>, separator: byte)
    requires cut <= s && start <= |cut| <= ValueEnd(s, start, dataLen, separator)
    requires dataLen == Some(ValueEnd(s, start, dataLen, separator) - start) ==> |cut| == ValueEnd(s, start, dataLen, separator)
    requires |cut| == ValueEnd(s, start, dataLen, separator) ==> |cut| == |s|
    ensures ValueEnd(cut, start, dataLen, separator) == |cut|
  {
    var found, found' := FindByte(s, separator, start, |s|), FindByte(cut, separator, start, |cut|);
    forall j | start <= j < |cut| ensures cut[j] == s[j] {
    }
  }

  /** The step that ends a walk untruncated ends it at a CheckSum field, all of it and nothing after it. */
  lemma LastStepIsCheckSum(
    lengthTags: seq<Tag>, s: bytes, separator: byte, given: Option<byte>, atEnd: bool, pos: nat, dataLen: Option<nat>)
    requires Opens(s, separator) && pos <= |Capped(s, atEnd)|
    requires var r := StepWalk(lengthTags, s, separator, given, atEnd, pos, dataLen);
             r.Over? && r.end.Some? && !r.end.value.truncated
    ensures var end := StepWalk(lengthTags, s, separator, given, atEnd, pos, dataLen).end.value;
            && pos < end.len <= |Capped(s, atEnd)|
            && var fields := Fields(lengthTags, Capped(s, atEnd)[..end.len], pos, dataLen, separator);
               |fields| == 1 && fields[0].tag == CHECKSUM
  {
    hide StepFromField, FindStart, Capped, Opens, StartsWith, NextField, Fields;
    var capped := Capped(s, atEnd);
    FirstFieldIsLong(s, atEnd, dataLen, separator);
    var next := NextField(capped, pos, dataLen, separator);
    var from, checkedEnd := if pos == 0 then 1 else pos, CheckedEnd(capped, pos, next, dataLen);
    LastFieldIsCheckSum(lengthTags, s, separator, atEnd, pos, dataLen, FindByte(capped, LF, from, checkedEnd));
  }

  lemma LastFieldIsCheckSum(
    lengthTags: seq<Tag>, s: bytes, separator: byte, atEnd: bool, pos: nat, dataLen: Option<nat>, lineBreak: Option<nat>)
    requires pos <= |Capped(s, atEnd)|
    requires var capped := Capped(s, atEnd);
             lineBreak.Some? ==>
               (&& 1 <= lineBreak.value
                && pos <= lineBreak.value < CheckedEnd(capped, pos, NextField(capped, pos, dataLen, separator), dataLen) <= |capped|
                && capped[lineBreak.value] == LF)
    requires var r := StepFromField(lengthTags, s, atEnd, NextField(Capped(s, atEnd), pos, dataLen, separator), lineBreak);
             r.Over? && r.end.Some? && !r.end.value.truncated
    ensures var end := StepFromField(lengthTags, s, atEnd, NextField(Capped(s, atEnd), pos, dataLen, separator), lineBreak).end.value;
            && pos < end.len <= |Capped(s, atEnd)|
            && var fields := Fields(lengthTags, Capped(s, atEnd)[..end.len], pos, dataLen, separator);
               |fields| == 1 && fields[0].tag == CHECKSUM
  {
    var capped := Capped(s, atEnd);
    var end := StepFromField(lengthTags, s, atEnd, NextField(capped, pos, dataLen, separator), lineBreak).end.value;
    var (field, after) := NextField(capped, pos, dataLen, separator).value;
    assert field.tag == CHECKSUM;
    hide NextField, Fields, Capped;
    CheckSumText(capped, pos, dataLen, separator);
    if lineBreak.Some? {
      LineBreakIsInValue(capped, pos, dataLen, separator, lineBreak.value);
      CheckSumCut(capped, capped[..end.len], pos, dataLen, separator);
    } else if field.valueEnd == |capped| {
      assert capped[..|capped|] == capped;
    } else {
      assert end.len == after;
      NextFieldCut(capped, capped[..after], pos, dataLen, separator);
    }
    OneFieldLeft(lengthTags, capped[..end.len], pos, dataLen, separator);
  }

  lemma OneFieldLeft(lengthTags: seq<Tag>, s: bytes, pos: nat, dataLen: Option<nat>, separator: byte)
    requires |s| <= U32_MAX && NextField(s, pos, dataLen, separator).Some? && NextField(s, pos, dataLen, separator).value.1 >= |s|
    ensures Fields(lengthTags, s, pos, dataLen, separator) == [NextField(s, pos, dataLen, separator).value.0]
  {
  }

  /** A CheckSum field's tag is digits and its `=`. */
  lemma CheckSumText(s: bytes, pos: nat, dataLen: Option<nat>, separator: byte)
    requires |s| <= U32_MAX && NextField(s, pos, dataLen, separator).Some?
    requires NextField(s, pos, dataLen, separator).value.0.tag == CHECKSUM
    ensures var field := NextField(s, pos, dataLen, separator).value.0;
            && FindTagEnd(s, pos, separator) == Some(Equals(field.valueStart - 1)) && pos < field.valueStart - 1
            && AllDigits(s[pos..field.valueStart - 1])
            && forall j :: pos <= j < field.valueStart ==> s[j] != LF && s[j] != CR
  {
    var field := NextField(s, pos, dataLen, separator).value.0;
    var text := s[pos..field.valueStart - 1];
    assert text != [] && AllDigits(text);
    forall j | pos <= j < field.valueStart ensures s[j] != LF && s[j] != CR {
      if j < field.valueStart - 1 { assert s[j] == text[j - pos]; }
    }
  }

  lemma LineBreakIsInValue(capped: bytes, pos: nat, dataLen: Option<nat>, separator: byte, at: nat)
    requires |capped| <= U32_MAX && NextField(capped, pos, dataLen, separator).Some?
    requires NextField(capped, pos, dataLen, separator).value.0.tag == CHECKSUM
    requires pos <= at < CheckedEnd(capped, pos, NextField(capped, pos, dataLen, separator), dataLen) && capped[at] == LF && 1 <= at
    ensures var field, len := NextField(capped, pos, dataLen, separator).value.0, AtLineBreak(capped, at, false).len;
            && field.valueStart <= len <= at < field.valueEnd
            && dataLen != Some(field.valueEnd - field.valueStart)
  {
    CheckSumText(capped, pos, dataLen, separator);
  }

  /** The fields of a cut message: those of the whole message, and last the only CheckSum field. */
  ghost predicate EndsAtFirstCheckSum(cut: seq<RawField>, all: seq<RawField>) {
    && cut != [] && cut[|cut| - 1].tag == CHECKSUM
    && (forall i :: 0 <= i < |cut| - 1 ==> cut[i].tag != CHECKSUM)
    && |cut| - 1 <= |all| && cut[..|cut| - 1] == all[..|cut| - 1]
  }

  lemma OneMoreField(field: RawField, cut: seq<RawField>, all: seq<RawField>)
    requires field.tag != CHECKSUM && EndsAtFirstCheckSum(cut, all)
    ensures EndsAtFirstCheckSum([field] + cut, [field] + all)
  {
    assert ([field] + cut)[..|cut|] == [field] + cut[..|cut| - 1];
    assert ([field] + all)[..|cut|] == [field] + all[..|cut| - 1];
  }

  lemma WalkUnfolds(
    lengthTags: seq<Tag>, s: bytes, separator: byte, given: Option<byte>, atEnd: bool, pos: nat, dataLen: Option<nat>)
    requires Opens(s, separator) && pos <= |Capped(s, atEnd)|
    ensures Walk(lengthTags, s, separator, given, atEnd, pos, dataLen) ==
            match StepWalk(lengthTags, s, separator, given, atEnd, pos, dataLen)
            case Over(end) => end
            case GoOn(later, pending) => Walk(lengthTags, s, separator, given, atEnd, later, pending)
  {
    hide StepWalk;
  }

  /**
   * When the walk reports an untruncated end, tokenising exactly the bytes up to it gives the
   * fields the walk passed and then the CheckSum field, the last and the only one of that tag.
   */
  lemma {:induction false} WalkAgreesWithTokenizer(
    lengthTags: seq<Tag>, s: bytes, separator: byte, given: Option<byte>, atEnd: bool, pos: nat, dataLen: Option<nat>)
    requires Opens(s, separator) && pos <= |Capped(s, atEnd)|
    requires var r := Walk(lengthTags, s, separator, given, atEnd, pos, dataLen); r.Some? && !r.value.truncated
    ensures var end := Walk(lengthTags, s, separator, given, atEnd, pos, dataLen).value;
            && pos < end.len <= |Capped(s, atEnd)|
            && EndsAtFirstCheckSum(
                 Fields(lengthTags, Capped(s, atEnd)[..end.len], pos, dataLen, separator),
                 Fields(lengthTags, Capped(s, atEnd), pos, dataLen, separator))
    decreases |Capped(s, atEnd)| - pos
  {
    hide StepWalk, Walk, Capped, NextField, Opens, StartsWith, PendingDataLen, Fields;
    var capped := Capped(s, atEnd);
    var step := StepWalk(lengthTags, s, separator, given, atEnd, pos, dataLen);
    WalkUnfolds(lengthTags, s, separator, given, atEnd, pos, dataLen);
    if step.Over? {
      LastStepIsCheckSum(lengthTags, s, separator, given, atEnd, pos, dataLen);
    } else {
      hide EndsAtFirstCheckSum;
      GoOnStep(lengthTags, s, separator, given, atEnd, pos, dataLen);
      WalkAgreesWithTokenizer(lengthTags, s, separator, given, atEnd, step.pos, step.dataLen);
      var end := Walk(lengthTags, s, separator, given, atEnd, pos, dataLen).value;
      var (field, after) := NextField(capped, pos, dataLen, separator).value;
      BothFieldsThen(lengthTags, capped, capped[..end.len], pos, dataLen, separator);
      OneMoreField(field, Fields(lengthTags, capped[..end.len], after, step.dataLen, separator), Fields(lengthTags, capped, after, step.dataLen, separator));
    }
  }

  /** A step that goes on passes one field that is not CheckSum. */
  lemma GoOnStep(
    lengthTags: seq<Tag>, s: bytes, separator: byte, given: Option<byte>, atEnd: bool, pos: nat, dataLen: Option<nat>)
    requires Opens(s, separator) && pos <= |Capped(s, atEnd)|
    requires StepWalk(lengthTags, s, separator, given, atEnd, pos, dataLen).GoOn?
    ensures var step, capped := StepWalk(lengthTags, s, separator, given, atEnd, pos, dataLen), Capped(s, atEnd);
            var next := NextField(capped, pos, dataLen, separator);
            && next.Some? && next.value.0.tag != CHECKSUM && next.value.1 == step.pos
            && step.dataLen == PendingDataLen(lengthTags, capped, next.value.0)
  {
    hide NextField, FindStart, FindByte, Capped, AfterMessage, AtLineBreak, PendingDataLen;
  }

  /** Unfolding the first field of both a message and its cut. */
  lemma BothFieldsThen(lengthTags: seq<Tag>, s: bytes, cut: bytes, pos: nat, dataLen: Option<nat>, separator: byte)
    requires cut <= s && |s| <= U32_MAX && NextField(s, pos, dataLen, separator).Some?
    requires NextField(s, pos, dataLen, separator).value.1 < |cut|
    ensures var (field, after) := NextField(s, pos, dataLen, separator).value;
            var pending := PendingDataLen(lengthTags, s, field);
            && Fields(lengthTags, s, pos, dataLen, separator) == [field] + Fields(lengthTags, s, after, pending, separator)
            && Fields(lengthTags, cut, pos, dataLen, separator) == [field] + Fields(lengthTags, cut, after, pending, separator)
  {
    NextFieldCut(s, cut, pos, dataLen, separator);
    var (field, after) := NextField(s, pos, dataLen, separator).value;
    assert cut[field.valueStart..field.valueEnd] == s[field.valueStart..field.valueEnd];
  }

  lemma FirstByteAt(s: bytes, b: byte, from: nat, until: nat, at: nat)
    requires from <= at < until <= |s| && s[at] == b && forall j :: from <= j < at ==> s[j] != b
    ensures FindByte(s, b, from, until) == Some(at)
  {
  }

  lemma FirstTagEndAt(s: bytes, from: nat, separator: byte, end: TagEnd)
    requires from <= end.at < |s| && (forall j :: from <= j < end.at ==> s[j] != EQUALS && s[j] != separator)
    requires if end.Equals? then s[end.at] == EQUALS else s[end.at] == separator != EQUALS
    ensures FindTagEnd(s, from, separator) == Some(end)
  {
  }
}
