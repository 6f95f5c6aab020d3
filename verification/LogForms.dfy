/** The forms a message is logged in, and what the log reader makes of a strict frame in each. */
module LogForms {
  import opened Wrappers
  import opened Bytes
  import opened Sequences
  import opened Tags
  import opened Framing
  import opened FrameFormat
  import opened Tokenizer
  import opened TokenizerLaws
  import opened LogStart
  import opened LogStartLaws
  import opened LogEnd
  import opened LogEndLaws
  import opened CaretA

  // `^A` for SOH.

  /** The message holds no `^A` of its own. */
  predicate HoldsNoCaretA(message: bytes) {
    forall j :: 0 <= j < |message| ==> !CaretAAt(message, j)
  }

  /** A message that ends in SOH is restored from its rendering, whatever follows it. */
  lemma {:induction false} ShownThenRestores(message: bytes, text: bytes)
    requires HoldsNoCaretA(message) && (message == [] || message[|message| - 1] == SOH)
    ensures Restored(Shown(message) + text) == message + Restored(text)
    ensures TakenBy(Shown(message) + text, message + Restored(text), |message|) == |Shown(message)|
    decreases |message|
  {
    if message == [] {
      assert Shown(message) + text == text && message + Restored(text) == Restored(text);
    } else {
      var rest := message[1..];
      forall j | 0 <= j < |rest| ensures !CaretAAt(rest, j) { assert !CaretAAt(message, j + 1); }
      ShownThenRestores(rest, text);
      ShownStep(message, text);
      StepThenRest(message, text);
    }
  }

  lemma ShownStep(message: bytes, text: bytes)
    requires message != [] && HoldsNoCaretA(message) && message[|message| - 1] == SOH
    ensures var line, step := Shown(message) + text, if message[0] == SOH then 2 else 1;
            && line != [] && step <= |line| && (CaretAAt(line, 0) <==> message[0] == SOH) && (message[0] != SOH ==> line[0] == message[0])
            && line[step..] == Shown(message[1..]) + text && |Shown(message)| == step + |Shown(message[1..])|
  {
    hide Shown, CaretAAt;
    var rest := message[1..];
    if message[0] == SOH {
      ShownSoh(message);
      CaretAThen(Shown(rest), text);
    } else {
      ShownOther(message);
      ShownFirst(rest);
      assert !CaretAAt(message, 0);
      OtherThen(message, Shown(rest), text);
    }
  }

  lemma CaretAThen(shown: bytes, text: bytes)
    ensures var line := [CARET, UPPER_A] + shown + text; CaretAAt(line, 0) && line[2..] == shown + text
  {
  }

  lemma OtherThen(message: bytes, shown: bytes, text: bytes)
    requires |message| > 1 && !CaretAAt(message, 0) && shown != [] && shown[0] == if message[1] == SOH then CARET else message[1]
    ensures var line := [message[0]] + shown + text; !CaretAAt(line, 0) && line[0] == message[0] && line[1..] == shown + text
  {
    var line := [message[0]] + shown + text;
    assert line[1] == shown[0];
  }

  lemma ShownSoh(message: bytes)
    requires message != [] && message[0] == SOH
    ensures Shown(message) == [CARET, UPPER_A] + Shown(message[1..])
  {
  }

  lemma ShownOther(message: bytes)
    requires message != [] && message[0] != SOH
    ensures Shown(message) == [message[0]] + Shown(message[1..])
  {
  }

  lemma ShownFirst(message: bytes)
    requires message != []
    ensures Shown(message) != [] && Shown(message)[0] == if message[0] == SOH then CARET else message[0]
  {
  }

  lemma StepThenRest(message: bytes, text: bytes)
    requires message != []
    requires var line, step := Shown(message) + text, if message[0] == SOH then 2 else 1;
             && line != [] && step <= |line| && (CaretAAt(line, 0) <==> message[0] == SOH) && (message[0] != SOH ==> line[0] == message[0])
             && line[step..] == Shown(message[1..]) + text && |Shown(message)| == step + |Shown(message[1..])|
    requires Restored(Shown(message[1..]) + text) == message[1..] + Restored(text)
    requires TakenBy(Shown(message[1..]) + text, message[1..] + Restored(text), |message| - 1) == |Shown(message[1..])|
    ensures Restored(Shown(message) + text) == message + Restored(text)
    ensures TakenBy(Shown(message) + text, message + Restored(text), |message|) == |Shown(message)|
  {
    hide CaretAAt, Shown;
    var line, copy := Shown(message) + text, message + Restored(text);
    assert copy[1..] == message[1..] + Restored(text) && copy[0] == message[0];
    assert copy == [message[0]] + copy[1..];
  }

  lemma {:induction false} RestoringAddsNoBreak(line: bytes)
    requires LF !in line
    ensures LF !in Restored(line)
    decreases |line|
  {
    if line != [] {
      if CaretAAt(line, 0) { RestoringAddsNoBreak(line[2..]); } else { RestoringAddsNoBreak(line[1..]); }
    }
  }

  /** A strict frame with any text without a line break after it ends at its last byte. */
  lemma FrameThenText(lengthTags: seq<Tag>, frame: bytes, text: bytes)
    requires CheckFrame(frame) == None && |frame| <= MAX_MESSAGE_LEN && LF !in text
    ensures Opens(frame + text, SOH) && FindEnd(lengthTags, frame + text, SOH, None, true) == Some(End(|frame|, |frame|, false))
  {
    hide CheckFrame, Scan, ByBodyLength, WellFormed, IsMsgType;
    CheckedFrameFits(frame);
    var l := AcceptedFrameIsWellFormed(frame, U32_MAX);
    WellFormedFrameIsAccepted(frame, l, text, MAX_MESSAGE_LEN);
    FrameThenOpens(frame, l, text);
    StrictFramesEndTheSame(frame + text, true);
    assert (frame + text)[|frame|..] == text;
  }

  lemma FrameThenOpens(frame: bytes, l: Layout, text: bytes)
    requires WellFormed(frame, l)
    ensures Opens(frame + text, SOH)
  {
    hide BodyLengthAt, IsBody, ChecksumAt;
    assert (frame + text)[..5] == frame[..5];
  }

  /**
   * A line that holds a strict frame shown with `^A`, and any text after it, yields exactly the
   * frame: it takes the line break only when there is no such text.
   */
  lemma ShownFrameIsCopied(lengthTags: seq<Tag>, s: bytes, atEnd: bool, frame: bytes, text: bytes, consumed: nat)
    requires CheckFrame(frame) == None && |frame| <= MAX_MESSAGE_LEN && HoldsNoCaretA(frame) && LF !in text
    requires StartsWith(s, BEGIN_STRING_PREFIX) && FirstLine(s, atEnd) == Some((Shown(frame) + text, consumed))
    ensures var len := |Shown(frame)|;
            CopiedMessage(lengthTags, s, atEnd) == Some((End(len, if text == [] then consumed else len, false), frame))
  {
    hide CheckFrame, FirstLine, FindEnd, Restored, TakenBy, Shown, Opens, HoldsNoCaretA;
    LineOpens(s, atEnd);
    StrictFrameEndsWithSoh(frame);
    ShownThenRestores(frame, text);
    RestoringAddsNoBreak(text);
    FrameThenText(lengthTags, frame, Restored(text));
    EndsAreRight(lengthTags, frame + Restored(text), SOH, None, true);
    assert (frame + Restored(text))[..|frame|] == frame;
  }

  lemma {:induction false} TakenOfShown(message: bytes, k: nat)
    requires HoldsNoCaretA(message) && k <= |message|
    ensures Restored(Shown(message)) == message
    ensures TakenBy(Shown(message), message, k) == |Shown(message[..k])|
    decreases k
  {
    ShownRestores(message);
    if k > 0 {
      var rest := message[1..];
      forall j | 0 <= j < |rest| ensures !CaretAAt(rest, j) { assert !CaretAAt(message, j + 1); }
      TakenOfShown(rest, k - 1);
      ShownWholeStep(message);
      assert message[..k][1..] == rest[..k - 1];
    }
  }

  lemma ShownWholeStep(message: bytes)
    requires message != [] && HoldsNoCaretA(message)
    ensures var line, step := Shown(message), if message[0] == SOH then 2 else 1;
            step <= |line| && (CaretAAt(line, 0) <==> message[0] == SOH) && line[step..] == Shown(message[1..])
  {
    var line, rest := Shown(message), message[1..];
    if message[0] == SOH {
      ShownSoh(message);
    } else {
      ShownOther(message);
      assert !CaretAAt(message, 0);
      if rest != [] {
        ShownFirst(rest);
        assert line[1] == Shown(rest)[0];
      }
    }
  }

  lemma {:induction false} ShownGrows(message: bytes, k: nat)
    requires k < |message|
    ensures |Shown(message[..k])| < |Shown(message)|
    decreases k
  {
    if k > 0 {
      ShownGrows(message[1..], k - 1);
      assert message[..k][1..] == message[1..][..k - 1];
    }
  }

  /**
   * A line shown with `^A` ends its message where the same text with SOH ends as the last of a log,
   * and takes the line break only when the message is the whole line.
   */
  lemma ShownEndsAsWithSoh(lengthTags: seq<Tag>, s: bytes, atEnd: bool, text: bytes, consumed: nat)
    requires StartsWith(s, BEGIN_STRING_PREFIX) && FirstLine(s, atEnd) == Some((Shown(text), consumed)) && HoldsNoCaretA(text)
    ensures Opens(text, SOH) && FindEnd(lengthTags, text, SOH, None, true).Some?
    ensures var end := FindEnd(lengthTags, text, SOH, None, true).value;
            && end.len <= |text|
            && var len := |Shown(text[..end.len])|;
            var taken := if end.len == |text| then consumed else len;
            CopiedMessage(lengthTags, s, atEnd) == Some((End(len, taken, end.truncated), text[..end.len]))
  {
    hide FirstLine, FindEnd, Restored, TakenBy, Shown, Opens, HoldsNoCaretA;
    LineOpens(s, atEnd);
    TakenOfShown(text, 0);
    EndsAreRight(lengthTags, text, SOH, None, true);
    var end := FindEnd(lengthTags, text, SOH, None, true).value;
    TakenOfShown(text, end.len);
    if end.len < |text| { ShownGrows(text, end.len); } else { assert text[..end.len] == text; }
  }

  lemma StrictFrameEndsWithSoh(frame: bytes)
    requires CheckFrame(frame) == None
    ensures frame != [] && frame[|frame| - 1] == SOH
  {
    AcceptedFrameEndsWithSoh(frame);
  }

  /** The first line is what stands before the first line break. */
  lemma LineIsFirst(line: bytes, lineBreak: bytes, rest: bytes, atEnd: bool)
    requires LF !in line && (line == [] || line[|line| - 1] != CR)
    requires (lineBreak == [LF] || lineBreak == [CR, LF]) && |line| + |lineBreak| <= MAX_MESSAGE_LEN
    ensures FirstLine(line + (lineBreak + rest), atEnd) == Some((line, |line| + |lineBreak|))
  {
    var s := line + (lineBreak + rest);
    var at := |line| + |lineBreak| - 1;
    var capped := s[..Min(|s|, MAX_MESSAGE_LEN)];
    assert capped[at] == LF && forall j :: 0 <= j < at ==> capped[j] == (line + lineBreak)[j] != LF;
    FirstByteAt(capped, LF, 0, |capped|, at);
    assert capped[..|line|] == line;
    if lineBreak == [CR, LF] { assert capped[at - 1] == CR; } else { assert |line| > 0 ==> capped[at - 1] == line[at - 1]; }
  }

  // Another byte for SOH.

  /** `separator` can stand for SOH in a logged message: it is no line break either. */
  predicate CanLog(s: bytes, separator: byte) {
    CanStandFor(s, separator) && separator != LF && separator != CR
  }

  lemma RenamedCap(s: bytes, separator: byte, atEnd: bool)
    requires CanLog(s, separator)
    ensures Capped(Renamed(s, separator), atEnd) == Renamed(Capped(s, atEnd), separator)
    ensures CapIsFinal(Renamed(s, separator), atEnd) == CapIsFinal(s, atEnd) && CanLog(Capped(s, atEnd), separator)
  {
    var t := Renamed(s, separator);
    assert s != [] ==> (t[|s| - 1] == CR <==> s[|s| - 1] == CR);
    forall j | 0 <= j < |Capped(s, atEnd)| ensures Capped(s, atEnd)[j] != separator { assert s[j] != separator; }
  }

  lemma RenamedFind(s: bytes, separator: byte, from: nat, until: nat)
    requires CanStandFor(s, separator) && from <= until <= |s|
    ensures FindByte(Renamed(s, separator), separator, from, until) == FindByte(s, SOH, from, until)
  {
    var t := Renamed(s, separator);
    assert forall i :: 0 <= i < |s| ==> (t[i] == separator <==> s[i] == SOH);
    var found, found' := FindByte(s, SOH, from, until), FindByte(t, separator, from, until);
  }

  lemma RenamedClaimAt(s: bytes, separator: byte, from: nat)
    requires CanStandFor(s, separator) && 2 < from <= |s|
    ensures ClaimAt(Renamed(s, separator), from, separator) == ClaimAt(s, from, SOH)
  {
    hide ParseU32, DigitRun, CanStandFor;
    var digits := DigitRun(s, from, MAX_BODY_LENGTH_DIGITS + 1);
    RenamedDigits(s, separator, from, MAX_BODY_LENGTH_DIGITS + 1);
    RenamedNumber(s, from, from + digits, separator);
    if from + digits < |s| { RenamedByte(s, separator, from + digits); }
  }

  lemma RenamedByte(s: bytes, separator: byte, at: nat)
    requires CanStandFor(s, separator) && at < |s|
    ensures Renamed(s, separator)[at] == separator <==> s[at] == SOH
  {
  }

  lemma RenamedDigits(s: bytes, separator: byte, from: nat, cap: nat)
    requires CanStandFor(s, separator) && from <= |s|
    ensures DigitRun(Renamed(s, separator), from, cap) == DigitRun(s, from, cap)
  {
    var t := Renamed(s, separator);
    assert forall i :: 0 <= i < |s| ==> (IsDigit(t[i]) <==> IsDigit(s[i]));
    SameDigitRun(s, t, from, cap);
  }

  lemma {:induction false} SameDigitRun(s: bytes, t: bytes, from: nat, cap: nat)
    requires |t| == |s| && from <= |s| && forall i :: 0 <= i < |s| ==> (IsDigit(t[i]) <==> IsDigit(s[i]))
    ensures DigitRun(t, from, cap) == DigitRun(s, from, cap)
    decreases cap
  {
    if cap > 0 && from < |s| { SameDigitRun(s, t, from + 1, cap - 1); }
  }

  lemma RenamedOpens(s: bytes, separator: byte, from: nat)
    requires CanStandFor(s, separator) && from <= |s|
    ensures StartsWith(Renamed(s, separator)[from..], BODY_LENGTH_TAG) <==> StartsWith(s[from..], BODY_LENGTH_TAG)
  {
    var t := Renamed(s, separator);
    assert forall i :: 0 <= i < |s| ==> (t[i] == 57 <==> s[i] == 57) && (t[i] == EQUALS <==> s[i] == EQUALS);
    TwoBytes(s, from);
    TwoBytes(t, from);
  }

  lemma TwoBytes(s: bytes, from: nat)
    requires from <= |s|
    ensures StartsWith(s[from..], BODY_LENGTH_TAG) <==> from + 2 <= |s| && s[from] == 57 && s[from + 1] == EQUALS
  {
    if from + 2 <= |s| { assert s[from..][..2] == [s[from], s[from + 1]]; }
  }

  lemma RenamedTrailer(s: bytes, separator: byte)
    requires CanStandFor(s, separator)
    ensures DeclaredTrailer(Renamed(s, separator), separator) == DeclaredTrailer(s, SOH)
  {
    hide ClaimAt, StartsWith, CanStandFor;
    RenamedFind(s, separator, 0, |s|);
    var tagStart := match FindByte(s, SOH, 0, |s|) case Some(at) => at + 1 case None => |s|;
    RenamedOpens(s, separator, tagStart);
    if StartsWith(s[tagStart..], BODY_LENGTH_TAG) {
      TwoBytes(s, tagStart);
      if tagStart > 0 { RenamedClaimAt(s, separator, tagStart + 2); }
    }
  }

  lemma RenamedValueEndAt(s: bytes, separator: byte, from: nat)
    requires CanLog(s, separator) && from <= |s|
    ensures FindValueEnd(Renamed(s, separator), from, separator) == FindValueEnd(s, from, SOH)
  {
    var t := Renamed(s, separator);
    assert forall i :: 0 <= i < |s| ==> (t[i] == separator <==> s[i] == SOH) && (t[i] == LF <==> s[i] == LF);
    var found, found' := FindValueEnd(s, from, SOH), FindValueEnd(t, from, separator);
  }

  lemma RenamedTrailerStart(s: bytes, separator: byte, start: nat)
    requires CanStandFor(s, separator) && 4 <= start && start + 3 <= |s|
    ensures Renamed(s, separator)[start - 1..start + 3] == [separator] + CHECKSUM_TAG <==> s[start - 1..start + 3] == [SOH] + CHECKSUM_TAG
  {
    var t := Renamed(s, separator);
    FourBytes(s, start - 1, SOH);
    FourBytes(t, start - 1, separator);
    assert forall i :: 0 <= i < |s| && s[i] != SOH ==> t[i] == s[i];
  }

  lemma FourBytes(s: bytes, from: nat, first: byte)
    requires from + 4 <= |s|
    ensures s[from..from + 4] == [first] + CHECKSUM_TAG <==>
            s[from] == first && s[from + 1] == 49 && s[from + 2] == 48 && s[from + 3] == EQUALS
  {
    assert s[from..from + 4] == [s[from], s[from + 1], s[from + 2], s[from + 3]];
    assert [first] + CHECKSUM_TAG == [first, 49, 48, EQUALS];
  }

  lemma RenamedAfter(s: bytes, separator: byte, len: nat, atEnd: bool)
    requires CanLog(s, separator) && len <= |s|
    ensures AfterMessage(Renamed(s, separator), len, atEnd) == AfterMessage(s, len, atEnd)
  {
    var t := Renamed(s, separator);
    assert forall i :: 0 <= i < |s| ==> (t[i] == LF <==> s[i] == LF) && (t[i] == CR <==> s[i] == CR);
    var rest, rest' := s[len..], t[len..];
    assert |rest| == |rest'| && forall i :: 0 <= i < |rest| ==> rest[i] == s[len + i] && rest'[i] == t[len + i];
    assert rest == [CR] <==> |rest| == 1 && rest[0] == CR;
    assert rest' == [CR] <==> |rest'| == 1 && rest'[0] == CR;
  }

  lemma RenamedTrailerEnd(s: bytes, separator: byte, start: nat, atEnd: bool)
    requires CanLog(s, separator) && 4 <= start
    ensures TrailerEnd(Renamed(s, separator), separator, start, atEnd) == TrailerEnd(s, SOH, start, atEnd)
  {
    hide CanLog, CanStandFor, Capped, CapIsFinal, AfterMessage, FindValueEnd;
    RenamedCap(s, separator, atEnd);
    var capped := Capped(s, atEnd);
    var renamed := Renamed(capped, separator);
    CanLogIs(s, separator);
    CanLogIs(capped, separator);
    if start + 3 <= |capped| {
      RenamedTrailerStart(capped, separator, start);
      RenamedValueEndAt(capped, separator, start + 3);
      var end := FindValueEnd(capped, start + 3, SOH);
      if end.Some? {
        RenamedAfter(s, separator, end.value + 1, atEnd);
        RenamedBreak(capped, separator, end.value);
      }
    }
  }

  lemma CanLogIs(s: bytes, separator: byte)
    requires CanLog(s, separator)
    ensures CanStandFor(s, separator) && separator != LF && separator != CR && separator !in s
  {
  }

  lemma RenamedBreak(capped: bytes, separator: byte, at: nat)
    requires CanLog(capped, separator) && 1 <= at < |capped|
    ensures AtLineBreak(Renamed(capped, separator), at, false) == AtLineBreak(capped, at, false)
    ensures Renamed(capped, separator)[at] == separator <==> capped[at] == SOH
  {
  }

  /** BodyLength ends a message where it does with SOH. */
  lemma RenamedEnds(s: bytes, separator: byte, atEnd: bool)
    requires CanLog(s, separator)
    ensures ByBodyLength(Renamed(s, separator), separator, atEnd) == ByBodyLength(s, SOH, atEnd)
  {
    hide CanLog, CanStandFor, Capped, CapIsFinal, TrailerEnd, DeclaredTrailer;
    RenamedCap(s, separator, atEnd);
    CanLogIs(Capped(s, atEnd), separator);
    RenamedTrailer(Capped(s, atEnd), separator);
    var claim := DeclaredTrailer(Capped(s, atEnd), SOH);
    if claim.Claim? { RenamedTrailerEnd(s, separator, claim.start, atEnd); }
  }

  // Any form.

  /** A frame as it is logged with `separator` for SOH. */
  function LoggedAs(frame: bytes, separator: Separator): (r: bytes)
    ensures separator.Byte? ==> |r| == |frame|
  {
    match separator
    case Byte(byte) => Renamed(frame, byte)
    case CaretA => Shown(frame)
  }

  /** The frame can be told from its form: it holds nothing that would read as its separator, or end its line. */
  predicate FitsForm(frame: bytes, separator: Separator) {
    match separator
    case Byte(byte) => byte == SOH || CanLog(frame, byte)
    case CaretA => HoldsNoCaretA(frame) && LF !in frame && |Shown(frame)| + 2 <= MAX_MESSAGE_LEN
  }

  /** A strict frame that can be logged so, within the cap. */
  predicate Loggable(frame: bytes, separator: Separator) {
    CheckFrame(frame) == None && |frame| <= MAX_MESSAGE_LEN && FitsForm(frame, separator)
  }

  predicate IsLineBreak(lineBreak: bytes) {
    lineBreak == [LF] || lineBreak == [CR, LF]
  }

  lemma RenamedAsItself(s: bytes)
    ensures Renamed(s, SOH) == s
  {
  }

  /** With SOH, a strict frame ends at its last byte, with the line break after it. */
  lemma FrameThenBreak(frame: bytes, lineBreak: bytes, rest: bytes)
    requires CheckFrame(frame) == None && |frame| <= MAX_MESSAGE_LEN && IsLineBreak(lineBreak)
    ensures ByBodyLength(frame + (lineBreak + rest), SOH, false) == EndFound(End(|frame|, |frame| + |lineBreak|, false))
  {
    hide CheckFrame, Scan, ByBodyLength, WellFormed, IsMsgType;
    CheckedFrameFits(frame);
    var l := AcceptedFrameIsWellFormed(frame, U32_MAX);
    WellFormedFrameIsAccepted(frame, l, lineBreak + rest, MAX_MESSAGE_LEN);
    StrictFramesEndTheSame(frame + (lineBreak + rest), false);
    AfterBreak(frame, lineBreak, rest);
    hide AfterMessage;
  }

  lemma AfterBreak(frame: bytes, lineBreak: bytes, rest: bytes)
    requires IsLineBreak(lineBreak)
    ensures AfterMessage(frame + (lineBreak + rest), |frame|, false) == Some(End(|frame|, |frame| + |lineBreak|, false))
  {
    assert (frame + (lineBreak + rest))[|frame|..] == lineBreak + rest;
  }

  /** And so it does with any other byte. */
  lemma RenamedThenBreak(frame: bytes, byte: byte, lineBreak: bytes, rest: bytes, given: Option<byte>)
    requires CheckFrame(frame) == None && |frame| <= MAX_MESSAGE_LEN && CanLog(frame, byte) && IsLineBreak(lineBreak)
    requires Check(Renamed(frame, byte), given) == IsStart(Byte(byte))
    ensures ByBodyLength(Renamed(frame, byte) + (lineBreak + rest), byte, false) == EndFound(End(|frame|, |frame| + |lineBreak|, false))
  {
    hide CheckFrame, ByBodyLength, Check;
    FrameThenBreak(frame, lineBreak, []);
    assert lineBreak + [] == lineBreak;
    CanLogWithBreak(frame, byte, lineBreak);
    RenamedEnds(frame + lineBreak, byte, false);
    CheckStable(Renamed(frame, byte), lineBreak, given);
    ByBodyLengthStable(Renamed(frame, byte) + lineBreak, rest, given, byte);
    Associates(Renamed(frame, byte), lineBreak, rest);
  }

  lemma CanLogWithBreak(frame: bytes, byte: byte, lineBreak: bytes)
    requires CanLog(frame, byte) && IsLineBreak(lineBreak)
    ensures CanLog(frame + lineBreak, byte) && Renamed(frame + lineBreak, byte) == Renamed(frame, byte) + lineBreak
  {
    var s := frame + lineBreak;
    forall j | 0 <= j < |s| ensures s[j] != byte { assert j < |frame| ==> s[j] == frame[j] && frame[j] in frame; }
  }

  // Message starts.

  /** `s` opens with `8=FIX`, a value that ends at `end`, a separator and `9=`. */
  predicate OpensWith(s: bytes, end: nat, separator: Separator) {
    && |BEGIN_STRING_PREFIX| <= end <= MAX_BEGIN_STRING_LEN && end + SeparatorLen(separator) + 2 <= |s|
    && s[..|BEGIN_STRING_PREFIX|] == BEGIN_STRING_PREFIX
    && (forall j :: |BEGIN_STRING_PREFIX| <= j < end ==> IsValueByte(s[j]))
    && s[end + SeparatorLen(separator)] == 57 && s[end + SeparatorLen(separator) + 1] == EQUALS
    && match separator
       case Byte(byte) => s[end] == byte
       case CaretA => s[end] == CARET && s[end + 1] == UPPER_A
  }

  /** The start check takes a message that opens so, and tells its separator. */
  lemma OpeningIsStart(s: bytes, end: nat, separator: Separator, given: Option<byte>)
    requires OpensWith(s, end, separator) && IsDetected(separator, given)
    ensures Check(s, given) == IsStart(separator)
  {
    hide IsDetected;
    var at := end + SeparatorLen(separator);
    assert s[at..at + 1] == [57];
    assert s[end..at] == SeparatorText(separator);
    OpeningIsTaken(s, given, separator, end, at + 1);
  }

  /** A strict frame whose BeginString value is letters, digits and points opens so in every form. */
  lemma LoggedFrameOpens(frame: bytes, end: nat, separator: Separator)
    requires CheckFrame(frame) == None && FindByte(frame, SOH, 0, |frame|) == Some(end)
    requires forall j :: |BEGIN_STRING_PREFIX| <= j < end ==> IsValueByte(frame[j])
    ensures OpensWith(LoggedAs(frame, separator), end, separator)
  {
    hide CheckFrame, FindByte, OpensWith, LoggedAs, IsValueByte, Scan;
    FrameOpensWithSoh(frame, end);
    match separator
    case Byte(byte) => RenamedOpensWith(frame, end, byte);
    case CaretA => ShownOpensWith(frame, end);
  }

  lemma FrameOpensWithSoh(frame: bytes, end: nat)
    requires CheckFrame(frame) == None && FindByte(frame, SOH, 0, |frame|) == Some(end)
    requires forall j :: |BEGIN_STRING_PREFIX| <= j < end ==> IsValueByte(frame[j])
    ensures OpensWith(frame, end, Byte(SOH)) && forall j :: 0 <= j < end ==> frame[j] != SOH
  {
    hide CheckFrame, Scan, BeginStringAt, BodyLengthAt, IsBody, ChecksumAt, IsMsgType;
    CheckedFrameFits(frame);
    var l := AcceptedFrameIsWellFormed(frame, U32_MAX);
    FirstSohEndsBeginString(frame, l.beginStringEnd);
    OpenedBy(frame, l.beginStringEnd);
    LengthFollows(frame, l.beginStringEnd + 1, l.bodyLengthEnd, l.bodyEnd - (l.bodyLengthEnd + 1));
  }

  lemma OpenedBy(s: bytes, until: nat)
    requires BeginStringAt(s, until)
    ensures |s| >= 5 && s[..5] == BEGIN_STRING_PREFIX && 5 <= until < |s| && until <= MAX_BEGIN_STRING_LEN && s[until] == SOH
  {
    FrameOpens(s, until);
  }

  lemma LengthFollows(s: bytes, from: nat, until: nat, length: nat)
    requires BodyLengthAt(s, from, until, length)
    ensures from + 2 <= |s| && s[from] == 57 && s[from + 1] == EQUALS
  {
    hide DigitsValue;
    assert s[from..from + 2][0] == s[from] && s[from..from + 2][1] == s[from + 1];
  }

  lemma RenamedOpensWith(frame: bytes, end: nat, byte: byte)
    requires OpensWith(frame, end, Byte(SOH)) && forall j :: 0 <= j < end ==> frame[j] != SOH
    ensures OpensWith(LoggedAs(frame, Byte(byte)), end, Byte(byte))
  {
    var t := LoggedAs(frame, Byte(byte));
    assert t[..5] == frame[..5];
  }

  lemma {:induction false} ShownPlain(message: bytes, n: nat)
    requires n <= |message| && forall j :: 0 <= j < n ==> message[j] != SOH
    ensures Shown(message) == message[..n] + Shown(message[n..])
    decreases n
  {
    if n == 0 {
      assert message[0..] == message;
    } else {
      ShownPlain(message[1..], n - 1);
      assert message[1..][n - 1..] == message[n..];
      assert message[..n] == [message[0]] + message[1..][..n - 1];
    }
  }

  lemma ShownOpensWith(frame: bytes, end: nat)
    requires OpensWith(frame, end, Byte(SOH)) && forall j :: 0 <= j < end ==> frame[j] != SOH
    ensures OpensWith(LoggedAs(frame, CaretA), end, CaretA)
  {
    var rest, length := frame[end..], frame[end + 1..];
    ShownPlain(frame, end);
    ShownSoh(rest);
    assert rest[1..] == length && length[0] == 57 && length[1] == EQUALS;
    ShownPlain(length, 2);
    ShownIs(frame[..end], length[..2], Shown(length[2..]), frame);
  }

  lemma ShownIs(head: bytes, tag: bytes, rest: bytes, frame: bytes)
    requires |tag| == 2 && head <= frame && |head| >= 5
    ensures var t := head + ([CARET, UPPER_A] + (tag + rest));
            && t[..5] == frame[..5] && (forall j :: 0 <= j < |head| ==> t[j] == frame[j])
            && |t| >= |head| + 4 && t[|head|] == CARET && t[|head| + 1] == UPPER_A && t[|head| + 2] == tag[0] && t[|head| + 3] == tag[1]
  {
  }

  /** So the start check takes it, in every form the log's separators allow. */
  lemma LoggedFrameStarts(frame: bytes, separator: Separator, given: Option<byte>)
    requires CheckFrame(frame) == None && IsDetected(separator, given)
    requires var end := FindByte(frame, SOH, 0, |frame|);
             end.Some? && forall j :: |BEGIN_STRING_PREFIX| <= j < end.value ==> IsValueByte(frame[j])
    ensures Check(LoggedAs(frame, separator), given) == IsStart(separator)
  {
    hide CheckFrame, FindByte, OpensWith, LoggedAs, Check, IsDetected;
    var end := FindByte(frame, SOH, 0, |frame|).value;
    LoggedFrameOpens(frame, end, separator);
    OpeningIsStart(LoggedAs(frame, separator), end, separator, given);
  }
}
