/** How long the log reader waits: it never holds more than a prefix, a message and a start's worth of bytes. */
module LogWaits {
  import opened Wrappers
  import opened Bytes
  import opened Framing
  import opened Tags
  import opened Tokenizer
  import opened LogStart
  import opened LogEnd
  import opened CaretA
  import opened LogReader
  import opened LogWalkEnds

  /** The longest bytes that may or may not be a start: a BeginString field, `^A` and a tag. */
  const MAX_OPENING_LEN: nat := MAX_BEGIN_STRING_LEN + 2 + MAX_TAG_DIGITS

  lemma UndecidedIsShort(s: bytes, given: Option<byte>)
    requires Check(s, given) == NeedsMore
    ensures |s| <= MAX_OPENING_LEN
  {
  }

  lemma CapIsFull(s: bytes)
    requires |s| >= MAX_MESSAGE_LEN
    ensures |Capped(s, false)| == MAX_MESSAGE_LEN && CapIsFinal(s, false)
  {
  }

  lemma LineBreakIsThere(s: bytes, len: nat)
    requires len <= MAX_MESSAGE_LEN && |s| > MAX_MESSAGE_LEN + MAX_OPENING_LEN
    ensures AfterMessage(s, len, false).Some?
  {
  }

  /** With the cap full and a start's worth of bytes after it, the message's end is found. */
  lemma EndIsFound(lengthTags: seq<Tag>, s: bytes, separator: byte, given: Option<byte>)
    requires Opens(s, separator) && |s| > MAX_MESSAGE_LEN + MAX_OPENING_LEN
    ensures FindEnd(lengthTags, s, separator, given, false).Some?
  {
    hide Opens, Walk, DeclaredTrailer, FindValueEnd, Capped, AfterMessage;
    CapIsFull(s);
    WalkIsOver(lengthTags, s, separator, given);
    ByLengthIsDecided(s, separator);
  }

  lemma ByLengthIsDecided(s: bytes, separator: byte)
    requires |s| > MAX_MESSAGE_LEN + MAX_OPENING_LEN
    ensures ByBodyLength(s, separator, false) != EndPending
  {
    hide DeclaredTrailer, Capped, CapIsFinal, AfterMessage;
    CapIsFull(s);
    var claim := DeclaredTrailer(Capped(s, false), separator);
    if claim.Claim? && claim.start + 3 <= |Capped(s, false)| {
      var found := FindValueEnd(Capped(s, false), claim.start + 3, separator);
      if found.Some? { LineBreakIsThere(s, found.value + 1); }
    }
  }

  lemma WalkIsOver(lengthTags: seq<Tag>, s: bytes, separator: byte, given: Option<byte>)
    requires Opens(s, separator) && |s| > MAX_MESSAGE_LEN + MAX_OPENING_LEN
    ensures Walk(lengthTags, s, separator, given, false, 0, None).Some?
  {
    hide Opens, Walk, Capped, CapIsFinal, Fields, AfterMessage, Stops, IsLast;
    var w := Walked(lengthTags, s, separator, given, false);
    CapIsFull(s);
    var n := WalkEndsExactly(w);
    var fields := AllFields(lengthTags, CapOf(w), separator);
    if p :| EndsWhere(w, 0, fields, None, n, p, Walk(lengthTags, s, separator, given, false, 0, None)) {
      StopIsInside(w, 0, fields, None, n, p);
      StopIsDecided(w, fields, n, p);
    } else if n < |fields| && fields[n].valueEnd < |CapOf(w)| {
      LineBreakIsThere(s, fields[n].valueEnd + 1);
    }
  }

  lemma StopIsDecided(w: Walked, fields: seq<RawField>, n: nat, p: nat)
    requires !w.atEnd && |w.s| > MAX_MESSAGE_LEN + MAX_OPENING_LEN && InOrder(CapOf(w), fields) && n <= |fields|
    requires 0 < p < |CapOf(w)| && Stops(w, 0, fields, None, n, p)
    ensures EndAt(w, p, true).Some? && EndAt(w, p, false).Some?
  {
    hide Capped, Check, InData, Limit;
    CapIsFull(w.s);
    if Check(w.s[p..], w.given) == NeedsMore { UndecidedIsShort(w.s[p..], w.given); }
  }

  lemma StartHasPrefix(s: bytes, given: Option<byte>)
    requires Check(s, given).IsStart?
    ensures StartsWith(s, BEGIN_STRING_PREFIX)
  {
    hide CheckValue;
  }

  /** So is a message in either form. */
  lemma MessageIsFound(lengthTags: seq<Tag>, given: Option<byte>, s: bytes, separator: Separator)
    requires Check(s, given) == IsStart(separator) && |s| > MAX_MESSAGE_LEN + MAX_OPENING_LEN
    ensures MessageAt(lengthTags, given, s, separator, false).Some?
  {
    hide Check, FindEnd, RightEnd, Restored, TakenBy;
    match separator
    case Byte(byte) =>
      StartOpens(s, given, byte);
      EndIsFound(lengthTags, s, byte, given);
    case CaretA =>
      StartHasPrefix(s, given);
      CopiesAreRight(lengthTags, s, false);
      CopyIsFound(lengthTags, s);
  }

  lemma CopyIsFound(lengthTags: seq<Tag>, s: bytes)
    requires StartsWith(s, BEGIN_STRING_PREFIX) && |s| >= MAX_MESSAGE_LEN
    ensures CopiedMessage(lengthTags, s, false).Some?
  {
    hide Restored, TakenBy, FindEnd, RightEnd;
    var (line, _) := FirstLine(s, false).value;
    LineOpens(s, false);
    EndsAreRight(lengthTags, Restored(line), SOH, None, true);
  }

  /** A reader that has nothing to give holds at most a capped prefix, and less than a message and an opening. */
  lemma WaitingReaderIsShort(lengthTags: seq<Tag>, given: Option<byte>, s: LogState)
    requires s.searched <= |s.buf| && ReadStep(lengthTags, given, s, false).taken.None?
    ensures |ReadStep(lengthTags, given, s, false).state.buf| <= MAX_PREFIX_LEN + MAX_MESSAGE_LEN + MAX_OPENING_LEN
  {
    hide FindStart, MessageAt, Check, RecordOf, RightEnd;
    var next := FindStart(s.buf, s.searched, |s.buf|, given, false);
    SearchIsWithin(s.buf, s.searched, given, false);
    var rest := s.buf[Reached(next, |s.buf|)..];
    PendingIsUndecided(s.buf, s.searched, |s.buf|, given);
    if next.PendingStart? {
      UndecidedIsShort(rest, given);
    } else if next.Found? && |rest| > MAX_MESSAGE_LEN + MAX_OPENING_LEN {
      MessageIsFound(lengthTags, given, rest, next.start.separator);
    }
  }

  lemma {:induction false} PendingIsUndecided(s: bytes, from: nat, until: nat, given: Option<byte>)
    requires from <= until <= |s|
    ensures var next := FindStart(s, from, until, given, false);
            next.PendingStart? ==> next.at < |s| && Check(s[next.at..], given) == NeedsMore
    decreases until - from
  {
    hide Check, Eligible;
    if from < until { PendingIsUndecided(s, from + 1, until, given); }
  }
}
