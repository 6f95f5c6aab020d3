/** Finding where a logged message ends. */
module LogEnd {
  import opened Wrappers
  import opened Bytes
  import opened Tags
  import opened Framing
  import opened Tokenizer
  import opened LogStart

  const MAX_MESSAGE_LEN: nat := 0x10_0000

  /** A message's length, the bytes its record takes, and whether it ends before its CheckSum. */
  datatype End = End(len: nat, consumed: nat, truncated: bool)

  datatype BodyLengthEnd = EndFound(end: End) | NoEnd | EndPending

  /** What BodyLength says of where the CheckSum field starts. */
  datatype TrailerClaim = Claim(start: nat) | NoClaim | ClaimPending

  /** The bytes a message can hold: a `\r` that ends the log is left to a line break cut short. */
  function Capped(s: bytes, atEnd: bool): (r: bytes)
    ensures |r| <= |s| && |r| <= MAX_MESSAGE_LEN && r == s[..|r|]
  {
    var kept := if atEnd && s != [] && s[|s| - 1] == CR then s[..|s| - 1] else s;
    kept[..Min(|kept|, MAX_MESSAGE_LEN)]
  }

  /** Whether no more bytes can join the message. */
  predicate CapIsFinal(s: bytes, atEnd: bool) {
    atEnd || |Capped(s, atEnd)| == MAX_MESSAGE_LEN
  }

  /** The end of a message whose CheckSum field ends at `len`, taking one line break after it. */
  function AfterMessage(s: bytes, len: nat, atEnd: bool): (r: Option<End>)
    requires len <= |s|
  {
    var rest := s[len..];
    if !atEnd && (rest == [] || rest == [CR]) then None
    else
      var consumed :=
        if rest != [] && rest[0] == LF then len + 1
        else if |rest| >= 2 && rest[0] == CR && rest[1] == LF then len + 2
        else len;
      Some(End(len, consumed, false))
  }

  /** The end of a message at the line break at `at`, which its record takes. */
  function AtLineBreak(s: bytes, at: nat, truncated: bool): (r: End)
    requires 1 <= at < |s|
  {
    End(if s[at - 1] == CR then at - 1 else at, at + 1, truncated)
  }

  /** Where the BodyLength field after the first separator says the CheckSum field starts. */
  function DeclaredTrailer(s: bytes, separator: byte): (r: TrailerClaim)
    ensures r.Claim? ==> 4 <= r.start
  {
    var tagStart := match FindByte(s, separator, 0, |s|) case Some(at) => at + 1 case None => |s|;
    if !StartsWith(s[tagStart..], BODY_LENGTH_TAG) then NoClaim
    else ClaimAt(s, tagStart + 2, separator)
  }

  function ClaimAt(s: bytes, from: nat, separator: byte): (r: TrailerClaim)
    requires 2 < from <= |s|
    ensures r.Claim? ==> 4 <= r.start
  {
    var digits := DigitRun(s, from, MAX_BODY_LENGTH_DIGITS + 1);
    if digits > MAX_BODY_LENGTH_DIGITS then NoClaim
    else if from + digits == |s| then ClaimPending
    else if s[from + digits] != separator then NoClaim
    else
      match ParseU32(s[from..from + digits])
      case None => NoClaim
      case Some(bodyLength) => Claim(from + digits + 1 + bodyLength)
  }

  function PendingUnless(final: bool): BodyLengthEnd {
    if final then NoEnd else EndPending
  }

  /** The end of the CheckSum field that should start at `start`. */
  function TrailerEnd(s: bytes, separator: byte, start: nat, atEnd: bool): (r: BodyLengthEnd)
    requires 4 <= start
  {
    var capped, final := Capped(s, atEnd), CapIsFinal(s, atEnd);
    if |capped| < start + 3 then PendingUnless(final)
    else if capped[start - 1..start + 3] != [separator] + CHECKSUM_TAG then NoEnd
    else
      match FindValueEnd(capped, start + 3, separator)
      case Some(at) =>
        if capped[at] == separator then
          match AfterMessage(s, at + 1, atEnd)
          case Some(end) => EndFound(end)
          case None => EndPending
        else EndFound(AtLineBreak(capped, at, false))
      case None =>
        if final then EndFound(End(|capped|, |capped|, false)) else EndPending
  }

  /** The first separator or line feed at or after `from`. */
  function FindValueEnd(s: bytes, from: nat, separator: byte): (r: Option<nat>)
    requires from <= |s|
    ensures r.Some? ==> from <= r.value < |s| && (s[r.value] == separator || s[r.value] == LF)
    ensures r.Some? ==> forall j :: from <= j < r.value ==> s[j] != separator && s[j] != LF
    ensures r.None? ==> forall j :: from <= j < |s| ==> s[j] != separator && s[j] != LF
    decreases |s| - from
  {
    if from == |s| then None
    else if s[from] == separator || s[from] == LF then Some(from)
    else FindValueEnd(s, from + 1, separator)
  }

  /** The end BodyLength gives, if it points at a CheckSum field. */
  function ByBodyLength(s: bytes, separator: byte, atEnd: bool): (r: BodyLengthEnd) {
    match DeclaredTrailer(Capped(s, atEnd), separator)
    case NoClaim => NoEnd
    case ClaimPending => PendingUnless(CapIsFinal(s, atEnd))
    case Claim(start) => TrailerEnd(s, separator, start, atEnd)
  }

  /** One field's part in the walk: the walk is over, or goes on at a later field. */
  datatype WalkStep = Over(end: Option<End>) | GoOn(pos: nat, dataLen: Option<nat>)

  /** How far a field's bytes are searched for a start or a line break: a value read by its length may hold anything. */
  function CheckedEnd(capped: bytes, pos: nat, next: Option<(RawField, nat)>, dataLen: Option<nat>): nat {
    match next
    case None => |capped|
    case Some((field, _)) =>
      if dataLen == Some(field.valueEnd - field.valueStart) then field.valueStart else field.valueEnd
  }

  /** What an accepted start assures: `8=FIX`, and a separator no BeginString value holds. */
  predicate Opens(s: bytes, separator: byte) {
    StartsWith(s, BEGIN_STRING_PREFIX) && !IsValueByte(separator)
  }

  lemma StartOpens(s: bytes, given: Option<byte>, separator: byte)
    requires Check(s, given) == IsStart(Byte(separator))
    ensures Opens(s, separator)
  {
  }

  /** What the field at `pos` makes of the walk. */
  function StepWalk(
    lengthTags: seq<Tag>, s: bytes, separator: byte, given: Option<byte>, atEnd: bool, pos: nat, dataLen: Option<nat>)
    : (r: WalkStep)
    requires Opens(s, separator) && pos <= |Capped(s, atEnd)|
    ensures r.GoOn? ==> pos < r.pos <= |Capped(s, atEnd)|
  {
    var capped, final := Capped(s, atEnd), CapIsFinal(s, atEnd);
    assert s[..5] == BEGIN_STRING_PREFIX && s[0] == 56 && s[1] == EQUALS;
    var next := NextField(capped, pos, dataLen, separator);
    if next.Some? && dataLen.Some? && !final && next.value.0.valueStart + dataLen.value >= |capped| then
      // The data value may run past the bytes so far.
      Over(None)
    else
      var from, checkedEnd := if pos == 0 then 1 else pos, CheckedEnd(capped, pos, next, dataLen);
      FirstFieldIsLong(s, atEnd, dataLen, separator);
      var lineBreak := FindByte(capped, LF, from, checkedEnd);
      match FindStart(s, from, if lineBreak.Some? then lineBreak.value else checkedEnd, given, atEnd)
      case Found(start) => Over(Some(End(start.at, start.at, true)))
      case PendingStart(_) => Over(None)
      case NoStart => StepFromField(lengthTags, s, atEnd, next, lineBreak)
  }

  /** What a field, with no message start in it, makes of the walk. */
  function StepFromField(lengthTags: seq<Tag>, s: bytes, atEnd: bool, next: Option<(RawField, nat)>, lineBreak: Option<nat>): (r: WalkStep)
    requires lineBreak.Some? ==> 1 <= lineBreak.value < |Capped(s, atEnd)|
    requires next.Some? ==> next.value.0.valueStart <= next.value.0.valueEnd <= |Capped(s, atEnd)| && next.value.1 == next.value.0.valueEnd + 1
    ensures r.GoOn? ==> next.Some? && r.pos == next.value.1 <= |Capped(s, atEnd)|
  {
    var capped, final := Capped(s, atEnd), CapIsFinal(s, atEnd);
    if lineBreak.Some? then
      Over(Some(AtLineBreak(capped, lineBreak.value, !(next.Some? && next.value.0.tag == CHECKSUM))))
    else
      match next
      case None =>
        // The rest holds no `=` or separator yet.
        Over(if final then Some(End(|capped|, |capped|, true)) else None)
      case Some((field, after)) =>
        if field.valueEnd == |capped| then
          // The value runs to the end of the bytes so far.
          Over(if final then Some(End(|capped|, |capped|, field.tag != CHECKSUM)) else None)
        else if field.tag == CHECKSUM then Over(AfterMessage(s, after, atEnd))
        else GoOn(after, PendingDataLen(lengthTags, capped, field))
  }

  /** The first field holds at least `8=`, or the first separator is past it. */
  lemma FirstFieldIsLong(s: bytes, atEnd: bool, dataLen: Option<nat>, separator: byte)
    requires Opens(s, separator)
    ensures var capped := Capped(s, atEnd);
            && 5 <= |capped| <= |s| && capped[0] == s[0] == 56 && capped[1] == EQUALS
            && var next := NextField(capped, 0, dataLen, separator);
            next.Some? && 1 <= CheckedEnd(capped, 0, next, dataLen) <= |capped|
  {
    assert s[..5] == BEGIN_STRING_PREFIX;
    assert s[4] == 88;
    var capped := Capped(s, atEnd);
    assert capped[0] == s[0] && capped[1] == s[1];
    assert FindTagEnd(capped, 0, separator).Some?;
  }

  /** Walks the fields from `pos` to the CheckSum field. */
  function Walk(
    lengthTags: seq<Tag>, s: bytes, separator: byte, given: Option<byte>, atEnd: bool, pos: nat, dataLen: Option<nat>)
    : (r: Option<End>)
    requires Opens(s, separator) && pos <= |Capped(s, atEnd)|
    decreases |Capped(s, atEnd)| - pos
  {
    match StepWalk(lengthTags, s, separator, given, atEnd, pos, dataLen)
    case Over(end) => end
    case GoOn(later, pending) => Walk(lengthTags, s, separator, given, atEnd, later, pending)
  }

  /** Walks the fields of the message at the start of `s` to its CheckSum field. */
  method WalkFields(lengthTags: seq<Tag>, s: bytes, separator: byte, given: Option<byte>, atEnd: bool) returns (end: Option<End>)
    requires Opens(s, separator)
    ensures end == Walk(lengthTags, s, separator, given, atEnd, 0, None)
  {
    hide NextField, FindStart, FindByte, Capped, CapIsFinal, Opens, PendingDataLen, AfterMessage, AtLineBreak;
    var capped, final := Capped(s, atEnd), CapIsFinal(s, atEnd);
    var pos, dataLen: Option<nat> := 0, None;
    while true
      invariant pos <= |capped|
      invariant Walk(lengthTags, s, separator, given, atEnd, pos, dataLen) == Walk(lengthTags, s, separator, given, atEnd, 0, None)
      decreases |capped| - pos
    {
      var next := NextField(capped, pos, dataLen, separator);
      if next.Some? && dataLen.Some? && !final && next.value.0.valueStart + dataLen.value >= |capped| {
        return None;
      }
      FirstFieldIsLong(s, atEnd, dataLen, separator);
      var from, checkedEnd := if pos == 0 then 1 else pos, CheckedEnd(capped, pos, next, dataLen);
      var lineBreak := FindByte(capped, LF, from, checkedEnd);
      var searchEnd := if lineBreak.Some? then lineBreak.value else checkedEnd;
      match FindStart(s, from, searchEnd, given, atEnd) {
        case Found(start) => return Some(End(start.at, start.at, true));
        case PendingStart(_) => return None;
        case NoStart =>
      }
      if lineBreak.Some? {
        var isChecksum := next.Some? && next.value.0.tag == CHECKSUM;
        return Some(AtLineBreak(capped, lineBreak.value, !isChecksum));
      }
      if next.None? {
        return if final then Some(End(|capped|, |capped|, true)) else None;
      }
      var (field, after) := next.value;
      if field.valueEnd == |capped| {
        return if final then Some(End(|capped|, |capped|, field.tag != CHECKSUM)) else None;
      }
      if field.tag == CHECKSUM {
        return AfterMessage(s, after, atEnd);
      }
      dataLen := PendingDataLen(lengthTags, capped, field);
      pos := after;
    }
  }

  /** Where the message at the start of `s` ends, or `None` until more bytes arrive. */
  function FindEnd(lengthTags: seq<Tag>, s: bytes, separator: byte, given: Option<byte>, atEnd: bool): (r: Option<End>)
    requires Opens(s, separator)
  {
    match ByBodyLength(s, separator, atEnd)
    case EndFound(end) => Some(end)
    case NoEnd => Walk(lengthTags, s, separator, given, atEnd, 0, None)
    case EndPending => None
  }

  method FindMessageEnd(lengthTags: seq<Tag>, s: bytes, separator: byte, given: Option<byte>, atEnd: bool) returns (end: Option<End>)
    requires Opens(s, separator)
    ensures end == FindEnd(lengthTags, s, separator, given, atEnd)
  {
    match ByBodyLength(s, separator, atEnd) {
      case EndFound(found) => return Some(found);
      case NoEnd => end := WalkFields(lengthTags, s, separator, given, atEnd);
      case EndPending => return None;
    }
  }

  /** An end is of at least one byte, within the bytes, and takes at most one line break after it. */
  predicate RightEnd(s: bytes, end: End) {
    && 1 <= end.len <= end.consumed <= |s|
    && var lineBreak := s[end.len..end.consumed];
    lineBreak == [] || lineBreak == [LF] || lineBreak == [CR, LF]
  }

  lemma AfterMessageIsRight(s: bytes, len: nat, atEnd: bool)
    requires 1 <= len <= |s|
    ensures atEnd ==> AfterMessage(s, len, atEnd).Some?
    ensures AfterMessage(s, len, atEnd).Some? ==> RightEnd(s, AfterMessage(s, len, atEnd).value)
  {
    var rest := s[len..];
    if rest != [] && rest[0] == LF { assert s[len..len + 1] == [LF]; }
    if |rest| >= 2 && rest[0] == CR && rest[1] == LF { assert s[len..len + 2] == [CR, LF]; }
  }

  lemma LineBreakIsRight(s: bytes, capped: bytes, at: nat, truncated: bool)
    requires |capped| <= |s| && capped == s[..|capped|] && 1 <= at < |capped| && capped[at] == LF && capped[0] != CR
    ensures RightEnd(s, AtLineBreak(capped, at, truncated))
  {
    assert s[at..at + 1] == [LF];
    if capped[at - 1] == CR { assert s[at - 1..at + 1] == [CR, LF]; }
  }

  lemma TrailerEndIsRight(s: bytes, separator: byte, start: nat, atEnd: bool)
    requires 4 <= start && s != [] && s[0] != CR
    ensures var r := TrailerEnd(s, separator, start, atEnd);
            (r.EndFound? ==> RightEnd(s, r.end)) && (atEnd ==> !r.EndPending?)
  {
    hide RightEnd, FindValueEnd, AfterMessage, AtLineBreak, Capped;
    var capped := Capped(s, atEnd);
    if start + 3 <= |capped| {
      assert capped[0] == s[0];
      NoBreakIsRight(s, |capped|, false);
      var end := FindValueEnd(capped, start + 3, separator);
      if end.Some? {
        AfterMessageIsRight(s, end.value + 1, atEnd);
        if capped[end.value] == LF { LineBreakIsRight(s, capped, end.value, false); }
      }
    }
  }

  /** A step that ends the walk ends it right, and at the end of the input it does end it. */
  predicate RightStep(s: bytes, atEnd: bool, step: WalkStep) {
    step.Over? ==> (atEnd ==> step.end.Some?) && (step.end.Some? ==> RightEnd(s, step.end.value))
  }

  lemma WaitingIsRight(s: bytes)
    ensures RightStep(s, false, Over(None))
  {
  }

  lemma StepIsRight(
    lengthTags: seq<Tag>, s: bytes, separator: byte, given: Option<byte>, atEnd: bool, pos: nat, dataLen: Option<nat>)
    requires Opens(s, separator) && pos <= |Capped(s, atEnd)|
    ensures RightStep(s, atEnd, StepWalk(lengthTags, s, separator, given, atEnd, pos, dataLen))
  {
    hide StepFromField, NextField, FindStart, FindByte, RightEnd, RightStep, Capped, Opens, StartsWith;
    FirstFieldIsLong(s, atEnd, dataLen, separator);
    WaitingIsRight(s);
    var capped := Capped(s, atEnd);
    var next := NextField(capped, pos, dataLen, separator);
    var from, checkedEnd := if pos == 0 then 1 else pos, CheckedEnd(capped, pos, next, dataLen);
    var lineBreak := FindByte(capped, LF, from, checkedEnd);
    StepFromFieldIsRight(lengthTags, s, atEnd, next, lineBreak);
    var start := FindStart(s, from, if lineBreak.Some? then lineBreak.value else checkedEnd, given, atEnd);
    if start.Found? { NoBreakIsRight(s, start.start.at, true); }
  }

  lemma StepFromFieldIsRight(lengthTags: seq<Tag>, s: bytes, atEnd: bool, next: Option<(RawField, nat)>, lineBreak: Option<nat>)
    requires var capped := Capped(s, atEnd); capped != [] && s[0] != CR
    requires lineBreak.Some? ==> 1 <= lineBreak.value < |Capped(s, atEnd)| && Capped(s, atEnd)[lineBreak.value] == LF
    requires next.Some? ==> next.value.0.valueStart <= next.value.0.valueEnd <= |Capped(s, atEnd)| && next.value.1 == next.value.0.valueEnd + 1
    ensures RightStep(s, atEnd, StepFromField(lengthTags, s, atEnd, next, lineBreak))
  {
    var capped := Capped(s, atEnd);
    assert capped[0] == s[0];
    if lineBreak.Some? {
      LineBreakIsRight(s, capped, lineBreak.value, !(next.Some? && next.value.0.tag == CHECKSUM));
    } else if next.Some? && next.value.1 <= |s| {
      AfterMessageIsRight(s, next.value.1, atEnd);
    }
    hide RightEnd, AfterMessage, AtLineBreak;
    NoBreakIsRight(s, |capped|, true);
    NoBreakIsRight(s, |capped|, false);
  }

  lemma NoBreakIsRight(s: bytes, n: nat, truncated: bool)
    requires 1 <= n <= |s|
    ensures RightEnd(s, End(n, n, truncated)) && forall atEnd: bool :: RightStep(s, atEnd, Over(Some(End(n, n, truncated))))
  {
  }

  lemma {:induction false} WalkIsRight(
    lengthTags: seq<Tag>, s: bytes, separator: byte, given: Option<byte>, atEnd: bool, pos: nat, dataLen: Option<nat>)
    requires Opens(s, separator) && pos <= |Capped(s, atEnd)|
    ensures var r := Walk(lengthTags, s, separator, given, atEnd, pos, dataLen);
            (atEnd ==> r.Some?) && (r.Some? ==> RightEnd(s, r.value))
    decreases |Capped(s, atEnd)| - pos
  {
    StepIsRight(lengthTags, s, separator, given, atEnd, pos, dataLen);
    var step := StepWalk(lengthTags, s, separator, given, atEnd, pos, dataLen);
    hide StepWalk, RightEnd;
    if step.GoOn? {
      WalkIsRight(lengthTags, s, separator, given, atEnd, step.pos, step.dataLen);
    }
  }

  /** Every end is right, and at the end of the input there always is one. */
  lemma EndsAreRight(lengthTags: seq<Tag>, s: bytes, separator: byte, given: Option<byte>, atEnd: bool)
    requires Opens(s, separator)
    ensures var r := FindEnd(lengthTags, s, separator, given, atEnd);
            (atEnd ==> r.Some?) && (r.Some? ==> RightEnd(s, r.value))
  {
    assert s[..5] == BEGIN_STRING_PREFIX && s[0] == 56;
    var claim := DeclaredTrailer(Capped(s, atEnd), separator);
    if claim.Claim? { TrailerEndIsRight(s, separator, claim.start, atEnd); }
    WalkIsRight(lengthTags, s, separator, given, atEnd, 0, None);
    hide TrailerEnd, Walk, DeclaredTrailer;
  }
}
