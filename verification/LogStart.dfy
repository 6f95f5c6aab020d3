/** Finding where messages start in a log. */
module LogStart {
  import opened Wrappers
  import opened Bytes
  import opened Framing

  const MAX_TAG_DIGITS: nat := 10

  /** How a logged message's fields end: in one byte, or in the `^A` that stands for SOH. */
  datatype Separator = Byte(byte: byte) | CaretA

  datatype Start = Start(at: nat, separator: Separator)

  datatype NextStart = Found(start: Start) | PendingStart(at: nat) | NoStart

  datatype StartCheck = IsStart(separator: Separator) | NotStart | NeedsMore

  predicate IsValueByte(b: byte) {
    IsDigit(b) || 65 <= b <= 90 || 97 <= b <= 122 || b == DOT
  }

  /** How many letters, digits and points `s` holds from `from`, counting at most `cap`. */
  function ValueRun(s: bytes, from: nat, cap: nat): (n: nat)
    requires from <= |s|
    ensures n <= cap && from + n <= |s|
    ensures forall j :: from <= j < from + n ==> IsValueByte(s[j])
    ensures n < cap && from + n < |s| ==> !IsValueByte(s[from + n])
    decreases cap
  {
    if cap == 0 || from == |s| || !IsValueByte(s[from]) then 0 else 1 + ValueRun(s, from + 1, cap - 1)
  }

  /** Which separator the byte at `at` is, if it can be one. */
  function CheckSeparator(s: bytes, at: nat, given: Option<byte>): (r: StartCheck)
    requires at < |s|
  {
    match given
    case Some(separator) => if s[at] != separator then NotStart else IsStart(Byte(separator))
    case None =>
      if s[at] == LF || s[at] == CR then NotStart
      else if s[at] == CARET then
        if at + 1 == |s| then NeedsMore
        else if s[at + 1] == 65 then IsStart(CaretA)
        else IsStart(Byte(CARET))
      else IsStart(Byte(s[at]))
  }

  function SeparatorLen(separator: Separator): nat {
    if separator.CaretA? then 2 else 1
  }

  /** Whether a tag and its `=` stand at `at`. */
  function CheckTag(s: bytes, at: nat, separator: Separator): (r: StartCheck)
    requires at <= |s|
  {
    var digits := DigitRun(s, at, MAX_TAG_DIGITS + 1);
    if digits > MAX_TAG_DIGITS then NotStart
    else if at + digits == |s| then NeedsMore
    else if s[at + digits] == EQUALS && digits > 0 then IsStart(separator)
    else NotStart
  }

  /** The rest of a BeginString value, its separator and a tag, after `8=FIX`. */
  function CheckValue(s: bytes, given: Option<byte>): (r: StartCheck)
    requires |BEGIN_STRING_PREFIX| <= |s|
  {
    var valueEnd := |BEGIN_STRING_PREFIX| + ValueRun(s, |BEGIN_STRING_PREFIX|, MAX_BEGIN_STRING_LEN);
    if valueEnd > MAX_BEGIN_STRING_LEN then NotStart
    else if valueEnd == |s| then NeedsMore
    else CheckAfterValue(s, valueEnd, given)
  }

  function CheckAfterValue(s: bytes, valueEnd: nat, given: Option<byte>): (r: StartCheck)
    requires valueEnd < |s|
  {
    match CheckSeparator(s, valueEnd, given)
    case IsStart(separator) => CheckTag(s, valueEnd + SeparatorLen(separator), separator)
    case other => other
  }

  /** Whether `s` opens with a message start, and its separator if so. */
  function Check(s: bytes, given: Option<byte>): (r: StartCheck) {
    var shared := Min(|s|, |BEGIN_STRING_PREFIX|);
    if s[..shared] != BEGIN_STRING_PREFIX[..shared] then NotStart
    else if shared < |BEGIN_STRING_PREFIX| then NeedsMore
    else CheckValue(s, given)
  }

  /** Whether a message could start at `at`: an `8` that does not follow a digit. */
  predicate Eligible(s: bytes, at: nat)
    requires at < |s|
  {
    s[at] == 56 && !(at > 0 && IsDigit(s[at - 1]))
  }

  /** The first message start at an offset in `from..until`. */
  function FindStart(s: bytes, from: nat, until: nat, given: Option<byte>, atEnd: bool): (r: NextStart)
    requires until <= |s|
    ensures r.Found? ==> from <= r.start.at < until
    ensures r.Found? ==> Check(s[r.start.at..], given) == IsStart(r.start.separator)
    ensures r.PendingStart? ==> from <= r.at < until && !atEnd
    decreases until - from
  {
    if from >= until then NoStart
    else if !Eligible(s, from) then FindStart(s, from + 1, until, given, atEnd)
    else
      match Check(s[from..], given)
      case IsStart(separator) => Found(Start(from, separator))
      case NeedsMore => if atEnd then FindStart(s, from + 1, until, given, atEnd) else PendingStart(from)
      case NotStart => FindStart(s, from + 1, until, given, atEnd)
  }

  lemma CheckTagStable(s: bytes, t: bytes, at: nat, separator: Separator)
    requires at <= |s| <= |t| && forall j :: 0 <= j < |s| ==> t[j] == s[j]
    requires !CheckTag(s, at, separator).NeedsMore?
    ensures CheckTag(t, at, separator) == CheckTag(s, at, separator)
  {
    DigitRunStable(s, t, at, MAX_TAG_DIGITS + 1);
  }

  lemma CheckSeparatorStable(s: bytes, t: bytes, at: nat, given: Option<byte>)
    requires at < |s| <= |t| && forall j :: 0 <= j < |s| ==> t[j] == s[j]
    ensures !CheckSeparator(s, at, given).NeedsMore? ==> CheckSeparator(t, at, given) == CheckSeparator(s, at, given)
    ensures CheckSeparator(s, at, given).IsStart? ==> at + SeparatorLen(CheckSeparator(s, at, given).separator) <= |s|
  {
  }

  lemma CheckAfterValueStable(s: bytes, t: bytes, valueEnd: nat, given: Option<byte>)
    requires valueEnd < |s| <= |t| && forall j :: 0 <= j < |s| ==> t[j] == s[j]
    requires !CheckAfterValue(s, valueEnd, given).NeedsMore?
    ensures CheckAfterValue(t, valueEnd, given) == CheckAfterValue(s, valueEnd, given)
  {
    CheckSeparatorStable(s, t, valueEnd, given);
    hide CheckSeparator, CheckTag;
    match CheckSeparator(s, valueEnd, given)
    case IsStart(separator) => CheckTagStable(s, t, valueEnd + SeparatorLen(separator), separator);
    case _ =>
  }

  lemma CheckValueStable(s: bytes, t: bytes, given: Option<byte>)
    requires |BEGIN_STRING_PREFIX| <= |s| <= |t| && forall j :: 0 <= j < |s| ==> t[j] == s[j]
    requires !CheckValue(s, given).NeedsMore?
    ensures CheckValue(t, given) == CheckValue(s, given)
  {
    ValueRunStable(s, t, |BEGIN_STRING_PREFIX|, MAX_BEGIN_STRING_LEN);
    hide ValueRun, CheckAfterValue;
    var valueEnd := |BEGIN_STRING_PREFIX| + ValueRun(s, |BEGIN_STRING_PREFIX|, MAX_BEGIN_STRING_LEN);
    if valueEnd <= MAX_BEGIN_STRING_LEN {
      CheckAfterValueStable(s, t, valueEnd, given);
    }
  }

  /** A verdict other than waiting survives more bytes. */
  lemma CheckStable(s: bytes, more: bytes, given: Option<byte>)
    requires !Check(s, given).NeedsMore?
    ensures Check(s + more, given) == Check(s, given)
  {
    var t := s + more;
    var shared := Min(|s|, |BEGIN_STRING_PREFIX|);
    assert t[..shared] == s[..shared];
    if s[..shared] != BEGIN_STRING_PREFIX[..shared] {
      var shared' := Min(|t|, |BEGIN_STRING_PREFIX|);
      assert t[..shared'][..shared] == s[..shared];
      assert BEGIN_STRING_PREFIX[..shared'][..shared] == BEGIN_STRING_PREFIX[..shared];
    } else {
      CheckValueStable(s, t, given);
    }
  }

  /** A run that stops inside the bytes, or at its cap, stops there with more bytes too. */
  lemma {:induction false} ValueRunStable(s: bytes, t: bytes, from: nat, cap: nat)
    requires from <= |s| <= |t| && forall j :: 0 <= j < |s| ==> t[j] == s[j]
    ensures ValueRun(s, from, cap) <= ValueRun(t, from, cap)
    ensures from + ValueRun(s, from, cap) < |s| || ValueRun(s, from, cap) == cap ==> ValueRun(t, from, cap) == ValueRun(s, from, cap)
    decreases cap
  {
    if cap > 0 && from < |s| && IsValueByte(s[from]) { ValueRunStable(s, t, from + 1, cap - 1); }
  }

  lemma {:induction false} DigitRunStable(s: bytes, t: bytes, from: nat, cap: nat)
    requires from <= |s| <= |t| && forall j :: 0 <= j < |s| ==> t[j] == s[j]
    ensures DigitRun(s, from, cap) <= DigitRun(t, from, cap)
    ensures from + DigitRun(s, from, cap) < |s| || DigitRun(s, from, cap) == cap ==> DigitRun(t, from, cap) == DigitRun(s, from, cap)
    decreases cap
  {
    if cap > 0 && from < |s| && IsDigit(s[from]) { DigitRunStable(s, t, from + 1, cap - 1); }
  }

  /** No message starts at `at`, whatever follows. */
  predicate Dead(s: bytes, at: nat, given: Option<byte>) {
    at < |s| && (!Eligible(s, at) || Check(s[at..], given) == NotStart)
  }

  lemma DeadStays(s: bytes, more: bytes, at: nat, given: Option<byte>)
    requires Dead(s, at, given)
    ensures Dead(s + more, at, given)
  {
    if Eligible(s, at) {
      assert (s + more)[at..] == s[at..] + more;
      CheckStable(s[at..], more, given);
    }
  }

  /** Where a search that waits for more bytes got to. */
  function Reached(next: NextStart, until: nat): nat {
    match next
    case Found(start) => start.at
    case PendingStart(at) => at
    case NoStart => until
  }

  /** A search that may wait passes over nothing that could still become a start. */
  lemma {:induction false} PassesOverDead(s: bytes, from: nat, until: nat, given: Option<byte>)
    requires from <= until <= |s|
    ensures var next := FindStart(s, from, until, given, false);
            && from <= Reached(next, until) <= until
            && forall q :: from <= q < Reached(next, until) ==> Dead(s, q, given)
    decreases until - from
  {
    if from < until && Dead(s, from, given) { PassesOverDead(s, from + 1, until, given); }
  }

  /** Dead positions can be skipped. */
  lemma {:induction false} SkipDead(s: bytes, from: nat, later: nat, until: nat, given: Option<byte>, atEnd: bool)
    requires from <= later <= until <= |s| && forall q :: from <= q < later ==> Dead(s, q, given)
    ensures FindStart(s, from, until, given, atEnd) == FindStart(s, later, until, given, atEnd)
    decreases later - from
  {
    hide Check, Eligible;
    if from < later {
      assert Dead(s, from, given);
      SkipDead(s, from + 1, later, until, given, atEnd);
    }
  }

  /** With more bytes, a search gives what it gives when resumed where it had got to. */
  lemma SearchResumes(s: bytes, more: bytes, from: nat, given: Option<byte>, atEnd: bool)
    requires from <= |s|
    ensures var reached := Reached(FindStart(s, from, |s|, given, false), |s|);
            && from <= reached <= |s|
            && FindStart(s + more, from, |s + more|, given, atEnd) == FindStart(s + more, reached, |s + more|, given, atEnd)
  {
    hide FindStart, Dead;
    PassesOverDead(s, from, |s|, given);
    var reached := Reached(FindStart(s, from, |s|, given, false), |s|);
    forall q | from <= q < reached ensures Dead(s + more, q, given) {
      DeadStays(s, more, q, given);
    }
    SkipDead(s + more, from, reached, |s + more|, given, atEnd);
  }

  /** A start found stays the start found, with more bytes. */
  lemma FoundStays(s: bytes, more: bytes, from: nat, given: Option<byte>)
    requires from <= |s| && FindStart(s, from, |s|, given, false).Found?
    ensures FindStart(s + more, from, |s + more|, given, false) == FindStart(s, from, |s|, given, false)
  {
    hide Check, FindStart;
    SearchResumes(s, more, from, given, false);
    var start := FindStart(s, from, |s|, given, false).start;
    FoundIsEligible(s, from, |s|, given, false);
    assert (s + more)[start.at..] == s[start.at..] + more;
    CheckStable(s[start.at..], more, given);
    StartsHere(s + more, start.at, given, start.separator);
  }

  lemma StartsHere(s: bytes, at: nat, given: Option<byte>, separator: Separator)
    requires at < |s| && Eligible(s, at) && Check(s[at..], given) == IsStart(separator)
    ensures FindStart(s, at, |s|, given, false) == Found(Start(at, separator))
  {
  }

  lemma {:induction false} FoundIsEligible(s: bytes, from: nat, until: nat, given: Option<byte>, atEnd: bool)
    requires until <= |s| && FindStart(s, from, until, given, atEnd).Found?
    ensures Eligible(s, FindStart(s, from, until, given, atEnd).start.at)
    decreases until - from
  {
    if !Eligible(s, from) || !Check(s[from..], given).IsStart? { FoundIsEligible(s, from + 1, until, given, atEnd); }
  }

  function Shifted(next: NextStart, gone: nat): (r: NextStart)
    requires next.Found? ==> next.start.at >= gone
    requires next.PendingStart? ==> next.at >= gone
  {
    match next
    case Found(start) => Found(Start(start.at - gone, start.separator))
    case PendingStart(at) => PendingStart(at - gone)
    case NoStart => NoStart
  }

  /** Dropping bytes well before where a search starts only shifts what it finds. */
  lemma {:induction false} SearchShifts(s: bytes, t: bytes, gone: nat, from: nat, given: Option<byte>, atEnd: bool)
    requires gone < from <= |s| && t == s[gone..]
    ensures FindStart(t, from - gone, |t|, given, atEnd) == Shifted(FindStart(s, from, |s|, given, atEnd), gone)
    decreases |s| - from
  {
    hide Check, Eligible;
    if from < |s| {
      ShiftedByte(s, t, gone, from);
      SearchShifts(s, t, gone, from + 1, given, atEnd);
    }
  }

  lemma ShiftedByte(s: bytes, t: bytes, gone: nat, at: nat)
    requires gone < at < |s| && t == s[gone..]
    ensures t[at - gone..] == s[at..] && Eligible(t, at - gone) == Eligible(s, at)
  {
  }
}
