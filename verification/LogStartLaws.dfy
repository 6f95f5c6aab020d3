/** Where messages start in a log, said without the search. */
module LogStartLaws {
  import opened Wrappers
  import opened Bytes
  import opened Framing
  import opened LogStart

  /** The separator is the one given, or one the reader detects; it is no BeginString value byte. */
  predicate IsDetected(separator: Separator, given: Option<byte>) {
    match (separator, given)
    case (Byte(byte), Some(one)) => byte == one && !IsValueByte(byte)
    case (Byte(byte), None) => !IsValueByte(byte) && byte != LF && byte != CR
    case (CaretA, _) => given == None
  }

  function SeparatorText(separator: Separator): (s: bytes)
    ensures |s| == SeparatorLen(separator)
  {
    match separator
    case Byte(byte) => [byte]
    case CaretA => [CARET, 65]
  }

  /** A BeginString field up to `valueEnd`, the separator, and one to ten digits up to an equals sign at `tagEnd`. */
  predicate OpensAs(s: bytes, separator: Separator, valueEnd: nat, tagEnd: nat) {
    && |BEGIN_STRING_PREFIX| <= valueEnd <= MAX_BEGIN_STRING_LEN
    && valueEnd + SeparatorLen(separator) < tagEnd <= valueEnd + SeparatorLen(separator) + MAX_TAG_DIGITS && tagEnd < |s|
    && s[..|BEGIN_STRING_PREFIX|] == BEGIN_STRING_PREFIX
    && (forall j :: |BEGIN_STRING_PREFIX| <= j < valueEnd ==> IsValueByte(s[j]))
    && s[valueEnd..valueEnd + SeparatorLen(separator)] == SeparatorText(separator)
    && AllDigits(s[valueEnd + SeparatorLen(separator)..tagEnd]) && s[tagEnd] == EQUALS
  }

  /** The bytes open with a message start. */
  ghost predicate Opening(s: bytes, given: Option<byte>, separator: Separator) {
    IsDetected(separator, given) && exists valueEnd, tagEnd :: OpensAs(s, separator, valueEnd, tagEnd)
  }

  lemma {:induction false} RunIs(s: bytes, from: nat, cap: nat, until: nat)
    requires from <= until < |s| && until - from <= cap && !IsValueByte(s[until]) && forall j :: from <= j < until ==> IsValueByte(s[j])
    ensures ValueRun(s, from, cap) == until - from
    decreases cap
  {
    if from < until { RunIs(s, from + 1, cap - 1, until); }
  }

  lemma {:induction false} DigitsAre(s: bytes, from: nat, cap: nat, until: nat)
    requires from <= until < |s| && until - from <= cap && !IsDigit(s[until]) && AllDigits(s[from..until])
    ensures DigitRun(s, from, cap) == until - from
    decreases cap
  {
    if from < until {
      assert s[from..until][0] == s[from] && s[from..until][1..] == s[from + 1..until];
      DigitsAre(s, from + 1, cap - 1, until);
    }
  }

  lemma TagIs(s: bytes, at: nat, separator: Separator, tagEnd: nat)
    requires at < tagEnd <= at + MAX_TAG_DIGITS && tagEnd < |s| && AllDigits(s[at..tagEnd]) && s[tagEnd] == EQUALS
    ensures CheckTag(s, at, separator) == IsStart(separator)
  {
    DigitsAre(s, at, MAX_TAG_DIGITS + 1, tagEnd);
  }

  lemma SeparatorIs(s: bytes, at: nat, separator: Separator, given: Option<byte>)
    requires at + SeparatorLen(separator) < |s| && s[at..at + SeparatorLen(separator)] == SeparatorText(separator)
    requires IsDetected(separator, given) && IsDigit(s[at + SeparatorLen(separator)])
    ensures CheckSeparator(s, at, given) == IsStart(separator) && !IsValueByte(s[at])
  {
    var text := s[at..at + SeparatorLen(separator)];
    assert s[at] == text[0] && (separator.CaretA? ==> s[at + 1] == text[1]);
  }

  lemma OpeningIsTaken(s: bytes, given: Option<byte>, separator: Separator, valueEnd: nat, tagEnd: nat)
    requires IsDetected(separator, given) && OpensAs(s, separator, valueEnd, tagEnd)
    ensures Check(s, given) == IsStart(separator)
  {
    hide CheckTag, ValueRun, CheckSeparator, IsValueByte;
    var at := valueEnd + SeparatorLen(separator);
    assert s[at..tagEnd][0] == s[at];
    SeparatorIs(s, valueEnd, separator, given);
    RunIs(s, |BEGIN_STRING_PREFIX|, MAX_BEGIN_STRING_LEN, valueEnd);
    TagIs(s, at, separator, tagEnd);
  }

  lemma TagOfStart(s: bytes, at: nat, separator: Separator) returns (tagEnd: nat)
    requires at <= |s| && CheckTag(s, at, separator).IsStart?
    ensures at < tagEnd <= at + MAX_TAG_DIGITS && tagEnd < |s| && AllDigits(s[at..tagEnd]) && s[tagEnd] == EQUALS
    ensures CheckTag(s, at, separator) == IsStart(separator)
  {
    tagEnd := at + DigitRun(s, at, MAX_TAG_DIGITS + 1);
  }

  lemma SeparatorOfStart(s: bytes, at: nat, given: Option<byte>)
    requires at < |s| && !IsValueByte(s[at]) && CheckSeparator(s, at, given).IsStart?
    ensures var separator := CheckSeparator(s, at, given).separator;
            && IsDetected(separator, given) && at + SeparatorLen(separator) <= |s|
            && s[at..at + SeparatorLen(separator)] == SeparatorText(separator)
  {
  }

  lemma ValueOfStart(s: bytes, given: Option<byte>) returns (valueEnd: nat)
    requires Check(s, given).IsStart?
    ensures |BEGIN_STRING_PREFIX| <= valueEnd <= MAX_BEGIN_STRING_LEN && valueEnd < |s| && s[..|BEGIN_STRING_PREFIX|] == BEGIN_STRING_PREFIX
    ensures (forall j :: |BEGIN_STRING_PREFIX| <= j < valueEnd ==> IsValueByte(s[j])) && !IsValueByte(s[valueEnd])
    ensures CheckAfterValue(s, valueEnd, given) == Check(s, given)
  {
    hide CheckAfterValue, IsValueByte;
    valueEnd := |BEGIN_STRING_PREFIX| + ValueRun(s, |BEGIN_STRING_PREFIX|, MAX_BEGIN_STRING_LEN);
  }

  lemma StartIsOpening(s: bytes, given: Option<byte>)
    requires Check(s, given).IsStart?
    ensures Opening(s, given, Check(s, given).separator)
  {
    hide Check, CheckTag, CheckSeparator, IsDetected, IsValueByte;
    var valueEnd := ValueOfStart(s, given);
    SeparatorOfStart(s, valueEnd, given);
    var separator := CheckSeparator(s, valueEnd, given).separator;
    var tagEnd := TagOfStart(s, valueEnd + SeparatorLen(separator), separator);
    assert OpensAs(s, separator, valueEnd, tagEnd);
  }

  /** The start check takes exactly the bytes that open with a message start, and tells its separator. */
  lemma StartsExactly(s: bytes, given: Option<byte>, separator: Separator)
    ensures Check(s, given) == IsStart(separator) <==> Opening(s, given, separator)
  {
    hide Check, OpensAs, IsDetected;
    if Check(s, given).IsStart? { StartIsOpening(s, given); }
    if Opening(s, given, separator) {
      var valueEnd, tagEnd :| OpensAs(s, separator, valueEnd, tagEnd);
      OpeningIsTaken(s, given, separator, valueEnd, tagEnd);
    }
  }

  // Waiting.

  /** A byte a start may go on with after its BeginString. */
  function SomeSeparator(given: Option<byte>): byte {
    if given.Some? then given.value else SOH
  }

  /** A BeginString, a separator and `9=`. */
  lemma SmallestOpening(head: bytes, separator: Separator, given: Option<byte>)
    requires |BEGIN_STRING_PREFIX| <= |head| <= MAX_BEGIN_STRING_LEN && head[..|BEGIN_STRING_PREFIX|] == BEGIN_STRING_PREFIX
    requires (forall j :: |BEGIN_STRING_PREFIX| <= j < |head| ==> IsValueByte(head[j])) && IsDetected(separator, given)
    ensures Opening(head + SeparatorText(separator) + [57, EQUALS], given, separator)
  {
    hide IsDetected, IsValueByte;
    var s, valueEnd, tagEnd := head + SeparatorText(separator) + [57, EQUALS], |head|, |head| + SeparatorLen(separator) + 1;
    assert s[..|BEGIN_STRING_PREFIX|] == head[..|BEGIN_STRING_PREFIX|];
    assert s[valueEnd..tagEnd - 1] == SeparatorText(separator);
    assert s[tagEnd - 1..tagEnd] == [57];
    assert OpensAs(s, separator, valueEnd, tagEnd);
  }

  lemma PrefixCompletes(s: bytes, given: Option<byte>) returns (more: bytes)
    requires |s| < |BEGIN_STRING_PREFIX| && s == BEGIN_STRING_PREFIX[..|s|] && IsDetected(Byte(SomeSeparator(given)), given)
    ensures Opening(s + more, given, Byte(SomeSeparator(given)))
  {
    hide IsDetected, Opening, SomeSeparator;
    SmallestOpening(BEGIN_STRING_PREFIX, Byte(SomeSeparator(given)), given);
    more := BEGIN_STRING_PREFIX[|s|..] + SeparatorText(Byte(SomeSeparator(given))) + [57, EQUALS];
    assert s + more == BEGIN_STRING_PREFIX + SeparatorText(Byte(SomeSeparator(given))) + [57, EQUALS];
  }

  lemma ValueCompletes(s: bytes, given: Option<byte>) returns (more: bytes)
    requires |BEGIN_STRING_PREFIX| <= |s| <= MAX_BEGIN_STRING_LEN && s[..|BEGIN_STRING_PREFIX|] == BEGIN_STRING_PREFIX
    requires (forall j :: |BEGIN_STRING_PREFIX| <= j < |s| ==> IsValueByte(s[j])) && IsDetected(Byte(SomeSeparator(given)), given)
    ensures Opening(s + more, given, Byte(SomeSeparator(given)))
  {
    hide IsDetected, Opening, SomeSeparator;
    SmallestOpening(s, Byte(SomeSeparator(given)), given);
    more := SeparatorText(Byte(SomeSeparator(given))) + [57, EQUALS];
    assert s + more == s + SeparatorText(Byte(SomeSeparator(given))) + [57, EQUALS];
  }

  lemma CaretCompletes(s: bytes, head: bytes) returns (more: bytes)
    requires |BEGIN_STRING_PREFIX| <= |head| <= MAX_BEGIN_STRING_LEN && head[..|BEGIN_STRING_PREFIX|] == BEGIN_STRING_PREFIX
    requires (forall j :: |BEGIN_STRING_PREFIX| <= j < |head| ==> IsValueByte(head[j])) && s == head + [CARET]
    ensures Opening(s + more, None, CaretA)
  {
    hide Opening;
    SmallestOpening(head, CaretA, None);
    more := [65, 57, EQUALS];
    assert s + more == head + SeparatorText(CaretA) + [57, EQUALS];
  }

  lemma TagWaits(s: bytes, at: nat, separator: Separator)
    requires at <= |s| && CheckTag(s, at, separator) == NeedsMore
    ensures AllDigits(s[at..]) && |s| - at <= MAX_TAG_DIGITS
  {
  }

  lemma TagCompletes(s: bytes, separator: Separator, given: Option<byte>, valueEnd: nat) returns (more: bytes)
    requires |BEGIN_STRING_PREFIX| <= valueEnd <= MAX_BEGIN_STRING_LEN && valueEnd + SeparatorLen(separator) <= |s|
    requires s[..|BEGIN_STRING_PREFIX|] == BEGIN_STRING_PREFIX
    requires (forall j :: |BEGIN_STRING_PREFIX| <= j < valueEnd ==> IsValueByte(s[j])) && IsDetected(separator, given)
    requires s[valueEnd..valueEnd + SeparatorLen(separator)] == SeparatorText(separator)
    requires CheckTag(s, valueEnd + SeparatorLen(separator), separator) == NeedsMore
    ensures Opening(s + more, given, separator)
  {
    hide IsDetected, IsValueByte, CheckTag;
    var at := valueEnd + SeparatorLen(separator);
    TagWaits(s, at, separator);
    more := if at == |s| then [57, EQUALS] else [EQUALS];
    var t := s + more;
    assert t[..|BEGIN_STRING_PREFIX|] == s[..|BEGIN_STRING_PREFIX|] && t[valueEnd..at] == s[valueEnd..at];
    assert t[at..|t| - 1] == if at == |s| then [57] else s[at..];
    assert IsDigit(57) && t[|t| - 1] == EQUALS;
    assert forall j :: |BEGIN_STRING_PREFIX| <= j < valueEnd ==> t[j] == s[j];
    assert OpensAs(t, separator, valueEnd, |t| - 1);
  }

  /** Past the BeginString, the check waits on a separator cut short or on a tag. */
  lemma SeparatorCompletes(s: bytes, given: Option<byte>, valueEnd: nat) returns (more: bytes, separator: Separator)
    requires |BEGIN_STRING_PREFIX| <= valueEnd <= MAX_BEGIN_STRING_LEN && valueEnd < |s|
    requires s[..|BEGIN_STRING_PREFIX|] == BEGIN_STRING_PREFIX && !IsValueByte(s[valueEnd])
    requires forall j :: |BEGIN_STRING_PREFIX| <= j < valueEnd ==> IsValueByte(s[j])
    requires CheckAfterValue(s, valueEnd, given) == NeedsMore
    ensures Opening(s + more, given, separator)
  {
    hide CheckTag, Opening, IsValueByte, IsDetected;
    var check := CheckSeparator(s, valueEnd, given);
    if check.IsStart? {
      separator := check.separator;
      SeparatorOfStart(s, valueEnd, given);
      more := TagCompletes(s, separator, given, valueEnd);
    } else {
      separator := CaretA;
      assert s == s[..valueEnd] + [CARET];
      more := CaretCompletes(s, s[..valueEnd]);
    }
  }

  /** Bytes the check waits on can go on to a start, unless the given separator is a value byte. */
  lemma WaitingCompletes(s: bytes, given: Option<byte>) returns (more: bytes, separator: Separator)
    requires Check(s, given) == NeedsMore && (given.Some? ==> !IsValueByte(given.value))
    ensures Opening(s + more, given, separator)
  {
    hide CheckTag, Opening, IsValueByte, CheckAfterValue, IsDetected;
    separator := Byte(SomeSeparator(given));
    SomeSeparatorIsDetected(given);
    if |s| < |BEGIN_STRING_PREFIX| {
      more := PrefixCompletes(s, given);
    } else {
      var valueEnd := |BEGIN_STRING_PREFIX| + ValueRun(s, |BEGIN_STRING_PREFIX|, MAX_BEGIN_STRING_LEN);
      if valueEnd == |s| {
        more := ValueCompletes(s, given);
      } else {
        more, separator := SeparatorCompletes(s, given, valueEnd);
      }
    }
  }

  lemma SomeSeparatorIsDetected(given: Option<byte>)
    requires given.Some? ==> !IsValueByte(given.value)
    ensures IsDetected(Byte(SomeSeparator(given)), given)
  {
  }

  /** The check waits exactly on bytes that more bytes can turn into a start. */
  lemma WaitsExactly(s: bytes, given: Option<byte>)
    requires given.Some? ==> !IsValueByte(given.value)
    ensures Check(s, given) == NeedsMore <==> !Check(s, given).IsStart? && exists more, separator :: Opening(s + more, given, separator)
  {
    hide Check, Opening, IsValueByte;
    if Check(s, given) == NeedsMore {
      var more, separator := WaitingCompletes(s, given);
    } else if !Check(s, given).IsStart? {
      forall more, separator | Opening(s + more, given, separator) ensures false {
        StartsExactly(s + more, given, separator);
        CheckStable(s, more, given);
      }
    }
  }

  // The search.

  /** A message starts at `at`: the bytes there open with one, and no digit stands before them. */
  ghost predicate StartsAt(s: bytes, at: nat, given: Option<byte>, separator: Separator) {
    at <= |s| && Opening(s[at..], given, separator) && (at > 0 ==> !IsDigit(s[at - 1]))
  }

  /** A message starts at `at`, or, before the end of input, may once more bytes are there. */
  ghost predicate MayStart(s: bytes, at: nat, given: Option<byte>, atEnd: bool) {
    exists rest, separator :: StartsAt(s + rest, at, given, separator) && (atEnd ==> rest == [])
  }

  /** What the search gives, said of the positions it goes over. */
  ghost predicate IsFirstStart(next: NextStart, s: bytes, from: nat, until: nat, given: Option<byte>, atEnd: bool) {
    && from <= Reached(next, until) <= until
    && (forall q :: from <= q < Reached(next, until) ==> !MayStart(s, q, given, atEnd))
    && match next
       case Found(start) => start.at < until && StartsAt(s, start.at, given, start.separator)
       case PendingStart(at) => at < until && !atEnd && MayStart(s, at, given, false) && forall separator :: !StartsAt(s, at, given, separator)
       case NoStart => true
  }

  lemma OneStart(s: bytes, at: nat, given: Option<byte>, separator: Separator)
    requires at < |s|
    ensures StartsAt(s, at, given, separator) <==> Eligible(s, at) && Check(s[at..], given) == IsStart(separator)
  {
    hide Check, IsDetected;
    StartsExactly(s[at..], given, separator);
    if Opening(s[at..], given, separator) {
      assert s[at] == s[at..][..|BEGIN_STRING_PREFIX|][0];
    }
  }

  lemma OneMayStart(s: bytes, at: nat, given: Option<byte>, atEnd: bool)
    requires at < |s| && (given.Some? ==> !IsValueByte(given.value))
    ensures MayStart(s, at, given, atEnd) <==> Eligible(s, at) && (Check(s[at..], given).IsStart? || (!atEnd && Check(s[at..], given) == NeedsMore))
  {
    hide Check, IsDetected, IsValueByte, Opening;
    var may := Eligible(s, at) && (Check(s[at..], given).IsStart? || (!atEnd && Check(s[at..], given) == NeedsMore));
    assert s + [] == s;
    if may {
      WaitsExactly(s[at..], given);
      if Check(s[at..], given).IsStart? {
        OneStart(s, at, given, Check(s[at..], given).separator);
        assert StartsAt(s + [], at, given, Check(s[at..], given).separator);
      } else {
        var rest, separator :| Opening(s[at..] + rest, given, separator);
        assert (s + rest)[at..] == s[at..] + rest;
        assert StartsAt(s + rest, at, given, separator);
      }
    }
    forall rest, separator | StartsAt(s + rest, at, given, separator) && (atEnd ==> rest == []) ensures may {
      OneStart(s + rest, at, given, separator);
      assert (s + rest)[at..] == s[at..] + rest;
      if Check(s[at..], given) == NotStart { CheckStable(s[at..], rest, given); }
    }
  }

  /** The search gives the first place where a message starts or, with more bytes to come, may start. */
  lemma {:induction false} FindsExactly(s: bytes, from: nat, until: nat, given: Option<byte>, atEnd: bool)
    requires from <= until <= |s| && (given.Some? ==> !IsValueByte(given.value))
    ensures IsFirstStart(FindStart(s, from, until, given, atEnd), s, from, until, given, atEnd)
    decreases until - from
  {
    hide Check, Eligible, MayStart, StartsAt, IsValueByte;
    if from < until {
      OneMayStart(s, from, given, atEnd);
      OneMayStart(s, from, given, false);
      forall separator ensures StartsAt(s, from, given, separator) <==> Eligible(s, from) && Check(s[from..], given) == IsStart(separator) {
        OneStart(s, from, given, separator);
      }
      FindsExactly(s, from + 1, until, given, atEnd);
    }
  }
}
