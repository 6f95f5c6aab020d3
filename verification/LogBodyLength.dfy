/** What BodyLength says of a logged message's end, in terms of the bytes. */
module LogBodyLength {
  import opened Wrappers
  import opened Bytes
  import opened Framing
  import opened LogEnd

  /** The first separator is at `p`, and `9=` and digits up to `q` follow it. */
  predicate LengthDigitsAt(s: bytes, separator: byte, p: nat, q: nat) {
    && p + 3 <= q <= |s| && s[p] == separator && separator !in s[..p]
    && s[p + 1..p + 3] == BODY_LENGTH_TAG
    && AllDigits(s[p + 3..q]) && q - (p + 3) <= MAX_BODY_LENGTH_DIGITS
  }

  /** They are ended by a separator, and write `length`. */
  predicate LengthDeclared(s: bytes, separator: byte, p: nat, q: nat, length: nat) {
    LengthDigitsAt(s, separator, p, q) && q < |s| && s[q] == separator && Writes(s[p + 3..q], length) && length <= U32_MAX
  }

  lemma FirstSeparator(s: bytes, separator: byte, p: nat)
    requires p < |s|
    ensures FindByte(s, separator, 0, |s|) == Some(p) <==> s[p] == separator && separator !in s[..p]
  {
    var found := FindByte(s, separator, 0, |s|);
    if s[p] == separator && separator !in s[..p] {
      forall j | 0 <= j < p ensures s[j] != separator { assert s[..p][j] == s[j]; }
    }
  }

  lemma {:induction false} DigitsRun(s: bytes, from: nat, until: nat, cap: nat)
    requires from <= until <= |s| && until - from < cap && AllDigits(s[from..until]) && (until < |s| ==> !IsDigit(s[until]))
    ensures DigitRun(s, from, cap) == until - from
    decreases cap
  {
    if from < until {
      assert s[from..until][0] == s[from] && s[from..until][1..] == s[from + 1..until];
      DigitsRun(s, from + 1, until, cap - 1);
    }
  }

  lemma RunIsDigits(s: bytes, from: nat, cap: nat)
    requires from <= |s|
    ensures var n := DigitRun(s, from, cap); AllDigits(s[from..from + n])
  {
  }

  /** What the bytes after `9=` claim. */
  lemma ClaimsAt(s: bytes, separator: byte, from: nat)
    requires 2 < from <= |s| && !IsDigit(separator)
    ensures match ClaimAt(s, from, separator)
            case Claim(start) =>
              exists q: nat, length: nat :: DigitsEndAt(s, separator, from, q, length) && start == q + 1 + length
            case ClaimPending => AllDigits(s[from..]) && |s| - from <= MAX_BODY_LENGTH_DIGITS
            case NoClaim => NoDigitsEnd(s, separator, from) && !(AllDigits(s[from..]) && |s| - from <= MAX_BODY_LENGTH_DIGITS)
  {
    hide ParseU32, DigitRun;
    var n := DigitRun(s, from, MAX_BODY_LENGTH_DIGITS + 1);
    RunIsDigits(s, from, MAX_BODY_LENGTH_DIGITS + 1);
    if AllDigits(s[from..]) && |s| - from <= MAX_BODY_LENGTH_DIGITS {
      DigitsRun(s, from, |s|, MAX_BODY_LENGTH_DIGITS + 1);
    }
    forall q: nat, length: nat | DigitsEndAt(s, separator, from, q, length) ensures ClaimAt(s, from, separator) == Claim(q + 1 + length) {
      DigitsEndClaims(s, separator, from, q, length);
    }
    if from + n < |s| && n <= MAX_BODY_LENGTH_DIGITS && s[from + n] == separator && ParseU32(s[from..from + n]).Some? {
      ParseU32Is(s[from..from + n], ParseU32(s[from..from + n]).value);
      assert DigitsEndAt(s, separator, from, from + n, ParseU32(s[from..from + n]).value);
    }
    if from + n == |s| { assert s[from..from + n] == s[from..]; }
  }

  /** Digits from `from` that end at a separator at `q` write `length`. */
  predicate DigitsEndAt(s: bytes, separator: byte, from: nat, q: nat, length: nat) {
    && from <= q < |s| && s[q] == separator && q - from <= MAX_BODY_LENGTH_DIGITS
    && Writes(s[from..q], length) && length <= U32_MAX
  }

  ghost predicate NoDigitsEnd(s: bytes, separator: byte, from: nat) {
    forall q: nat, length: nat :: !DigitsEndAt(s, separator, from, q, length)
  }

  lemma DigitsEndClaims(s: bytes, separator: byte, from: nat, q: nat, length: nat)
    requires 2 < from <= |s| && !IsDigit(separator) && DigitsEndAt(s, separator, from, q, length)
    ensures ClaimAt(s, from, separator) == Claim(q + 1 + length)
  {
    hide ParseU32, DigitRun;
    DigitsRun(s, from, q, MAX_BODY_LENGTH_DIGITS + 1);
    ParseU32Is(s[from..q], length);
  }

  /** BodyLength claims a start for the CheckSum field exactly when the second field declares it. */
  lemma ClaimsExactly(s: bytes, separator: byte, start: nat)
    requires !IsDigit(separator)
    ensures DeclaredTrailer(s, separator) == Claim(start) <==>
            exists p: nat, q: nat, length: nat :: LengthDeclared(s, separator, p, q, length) && start == q + 1 + length
    ensures DeclaredTrailer(s, separator) == ClaimPending <==> exists p: nat :: LengthDigitsAt(s, separator, p, |s|)
  {
    hide ClaimAt, FindByte, DigitsEndAt, AllDigits, Writes;
    forall p: nat, q: nat, length: nat | LengthDeclared(s, separator, p, q, length)
      ensures DeclaredTrailer(s, separator) == Claim(q + 1 + length)
    {
      DeclaredIsClaimed(s, separator, p, q, length);
    }
    forall p: nat | LengthDigitsAt(s, separator, p, |s|) ensures DeclaredTrailer(s, separator) == ClaimPending {
      UnendedIsPending(s, separator, p);
    }
    ClaimedIsDeclared(s, separator);
  }

  lemma TagOpens(s: bytes, at: nat)
    requires at + 2 <= |s|
    ensures StartsWith(s[at..], BODY_LENGTH_TAG) <==> s[at..at + 2] == BODY_LENGTH_TAG
  {
    assert s[at..][..2] == s[at..at + 2];
  }

  lemma DeclaredIsClaimed(s: bytes, separator: byte, p: nat, q: nat, length: nat)
    requires !IsDigit(separator) && LengthDeclared(s, separator, p, q, length)
    ensures DeclaredTrailer(s, separator) == Claim(q + 1 + length)
  {
    hide ClaimAt, FindByte, StartsWith, AllDigits;
    FirstSeparator(s, separator, p);
    TagOpens(s, p + 1);
    DigitsEndClaims(s, separator, p + 3, q, length);
  }

  lemma UnendedIsPending(s: bytes, separator: byte, p: nat)
    requires !IsDigit(separator) && LengthDigitsAt(s, separator, p, |s|)
    ensures DeclaredTrailer(s, separator) == ClaimPending
  {
    hide ClaimAt, FindByte, StartsWith, DigitsEndAt;
    FirstSeparator(s, separator, p);
    TagOpens(s, p + 1);
    ClaimsAt(s, separator, p + 3);
    var from := p + 3;
    forall q: nat, length: nat ensures !DigitsEndAt(s, separator, from, q, length) {
      if DigitsEndAt(s, separator, from, q, length) { EndsOnNoDigit(s, separator, from, q, length); }
    }
  }

  lemma EndsOnNoDigit(s: bytes, separator: byte, from: nat, q: nat, length: nat)
    requires DigitsEndAt(s, separator, from, q, length) && !IsDigit(separator)
    ensures from <= |s| && !AllDigits(s[from..])
  {
    assert s[from..][q - from] == s[q];
  }

  lemma ClaimedIsDeclared(s: bytes, separator: byte)
    requires !IsDigit(separator)
    ensures match DeclaredTrailer(s, separator)
            case Claim(start) => exists p: nat, q: nat, length: nat :: LengthDeclared(s, separator, p, q, length) && start == q + 1 + length
            case ClaimPending => exists p: nat :: LengthDigitsAt(s, separator, p, |s|)
            case NoClaim => true
  {
    hide ClaimAt, FindByte;
    var found := FindByte(s, separator, 0, |s|);
    if found.Some? && StartsWith(s[found.value + 1..], BODY_LENGTH_TAG) {
      var p := found.value;
      FirstSeparator(s, separator, p);
      TagOpens(s, p + 1);
      ClaimsAt(s, separator, p + 3);
      match ClaimAt(s, p + 3, separator)
      case Claim(start) =>
        var q: nat, length: nat :| DigitsEndAt(s, separator, p + 3, q, length) && start == q + 1 + length;
        assert LengthDeclared(s, separator, p, q, length);
      case ClaimPending =>
        assert s[p + 3..|s|] == s[p + 3..];
        assert LengthDigitsAt(s, separator, p, |s|);
      case NoClaim =>
    }
  }

  /** After a separator, `10=` at `start` and a value up to `v`: the next separator or line feed, or the end. */
  predicate CheckSumField(s: bytes, separator: byte, start: nat, v: nat) {
    && 1 <= start && start + 3 <= v <= |s| && s[start - 1] == separator && s[start..start + 3] == CHECKSUM_TAG
    && (forall j :: start + 3 <= j < v ==> s[j] != separator && s[j] != LF)
    && (v < |s| ==> s[v] == separator || s[v] == LF)
  }

  /** How a message ends whose CheckSum value ends at `v`: with its separator, at the line break, or with the input. */
  predicate EndsAfter(s: bytes, separator: byte, atEnd: bool, v: nat, end: End)
    requires 1 <= v <= |Capped(s, atEnd)|
  {
    var capped := Capped(s, atEnd);
    if v == |capped| then CapIsFinal(s, atEnd) && end == End(v, v, false)
    else if capped[v] == separator then AfterMessage(s, v + 1, atEnd) == Some(end)
    else end == End(if capped[v - 1] == CR then v - 1 else v, v + 1, false)
  }

  /** The second field declares a length that ends where a CheckSum field stands, whose value ends at `v`. */
  predicate EndsByLength(s: bytes, separator: byte, p: nat, q: nat, length: nat, v: nat) {
    LengthDeclared(s, separator, p, q, length) && CheckSumField(s, separator, q + 1 + length, v)
  }

  lemma TrailerOpens(s: bytes, separator: byte, start: nat)
    requires 1 <= start && start + 3 <= |s|
    ensures s[start - 1..start + 3] == [separator] + CHECKSUM_TAG <==> s[start - 1] == separator && s[start..start + 3] == CHECKSUM_TAG
  {
    assert s[start - 1..start + 3] == [s[start - 1]] + s[start..start + 3];
  }

  lemma TrailerEndsAt(s: bytes, separator: byte, start: nat, atEnd: bool, v: nat, end: End)
    requires 4 <= start && CheckSumField(Capped(s, atEnd), separator, start, v)
    ensures TrailerEnd(s, separator, start, atEnd) == EndFound(end) <==> EndsAfter(s, separator, atEnd, v, end)
  {
    hide AfterMessage, Capped;
    var capped := Capped(s, atEnd);
    TrailerOpens(capped, separator, start);
    var found := FindValueEnd(capped, start + 3, separator);
  }

  lemma TrailerHasField(s: bytes, separator: byte, start: nat, atEnd: bool) returns (v: nat)
    requires 4 <= start && TrailerEnd(s, separator, start, atEnd).EndFound?
    ensures CheckSumField(Capped(s, atEnd), separator, start, v)
  {
    hide AfterMessage, Capped;
    var capped := Capped(s, atEnd);
    TrailerOpens(capped, separator, start);
    var found := FindValueEnd(capped, start + 3, separator);
    v := if found.Some? then found.value else |capped|;
  }

  lemma DeclaredIsLate(s: bytes, separator: byte, p: nat, q: nat, length: nat)
    requires LengthDeclared(s, separator, p, q, length)
    ensures q >= 3
  {
  }

  /**
   * BodyLength gives an end exactly when the second field declares a length that ends at a CheckSum
   * field, and it is that field's, so the message is never called truncated.
   */
  lemma EndsExactly(s: bytes, separator: byte, atEnd: bool, end: End)
    requires !IsDigit(separator)
    ensures ByBodyLength(s, separator, atEnd) == EndFound(end) <==>
            exists p: nat, q: nat, length: nat, v: nat ::
              EndsByLength(Capped(s, atEnd), separator, p, q, length, v) && EndsAfter(s, separator, atEnd, v, end)
    ensures ByBodyLength(s, separator, atEnd) == EndFound(end) ==> !end.truncated
  {
    hide TrailerEnd, DeclaredTrailer, Capped, LengthDeclared, CheckSumField, EndsAfter;
    var capped := Capped(s, atEnd);
    forall p: nat, q: nat, length: nat, v: nat | EndsByLength(capped, separator, p, q, length, v)
      ensures 1 <= v <= |capped| && (ByBodyLength(s, separator, atEnd) == EndFound(end) <==> EndsAfter(s, separator, atEnd, v, end))
    {
      FieldIsInside(capped, separator, q + 1 + length, v);
      DeclaredIsLate(capped, separator, p, q, length);
      ClaimsExactly(capped, separator, q + 1 + length);
      TrailerEndsAt(s, separator, q + 1 + length, atEnd, v, end);
    }
    if ByBodyLength(s, separator, atEnd) == EndFound(end) {
      var start := DeclaredTrailer(capped, separator).start;
      ClaimsExactly(capped, separator, start);
      var p: nat, q: nat, length: nat :| LengthDeclared(capped, separator, p, q, length) && start == q + 1 + length;
      DeclaredIsLate(capped, separator, p, q, length);
      var v := TrailerHasField(s, separator, start, atEnd);
      assert EndsByLength(capped, separator, p, q, length, v);
      EndsWhole(s, separator, atEnd, v, end);
    }
  }

  /** What comes after the bytes so far may make or break the CheckSum field at `start`, or be its line break. */
  predicate TrailerWaits(s: bytes, separator: byte, start: nat, atEnd: bool) {
    var capped, final := Capped(s, atEnd), CapIsFinal(s, atEnd);
    || (!final && (|capped| < start + 3 || CheckSumField(capped, separator, start, |capped|)))
    || exists v :: start <= v < |capped| && CheckSumField(capped, separator, start, v) && capped[v] == separator && BreakMayFollow(s, v + 1, atEnd)
  }

  /** The bytes end where a line break may start. */
  predicate BreakMayFollow(s: bytes, at: nat, atEnd: bool) {
    !atEnd && at <= |s| && (s[at..] == [] || s[at..] == [CR])
  }

  lemma TrailerWaitsExactly(s: bytes, separator: byte, start: nat, atEnd: bool)
    requires 4 <= start
    ensures TrailerEnd(s, separator, start, atEnd) == EndPending <==> TrailerWaits(s, separator, start, atEnd)
  {
    hide Capped, CapIsFinal;
    var capped := Capped(s, atEnd);
    if start + 3 <= |capped| {
      TrailerOpens(capped, separator, start);
      var found := FindValueEnd(capped, start + 3, separator);
    }
  }

  /**
   * BodyLength leaves the end open exactly while its digits run to the end of the bytes, or the CheckSum
   * field it points at, or the line break after that, may still have to come.
   */
  lemma WaitsExactly(s: bytes, separator: byte, atEnd: bool)
    requires !IsDigit(separator)
    ensures ByBodyLength(s, separator, atEnd) == EndPending <==>
            || (!CapIsFinal(s, atEnd) && exists p: nat :: LengthDigitsAt(Capped(s, atEnd), separator, p, |Capped(s, atEnd)|))
            || exists p: nat, q: nat, length: nat ::
                 LengthDeclared(Capped(s, atEnd), separator, p, q, length) && TrailerWaits(s, separator, q + 1 + length, atEnd)
  {
    hide TrailerEnd, DeclaredTrailer, Capped, LengthDeclared, LengthDigitsAt, TrailerWaits;
    var capped := Capped(s, atEnd);
    forall p: nat, q: nat, length: nat | LengthDeclared(capped, separator, p, q, length)
      ensures ByBodyLength(s, separator, atEnd) == EndPending <==> TrailerWaits(s, separator, q + 1 + length, atEnd)
    {
      DeclaredIsLate(capped, separator, p, q, length);
      ClaimsExactly(capped, separator, q + 1 + length);
      TrailerWaitsExactly(s, separator, q + 1 + length, atEnd);
    }
    ClaimsExactly(capped, separator, match DeclaredTrailer(capped, separator) case Claim(start) => start case _ => 0);
  }

  lemma FieldIsInside(s: bytes, separator: byte, start: nat, v: nat)
    requires CheckSumField(s, separator, start, v)
    ensures 1 <= v <= |s|
  {
  }

  lemma EndsWhole(s: bytes, separator: byte, atEnd: bool, v: nat, end: End)
    requires 1 <= v <= |Capped(s, atEnd)| && EndsAfter(s, separator, atEnd, v, end)
    ensures !end.truncated
  {
  }
}
