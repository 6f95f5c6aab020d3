/** Messages logged with `^A` for SOH. */
module CaretA {
  import opened Wrappers
  import opened Bytes
  import opened Sequences
  import opened Tags
  import opened Framing
  import opened LogStart
  import opened LogEnd

  const UPPER_A: byte := 65

  predicate CaretAAt(s: bytes, at: nat) {
    at + 2 <= |s| && s[at] == CARET && s[at + 1] == UPPER_A
  }

  /** The first `^A` at or after `from`. */
  function FindCaretA(s: bytes, from: nat): (r: Option<nat>)
    ensures r.Some? ==> from <= r.value && CaretAAt(s, r.value) && forall j :: from <= j < r.value ==> !CaretAAt(s, j)
    ensures r.None? ==> forall j :: from <= j ==> !CaretAAt(s, j)
    decreases |s| - from
  {
    if from + 2 > |s| then None
    else if CaretAAt(s, from) then Some(from)
    else FindCaretA(s, from + 1)
  }

  /** `line` with SOH restored: each `^A`, read from the left, becomes one byte. */
  function Restored(line: bytes): (r: bytes)
    ensures |r| <= |line|
  {
    if line == [] then []
    else if CaretAAt(line, 0) then [SOH] + Restored(line[2..])
    else [line[0]] + Restored(line[1..])
  }

  /** Copies `line` with SOH restored. */
  method CopyRestored(line: bytes) returns (copy: bytes)
    ensures copy == Restored(line)
  {
    copy := [];
    var rest := line;
    while true
      invariant copy + Restored(rest) == Restored(line)
      decreases |rest|
    {
      var found := FindCaretA(rest, 0);
      if found.None? {
        PlainRestored(rest, |rest|);
        copy := copy + rest;
        return;
      }
      var at := found.value;
      PlainRestored(rest, at);
      assert CaretAAt(rest[at..], 0) && rest[at..][2..] == rest[at + 2..];
      Associates(copy, rest[..at], [SOH] + Restored(rest[at + 2..]));
      Associates(copy + rest[..at], [SOH], Restored(rest[at + 2..]));
      copy := copy + rest[..at];
      copy := copy + [SOH];
      rest := rest[at + 2..];
    }
  }

  /** Bytes before the first `^A` are copied as they are. */
  lemma {:induction false} PlainRestored(s: bytes, at: nat)
    requires at <= |s| && forall j :: 0 <= j < at ==> !CaretAAt(s, j)
    ensures Restored(s) == s[..at] + Restored(s[at..])
    decreases at
  {
    if at == 0 {
      assert s[0..] == s;
    } else {
      assert !CaretAAt(s, 0);
      var rest := s[1..];
      forall j | 0 <= j < at - 1 ensures !CaretAAt(rest, j) {
        assert !CaretAAt(s, j + 1);
      }
      PlainRestored(rest, at - 1);
      hide CaretAAt;
      assert rest[at - 1..] == s[at..];
      assert s[..at] + Restored(s[at..]) == [s[0]] + (rest[..at - 1] + Restored(s[at..]));
    }
  }

  /** How many bytes of `line` the first `offset` bytes of its copy took. */
  function TakenBy(line: bytes, copy: bytes, offset: nat): (at: nat)
    requires copy == Restored(line) && offset <= |copy|
    ensures at <= |line|
    decreases offset
  {
    if offset == 0 then 0
    else if CaretAAt(line, 0) then 2 + TakenBy(line[2..], copy[1..], offset - 1)
    else 1 + TakenBy(line[1..], copy[1..], offset - 1)
  }

  /** What one byte of the copy took of the line at `at`. */
  function Step(line: bytes, at: nat, byte: byte): nat
    requires at < |line|
  {
    if byte == SOH && line[at] == CARET then 2 else 1
  }

  /** The offset in `line` of the byte at `offset` in its `copy`. */
  method OriginalOffset(line: bytes, copy: bytes, offset: nat) returns (at: nat)
    requires copy == Restored(line) && offset <= |copy|
    ensures at == TakenBy(line, copy, offset)
  {
    hide Restored, TakenBy, CaretAAt;
    at := 0;
    var i := 0;
    assert line[0..] == line && copy[0..] == copy;
    while i < offset
      invariant i <= offset && at <= |line|
      invariant copy[i..] == Restored(line[at..])
      invariant at + TakenBy(line[at..], copy[i..], offset - i) == TakenBy(line, copy, offset)
    {
      StepIsTaken(line[at..], copy[i..]);
      TakenNext(line[at..], copy[i..], offset - i);
      assert line[at..][0] == line[at] && copy[i..][0] == copy[i];
      var step := Step(line, at, copy[i]);
      assert copy[i..][1..] == copy[i + 1..] && line[at..][step..] == line[at + step..];
      at := at + step;
      i := i + 1;
    }
    NothingTaken(line[at..], copy[i..]);
  }

  lemma NothingTaken(line: bytes, copy: bytes)
    requires copy == Restored(line)
    ensures TakenBy(line, copy, 0) == 0
  {
  }

  lemma TakenNext(line: bytes, copy: bytes, offset: nat)
    requires copy == Restored(line) && 0 < offset <= |copy| && line != []
    requires Step(line, 0, copy[0]) <= |line| && copy[1..] == Restored(line[Step(line, 0, copy[0])..])
    requires Step(line, 0, copy[0]) == if CaretAAt(line, 0) then 2 else 1
    ensures TakenBy(line, copy, offset) == Step(line, 0, copy[0]) + TakenBy(line[Step(line, 0, copy[0])..], copy[1..], offset - 1)
  {
    hide Restored, CaretAAt;
  }

  lemma StepIsTaken(line: bytes, copy: bytes)
    requires copy == Restored(line) && copy != []
    ensures line != [] && copy[0] == SOH && line[0] == CARET <==> CaretAAt(line, 0)
    ensures Step(line, 0, copy[0]) == (if CaretAAt(line, 0) then 2 else 1) <= |line|
    ensures copy[1..] == Restored(line[Step(line, 0, copy[0])..])
  {
  }

  /** Restoring the line up to the original offset gives exactly the copy up to the offset. */
  lemma {:induction false} OriginalOffsetInverts(line: bytes, offset: nat)
    requires offset <= |Restored(line)|
    ensures Restored(line[..TakenBy(line, Restored(line), offset)]) == Restored(line)[..offset]
    ensures offset == |Restored(line)| ==> TakenBy(line, Restored(line), offset) == |line|
    decreases offset
  {
    hide Restored, TakenBy, CaretAAt, StepLen;
    var copy := Restored(line);
    OnlyNothingRestoresToNothing(line);
    if offset == 0 {
      NothingTaken(line, copy);
    } else {
      StepOfLine(line);
      var step := StepLen(line);
      OriginalOffsetInverts(line[step..], offset - 1);
      TakenFirst(line, offset);
      TakenPart(line, TakenBy(line[step..], copy[1..], offset - 1));
      assert copy[..offset] == [copy[0]] + copy[1..][..offset - 1];
    }
  }

  /** How many bytes the first byte of a line's copy takes. */
  function StepLen(line: bytes): nat {
    if CaretAAt(line, 0) then 2 else 1
  }

  function FirstRestored(line: bytes): byte
    requires line != []
  {
    if CaretAAt(line, 0) then SOH else line[0]
  }

  lemma StepOfLine(line: bytes)
    requires line != []
    ensures StepLen(line) <= |line| && Restored(line) != [] && Restored(line)[1..] == Restored(line[StepLen(line)..])
    ensures Restored(line)[0] == FirstRestored(line)
  {
  }

  lemma OnlyNothingRestoresToNothing(line: bytes)
    ensures Restored(line) == [] <==> line == []
    ensures line[..0] == [] && Restored([]) == []
  {
    if line != [] { StepOfLine(line); }
  }

  lemma TakenFirst(line: bytes, offset: nat)
    requires 0 < offset <= |Restored(line)|
    ensures line != [] && StepLen(line) <= |line| && Restored(line)[1..] == Restored(line[StepLen(line)..])
    ensures TakenBy(line, Restored(line), offset) == StepLen(line) + TakenBy(line[StepLen(line)..], Restored(line)[1..], offset - 1)
  {
    StepOfLine(line);
  }

  /** The line up to a later offset opens with the same step. */
  lemma TakenPart(line: bytes, taken: nat)
    requires line != [] && StepLen(line) + taken <= |line|
    ensures Restored(line[..StepLen(line) + taken]) == [FirstRestored(line)] + Restored(line[StepLen(line)..][..taken])
  {
    hide Restored;
    var part := line[..StepLen(line) + taken];
    StepOfLine(line);
    StepOfLine(part);
    assert part[0] == line[0] && (CaretAAt(line, 0) ==> part[1] == line[1]);
    assert part[StepLen(line)..] == line[StepLen(line)..][..taken];
    FirstAndRest(Restored(part));
  }

  /** A message as `cat -v` shows it, with `^A` for SOH. */
  function Shown(message: bytes): (r: bytes) {
    if message == [] then []
    else (if message[0] == SOH then [CARET, UPPER_A] else [message[0]]) + Shown(message[1..])
  }

  /** A message that holds no `^A` of its own comes back from its rendering. */
  lemma {:induction false} ShownRestores(message: bytes)
    requires forall j :: 0 <= j < |message| ==> !CaretAAt(message, j)
    ensures Restored(Shown(message)) == message
    decreases |message|
  {
    if message != [] {
      var rest := message[1..];
      forall j | 0 <= j < |rest| ensures !CaretAAt(rest, j) {
        assert !CaretAAt(message, j + 1);
      }
      ShownRestores(rest);
      var shown := Shown(message);
      if message[0] == SOH {
        assert shown[2..] == Shown(rest);
      } else {
        assert shown[1..] == Shown(rest);
        assert rest != [] ==> Shown(rest)[0] == if rest[0] == SOH then CARET else rest[0];
        assert !CaretAAt(message, 0) && shown[0] == message[0];
      }
      assert message == [message[0]] + rest;
    }
  }

  /** A message comes back from its rendering exactly when it holds no `^A` of its own. */
  lemma ShownRestoresExactlyWithoutCaretA(message: bytes)
    ensures Restored(Shown(message)) == message <==> forall j :: 0 <= j < |message| ==> !CaretAAt(message, j)
  {
    if forall j :: 0 <= j < |message| ==> !CaretAAt(message, j) {
      ShownRestores(message);
    } else {
      ShownLosesCaretA(message);
    }
  }

  /** A message that holds `^A` of its own does not. */
  lemma {:induction false} ShownLosesCaretA(message: bytes)
    requires exists j :: 0 <= j < |message| && CaretAAt(message, j)
    ensures |Restored(Shown(message))| < |message|
    decreases |message|
  {
    ShownIsNoLonger(message);
    if !CaretAAt(message, 0) {
      var rest, shown := message[1..], Shown(message);
      var j :| 0 <= j < |message| && CaretAAt(message, j);
      assert CaretAAt(rest, j - 1);
      ShownLosesCaretA(rest);
      if message[0] == SOH {
        assert shown[2..] == Shown(rest);
      } else {
        assert shown[1..] == Shown(rest);
        assert !CaretAAt(shown, 0);
      }
    } else {
      var rest := message[2..];
      assert message[1..][1..] == rest;
      ShownIsNoLonger(rest);
      assert Shown(message) == [CARET] + ([UPPER_A] + Shown(rest));
      assert Shown(message)[2..] == Shown(rest);
    }
  }

  lemma {:induction false} ShownIsNoLonger(message: bytes)
    ensures |Restored(Shown(message))| <= |message|
    decreases |message|
  {
    if message != [] {
      var rest, shown := message[1..], Shown(message);
      ShownIsNoLonger(rest);
      if message[0] == SOH {
        assert shown[2..] == Shown(rest);
      } else {
        assert shown[1..] == Shown(rest);
        if CaretAAt(shown, 0) {
          assert Shown(rest)[0] == UPPER_A && rest[0] == UPPER_A;
          assert shown[2..] == Shown(rest)[1..];
          var later := message[2..];
          assert rest[1..] == later;
          assert Shown(rest) == [UPPER_A] + Shown(later);
          ShownIsNoLonger(later);
          assert shown[2..] == Shown(later);
        }
      }
    }
  }

  /** The line at the front of `s` and the bytes it takes with its line break, once all of it is there. */
  function FirstLine(s: bytes, atEnd: bool): (r: Option<(bytes, nat)>) {
    var capped := s[..Min(|s|, MAX_MESSAGE_LEN)];
    match FindByte(capped, LF, 0, |capped|)
    case Some(at) => Some((if at > 0 && capped[at - 1] == CR then capped[..at - 1] else capped[..at], at + 1))
    case None => if atEnd || |capped| == MAX_MESSAGE_LEN then Some((capped, |capped|)) else None
  }

  /** The end in `s` of a message logged with `^A`, and the message with SOH restored. */
  function CopiedMessage(lengthTags: seq<Tag>, s: bytes, atEnd: bool): (r: Option<(End, bytes)>)
    requires StartsWith(s, BEGIN_STRING_PREFIX)
  {
    match FirstLine(s, atEnd)
    case None => None
    case Some((line, lineConsumed)) =>
      LineOpens(s, atEnd);
      var copy := Restored(line);
      match FindEnd(lengthTags, copy, SOH, None, true)
      case None => None
      case Some(end) =>
        EndsAreRight(lengthTags, copy, SOH, None, true);
        var len := TakenBy(line, copy, end.len);
        Some((End(len, if len == |line| then lineConsumed else len, end.truncated), copy[..end.len]))
  }

  lemma LineOpens(s: bytes, atEnd: bool)
    requires StartsWith(s, BEGIN_STRING_PREFIX)
    ensures FirstLine(s, atEnd).Some? ==> Opens(Restored(FirstLine(s, atEnd).value.0), SOH)
    ensures FirstLine(s, atEnd).Some? ==> |FirstLine(s, atEnd).value.0| <= |s|
  {
    hide Restored;
    if FirstLine(s, atEnd).Some? {
      var line := FirstLine(s, atEnd).value.0;
      LineHoldsOpening(s, atEnd);
      PlainRestored(line, 5);
      assert Restored(line)[..5] == line[..5];
    }
  }

  lemma LineHoldsOpening(s: bytes, atEnd: bool)
    requires StartsWith(s, BEGIN_STRING_PREFIX) && FirstLine(s, atEnd).Some?
    ensures var line := FirstLine(s, atEnd).value.0;
            5 <= |line| <= |s| && line[..5] == BEGIN_STRING_PREFIX && forall j :: 0 <= j < 5 ==> !CaretAAt(line, j)
  {
    var line := FirstLine(s, atEnd).value.0;
    forall j | 0 <= j < 5 ensures s[j] == BEGIN_STRING_PREFIX[j] {
      assert s[j] == s[..5][j];
    }
    var capped := s[..Min(|s|, MAX_MESSAGE_LEN)];
    var found := FindByte(capped, LF, 0, |capped|);
    if found.Some? { assert found.value >= 5; }
    assert line == s[..|line|];
    assert line[..5] == s[..5];
  }

  /** Copies the message at the front of `s`, logged with `^A`, once its line is there. */
  method CopyMessage(lengthTags: seq<Tag>, s: bytes, atEnd: bool) returns (r: Option<(End, bytes)>)
    requires StartsWith(s, BEGIN_STRING_PREFIX)
    ensures r == CopiedMessage(lengthTags, s, atEnd)
  {
    var first := FirstLine(s, atEnd);
    if first.None? {
      return None;
    }
    var (line, lineConsumed) := first.value;
    LineOpens(s, atEnd);
    var copy := CopyRestored(line);
    var end := FindMessageEnd(lengthTags, copy, SOH, None, true);
    if end.None? {
      return None;
    }
    EndsAreRight(lengthTags, copy, SOH, None, true);
    var len := OriginalOffset(line, copy, end.value.len);
    var consumed := if len == |line| then lineConsumed else len;
    copy := copy[..end.value.len];
    return Some((End(len, consumed, end.value.truncated), copy));
  }

  /** A `^A` message waits exactly for the line feed that ends its line, up to the cap and the end of input. */
  lemma CopyWaitsExactly(lengthTags: seq<Tag>, s: bytes, atEnd: bool)
    requires StartsWith(s, BEGIN_STRING_PREFIX)
    ensures CopiedMessage(lengthTags, s, atEnd) == None <==> !atEnd && |s| < MAX_MESSAGE_LEN && LF !in s
  {
    hide Restored, TakenBy, FindEnd, RightEnd;
    var first := FirstLine(s, atEnd);
    if first.Some? {
      LineOpens(s, atEnd);
      EndsAreRight(lengthTags, Restored(first.value.0), SOH, None, true);
    }
    var capped := s[..Min(|s|, MAX_MESSAGE_LEN)];
    assert |s| < MAX_MESSAGE_LEN ==> capped == s;
  }
}
