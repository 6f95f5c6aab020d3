/** When exactly the field walk over a log depends on how much of the log has arrived. */
module LogWalkLaws {
  import opened Wrappers
  import opened Bytes
  import opened Tags
  import opened Tokenizer
  import opened LogStart
  import opened LogEnd
  import Framing
  import opened LogEndLaws

  /** Where the tag of the field at `pos` ends: at its `=`, at a separator without one, or not yet. */
  function HeadEnd(s: bytes, pos: nat, separator: byte): (end: nat)
    requires pos <= |s|
    ensures pos <= end <= |s|
  {
    match FindTagEnd(s, pos, separator)
    case Some(tagEnd) => tagEnd.at
    case None => |s|
  }

  function From(pos: nat): nat {
    if pos == 0 then 1 else pos
  }

  /** Whether a value may reach `end` only past the bytes so far. */
  predicate Unarrived(s: bytes, end: nat) {
    !CapIsFinal(s, false) && end >= |Capped(s, false)|
  }

  /**
   * The field at `pos`, after a length field that declares `len`, hides the line break before
   * `cut`, which falls in its tag: the walk passes over it because the run has no `=` and is `len`
   * bytes long, or holds it back because `len` bytes have not arrived.
   */
  predicate HidesBreak(s: bytes, separator: byte, pos: nat, len: nat, cut: nat)
    requires pos <= |Capped(s, false)|
  {
    var capped := Capped(s, false);
    0 < pos <= cut &&
    match FindTagEnd(capped, pos, separator)
    case None => false
    case Some(Equals(at)) =>
      cut <= at && FindByte(capped, LF, pos, cut).Some? && Unarrived(s, at + 1 + len)
    case Some(Separator(at)) =>
      cut <= at && FindByte(capped, LF, pos, cut).Some? && (Unarrived(s, pos + len) || at - pos == len)
  }

  /**
   * A field the walk meets hides a line break before `cut`, and `cut` is past the extents that the
   * length fields before it declare.
   */
  predicate BreakHidden(
    lengthTags: seq<Tag>, s: bytes, separator: byte, given: Option<byte>, cut: nat, pos: nat, dataLen: Option<nat>)
    requires Opens(s, separator) && pos <= |Capped(s, false)|
    decreases |Capped(s, false)| - pos
  {
    || (dataLen.Some? && HidesBreak(s, separator, pos, dataLen.value, cut))
    || match StepWalk(lengthTags, s, separator, given, false, pos, dataLen)
       case Over(_) => false
       case GoOn(later, pending) =>
         && PastExtent(NextField(Capped(s, false), pos, dataLen, separator), dataLen, cut)
         && BreakHidden(lengthTags, s, separator, given, cut, later, pending)
  }

  predicate PastExtent(next: Option<(RawField, nat)>, dataLen: Option<nat>, cut: nat) {
    next.Some? && dataLen.Some? ==> next.value.0.valueStart + dataLen.value < cut
  }

  /** A search that need not wait finds the same with more bytes. */
  lemma {:induction false} SearchStays(s: bytes, more: bytes, from: nat, until: nat, given: Option<byte>)
    requires until <= |s| && !FindStart(s, from, until, given, false).PendingStart?
    ensures FindStart(s + more, from, until, given, false) == FindStart(s, from, until, given, false)
    decreases until - from
  {
    hide Check;
    if from < until {
      if Eligible(s, from) {
        assert (s + more)[from..] == s[from..] + more;
        CheckStable(s[from..], more, given);
      }
      if !FindStart(s, from, until, given, false).Found? || !Eligible(s, from) || !Check(s[from..], given).IsStart? {
        SearchStays(s, more, from + 1, until, given);
      }
    }
  }

  /** A start found is the start found when searching further. */
  lemma {:induction false} FoundWithin(s: bytes, from: nat, until: nat, later: nat, given: Option<byte>)
    requires until <= later <= |s| && FindStart(s, from, until, given, false).Found?
    ensures FindStart(s, from, later, given, false) == FindStart(s, from, until, given, false)
    decreases until - from
  {
    hide Check, Eligible;
    if !Eligible(s, from) || !Check(s[from..], given).IsStart? { FoundWithin(s, from + 1, until, later, given); }
  }

  /** What a step needs of the search and the line break, and no more. */
  function StepFrom(
    lengthTags: seq<Tag>, s: bytes, given: Option<byte>, next: Option<(RawField, nat)>, lineBreak: Option<nat>, from: nat, until: nat)
    : (r: WalkStep)
    requires until <= |s|
    requires lineBreak.Some? ==> 1 <= lineBreak.value < |Capped(s, false)|
    requires next.Some? ==> next.value.0.valueStart <= next.value.0.valueEnd <= |Capped(s, false)| && next.value.1 == next.value.0.valueEnd + 1
  {
    match FindStart(s, from, until, given, false)
    case Found(start) => Over(Some(End(start.at, start.at, true)))
    case PendingStart(_) => Over(None)
    case NoStart => StepFromField(lengthTags, s, false, next, lineBreak)
  }

  /** Whether a data value may run past the bytes so far. */
  predicate Awaits(s: bytes, next: Option<(RawField, nat)>, dataLen: Option<nat>) {
    next.Some? && dataLen.Some? && !CapIsFinal(s, false) && next.value.0.valueStart + dataLen.value >= |Capped(s, false)|
  }

  lemma StepParts(
    lengthTags: seq<Tag>, s: bytes, separator: byte, given: Option<byte>, pos: nat, dataLen: Option<nat>)
    requires Opens(s, separator) && pos <= |Capped(s, false)|
    ensures var capped := Capped(s, false);
            var next := NextField(capped, pos, dataLen, separator);
            var checkedEnd := CheckedEnd(capped, pos, next, dataLen);
            && From(pos) <= checkedEnd <= |capped|
            && var lineBreak := FindByte(capped, LF, From(pos), checkedEnd);
            StepWalk(lengthTags, s, separator, given, false, pos, dataLen) ==
              if Awaits(s, next, dataLen) then Over(None)
              else StepFrom(lengthTags, s, given, next, lineBreak, From(pos), if lineBreak.Some? then lineBreak.value else checkedEnd)
  {
    hide NextField, FindStart, StepFromField, Capped, Opens, StartsWith, CapIsFinal;
    FirstFieldIsLong(s, false, dataLen, separator);
  }

  /** A field that ends inside the bytes is the same with more of them. */
  lemma NextFieldExtends(s: bytes, t: bytes, pos: nat, dataLen: Option<nat>, separator: byte)
    requires s <= t && |t| <= U32_MAX && NextField(s, pos, dataLen, separator).Some?
    requires var field := NextField(s, pos, dataLen, separator).value.0;
             field.valueEnd < |s| && (dataLen.Some? ==> field.valueStart + dataLen.value < |s|)
    ensures NextField(t, pos, dataLen, separator) == NextField(s, pos, dataLen, separator)
  {
    hide FindTagEnd, ValueEnd, TagOf;
    TagEndExtends(s, t, pos, separator);
    var tagEnd := FindTagEnd(s, pos, separator).value;
    assert t[pos..tagEnd.at] == s[pos..tagEnd.at];
    if tagEnd.Equals? { ValueEndExtends(s, t, tagEnd.at + 1, dataLen, separator); }
  }

  lemma TagEndExtends(s: bytes, t: bytes, pos: nat, separator: byte)
    requires s <= t && FindTagEnd(s, pos, separator).Some?
    ensures FindTagEnd(t, pos, separator) == FindTagEnd(s, pos, separator)
  {
    var tagEnd := FindTagEnd(s, pos, separator).value;
    FirstTagEndAt(t, pos, separator, tagEnd);
  }

  lemma ValueEndExtends(s: bytes, t: bytes, start: nat, dataLen: Option<nat>, separator: byte)
    requires s <= t && start <= |s| && ValueEnd(s, start, dataLen, separator) < |s|
    requires dataLen.Some? ==> start + dataLen.value < |s|
    ensures ValueEnd(t, start, dataLen, separator) == ValueEnd(s, start, dataLen, separator)
  {
    FindByteExtends(s, t, separator, start, |s|, |t|);
  }

  /** With the same field, search range and line break, a step that does not wait is the same with more bytes. */
  lemma SameFieldSameStep(
    lengthTags: seq<Tag>, s: bytes, more: bytes, given: Option<byte>, next: Option<(RawField, nat)>, lineBreak: Option<nat>, from: nat, until: nat)
    requires until <= |s|
    requires lineBreak.Some? ==> 1 <= lineBreak.value < |Capped(s, false)|
    requires next.Some? ==> next.value.0.valueStart <= next.value.0.valueEnd <= |Capped(s, false)| && next.value.1 == next.value.0.valueEnd + 1
    requires CapIsFinal(s, false) || (next.Some? && next.value.0.valueEnd < |Capped(s, false)|)
    requires StepFrom(lengthTags, s, given, next, lineBreak, from, until) != Over(None)
    ensures |Capped(s, false)| <= |Capped(s + more, false)|
    ensures StepFrom(lengthTags, s + more, given, next, lineBreak, from, until) == StepFrom(lengthTags, s, given, next, lineBreak, from, until)
  {
    hide FindStart;
    SearchStays(s, more, from, until, given);
    CappedGrows(s, more);
    if FindStart(s, from, until, given, false).NoStart? {
      SameFieldSame(lengthTags, s, more, next, lineBreak);
    }
  }

  lemma SameFieldSame(lengthTags: seq<Tag>, s: bytes, more: bytes, next: Option<(RawField, nat)>, lineBreak: Option<nat>)
    requires lineBreak.Some? ==> 1 <= lineBreak.value < |Capped(s, false)|
    requires next.Some? ==> next.value.0.valueStart <= next.value.0.valueEnd <= |Capped(s, false)| && next.value.1 == next.value.0.valueEnd + 1
    requires CapIsFinal(s, false) || (next.Some? && next.value.0.valueEnd < |Capped(s, false)|)
    requires StepFromField(lengthTags, s, false, next, lineBreak) != Over(None)
    ensures |Capped(s, false)| <= |Capped(s + more, false)|
    ensures StepFromField(lengthTags, s + more, false, next, lineBreak) == StepFromField(lengthTags, s, false, next, lineBreak)
  {
    hide Capped, AfterMessage, PendingDataLen, CapIsFinal;
    CappedGrows(s, more);
    var capped, later := Capped(s, false), Capped(s + more, false);
    if lineBreak.Some? {
      assert later[lineBreak.value - 1] == capped[lineBreak.value - 1];
    } else if next.Some? && next.value.0.valueEnd < |capped| {
      var (field, after) := next.value;
      assert later[field.valueStart..field.valueEnd] == capped[field.valueStart..field.valueEnd];
      SamePending(lengthTags, capped, later, field);
      if field.tag == CHECKSUM { AfterMessageStable(s, more, after); }
    }
  }

  lemma SamePending(lengthTags: seq<Tag>, s: bytes, t: bytes, field: RawField)
    requires field.valueStart <= field.valueEnd <= |s| && s <= t
    ensures PendingDataLen(lengthTags, t, field) == PendingDataLen(lengthTags, s, field)
  {
    assert t[field.valueStart..field.valueEnd] == s[field.valueStart..field.valueEnd];
  }

  /**
   * An unfinished field that ends the record at a start or a line break ends it there with more
   * bytes too, if they leave its tag's text and are searched at least as far.
   */
  lemma UnfinishedFieldSameStep(
    lengthTags: seq<Tag>, s: bytes, more: bytes, given: Option<byte>,
    next: Option<(RawField, nat)>, next': Option<(RawField, nat)>, from: nat, checkedEnd: nat)
    requires !CapIsFinal(s, false) && 1 <= from <= |s| <= checkedEnd <= |Capped(s + more, false)|
    requires next.Some? ==> next.value.0.valueStart <= next.value.0.valueEnd == |s| && next.value.1 == next.value.0.valueEnd + 1
    requires next'.Some? ==> next'.value.0.valueStart <= next'.value.0.valueEnd <= |Capped(s + more, false)| && next'.value.1 == next'.value.0.valueEnd + 1
    requires Capped(s, false) == s
    requires var lineBreak := FindByte(s, LF, from, |s|);
             && (lineBreak.Some? ==> ((next.Some? && next.value.0.tag == CHECKSUM) <==> (next'.Some? && next'.value.0.tag == CHECKSUM)))
             && StepFrom(lengthTags, s, given, next, lineBreak, from, if lineBreak.Some? then lineBreak.value else |s|) != Over(None)
    ensures var lineBreak, later := FindByte(s, LF, from, |s|), FindByte(Capped(s + more, false), LF, from, checkedEnd);
            StepFrom(lengthTags, s + more, given, next', later, from, if later.Some? then later.value else checkedEnd)
            == StepFrom(lengthTags, s, given, next, lineBreak, from, if lineBreak.Some? then lineBreak.value else |s|)
  {
    hide FindStart, Capped, CapIsFinal, AfterMessage, PendingDataLen;
    CappedGrows(s, more);
    var t := Capped(s + more, false);
    var lineBreak := FindByte(s, LF, from, |s|);
    FindByteExtends(s, t, LF, from, |s|, checkedEnd);
    var later := FindByte(t, LF, from, checkedEnd);
    var until, until' := if lineBreak.Some? then lineBreak.value else |s|, if later.Some? then later.value else checkedEnd;
    LaterBreak(s, t, from, checkedEnd);
    SearchStays(s, more, from, until, given);
    if FindStart(s, from, until, given, false).Found? {
      FoundWithin(s + more, from, until, until', given);
    } else {
      UnfinishedWaits(lengthTags, s, next, lineBreak);
      assert t[lineBreak.value - 1] == s[lineBreak.value - 1];
    }
  }

  lemma LaterBreak(s: bytes, t: bytes, from: nat, checkedEnd: nat)
    requires s <= t && from <= |s| <= checkedEnd <= |t|
    ensures var lineBreak, later := FindByte(s, LF, from, |s|), FindByte(t, LF, from, checkedEnd);
            lineBreak.None? && later.Some? ==> |s| <= later.value
  {
    forall j | from <= j < |s| ensures t[j] == s[j] {}
  }

  /** Without a line break, an unfinished field waits. */
  lemma UnfinishedWaits(lengthTags: seq<Tag>, s: bytes, next: Option<(RawField, nat)>, lineBreak: Option<nat>)
    requires !CapIsFinal(s, false) && Capped(s, false) == s
    requires next.Some? ==> next.value.0.valueStart <= next.value.0.valueEnd == |s| && next.value.1 == next.value.0.valueEnd + 1
    requires lineBreak.Some? ==> 1 <= lineBreak.value < |s|
    requires StepFromField(lengthTags, s, false, next, lineBreak) != Over(None)
    ensures lineBreak.Some?
  {
    hide Capped, CapIsFinal;
  }

  lemma SameByte(s: bytes, t: bytes, b: byte, from: nat, until: nat)
    requires s <= t && from <= until <= |s|
    ensures FindByte(t, b, from, until) == FindByte(s, b, from, until)
  {
    forall j | from <= j < until ensures t[j] == s[j] {}
    var found, later := FindByte(s, b, from, until), FindByte(t, b, from, until);
  }

  /** A value that runs to the end of the bytes runs on with more of them, if they are past its declared length. */
  lemma UnfinishedValue(s: bytes, t: bytes, pos: nat, dataLen: Option<nat>, separator: byte)
    requires s <= t && |t| <= U32_MAX && NextField(s, pos, dataLen, separator).Some?
    requires var field := NextField(s, pos, dataLen, separator).value.0;
             field.valueEnd == |s| && (dataLen.Some? ==> field.valueStart + dataLen.value < |s|)
    ensures NextField(t, pos, dataLen, separator).Some?
    ensures var field, later := NextField(s, pos, dataLen, separator).value.0, NextField(t, pos, dataLen, separator).value.0;
            && later.tag == field.tag && later.valueStart == field.valueStart && |s| <= later.valueEnd
            && dataLen != Some(field.valueEnd - field.valueStart) && dataLen != Some(later.valueEnd - later.valueStart)
  {
    hide FindTagEnd, ValueEnd, TagOf;
    TagEndExtends(s, t, pos, separator);
    var tagEnd := FindTagEnd(s, pos, separator).value;
    assert t[pos..tagEnd.at] == s[pos..tagEnd.at];
    if tagEnd.Equals? { UnfinishedEnd(s, t, tagEnd.at + 1, dataLen, separator); }
  }

  lemma UnfinishedEnd(s: bytes, t: bytes, start: nat, dataLen: Option<nat>, separator: byte)
    requires s <= t && start <= |s| && ValueEnd(s, start, dataLen, separator) == |s|
    requires dataLen.Some? ==> start + dataLen.value < |s|
    ensures |s| <= ValueEnd(t, start, dataLen, separator)
  {
    var found, later := FindByte(s, separator, start, |s|), FindByte(t, separator, start, |t|);
    forall j | start <= j < |s| ensures t[j] == s[j] {}
  }

  /** A field of which only the head has arrived, no length being declared for it, is searched further with more bytes. */
  lemma UnfinishedHead(s: bytes, t: bytes, pos: nat, separator: byte)
    requires s <= t && pos <= |s| && |t| <= U32_MAX && NextField(s, pos, None, separator).None?
    ensures |s| <= HeadEnd(t, pos, separator)
    ensures |s| <= CheckedEnd(t, pos, NextField(t, pos, None, separator), None) <= |t|
    ensures (exists j :: pos <= j < |s| && s[j] == LF) ==>
              var next := NextField(t, pos, None, separator); next.Some? ==> next.value.0.tag != CHECKSUM
  {
    HeadRunsOn(s, t, pos, separator);
    hide FindTagEnd, ValueEnd;
    var tagEnd := FindTagEnd(t, pos, separator);
    if tagEnd.Some? && (exists j :: pos <= j < |s| && s[j] == LF) {
      var j :| pos <= j < |s| && s[j] == LF;
      var text := t[pos..tagEnd.value.at];
      assert text[j - pos] == LF && !AllDigits(text);
    }
  }

  lemma HeadRunsOn(s: bytes, t: bytes, pos: nat, separator: byte)
    requires s <= t && pos <= |s| && FindTagEnd(s, pos, separator).None?
    ensures |s| <= HeadEnd(t, pos, separator)
  {
    forall j | pos <= j < |s| ensures t[j] == s[j] && s[j] != EQUALS && s[j] != separator {}
  }

  lemma StartHoldsEquals(s: bytes, given: Option<byte>)
    requires Check(s, given).IsStart?
    ensures |s| > 1 && s[1] == EQUALS
  {
    hide CheckValue;
    assert s[1] == s[..5][1];
  }

  /** Without an `=` no start is found. */
  lemma {:induction false} SearchFindsEquals(s: bytes, from: nat, until: nat, given: Option<byte>)
    requires until <= |s| && FindStart(s, from, until, given, false).Found?
    ensures exists j :: from <= j < |s| && s[j] == EQUALS
  {
    hide Check, FindStart;
    var at := FindStart(s, from, until, given, false).start.at;
    StartHoldsEquals(s[at..], given);
    assert s[at + 1] == EQUALS;
  }

  /** Of a field of which only part of the tag has arrived, a step ends the record only at a line break. */
  lemma HeadEndsAtBreak(lengthTags: seq<Tag>, s: bytes, separator: byte, given: Option<byte>, pos: nat)
    requires !CapIsFinal(s, false) && Capped(s, false) == s && From(pos) <= |s| && pos <= |s|
    requires FindTagEnd(s, pos, separator).None?
    requires var lineBreak := FindByte(s, LF, From(pos), |s|);
             StepFrom(lengthTags, s, given, None, lineBreak, From(pos), if lineBreak.Some? then lineBreak.value else |s|) != Over(None)
    ensures FindByte(s, LF, From(pos), |s|).Some?
  {
    hide FindStart, Capped, CapIsFinal, FindTagEnd;
    NoEqualsNoStart(s, From(pos), |s|, given);
  }

  lemma NoEqualsNoStart(s: bytes, from: nat, until: nat, given: Option<byte>)
    requires until <= |s| && forall j :: from <= j < |s| ==> s[j] != EQUALS
    ensures !FindStart(s, from, until, given, false).Found?
  {
    hide FindStart;
    if FindStart(s, from, until, given, false).Found? { SearchFindsEquals(s, from, until, given); }
  }

  /** A head with a line break in it that more bytes do not hide is searched at least as far with them. */
  lemma OpenHead(s: bytes, more: bytes, separator: byte, pos: nat, len: nat)
    requires !CapIsFinal(s, false) && Capped(s, false) == s && 0 < pos <= |s| <= |Capped(s + more, false)|
    requires FindTagEnd(s, pos, separator).None? && FindByte(s, LF, pos, |s|).Some?
    requires !HidesBreak(s + more, separator, pos, len, |s|)
    ensures var t := Capped(s + more, false);
            var next := NextField(t, pos, Some(len), separator);
            && !Awaits(s + more, next, Some(len))
            && |s| <= CheckedEnd(t, pos, next, Some(len)) <= |t|
            && (next.Some? ==> next.value.0.tag != CHECKSUM)
  {
    CappedGrows(s, more);
    var t := Capped(s + more, false);
    HeadRunsOn(s, t, pos, separator);
    SameByte(s, t, LF, pos, |s|);
    hide Capped, CapIsFinal, FindTagEnd, ValueEnd;
    var tagEnd := FindTagEnd(t, pos, separator);
    if tagEnd.Some? {
      var text := t[pos..tagEnd.value.at];
      assert text[FindByte(s, LF, pos, |s|).value - pos] == LF && !AllDigits(text);
    }
  }

  /**
   * A step of the walk that does not wait is the same with more bytes, if the field it meets
   * after a length field hides no line break in them.
   */
  lemma StepStays(
    lengthTags: seq<Tag>, s: bytes, more: bytes, separator: byte, given: Option<byte>, pos: nat, dataLen: Option<nat>)
    requires Opens(s, separator) && pos <= |Capped(s, false)|
    requires StepWalk(lengthTags, s, separator, given, false, pos, dataLen) != Over(None)
    requires |Capped(s, false)| <= |Capped(s + more, false)|
    requires CapIsFinal(s, false) || dataLen.None? || !HidesBreak(s + more, separator, pos, dataLen.value, |s|)
    ensures Opens(s + more, separator)
    ensures StepWalk(lengthTags, s + more, separator, given, false, pos, dataLen) == StepWalk(lengthTags, s, separator, given, false, pos, dataLen)
  {
    hide StepWalk, NextField, FindStart, FindByte, Capped, Opens, CapIsFinal, StepFrom, HidesBreak, CheckedEnd;
    StillOpens(s, more, separator);
    CappedGrows(s, more);
    StepParts(lengthTags, s, separator, given, pos, dataLen);
    StepParts(lengthTags, s + more, separator, given, pos, dataLen);
    var capped := Capped(s, false);
    var next := NextField(capped, pos, dataLen, separator);
    if CapIsFinal(s, false) {
      FinalStepStays(lengthTags, s, more, separator, given, pos, dataLen);
    } else if next.Some? && next.value.0.valueEnd < |capped| {
      FinishedStepStays(lengthTags, s, more, separator, given, pos, dataLen);
    } else {
      UnfinishedStepStays(lengthTags, s, more, separator, given, pos, dataLen);
    }
  }

  lemma StillOpens(s: bytes, more: bytes, separator: byte)
    requires Opens(s, separator)
    ensures Opens(s + more, separator)
  {
    assert (s + more)[..5] == s[..5];
  }

  /** The parts of a step, as `StepParts` gives them. */
  ghost predicate StepsAs(
    lengthTags: seq<Tag>, s: bytes, given: Option<byte>, pos: nat, next: Option<(RawField, nat)>, dataLen: Option<nat>, step: WalkStep) {
    var capped := Capped(s, false);
    var checkedEnd := CheckedEnd(capped, pos, next, dataLen);
    && From(pos) <= checkedEnd <= |capped|
    && (next.Some? ==> next.value.0.valueStart <= next.value.0.valueEnd <= |capped| && next.value.1 == next.value.0.valueEnd + 1)
    && var lineBreak := FindByte(capped, LF, From(pos), checkedEnd);
    step == if Awaits(s, next, dataLen) then Over(None)
            else StepFrom(lengthTags, s, given, next, lineBreak, From(pos), if lineBreak.Some? then lineBreak.value else checkedEnd)
  }

  lemma StepIsAs(
    lengthTags: seq<Tag>, s: bytes, separator: byte, given: Option<byte>, pos: nat, dataLen: Option<nat>)
    requires Opens(s, separator) && pos <= |Capped(s, false)|
    ensures StepsAs(lengthTags, s, given, pos, NextField(Capped(s, false), pos, dataLen, separator), dataLen,
                    StepWalk(lengthTags, s, separator, given, false, pos, dataLen))
  {
    hide StepWalk, NextField, FindStart, FindByte, Capped, Opens, CapIsFinal, StepFrom, CheckedEnd, Awaits;
    StepParts(lengthTags, s, separator, given, pos, dataLen);
  }

  lemma FinalStepStays(
    lengthTags: seq<Tag>, s: bytes, more: bytes, separator: byte, given: Option<byte>, pos: nat, dataLen: Option<nat>)
    requires Opens(s, separator) && Opens(s + more, separator) && pos <= |Capped(s, false)| <= |Capped(s + more, false)|
    requires StepWalk(lengthTags, s, separator, given, false, pos, dataLen) != Over(None) && CapIsFinal(s, false)
    ensures StepWalk(lengthTags, s + more, separator, given, false, pos, dataLen) == StepWalk(lengthTags, s, separator, given, false, pos, dataLen)
  {
    hide StepWalk, NextField, FindStart, FindByte, Capped, Opens, CapIsFinal, StepFrom, CheckedEnd;
    CappedGrows(s, more);
    StepIsAs(lengthTags, s, separator, given, pos, dataLen);
    StepIsAs(lengthTags, s + more, separator, given, pos, dataLen);
    var capped := Capped(s, false);
    var next := NextField(capped, pos, dataLen, separator);
    var checkedEnd := CheckedEnd(capped, pos, next, dataLen);
    var lineBreak := FindByte(capped, LF, From(pos), checkedEnd);
    SameFieldSameStep(lengthTags, s, more, given, next, lineBreak, From(pos), if lineBreak.Some? then lineBreak.value else checkedEnd);
  }

  lemma FinishedStepStays(
    lengthTags: seq<Tag>, s: bytes, more: bytes, separator: byte, given: Option<byte>, pos: nat, dataLen: Option<nat>)
    requires Opens(s, separator) && Opens(s + more, separator) && pos <= |Capped(s, false)| <= |Capped(s + more, false)|
    requires StepWalk(lengthTags, s, separator, given, false, pos, dataLen) != Over(None) && !CapIsFinal(s, false)
    requires var next := NextField(Capped(s, false), pos, dataLen, separator); next.Some? && next.value.0.valueEnd < |Capped(s, false)|
    ensures StepWalk(lengthTags, s + more, separator, given, false, pos, dataLen) == StepWalk(lengthTags, s, separator, given, false, pos, dataLen)
  {
    hide StepWalk, NextField, FindStart, FindByte, Capped, Opens, CapIsFinal, StepFrom;
    CappedGrows(s, more);
    StepIsAs(lengthTags, s, separator, given, pos, dataLen);
    StepIsAs(lengthTags, s + more, separator, given, pos, dataLen);
    var capped := Capped(s, false);
    var next := NextField(capped, pos, dataLen, separator);
    NextFieldExtends(capped, Capped(s + more, false), pos, dataLen, separator);
    var checkedEnd := CheckedEnd(capped, pos, next, dataLen);
    SameByte(capped, Capped(s + more, false), LF, From(pos), checkedEnd);
    var lineBreak := FindByte(capped, LF, From(pos), checkedEnd);
    SameFieldSameStep(lengthTags, s, more, given, next, lineBreak, From(pos), if lineBreak.Some? then lineBreak.value else checkedEnd);
  }

  lemma UnfinishedStepStays(
    lengthTags: seq<Tag>, s: bytes, more: bytes, separator: byte, given: Option<byte>, pos: nat, dataLen: Option<nat>)
    requires Opens(s, separator) && Opens(s + more, separator) && pos <= |Capped(s, false)| <= |Capped(s + more, false)|
    requires StepWalk(lengthTags, s, separator, given, false, pos, dataLen) != Over(None) && !CapIsFinal(s, false)
    requires var next := NextField(Capped(s, false), pos, dataLen, separator); next.Some? ==> next.value.0.valueEnd == |Capped(s, false)|
    requires dataLen.Some? ==> !HidesBreak(s + more, separator, pos, dataLen.value, |s|)
    ensures StepWalk(lengthTags, s + more, separator, given, false, pos, dataLen) == StepWalk(lengthTags, s, separator, given, false, pos, dataLen)
  {
    hide StepWalk, NextField, FindStart, FindByte, Capped, Opens, CapIsFinal, StepFrom, HidesBreak;
    CappedGrows(s, more);
    NotFinalIsWhole(s);
    StepIsAs(lengthTags, s, separator, given, pos, dataLen);
    StepIsAs(lengthTags, s + more, separator, given, pos, dataLen);
    var t := Capped(s + more, false);
    var next, next' := NextField(s, pos, dataLen, separator), NextField(t, pos, dataLen, separator);
    if next.Some? {
      UnfinishedValue(s, t, pos, dataLen, separator);
    } else {
      NoFieldNoTagEnd(s, pos, dataLen, separator);
      FirstFieldIsThere(s, dataLen, separator);
      if dataLen.Some? {
        HeadEndsAtBreak(lengthTags, s, separator, given, pos);
        OpenHead(s, more, separator, pos, dataLen.value);
      } else {
        UnfinishedHead(s, t, pos, separator);
      }
    }
    UnfinishedFieldSameStep(lengthTags, s, more, given, next, next', From(pos), CheckedEnd(t, pos, next', dataLen));
  }

  lemma NotFinalIsWhole(s: bytes)
    requires !CapIsFinal(s, false)
    ensures Capped(s, false) == s
  {
    assert s[..|s|] == s;
  }

  lemma NoFieldNoTagEnd(s: bytes, pos: nat, dataLen: Option<nat>, separator: byte)
    requires |s| <= U32_MAX && NextField(s, pos, dataLen, separator).None?
    ensures FindTagEnd(s, pos, separator).None? && NextField(s, pos, None, separator).None?
  {
  }

  lemma FirstFieldIsThere(s: bytes, dataLen: Option<nat>, separator: byte)
    requires Opens(s, separator) && Capped(s, false) == s
    ensures NextField(s, 0, dataLen, separator).Some?
  {
    FirstFieldIsLong(s, false, dataLen, separator);
  }

  /** Once the cap is reached, more bytes change nothing of an end the walk gives. */
  lemma {:induction false} FinalWalkStays(
    lengthTags: seq<Tag>, s: bytes, more: bytes, separator: byte, given: Option<byte>, pos: nat, dataLen: Option<nat>)
    requires Opens(s, separator) && Opens(s + more, separator) && pos <= |Capped(s, false)| <= |Capped(s + more, false)|
    requires CapIsFinal(s, false) && Walk(lengthTags, s, separator, given, false, pos, dataLen).Some?
    ensures Walk(lengthTags, s + more, separator, given, false, pos, dataLen) == Walk(lengthTags, s, separator, given, false, pos, dataLen)
    decreases |Capped(s, false)| - pos
  {
    hide StepWalk, Walk, Capped, Opens, CapIsFinal;
    WalkUnfolds(lengthTags, s, separator, given, false, pos, dataLen);
    WalkUnfolds(lengthTags, s + more, separator, given, false, pos, dataLen);
    FinalStepStays(lengthTags, s, more, separator, given, pos, dataLen);
    var step := StepWalk(lengthTags, s, separator, given, false, pos, dataLen);
    if step.GoOn? {
      FinalWalkStays(lengthTags, s, more, separator, given, step.pos, step.dataLen);
    }
  }

  /** An end the walk gives stays its end with more bytes, if no field it meets in them hides a line break. */
  lemma {:induction false} WalkStays(
    lengthTags: seq<Tag>, s: bytes, more: bytes, separator: byte, given: Option<byte>, pos: nat, dataLen: Option<nat>)
    requires Opens(s, separator) && Opens(s + more, separator) && pos <= |Capped(s, false)| <= |Capped(s + more, false)|
    requires Walk(lengthTags, s, separator, given, false, pos, dataLen).Some?
    requires !BreakHidden(lengthTags, s + more, separator, given, |s|, pos, dataLen)
    ensures Walk(lengthTags, s + more, separator, given, false, pos, dataLen) == Walk(lengthTags, s, separator, given, false, pos, dataLen)
    decreases |Capped(s, false)| - pos
  {
    hide StepWalk, Walk, Capped, Opens, HidesBreak, CapIsFinal, PastExtent;
    if CapIsFinal(s, false) {
      FinalWalkStays(lengthTags, s, more, separator, given, pos, dataLen);
    } else {
      WalkUnfolds(lengthTags, s, separator, given, false, pos, dataLen);
      WalkUnfolds(lengthTags, s + more, separator, given, false, pos, dataLen);
      StepStays(lengthTags, s, more, separator, given, pos, dataLen);
      var step := StepWalk(lengthTags, s, separator, given, false, pos, dataLen);
      if step.GoOn? {
        GoesPastExtent(lengthTags, s, more, separator, given, pos, dataLen);
        WalkStays(lengthTags, s, more, separator, given, step.pos, step.dataLen);
      }
    }
  }

  /** A step that goes on, before the cap is reached, has all of the extent declared for its field. */
  lemma GoesPastExtent(
    lengthTags: seq<Tag>, s: bytes, more: bytes, separator: byte, given: Option<byte>, pos: nat, dataLen: Option<nat>)
    requires Opens(s, separator) && pos <= |Capped(s, false)| <= |Capped(s + more, false)| && !CapIsFinal(s, false)
    requires StepWalk(lengthTags, s, separator, given, false, pos, dataLen).GoOn?
    ensures PastExtent(NextField(Capped(s + more, false), pos, dataLen, separator), dataLen, |s|)
  {
    hide StepWalk, NextField, FindStart, FindByte, Capped, Opens, CapIsFinal, StepFrom, CheckedEnd;
    CappedGrows(s, more);
    NotFinalIsWhole(s);
    StepParts(lengthTags, s, separator, given, pos, dataLen);
    GoOnEndsInside(lengthTags, s, separator, given, pos, dataLen);
    NextFieldExtends(s, Capped(s + more, false), pos, dataLen, separator);
  }

  lemma GoOnEndsInside(
    lengthTags: seq<Tag>, s: bytes, separator: byte, given: Option<byte>, pos: nat, dataLen: Option<nat>)
    requires Opens(s, separator) && pos <= |Capped(s, false)|
    requires StepWalk(lengthTags, s, separator, given, false, pos, dataLen).GoOn?
    ensures var capped := Capped(s, false);
            var next := NextField(capped, pos, dataLen, separator);
            && next.Some? && next.value.0.valueEnd < |capped| && !Awaits(s, next, dataLen)
            && FindByte(capped, LF, From(pos), CheckedEnd(capped, pos, next, dataLen)).None?
            && From(pos) <= CheckedEnd(capped, pos, next, dataLen) <= |capped|
            && FindStart(s, From(pos), CheckedEnd(capped, pos, next, dataLen), given, false) == NoStart
            && StepFromField(lengthTags, s, false, next, None) == StepWalk(lengthTags, s, separator, given, false, pos, dataLen)
  {
    hide StepWalk, NextField, FindStart, FindByte, Capped, Opens, CapIsFinal, CheckedEnd;
    StepParts(lengthTags, s, separator, given, pos, dataLen);
  }

  // A hidden line break ends the record where the bytes are cut before the tag it is in ends.

  /** A line break settles whether a message starts before it. */
  lemma BreakSettlesCheck(s: bytes, given: Option<byte>, j: nat)
    requires j < |s| && s[j] == LF && given != Some(LF)
    ensures !Check(s, given).NeedsMore?
  {
    hide CheckValue;
    if s[..Min(|s|, 5)] == Framing.BEGIN_STRING_PREFIX[..Min(|s|, 5)] {
      PrefixHasNoBreak(s, j);
      BreakSettlesValue(s, given, j);
    }
  }

  lemma PrefixHasNoBreak(s: bytes, j: nat)
    requires j < |s| && s[j] == LF && s[..Min(|s|, 5)] == Framing.BEGIN_STRING_PREFIX[..Min(|s|, 5)]
    ensures 5 <= j
  {
    forall k | 0 <= k < Min(|s|, 5) ensures s[k] != LF {
      assert s[k] == s[..Min(|s|, 5)][k] == Framing.BEGIN_STRING_PREFIX[k];
    }
  }

  lemma BreakSettlesValue(s: bytes, given: Option<byte>, j: nat)
    requires 5 <= j < |s| && s[j] == LF && given != Some(LF)
    ensures !CheckValue(s, given).NeedsMore?
  {
    hide CheckAfterValue;
    var valueEnd := 5 + ValueRun(s, 5, Framing.MAX_BEGIN_STRING_LEN);
    if valueEnd <= j { BreakSettlesSeparator(s, valueEnd, given, j); }
  }

  lemma BreakSettlesSeparator(s: bytes, valueEnd: nat, given: Option<byte>, j: nat)
    requires valueEnd <= j < |s| && s[j] == LF && given != Some(LF)
    ensures !CheckAfterValue(s, valueEnd, given).NeedsMore?
  {
    hide CheckTag;
    var check := CheckSeparator(s, valueEnd, given);
    if check.IsStart? { BreakSettlesTag(s, valueEnd + SeparatorLen(check.separator), check.separator, j); }
  }

  lemma BreakSettlesTag(s: bytes, at: nat, separator: Separator, j: nat)
    requires at <= j < |s| && s[j] == LF
    ensures !CheckTag(s, at, separator).NeedsMore?
  {
    var digits := DigitRun(s, at, MAX_TAG_DIGITS + 1);
  }

  /** So a search before a line break finds the same with more bytes, and never waits. */
  lemma {:induction false} SearchBeforeBreak(s: bytes, more: bytes, from: nat, until: nat, given: Option<byte>, j: nat)
    requires until <= j < |s| && s[j] == LF && given != Some(LF)
    ensures !FindStart(s, from, until, given, false).PendingStart?
    ensures FindStart(s + more, from, until, given, false) == FindStart(s, from, until, given, false)
    decreases until - from
  {
    SearchNeverWaits(s, from, until, given, j);
    SearchStays(s, more, from, until, given);
  }

  lemma {:induction false} SearchNeverWaits(s: bytes, from: nat, until: nat, given: Option<byte>, j: nat)
    requires until <= j < |s| && s[j] == LF && given != Some(LF)
    ensures !FindStart(s, from, until, given, false).PendingStart?
    decreases until - from
  {
    hide Check, Eligible;
    if from < until {
      BreakSettlesCheck(s[from..], given, j - from);
      SearchNeverWaits(s, from + 1, until, given, j);
    }
  }

  /** A hidden line break comes after `pos` and before the cut, which is inside the bytes. */
  lemma {:induction false} HiddenBreakIsAhead(
    lengthTags: seq<Tag>, s: bytes, separator: byte, given: Option<byte>, cut: nat, pos: nat, dataLen: Option<nat>) returns (j: nat)
    requires Opens(s, separator) && pos <= |Capped(s, false)| && BreakHidden(lengthTags, s, separator, given, cut, pos, dataLen)
    ensures pos <= j < cut < |Capped(s, false)| && s[j] == LF && separator != LF
    decreases |Capped(s, false)| - pos
  {
    hide StepWalk, Capped, Opens, HidesBreak, PastExtent, NextField;
    if dataLen.Some? && HidesBreak(s, separator, pos, dataLen.value, cut) {
      j := HiddenBreakIsThere(s, separator, pos, dataLen.value, cut);
    } else {
      var step := StepWalk(lengthTags, s, separator, given, false, pos, dataLen);
      j := HiddenBreakIsAhead(lengthTags, s, separator, given, cut, step.pos, step.dataLen);
    }
  }

  lemma HiddenBreakIsThere(s: bytes, separator: byte, pos: nat, len: nat, cut: nat) returns (j: nat)
    requires pos <= |Capped(s, false)| && HidesBreak(s, separator, pos, len, cut)
    ensures pos <= j < cut < |Capped(s, false)| && s[j] == LF && separator != LF
    ensures FindByte(Capped(s, false), LF, pos, cut) == Some(j)
    ensures FindTagEnd(Capped(s, false), pos, separator).Some? && cut <= FindTagEnd(Capped(s, false), pos, separator).value.at
  {
    hide FindTagEnd;
    j := FindByte(Capped(s, false), LF, pos, cut).value;
  }

  /** A step that goes on before the cut goes on there with the bytes up to it. */
  lemma StepGoesOnAtCut(
    lengthTags: seq<Tag>, s: bytes, more: bytes, separator: byte, given: Option<byte>, pos: nat, dataLen: Option<nat>, j: nat)
    requires Opens(s, separator) && Opens(s + more, separator) && Capped(s, false) == s && !CapIsFinal(s, false)
    requires pos <= |s| <= |Capped(s + more, false)| && given != Some(LF)
    requires var step := StepWalk(lengthTags, s + more, separator, given, false, pos, dataLen);
             step.GoOn? && step.pos <= j < |s| && s[j] == LF
    requires PastExtent(NextField(Capped(s + more, false), pos, dataLen, separator), dataLen, |s|)
    ensures StepWalk(lengthTags, s, separator, given, false, pos, dataLen) == StepWalk(lengthTags, s + more, separator, given, false, pos, dataLen)
  {
    hide StepWalk, NextField, FindStart, FindByte, Capped, Opens, CapIsFinal, CheckedEnd, StepFromField, StepFrom;
    CappedGrows(s, more);
    var t := Capped(s + more, false);
    GoOnEndsInside(lengthTags, s + more, separator, given, pos, dataLen);
    StepParts(lengthTags, s, separator, given, pos, dataLen);
    var next := NextField(t, pos, dataLen, separator);
    GoOnIsPast(lengthTags, s + more, next);
    NextFieldCut(t, s, pos, dataLen, separator);
    CheckedWithin(s, pos, next, dataLen);
    var checkedEnd := CheckedEnd(s, pos, next, dataLen);
    SameByte(s, t, LF, From(pos), checkedEnd);
    SearchBeforeBreak(s, more, From(pos), checkedEnd, given, j);
    GoesOnAtCut(lengthTags, s, more, given, next, From(pos), checkedEnd);
  }

  lemma CheckedWithin(s: bytes, pos: nat, next: Option<(RawField, nat)>, dataLen: Option<nat>)
    requires next.Some? && next.value.0.valueStart <= next.value.0.valueEnd
    ensures CheckedEnd(s, pos, next, dataLen) <= next.value.0.valueEnd
    ensures forall t :: CheckedEnd(t, pos, next, dataLen) == CheckedEnd(s, pos, next, dataLen)
  {
  }

  lemma GoOnIsPast(lengthTags: seq<Tag>, s: bytes, next: Option<(RawField, nat)>)
    requires next.Some? && next.value.0.valueStart <= next.value.0.valueEnd <= |Capped(s, false)| && next.value.1 == next.value.0.valueEnd + 1
    requires StepFromField(lengthTags, s, false, next, None).GoOn?
    ensures StepFromField(lengthTags, s, false, next, None).pos == next.value.0.valueEnd + 1
  {
  }

  lemma GoesOnAtCut(lengthTags: seq<Tag>, s: bytes, more: bytes, given: Option<byte>, next: Option<(RawField, nat)>, from: nat, until: nat)
    requires Capped(s, false) == s && |s| <= |Capped(s + more, false)| && until <= |s|
    requires next.Some? && next.value.0.valueStart <= next.value.0.valueEnd < |s| && next.value.1 == next.value.0.valueEnd + 1
    requires FindStart(s, from, until, given, false) == NoStart
    requires StepFromField(lengthTags, s + more, false, next, None).GoOn?
    ensures StepFrom(lengthTags, s, given, next, None, from, until) == StepFromField(lengthTags, s + more, false, next, None)
  {
    hide FindStart, Capped, CapIsFinal, PendingDataLen;
    CappedGrows(s, more);
    SamePending(lengthTags, s, Capped(s + more, false), next.value.0);
  }

  /** Cut in the tag, a field ends the record at the line break in it. */
  lemma CutHeadEndsAtBreak(
    lengthTags: seq<Tag>, s: bytes, separator: byte, given: Option<byte>, pos: nat, dataLen: Option<nat>, j: nat)
    requires Opens(s, separator) && Capped(s, false) == s && !CapIsFinal(s, false) && given != Some(LF)
    requires 0 < pos <= |s| && FindTagEnd(s, pos, separator).None? && FindByte(s, LF, pos, |s|) == Some(j)
    ensures StepWalk(lengthTags, s, separator, given, false, pos, dataLen) == Over(Some(AtLineBreak(s, j, true)))
  {
    StepParts(lengthTags, s, separator, given, pos, dataLen);
    NoEqualsNoStart(s, pos, j, given);
    SearchNeverWaits(s, pos, j, given, j);
    hide StepWalk, FindStart, FindByte, Capped, Opens, CapIsFinal, FindTagEnd;
    assert NextField(s, pos, dataLen, separator) == None;
  }

  /** An end the walk gives from `pos` on is not before the separator that precedes it. */
  lemma {:induction false} WalkEndsAhead(
    lengthTags: seq<Tag>, s: bytes, separator: byte, given: Option<byte>, atEnd: bool, pos: nat, dataLen: Option<nat>)
    requires Opens(s, separator) && pos <= |Capped(s, atEnd)|
    requires Walk(lengthTags, s, separator, given, atEnd, pos, dataLen).Some?
    ensures pos <= Walk(lengthTags, s, separator, given, atEnd, pos, dataLen).value.len + 1
    decreases |Capped(s, atEnd)| - pos
  {
    hide StepWalk, Walk, Capped, Opens;
    WalkUnfolds(lengthTags, s, separator, given, atEnd, pos, dataLen);
    var step := StepWalk(lengthTags, s, separator, given, atEnd, pos, dataLen);
    match step
    case Over(_) => StepEndsAhead(lengthTags, s, separator, given, atEnd, pos, dataLen);
    case GoOn(later, pending) => WalkEndsAhead(lengthTags, s, separator, given, atEnd, later, pending);
  }

  lemma StepEndsAhead(
    lengthTags: seq<Tag>, s: bytes, separator: byte, given: Option<byte>, atEnd: bool, pos: nat, dataLen: Option<nat>)
    requires Opens(s, separator) && pos <= |Capped(s, atEnd)|
    ensures var step := StepWalk(lengthTags, s, separator, given, atEnd, pos, dataLen);
            step.Over? && step.end.Some? ==> pos <= step.end.value.len + 1
  {
    hide FindStart, FindByte, Capped, Opens, CapIsFinal, NextField, PendingDataLen;
    FirstFieldIsLong(s, atEnd, dataLen, separator);
  }

  /** With all the bytes the walk passes over a hidden line break, or waits for the extent that holds it. */
  lemma HiddenBreakIsPassed(
    lengthTags: seq<Tag>, s: bytes, separator: byte, given: Option<byte>, cut: nat, pos: nat, len: nat)
    requires Opens(s, separator) && pos <= |Capped(s, false)| && HidesBreak(s, separator, pos, len, cut)
    ensures var step := StepWalk(lengthTags, s, separator, given, false, pos, Some(len));
            step == Over(None) || (step.GoOn? && cut < step.pos)
  {
    hide StepWalk, FindStart, FindByte, Capped, Opens, CapIsFinal, NextField, HidesBreak, StepFromField;
    StepParts(lengthTags, s, separator, given, pos, Some(len));
    HiddenFieldIs(s, separator, pos, len, cut);
    var next := NextField(Capped(s, false), pos, Some(len), separator);
    if !Awaits(s, next, Some(len)) {
      NothingToSearch(s, pos, given);
      NothingToSearch(Capped(s, false), pos, given);
      GoesPastField(lengthTags, s, next);
    }
  }

  /** A field that hides a line break is awaited, or a run of just the declared length without `=`. */
  lemma HiddenFieldIs(s: bytes, separator: byte, pos: nat, len: nat, cut: nat)
    requires pos <= |Capped(s, false)| && HidesBreak(s, separator, pos, len, cut)
    ensures var next := NextField(Capped(s, false), pos, Some(len), separator);
            && 0 < pos && next.Some?
            && (Awaits(s, next, Some(len)) ||
                 (&& next.value.0 == RawField(MALFORMED, pos, pos + len) && next.value.1 == pos + len + 1
                  && cut <= pos + len < |Capped(s, false)|))
  {
    hide Capped, CapIsFinal, FindTagEnd, FindByte, ValueEnd, TagOf;
  }

  lemma GoesPastField(lengthTags: seq<Tag>, s: bytes, next: Option<(RawField, nat)>)
    requires next.Some? && next.value.0.tag == MALFORMED && next.value.0.valueStart <= next.value.0.valueEnd < |Capped(s, false)|
    requires next.value.1 == next.value.0.valueEnd + 1
    ensures StepFromField(lengthTags, s, false, next, None).GoOn? && StepFromField(lengthTags, s, false, next, None).pos == next.value.1
  {
    hide Capped, CapIsFinal, PendingDataLen;
  }

  lemma NothingToSearch(s: bytes, at: nat, given: Option<byte>)
    requires at <= |s|
    ensures FindStart(s, at, at, given, false) == NoStart && FindByte(s, LF, at, at) == None
  {
  }

  /** The bytes cut before the tag of a hidden line break ends give an end that all of them do not. */
  lemma {:induction false} HiddenBreakEndsEarly(
    lengthTags: seq<Tag>, s: bytes, more: bytes, separator: byte, given: Option<byte>, pos: nat, dataLen: Option<nat>)
    requires Opens(s, separator) && Opens(s + more, separator) && (given.Some? ==> given.value == separator)
    requires pos <= |Capped(s + more, false)| && BreakHidden(lengthTags, s + more, separator, given, |s|, pos, dataLen)
    ensures pos <= |Capped(s, false)| && Walk(lengthTags, s, separator, given, false, pos, dataLen).Some?
    ensures var early, whole := Walk(lengthTags, s, separator, given, false, pos, dataLen), Walk(lengthTags, s + more, separator, given, false, pos, dataLen);
            whole.Some? ==> early.value.len < whole.value.len
    decreases |Capped(s + more, false)| - pos
  {
    hide StepWalk, Walk, Capped, Opens, HidesBreak, PastExtent, NextField;
    var j := HiddenBreakIsAhead(lengthTags, s + more, separator, given, |s|, pos, dataLen);
    CutIsWhole(s, more);
    WalkUnfolds(lengthTags, s, separator, given, false, pos, dataLen);
    WalkUnfolds(lengthTags, s + more, separator, given, false, pos, dataLen);
    if dataLen.Some? && HidesBreak(s + more, separator, pos, dataLen.value, |s|) {
      HiddenHeadEndsEarly(lengthTags, s, more, separator, given, pos, dataLen.value);
    } else {
      var step := StepWalk(lengthTags, s + more, separator, given, false, pos, dataLen);
      var j' := HiddenBreakIsAhead(lengthTags, s + more, separator, given, |s|, step.pos, step.dataLen);
      assert (s + more)[j'] == s[j'];
      StepGoesOnAtCut(lengthTags, s, more, separator, given, pos, dataLen, j');
      HiddenBreakEndsEarly(lengthTags, s, more, separator, given, step.pos, step.dataLen);
    }
  }

  lemma CutIsWhole(s: bytes, more: bytes)
    requires |s| < |Capped(s + more, false)|
    ensures Capped(s, false) == s && !CapIsFinal(s, false)
  {
    assert s[..|s|] == s;
  }

  lemma HiddenHeadEndsEarly(
    lengthTags: seq<Tag>, s: bytes, more: bytes, separator: byte, given: Option<byte>, pos: nat, len: nat)
    requires Opens(s, separator) && Opens(s + more, separator) && (given.Some? ==> given.value == separator)
    requires Capped(s, false) == s && !CapIsFinal(s, false)
    requires pos <= |Capped(s + more, false)| && HidesBreak(s + more, separator, pos, len, |s|)
    ensures pos <= |s|
    ensures var early, whole := Walk(lengthTags, s, separator, given, false, pos, Some(len)), Walk(lengthTags, s + more, separator, given, false, pos, Some(len));
            early.Some? && (whole.Some? ==> early.value.len < whole.value.len)
  {
    hide StepWalk, Walk, Capped, Opens, HidesBreak, NextField, CapIsFinal;
    var t := Capped(s + more, false);
    var j := HiddenBreakIsThere(s + more, separator, pos, len, |s|);
    CappedGrows(s, more);
    SameByte(s, t, LF, pos, |s|);
    CutTagHasNoEnd(s, t, pos, separator);
    HidesPastStart(s + more, separator, pos, len, |s|);
    CutHeadEndsAtBreak(lengthTags, s, separator, given, pos, Some(len), j);
    HiddenBreakIsPassed(lengthTags, s + more, separator, given, |s|, pos, len);
    WalkUnfolds(lengthTags, s, separator, given, false, pos, Some(len));
    WalkUnfolds(lengthTags, s + more, separator, given, false, pos, Some(len));
    var step := StepWalk(lengthTags, s + more, separator, given, false, pos, Some(len));
    if step.GoOn? && Walk(lengthTags, s + more, separator, given, false, step.pos, step.dataLen).Some? {
      WalkEndsAhead(lengthTags, s + more, separator, given, false, step.pos, step.dataLen);
    }
  }

  lemma HidesPastStart(s: bytes, separator: byte, pos: nat, len: nat, cut: nat)
    requires pos <= |Capped(s, false)| && HidesBreak(s, separator, pos, len, cut)
    ensures 0 < pos <= cut
  {
    hide FindTagEnd, FindByte;
  }

  lemma CutTagHasNoEnd(s: bytes, t: bytes, pos: nat, separator: byte)
    requires s <= t && FindTagEnd(t, pos, separator).Some? && |s| <= FindTagEnd(t, pos, separator).value.at
    ensures FindTagEnd(s, pos, separator).None?
  {
    forall j | pos <= j < |s| ensures s[j] != EQUALS && s[j] != separator { assert s[j] == t[j]; }
  }

  /**
   * An accepted message gives an end on the bytes up to a cut that it does not give on all of them
   * exactly when BodyLength has ruled itself out at the cut and a field hides a line break before
   * it. The end given at the cut is then before any the whole gives.
   */
  lemma EndsEarlyExactlyAtHiddenBreak(lengthTags: seq<Tag>, s: bytes, more: bytes, separator: byte, given: Option<byte>)
    requires Check(s, given) == IsStart(Byte(separator))
    ensures Opens(s, separator) && Opens(s + more, separator)
    ensures var early, whole := FindEnd(lengthTags, s, separator, given, false), FindEnd(lengthTags, s + more, separator, given, false);
            && (early.Some? && whole != early <==>
                  ByBodyLength(s, separator, false).NoEnd? && BreakHidden(lengthTags, s + more, separator, given, |s|, 0, None))
            && (early.Some? && whole.Some? && whole != early ==> early.value.len < whole.value.len)
  {
    hide Check, ByBodyLength, Walk, BreakHidden, Opens, Capped;
    StartOpens(s, given, separator);
    StillOpens(s, more, separator);
    CappedGrows(s, more);
    SeparatorIsGiven(s, given, separator);
    if !ByBodyLength(s, separator, false).EndPending? {
      ByBodyLengthStable(s, more, given, separator);
      if ByBodyLength(s, separator, false).NoEnd? {
        if BreakHidden(lengthTags, s + more, separator, given, |s|, 0, None) {
          HiddenBreakEndsEarly(lengthTags, s, more, separator, given, 0, None);
        } else if Walk(lengthTags, s, separator, given, false, 0, None).Some? {
          WalkStays(lengthTags, s, more, separator, given, 0, None);
        }
      }
    }
  }

  lemma SeparatorIsGiven(s: bytes, given: Option<byte>, separator: byte)
    requires Check(s, given) == IsStart(Byte(separator))
    ensures given.Some? ==> given.value == separator
  {
    hide ValueRun, DigitRun;
  }

  /** With no length tags, no line break is hidden. */
  lemma {:induction false} NothingHiddenWithoutLengthTags(s: bytes, separator: byte, given: Option<byte>, cut: nat, pos: nat)
    requires Opens(s, separator) && pos <= |Capped(s, false)|
    ensures !BreakHidden([], s, separator, given, cut, pos, None)
    decreases |Capped(s, false)| - pos
  {
    hide StepWalk, Capped, Opens, NextField;
    var step := StepWalk([], s, separator, given, false, pos, None);
    if step.GoOn? {
      GoOnStep([], s, separator, given, false, pos, None);
      NothingHiddenWithoutLengthTags(s, separator, given, cut, step.pos);
    }
  }
}
