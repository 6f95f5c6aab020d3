/** Where walking a logged message's fields ends it, said of the fields and bytes and not of the walk. */
module LogWalkEnds {
  import opened Wrappers
  import opened Bytes
  import opened Tags
  import opened Tokenizer
  import opened LogStart
  import opened LogEnd
  import opened LogEndLaws
  import opened LogReader
  import opened LogWalkLaws

  /** The bytes of a logged message so far, and how they are read. */
  datatype Walked = Walked(lengthTags: seq<Tag>, s: bytes, separator: byte, given: Option<byte>, atEnd: bool)

  function CapOf(w: Walked): bytes {
    Capped(w.s, w.atEnd)
  }

  function FieldsFrom(w: Walked, pos: nat, dataLen: Option<nat>): seq<RawField> {
    Fields(w.lengthTags, CapOf(w), pos, dataLen, w.separator)
  }

  /** The length the `i`th field's value was given: by the field before it, if that is a length field. */
  function GivenLen(w: Walked, fields: seq<RawField>, dataLen: Option<nat>, i: nat): Option<nat>
    requires InOrder(CapOf(w), fields) && i < |fields|
  {
    if i == 0 then dataLen else PendingDataLen(w.lengthTags, CapOf(w), fields[i - 1])
  }

  /** Its value may be longer than the bytes so far. */
  predicate AwaitsData(w: Walked, fields: seq<RawField>, dataLen: Option<nat>, i: nat)
    requires InOrder(CapOf(w), fields) && i < |fields|
  {
    var len := GivenLen(w, fields, dataLen, i);
    len.Some? && !CapIsFinal(w.s, w.atEnd) && fields[i].valueStart + len.value >= |CapOf(w)|
  }

  /** Its value was read by its length. */
  predicate ReadByLength(w: Walked, fields: seq<RawField>, dataLen: Option<nat>, i: nat)
    requires InOrder(CapOf(w), fields) && i < |fields|
  {
    GivenLen(w, fields, dataLen, i) == Some(fields[i].valueEnd - fields[i].valueStart)
  }

  ghost predicate InData(w: Walked, fields: seq<RawField>, dataLen: Option<nat>, p: nat)
    requires InOrder(CapOf(w), fields)
  {
    exists i :: 0 <= i < |fields| && fields[i].valueStart <= p < fields[i].valueEnd && ReadByLength(w, fields, dataLen, i)
  }

  function Begin(pos: nat, fields: seq<RawField>, i: nat): nat
    requires i <= |fields|
  {
    if i == 0 then pos else fields[i - 1].valueEnd + 1
  }

  /** The `n`th field is the first that awaits more bytes or is a CheckSum field, or there is none and `n` counts the fields. */
  predicate IsLast(w: Walked, fields: seq<RawField>, dataLen: Option<nat>, n: nat)
    requires InOrder(CapOf(w), fields)
  {
    && n <= |fields|
    && (forall i :: 0 <= i < n ==> !AwaitsData(w, fields, dataLen, i) && fields[i].tag != CHECKSUM)
    && (n < |fields| ==> AwaitsData(w, fields, dataLen, n) || fields[n].tag == CHECKSUM)
  }

  /** What is searched ends with it: before it if it awaits bytes. */
  function Limit(w: Walked, pos: nat, fields: seq<RawField>, dataLen: Option<nat>, n: nat): nat
    requires InOrder(CapOf(w), fields) && n <= |fields|
  {
    if n == |fields| then |CapOf(w)|
    else if AwaitsData(w, fields, dataLen, n) then Begin(pos, fields, n)
    else fields[n].valueEnd
  }

  /** A message starts at `p`, or may once more bytes are there. */
  predicate MayStartAt(w: Walked, p: nat)
    requires p < |w.s|
  {
    Eligible(w.s, p) && (Check(w.s[p..], w.given).IsStart? || (!w.atEnd && Check(w.s[p..], w.given) == NeedsMore))
  }

  /** A line feed or a message start, in neither a separator nor data read by its length, nor at the very start. */
  ghost predicate Stops(w: Walked, pos: nat, fields: seq<RawField>, dataLen: Option<nat>, n: nat, p: nat)
    requires InOrder(CapOf(w), fields) && n <= |fields|
  {
    && pos <= p && 0 < p < Limit(w, pos, fields, dataLen, n) && p < |CapOf(w)| && CapOf(w)[p] != w.separator
    && !InData(w, fields, dataLen, p) && (CapOf(w)[p] == LF || MayStartAt(w, p))
  }

  ghost predicate StopsFirst(w: Walked, pos: nat, fields: seq<RawField>, dataLen: Option<nat>, n: nat, p: nat)
    requires InOrder(CapOf(w), fields) && n <= |fields|
  {
    Stops(w, pos, fields, dataLen, n, p) && forall q :: Stops(w, pos, fields, dataLen, n, q) ==> p <= q
  }

  /** The end a stop makes: at a line break, or before a message start, which may still have to show. */
  function EndAt(w: Walked, p: nat, inCheckSum: bool): Option<End>
    requires 0 < p < |CapOf(w)|
  {
    var capped := CapOf(w);
    if capped[p] == LF then Some(End(if capped[p - 1] == CR then p - 1 else p, p + 1, !inCheckSum))
    else if Check(w.s[p..], w.given).IsStart? then Some(End(p, p, true))
    else None
  }

  /** A line break ends a complete message only in the CheckSum field. */
  function EndAtStop(w: Walked, pos: nat, fields: seq<RawField>, dataLen: Option<nat>, n: nat, p: nat): Option<End>
    requires InOrder(CapOf(w), fields) && n <= |fields| && 0 < p < |CapOf(w)|
  {
    EndAt(w, p, n < |fields| && !AwaitsData(w, fields, dataLen, n) && Begin(pos, fields, n) <= p)
  }

  /** The end without a stop: after the CheckSum field, or with the bytes, if no more can come. */
  function EndAtLast(w: Walked, fields: seq<RawField>, dataLen: Option<nat>, n: nat): Option<End>
    requires InOrder(CapOf(w), fields) && n <= |fields|
  {
    var capped, final := CapOf(w), CapIsFinal(w.s, w.atEnd);
    if n < |fields| && AwaitsData(w, fields, dataLen, n) then None
    else if n < |fields| && fields[n].valueEnd < |capped| then AfterMessage(w.s, fields[n].valueEnd + 1, w.atEnd)
    else if final then Some(End(|capped|, |capped|, n == |fields|))
    else None
  }

  ghost predicate EndsWhere(w: Walked, pos: nat, fields: seq<RawField>, dataLen: Option<nat>, n: nat, p: nat, end: Option<End>)
    requires InOrder(CapOf(w), fields) && n <= |fields|
  {
    StopsFirst(w, pos, fields, dataLen, n, p) && end == EndAtStop(w, pos, fields, dataLen, n, p)
  }

  ghost predicate EndsAs(w: Walked, pos: nat, fields: seq<RawField>, dataLen: Option<nat>, n: nat, end: Option<End>)
    requires InOrder(CapOf(w), fields) && n <= |fields|
  {
    || (exists p :: EndsWhere(w, pos, fields, dataLen, n, p, end))
    || ((forall p :: !Stops(w, pos, fields, dataLen, n, p)) && end == EndAtLast(w, fields, dataLen, n))
  }

  // The fields after the first.

  lemma FirstAndLater(w: Walked, fields: seq<RawField>, dataLen: Option<nat>)
    requires fields != [] && InOrder(CapOf(w), fields)
    ensures InOrder(CapOf(w), fields[1..])
    ensures var later := PendingDataLen(w.lengthTags, CapOf(w), fields[0]);
            forall i :: 0 < i < |fields| ==>
              && GivenLen(w, fields, dataLen, i) == GivenLen(w, fields[1..], later, i - 1)
              && AwaitsData(w, fields, dataLen, i) == AwaitsData(w, fields[1..], later, i - 1)
              && ReadByLength(w, fields, dataLen, i) == ReadByLength(w, fields[1..], later, i - 1)
  {
    hide PendingDataLen, Capped, CapIsFinal;
  }

  lemma LastOfLater(w: Walked, fields: seq<RawField>, dataLen: Option<nat>, n: nat)
    requires fields != [] && InOrder(CapOf(w), fields) && IsLast(w, fields, dataLen, n) && n > 0
    ensures InOrder(CapOf(w), fields[1..]) && IsLast(w, fields[1..], PendingDataLen(w.lengthTags, CapOf(w), fields[0]), n - 1)
  {
    hide PendingDataLen, Capped, GivenLen, AwaitsData;
    FirstAndLater(w, fields, dataLen);
    var rest, later := fields[1..], PendingDataLen(w.lengthTags, CapOf(w), fields[0]);
    forall j | 0 <= j < n - 1 ensures !AwaitsData(w, rest, later, j) && rest[j].tag != CHECKSUM {
      var i := j + 1;
      assert !AwaitsData(w, fields, dataLen, i) && rest[j] == fields[i];
    }
    if n < |fields| { assert AwaitsData(w, fields, dataLen, n) == AwaitsData(w, rest, later, n - 1) && rest[n - 1] == fields[n]; }
  }

  /** There is one such field. */
  lemma {:induction false} SomeIsLast(w: Walked, fields: seq<RawField>, dataLen: Option<nat>) returns (n: nat)
    requires InOrder(CapOf(w), fields)
    ensures IsLast(w, fields, dataLen, n)
    decreases |fields|
  {
    hide PendingDataLen, Capped, GivenLen, AwaitsData;
    n := 0;
    if fields != [] && !AwaitsData(w, fields, dataLen, 0) && fields[0].tag != CHECKSUM {
      FirstAndLater(w, fields, dataLen);
      n := SomeIsLast(w, fields[1..], PendingDataLen(w.lengthTags, CapOf(w), fields[0]));
      n := n + 1;
    }
  }

  /** Past the first field, all is as it is for the fields after it. */
  lemma StopsLater(w: Walked, pos: nat, fields: seq<RawField>, dataLen: Option<nat>, n: nat, p: nat)
    requires fields != [] && InOrder(CapOf(w), fields) && 0 < n <= |fields| && pos <= fields[0].valueStart && fields[0].valueEnd < p
    ensures var after, later := fields[0].valueEnd + 1, PendingDataLen(w.lengthTags, CapOf(w), fields[0]);
            && InOrder(CapOf(w), fields[1..])
            && (Stops(w, pos, fields, dataLen, n, p) <==> Stops(w, after, fields[1..], later, n - 1, p))
            && (0 < p < |CapOf(w)| ==> EndAtStop(w, pos, fields, dataLen, n, p) == EndAtStop(w, after, fields[1..], later, n - 1, p))
  {
    hide PendingDataLen, Capped, GivenLen, AwaitsData, ReadByLength, MayStartAt, EndAt;
    FirstAndLater(w, fields, dataLen);
    var rest, later := fields[1..], PendingDataLen(w.lengthTags, CapOf(w), fields[0]);
    SameData(w, fields, dataLen, p);
    if n < |fields| { assert AwaitsData(w, fields, dataLen, n) == AwaitsData(w, rest, later, n - 1) && rest[n - 1] == fields[n]; }
    assert Begin(pos, fields, n) == Begin(fields[0].valueEnd + 1, rest, n - 1);
  }

  lemma SameData(w: Walked, fields: seq<RawField>, dataLen: Option<nat>, p: nat)
    requires fields != [] && InOrder(CapOf(w), fields) && fields[0].valueEnd < p
    ensures InOrder(CapOf(w), fields[1..])
    ensures InData(w, fields, dataLen, p) <==> InData(w, fields[1..], PendingDataLen(w.lengthTags, CapOf(w), fields[0]), p)
  {
    hide PendingDataLen, Capped, GivenLen, ReadByLength;
    FirstAndLater(w, fields, dataLen);
    var rest, later := fields[1..], PendingDataLen(w.lengthTags, CapOf(w), fields[0]);
    if InData(w, fields, dataLen, p) {
      var i :| 0 <= i < |fields| && fields[i].valueStart <= p < fields[i].valueEnd && ReadByLength(w, fields, dataLen, i);
      assert rest[i - 1] == fields[i] && ReadByLength(w, rest, later, i - 1);
    }
    if InData(w, rest, later, p) {
      var j :| 0 <= j < |rest| && rest[j].valueStart <= p < rest[j].valueEnd && ReadByLength(w, rest, later, j);
      var i := j + 1;
      assert rest[j] == fields[i] && ReadByLength(w, fields, dataLen, i);
    }
  }

  lemma LastLater(w: Walked, fields: seq<RawField>, dataLen: Option<nat>, n: nat)
    requires fields != [] && InOrder(CapOf(w), fields) && 0 < n <= |fields|
    ensures InOrder(CapOf(w), fields[1..])
    ensures EndAtLast(w, fields, dataLen, n) == EndAtLast(w, fields[1..], PendingDataLen(w.lengthTags, CapOf(w), fields[0]), n - 1)
  {
    hide PendingDataLen, Capped, GivenLen, AwaitsData, AfterMessage, CapIsFinal;
    FirstAndLater(w, fields, dataLen);
    var rest, later := fields[1..], PendingDataLen(w.lengthTags, CapOf(w), fields[0]);
    if n < |fields| { assert AwaitsData(w, fields, dataLen, n) == AwaitsData(w, rest, later, n - 1) && rest[n - 1] == fields[n]; }
  }

  /** The bytes of the first field that the walk searches. */
  function SearchEnd(w: Walked, fields: seq<RawField>, dataLen: Option<nat>): nat
    requires fields != [] && InOrder(CapOf(w), fields)
  {
    if ReadByLength(w, fields, dataLen, 0) then fields[0].valueStart else fields[0].valueEnd
  }

  /** Up to the first field's end, stops are the line feeds and message starts searched for. */
  lemma StopsEarly(w: Walked, pos: nat, fields: seq<RawField>, dataLen: Option<nat>, n: nat, p: nat)
    requires fields != [] && InOrder(CapOf(w), fields) && IsLast(w, fields, dataLen, n) && pos <= p <= fields[0].valueEnd && pos <= fields[0].valueStart
    requires !AwaitsData(w, fields, dataLen, 0)
    requires fields[0].valueEnd < |CapOf(w)| ==> CapOf(w)[fields[0].valueEnd] == w.separator
    requires forall j :: pos <= j < SearchEnd(w, fields, dataLen) && CapOf(w)[j] == w.separator ==> CapOf(w)[j] == EQUALS
    ensures Stops(w, pos, fields, dataLen, n, p)
       <==> 0 < p < SearchEnd(w, fields, dataLen) && (CapOf(w)[p] == LF || MayStartAt(w, p))
    ensures 0 < p < |CapOf(w)| && p < fields[0].valueEnd ==>
              EndAtStop(w, pos, fields, dataLen, n, p) == EndAt(w, p, fields[0].tag == CHECKSUM)
  {
    hide Capped, GivenLen, AwaitsData, ReadByLength, MayStartAt, EndAt;
    FirstData(w, fields, dataLen, p);
    if p < |CapOf(w)| && CapOf(w)[p] == EQUALS { NoStop(w, p); }
    if n > 0 {
      BeginsAfter(w, fields, pos, n);
      LimitIsAfter(w, pos, fields, dataLen, n);
    }
  }

  lemma NoStop(w: Walked, p: nat)
    requires p < |CapOf(w)| <= |w.s| && CapOf(w)[p] == EQUALS
    ensures CapOf(w)[p] != LF && !MayStartAt(w, p)
  {
    hide Check;
  }

  lemma FirstData(w: Walked, fields: seq<RawField>, dataLen: Option<nat>, p: nat)
    requires fields != [] && InOrder(CapOf(w), fields) && p <= fields[0].valueEnd
    ensures InData(w, fields, dataLen, p) <==> ReadByLength(w, fields, dataLen, 0) && fields[0].valueStart <= p < fields[0].valueEnd
  {
    hide Capped, ReadByLength;
    forall i | 0 < i < |fields| && fields[i].valueStart <= p ensures false { Later(CapOf(w), fields, i - 1); }
  }

  lemma BeginsAfter(w: Walked, fields: seq<RawField>, pos: nat, n: nat)
    requires InOrder(CapOf(w), fields) && 0 < n <= |fields|
    ensures fields[0].valueEnd < Begin(pos, fields, n)
  {
    hide Capped;
    Later(CapOf(w), fields, n - 1);
  }

  lemma {:induction false} Later(s: bytes, fields: seq<RawField>, i: nat)
    requires InOrder(s, fields) && i < |fields|
    ensures fields[0].valueEnd <= fields[i].valueEnd
    decreases i
  {
    if i > 0 { Later(s, fields, i - 1); }
  }

  lemma LimitIsAfter(w: Walked, pos: nat, fields: seq<RawField>, dataLen: Option<nat>, n: nat)
    requires InOrder(CapOf(w), fields) && 0 < n <= |fields|
    ensures fields[0].valueEnd <= Limit(w, pos, fields, dataLen, n)
  {
    hide Capped, AwaitsData;
    BeginsAfter(w, fields, pos, n);
    if n < |fields| { Later(CapOf(w), fields, n); }
  }

  // The search.

  /** The first line feed or message start in a range. */
  predicate IsFirstIn(w: Walked, from: nat, until: nat, p: nat)
    requires until <= |CapOf(w)| && |CapOf(w)| <= |w.s|
  {
    && from <= p < until && (CapOf(w)[p] == LF || MayStartAt(w, p))
    && forall q :: from <= q < p ==> CapOf(w)[q] != LF && !MayStartAt(w, q)
  }

  predicate NoneIn(w: Walked, from: nat, until: nat)
    requires until <= |CapOf(w)| && |CapOf(w)| <= |w.s|
  {
    forall q :: from <= q < until ==> CapOf(w)[q] != LF && !MayStartAt(w, q)
  }

  lemma {:induction false} SearchIs(w: Walked, from: nat, until: nat)
    requires from <= until <= |w.s|
    ensures var next := FindStart(w.s, from, until, w.given, w.atEnd);
            && from <= Reached(next, until) <= until
            && (forall q :: from <= q < Reached(next, until) ==> !MayStartAt(w, q))
            && (!next.NoStart? ==> Reached(next, until) < until && MayStartAt(w, Reached(next, until)))
            && (!next.NoStart? ==> (next.Found? <==> Check(w.s[Reached(next, until)..], w.given).IsStart?))
    decreases until - from
  {
    hide Check, Eligible;
    if from < until && !MayStartAt(w, from) { SearchIs(w, from + 1, until); }
  }

  /** The field at `pos` does not await bytes, and `until` ends what is searched of it. */
  predicate Searches(w: Walked, pos: nat, dataLen: Option<nat>, until: nat) {
    && Opens(w.s, w.separator) && pos <= |CapOf(w)| <= |w.s| && From(pos) <= until <= |CapOf(w)|
    && var next := NextField(CapOf(w), pos, dataLen, w.separator);
    && until == CheckedEnd(CapOf(w), pos, next, dataLen)
    && (next.Some? && dataLen.Some? ==> CapIsFinal(w.s, w.atEnd) || next.value.0.valueStart + dataLen.value < |CapOf(w)|)
  }

  function Searched(w: Walked, next: Option<(RawField, nat)>, from: nat, until: nat): WalkStep
    requires 1 <= from <= until <= |CapOf(w)| <= |w.s|
    requires next.Some? ==> next.value.0.valueStart <= next.value.0.valueEnd <= |CapOf(w)| && next.value.1 == next.value.0.valueEnd + 1
  {
    var lineBreak := FindByte(CapOf(w), LF, from, until);
    match FindStart(w.s, from, if lineBreak.Some? then lineBreak.value else until, w.given, w.atEnd)
    case Found(start) => Over(Some(End(start.at, start.at, true)))
    case PendingStart(_) => Over(None)
    case NoStart => StepFromField(w.lengthTags, w.s, w.atEnd, next, lineBreak)
  }

  lemma StepUnfolds(w: Walked, pos: nat, dataLen: Option<nat>, until: nat)
    requires Searches(w, pos, dataLen, until)
    ensures StepWalk(w.lengthTags, w.s, w.separator, w.given, w.atEnd, pos, dataLen)
         == Searched(w, NextField(CapOf(w), pos, dataLen, w.separator), From(pos), until)
  {
    hide Check, FindStart, FindByte, NextField, CapIsFinal, Opens, StepFromField, CheckedEnd, Capped;
  }

  lemma SearchedStops(w: Walked, next: Option<(RawField, nat)>, from: nat, until: nat, p: nat)
    requires 1 <= from <= until <= |CapOf(w)| <= |w.s| && IsFirstIn(w, from, until, p)
    requires next.Some? ==> next.value.0.valueStart <= next.value.0.valueEnd <= |CapOf(w)| && next.value.1 == next.value.0.valueEnd + 1
    ensures Searched(w, next, from, until) == Over(EndAt(w, p, next.Some? && next.value.0.tag == CHECKSUM))
  {
    hide Check, FindStart, MayStartAt, CapIsFinal, Capped;
    var lineBreak := FindByte(CapOf(w), LF, from, until);
    SearchIs(w, from, if lineBreak.Some? then lineBreak.value else until);
  }

  lemma SearchedGoesOn(w: Walked, next: Option<(RawField, nat)>, from: nat, until: nat)
    requires 1 <= from <= until <= |CapOf(w)| <= |w.s| && NoneIn(w, from, until)
    requires next.Some? ==> next.value.0.valueStart <= next.value.0.valueEnd <= |CapOf(w)| && next.value.1 == next.value.0.valueEnd + 1
    ensures Searched(w, next, from, until) == StepFromField(w.lengthTags, w.s, w.atEnd, next, None)
  {
    hide Check, FindStart, MayStartAt, CapIsFinal, Capped, StepFromField;
    SearchIs(w, from, until);
  }

  lemma {:induction false} SomeFirst(w: Walked, from: nat, until: nat) returns (p: nat)
    requires from <= until <= |CapOf(w)| <= |w.s|
    ensures IsFirstIn(w, from, until, p) || NoneIn(w, from, until)
    decreases until - from
  {
    hide MayStartAt, Capped;
    p := from;
    if from < until && CapOf(w)[from] != LF && !MayStartAt(w, from) { p := SomeFirst(w, from + 1, until); }
  }

  // The walk.

  lemma FieldBytes(w: Walked, pos: nat, dataLen: Option<nat>)
    requires pos <= |CapOf(w)| <= U32_MAX && NextField(CapOf(w), pos, dataLen, w.separator).Some?
    ensures var field := NextField(CapOf(w), pos, dataLen, w.separator).value.0;
            && (field.valueEnd < |CapOf(w)| ==> CapOf(w)[field.valueEnd] == w.separator)
            && var until := if dataLen == Some(field.valueEnd - field.valueStart) then field.valueStart else field.valueEnd;
            forall j :: pos <= j < until && CapOf(w)[j] == w.separator ==> CapOf(w)[j] == EQUALS
  {
    hide Capped, ParseU32;
  }

  lemma FieldsUnfold(w: Walked, pos: nat, dataLen: Option<nat>)
    requires |CapOf(w)| <= U32_MAX
    ensures InOrder(CapOf(w), FieldsFrom(w, pos, dataLen))
    ensures match NextField(CapOf(w), pos, dataLen, w.separator)
            case None => FieldsFrom(w, pos, dataLen) == []
            case Some((field, after)) =>
              && FieldsFrom(w, pos, dataLen) == [field] + FieldsFrom(w, after, PendingDataLen(w.lengthTags, CapOf(w), field))
              && pos <= field.valueStart && after == field.valueEnd + 1
  {
    hide Capped, NextField;
    FieldsAreInOrder(w.lengthTags, CapOf(w), pos, dataLen, w.separator);
  }

  function WalkOf(w: Walked, pos: nat, dataLen: Option<nat>): Option<End>
    requires Opens(w.s, w.separator) && pos <= |CapOf(w)|
  {
    Walk(w.lengthTags, w.s, w.separator, w.given, w.atEnd, pos, dataLen)
  }

  /** Up to `until`, what stops the walk is what is searched for. */
  ghost predicate StopsAre(w: Walked, pos: nat, fields: seq<RawField>, dataLen: Option<nat>, n: nat, until: nat)
    requires InOrder(CapOf(w), fields) && n <= |fields| && until <= |CapOf(w)| <= |w.s|
  {
    forall q: nat :: q < until ==> (Stops(w, pos, fields, dataLen, n, q) <==> From(pos) <= q && (CapOf(w)[q] == LF || MayStartAt(w, q)))
  }

  lemma FirstStops(w: Walked, pos: nat, fields: seq<RawField>, dataLen: Option<nat>, n: nat, until: nat, p: nat)
    requires InOrder(CapOf(w), fields) && n <= |fields| && until <= |CapOf(w)| <= |w.s|
    requires StopsAre(w, pos, fields, dataLen, n, until) && IsFirstIn(w, From(pos), until, p)
    ensures StopsFirst(w, pos, fields, dataLen, n, p)
  {
    hide Capped, MayStartAt, InData, Limit;
  }

  /** Without another field, the rest is searched whole. */
  lemma EndsWithoutField(w: Walked, pos: nat, dataLen: Option<nat>, until: nat, p: nat)
    requires |CapOf(w)| <= U32_MAX
    requires Searches(w, pos, dataLen, until) && NextField(CapOf(w), pos, dataLen, w.separator) == None
    requires IsFirstIn(w, From(pos), until, p) || NoneIn(w, From(pos), until)
    ensures InOrder(CapOf(w), []) && EndsAs(w, pos, [], dataLen, 0, WalkOf(w, pos, dataLen))
  {
    hide Capped, MayStartAt, CapIsFinal, Opens, EndAt, Searched, IsFirstIn, Stops, NextField;
    WithoutFieldStops(w, pos, dataLen);
    StepUnfolds(w, pos, dataLen, until);
    WalkUnfolds(w.lengthTags, w.s, w.separator, w.given, w.atEnd, pos, dataLen);
    if IsFirstIn(w, From(pos), until, p) {
      SearchedStops(w, None, From(pos), until, p);
      FirstStops(w, pos, [], dataLen, 0, until, p);
      IsInside(w, From(pos), until, p);
      assert EndsWhere(w, pos, [], dataLen, 0, p, WalkOf(w, pos, dataLen));
    } else {
      SearchedGoesOn(w, None, From(pos), until);
    }
  }

  lemma IsInside(w: Walked, from: nat, until: nat, p: nat)
    requires until <= |CapOf(w)| && |CapOf(w)| <= |w.s| && IsFirstIn(w, from, until, p)
    ensures from <= p < until
  {
  }

  lemma WithoutFieldStops(w: Walked, pos: nat, dataLen: Option<nat>)
    requires pos <= |CapOf(w)| <= |w.s| && |CapOf(w)| <= U32_MAX && NextField(CapOf(w), pos, dataLen, w.separator) == None
    ensures StopsAre(w, pos, [], dataLen, 0, |CapOf(w)|)
    ensures forall q: nat :: Stops(w, pos, [], dataLen, 0, q) ==> q < |CapOf(w)| && From(pos) <= q && (CapOf(w)[q] == LF || MayStartAt(w, q))
  {
    hide Capped, MayStartAt;
    assert forall j :: pos <= j < |CapOf(w)| ==> CapOf(w)[j] != w.separator;
  }

  /** `fields` are those from `pos`, the first of them there, and `n` is the last. */
  predicate FieldIsNext(w: Walked, pos: nat, dataLen: Option<nat>, fields: seq<RawField>, n: nat) {
    && pos <= |CapOf(w)| <= |w.s| && |CapOf(w)| <= U32_MAX && Opens(w.s, w.separator) && InOrder(CapOf(w), fields) && fields != []
    && NextField(CapOf(w), pos, dataLen, w.separator) == Some((fields[0], fields[0].valueEnd + 1)) && pos <= fields[0].valueStart
    && n <= |fields| && IsLast(w, fields, dataLen, n)
  }

  /** What the first field's bytes are, as `StopsEarly` asks. */
  lemma FirstBytes(w: Walked, pos: nat, dataLen: Option<nat>, fields: seq<RawField>, n: nat)
    requires FieldIsNext(w, pos, dataLen, fields, n)
    ensures fields[0].valueEnd < |CapOf(w)| ==> CapOf(w)[fields[0].valueEnd] == w.separator
    ensures forall j :: pos <= j < SearchEnd(w, fields, dataLen) && CapOf(w)[j] == w.separator ==> CapOf(w)[j] == EQUALS
  {
    hide Capped, Opens, NextField, IsLast;
    FieldBytes(w, pos, dataLen);
  }

  /** A first field that awaits bytes makes the walk wait. */
  lemma EndsAwaiting(w: Walked, pos: nat, dataLen: Option<nat>, fields: seq<RawField>, n: nat)
    requires FieldIsNext(w, pos, dataLen, fields, n) && AwaitsData(w, fields, dataLen, 0)
    ensures EndsAs(w, pos, fields, dataLen, n, WalkOf(w, pos, dataLen))
  {
    hide Capped, MayStartAt, CapIsFinal, Opens, NextField, FindStart, FindByte, StepFromField;
    WalkUnfolds(w.lengthTags, w.s, w.separator, w.given, w.atEnd, pos, dataLen);
    assert n == 0;
    assert forall q: nat :: !Stops(w, pos, fields, dataLen, n, q);
  }

  lemma FirstIsSearched(w: Walked, pos: nat, dataLen: Option<nat>, fields: seq<RawField>, n: nat)
    requires FieldIsNext(w, pos, dataLen, fields, n) && !AwaitsData(w, fields, dataLen, 0)
    ensures Searches(w, pos, dataLen, SearchEnd(w, fields, dataLen))
    ensures StopsAre(w, pos, fields, dataLen, n, SearchEnd(w, fields, dataLen))
  {
    hide Capped, MayStartAt, CapIsFinal, Stops, IsLast, NextField, InData;
    FirstFieldIsLong(w.s, w.atEnd, dataLen, w.separator);
    FirstBytes(w, pos, dataLen, fields, n);
    forall q: nat | q < SearchEnd(w, fields, dataLen)
      ensures Stops(w, pos, fields, dataLen, n, q) <==> From(pos) <= q && (CapOf(w)[q] == LF || MayStartAt(w, q))
    {
      if pos <= q { StopsEarly(w, pos, fields, dataLen, n, q); } else { NotBefore(w, pos, fields, dataLen, n, q); }
    }
  }

  lemma NotBefore(w: Walked, pos: nat, fields: seq<RawField>, dataLen: Option<nat>, n: nat, q: nat)
    requires InOrder(CapOf(w), fields) && n <= |fields| && q < pos
    ensures !Stops(w, pos, fields, dataLen, n, q)
  {
  }

  /** A stop in the first field ends the walk there. */
  lemma EndsInFirst(w: Walked, pos: nat, dataLen: Option<nat>, fields: seq<RawField>, n: nat, p: nat)
    requires FieldIsNext(w, pos, dataLen, fields, n) && !AwaitsData(w, fields, dataLen, 0)
    requires |CapOf(w)| <= |w.s| && IsFirstIn(w, From(pos), SearchEnd(w, fields, dataLen), p)
    ensures EndsAs(w, pos, fields, dataLen, n, WalkOf(w, pos, dataLen))
  {
    hide Capped, MayStartAt, CapIsFinal, Opens, EndAt, Searched, IsFirstIn, Stops, NextField, IsLast, StopsAre, EndAtStop, GivenLen, Searches;
    var until := SearchEnd(w, fields, dataLen);
    FirstIsSearched(w, pos, dataLen, fields, n);
    IsInside(w, From(pos), until, p);
    StepUnfolds(w, pos, dataLen, until);
    WalkUnfolds(w.lengthTags, w.s, w.separator, w.given, w.atEnd, pos, dataLen);
    StepAtStop(w, pos, dataLen, fields, until, p);
    FirstStops(w, pos, fields, dataLen, n, until, p);
    FirstBytes(w, pos, dataLen, fields, n);
    StopsEarly(w, pos, fields, dataLen, n, p);
    assert EndsWhere(w, pos, fields, dataLen, n, p, WalkOf(w, pos, dataLen));
  }

  lemma StepAtStop(w: Walked, pos: nat, dataLen: Option<nat>, fields: seq<RawField>, until: nat, p: nat)
    requires Searches(w, pos, dataLen, until) && IsFirstIn(w, From(pos), until, p) && fields != []
    requires NextField(CapOf(w), pos, dataLen, w.separator) == Some((fields[0], fields[0].valueEnd + 1))
    requires fields[0].valueStart <= fields[0].valueEnd <= |CapOf(w)|
    ensures 0 < p < |CapOf(w)|
    ensures Searched(w, NextField(CapOf(w), pos, dataLen, w.separator), From(pos), until) == Over(EndAt(w, p, fields[0].tag == CHECKSUM))
  {
    hide Capped, MayStartAt, Opens, EndAt, Searched, NextField, CheckedEnd;
    SearchedStops(w, NextField(CapOf(w), pos, dataLen, w.separator), From(pos), until, p);
  }

  /** Without one, the step is the field's alone. */
  lemma StepWithoutStop(w: Walked, pos: nat, dataLen: Option<nat>, fields: seq<RawField>, n: nat)
    requires FieldIsNext(w, pos, dataLen, fields, n) && !AwaitsData(w, fields, dataLen, 0)
    requires |CapOf(w)| <= |w.s| && NoneIn(w, From(pos), SearchEnd(w, fields, dataLen))
    ensures StepWalk(w.lengthTags, w.s, w.separator, w.given, w.atEnd, pos, dataLen)
         == StepFromField(w.lengthTags, w.s, w.atEnd, Some((fields[0], fields[0].valueEnd + 1)), None)
  {
    hide Capped, MayStartAt, CapIsFinal, Opens, Searched, Stops, NextField, IsLast, StopsAre, StepFromField, NoneIn;
    var until := SearchEnd(w, fields, dataLen);
    FirstIsSearched(w, pos, dataLen, fields, n);
    StepUnfolds(w, pos, dataLen, until);
    SearchedGoesOn(w, NextField(CapOf(w), pos, dataLen, w.separator), From(pos), until);
  }

  lemma NoStopInFirst(w: Walked, pos: nat, dataLen: Option<nat>, fields: seq<RawField>, n: nat)
    requires FieldIsNext(w, pos, dataLen, fields, n) && !AwaitsData(w, fields, dataLen, 0)
    requires |CapOf(w)| <= |w.s| && NoneIn(w, From(pos), SearchEnd(w, fields, dataLen))
    ensures forall q: nat :: q <= fields[0].valueEnd ==> !Stops(w, pos, fields, dataLen, n, q)
  {
    hide Capped, MayStartAt, CapIsFinal, Opens, NextField, IsLast, Stops, GivenLen;
    FirstBytes(w, pos, dataLen, fields, n);
    forall q: nat | q <= fields[0].valueEnd ensures !Stops(w, pos, fields, dataLen, n, q) {
      if pos <= q { StopsEarly(w, pos, fields, dataLen, n, q); } else { NotBefore(w, pos, fields, dataLen, n, q); }
    }
  }

  /** A CheckSum field, or one that runs to the end of the bytes, ends the walk. */
  lemma EndsWithFirst(w: Walked, pos: nat, dataLen: Option<nat>, fields: seq<RawField>, n: nat)
    requires FieldIsNext(w, pos, dataLen, fields, n) && !AwaitsData(w, fields, dataLen, 0)
    requires |CapOf(w)| <= |w.s| && NoneIn(w, From(pos), SearchEnd(w, fields, dataLen))
    requires fields[0].tag == CHECKSUM || (fields[0].valueEnd == |CapOf(w)| && |fields| == 1)
    ensures EndsAs(w, pos, fields, dataLen, n, WalkOf(w, pos, dataLen))
  {
    hide Capped, MayStartAt, CapIsFinal, Opens, NextField, NoneIn, GivenLen, InData, AwaitsData, AfterMessage, SearchEnd;
    StepWithoutStop(w, pos, dataLen, fields, n);
    NoStopInFirst(w, pos, dataLen, fields, n);
    WalkUnfolds(w.lengthTags, w.s, w.separator, w.given, w.atEnd, pos, dataLen);
    assert n == if fields[0].tag == CHECKSUM then 0 else 1;
    assert Limit(w, pos, fields, dataLen, n) <= fields[0].valueEnd;
    assert forall q: nat :: !Stops(w, pos, fields, dataLen, n, q);
  }

  /** How the later fields end the walk is how it ends, if the first does not stop it. */
  lemma EndsLater(w: Walked, pos: nat, dataLen: Option<nat>, fields: seq<RawField>, n: nat, end: Option<End>)
    requires FieldIsNext(w, pos, dataLen, fields, n) && !AwaitsData(w, fields, dataLen, 0) && n > 0
    requires |CapOf(w)| <= |w.s| && NoneIn(w, From(pos), SearchEnd(w, fields, dataLen)) && InOrder(CapOf(w), fields[1..])
    requires EndsAs(w, fields[0].valueEnd + 1, fields[1..], PendingDataLen(w.lengthTags, CapOf(w), fields[0]), n - 1, end)
    ensures EndsAs(w, pos, fields, dataLen, n, end)
  {
    hide Capped, MayStartAt, CapIsFinal, Opens, NextField, NoneIn, Stops, EndAtStop, EndAtLast, PendingDataLen, IsLast, AwaitsData, SearchEnd;
    var after, rest, later := fields[0].valueEnd + 1, fields[1..], PendingDataLen(w.lengthTags, CapOf(w), fields[0]);
    NoStopInFirst(w, pos, dataLen, fields, n);
    forall q: nat ensures Stops(w, pos, fields, dataLen, n, q) <==> Stops(w, after, rest, later, n - 1, q) {
      if q > fields[0].valueEnd {
        StopsLater(w, pos, fields, dataLen, n, q);
      } else {
        NotBefore(w, after, rest, later, n - 1, q);
      }
    }
    var before := n - 1;
    if p :| EndsWhere(w, after, rest, later, before, p, end) {
      StopIsInside(w, after, rest, later, before, p);
      StopsLater(w, pos, fields, dataLen, n, p);
      assert EndsWhere(w, pos, fields, dataLen, n, p, end);
    } else {
      LastLater(w, fields, dataLen, n);
    }
  }

  lemma StopIsInside(w: Walked, pos: nat, fields: seq<RawField>, dataLen: Option<nat>, n: nat, p: nat)
    requires InOrder(CapOf(w), fields) && n <= |fields| && Stops(w, pos, fields, dataLen, n, p)
    ensures pos <= p && 0 < p < |CapOf(w)|
  {
  }

  lemma CapFits(w: Walked)
    ensures |CapOf(w)| <= |w.s| && |CapOf(w)| <= U32_MAX
  {
  }

  /** The rest without a field ends the walk. */
  lemma EndsWithRest(w: Walked, pos: nat, dataLen: Option<nat>, n: nat)
    requires Opens(w.s, w.separator) && pos <= |CapOf(w)| <= |w.s| && |CapOf(w)| <= U32_MAX
    requires NextField(CapOf(w), pos, dataLen, w.separator) == None && InOrder(CapOf(w), []) && IsLast(w, [], dataLen, n)
    ensures EndsAs(w, pos, [], dataLen, n, WalkOf(w, pos, dataLen))
  {
    hide Capped, MayStartAt, NextField, NoneIn, IsFirstIn, EndsAs, CapIsFinal;
    FirstFieldIsLong(w.s, w.atEnd, dataLen, w.separator);
    var p := SomeFirst(w, From(pos), |CapOf(w)|);
    EndsWithoutField(w, pos, dataLen, |CapOf(w)|, p);
  }

  /** From any field on, the walk ends as the fields and bytes say. */
  lemma {:induction false} WalkEnds(w: Walked, pos: nat, dataLen: Option<nat>, n: nat)
    requires Opens(w.s, w.separator) && pos <= |CapOf(w)|
    requires InOrder(CapOf(w), FieldsFrom(w, pos, dataLen)) && IsLast(w, FieldsFrom(w, pos, dataLen), dataLen, n)
    ensures EndsAs(w, pos, FieldsFrom(w, pos, dataLen), dataLen, n, WalkOf(w, pos, dataLen))
    decreases |CapOf(w)| - pos, 1
  {
    hide Capped, MayStartAt, NextField, AwaitsData, EndsAs, PendingDataLen, CapIsFinal, FieldsFrom, Opens, Walk;
    CapFits(w);
    FieldsUnfold(w, pos, dataLen);
    var fields := FieldsFrom(w, pos, dataLen);
    if fields == [] {
      EndsWithRest(w, pos, dataLen, n);
    } else if AwaitsData(w, fields, dataLen, 0) {
      EndsAwaiting(w, pos, dataLen, fields, n);
    } else {
      WalkEndsPast(w, pos, dataLen, fields, n);
    }
  }

  lemma {:induction false} WalkEndsPast(w: Walked, pos: nat, dataLen: Option<nat>, fields: seq<RawField>, n: nat)
    requires FieldIsNext(w, pos, dataLen, fields, n) && !AwaitsData(w, fields, dataLen, 0)
    requires fields[1..] == FieldsFrom(w, fields[0].valueEnd + 1, PendingDataLen(w.lengthTags, CapOf(w), fields[0]))
    ensures EndsAs(w, pos, fields, dataLen, n, WalkOf(w, pos, dataLen))
    decreases |CapOf(w)| - pos, 0
  {
    hide Capped, MayStartAt, NextField, NoneIn, IsFirstIn, AwaitsData, EndsAs, PendingDataLen, CapIsFinal, SearchEnd, Opens, Walk;
    FirstIsSearched(w, pos, dataLen, fields, n);
    var p := SomeFirst(w, From(pos), SearchEnd(w, fields, dataLen));
    if IsFirstIn(w, From(pos), SearchEnd(w, fields, dataLen), p) {
      EndsInFirst(w, pos, dataLen, fields, n, p);
    } else if fields[0].tag == CHECKSUM || fields[0].valueEnd == |CapOf(w)| {
      NothingAfterEnd(w, fields);
      EndsWithFirst(w, pos, dataLen, fields, n);
    } else {
      LastOfLater(w, fields, dataLen, n);
      WalkEnds(w, fields[0].valueEnd + 1, PendingDataLen(w.lengthTags, CapOf(w), fields[0]), n - 1);
      WalkGoesOn(w, pos, dataLen, fields, n);
      EndsLater(w, pos, dataLen, fields, n, WalkOf(w, pos, dataLen));
    }
  }

  lemma NothingAfterEnd(w: Walked, fields: seq<RawField>)
    requires fields != [] && InOrder(CapOf(w), fields) && |CapOf(w)| <= U32_MAX
    requires fields[1..] == FieldsFrom(w, fields[0].valueEnd + 1, PendingDataLen(w.lengthTags, CapOf(w), fields[0]))
    ensures fields[0].valueEnd == |CapOf(w)| ==> |fields| == 1
  {
    hide Capped, PendingDataLen;
  }

  lemma WalkGoesOn(w: Walked, pos: nat, dataLen: Option<nat>, fields: seq<RawField>, n: nat)
    requires FieldIsNext(w, pos, dataLen, fields, n) && !AwaitsData(w, fields, dataLen, 0)
    requires |CapOf(w)| <= |w.s| && NoneIn(w, From(pos), SearchEnd(w, fields, dataLen))
    requires fields[0].tag != CHECKSUM && fields[0].valueEnd < |CapOf(w)|
    ensures WalkOf(w, pos, dataLen) == WalkOf(w, fields[0].valueEnd + 1, PendingDataLen(w.lengthTags, CapOf(w), fields[0]))
  {
    hide Capped, MayStartAt, NextField, NoneIn, AwaitsData, PendingDataLen, CapIsFinal, SearchEnd, Opens, StepWalk, IsLast;
    StepWithoutStop(w, pos, dataLen, fields, n);
    WalkUnfolds(w.lengthTags, w.s, w.separator, w.given, w.atEnd, pos, dataLen);
  }

  /**
   * The walk ends a message at the first line feed or message start outside data read by length, if one
   * comes before the end of the first CheckSum field: at a line feed, complete if that is in the CheckSum
   * field, and before a message start always cut short. Otherwise it ends after the CheckSum field, or
   * cut short with the input or the cap. It waits for more bytes exactly where these could decide.
   */
  lemma WalkEndsExactly(w: Walked) returns (n: nat)
    requires Opens(w.s, w.separator)
    ensures var fields := AllFields(w.lengthTags, CapOf(w), w.separator);
            && InOrder(CapOf(w), fields) && n <= |fields| && IsLast(w, fields, None, n)
            && EndsAs(w, 0, fields, None, n, Walk(w.lengthTags, w.s, w.separator, w.given, w.atEnd, 0, None))
  {
    hide Capped, MayStartAt, AwaitsData, EndsAs, CapIsFinal, Opens, Walk, Fields;
    CapFits(w);
    FieldsUnfold(w, 0, None);
    n := SomeIsLast(w, FieldsFrom(w, 0, None), None);
    WalkEnds(w, 0, None, n);
  }
}
