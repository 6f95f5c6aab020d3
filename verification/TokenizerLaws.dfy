/** Laws of the field index: it tiles the message, and three independent ways to describe it. */
module TokenizerLaws {
  import opened Wrappers
  import opened Bytes
  import opened Tags
  import opened Tokenizer
  import opened Messages
  import Framing
  import FrameFormat
  import ScanVerdicts

  predicate FreeOf(s: bytes, from: nat, until: nat, b: byte)
    requires until <= |s|
  {
    forall j :: from <= j < until ==> s[j] != b
  }

  /**
   * `field` is the run of `s` from `start` to a separator. A run without `=` is malformed
   * and all value. Otherwise the tag is what precedes the first `=`, and the value is what
   * `declared` says when a separator follows that many bytes, else up to the first separator.
   */
  predicate RunAt(s: bytes, start: nat, field: RawField, declared: Option<nat>, separator: byte) {
    && start <= field.valueStart <= field.valueEnd < |s| && s[field.valueEnd] == separator
    && if field.valueStart == start then
         && field.tag == MALFORMED
         && FreeOf(s, start, field.valueEnd, EQUALS) && FreeOf(s, start, field.valueEnd, separator)
       else
         var equals := field.valueStart - 1;
         && s[equals] == EQUALS
         && FreeOf(s, start, equals, EQUALS) && FreeOf(s, start, equals, separator)
         && field.tag == TagOf(s[start..equals])
         && if declared.Some? && field.valueStart + declared.value < |s| && s[field.valueStart + declared.value] == separator
            then field.valueEnd == field.valueStart + declared.value
            else FreeOf(s, field.valueStart, field.valueEnd, separator)
  }

  /** `fields` tiles `s` from `pos`: each run starts one past the last value's end, and the last ends `s`. */
  predicate Tiles(lengthTags: seq<Tag>, s: bytes, fields: seq<RawField>, pos: nat, dataLen: Option<nat>, separator: byte) {
    if fields == [] then pos == |s|
    else
      && RunAt(s, pos, fields[0], dataLen, separator)
      && Tiles(lengthTags, s, fields[1..], fields[0].valueEnd + 1, PendingDataLen(lengthTags, s, fields[0]), separator)
  }

  predicate EndsWithSeparator(s: bytes, separator: byte) {
    s == [] || s[|s| - 1] == separator
  }

  /** The next field of a message that ends with its separator is its next run, and the only one. */
  lemma NextFieldIsRun(s: bytes, pos: nat, dataLen: Option<nat>, separator: byte)
    requires pos < |s| <= U32_MAX && separator != EQUALS && EndsWithSeparator(s, separator)
    ensures NextField(s, pos, dataLen, separator).Some?
    ensures RunAt(s, pos, NextField(s, pos, dataLen, separator).value.0, dataLen, separator)
    ensures forall field :: RunAt(s, pos, field, dataLen, separator) ==> field == NextField(s, pos, dataLen, separator).value.0
  {
    FoundIsRun(s, pos, dataLen, separator);
    forall field | RunAt(s, pos, field, dataLen, separator) ensures field == NextField(s, pos, dataLen, separator).value.0 {
      RunIsFound(s, pos, dataLen, separator, field);
    }
  }

  lemma FoundIsRun(s: bytes, pos: nat, dataLen: Option<nat>, separator: byte)
    requires pos < |s| <= U32_MAX && separator != EQUALS && EndsWithSeparator(s, separator)
    ensures NextField(s, pos, dataLen, separator).Some?
    ensures RunAt(s, pos, NextField(s, pos, dataLen, separator).value.0, dataLen, separator)
  {
    hide FindTagEnd, TagOf, ValueEnd;
    assert s[|s| - 1] == separator;
    var tagEnd := FindTagEnd(s, pos, separator);
    if tagEnd.value.Equals? { ValueEndIs(s, tagEnd.value.at + 1, dataLen, separator); }
  }

  /** A value read by its length ends there; any other holds no separator, and all end on one. */
  lemma ValueEndIs(s: bytes, start: nat, dataLen: Option<nat>, separator: byte)
    requires 0 < start <= |s| <= U32_MAX && s[|s| - 1] == separator != EQUALS && s[start - 1] == EQUALS
    ensures var end := ValueEnd(s, start, dataLen, separator);
            && end < |s| && s[end] == separator
            && if dataLen.Some? && start + dataLen.value < |s| && s[start + dataLen.value] == separator
               then end == start + dataLen.value
               else FreeOf(s, start, end, separator)
  {
  }

  lemma RunIsFound(s: bytes, pos: nat, dataLen: Option<nat>, separator: byte, field: RawField)
    requires pos < |s| <= U32_MAX && separator != EQUALS && EndsWithSeparator(s, separator)
    requires RunAt(s, pos, field, dataLen, separator)
    ensures NextField(s, pos, dataLen, separator).Some? && NextField(s, pos, dataLen, separator).value.0 == field
  {
    hide FindTagEnd, TagOf, ValueEnd;
    assert s[|s| - 1] == separator;
    var tagEnd := FindTagEnd(s, pos, separator);
    RunTagEnd(s, pos, dataLen, separator, field);
    if tagEnd.value.Equals? { ValueEndIs(s, tagEnd.value.at + 1, dataLen, separator); }
  }

  /** The first `=` or separator from a run's start is where the run's tag or value ends. */
  lemma RunTagEnd(s: bytes, pos: nat, dataLen: Option<nat>, separator: byte, field: RawField)
    requires separator != EQUALS && RunAt(s, pos, field, dataLen, separator)
    ensures FindTagEnd(s, pos, separator) == Some(if field.valueStart == pos then Separator(field.valueEnd) else Equals(field.valueStart - 1))
  {
    hide TagOf;
    var at := if field.valueStart == pos then field.valueEnd else field.valueStart - 1;
    assert s[at] == EQUALS || s[at] == separator;
    var tagEnd := FindTagEnd(s, pos, separator);
  }

  /** An index tiles a message ending with its separator exactly when it is the tokenizer's. */
  lemma {:induction false} IndexIsTheTiling(lengthTags: seq<Tag>, s: bytes, fields: seq<RawField>, pos: nat, dataLen: Option<nat>, separator: byte)
    requires pos <= |s| <= U32_MAX && separator != EQUALS && EndsWithSeparator(s, separator)
    ensures Tiles(lengthTags, s, fields, pos, dataLen, separator) <==> fields == Fields(lengthTags, s, pos, dataLen, separator)
    decreases |s| - pos
  {
    hide NextField, RunAt, PendingDataLen, EndsWithSeparator, Tiles, Fields;
    if pos == |s| {
      NothingTiles(lengthTags, s, fields, dataLen, separator);
    } else {
      NextFieldIsRun(s, pos, dataLen, separator);
      RunsEndInside(s, pos, dataLen, separator);
      var (field, next) := NextField(s, pos, dataLen, separator).value;
      var pending := PendingDataLen(lengthTags, s, field);
      TilesThen(lengthTags, s, fields, pos, dataLen, separator, field);
      FieldsThen(lengthTags, s, pos, dataLen, separator);
      if fields != [] {
        IndexIsTheTiling(lengthTags, s, fields[1..], next, pending, separator);
        SplitAtFirst(fields, field, Fields(lengthTags, s, next, pending, separator));
      }
    }
  }

  lemma NothingTiles(lengthTags: seq<Tag>, s: bytes, fields: seq<RawField>, dataLen: Option<nat>, separator: byte)
    requires |s| <= U32_MAX
    ensures Tiles(lengthTags, s, fields, |s|, dataLen, separator) <==> fields == []
    ensures Fields(lengthTags, s, |s|, dataLen, separator) == []
  {
  }

  lemma TilesThen(lengthTags: seq<Tag>, s: bytes, fields: seq<RawField>, pos: nat, dataLen: Option<nat>, separator: byte, field: RawField)
    requires pos < |s| && RunAt(s, pos, field, dataLen, separator)
    requires forall other :: RunAt(s, pos, other, dataLen, separator) ==> other == field
    ensures field.valueStart <= field.valueEnd <= |s|
    ensures Tiles(lengthTags, s, fields, pos, dataLen, separator) <==>
            && fields != [] && fields[0] == field
            && Tiles(lengthTags, s, fields[1..], field.valueEnd + 1, PendingDataLen(lengthTags, s, field), separator)
  {
  }

  lemma FieldsThen(lengthTags: seq<Tag>, s: bytes, pos: nat, dataLen: Option<nat>, separator: byte)
    requires |s| <= U32_MAX && NextField(s, pos, dataLen, separator).Some?
    ensures var (field, next) := NextField(s, pos, dataLen, separator).value;
            Fields(lengthTags, s, pos, dataLen, separator) == [field] + Fields(lengthTags, s, next, PendingDataLen(lengthTags, s, field), separator)
  {
  }

  lemma SplitAtFirst(fields: seq<RawField>, first: RawField, rest: seq<RawField>)
    requires fields != []
    ensures fields == [first] + rest <==> fields[0] == first && fields[1..] == rest
  {
    assert ([first] + rest)[0] == first && ([first] + rest)[1..] == rest;
  }

  lemma RunsEndInside(s: bytes, pos: nat, dataLen: Option<nat>, separator: byte)
    requires |s| <= U32_MAX && NextField(s, pos, dataLen, separator).Some?
    requires RunAt(s, pos, NextField(s, pos, dataLen, separator).value.0, dataLen, separator)
    ensures NextField(s, pos, dataLen, separator).value.1 <= |s|
  {
  }

  function RunStart(fields: seq<RawField>, k: nat): nat
    requires k <= |fields|
  {
    if k == 0 then 0 else fields[k - 1].valueEnd + 1
  }

  /** Run `k` of an index that starts at the front of `s` is where and what it should be. */
  predicate RunIsRight(lengthTags: seq<Tag>, s: bytes, fields: seq<RawField>, k: nat, separator: byte) {
    && k < |fields|
    && if k == 0 then RunAt(s, 0, fields[0], None, separator)
       else
         && fields[k - 1].valueStart <= fields[k - 1].valueEnd <= |s|
         && RunAt(s, RunStart(fields, k), fields[k], PendingDataLen(lengthTags, s, fields[k - 1]), separator)
  }

  lemma RunIsInside(s: bytes, start: nat, field: RawField, declared: Option<nat>, separator: byte)
    requires RunAt(s, start, field, declared, separator)
    ensures start <= field.valueStart <= field.valueEnd < |s|
  {
  }

  lemma FirstRunIsRight(lengthTags: seq<Tag>, s: bytes, before: seq<RawField>, fields: seq<RawField>, separator: byte)
    requires before == [] || (before[|before| - 1].valueStart <= before[|before| - 1].valueEnd <= |s|)
    requires fields != []
    requires RunAt(s, RunStart(before, |before|), fields[0],
                   if before == [] then None else PendingDataLen(lengthTags, s, before[|before| - 1]), separator)
    ensures RunIsRight(lengthTags, s, before + fields, |before|, separator)
  {
    hide RunAt, PendingDataLen;
    assert (before + fields)[|before|] == fields[0];
    if before != [] { assert (before + fields)[|before| - 1] == before[|before| - 1]; }
  }

  lemma {:induction false} TilesEachRun(lengthTags: seq<Tag>, s: bytes, before: seq<RawField>, fields: seq<RawField>, separator: byte)
    requires before == [] || (before[|before| - 1].valueStart <= before[|before| - 1].valueEnd <= |s|)
    requires Tiles(lengthTags, s, fields, RunStart(before, |before|),
                   if before == [] then None else PendingDataLen(lengthTags, s, before[|before| - 1]), separator)
    ensures RunStart(before + fields, |before + fields|) == |s|
    ensures forall k :: |before| <= k < |before + fields| ==> RunIsRight(lengthTags, s, before + fields, k, separator)
    decreases |fields|
  {
    hide PendingDataLen, RunAt, RunIsRight;
    if fields == [] {
      assert before + fields == before;
    } else {
      assert before + fields == before + [fields[0]] + fields[1..];
      RunIsInside(s, RunStart(before, |before|), fields[0],
                  if before == [] then None else PendingDataLen(lengthTags, s, before[|before| - 1]), separator);
      TilesEachRun(lengthTags, s, before + [fields[0]], fields[1..], separator);
      FirstRunIsRight(lengthTags, s, before, fields, separator);
    }
  }

  /** Every accepted frame is tiled by its index, and its offsets fit 32 bits. */
  lemma AcceptedFrameIsTiled(lengthTags: seq<Tag>, s: bytes)
    requires CheckFrame(s) == None
    ensures 0 < |s| <= U32_MAX
    ensures var fields := AllFields(lengthTags, s, SOH);
            && fields != [] && RunStart(fields, |fields|) == |s|
            && forall k :: 0 <= k < |fields| ==> RunIsRight(lengthTags, s, fields, k, SOH)
  {
    AcceptedFrameEndsWithSoh(s);
    var fields := AllFields(lengthTags, s, SOH);
    IndexIsTheTiling(lengthTags, s, fields, 0, None, SOH);
    TilesEachRun(lengthTags, s, [], fields, SOH);
    assert [] + fields == fields;
  }

  lemma AcceptedFrameEndsWithSoh(s: bytes)
    requires CheckFrame(s) == None
    ensures 0 < |s| <= U32_MAX && s[|s| - 1] == SOH
  {
    hide CheckFrame, Framing.Scan, FrameFormat.BeginStringAt, FrameFormat.BodyLengthAt, FrameFormat.IsBody, FrameFormat.IsMsgType;
    CheckedFrameFits(s);
    var l := FrameFormat.AcceptedFrameIsWellFormed(s, U32_MAX);
  }

  /** The run `from..end` read on its own: split at its first `=`. */
  function FieldOfRun(s: bytes, from: nat, end: nat): RawField
    requires from <= end <= |s| <= U32_MAX
  {
    match FindByte(s, EQUALS, from, end)
    case Some(at) => RawField(TagOf(s[from..at]), at + 1, end)
    case None => RawField(MALFORMED, from, end)
  }

  /**
   * `s` split at every separator and then at the first `=` of each run. A last run with no
   * separator after it counts only if it holds an `=`.
   */
  function SplitFields(s: bytes, from: nat, separator: byte): (r: seq<RawField>)
    requires |s| <= U32_MAX
    decreases |s| + 1 - from
  {
    if from > |s| then []
    else
      match FindByte(s, separator, from, |s|)
      case Some(end) => [FieldOfRun(s, from, end)] + SplitFields(s, end + 1, separator)
      case None => if FindByte(s, EQUALS, from, |s|).Some? then [FieldOfRun(s, from, |s|)] else []
  }

  /** With no length tag present, the index is the message split at its separator. */
  lemma {:induction false} WithoutLengthTagsFieldsAreSplits(lengthTags: seq<Tag>, s: bytes, pos: nat, separator: byte)
    requires |s| <= U32_MAX && separator != EQUALS
    requires forall field :: field in SplitFields(s, pos, separator) ==> field.tag !in lengthTags
    ensures Fields(lengthTags, s, pos, None, separator) == SplitFields(s, pos, separator)
    decreases |s| + 1 - pos
  {
    if pos <= |s| {
      NextFieldIsFirstSplit(s, pos, separator);
      var next := NextField(s, pos, None, separator);
      if next.Some? {
        var (field, after) := next.value;
        assert field in SplitFields(s, pos, separator);
        if FindByte(s, separator, pos, |s|).Some? {
          forall f | f in SplitFields(s, after, separator) ensures f.tag !in lengthTags {
            assert f in SplitFields(s, pos, separator);
          }
          WithoutLengthTagsFieldsAreSplits(lengthTags, s, after, separator);
        }
      }
    }
  }

  lemma NextFieldIsFirstSplit(s: bytes, pos: nat, separator: byte)
    requires pos <= |s| <= U32_MAX && separator != EQUALS
    ensures NextField(s, pos, None, separator) ==
            match FindByte(s, separator, pos, |s|)
            case Some(end) => Some((FieldOfRun(s, pos, end), end + 1))
            case None => if FindByte(s, EQUALS, pos, |s|).Some? then Some((FieldOfRun(s, pos, |s|), |s| + 1)) else None
  {
    var end := FindByte(s, separator, pos, |s|);
    var equals := FindByte(s, EQUALS, pos, if end.Some? then end.value else |s|);
    var tagEnd := FindTagEnd(s, pos, separator);
    if equals.Some? {
      assert tagEnd == Some(Equals(equals.value));
      assert FindByte(s, separator, equals.value + 1, |s|) == end;
    } else {
      assert end.Some? ==> tagEnd == Some(Separator(end.value));
    }
  }

  lemma {:induction false} FieldsAreWithin(lengthTags: seq<Tag>, s: bytes, pos: nat, dataLen: Option<nat>, separator: byte)
    requires |s| <= U32_MAX
    ensures forall field :: field in Fields(lengthTags, s, pos, dataLen, separator) ==>
              field.valueStart <= field.valueEnd <= |s|
    decreases |s| + 1 - pos
  {
    match NextField(s, pos, dataLen, separator)
    case None =>
    case Some((field, next)) =>
      FieldsAreWithin(lengthTags, s, next, PendingDataLen(lengthTags, s, field), separator);
  }

  /** One field on the wire. */
  function EncodeEntry(entry: Entry, separator: byte): bytes {
    Decimal(entry.tag) + [EQUALS] + entry.value + [separator]
  }

  function EncodeEntries(entries: seq<Entry>, separator: byte): (s: bytes) {
    if entries == [] then [] else EncodeEntry(entries[0], separator) + EncodeEntries(entries[1..], separator)
  }

  function DeclaredBy(lengthTags: seq<Tag>, entry: Entry): Option<nat> {
    if entry.tag in lengthTags then ParseU32(entry.value) else None
  }

  /**
   * The fields can be told apart again: a value is as long as the length field before it
   * declares, and otherwise does not hold the separator.
   */
  predicate Separable(lengthTags: seq<Tag>, entries: seq<Entry>, dataLen: Option<nat>, separator: byte) {
    entries == [] ||
    (&& (if dataLen.Some? then |entries[0].value| == dataLen.value else separator !in entries[0].value)
     && Separable(lengthTags, entries[1..], DeclaredBy(lengthTags, entries[0]), separator))
  }

  /** The entries whose fields start at `pos`. */
  function ReadFrom(lengthTags: seq<Tag>, s: bytes, pos: nat, dataLen: Option<nat>, separator: byte): (r: seq<Entry>)
    requires |s| <= U32_MAX
  {
    FieldsAreWithin(lengthTags, s, pos, dataLen, separator);
    Entries(s, Fields(lengthTags, s, pos, dataLen, separator))
  }

  lemma ReadFromNext(lengthTags: seq<Tag>, s: bytes, pos: nat, dataLen: Option<nat>, separator: byte)
    requires |s| <= U32_MAX && NextField(s, pos, dataLen, separator).Some?
    ensures var (field, next) := NextField(s, pos, dataLen, separator).value;
            ReadFrom(lengthTags, s, pos, dataLen, separator) ==
            [Entry(field.tag, s[field.valueStart..field.valueEnd])]
            + ReadFrom(lengthTags, s, next, PendingDataLen(lengthTags, s, field), separator)
  {
    FieldsAreWithin(lengthTags, s, pos, dataLen, separator);
    var (field, next) := NextField(s, pos, dataLen, separator).value;
    var fields := Fields(lengthTags, s, pos, dataLen, separator);
    assert fields == [field] + fields[1..];
  }

  lemma {:induction false} EncodedEntriesReadBackFrom(lengthTags: seq<Tag>, before: bytes, entries: seq<Entry>, dataLen: Option<nat>, separator: byte)
    requires separator != EQUALS && !IsDigit(separator)
    requires Separable(lengthTags, entries, dataLen, separator)
    requires |before + EncodeEntries(entries, separator)| <= U32_MAX
    ensures ReadFrom(lengthTags, before + EncodeEntries(entries, separator), |before|, dataLen, separator) == entries
    decreases |entries|
  {
    hide ReadFrom, NextField, PendingDataLen, DeclaredBy, Decimal, EncodeEntry, EncodeEntries, Fields, Entries;
    if entries == [] {
      NothingIsRead(lengthTags, before, dataLen, separator);
    } else {
      var entry, rest := entries[0], EncodeEntries(entries[1..], separator);
      var read := before + EncodeEntry(entry, separator);
      FirstEncoded(before, entries, separator);
      EncodedEntryIsNext(lengthTags, before, entry, rest, dataLen, separator);
      EncodedEntriesReadBackFrom(lengthTags, read, entries[1..], DeclaredBy(lengthTags, entry), separator);
      ReadFromNext(lengthTags, read + rest, |before|, dataLen, separator);
    }
  }

  lemma NothingIsRead(lengthTags: seq<Tag>, s: bytes, dataLen: Option<nat>, separator: byte)
    requires |s| <= U32_MAX
    ensures s + EncodeEntries([], separator) == s
    ensures ReadFrom(lengthTags, s, |s|, dataLen, separator) == []
  {
  }

  /** The encoding of fields is that of the first, and then of the others. */
  lemma FirstEncoded(before: bytes, entries: seq<Entry>, separator: byte)
    requires entries != []
    ensures before + EncodeEntries(entries, separator) == before + EncodeEntry(entries[0], separator) + EncodeEntries(entries[1..], separator)
    ensures |before + EncodeEntry(entries[0], separator)| == |before| + |Decimal(entries[0].tag)| + |entries[0].value| + 2
    ensures [Entry(entries[0].tag, entries[0].value)] + entries[1..] == entries
  {
    hide Decimal, EncodeEntry, EncodeEntries;
    FirstThenRest(entries, separator);
    EntryLength(entries[0], separator);
    var first, rest := EncodeEntry(entries[0], separator), EncodeEntries(entries[1..], separator);
    assert before + (first + rest) == before + first + rest;
    assert [entries[0]] + entries[1..] == entries;
  }

  lemma FirstThenRest(entries: seq<Entry>, separator: byte)
    requires entries != []
    ensures EncodeEntries(entries, separator) == EncodeEntry(entries[0], separator) + EncodeEntries(entries[1..], separator)
  {
    hide EncodeEntry;
  }

  lemma EntryLength(entry: Entry, separator: byte)
    ensures |EncodeEntry(entry, separator)| == |Decimal(entry.tag)| + |entry.value| + 2
  {
    hide Decimal;
  }

  lemma EncodedEntryIsNext(lengthTags: seq<Tag>, before: bytes, entry: Entry, rest: bytes, dataLen: Option<nat>, separator: byte)
    requires separator != EQUALS && !IsDigit(separator)
    requires if dataLen.Some? then |entry.value| == dataLen.value else separator !in entry.value
    requires |before + EncodeEntry(entry, separator) + rest| <= U32_MAX
    ensures var s := before + EncodeEntry(entry, separator) + rest;
            var start := |before| + |Decimal(entry.tag)| + 1;
            && NextField(s, |before|, dataLen, separator) ==
               Some((RawField(entry.tag, start, start + |entry.value|), start + |entry.value| + 1))
            && s[start..start + |entry.value|] == entry.value
            && PendingDataLen(lengthTags, s, RawField(entry.tag, start, start + |entry.value|)) == DeclaredBy(lengthTags, entry)
  {
    hide Decimal, ParseU32, DigitsValue, FindTagEnd, ValueEnd, AllDigits;
    var s := before + EncodeEntry(entry, separator) + rest;
    var tag := Decimal(entry.tag);
    ParseU32Decimal(entry.tag);
    EncodedEntryLayout(before, tag, entry.value, rest, separator);
    EncodedTagEnds(s, |before|, tag, separator);
    EncodedValueEnds(s, |before| + |tag| + 1, entry.value, dataLen, separator);
  }

  lemma EncodedEntryLayout(before: bytes, tag: bytes, value: bytes, rest: bytes, separator: byte)
    ensures var s := before + (tag + [EQUALS] + value + [separator]) + rest;
            var at := |before| + |tag|;
            && s[|before|..at] == tag && s[at] == EQUALS
            && s[at + 1..at + 1 + |value|] == value && s[at + 1 + |value|] == separator
  {
  }

  lemma EncodedTagEnds(s: bytes, pos: nat, tag: bytes, separator: byte)
    requires separator != EQUALS && !IsDigit(separator) && AllDigits(tag)
    requires pos + |tag| < |s| && s[pos..pos + |tag|] == tag && s[pos + |tag|] == EQUALS
    ensures FindTagEnd(s, pos, separator) == Some(Equals(pos + |tag|))
  {
    forall j | pos <= j < pos + |tag| ensures s[j] != EQUALS && s[j] != separator {
      assert s[j] == tag[j - pos] && IsDigit(s[j]);
    }
  }

  lemma EncodedValueEnds(s: bytes, start: nat, value: bytes, dataLen: Option<nat>, separator: byte)
    requires start + |value| < |s| <= U32_MAX && s[start..start + |value|] == value && s[start + |value|] == separator
    requires if dataLen.Some? then |value| == dataLen.value else separator !in value
    ensures ValueEnd(s, start, dataLen, separator) == start + |value|
  {
    if dataLen.None? {
      forall j | start <= j < start + |value| ensures s[j] != separator {
        assert s[j] == value[j - start];
      }
      assert FindByte(s, separator, start, |s|) == Some(start + |value|);
    }
  }

  /** Encoding fields and tokenising gives the fields back, data values holding separators included. */
  lemma EncodedEntriesReadBack(lengthTags: seq<Tag>, entries: seq<Entry>, separator: byte)
    requires separator != EQUALS && !IsDigit(separator)
    requires Separable(lengthTags, entries, None, separator)
    requires |EncodeEntries(entries, separator)| <= U32_MAX
    ensures ReadFrom(lengthTags, EncodeEntries(entries, separator), 0, None, separator) == entries
  {
    assert [] + EncodeEntries(entries, separator) == EncodeEntries(entries, separator);
    EncodedEntriesReadBackFrom(lengthTags, [], entries, None, separator);
  }

  lemma {:induction false} EncodeJoined(a: seq<Entry>, b: seq<Entry>, separator: byte)
    ensures EncodeEntries(a + b, separator) == EncodeEntries(a, separator) + EncodeEntries(b, separator)
    decreases |a|
  {
    hide EncodeEntry;
    if a == [] {
      assert a + b == b;
    } else {
      assert (a + b)[1..] == a[1..] + b;
      EncodeJoined(a[1..], b, separator);
    }
  }

  /** The length the last field declares for the one after, if it is a length field. */
  function DeclaredLast(lengthTags: seq<Tag>, entries: seq<Entry>, dataLen: Option<nat>): Option<nat> {
    if entries == [] then dataLen else DeclaredBy(lengthTags, entries[|entries| - 1])
  }

  lemma {:induction false} SeparableJoined(lengthTags: seq<Tag>, a: seq<Entry>, b: seq<Entry>, dataLen: Option<nat>, separator: byte)
    requires Separable(lengthTags, a, dataLen, separator) && Separable(lengthTags, b, DeclaredLast(lengthTags, a, dataLen), separator)
    ensures Separable(lengthTags, a + b, dataLen, separator)
    decreases |a|
  {
    hide DeclaredBy;
    if a == [] {
      assert a + b == b;
    } else {
      assert (a + b)[1..] == a[1..] + b && (a + b)[0] == a[0];
      SeparableJoined(lengthTags, a[1..], b, DeclaredBy(lengthTags, a[0]), separator);
    }
  }

  /** A frame's fields around those of its body, BodyLength and CheckSum as they are for it. */
  function FramedEntries(begin: bytes, body: seq<Entry>): seq<Entry> {
    var text := EncodeEntries(body, SOH);
    [Entry(8, begin), Entry(9, Decimal(|text|))]
    + body
    + [Entry(10, FrameFormat.ThreeDigitText(WrappingSum(FrameFormat.Preamble(begin, text) + text)))]
  }

  lemma HeaderText(begin: bytes, length: bytes)
    ensures EncodeEntries([Entry(8, begin), Entry(9, length)], SOH)
         == FrameFormat.BEGIN_STRING_TAG + begin + [SOH] + (Framing.BODY_LENGTH_TAG + length + [SOH])
  {
    assert Decimal(8) == [56] && Decimal(9) == [57];
    var all := [Entry(8, begin), Entry(9, length)];
    assert all[1..] == [Entry(9, length)] && all[1..][1..] == [];
    assert EncodeEntries(all[1..], SOH) == EncodeEntry(all[1], SOH) + [];
  }

  lemma TrailerText(digits: bytes)
    ensures EncodeEntries([Entry(10, digits)], SOH) == Framing.CHECKSUM_TAG + digits + [SOH]
  {
    assert Decimal(10) == [49, 48] by { assert Decimal(1) == [49]; }
    assert [Entry(10, digits)][1..] == [];
    assert EncodeEntries([Entry(10, digits)], SOH) == EncodeEntry(Entry(10, digits), SOH) + [];
  }

  /** An encoded frame is the encoding of its fields. */
  lemma FrameIsItsEntries(begin: bytes, body: seq<Entry>)
    ensures EncodeEntries(FramedEntries(begin, body), SOH) == FrameFormat.Encode(begin, EncodeEntries(body, SOH))
  {
    hide EncodeEntries, EncodeEntry, Decimal, WrappingSum, FrameFormat.ThreeDigitText;
    var text := EncodeEntries(body, SOH);
    var head := FrameFormat.Preamble(begin, text) + text;
    var digits := FrameFormat.ThreeDigitText(WrappingSum(head));
    var opening := [Entry(8, begin), Entry(9, Decimal(|text|))];
    HeaderText(begin, Decimal(|text|));
    TrailerText(digits);
    EncodeJoined(opening, body, SOH);
    EncodeJoined(opening + body, [Entry(10, digits)], SOH);
  }

  /**
   * A frame encoded around any fields, the first of them MsgType, passes the frame check and
   * tokenises to BeginString, BodyLength, those fields and CheckSum. Values may hold SOH where
   * the length field before them says so; only a length declared for CheckSum itself is ruled out.
   */
  lemma FramedEntriesReadBack(lengthTags: seq<Tag>, begin: bytes, body: seq<Entry>)
    requires StartsWith(begin, FrameFormat.FIX) && |begin| <= 14 && SOH !in begin
    requires body != [] && body[0].tag == MSG_TYPE
    requires 9 !in lengthTags && Separable(lengthTags, body, None, SOH)
    requires DeclaredLast(lengthTags, body, None) == None
    requires var frame := FrameFormat.Encode(begin, EncodeEntries(body, SOH));
             |frame| <= U32_MAX
    ensures var frame := FrameFormat.Encode(begin, EncodeEntries(body, SOH));
            && CheckFrame(frame) == None
            && ReadFrom(lengthTags, frame, 0, None, SOH) == FramedEntries(begin, body)
  {
    hide ReadFrom, Separable, EncodeEntries, Decimal, WrappingSum, FrameFormat.ThreeDigitText, FrameFormat.Encode, Framing.Scan, DeclaredLast;
    var text := EncodeEntries(body, SOH);
    BodyTextIsBody(body);
    BodyTextFits(begin, text);
    FrameFormat.EncodedFrameScansBack(begin, text, [], U32_MAX);
    assert FrameFormat.Encode(begin, text) + [] == FrameFormat.Encode(begin, text);
    FrameIsItsEntries(begin, body);
    FramedIsSeparable(lengthTags, begin, body);
    EncodedEntriesReadBack(lengthTags, FramedEntries(begin, body), SOH);
  }

  lemma BodyTextIsBody(body: seq<Entry>)
    requires body != [] && body[0].tag == MSG_TYPE
    ensures FrameFormat.IsBody(EncodeEntries(body, SOH))
  {
    hide EncodeEntries, Decimal;
    var last := |body| - 1;
    assert body[..last] + [body[last]] == body;
    EncodeJoined(body[..last], [body[last]], SOH);
    FirstThenRest(body, SOH);
    FirstThenRest([body[last]], SOH);
    EntryLength(body[0], SOH);
    MsgTypeText(body[0].value);
    EntryEndsInSeparator(body[last]);
  }

  lemma MsgTypeText(value: bytes)
    ensures var text := EncodeEntry(Entry(MSG_TYPE, value), SOH); |text| >= 3 && text[..3] == Framing.MSG_TYPE_TAG
  {
    assert Decimal(35) == [51, 53] by { assert Decimal(3) == [51]; }
  }

  lemma EntryEndsInSeparator(entry: Entry)
    ensures var text := EncodeEntry(entry, SOH) + EncodeEntries([entry][1..], SOH); text != [] && text[|text| - 1] == SOH
  {
    assert [entry][1..] == [];
  }

  lemma BodyTextFits(begin: bytes, text: bytes)
    requires |FrameFormat.Encode(begin, text)| <= U32_MAX
    ensures |text| < Pow10(Framing.MAX_BODY_LENGTH_DIGITS)
  {
    assert Pow10(10) == 100_0000_0000 by { assert Pow10(5) == 100_000; }
  }

  lemma FramedIsSeparable(lengthTags: seq<Tag>, begin: bytes, body: seq<Entry>)
    requires StartsWith(begin, FrameFormat.FIX) && SOH !in begin
    requires 9 !in lengthTags && Separable(lengthTags, body, None, SOH) && DeclaredLast(lengthTags, body, None) == None
    ensures Separable(lengthTags, FramedEntries(begin, body), None, SOH)
  {
    hide EncodeEntries, WrappingSum, FrameFormat.Preamble;
    var text := EncodeEntries(body, SOH);
    var digits := FrameFormat.ThreeDigitText(WrappingSum(FrameFormat.Preamble(begin, text) + text));
    var opening := [Entry(8, begin), Entry(9, Decimal(|text|))];
    OpeningIsSeparable(lengthTags, begin, Decimal(|text|));
    assert Separable(lengthTags, [Entry(10, digits)], None, SOH) by { assert [Entry(10, digits)][1..] == []; }
    hide Separable, Decimal, FrameFormat.ThreeDigitText;
    SeparableJoined(lengthTags, opening, body, None, SOH);
    LastOfJoined(lengthTags, opening, body);
    SeparableJoined(lengthTags, opening + body, [Entry(10, digits)], None, SOH);
  }

  lemma LastOfJoined(lengthTags: seq<Tag>, a: seq<Entry>, b: seq<Entry>)
    requires DeclaredLast(lengthTags, a, None) == None && DeclaredLast(lengthTags, b, None) == None
    ensures DeclaredLast(lengthTags, a + b, None) == None
  {
    if b == [] { assert a + b == a; }
  }

  lemma OpeningIsSeparable(lengthTags: seq<Tag>, begin: bytes, length: bytes)
    requires StartsWith(begin, FrameFormat.FIX) && SOH !in begin && AllDigits(length) && 9 !in lengthTags
    ensures Separable(lengthTags, [Entry(8, begin), Entry(9, length)], None, SOH)
    ensures DeclaredLast(lengthTags, [Entry(8, begin), Entry(9, length)], None) == None
  {
    var opening := [Entry(8, begin), Entry(9, length)];
    assert opening[1..] == [Entry(9, length)] && opening[1..][1..] == [];
    assert ParseU32(begin) == None by { assert begin[..3][0] == begin[0] == 70; }
    assert SOH !in length;
  }

  /** `s` with every SOH written as `separator`. */
  function Renamed(s: bytes, separator: byte): (r: bytes)
    ensures |r| == |s|
    ensures forall i :: 0 <= i < |s| ==> r[i] == if s[i] == SOH then separator else s[i]
  {
    seq(|s|, i requires 0 <= i < |s| => if s[i] == SOH then separator else s[i])
  }

  /** `separator` can stand for SOH in `s`. */
  predicate CanStandFor(s: bytes, separator: byte) {
    separator !in s && separator != EQUALS && !IsDigit(separator)
  }

  lemma RenamedNumber(s: bytes, from: nat, until: nat, separator: byte)
    requires from <= until <= |s| && CanStandFor(s, separator)
    ensures ParseU32(Renamed(s, separator)[from..until]) == ParseU32(s[from..until])
  {
    var text, renamed := s[from..until], Renamed(s, separator)[from..until];
    if SOH in text {
      var i :| 0 <= i < |text| && text[i] == SOH;
      assert renamed[i] == separator && !IsDigit(text[i]);
      assert !AllDigits(text) && !AllDigits(renamed);
    } else {
      assert text == renamed;
    }
  }

  lemma RenamedTagEnd(s: bytes, pos: nat, separator: byte)
    requires CanStandFor(s, separator)
    ensures FindTagEnd(Renamed(s, separator), pos, separator) == FindTagEnd(s, pos, SOH)
  {
    var t := Renamed(s, separator);
    assert forall i :: 0 <= i < |s| ==> (t[i] == separator <==> s[i] == SOH) && (t[i] == EQUALS <==> s[i] == EQUALS);
    var tagEnd, tagEnd' := FindTagEnd(s, pos, SOH), FindTagEnd(t, pos, separator);
  }

  lemma RenamedValueEnd(s: bytes, start: nat, dataLen: Option<nat>, separator: byte)
    requires start <= |s| && CanStandFor(s, separator)
    ensures ValueEnd(Renamed(s, separator), start, dataLen, separator) == ValueEnd(s, start, dataLen, SOH)
  {
    var t := Renamed(s, separator);
    assert forall i :: 0 <= i < |s| ==> (t[i] == separator <==> s[i] == SOH);
    var end, end' := FindByte(s, SOH, start, |s|), FindByte(t, separator, start, |t|);
    assert end == end';
  }

  lemma RenamedNextField(s: bytes, pos: nat, dataLen: Option<nat>, separator: byte)
    requires |s| <= U32_MAX && CanStandFor(s, separator)
    ensures NextField(Renamed(s, separator), pos, dataLen, separator) == NextField(s, pos, dataLen, SOH)
  {
    hide FindTagEnd, ValueEnd, ParseU32, CanStandFor;
    RenamedTagEnd(s, pos, separator);
    var tagEnd := FindTagEnd(s, pos, SOH);
    if tagEnd.Some? && tagEnd.value.Equals? {
      RenamedNumber(s, pos, tagEnd.value.at, separator);
      RenamedValueEnd(s, tagEnd.value.at + 1, dataLen, separator);
    }
  }

  /** Rewriting every SOH to a separator the message does not use leaves its index unchanged. */
  lemma {:induction false} RenamingKeepsIndex(lengthTags: seq<Tag>, s: bytes, pos: nat, dataLen: Option<nat>, separator: byte)
    requires |s| <= U32_MAX && CanStandFor(s, separator)
    ensures Fields(lengthTags, Renamed(s, separator), pos, dataLen, separator) == Fields(lengthTags, s, pos, dataLen, SOH)
    decreases |s| + 1 - pos
  {
    RenamedNextField(s, pos, dataLen, separator);
    match NextField(s, pos, dataLen, SOH)
    case None =>
    case Some((field, next)) =>
      RenamedNumber(s, field.valueStart, field.valueEnd, separator);
      RenamingKeepsIndex(lengthTags, s, next, PendingDataLen(lengthTags, s, field), separator);
  }

  /** `=` cannot stand for SOH, even in messages without one: a field without an `=` then ends later. */
  lemma EqualsCannotStandForSoh(lengthTags: seq<Tag>, text: bytes)
    requires SOH !in text && EQUALS !in text && |text| < U32_MAX
    ensures AllFields(lengthTags, Renamed(text + [SOH], EQUALS), EQUALS) != AllFields(lengthTags, text + [SOH], SOH)
  {
    hide ParseU32;
    var s := text + [SOH];
    var t := Renamed(s, EQUALS);
    var n := |text|;
    assert forall j :: 0 <= j < n ==> s[j] == text[j] == t[j];
    assert s[n] == SOH && t[n] == EQUALS;
    assert FindTagEnd(s, 0, SOH) == Some(Separator(n));
    assert FindTagEnd(t, 0, EQUALS) == Some(Equals(n));
    FieldsThen(lengthTags, s, 0, None, SOH);
    FieldsThen(lengthTags, t, 0, None, EQUALS);
    assert AllFields(lengthTags, s, SOH)[0].valueEnd == n < AllFields(lengthTags, t, EQUALS)[0].valueEnd;
  }

  /** `1=2|2=|3|x=a|b|` with SOH for `|`: the value of field 2, read by its length, holds an SOH before a digit. */
  const NESTED_LENGTHS: bytes := [49, 61, 50, 1, 50, 61, 1, 51, 1, 120, 61, 97, 1, 98, 1]

  /** The same bytes with `separator` for SOH. */
  predicate IsNested(s: bytes, separator: byte) {
    && |s| == 15 && separator != EQUALS && separator !in {49, 50, 51, 97, 98, 120}
    && s[0] == 49 && s[1] == 61 && s[2] == 50 && s[3] == separator
    && s[4] == 50 && s[5] == 61 && s[6] == separator && s[7] == 51 && s[8] == separator
    && s[9] == 120 && s[10] == 61 && s[11] == 97 && s[12] == separator && s[13] == 98 && s[14] == separator
  }

  lemma OneDigit(d: byte)
    requires IsDigit(d)
    ensures ParseU32([d]) == Some(d - ZERO)
  {
    assert CheckedFold([d][..0], U32_MAX) == Some(0);
  }

  lemma ZeroAndDigit(d: byte)
    requires IsDigit(d)
    ensures ParseU32([ZERO, d]) == Some(d - ZERO)
  {
    assert [ZERO, d][..1] == [ZERO] && [ZERO][..0] == [];
    assert CheckedFold([ZERO], U32_MAX) == Some(0);
  }

  lemma NestedRuns(s: bytes, separator: byte, third: Option<nat>, end: nat)
    requires IsNested(s, separator) && (third == None || third == Some(3)) && end == if third.Some? then 14 else 12
    ensures RunAt(s, 0, RawField(1, 2, 3), None, separator)
    ensures RunAt(s, 4, RawField(2, 6, 8), Some(2), separator)
    ensures RunAt(s, 9, RawField(MALFORMED, 11, end), third, separator)
    ensures PendingDataLen([1, 2], s, RawField(1, 2, 3)) == Some(2)
  {
    OneDigit(49);
    OneDigit(50);
    assert s[0..1] == [49] && s[2..3] == [50] && s[4..5] == [50];
    assert s[9..10] == [120] && !IsDigit([120][0]);
    hide ParseU32;
  }

  lemma NestedPending(s: bytes, separator: byte)
    requires IsNested(s, separator)
    ensures |s| == 15 && EndsWithSeparator(s, separator) && separator != EQUALS
    ensures PendingDataLen([1, 2], s, RawField(2, 6, 8)) == ParseU32(s[6..8])
  {
    hide ParseU32;
  }

  lemma RunThenFields(lengthTags: seq<Tag>, s: bytes, pos: nat, dataLen: Option<nat>, separator: byte, field: RawField)
    requires pos < |s| <= U32_MAX && separator != EQUALS && EndsWithSeparator(s, separator)
    requires RunAt(s, pos, field, dataLen, separator)
    ensures field.valueStart <= field.valueEnd < |s|
    ensures Fields(lengthTags, s, pos, dataLen, separator)
         == [field] + Fields(lengthTags, s, field.valueEnd + 1, PendingDataLen(lengthTags, s, field), separator)
  {
    hide RunAt, NextField, Fields, PendingDataLen, EndsWithSeparator;
    RunIsInside(s, pos, field, dataLen, separator);
    RunIsFound(s, pos, dataLen, separator, field);
    FieldsThen(lengthTags, s, pos, dataLen, separator);
  }

  /** The three fields of the message, the third with `third` declared for its value. */
  lemma ThreeFields(s: bytes, separator: byte, third: Option<nat>, end: nat)
    requires IsNested(s, separator) && third == ParseU32(s[6..8])
    requires (third == None || third == Some(3)) && end == if third.Some? then 14 else 12
    ensures var fields := AllFields([1, 2], s, separator); |fields| >= 3 && fields[2] == RawField(MALFORMED, 11, end)
  {
    hide ParseU32, NextField, Fields, RunAt, PendingDataLen, IsNested, EndsWithSeparator;
    NestedRuns(s, separator, third, end);
    NestedPending(s, separator);
    RunThenFields([1, 2], s, 0, None, separator, RawField(1, 2, 3));
    RunThenFields([1, 2], s, 4, Some(2), separator, RawField(2, 6, 8));
    RunThenFields([1, 2], s, 9, third, separator, RawField(MALFORMED, 11, end));
  }

  /** Nor can a digit: here it makes a value a length, and that length ends a later field elsewhere. */
  lemma DigitsCannotStandForSoh()
    ensures ZERO !in NESTED_LENGTHS
    ensures AllFields([1, 2], Renamed(NESTED_LENGTHS, ZERO), ZERO) != AllFields([1, 2], NESTED_LENGTHS, SOH)
  {
    hide Fields;
    var s, t := NESTED_LENGTHS, Renamed(NESTED_LENGTHS, ZERO);
    assert s[6..8] == [SOH, 51] && t[6..8] == [ZERO, 51];
    ZeroAndDigit(51);
    assert ParseU32([SOH, 51]) == None by { assert !IsDigit([SOH, 51][0]); }
    ThreeFields(s, SOH, None, 12);
    ThreeFields(t, ZERO, Some(3), 14);
  }

  /** Which error, if any, the bytes to tokenise are answered with. */
  lemma FrameErrorsExactly(s: bytes, reason: Framing.GarbledReason, n: nat)
    ensures CheckFrame(s) == None <==> |s| <= U32_MAX && exists l :: FrameFormat.WellFormed(s, l)
    ensures CheckFrame(s) == Some(TrailingBytes(n)) <==>
            n < |s| && n <= U32_MAX && exists l :: FrameFormat.WellFormed(s[..n], l)
    ensures CheckFrame(s) == Some(IncompleteFrame) <==> ScanVerdicts.Waits(s, U32_MAX)
    ensures CheckFrame(s) == Some(TooLargeToIndex) <==> ScanVerdicts.Garbles(s, U32_MAX, Framing.FrameTooLarge)
    ensures CheckFrame(s) == Some(GarbledFrame(reason)) <==> ScanVerdicts.Garbles(s, U32_MAX, reason) && !reason.FrameTooLarge?
  {
    hide Framing.Scan, ScanVerdicts.Waits, ScanVerdicts.Garbles, FrameFormat.WellFormed;
    ScanVerdicts.VerdictsExactly(s, U32_MAX, reason);
    ScanVerdicts.VerdictsExactly(s, U32_MAX, Framing.FrameTooLarge);
    FramingLaws.ScanAdvances(s, U32_MAX);
    if Framing.Scan(s, U32_MAX).Ok? { var l := FrameFormat.AcceptedFrameIsWellFormed(s, U32_MAX); }
    forall m: nat, l | m <= |s| && m <= U32_MAX && FrameFormat.WellFormed(s[..m], l)
      ensures Framing.Scan(s, U32_MAX).Ok? && Framing.Scan(s, U32_MAX).value.bytes == s[..m]
    {
      FrameFormat.WellFormedFrameIsAccepted(s[..m], l, s[m..], U32_MAX);
      assert s[..m] + s[m..] == s;
    }
    assert s[..|s|] == s;
  }
}
