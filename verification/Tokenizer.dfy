/** Splitting a message into fields, in an index of tags and value extents. */
module Tokenizer {
  import opened Wrappers
  import opened Bytes
  import opened Tags
  import opened Framing
  import opened FramingLaws

  type u32 = n: int | 0 <= n <= U32_MAX

  /** The tag and byte range of a field's value within the frame. */
  datatype RawField = RawField(tag: Tag, valueStart: u32, valueEnd: u32)

  /** A message's bytes and the index of every field in wire order. */
  datatype RawMessage = RawMessage(bytes: bytes, fields: seq<RawField>)

  datatype TokenizeError =
    | GarbledFrame(reason: GarbledReason)
    | IncompleteFrame
    | TrailingBytes(frameLen: nat)
    | TooLargeToIndex

  datatype TagEnd = Equals(at: nat) | Separator(at: nat)

  /** A tokenizer's length tags: the standard ones and a dialect's, less the malformed tag. */
  method NewLengthTags(standard: seq<Tag>, extras: seq<Tag>) returns (lengthTags: seq<Tag>)
    ensures IsSortedSet(lengthTags)
    ensures forall t :: t in lengthTags <==> t in standard || (t in extras && t != MALFORMED)
  {
    var all := standard;
    for i := 0 to |extras|
      invariant forall t :: t in all <==> t in standard || (t in extras[..i] && t != MALFORMED)
    {
      if extras[i] != MALFORMED {
        all := all + [extras[i]];
      }
    }
    assert extras[..|extras|] == extras;
    lengthTags := SortDedup(all);
  }

  /** The first `=` or separator at or after `from`. An `=` wins when it is the separator. */
  function FindTagEnd(s: bytes, from: nat, separator: byte): (r: Option<TagEnd>)
    ensures r.Some? ==> from <= r.value.at < |s|
    ensures r.Some? ==> forall j :: from <= j < r.value.at ==> s[j] != EQUALS && s[j] != separator
    ensures r.Some? && r.value.Equals? ==> s[r.value.at] == EQUALS
    ensures r.Some? && r.value.Separator? ==> s[r.value.at] == separator != EQUALS
    ensures r.None? ==> forall j :: from <= j < |s| ==> s[j] != EQUALS && s[j] != separator
    decreases |s| - from
  {
    if from >= |s| then None
    else if s[from] == EQUALS then Some(Equals(from))
    else if s[from] == separator then Some(Separator(from))
    else FindTagEnd(s, from + 1, separator)
  }

  /** The end of a length-delimited value, if the separator follows the claimed extent. */
  function DataValueEnd(s: bytes, valueStart: nat, len: nat, separator: byte): (r: Option<nat>) {
    var end := valueStart + len;
    if end <= USIZE_MAX && end < |s| && s[end] == separator then Some(end) else None
  }

  /** Where a value starting at `valueStart` ends, `dataLen` being the length declared for it. */
  function ValueEnd(s: bytes, valueStart: nat, dataLen: Option<nat>, separator: byte): (end: nat)
    requires valueStart <= |s|
    ensures valueStart <= end <= |s|
  {
    var byLength := if dataLen.Some? then DataValueEnd(s, valueStart, dataLen.value, separator) else None;
    if byLength.Some? then byLength.value
    else
      match FindByte(s, separator, valueStart, |s|)
      case Some(end) => end
      case None => |s|
  }

  function TagOf(text: bytes): Tag {
    match ParseU32(text)
    case Some(tag) => tag
    case None => MALFORMED
  }

  /** The field at `pos` and the offset after its separator. */
  function NextField(s: bytes, pos: nat, dataLen: Option<nat>, separator: byte): (r: Option<(RawField, nat)>)
    requires |s| <= U32_MAX
    ensures r.Some? ==> pos <= r.value.0.valueStart <= r.value.0.valueEnd <= |s|
    ensures r.Some? ==> r.value.1 == r.value.0.valueEnd + 1
    ensures pos >= |s| ==> r.None?
  {
    match FindTagEnd(s, pos, separator)
    case None => None
    case Some(Equals(at)) =>
      var end := ValueEnd(s, at + 1, dataLen, separator);
      Some((RawField(TagOf(s[pos..at]), at + 1, end), end + 1))
    case Some(Separator(at)) =>
      Some((RawField(MALFORMED, pos, at), at + 1))
  }

  /** The length `field` declares for the next field's value, when it is a length tag. */
  function PendingDataLen(lengthTags: seq<Tag>, s: bytes, field: RawField): (r: Option<nat>)
    requires field.valueStart <= field.valueEnd <= |s|
    ensures r.Some? ==> r.value <= U32_MAX
  {
    if field.tag !in lengthTags then None else ParseU32(s[field.valueStart..field.valueEnd])
  }

  /** The fields of `s` from `pos` on. */
  function Fields(lengthTags: seq<Tag>, s: bytes, pos: nat, dataLen: Option<nat>, separator: byte): (r: seq<RawField>)
    requires |s| <= U32_MAX
    decreases |s| + 1 - pos
  {
    match NextField(s, pos, dataLen, separator)
    case None => []
    case Some((field, next)) =>
      [field] + Fields(lengthTags, s, next, PendingDataLen(lengthTags, s, field), separator)
  }

  function AllFields(lengthTags: seq<Tag>, s: bytes, separator: byte): (r: seq<RawField>)
    requires |s| <= U32_MAX
  {
    Fields(lengthTags, s, 0, None, separator)
  }

  /** Splits `s` into fields ended by `separator`. */
  method TokenizeFields(lengthTags: seq<Tag>, s: bytes, separator: byte) returns (fields: seq<RawField>)
    requires |s| <= U32_MAX
    ensures fields == AllFields(lengthTags, s, separator)
  {
    fields := [];
    var pos := 0;
    var dataLen: Option<nat> := None;
    while true
      invariant fields + Fields(lengthTags, s, pos, dataLen, separator) == AllFields(lengthTags, s, separator)
      decreases |s| + 1 - pos
    {
      var next := NextField(s, pos, dataLen, separator);
      if next == None {
        assert fields + [] == fields;
        break;
      }
      var (field, after) := next.value;
      dataLen := PendingDataLen(lengthTags, s, field);
      assert fields + ([field] + Fields(lengthTags, s, after, dataLen, separator))
          == fields + [field] + Fields(lengthTags, s, after, dataLen, separator);
      fields := fields + [field];
      pos := after;
    }
  }

  /** What keeps `s` from being exactly one frame. */
  function CheckFrame(s: bytes): (r: Option<TokenizeError>) {
    match Scan(s, U32_MAX)
    case Ok(frame) => if |frame.bytes| != |s| then Some(TrailingBytes(|frame.bytes|)) else None
    case Err(Incomplete) => Some(IncompleteFrame)
    case Err(Garbled(reason, _)) =>
      if reason.FrameTooLarge? then Some(TooLargeToIndex) else Some(GarbledFrame(reason))
  }

  /** A checked frame is whole, and small enough for 32-bit offsets. */
  lemma CheckedFrameFits(s: bytes)
    requires CheckFrame(s) == None
    ensures Scan(s, U32_MAX).Ok? && Scan(s, U32_MAX).value.bytes == s && |s| <= U32_MAX
  {
    ScanAdvances(s, U32_MAX);
  }

  /** Tokenises exactly one complete message. */
  method Tokenize(lengthTags: seq<Tag>, s: bytes) returns (r: Result<RawMessage, TokenizeError>)
    ensures CheckFrame(s) == None ==> |s| <= U32_MAX && r == Ok(RawMessage(s, AllFields(lengthTags, s, SOH)))
    ensures CheckFrame(s).Some? ==> r == Err(CheckFrame(s).value)
  {
    var problem := CheckFrame(s);
    if problem.Some? {
      return Err(problem.value);
    }
    CheckedFrameFits(s);
    var fields := TokenizeFields(lengthTags, s, SOH);
    return Ok(RawMessage(s, fields));
  }
}
