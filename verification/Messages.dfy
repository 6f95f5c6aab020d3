/** A message's fields as entries, and bounded views of them. */
module Messages {
  import opened Wrappers
  import opened Bytes
  import opened Tags
  import opened Tokenizer

  /** A field as it is read: its tag and its value's bytes. */
  datatype Entry = Entry(tag: Tag, value: bytes)

  /** Every field of a message as tag and value, in wire order. */
  function Entries(s: bytes, fields: seq<RawField>): (r: seq<Entry>)
    requires forall i :: 0 <= i < |fields| ==> fields[i].valueStart <= fields[i].valueEnd <= |s|
    ensures |r| == |fields|
  {
    seq(|fields|, i requires 0 <= i < |fields| => Entry(fields[i].tag, s[fields[i].valueStart..fields[i].valueEnd]))
  }

  /** The fields `start..end` of a message: the whole frame or one group instance. */
  datatype Scope = Scope(start: nat, end: nat)

  /** The first slot from `from` to the end of the scope that holds `tag`. */
  function Find(message: seq<Entry>, scope: Scope, tag: Tag, from: nat): (r: Option<nat>)
    ensures r.Some? ==> from <= r.value < scope.end <= |message| && message[r.value].tag == tag
    ensures r.Some? ==> forall j :: from <= j < r.value ==> message[j].tag != tag
    ensures r.None? && scope.end <= |message| ==> forall j :: from <= j < scope.end ==> message[j].tag != tag
    decreases scope.end - from
  {
    if from >= scope.end || scope.end > |message| then None
    else if message[from].tag == tag then Some(from)
    else Find(message, scope, tag, from + 1)
  }
}
