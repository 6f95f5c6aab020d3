/** What a log reader's records account for, over every run of feeding and reading. */
module LogRuns {
  import opened Wrappers
  import opened Bytes
  import opened Sequences
  import opened Tags
  import opened CaretA
  import opened LogReader

  datatype LogEvent = Feeding(bytes: bytes) | Reading(atEnd: bool)

  /** A reader's state after some events, and what each reading step gave. */
  datatype LogRun = LogRun(state: LogState, results: seq<ReadResult>)

  function RunOf(lengthTags: seq<Tag>, given: Option<byte>, events: seq<LogEvent>): (r: LogRun)
    ensures r.state.searched <= |r.state.buf|
  {
    if events == [] then LogRun(START, [])
    else
      var before := RunOf(lengthTags, given, events[..|events| - 1]);
      match events[|events| - 1]
      case Feeding(bytes) => before.(state := before.state.(buf := before.state.buf + bytes))
      case Reading(atEnd) =>
        var step := ReadStep(lengthTags, given, before.state, atEnd);
        LogRun(step.state, before.results + [step])
  }

  function FedIn(events: seq<LogEvent>): bytes {
    if events == [] then []
    else FedIn(events[..|events| - 1]) + match events[|events| - 1] case Feeding(bytes) => bytes case Reading(_) => []
  }

  /** What the steps dropped and gave out in records, in order. */
  function ReleasedIn(results: seq<ReadResult>): bytes {
    if results == [] then [] else ReleasedIn(results[..|results| - 1]) + Released(results[|results| - 1])
  }

  /** Whether bytes were dropped since the last record. */
  predicate DroppedSince(results: seq<ReadResult>) {
    results != []
    && results[|results| - 1].taken.None?
    && (results[|results| - 1].dropped != [] || DroppedSince(results[..|results| - 1]))
  }

  /** The record step `k` gave accounts for its bytes, and reports what was dropped before it. */
  predicate Faithful(results: seq<ReadResult>, k: nat)
    requires k < |results|
  {
    results[k].taken.Some? ==>
      var taken := results[k].taken.value;
      && |taken.record.prefix| <= MAX_PREFIX_LEN
      && (PrefixTruncated in taken.record.diagnostics <==> results[k].dropped != [] || DroppedSince(results[..k]))
      && (taken.record.message.bytes == taken.logged || taken.record.message.bytes == Restored(taken.logged))
      && (taken.lineBreak == [] || taken.lineBreak == [LF] || taken.lineBreak == [CR, LF])
  }

  /**
   * Over every run, the bytes dropped, then each record's prefix, logged message and line break
   * in order, and then the buffer, are the bytes fed. Prefixes stay within the cap, and a record
   * reports a truncated prefix exactly when bytes were dropped since the record before it.
   */
  lemma {:induction false} RunsConserveBytes(lengthTags: seq<Tag>, given: Option<byte>, events: seq<LogEvent>)
    ensures var run := RunOf(lengthTags, given, events);
            && ReleasedIn(run.results) + run.state.buf == FedIn(events)
            && run.state.prefixTruncated == DroppedSince(run.results)
            && forall k :: 0 <= k < |run.results| ==> Faithful(run.results, k)
  {
    hide ReadStep, Released, Faithful, ReleasedIn, FedIn, DroppedSince;
    if events == [] {
      NothingReleased();
    } else {
      var n := |events| - 1;
      RunsConserveBytes(lengthTags, given, events[..n]);
      var before := RunOf(lengthTags, given, events[..n]);
      FedOneMore(events);
      match events[n]
      case Feeding(bytes) =>
        Associates(ReleasedIn(before.results), before.state.buf, bytes);
      case Reading(atEnd) =>
        StepConservesBytes(lengthTags, given, before.state, atEnd);
        var step := ReadStep(lengthTags, given, before.state, atEnd);
        OneMoreReleased(before.results, step);
        Associates(ReleasedIn(before.results), Released(step), step.state.buf);
        StepIsFaithful(lengthTags, given, before, atEnd);
        forall k | 0 <= k < |before.results| ensures Faithful(before.results + [step], k) {
          StaysFaithful(before.results, step, k);
        }
    }
  }

  lemma NothingReleased()
    ensures ReleasedIn([]) == [] && FedIn([]) == [] && !DroppedSince([])
  {
  }

  lemma FedOneMore(events: seq<LogEvent>)
    requires events != []
    ensures FedIn(events) == match events[|events| - 1]
                             case Feeding(bytes) => FedIn(events[..|events| - 1]) + bytes
                             case Reading(_) => FedIn(events[..|events| - 1])
  {
  }

  lemma OneMoreReleased(results: seq<ReadResult>, step: ReadResult)
    ensures ReleasedIn(results + [step]) == ReleasedIn(results) + Released(step)
    ensures DroppedSince(results + [step]) <==> step.taken.None? && (step.dropped != [] || DroppedSince(results))
  {
    hide Released;
    assert (results + [step])[..|results|] == results;
  }

  lemma StepIsFaithful(lengthTags: seq<Tag>, given: Option<byte>, before: LogRun, atEnd: bool)
    requires before.state.searched <= |before.state.buf| && before.state.prefixTruncated == DroppedSince(before.results)
    ensures var step := ReadStep(lengthTags, given, before.state, atEnd);
            && step.state.prefixTruncated == DroppedSince(before.results + [step])
            && Faithful(before.results + [step], |before.results|)
  {
    hide ReadStep, DroppedSince, Restored;
    StepRecordsFaithfully(lengthTags, given, before.state, atEnd);
    var step := ReadStep(lengthTags, given, before.state, atEnd);
    OneMoreReleased(before.results, step);
    assert (before.results + [step])[..|before.results|] == before.results;
  }

  lemma StaysFaithful(results: seq<ReadResult>, step: ReadResult, k: nat)
    requires k < |results| && Faithful(results, k)
    ensures Faithful(results + [step], k)
  {
    hide DroppedSince, Restored;
    assert (results + [step])[..k] == results[..k];
  }
}
