/** When exactly how a log is cut into feeds makes a difference to what is read. */
module LogReaderLaws {
  import opened Wrappers
  import opened Bytes
  import opened Sequences
  import opened Tags
  import opened Tokenizer
  import opened TokenizerLaws
  import opened LogStart
  import opened LogEnd
  import opened LogWalkLaws
  import opened CaretA
  import opened LogReader

  /** The records read so far, and the reader's state. */
  datatype LogReading = LogReading(records: seq<LogRecord>, state: LogState)

  predicate Sound(s: LogState) {
    s.searched <= |s.buf|
  }

  function Fed(s: LogState, more: bytes): LogState {
    s.(buf := s.buf + more)
  }

  /** Reads every record there is before more bytes are needed. */
  function Drain(lengthTags: seq<Tag>, given: Option<byte>, r: LogReading): (d: LogReading)
    requires Sound(r.state)
    ensures Sound(d.state)
    decreases |r.state.buf|
  {
    StepConservesBytes(lengthTags, given, r.state, false);
    var step := ReadStep(lengthTags, given, r.state, false);
    match step.taken
    case None => LogReading(r.records, step.state)
    case Some(taken) => Drain(lengthTags, given, LogReading(r.records + [taken.record], step.state))
  }

  /** Feeds each chunk in turn, reading every record there is after each. */
  function ReadChunks(lengthTags: seq<Tag>, given: Option<byte>, r: LogReading, chunks: seq<bytes>): (d: LogReading)
    requires Sound(r.state)
    ensures Sound(d.state)
    decreases |chunks|
  {
    if chunks == [] then r
    else ReadChunks(lengthTags, given, Drain(lengthTags, given, LogReading(r.records, Fed(r.state, chunks[0]))), chunks[1..])
  }

  /** The message at the front of `s` hides a line break before `cut`, and ends there at it. */
  predicate MessageHidesBreak(lengthTags: seq<Tag>, given: Option<byte>, s: bytes, separator: byte, cut: nat)
    requires cut <= |s|
  {
    && Check(s[..cut], given) == IsStart(Byte(separator))
    && ByBodyLength(s[..cut], separator, false).NoEnd?
    && Opens(s, separator) && BreakHidden(lengthTags, s, separator, given, cut, 0, None)
  }

  /** The next message hides a line break before `cut`. */
  predicate NextHidesBreak(lengthTags: seq<Tag>, given: Option<byte>, s: LogState, cut: nat)
    requires Sound(s) && cut <= |s.buf|
  {
    var next := FindStart(s.buf, s.searched, |s.buf|, given, false);
    && next.Found? && next.start.separator.Byte? && next.start.at <= cut
    && MessageHidesBreak(lengthTags, given, s.buf[next.start.at..], next.start.separator.byte, cut - next.start.at)
  }

  function CutAt(s: LogState, cut: nat): LogState
    requires cut <= |s.buf|
  {
    s.(buf := s.buf[..cut])
  }

  /**
   * At `cut` the next message hides a line break, or its record can be read already and a message
   * after it hides one from there on.
   */
  predicate MattersAt(lengthTags: seq<Tag>, given: Option<byte>, s: LogState, cut: nat)
    requires Sound(s)
    decreases |s.buf|, 0
  {
    StepConservesBytes(lengthTags, given, s, false);
    var step := ReadStep(lengthTags, given, s, false);
    && s.searched <= cut <= |s.buf|
    && (|| NextHidesBreak(lengthTags, given, s, cut)
        || (&& step.taken.Some? && ReadStep(lengthTags, given, CutAt(s, cut), false).taken.Some?
            && |s.buf| - |step.state.buf| <= cut
            && FeedingMatters(lengthTags, given, step.state, cut - (|s.buf| - |step.state.buf|))))
  }

  /**
   * Some message of the log in `s`, of which `arrived` bytes have arrived, hides a line break
   * where the log can be cut with every message before it read.
   */
  predicate FeedingMatters(lengthTags: seq<Tag>, given: Option<byte>, s: LogState, arrived: nat)
    requires Sound(s)
    decreases |s.buf|, 1
  {
    exists cut :: arrived <= cut <= |s.buf| && MattersAt(lengthTags, given, s, cut)
  }

  /** The first line, once it is there, is the same with more bytes. */
  lemma FirstLineStays(s: bytes, more: bytes)
    requires FirstLine(s, false).Some?
    ensures FirstLine(s + more, false) == FirstLine(s, false)
  {
    var capped, later := s[..Min(|s|, MAX_MESSAGE_LEN)], (s + more)[..Min(|s + more|, MAX_MESSAGE_LEN)];
    assert capped == later[..|capped|];
    FindByteExtends(capped, later, LF, 0, |capped|, |later|);
    var found := FindByte(capped, LF, 0, |capped|);
    if found.Some? {
      assert later[..found.value] == capped[..found.value];
      if found.value > 0 { assert later[..found.value - 1] == capped[..found.value - 1]; }
    } else {
      assert |capped| == MAX_MESSAGE_LEN && capped == later;
    }
  }

  /** A message, once read, is read the same with more bytes, unless they hide a line break before them. */
  lemma MessageStays(lengthTags: seq<Tag>, given: Option<byte>, s: bytes, more: bytes, separator: Separator)
    requires Check(s, given) == IsStart(separator) && MessageAt(lengthTags, given, s, separator, false).Some?
    requires separator.Byte? ==> !MessageHidesBreak(lengthTags, given, s + more, separator.byte, |s|)
    ensures Check(s + more, given) == IsStart(separator)
    ensures MessageAt(lengthTags, given, s + more, separator, false) == MessageAt(lengthTags, given, s, separator, false)
  {
    hide Check, MessageAt, MessageHidesBreak;
    CheckStable(s, more, given);
    match separator
    case Byte(byte) => ByteMessageStays(lengthTags, given, s, more, byte);
    case CaretA => CopyStays(lengthTags, given, s, more);
  }

  lemma ByteMessageStays(lengthTags: seq<Tag>, given: Option<byte>, s: bytes, more: bytes, separator: byte)
    requires Check(s, given) == Check(s + more, given) == IsStart(Byte(separator))
    requires MessageAt(lengthTags, given, s, Byte(separator), false).Some?
    requires !MessageHidesBreak(lengthTags, given, s + more, separator, |s|)
    ensures MessageAt(lengthTags, given, s + more, Byte(separator), false) == MessageAt(lengthTags, given, s, Byte(separator), false)
  {
    hide Check, ByBodyLength, FindEnd, BreakHidden, Opens;
    assert (s + more)[..|s|] == s;
    EndsEarlyExactlyAtHiddenBreak(lengthTags, s, more, separator, given);
    EndsAreRight(lengthTags, s, separator, given, false);
    var end := FindEnd(lengthTags, s, separator, given, false).value;
    assert (s + more)[..end.len] == s[..end.len];
  }

  /** Where a message hides a line break, the bytes before it give one, and all of them none or a longer one. */
  lemma HiddenMessageIsShort(lengthTags: seq<Tag>, given: Option<byte>, s: bytes, more: bytes, separator: byte)
    requires MessageHidesBreak(lengthTags, given, s + more, separator, |s|)
    ensures Check(s, given) == Check(s + more, given) == IsStart(Byte(separator))
    ensures var early, whole := MessageAt(lengthTags, given, s, Byte(separator), false), MessageAt(lengthTags, given, s + more, Byte(separator), false);
            early.Some? && (whole.Some? ==> |early.value.bytes| < |whole.value.bytes|)
  {
    hide Check, ByBodyLength, FindEnd, BreakHidden, Opens;
    assert (s + more)[..|s|] == s;
    CheckStable(s, more, given);
    EndsEarlyExactlyAtHiddenBreak(lengthTags, s, more, separator, given);
    EndsAreRight(lengthTags, s, separator, given, false);
    EndsAreRight(lengthTags, s + more, separator, given, false);
  }

  lemma CopyStays(lengthTags: seq<Tag>, given: Option<byte>, s: bytes, more: bytes)
    requires Check(s, given) == Check(s + more, given) == IsStart(CaretA)
    requires MessageAt(lengthTags, given, s, CaretA, false).Some?
    ensures MessageAt(lengthTags, given, s + more, CaretA, false) == MessageAt(lengthTags, given, s, CaretA, false)
  {
    hide Check, FindEnd, FirstLine, Restored, TakenBy;
    FirstLineStays(s, more);
  }

  /** A step that takes a record found a start and a message there. */
  lemma TakenAt(lengthTags: seq<Tag>, given: Option<byte>, s: LogState)
    requires Sound(s) && ReadStep(lengthTags, given, s, false).taken.Some?
    ensures var next := FindStart(s.buf, s.searched, |s.buf|, given, false);
            && next.Found?
            && var message := MessageAt(lengthTags, given, s.buf[next.start.at..], next.start.separator, false);
            && message.Some?
            && ReadStep(lengthTags, given, s, false) == Take(lengthTags, s, next.start.at, message.value)
  {
    hide FindStart, MessageAt, Check, RightEnd, Take;
  }

  /** A start found with a message at it makes a step that takes it. */
  lemma TakesThere(lengthTags: seq<Tag>, given: Option<byte>, s: LogState, start: Start)
    requires Sound(s) && FindStart(s.buf, s.searched, |s.buf|, given, false) == Found(start)
    requires MessageAt(lengthTags, given, s.buf[start.at..], start.separator, false).Some?
    ensures var message := MessageAt(lengthTags, given, s.buf[start.at..], start.separator, false).value;
            ReadStep(lengthTags, given, s, false) == Take(lengthTags, s, start.at, message)
  {
    hide FindStart, MessageAt, Check, RightEnd, Take;
  }

  lemma NothingHiddenThere(lengthTags: seq<Tag>, given: Option<byte>, s: LogState, start: Start, cut: nat)
    requires Sound(s) && start.at <= cut <= |s.buf| && !NextHidesBreak(lengthTags, given, s, cut)
    requires FindStart(s.buf, s.searched, |s.buf|, given, false) == Found(start)
    ensures start.separator.Byte? ==>
              !MessageHidesBreak(lengthTags, given, s.buf[start.at..], start.separator.byte, cut - start.at)
  {
    hide FindStart, MessageHidesBreak, Check;
  }

  /**
   * A step that takes a record takes the same one with more bytes, and leaves the rest after it,
   * unless they hide a line break before them.
   */
  lemma TakingStays(lengthTags: seq<Tag>, given: Option<byte>, s: LogState, more: bytes)
    requires Sound(s) && ReadStep(lengthTags, given, s, false).taken.Some?
    requires !NextHidesBreak(lengthTags, given, Fed(s, more), |s.buf|)
    ensures var step, later := ReadStep(lengthTags, given, s, false), ReadStep(lengthTags, given, Fed(s, more), false);
            later.taken == step.taken && later.state == Fed(step.state, more)
  {
    hide ReadStep, MessageAt, Check, FindStart, MessageHidesBreak, NextHidesBreak, Take, RightEnd;
    TakenAt(lengthTags, given, s);
    FoundStays(s.buf, more, s.searched, given);
    var start := FindStart(s.buf, s.searched, |s.buf|, given, false).start;
    var rest := s.buf[start.at..];
    assert (s.buf + more)[start.at..] == rest + more;
    NothingHiddenThere(lengthTags, given, Fed(s, more), start, |s.buf|);
    MessageStays(lengthTags, given, rest, more, start.separator);
    TakesThere(lengthTags, given, Fed(s, more), start);
    TakeWithMore(lengthTags, s, more, start.at, MessageAt(lengthTags, given, rest, start.separator, false).value);
  }

  lemma TakeWithMore(lengthTags: seq<Tag>, s: LogState, more: bytes, reached: nat, message: FoundMessage)
    requires reached <= |s.buf| && RightEnd(s.buf[reached..], message.end) && |message.bytes| <= MAX_MESSAGE_LEN
    requires RightEnd((s.buf + more)[reached..], message.end)
    ensures var taken, later := Take(lengthTags, s, reached, message), Take(lengthTags, Fed(s, more), reached, message);
            later.taken == taken.taken && later.state == Fed(taken.state, more)
  {
    var excess, rest, all := Excess(reached), s.buf[reached..], s.buf + more;
    assert all[reached..] == rest + more;
    assert all[excess..reached] == s.buf[excess..reached];
    var end := message.end;
    hide RecordOf;
    assert (rest + more)[end.consumed..] == rest[end.consumed..] + more;
    assert (rest + more)[..end.len] == rest[..end.len];
    assert (rest + more)[end.len..end.consumed] == rest[end.len..end.consumed];
  }

  /** Whether the search from `s` with more bytes, and from where `s` had got to, find the same. */
  lemma SearchGoesOn(given: Option<byte>, s: LogState, more: bytes)
    requires Sound(s)
    ensures var reached := Reached(FindStart(s.buf, s.searched, |s.buf|, given, false), |s.buf|);
            var gone, all := Excess(reached), s.buf + more;
            && s.searched <= reached <= |s.buf|
            && all[gone..] == s.buf[gone..] + more
            && var next := FindStart(all, s.searched, |all|, given, false);
            && reached <= Reached(next, |all|) <= |all|
            && FindStart(all[gone..], reached - gone, |all| - gone, given, false) == Shifted(next, gone)
  {
    hide FindStart, Check;
    SearchResumes(s.buf, more, s.searched, given, false);
    var reached := Reached(FindStart(s.buf, s.searched, |s.buf|, given, false), |s.buf|);
    var gone, all := Excess(reached), s.buf + more;
    SearchIsWithin(all, reached, given, false);
    assert all[gone..] == s.buf[gone..] + more;
    if gone > 0 {
      SearchShifts(all, all[gone..], gone, reached, given, false);
    } else {
      assert all[0..] == all;
      ShiftedByNothing(FindStart(all, reached, |all|, given, false));
    }
  }

  lemma ShiftedByNothing(next: NextStart)
    ensures Shifted(next, 0) == next
  {
  }

  /** Dropping in two steps what is past the cap drops what one step drops. */
  lemma WaitInTwo(s: LogState, reached: nat, later: nat)
    requires reached <= later <= |s.buf|
    ensures var waited, gone := Wait(s, reached).state, Excess(reached);
            && gone <= later && later - gone <= |waited.buf|
            && Wait(waited, later - gone).state == Wait(s, later).state
            && Wait(waited, later - gone).taken == Wait(s, later).taken
  {
    assert s.buf[Excess(reached)..][Excess(later - Excess(reached))..] == s.buf[Excess(later)..];
  }

  lemma TakeInTwo(lengthTags: seq<Tag>, s: LogState, reached: nat, later: nat, message: FoundMessage)
    requires reached <= later <= |s.buf| && RightEnd(s.buf[later..], message.end) && |message.bytes| <= MAX_MESSAGE_LEN
    ensures var waited, gone := Wait(s, reached).state, Excess(reached);
            && gone <= later && later - gone <= |waited.buf| && waited.buf[later - gone..] == s.buf[later..]
            && Take(lengthTags, waited, later - gone, message).state == Take(lengthTags, s, later, message).state
            && Take(lengthTags, waited, later - gone, message).taken == Take(lengthTags, s, later, message).taken
  {
    hide RecordOf, RightEnd;
    var gone := Excess(reached);
    assert s.buf[gone..][later - gone..] == s.buf[later..];
    assert s.buf[gone..][Excess(later - gone)..later - gone] == s.buf[Excess(later)..later];
  }

  /** Without a start, or with one whose message has no end yet, a step waits. */
  lemma WaitsThere(lengthTags: seq<Tag>, given: Option<byte>, s: LogState)
    requires Sound(s)
    requires var next := FindStart(s.buf, s.searched, |s.buf|, given, false);
             next.Found? ==> MessageAt(lengthTags, given, s.buf[next.start.at..], next.start.separator, false).None?
    ensures var reached := Reached(FindStart(s.buf, s.searched, |s.buf|, given, false), |s.buf|);
            reached <= |s.buf| && ReadStep(lengthTags, given, s, false) == Wait(s, reached)
  {
    SearchIsWithin(s.buf, s.searched, given, false);
    hide FindStart, MessageAt, Check, Wait;
  }

  /** Searching on from `reached` after a wait finds the start that searching on without it finds. */
  ghost predicate SearchSkips(given: Option<byte>, s: LogState, reached: nat) {
    && s.searched <= reached <= |s.buf|
    && var next := FindStart(s.buf, s.searched, |s.buf|, given, false);
    && reached <= Reached(next, |s.buf|) <= |s.buf|
    && FindStart(s.buf[Excess(reached)..], reached - Excess(reached), |s.buf| - Excess(reached), given, false)
       == Shifted(next, Excess(reached))
  }

  lemma DroppedTwice(s: bytes, gone: nat, later: nat)
    requires gone <= later <= |s|
    ensures s[gone..][later - gone..] == s[later..]
  {
  }

  lemma SkipsTo(given: Option<byte>, s: LogState, reached: nat)
    requires SearchSkips(given, s, reached)
    ensures var waited, next := Wait(s, reached).state, FindStart(s.buf, s.searched, |s.buf|, given, false);
            && FindStart(waited.buf, waited.searched, |waited.buf|, given, false) == Shifted(next, Excess(reached))
            && Reached(next, |s.buf|) - Excess(reached) == Reached(Shifted(next, Excess(reached)), |waited.buf|)
            && waited.buf[Reached(next, |s.buf|) - Excess(reached)..] == s.buf[Reached(next, |s.buf|)..]
  {
    hide FindStart, Check;
    DroppedTwice(s.buf, Excess(reached), Reached(FindStart(s.buf, s.searched, |s.buf|, given, false), |s.buf|));
  }

  /** After a wait the next step finds the same message, and takes it or waits for it as it would have. */
  lemma SameStep(lengthTags: seq<Tag>, given: Option<byte>, s: LogState, reached: nat)
    requires Sound(s) && SearchSkips(given, s, reached)
    ensures var waited := Wait(s, reached).state;
            && ReadStep(lengthTags, given, waited, false).state == ReadStep(lengthTags, given, s, false).state
            && ReadStep(lengthTags, given, waited, false).taken == ReadStep(lengthTags, given, s, false).taken
  {
    hide ReadStep, FindStart, MessageAt, Check, RightEnd, Take, Wait, Excess;
    var next := FindStart(s.buf, s.searched, |s.buf|, given, false);
    if next.Found? && MessageAt(lengthTags, given, s.buf[next.start.at..], next.start.separator, false).Some? {
      SameTaking(lengthTags, given, s, reached);
    } else {
      SameWaiting(lengthTags, given, s, reached);
    }
  }

  lemma SameTaking(lengthTags: seq<Tag>, given: Option<byte>, s: LogState, reached: nat)
    requires Sound(s) && SearchSkips(given, s, reached)
    requires var next := FindStart(s.buf, s.searched, |s.buf|, given, false);
             next.Found? && MessageAt(lengthTags, given, s.buf[next.start.at..], next.start.separator, false).Some?
    ensures var waited := Wait(s, reached).state;
            && ReadStep(lengthTags, given, waited, false).state == ReadStep(lengthTags, given, s, false).state
            && ReadStep(lengthTags, given, waited, false).taken == ReadStep(lengthTags, given, s, false).taken
  {
    hide ReadStep, FindStart, MessageAt, Check, RightEnd, Take, Wait, Excess;
    SkipsTo(given, s, reached);
    var start := FindStart(s.buf, s.searched, |s.buf|, given, false).start;
    TakesThere(lengthTags, given, s, start);
    TakesThere(lengthTags, given, Wait(s, reached).state, Start(start.at - Excess(reached), start.separator));
    TakeInTwo(lengthTags, s, reached, start.at, MessageAt(lengthTags, given, s.buf[start.at..], start.separator, false).value);
  }

  lemma SameWaiting(lengthTags: seq<Tag>, given: Option<byte>, s: LogState, reached: nat)
    requires Sound(s) && SearchSkips(given, s, reached)
    requires var next := FindStart(s.buf, s.searched, |s.buf|, given, false);
             next.Found? ==> MessageAt(lengthTags, given, s.buf[next.start.at..], next.start.separator, false).None?
    ensures var waited := Wait(s, reached).state;
            && ReadStep(lengthTags, given, waited, false).state == ReadStep(lengthTags, given, s, false).state
            && ReadStep(lengthTags, given, waited, false).taken == ReadStep(lengthTags, given, s, false).taken
  {
    hide ReadStep, FindStart, MessageAt, Check, Wait, Excess;
    SkipsTo(given, s, reached);
    WaitsThere(lengthTags, given, s);
    WaitsThere(lengthTags, given, Wait(s, reached).state);
    WaitInTwo(s, reached, Reached(FindStart(s.buf, s.searched, |s.buf|, given, false), |s.buf|));
  }

  /** And it hides a line break or not, the same. */
  lemma SameHiding(lengthTags: seq<Tag>, given: Option<byte>, s: LogState, reached: nat, cut: nat)
    requires Sound(s) && SearchSkips(given, s, reached) && reached <= cut <= |s.buf|
    ensures var waited := Wait(s, reached).state;
            && Excess(reached) <= cut && cut - Excess(reached) <= |waited.buf|
            && (NextHidesBreak(lengthTags, given, waited, cut - Excess(reached)) <==> NextHidesBreak(lengthTags, given, s, cut))
  {
    hide FindStart, MessageHidesBreak, Check;
    SkipsTo(given, s, reached);
  }

  /** A step that waits makes no difference to what is read once more bytes are there. */
  lemma WaitingStays(lengthTags: seq<Tag>, given: Option<byte>, s: LogState, more: bytes)
    requires Sound(s) && ReadStep(lengthTags, given, s, false).taken.None?
    ensures var waited := Fed(ReadStep(lengthTags, given, s, false).state, more);
            var step, later := ReadStep(lengthTags, given, Fed(s, more), false), ReadStep(lengthTags, given, waited, false);
            later.state == step.state && later.taken == step.taken
  {
    hide ReadStep, FindStart, Check;
    SearchGoesOn(given, s, more);
    var reached := Reached(FindStart(s.buf, s.searched, |s.buf|, given, false), |s.buf|);
    WaitedAt(lengthTags, given, s, reached);
    assert Wait(Fed(s, more), reached).state == Fed(ReadStep(lengthTags, given, s, false).state, more);
    SameStep(lengthTags, given, Fed(s, more), reached);
  }

  /** Nor to where a line break is hidden from it. */
  lemma WaitingHides(lengthTags: seq<Tag>, given: Option<byte>, s: LogState, more: bytes, cut: nat)
    requires Sound(s) && ReadStep(lengthTags, given, s, false).taken.None? && |s.buf| <= cut <= |s.buf| + |more|
    ensures var waited := ReadStep(lengthTags, given, s, false).state;
            && |waited.buf| <= |s.buf|
            && (NextHidesBreak(lengthTags, given, Fed(waited, more), cut - (|s.buf| - |waited.buf|))
                <==> NextHidesBreak(lengthTags, given, Fed(s, more), cut))
  {
    hide ReadStep, FindStart, Check, NextHidesBreak;
    SearchGoesOn(given, s, more);
    var reached := Reached(FindStart(s.buf, s.searched, |s.buf|, given, false), |s.buf|);
    WaitedAt(lengthTags, given, s, reached);
    assert Wait(Fed(s, more), reached).state == Fed(ReadStep(lengthTags, given, s, false).state, more);
    SameHiding(lengthTags, given, Fed(s, more), reached, cut);
  }

  lemma WaitedAt(lengthTags: seq<Tag>, given: Option<byte>, s: LogState, reached: nat)
    requires Sound(s) && ReadStep(lengthTags, given, s, false).taken.None?
    requires reached == Reached(FindStart(s.buf, s.searched, |s.buf|, given, false), |s.buf|)
    ensures reached <= |s.buf| && ReadStep(lengthTags, given, s, false) == Wait(s, reached)
  {
    SearchIsWithin(s.buf, s.searched, given, false);
    hide FindStart, MessageAt, Check;
  }

  /** Fewer bytes having arrived, the log can be cut in more places. */
  lemma MattersEarlier(lengthTags: seq<Tag>, given: Option<byte>, s: LogState, arrived: nat, earlier: nat)
    requires Sound(s) && earlier <= arrived && FeedingMatters(lengthTags, given, s, arrived)
    ensures FeedingMatters(lengthTags, given, s, earlier)
  {
    hide MattersAt;
  }

  /** Where a step waits, feeding matters from there if it matters from the step. */
  lemma WaitingMatters(lengthTags: seq<Tag>, given: Option<byte>, s: LogState, more: bytes)
    requires Sound(s) && ReadStep(lengthTags, given, s, false).taken.None?
    requires var waited := ReadStep(lengthTags, given, s, false).state;
             FeedingMatters(lengthTags, given, Fed(waited, more), |waited.buf|)
    ensures FeedingMatters(lengthTags, given, Fed(s, more), |s.buf|)
  {
    hide ReadStep, MattersAt;
    var waited := ReadStep(lengthTags, given, s, false).state;
    var cut :| |waited.buf| <= cut <= |waited.buf| + |more| && MattersAt(lengthTags, given, Fed(waited, more), cut);
    WaitingHides(lengthTags, given, s, more, |s.buf|);
    WaitingMattersAt(lengthTags, given, s, more, cut + (|s.buf| - |waited.buf|));
  }

  lemma WaitingMattersAt(lengthTags: seq<Tag>, given: Option<byte>, s: LogState, more: bytes, cut: nat)
    requires Sound(s) && ReadStep(lengthTags, given, s, false).taken.None? && |s.buf| <= cut <= |s.buf| + |more|
    requires var waited := ReadStep(lengthTags, given, s, false).state;
             && |waited.buf| <= |s.buf|
             && MattersAt(lengthTags, given, Fed(waited, more), cut - (|s.buf| - |waited.buf|))
    ensures MattersAt(lengthTags, given, Fed(s, more), cut)
  {
    hide ReadStep, NextHidesBreak, FeedingMatters;
    var waited, part := ReadStep(lengthTags, given, s, false).state, more[..cut - |s.buf|];
    WaitingHides(lengthTags, given, s, more, cut);
    WaitingStays(lengthTags, given, s, more);
    WaitingStays(lengthTags, given, s, part);
    CutOfFed(s, more, cut);
    CutOfFed(waited, more, cut - (|s.buf| - |waited.buf|));
  }

  lemma CutOfFed(s: LogState, more: bytes, cut: nat)
    requires |s.buf| <= cut <= |s.buf| + |more|
    ensures CutAt(Fed(s, more), cut) == Fed(s, more[..cut - |s.buf|])
  {
  }

  /** Feeding that does not matter does not come to matter by a step. */
  lemma StepKeepsUnaffected(lengthTags: seq<Tag>, given: Option<byte>, s: LogState, more: bytes)
    requires Sound(s) && ReadStep(lengthTags, given, s, false).taken.Some?
    requires !FeedingMatters(lengthTags, given, Fed(s, more), |s.buf|)
    ensures var step, later := ReadStep(lengthTags, given, s, false), ReadStep(lengthTags, given, Fed(s, more), false);
            && later.taken == step.taken && later.state == Fed(step.state, more)
            && !FeedingMatters(lengthTags, given, Fed(step.state, more), |step.state.buf|)
  {
    hide ReadStep, NextHidesBreak;
    CutOfFed(s, more, |s.buf|);
    assert Fed(s, more[..0]) == s by { assert s.buf + [] == s.buf; }
    assert !MattersAt(lengthTags, given, Fed(s, more), |s.buf|);
    NotHiddenUnlessMatters(lengthTags, given, Fed(s, more), |s.buf|);
    TakingStays(lengthTags, given, s, more);
    StepConservesBytes(lengthTags, given, s, false);
  }

  lemma NotHiddenUnlessMatters(lengthTags: seq<Tag>, given: Option<byte>, s: LogState, cut: nat)
    requires Sound(s) && s.searched <= cut <= |s.buf| && !MattersAt(lengthTags, given, s, cut)
    ensures !NextHidesBreak(lengthTags, given, s, cut)
  {
    hide ReadStep, NextHidesBreak, FeedingMatters;
  }

  /** Reading early changes nothing that is read later, if feeding does not matter. */
  lemma {:induction false} DrainBeforeFeeding(lengthTags: seq<Tag>, given: Option<byte>, r: LogReading, more: bytes)
    requires Sound(r.state) && !FeedingMatters(lengthTags, given, Fed(r.state, more), |r.state.buf|)
    ensures var drained := Drain(lengthTags, given, r);
            && !FeedingMatters(lengthTags, given, Fed(drained.state, more), |drained.state.buf|)
            && Drain(lengthTags, given, LogReading(drained.records, Fed(drained.state, more)))
               == Drain(lengthTags, given, LogReading(r.records, Fed(r.state, more)))
    decreases |r.state.buf|
  {
    hide ReadStep, FeedingMatters;
    StepConservesBytes(lengthTags, given, r.state, false);
    var step := ReadStep(lengthTags, given, r.state, false);
    match step.taken
    case None =>
      WaitingStays(lengthTags, given, r.state, more);
      if FeedingMatters(lengthTags, given, Fed(step.state, more), |step.state.buf|) {
        WaitingMatters(lengthTags, given, r.state, more);
      }
    case Some(taken) =>
      StepKeepsUnaffected(lengthTags, given, r.state, more);
      DrainBeforeFeeding(lengthTags, given, LogReading(r.records + [taken.record], step.state), more);
  }

  /** Draining twice is draining once. */
  lemma {:induction false} DrainTwice(lengthTags: seq<Tag>, given: Option<byte>, r: LogReading)
    requires Sound(r.state)
    ensures Drain(lengthTags, given, Drain(lengthTags, given, r)) == Drain(lengthTags, given, r)
    decreases |r.state.buf|
  {
    hide ReadStep;
    StepConservesBytes(lengthTags, given, r.state, false);
    var step := ReadStep(lengthTags, given, r.state, false);
    match step.taken
    case None =>
      WaitingStays(lengthTags, given, r.state, []);
      assert r.state.buf + [] == r.state.buf && step.state.buf + [] == step.state.buf;
    case Some(taken) =>
      DrainTwice(lengthTags, given, LogReading(r.records + [taken.record], step.state));
  }

  /**
   * However a log is cut into feeds, reading all there is after each gives the records and the
   * state that feeding it whole gives, if feeding does not matter.
   */
  lemma {:induction false} ChunkingIsInvisible(lengthTags: seq<Tag>, given: Option<byte>, r: LogReading, chunks: seq<bytes>)
    requires Sound(r.state) && !FeedingMatters(lengthTags, given, Fed(r.state, Joined(chunks)), |r.state.buf|)
    ensures Drain(lengthTags, given, ReadChunks(lengthTags, given, r, chunks))
         == Drain(lengthTags, given, LogReading(r.records, Fed(r.state, Joined(chunks))))
    decreases |chunks|
  {
    hide Drain, FeedingMatters;
    if chunks == [] {
      assert r.state.buf + [] == r.state.buf;
    } else {
      var first, rest := LogReading(r.records, Fed(r.state, chunks[0])), Joined(chunks[1..]);
      Associates(r.state.buf, chunks[0], rest);
      if FeedingMatters(lengthTags, given, Fed(first.state, rest), |first.state.buf|) {
        MattersEarlier(lengthTags, given, Fed(first.state, rest), |first.state.buf|, |r.state.buf|);
      }
      DrainBeforeFeeding(lengthTags, given, first, rest);
      ChunkingIsInvisible(lengthTags, given, Drain(lengthTags, given, first), chunks[1..]);
    }
  }

  lemma {:induction false} ChunksEndDrained(lengthTags: seq<Tag>, given: Option<byte>, r: LogReading, chunks: seq<bytes>)
    requires Sound(r.state) && Drain(lengthTags, given, r) == r
    ensures Drain(lengthTags, given, ReadChunks(lengthTags, given, r, chunks)) == ReadChunks(lengthTags, given, r, chunks)
    decreases |chunks|
  {
    hide Drain;
    if chunks != [] {
      var first := LogReading(r.records, Fed(r.state, chunks[0]));
      DrainTwice(lengthTags, given, first);
      ChunksEndDrained(lengthTags, given, Drain(lengthTags, given, first), chunks[1..]);
    }
  }

  /** A whole log fed at once. */
  function Whole(log: bytes): LogReading {
    LogReading([], Fed(START, log))
  }

  lemma NothingToRead(lengthTags: seq<Tag>, given: Option<byte>)
    ensures Drain(lengthTags, given, LogReading([], START)) == LogReading([], START)
  {
  }

  lemma ChunksReadAsWhole(lengthTags: seq<Tag>, given: Option<byte>, chunks: seq<bytes>)
    requires !FeedingMatters(lengthTags, given, Whole(Joined(chunks)).state, 0)
    ensures ReadChunks(lengthTags, given, LogReading([], START), chunks) == Drain(lengthTags, given, Whole(Joined(chunks)))
  {
    hide Drain, FeedingMatters, ReadChunks;
    ChunkingIsInvisible(lengthTags, given, LogReading([], START), chunks);
    NothingToRead(lengthTags, given);
    ChunksEndDrained(lengthTags, given, LogReading([], START), chunks);
  }

  // Where feeding matters, some way of cutting the log gives other records.

  /** Reading only adds records. */
  lemma {:induction false} DrainKeepsRecords(lengthTags: seq<Tag>, given: Option<byte>, r: LogReading)
    requires Sound(r.state)
    ensures r.records <= Drain(lengthTags, given, r).records
    decreases |r.state.buf|
  {
    hide ReadStep;
    StepConservesBytes(lengthTags, given, r.state, false);
    var step := ReadStep(lengthTags, given, r.state, false);
    if step.taken.Some? {
      DrainKeepsRecords(lengthTags, given, LogReading(r.records + [step.taken.value.record], step.state));
    }
  }

  lemma DrainUnfolds(lengthTags: seq<Tag>, given: Option<byte>, r: LogReading)
    requires Sound(r.state)
    ensures var step := ReadStep(lengthTags, given, r.state, false);
            Drain(lengthTags, given, r) ==
            match step.taken
            case None => LogReading(r.records, step.state)
            case Some(taken) => Drain(lengthTags, given, LogReading(r.records + [taken.record], step.state))
  {
    hide ReadStep;
  }

  /** Before a line break, a search that finds a start with more bytes finds it without them. */
  lemma FoundBeforeBreak(s: bytes, more: bytes, from: nat, given: Option<byte>, j: nat)
    requires from <= |s| && j < |s| && s[j] == LF && given != Some(LF)
    requires var next := FindStart(s + more, from, |s + more|, given, false);
             next.Found? && next.start.at <= j && Check(s[next.start.at..], given) == IsStart(next.start.separator)
    ensures FindStart(s, from, |s|, given, false) == FindStart(s + more, from, |s + more|, given, false)
  {
    hide Check, FindStart;
    var start := FindStart(s + more, from, |s + more|, given, false).start;
    NothingBefore(s + more, from, |s + more|, given);
    SearchBeforeBreak(s, more, from, start.at, given, j);
    FoundIsEligible(s + more, from, |s + more|, given, false);
    SearchSplits(s, from, start.at, |s|, given);
    StartsHere(s, start.at, given, start.separator);
  }

  lemma {:induction false} NothingBefore(s: bytes, from: nat, until: nat, given: Option<byte>)
    requires until <= |s| && FindStart(s, from, until, given, false).Found?
    ensures FindStart(s, from, FindStart(s, from, until, given, false).start.at, given, false) == NoStart
    decreases until - from
  {
    hide Check, Eligible;
    if FindStart(s, from, until, given, false).start.at > from { NothingBefore(s, from + 1, until, given); }
  }

  lemma {:induction false} SearchSplits(s: bytes, from: nat, until: nat, later: nat, given: Option<byte>)
    requires from <= until <= later <= |s| && FindStart(s, from, until, given, false) == NoStart
    ensures FindStart(s, from, later, given, false) == FindStart(s, until, later, given, false)
    decreases until - from
  {
    hide Check, Eligible;
    if from < until { SearchSplits(s, from + 1, until, later, given); }
  }

  /** Where the next message hides a line break, its record is read early, and not with more bytes. */
  lemma HiddenIsReadEarly(lengthTags: seq<Tag>, given: Option<byte>, s: LogState, more: bytes)
    requires Sound(s) && NextHidesBreak(lengthTags, given, Fed(s, more), |s.buf|)
    ensures var early, whole := ReadStep(lengthTags, given, s, false), ReadStep(lengthTags, given, Fed(s, more), false);
            early.taken.Some? && (whole.taken.Some? ==> whole.taken.value.record != early.taken.value.record)
  {
    hide ReadStep, MessageAt, Check, FindStart, MessageHidesBreak, Take, RightEnd;
    var all := s.buf + more;
    var start := FindStart(all, s.searched, |all|, given, false).start;
    var rest := s.buf[start.at..];
    assert all[start.at..] == rest + more;
    HiddenMessageIsShort(lengthTags, given, rest, more, start.separator.byte);
    var j := HidesAhead(lengthTags, given, rest, more, start.separator.byte);
    FoundBeforeBreak(s.buf, more, s.searched, given, start.at + j);
    TakesThere(lengthTags, given, s, start);
    TakenHolds(lengthTags, s, start.at, MessageAt(lengthTags, given, rest, start.separator, false).value);
    if ReadStep(lengthTags, given, Fed(s, more), false).taken.Some? {
      TakenAt(lengthTags, given, Fed(s, more));
      TakenHolds(lengthTags, Fed(s, more), start.at, MessageAt(lengthTags, given, rest + more, start.separator, false).value);
    }
  }

  lemma HidesAhead(lengthTags: seq<Tag>, given: Option<byte>, s: bytes, more: bytes, separator: byte) returns (j: nat)
    requires MessageHidesBreak(lengthTags, given, s + more, separator, |s|)
    ensures j < |s| && s[j] == LF && given != Some(LF)
  {
    hide Check, ByBodyLength, BreakHidden, Opens;
    assert (s + more)[..|s|] == s;
    SeparatorIsGiven(s, given, separator);
    j := HiddenBreakIsAhead(lengthTags, s + more, separator, given, |s|, 0, None);
  }

  lemma TakenHolds(lengthTags: seq<Tag>, s: LogState, reached: nat, message: FoundMessage)
    requires reached <= |s.buf| && RightEnd(s.buf[reached..], message.end) && |message.bytes| <= MAX_MESSAGE_LEN
    ensures var taken := Take(lengthTags, s, reached, message).taken; taken.Some? && taken.value.record.message.bytes == message.bytes
  {
    hide RightEnd;
  }

  /** What a step takes is among the records read. */
  lemma TakenIsRead(lengthTags: seq<Tag>, given: Option<byte>, r: LogReading)
    requires Sound(r.state) && ReadStep(lengthTags, given, r.state, false).taken.Some?
    ensures r.records + [ReadStep(lengthTags, given, r.state, false).taken.value.record] <= Drain(lengthTags, given, r).records
  {
    hide ReadStep, Drain;
    var step := ReadStep(lengthTags, given, r.state, false);
    DrainUnfolds(lengthTags, given, r);
    DrainKeepsRecords(lengthTags, given, LogReading(r.records + [step.taken.value.record], step.state));
  }

  /** Where a step takes another record, or none, a record is not read. */
  lemma OtherIsNotRead(lengthTags: seq<Tag>, given: Option<byte>, r: LogReading, record: LogRecord)
    requires Sound(r.state)
    requires var step := ReadStep(lengthTags, given, r.state, false); step.taken.Some? ==> step.taken.value.record != record
    ensures !(r.records + [record] <= Drain(lengthTags, given, r).records)
  {
    hide ReadStep, Drain;
    DrainUnfolds(lengthTags, given, r);
    var step := ReadStep(lengthTags, given, r.state, false);
    if step.taken.Some? {
      TakenIsRead(lengthTags, given, r);
      OtherPrefix(r.records, record, step.taken.value.record, Drain(lengthTags, given, r).records);
    }
  }

  lemma OtherPrefix(before: seq<LogRecord>, one: LogRecord, other: LogRecord, all: seq<LogRecord>)
    requires one != other && before + [other] <= all
    ensures !(before + [one] <= all)
  {
    PrefixEnds(before, other, all);
    if before + [one] <= all { PrefixEnds(before, one, all); }
  }

  lemma PrefixEnds(before: seq<LogRecord>, one: LogRecord, all: seq<LogRecord>)
    requires before + [one] <= all
    ensures |before| < |all| && all[|before|] == one
  {
    assert (before + [one])[|before|] == one;
  }

  /** A way of cutting the rest of a log so that other records are read. */
  lemma {:induction false} TellingCut(lengthTags: seq<Tag>, given: Option<byte>, r: LogReading, more: bytes) returns (chunks: seq<bytes>)
    requires Sound(r.state) && FeedingMatters(lengthTags, given, Fed(r.state, more), |r.state.buf|)
    ensures Joined(chunks) == more
    ensures ReadChunks(lengthTags, given, Drain(lengthTags, given, r), chunks).records
         != Drain(lengthTags, given, LogReading(r.records, Fed(r.state, more))).records
    decreases |r.state.buf| + |more|, |more|
  {
    hide ReadStep, NextHidesBreak, Drain, ReadChunks, FeedingMatters;
    var n := |r.state.buf|;
    var step := ReadStep(lengthTags, given, r.state, false);
    if NextHidesBreak(lengthTags, given, Fed(r.state, more), n) {
      chunks := [more];
      JoinedOne(more);
      HiddenTells(lengthTags, given, r, more);
    } else if step.taken.Some? {
      StepConservesBytes(lengthTags, given, r.state, false);
      TakenMatters(lengthTags, given, r.state, more);
      var next := LogReading(r.records + [step.taken.value.record], step.state);
      DrainUnfolds(lengthTags, given, r);
      DrainUnfolds(lengthTags, given, LogReading(r.records, Fed(r.state, more)));
      chunks := TellingCut(lengthTags, given, next, more);
    } else {
      var cut := LaterCut(lengthTags, given, r.state, more);
      var part, rest := more[..cut - n], more[cut - n..];
      assert part + rest == more;
      Associates(r.state.buf, part, rest);
      var fed := LogReading(r.records, Fed(r.state, part));
      var others := TellingCut(lengthTags, given, fed, rest);
      chunks := [part] + others;
      JoinedThen(part, others);
      WaitThenFeed(lengthTags, given, r, part);
      ReadChunksThen(lengthTags, given, Drain(lengthTags, given, r), part, others);
    }
  }

  lemma ReadChunksThen(lengthTags: seq<Tag>, given: Option<byte>, r: LogReading, part: bytes, others: seq<bytes>)
    requires Sound(r.state)
    ensures ReadChunks(lengthTags, given, r, [part] + others)
         == ReadChunks(lengthTags, given, Drain(lengthTags, given, LogReading(r.records, Fed(r.state, part))), others)
  {
    hide Drain;
    assert ([part] + others)[1..] == others;
  }

  lemma HiddenTells(lengthTags: seq<Tag>, given: Option<byte>, r: LogReading, more: bytes)
    requires Sound(r.state) && NextHidesBreak(lengthTags, given, Fed(r.state, more), |r.state.buf|)
    ensures ReadChunks(lengthTags, given, Drain(lengthTags, given, r), [more]).records
         != Drain(lengthTags, given, LogReading(r.records, Fed(r.state, more))).records
  {
    hide ReadStep, NextHidesBreak, Drain;
    var drained := Drain(lengthTags, given, r);
    HiddenIsReadEarly(lengthTags, given, r.state, more);
    TakenIsRead(lengthTags, given, r);
    OtherIsNotRead(lengthTags, given, LogReading(r.records, Fed(r.state, more)), ReadStep(lengthTags, given, r.state, false).taken.value.record);
    assert [more] == [more] + [];
    ReadChunksThen(lengthTags, given, drained, more, []);
    DrainKeepsRecords(lengthTags, given, LogReading(drained.records, Fed(drained.state, more)));
  }

  /** Feeding that matters, past a record that can be read already. */
  lemma TakenMatters(lengthTags: seq<Tag>, given: Option<byte>, s: LogState, more: bytes)
    requires Sound(s) && ReadStep(lengthTags, given, s, false).taken.Some?
    requires !NextHidesBreak(lengthTags, given, Fed(s, more), |s.buf|)
    requires FeedingMatters(lengthTags, given, Fed(s, more), |s.buf|)
    ensures var step, later := ReadStep(lengthTags, given, s, false), ReadStep(lengthTags, given, Fed(s, more), false);
            && later.taken == step.taken && later.state == Fed(step.state, more)
            && FeedingMatters(lengthTags, given, Fed(step.state, more), |step.state.buf|)
  {
    hide ReadStep, NextHidesBreak;
    TakingStays(lengthTags, given, s, more);
    StepConservesBytes(lengthTags, given, s, false);
    var step := ReadStep(lengthTags, given, s, false);
    var cut :| |s.buf| <= cut <= |s.buf| + |more| && MattersAt(lengthTags, given, Fed(s, more), cut);
    NotHiddenLater(lengthTags, given, s, more, cut);
    MattersLater(lengthTags, given, Fed(s, more), cut);
    MattersEarlier(lengthTags, given, Fed(step.state, more), cut - (|s.buf| - |step.state.buf|), |step.state.buf|);
  }

  lemma MattersLater(lengthTags: seq<Tag>, given: Option<byte>, s: LogState, cut: nat)
    requires Sound(s) && MattersAt(lengthTags, given, s, cut) && cut <= |s.buf| && !NextHidesBreak(lengthTags, given, s, cut)
    ensures var step := ReadStep(lengthTags, given, s, false);
            && step.taken.Some? && ReadStep(lengthTags, given, CutAt(s, cut), false).taken.Some?
            && |step.state.buf| <= |s.buf| <= cut + |step.state.buf|
            && FeedingMatters(lengthTags, given, step.state, cut - (|s.buf| - |step.state.buf|))
  {
    hide ReadStep, NextHidesBreak, FeedingMatters;
    StepConservesBytes(lengthTags, given, s, false);
  }

  /** A record that can be read and hides no line break then hides none later. */
  lemma NotHiddenLater(lengthTags: seq<Tag>, given: Option<byte>, s: LogState, more: bytes, cut: nat)
    requires Sound(s) && ReadStep(lengthTags, given, s, false).taken.Some? && |s.buf| <= cut <= |s.buf| + |more|
    requires !NextHidesBreak(lengthTags, given, Fed(s, more), |s.buf|)
    ensures !NextHidesBreak(lengthTags, given, Fed(s, more), cut)
  {
    hide ReadStep, FindStart, MessageAt, Check, MessageHidesBreak, Take, RightEnd;
    TakenAt(lengthTags, given, s);
    FoundStays(s.buf, more, s.searched, given);
    var start := FindStart(s.buf, s.searched, |s.buf|, given, false).start;
    var rest := s.buf[start.at..];
    assert (s.buf + more)[start.at..] == rest + more;
    NothingHiddenThere(lengthTags, given, Fed(s, more), start, |s.buf|);
    MessageStays(lengthTags, given, rest, more, start.separator);
    if start.separator.Byte? {
      MessageNotHiddenLater(lengthTags, given, rest, more, start.separator.byte, cut - start.at);
    }
  }

  lemma MessageNotHiddenLater(lengthTags: seq<Tag>, given: Option<byte>, s: bytes, more: bytes, separator: byte, cut: nat)
    requires Check(s, given) == Check(s + more, given) == IsStart(Byte(separator)) && |s| <= cut <= |s| + |more|
    requires var message := MessageAt(lengthTags, given, s, Byte(separator), false);
             message.Some? && MessageAt(lengthTags, given, s + more, Byte(separator), false) == message
    ensures !MessageHidesBreak(lengthTags, given, s + more, separator, cut)
  {
    hide MessageAt, Check, MessageHidesBreak;
    var middle, rest := more[..cut - |s|], more[cut - |s|..];
    assert middle + rest == more;
    Associates(s, middle, rest);
    if MessageHidesBreak(lengthTags, given, s + more, separator, cut) {
      HiddenMessageIsShort(lengthTags, given, s + middle, rest, separator);
      if MessageHidesBreak(lengthTags, given, s + middle, separator, |s|) {
        HiddenMessageIsShort(lengthTags, given, s, middle, separator);
        assert false;
      } else {
        MessageStays(lengthTags, given, s, middle, Byte(separator));
        assert false;
      }
    }
  }

  /** Where the next record has to wait, feeding that matters does so at a later cut. */
  lemma LaterCut(lengthTags: seq<Tag>, given: Option<byte>, s: LogState, more: bytes) returns (cut: nat)
    requires Sound(s) && ReadStep(lengthTags, given, s, false).taken.None?
    requires !NextHidesBreak(lengthTags, given, Fed(s, more), |s.buf|)
    requires FeedingMatters(lengthTags, given, Fed(s, more), |s.buf|)
    ensures |s.buf| < cut <= |s.buf| + |more| && FeedingMatters(lengthTags, given, Fed(s, more), cut)
  {
    hide ReadStep, NextHidesBreak, MattersAt;
    cut :| |s.buf| <= cut <= |s.buf| + |more| && MattersAt(lengthTags, given, Fed(s, more), cut);
    CutOfFed(s, more, |s.buf|);
    assert Fed(s, more[..0]) == s by { assert s.buf + [] == s.buf; }
    if cut == |s.buf| {
      MattersLater(lengthTags, given, Fed(s, more), cut);
      assert false;
    }
  }

  lemma WaitThenFeed(lengthTags: seq<Tag>, given: Option<byte>, r: LogReading, part: bytes)
    requires Sound(r.state) && ReadStep(lengthTags, given, r.state, false).taken.None?
    ensures var drained := Drain(lengthTags, given, r);
            Drain(lengthTags, given, LogReading(drained.records, Fed(drained.state, part)))
            == Drain(lengthTags, given, LogReading(r.records, Fed(r.state, part)))
  {
    hide ReadStep, Drain;
    WaitingStays(lengthTags, given, r.state, part);
    DrainUnfolds(lengthTags, given, r);
    var drained := Drain(lengthTags, given, r);
    DrainUnfolds(lengthTags, given, LogReading(drained.records, Fed(drained.state, part)));
    DrainUnfolds(lengthTags, given, LogReading(r.records, Fed(r.state, part)));
  }

  /**
   * How a log is fed makes a difference to the records read while it is fed exactly when a message
   * of it hides a line break where the log can be cut with every message before it read.
   */
  lemma FeedingMattersExactly(lengthTags: seq<Tag>, given: Option<byte>, log: bytes)
    ensures FeedingMatters(lengthTags, given, Whole(log).state, 0) <==>
            exists chunks: seq<bytes> ::
              Joined(chunks) == log
              && ReadChunks(lengthTags, given, LogReading([], START), chunks).records != Drain(lengthTags, given, Whole(log)).records
  {
    hide Drain, FeedingMatters, ReadChunks;
    if FeedingMatters(lengthTags, given, Whole(log).state, 0) {
      var chunks := TellingCut(lengthTags, given, LogReading([], START), log);
      NothingToRead(lengthTags, given);
    } else {
      forall chunks: seq<bytes> | Joined(chunks) == log
        ensures ReadChunks(lengthTags, given, LogReading([], START), chunks) == Drain(lengthTags, given, Whole(log))
      {
        ChunksReadAsWhole(lengthTags, given, chunks);
      }
    }
  }

  /** With no length tags, feeding never matters. */
  lemma {:induction false} FeedingNeverMattersWithoutLengthTags(given: Option<byte>, s: LogState, arrived: nat)
    requires Sound(s)
    ensures !FeedingMatters([], given, s, arrived)
    decreases |s.buf|
  {
    hide ReadStep, NextHidesBreak;
    forall cut | arrived <= cut <= |s.buf| ensures !MattersAt([], given, s, cut) {
      NothingHiddenFromNext(given, s, cut);
      StepConservesBytes([], given, s, false);
      var step := ReadStep([], given, s, false);
      if step.taken.Some? && |s.buf| - |step.state.buf| <= cut {
        FeedingNeverMattersWithoutLengthTags(given, step.state, cut - (|s.buf| - |step.state.buf|));
      }
    }
  }

  lemma NothingHiddenFromNext(given: Option<byte>, s: LogState, cut: nat)
    requires Sound(s) && cut <= |s.buf|
    ensures !NextHidesBreak([], given, s, cut)
  {
    hide FindStart, Check, ByBodyLength, Opens, BreakHidden;
    var next := FindStart(s.buf, s.searched, |s.buf|, given, false);
    if next.Found? && next.start.separator.Byte? && next.start.at <= cut {
      var rest := s.buf[next.start.at..];
      if Opens(rest, next.start.separator.byte) {
        NothingHiddenWithoutLengthTags(rest, next.start.separator.byte, given, cut - next.start.at, 0);
      }
    }
  }

  /** All the records of a log: those read while it is fed, and those its end settles. */
  function AllRecords(lengthTags: seq<Tag>, given: Option<byte>, r: LogReading): seq<LogRecord>
    requires Sound(r.state)
  {
    r.records + Remaining(lengthTags, given, r.state)
  }

  /**
   * Reads a log fed in chunks to its end. If feeding does not matter, the records, with their
   * prefixes, messages and diagnostics, are those of the log fed whole.
   */
  method ReadLog(lengthTags: seq<Tag>, given: Option<byte>, chunks: seq<bytes>) returns (records: seq<LogRecord>)
    ensures records == AllRecords(lengthTags, given, ReadChunks(lengthTags, given, LogReading([], START), chunks))
    ensures !FeedingMatters(lengthTags, given, Whole(Joined(chunks)).state, 0) ==>
              records == AllRecords(lengthTags, given, Drain(lengthTags, given, Whole(Joined(chunks))))
  {
    var reader := new LogReader(lengthTags, given);
    records := [];
    for i := 0 to |chunks|
      invariant fresh(reader) && reader.Valid() && reader.lengthTags == lengthTags && reader.given == given
      invariant ReadChunks(lengthTags, given, LogReading(records, reader.State()), chunks[i..])
             == ReadChunks(lengthTags, given, LogReading([], START), chunks)
    {
      ghost var before := records;
      reader.Feed(chunks[i]);
      ghost var fed := LogReading(records, reader.State());
      records := DrainReader(reader, records);
      assert chunks[i..][1..] == chunks[i + 1..];
    }
    var rest := reader.Finish();
    records := records + rest;
    if !FeedingMatters(lengthTags, given, Whole(Joined(chunks)).state, 0) {
      ChunksReadAsWhole(lengthTags, given, chunks);
    }
  }

  /** Reads every record there is, after those read before. */
  method DrainReader(reader: LogReader, before: seq<LogRecord>) returns (records: seq<LogRecord>)
    requires reader.Valid()
    modifies reader`buf, reader`searched, reader`prefixTruncated, reader`released
    ensures reader.Valid() && reader.fed == old(reader.fed)
    ensures LogReading(records, reader.State()) == Drain(reader.lengthTags, reader.given, LogReading(before, old(reader.State())))
  {
    records := before;
    while true
      invariant reader.Valid() && reader.fed == old(reader.fed)
      invariant Drain(reader.lengthTags, reader.given, LogReading(records, reader.State()))
             == Drain(reader.lengthTags, reader.given, LogReading(before, old(reader.State())))
      decreases |reader.buf|
    {
      var record := reader.NextRecord();
      if record.None? {
        return;
      }
      records := records + [record.value];
    }
  }

  /** Whatever byte stands for SOH, the checksum counts it as SOH. */
  lemma {:induction false} RenamingKeepsChecksum(s: bytes, n: nat, separator: byte)
    requires n <= |s| && CanStandFor(s, separator)
    ensures CalculatedChecksum(Renamed(s, separator)[..n], separator) == CalculatedChecksum(s[..n], SOH)
  {
    if n > 0 {
      var t := Renamed(s, separator);
      assert s[..n][..n - 1] == s[..n - 1] && t[..n][..n - 1] == t[..n - 1];
      RenamingKeepsChecksum(s, n - 1, separator);
    }
  }

  /** Of a message separated by SOH, the log's checksum is the one the strict scanner verifies. */
  lemma {:induction false} SohChecksumIsStrict(s: bytes)
    ensures CalculatedChecksum(s, SOH) == WrappingSum(s)
  {
    if s != [] { SohChecksumIsStrict(s[..|s| - 1]); }
  }

  /**
   * Logging a message with another byte for SOH, one that is no digit nor `=` nor in the message,
   * changes none of its fields' extents and none of its diagnostics.
   */
  lemma RenamingKeepsDiagnostics(lengthTags: seq<Tag>, s: bytes, separator: byte, truncated: bool)
    requires |s| <= U32_MAX && CanStandFor(s, separator)
    ensures var fields := AllFields(lengthTags, s, SOH);
            && AllFields(lengthTags, Renamed(s, separator), separator) == fields
            && InOrder(s, fields)
            && Diagnosis(Renamed(s, separator), fields, separator, truncated) == Diagnosis(s, fields, SOH, truncated)
  {
    hide Fields;
    RenamingKeepsIndex(lengthTags, s, 0, None, separator);
    FieldsAreInOrder(lengthTags, s, 0, None, SOH);
    var fields := AllFields(lengthTags, s, SOH);
    RenamedDiagnosis(s, fields, separator, truncated);
  }

  lemma RenamedDiagnosis(s: bytes, fields: seq<RawField>, separator: byte, truncated: bool)
    requires CanStandFor(s, separator) && InOrder(s, fields)
    ensures Diagnosis(Renamed(s, separator), fields, separator, truncated) == Diagnosis(s, fields, SOH, truncated)
  {
    hide CalculatedChecksum, Renamed, CanStandFor, ParseU32;
    var t := Renamed(s, separator);
    if |fields| > 1 { RenamedNumber(s, fields[1].valueStart, fields[1].valueEnd, separator); }
    assert DeclaredLength(t, fields) == DeclaredLength(s, fields);
    assert HeaderDiagnostics(t, fields) == HeaderDiagnostics(s, fields);
    if fields != [] { RenamedTrailer(s, fields, separator); }
  }

  lemma RenamedTrailer(s: bytes, fields: seq<RawField>, separator: byte)
    requires CanStandFor(s, separator) && InOrder(s, fields) && fields != []
    requires DeclaredLength(Renamed(s, separator), fields) == DeclaredLength(s, fields)
    ensures TrailerDiagnostics(Renamed(s, separator), fields, separator) == TrailerDiagnostics(s, fields, SOH)
  {
    hide CalculatedChecksum, Renamed, CanStandFor, ParseU32, DeclaredLength;
    var last := fields[|fields| - 1];
    RenamedNumber(s, last.valueStart, last.valueEnd, separator);
    RenamedDigits(s, last.valueStart, last.valueEnd, separator);
    RenamingKeepsChecksum(s, TrailerStart(fields), separator);
  }

  lemma RenamedDigits(s: bytes, from: nat, until: nat, separator: byte)
    requires from <= until <= |s| && CanStandFor(s, separator)
    ensures AllDigits(Renamed(s, separator)[from..until]) == AllDigits(s[from..until])
  {
    var text, renamed := s[from..until], Renamed(s, separator)[from..until];
    forall i | 0 <= i < |text| ensures IsDigit(renamed[i]) == IsDigit(text[i]) {
    }
  }
}
