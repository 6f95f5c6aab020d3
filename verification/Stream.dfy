/** Reading a stream of messages from bytes fed in any pieces. */
module Stream {
  import opened Wrappers
  import opened Bytes
  import opened Sequences
  import opened Tags
  import opened Framing
  import opened FramingLaws
  import FrameFormat
  import ScanVerdicts
  import opened Tokenizer

  /** One step of reading the stream. */
  datatype StreamOutcome =
    | Message(message: RawMessage)
    | GarbledBytes(reason: GarbledReason, bytes: bytes)
    | NeedMore

  /** What reading the front of `buf` yields, and what it leaves. */
  function NextOutcome(lengthTags: seq<Tag>, buf: bytes): (r: (StreamOutcome, bytes))
    ensures r.0.NeedMore? ==> r.1 == buf
    ensures !r.0.NeedMore? ==> |r.1| < |buf|
    ensures r.0.Message? ==> r.0.message.bytes + r.1 == buf
    ensures r.0.GarbledBytes? ==> r.0.bytes + r.1 == buf
  {
    ScanAdvances(buf, DEFAULT_MAX_FRAME_SIZE);
    OutcomeOf(lengthTags, buf, Scan(buf, DEFAULT_MAX_FRAME_SIZE))
  }

  /** The outcome of a scan of the buffer's front, and the bytes it leaves. */
  function OutcomeOf(lengthTags: seq<Tag>, buf: bytes, scan: Outcome): (r: (StreamOutcome, bytes))
    requires scan.Ok? ==> 0 < |scan.value.bytes| <= U32_MAX && scan.value.bytes <= buf
    requires scan.Err? && scan.error.Garbled? ==> 0 < scan.error.skipped <= |buf|
    ensures r.0.NeedMore? ==> r.1 == buf
    ensures !r.0.NeedMore? ==> |r.1| < |buf|
    ensures r.0.Message? ==> r.0.message.bytes + r.1 == buf
    ensures r.0.GarbledBytes? ==> r.0.bytes + r.1 == buf
  {
    match scan
    case Ok(frame) =>
      (Message(RawMessage(frame.bytes, AllFields(lengthTags, frame.bytes, SOH))), buf[|frame.bytes|..])
    case Err(Incomplete) => (NeedMore, buf)
    case Err(Garbled(reason, skipped)) => (GarbledBytes(reason, buf[..skipped]), buf[skipped..])
  }

  /**
   * The stream waits, yields garbled bytes for a reason, or yields a message with its index,
   * exactly when the buffer's front says so.
   */
  lemma OutcomesExactly(lengthTags: seq<Tag>, buf: bytes, reason: GarbledReason)
    ensures NextOutcome(lengthTags, buf).0 == NeedMore <==> ScanVerdicts.Waits(buf, DEFAULT_MAX_FRAME_SIZE)
    ensures NextOutcome(lengthTags, buf).0.GarbledBytes? && NextOutcome(lengthTags, buf).0.reason == reason
       <==> ScanVerdicts.Garbles(buf, DEFAULT_MAX_FRAME_SIZE, reason)
    ensures NextOutcome(lengthTags, buf).0.Message? <==>
            exists n, l :: 0 <= n <= |buf| && n <= DEFAULT_MAX_FRAME_SIZE && FrameFormat.WellFormed(buf[..n], l)
    ensures NextOutcome(lengthTags, buf).0.Message? ==>
              var message := NextOutcome(lengthTags, buf).0.message;
              |message.bytes| <= DEFAULT_MAX_FRAME_SIZE && message.fields == AllFields(lengthTags, message.bytes, SOH)
  {
    hide Scan, ScanVerdicts.Waits, ScanVerdicts.Garbles, FrameFormat.WellFormed;
    ScanAdvances(buf, DEFAULT_MAX_FRAME_SIZE);
    ScanVerdicts.VerdictsExactly(buf, DEFAULT_MAX_FRAME_SIZE, reason);
    FrameFormat.ScanAcceptsExactlyWellFormedFrames(buf, DEFAULT_MAX_FRAME_SIZE);
  }

  /** A message with the garbled bytes between the message before it and it, joined. */
  datatype Reading = Reading(garbledBefore: bytes, message: RawMessage)

  /** A stream partly read: its messages, the garbled bytes after the last, and the buffer. */
  datatype State = State(readings: seq<Reading>, garbled: bytes, buf: bytes)

  const START := State([], [], [])

  /** The state after one outcome. */
  function Advance(lengthTags: seq<Tag>, s: State): (r: State)
    ensures NextOutcome(lengthTags, s.buf).0.NeedMore? ==> r == s
    ensures !NextOutcome(lengthTags, s.buf).0.NeedMore? ==> |r.buf| < |s.buf|
  {
    match NextOutcome(lengthTags, s.buf)
    case (Message(message), rest) => State(s.readings + [Reading(s.garbled, message)], [], rest)
    case (GarbledBytes(_, bytes), rest) => State(s.readings, s.garbled + bytes, rest)
    case (NeedMore, _) => s
  }

  /** Reads until more bytes are needed. */
  function Drain(lengthTags: seq<Tag>, s: State): (r: State)
    ensures NextOutcome(lengthTags, r.buf).0.NeedMore?
    decreases |s.buf|
  {
    if NextOutcome(lengthTags, s.buf).0.NeedMore? then s else Drain(lengthTags, Advance(lengthTags, s))
  }

  function Fed(s: State, more: bytes): State {
    s.(buf := s.buf + more)
  }

  /** Feeds each chunk in turn, reading all there is to read after each. */
  function ReadChunks(lengthTags: seq<Tag>, s: State, chunks: seq<bytes>): (r: State)
    decreases |chunks|
  {
    if chunks == [] then s
    else ReadChunks(lengthTags, Drain(lengthTags, Fed(s, chunks[0])), chunks[1..])
  }

  lemma DrainPastGarbled(lengthTags: seq<Tag>, s: State, skipped: nat)
    requires skipped <= |s.buf| && Scan(s.buf, DEFAULT_MAX_FRAME_SIZE) == Err(Garbled(MissingBeginString, skipped))
    ensures Drain(lengthTags, s) == Drain(lengthTags, State(s.readings, s.garbled + s.buf[..skipped], s.buf[skipped..]))
  {
    hide Scan;
  }

  /** A resync that saw more bytes only takes steps the shorter one takes when it sees them. */
  lemma ResyncThenFeed(lengthTags: seq<Tag>, s: State, more: bytes, near: nat, far: nat)
    requires near <= far <= |s.buf + more| && near <= |s.buf|
    requires near < far ==> Scan((s.buf + more)[near..], DEFAULT_MAX_FRAME_SIZE) == Err(Garbled(MissingBeginString, far - near))
    ensures Drain(lengthTags, State(s.readings, s.garbled + (s.buf + more)[..far], (s.buf + more)[far..]))
         == Drain(lengthTags, State(s.readings, s.garbled + s.buf[..near], s.buf[near..] + more))
  {
    hide Scan, Drain;
    var all := s.buf + more;
    assert s.buf[near..] + more == all[near..];
    assert s.buf[..near] == all[..near];
    if near < far {
      DrainPastGarbled(lengthTags, State(s.readings, s.garbled + all[..near], all[near..]), far - near);
      assert s.garbled + all[..near] + all[near..][..far - near] == s.garbled + all[..far];
      assert all[near..][far - near..] == all[far..];
    }
  }

  /** A frame is read the same whatever has arrived after it. */
  lemma FrameThenFeed(lengthTags: seq<Tag>, s: State, more: bytes)
    requires Scan(s.buf, DEFAULT_MAX_FRAME_SIZE).Ok?
    ensures Drain(lengthTags, Fed(s, more)) == Drain(lengthTags, Fed(Advance(lengthTags, s), more))
  {
    ScanStable(s.buf, more, DEFAULT_MAX_FRAME_SIZE);
    ScanAdvances(s.buf, DEFAULT_MAX_FRAME_SIZE);
    hide Scan, Fields, AllFields;
    var n := |Scan(s.buf, DEFAULT_MAX_FRAME_SIZE).value.bytes|;
    assert s.buf[n..] + more == (s.buf + more)[n..];
  }

  /** Garbled bytes come to the same, however much of what follows had arrived. */
  lemma GarbleThenFeed(lengthTags: seq<Tag>, s: State, more: bytes)
    requires Scan(s.buf, DEFAULT_MAX_FRAME_SIZE).Err? && Scan(s.buf, DEFAULT_MAX_FRAME_SIZE).error.Garbled?
    ensures Drain(lengthTags, Fed(s, more)) == Drain(lengthTags, Fed(Advance(lengthTags, s), more))
  {
    ScanStable(s.buf, more, DEFAULT_MAX_FRAME_SIZE);
    ScanAdvances(s.buf, DEFAULT_MAX_FRAME_SIZE);
    ScanAdvances(s.buf + more, DEFAULT_MAX_FRAME_SIZE);
    var Garbled(reason, near) := Scan(s.buf, DEFAULT_MAX_FRAME_SIZE).error;
    if IsStructural(reason) {
      ResyncConfluent(s.buf, more, DEFAULT_MAX_FRAME_SIZE);
    }
    hide Scan, AllFields, FindNextBeginString;
    var far := Scan(s.buf + more, DEFAULT_MAX_FRAME_SIZE).error.skipped;
    ResyncThenFeed(lengthTags, s, more, near, far);
  }

  /** Draining early changes nothing that is read later. */
  lemma {:induction false} DrainBeforeFeeding(lengthTags: seq<Tag>, s: State, more: bytes)
    ensures Drain(lengthTags, Fed(Drain(lengthTags, s), more)) == Drain(lengthTags, Fed(s, more))
    decreases |s.buf|
  {
    if !NextOutcome(lengthTags, s.buf).0.NeedMore? {
      DrainBeforeFeeding(lengthTags, Advance(lengthTags, s), more);
      if Scan(s.buf, DEFAULT_MAX_FRAME_SIZE).Ok? {
        FrameThenFeed(lengthTags, s, more);
      } else {
        GarbleThenFeed(lengthTags, s, more);
      }
    }
  }

  /**
   * However a stream is cut into feeds, reading all there is after each gives the messages,
   * the joined garbled bytes between them and the buffer that feeding it whole gives.
   */
  lemma {:induction false} ChunkingIsInvisible(lengthTags: seq<Tag>, s: State, chunks: seq<bytes>)
    ensures Drain(lengthTags, ReadChunks(lengthTags, s, chunks)) == Drain(lengthTags, Fed(s, Joined(chunks)))
    decreases |chunks|
  {
    hide Drain, NextOutcome;
    if chunks == [] {
      assert s.buf + [] == s.buf;
    } else {
      var first := Fed(s, chunks[0]);
      ChunkingIsInvisible(lengthTags, Drain(lengthTags, first), chunks[1..]);
      DrainBeforeFeeding(lengthTags, first, Joined(chunks[1..]));
      assert first.buf + Joined(chunks[1..]) == s.buf + Joined(chunks);
    }
  }

  lemma {:induction false} DrainedStays(lengthTags: seq<Tag>, s: State, chunks: seq<bytes>)
    requires NextOutcome(lengthTags, s.buf).0.NeedMore?
    ensures NextOutcome(lengthTags, ReadChunks(lengthTags, s, chunks).buf).0.NeedMore?
    decreases |chunks|
  {
    if chunks != [] {
      DrainedStays(lengthTags, Drain(lengthTags, Fed(s, chunks[0])), chunks[1..]);
    }
  }

  /** The same from the start: a stream's chunks read as the stream. */
  lemma ChunksReadAsWhole(lengthTags: seq<Tag>, chunks: seq<bytes>)
    ensures ReadChunks(lengthTags, START, chunks) == Drain(lengthTags, State([], [], Joined(chunks)))
  {
    ChunkingIsInvisible(lengthTags, START, chunks);
    assert Fed(START, Joined(chunks)) == State([], [], Joined(chunks));
    DrainedStays(lengthTags, START, chunks);
  }

  /** A drained stream holds less than one frame of the largest size. */
  lemma DrainedBufferIsShort(lengthTags: seq<Tag>, s: State)
    ensures |Drain(lengthTags, s).buf| < DEFAULT_MAX_FRAME_SIZE
  {
    hide Scan, Drain;
    var buf := Drain(lengthTags, s).buf;
    ScanAdvances(buf, DEFAULT_MAX_FRAME_SIZE);
    ScanVerdicts.WaitsAreShort(buf, DEFAULT_MAX_FRAME_SIZE);
  }

  /** The bytes a state accounts for, in the order they came. */
  function Accounted(s: State): bytes {
    AllRead(s.readings) + s.garbled + s.buf
  }

  function AllRead(readings: seq<Reading>): bytes {
    if readings == [] then []
    else AllRead(readings[..|readings| - 1]) + readings[|readings| - 1].garbledBefore + readings[|readings| - 1].message.bytes
  }

  /** Reading neither loses, repeats nor reorders a byte. */
  lemma {:induction false} DrainConservesBytes(lengthTags: seq<Tag>, s: State)
    ensures Accounted(Drain(lengthTags, s)) == Accounted(s)
    decreases |s.buf|
  {
    if !NextOutcome(lengthTags, s.buf).0.NeedMore? {
      DrainConservesBytes(lengthTags, Advance(lengthTags, s));
      AdvanceConservesBytes(lengthTags, s);
    }
  }

  lemma AdvanceConservesBytes(lengthTags: seq<Tag>, s: State)
    ensures Accounted(Advance(lengthTags, s)) == Accounted(s)
  {
    var next := Advance(lengthTags, s);
    var (outcome, rest) := NextOutcome(lengthTags, s.buf);
    hide NextOutcome;
    match outcome
    case Message(message) =>
      assert next.readings[..|next.readings| - 1] == s.readings;
      assert Accounted(next) == AllRead(s.readings) + s.garbled + (message.bytes + rest);
    case GarbledBytes(_, bytes) =>
      assert Accounted(next) == AllRead(s.readings) + s.garbled + (bytes + rest);
    case NeedMore =>
  }

  /** Reads a stream of FIX messages from incrementally fed bytes. */
  class MessageStream {
    const lengthTags: seq<Tag>
    var buf: bytes

    constructor (lengthTags: seq<Tag>)
      ensures this.lengthTags == lengthTags && buf == []
    {
      this.lengthTags := lengthTags;
      buf := [];
    }

    /** Appends bytes to the stream's buffer. */
    method Feed(bytes: bytes)
      modifies this`buf
      ensures buf == old(buf) + bytes
    {
      buf := buf + bytes;
    }

    /** Consumes and returns the next outcome at the front of the buffer. */
    method NextMessage() returns (outcome: StreamOutcome)
      modifies this`buf
      ensures (outcome, buf) == NextOutcome(lengthTags, old(buf))
    {
      ScanAdvances(buf, DEFAULT_MAX_FRAME_SIZE);
      match Scan(buf, DEFAULT_MAX_FRAME_SIZE) {
        case Ok(frame) =>
          var bytes := buf[..|frame.bytes|];
          buf := buf[|frame.bytes|..];
          var fields := TokenizeFields(lengthTags, bytes, SOH);
          outcome := Message(RawMessage(bytes, fields));
        case Err(Incomplete) =>
          outcome := NeedMore;
        case Err(Garbled(reason, skipped)) =>
          outcome := GarbledBytes(reason, buf[..skipped]);
          buf := buf[skipped..];
      }
    }
  }

  /**
   * Drives a stream delivered in chunks, returning the messages with the garbled bytes
   * before each, the garbled bytes after the last, and the bytes left waiting. The chunks
   * leave no trace.
   */
  method Drive(lengthTags: seq<Tag>, chunks: seq<bytes>) returns (readings: seq<Reading>, garbled: bytes, left: bytes)
    ensures State(readings, garbled, left) == Drain(lengthTags, State([], [], Joined(chunks)))
    ensures AllRead(readings) + garbled + left == Joined(chunks)
  {
    var stream := new MessageStream(lengthTags);
    readings, garbled := [], [];
    for i := 0 to |chunks|
      invariant fresh(stream) && stream.lengthTags == lengthTags
      invariant ReadChunks(lengthTags, State(readings, garbled, stream.buf), chunks[i..]) == ReadChunks(lengthTags, START, chunks)
    {
      ghost var before := State(readings, garbled, stream.buf);
      stream.Feed(chunks[i]);
      ghost var fed := Fed(before, chunks[i]);
      while true
        invariant fresh(stream) && stream.lengthTags == lengthTags
        invariant Drain(lengthTags, State(readings, garbled, stream.buf)) == Drain(lengthTags, fed)
        decreases |stream.buf|
      {
        var outcome := stream.NextMessage();
        match outcome {
          case Message(message) =>
            readings := readings + [Reading(garbled, message)];
            garbled := [];
          case GarbledBytes(_, bytes) =>
            garbled := garbled + bytes;
          case NeedMore =>
            break;
        }
      }
      assert chunks[i..][1..] == chunks[i + 1..];
    }
    left := stream.buf;
    ChunksReadAsWhole(lengthTags, chunks);
    DrainConservesBytes(lengthTags, State([], [], Joined(chunks)));
  }
}
