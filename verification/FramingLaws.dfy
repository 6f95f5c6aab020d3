/**
 * Laws of the scanner: a verdict survives more bytes, resynchronising is confluent, and
 * the frames it accepts are exactly the ones the wire format describes.
 */
module FramingLaws {
  import opened Wrappers
  import opened Bytes
  import opened Framing

  /** `later` is the verdict `earlier` was, allowing for a resync that saw more bytes. */
  ghost predicate SameVerdict(earlier: Outcome, later: Outcome, buf: bytes, longer: bytes) {
    match earlier
    case Ok(frame) => later == Ok(frame)
    case Err(Incomplete) => true
    case Err(Garbled(reason, skipped)) =>
      if IsStructural(reason) then
        && !StartsWith(BEGIN_STRING_PREFIX, buf) && !StartsWith(BEGIN_STRING_PREFIX, longer)
        && skipped == FindNextBeginString(buf)
        && later == Err(Garbled(reason, FindNextBeginString(longer)))
      else later == Err(Garbled(reason, skipped))
  }

  lemma ParseBeginStringStable(buf: bytes, more: bytes)
    requires StartsWith(buf, BEGIN_STRING_PREFIX)
    ensures StartsWith(buf + more, BEGIN_STRING_PREFIX)
    ensures ParseBeginString(buf).Ok? ==> ParseBeginString(buf + more) == ParseBeginString(buf)
    ensures ParseBeginString(buf).Err? && ParseBeginString(buf).error.Garbled? ==>
              && !StartsWith(BEGIN_STRING_PREFIX, buf)
              && ParseBeginString(buf) == Err(StructuralGarble(MalformedBeginString, buf))
              && ParseBeginString(buf + more) == Err(StructuralGarble(MalformedBeginString, buf + more))
  {
    var longer := buf + more;
    assert longer[..5] == buf[..5];
    FindByteExtends(buf, longer, SOH, 2, Min(|buf|, MAX_BEGIN_STRING_LEN + 1), Min(|longer|, MAX_BEGIN_STRING_LEN + 1));
    match FindByte(buf, SOH, 2, Min(|buf|, MAX_BEGIN_STRING_LEN + 1))
    case Some(soh) => assert longer[2..soh] == buf[2..soh];
    case None =>
  }

  lemma ParseBodyLengthStable(buf: bytes, start: nat, more: bytes)
    requires |BEGIN_STRING_PREFIX| < start <= |buf|
    ensures ParseBodyLength(buf, start).Ok? ==> ParseBodyLength(buf + more, start) == ParseBodyLength(buf, start)
    ensures ParseBodyLength(buf, start).Err? && ParseBodyLength(buf, start).error.Garbled? ==>
              var reason := ParseBodyLength(buf, start).error.reason;
              && IsStructural(reason)
              && ParseBodyLength(buf, start) == Err(StructuralGarble(reason, buf))
              && ParseBodyLength(buf + more, start) == Err(StructuralGarble(reason, buf + more))
  {
    hide ParseUsize, FindNextBeginString;
    var longer := buf + more;
    if |buf| - start >= 2 {
      assert longer[start..start + 2] == buf[start..start + 2];
      var digitsStart := start + 2;
      FindByteExtends(buf, longer, SOH, digitsStart, Min(|buf|, digitsStart + MAX_BODY_LENGTH_DIGITS + 1), Min(|longer|, digitsStart + MAX_BODY_LENGTH_DIGITS + 1));
      match FindByte(buf, SOH, digitsStart, Min(|buf|, digitsStart + MAX_BODY_LENGTH_DIGITS + 1))
      case Some(soh) => assert longer[digitsStart..soh] == buf[digitsStart..soh];
      case None =>
    }
  }

  lemma ReadFrameStable(buf: bytes, more: bytes, beginString: BeginString, bodyStart: nat, bodyLength: nat, frameLen: nat)
    requires |BEGIN_STRING_PREFIX| < |buf|
    requires bodyStart + bodyLength + CHECKSUM_FIELD_LEN == frameLen <= |buf|
    ensures SameVerdict(ReadFrame(buf, beginString, bodyStart, bodyLength, frameLen),
                        ReadFrame(buf + more, beginString, bodyStart, bodyLength, frameLen), buf, buf + more)
  {
    var longer, at := buf + more, bodyStart + bodyLength;
    assert longer[at..at + 3] == buf[at..at + 3];
    assert longer[..frameLen] == buf[..frameLen];
  }

  lemma CouldBeginShrinksAtFront(s: bytes, more: bytes)
    requires CouldBegin(s + more)
    ensures CouldBegin(s)
  {
    var n := Min(|s|, 5);
    assert s[..n] == (s + more)[..n] == BEGIN_STRING_PREFIX[..n];
  }

  /** A position that could not begin a message cannot come to with more bytes. */
  lemma CouldBeginShrinks(buf: bytes, more: bytes, p: nat)
    requires p <= |buf| && CouldBegin((buf + more)[p..])
    ensures CouldBegin(buf[p..])
  {
    assert (buf + more)[p..] == buf[p..] + more;
    CouldBeginShrinksAtFront(buf[p..], more);
  }

  /** More bytes never change a frame or a garble, only how far a resync can see. */
  lemma ScanStable(buf: bytes, more: bytes, maxFrameSize: nat)
    ensures SameVerdict(Scan(buf, maxFrameSize), Scan(buf + more, maxFrameSize), buf, buf + more)
  {
    hide ParseBeginString, ParseBodyLength, ReadFrame, FindNextBeginString;
    var longer := buf + more;
    if !StartsWith(buf, BEGIN_STRING_PREFIX) {
      if !StartsWith(BEGIN_STRING_PREFIX, buf) {
        if CouldBegin(longer) { CouldBeginShrinksAtFront(buf, more); }
      }
    } else {
      ParseBeginStringStable(buf, more);
      if ParseBeginString(buf).Ok? {
        var (beginString, bodyLengthStart) := ParseBeginString(buf).value;
        ParseBodyLengthStable(buf, bodyLengthStart, more);
        if ParseBodyLength(buf, bodyLengthStart).Ok? {
          var (bodyLength, bodyStart) := ParseBodyLength(buf, bodyLengthStart).value;
          BodyLengthField(buf, bodyLengthStart);
          var frameLen := ValidatedFrameLen(buf, bodyStart, bodyLength, maxFrameSize);
          if frameLen.Ok? {
            ReadFrameStable(buf, more, beginString, bodyStart, bodyLength, frameLen.value);
          }
        }
      }
    }
  }

  /** Every outcome that is not Incomplete advances, and never past the buffer. */
  lemma ScanAdvances(buf: bytes, maxFrameSize: nat)
    ensures Scan(buf, maxFrameSize).Ok? ==>
              var frame := Scan(buf, maxFrameSize).value;
              0 < |frame.bytes| <= |buf| && |frame.bytes| <= maxFrameSize && frame.bytes == buf[..|frame.bytes|]
    ensures Scan(buf, maxFrameSize).Err? && Scan(buf, maxFrameSize).error.Garbled? ==>
              0 < Scan(buf, maxFrameSize).error.skipped <= |buf|
  {
    hide ParseBeginString, ParseBodyLength, ReadFrame, FindNextBeginString;
    if StartsWith(buf, BEGIN_STRING_PREFIX) {
      ParseBeginStringStable(buf, []);
      if ParseBeginString(buf).Ok? {
        var (beginString, start) := ParseBeginString(buf).value;
        ParseBodyLengthStable(buf, start, []);
        if ParseBodyLength(buf, start).Ok? {
          var (bodyLength, bodyStart) := ParseBodyLength(buf, start).value;
          BodyLengthField(buf, start);
          var frameLen := ValidatedFrameLen(buf, bodyStart, bodyLength, maxFrameSize);
          if frameLen.Ok? { ReadFrameAdvances(buf, beginString, bodyStart, bodyLength, frameLen.value); }
        }
      }
    }
  }

  lemma ReadFrameAdvances(buf: bytes, beginString: BeginString, bodyStart: nat, bodyLength: nat, frameLen: nat)
    requires !StartsWith(BEGIN_STRING_PREFIX, buf)
    requires bodyStart + bodyLength + CHECKSUM_FIELD_LEN == frameLen <= |buf|
    ensures match ReadFrame(buf, beginString, bodyStart, bodyLength, frameLen)
            case Ok(frame) => frame.bytes == buf[..frameLen]
            case Err(Incomplete) => false
            case Err(Garbled(_, skipped)) => 0 < skipped <= |buf|
  {
    hide VerifyChecksum, ParseMsgType, TrailerStartsAt, FindNextBeginString;
  }

  /**
   * Resynchronising is confluent: the skip over a longer buffer is the shorter buffer's
   * skip, and then, if it goes further, one more skip from where that one landed.
   */
  lemma ResyncConfluent(buf: bytes, more: bytes, maxFrameSize: nat)
    requires !StartsWith(BEGIN_STRING_PREFIX, buf) && !StartsWith(BEGIN_STRING_PREFIX, buf + more)
    ensures var near, far := FindNextBeginString(buf), FindNextBeginString(buf + more);
            && near <= far
            && (near < far ==> Scan((buf + more)[near..], maxFrameSize) == Err(Garbled(MissingBeginString, far - near)))
  {
    var longer := buf + more;
    var near, far := FindNextBeginString(buf), FindNextBeginString(longer);
    if far < near {
      CouldBeginShrinks(buf, more, far);
    }
    if near < far {
      LeastLaterCandidate(longer, near, far);
    }
  }

  /** From a dead position before the next candidate, the next candidate is still that one. */
  lemma LeastLaterCandidate(buf: bytes, near: nat, far: nat)
    requires near < far <= |buf| && CouldBegin(buf[far..])
    requires forall p :: near <= p < far ==> !CouldBegin(buf[p..])
    ensures !CouldBegin(buf[near..]) && FindNextBeginString(buf[near..]) == far - near
  {
    var rest := buf[near..];
    var skip := FindNextBeginString(rest);
    assert rest[skip..] == buf[near + skip..];
    assert rest[far - near..] == buf[far..];
  }

  /** Every proper prefix of an accepted frame waits for more bytes. */
  lemma ProperPrefixIncomplete(buf: bytes, n: nat, maxFrameSize: nat)
    requires Scan(buf, maxFrameSize).Ok? && n < |Scan(buf, maxFrameSize).value.bytes|
    ensures n <= |buf| && Scan(buf[..n], maxFrameSize) == Err(Incomplete)
  {
    hide Scan;
    ScanAdvances(buf, maxFrameSize);
    ScanAdvances(buf[..n], maxFrameSize);
    ScanStable(buf[..n], buf[n..], maxFrameSize);
    assert buf[..n] + buf[n..] == buf;
  }
}
