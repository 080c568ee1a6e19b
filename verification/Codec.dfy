// Length-prefixed frames: a little-endian u32 length, then that many bytes of one serialized
// envelope. A reader that meets an oversized or undecodable frame recovers at the next one.

module Codec {
  import opened Wrappers
  import opened Bytes

  const MAX_REQUEST_BYTES := 0x10_0000
  const SKIP_CHUNK := 8192

  /** The serializer, which can refuse a value, and its partial inverse. */
  datatype Wire<!T> = Wire(serialize: T -> Option<seq<Byte>>, deserialize: seq<Byte> -> Option<T>)

  ghost predicate InversePair<T(!new)>(w: Wire<T>) {
    forall t: T :: w.serialize(t).Some? ==> w.deserialize(w.serialize(t).value) == Some(t)
  }

  datatype FrameError =
    | TruncatedPrefix
    | TruncatedBody
    | SkipFailed
    | DecodeFailed
    | SerializeFailed
    | RequestTooLarge(bytes: nat, limit: nat)

  predicate EndsStream(e: FrameError) {
    e.TruncatedPrefix? || e.TruncatedBody? || e.SkipFailed?
  }

  /** One frame off the front: what it decodes to, and the bytes behind it. */
  function ReadFrame<T>(w: Wire<T>, bytes: seq<Byte>): (Result<T, FrameError>, seq<Byte>) {
    if |bytes| < 4 then (Err(TruncatedPrefix), [])
    else
      var len := FromLittleEndian(bytes[..4]);
      var body := bytes[4..];
      if |body| < len then (Err(if len > MAX_REQUEST_BYTES then SkipFailed else TruncatedBody), [])
      else
        var outcome :=
          if len > MAX_REQUEST_BYTES then Err(RequestTooLarge(len, MAX_REQUEST_BYTES))
          else match w.deserialize(body[..len])
            case None => Err(DecodeFailed)
            case Some(value) => Ok(value);
        (outcome, body[len..])
  }

  function ReadStream<T>(w: Wire<T>, bytes: seq<Byte>): (seq<Result<T, FrameError>>, FrameError)
    decreases |bytes|
  {
    var (r, rest) := ReadFrame(w, bytes);
    if r.Err? && EndsStream(r.error) then ([], r.error)
    else
      var (more, last) := ReadStream(w, rest);
      ([r] + more, last)
  }

  lemma StreamStep<T>(w: Wire<T>, bytes: seq<Byte>, sofar: seq<Result<T, FrameError>>)
    ensures var (r, rest) := ReadFrame(w, bytes);
      if r.Err? && EndsStream(r.error)
      then sofar + ReadStream(w, bytes).0 == sofar && ReadStream(w, bytes).1 == r.error
      else sofar + ReadStream(w, bytes).0 == sofar + [r] + ReadStream(w, rest).0 && ReadStream(w, bytes).1 == ReadStream(w, rest).1
  {
    hide ReadFrame;
    var (r, rest) := ReadFrame(w, bytes);
    if r.Err? && EndsStream(r.error) {
      assert ReadStream(w, bytes) == ([], r.error);
    } else {
      var more := ReadStream(w, rest).0;
      assert ReadStream(w, bytes).0 == [r] + more;
      assert sofar + ([r] + more) == sofar + [r] + more;
    }
  }

  class Reader {
    var rest: seq<Byte>

    constructor (bytes: seq<Byte>)
      ensures rest == bytes
    {
      rest := bytes;
    }

    /** Exactly `n` bytes, or nothing when the stream ends first. */
    method ReadExact(n: nat) returns (r: Option<seq<Byte>>)
      modifies this
      ensures |old(rest)| >= n ==> r == Some(old(rest)[..n]) && rest == old(rest)[n..]
      ensures |old(rest)| < n ==> r == None && rest == []
    {
      if |rest| < n {
        rest := [];
        return None;
      }
      r := Some(rest[..n]);
      rest := rest[n..];
    }

    /** Skips a declared body through a small buffer. */
    method SkipOversizedBody(bytes: nat) returns (ok: bool)
      modifies this
      ensures ok <==> |old(rest)| >= bytes
      ensures rest == if ok then old(rest)[bytes..] else []
    {
      var remaining := bytes;
      while remaining > 0
        invariant 0 <= remaining <= bytes && bytes - remaining <= |old(rest)|
        invariant rest == old(rest)[bytes - remaining..]
      {
        var n := if remaining < SKIP_CHUNK then remaining else SKIP_CHUNK;
        var read := ReadExact(n);
        if read.None? {
          return false;
        }
        remaining := remaining - n;
      }
      return true;
    }

    method DecodeOneRecovering<T>(w: Wire<T>) returns (r: Result<T, FrameError>)
      modifies this
      ensures (r, rest) == ReadFrame(w, old(rest))
    {
      var prefix := ReadExact(4);
      if prefix.None? {
        return Err(TruncatedPrefix);
      }
      var len := FromLittleEndian(prefix.value);
      if len > MAX_REQUEST_BYTES {
        var skipped := SkipOversizedBody(len);
        if !skipped {
          return Err(SkipFailed);
        }
        return Err(RequestTooLarge(len, MAX_REQUEST_BYTES));
      }
      var payload := ReadExact(len);
      if payload.None? {
        return Err(TruncatedBody);
      }
      var value := w.deserialize(payload.value);
      if value.None? {
        return Err(DecodeFailed);
      }
      return Ok(value.value);
    }

    /** Reads frames until the stream ends in the middle of one. */
    method DecodeStream<T>(w: Wire<T>) returns (outcomes: seq<Result<T, FrameError>>, last: FrameError)
      modifies this
      ensures (outcomes, last) == ReadStream(w, old(rest)) && rest == []
    {
      outcomes := [];
      last := TruncatedPrefix;
      var reading := true;
      assert [] + ReadStream(w, rest).0 == ReadStream(w, rest).0;
      while reading
        invariant reading ==> ReadStream(w, old(rest)) == (outcomes + ReadStream(w, rest).0, ReadStream(w, rest).1)
        invariant !reading ==> ReadStream(w, old(rest)) == (outcomes, last) && rest == []
        decreases |rest|, reading
      {
        ghost var before := rest;
        var r := DecodeOneRecovering(w);
        StreamStep(w, before, outcomes);
        if r.Err? && EndsStream(r.error) {
          last := r.error;
          reading := false;
        } else {
          outcomes := outcomes + [r];
        }
      }
    }
  }

  function Encode<T>(w: Wire<T>, value: T): Result<seq<Byte>, FrameError> {
    match w.serialize(value)
    case None => Err(SerializeFailed)
    case Some(payload) =>
      if |payload| > MAX_REQUEST_BYTES then Err(RequestTooLarge(|payload|, MAX_REQUEST_BYTES))
      else Ok(ToLittleEndian(|payload|) + payload)
  }

  // ---------- What was sent, and what is read back ----------

  datatype Sent<T> = Good(value: T) | Oversized(body: seq<Byte>) | Undecodable(body: seq<Byte>)

  ghost predicate Sendable<T>(w: Wire<T>, f: Sent<T>) {
    match f
    case Good(value) => Encode(w, value).Ok?
    case Oversized(body) => MAX_REQUEST_BYTES < |body| < U32_LIMIT
    case Undecodable(body) => |body| <= MAX_REQUEST_BYTES && w.deserialize(body).None?
  }

  function BytesOf<T>(w: Wire<T>, f: Sent<T>): seq<Byte> {
    match f
    case Good(value) => if Encode(w, value).Ok? then Encode(w, value).value else []
    case Oversized(body) => if |body| < U32_LIMIT then ToLittleEndian(|body|) + body else []
    case Undecodable(body) => if |body| < U32_LIMIT then ToLittleEndian(|body|) + body else []
  }

  function OutcomeOf<T>(f: Sent<T>): Result<T, FrameError> {
    match f
    case Good(value) => Ok(value)
    case Oversized(body) => Err(RequestTooLarge(|body|, MAX_REQUEST_BYTES))
    case Undecodable(body) => Err(DecodeFailed)
  }

  function AllBytes<T>(w: Wire<T>, frames: seq<Sent<T>>): seq<Byte> {
    if frames == [] then [] else BytesOf(w, frames[0]) + AllBytes(w, frames[1..])
  }

  function AllOutcomes<T>(frames: seq<Sent<T>>): seq<Result<T, FrameError>> {
    if frames == [] then [] else [OutcomeOf(frames[0])] + AllOutcomes(frames[1..])
  }

  /** The stream stops in the middle of a frame (or cleanly between two). */
  predicate CutShort(tail: seq<Byte>) {
    |tail| < 4 || |tail| - 4 < FromLittleEndian(tail[..4])
  }

  lemma PrefixRead(len: nat, body: seq<Byte>, tail: seq<Byte>)
    requires len < U32_LIMIT && |body| == len
    ensures var bytes := ToLittleEndian(len) + body + tail;
      FromLittleEndian(bytes[..4]) == len && bytes[4..][..len] == body && bytes[4..][len..] == tail
  {
    LengthRoundTrip(len);
    assert (ToLittleEndian(len) + body + tail)[..4] == ToLittleEndian(len);
    assert (ToLittleEndian(len) + body + tail)[4..] == body + tail;
  }

  lemma Inverts<T(!new)>(w: Wire<T>, t: T)
    requires InversePair(w) && w.serialize(t).Some?
    ensures w.deserialize(w.serialize(t).value) == Some(t)
  {
  }

  /** One frame is read back as what it was, and the reader stands at the next frame. */
  lemma FrameRoundTrip<T(!new)>(w: Wire<T>, f: Sent<T>, tail: seq<Byte>)
    requires InversePair(w) && Sendable(w, f)
    ensures ReadFrame(w, BytesOf(w, f) + tail) == (OutcomeOf(f), tail)
  {
    hide InversePair, ToLittleEndian, FromLittleEndian;
    match f
    case Good(value) =>
      var payload := w.serialize(value).value;
      PrefixRead(|payload|, payload, tail);
      Inverts(w, value);
    case Oversized(body) => PrefixRead(|body|, body, tail);
    case Undecodable(body) => PrefixRead(|body|, body, tail);
  }

  lemma TailEnds<T>(w: Wire<T>, tail: seq<Byte>)
    requires CutShort(tail)
    ensures ReadFrame(w, tail).0.Err? && EndsStream(ReadFrame(w, tail).0.error)
    ensures ReadStream(w, tail).0 == []
  {
  }

  /** Any mixture of good, oversized and undecodable frames yields one outcome per frame, in
      order, whatever cut-off tail follows. */
  lemma {:induction false} StreamRoundTrip<T(!new)>(w: Wire<T>, frames: seq<Sent<T>>, tail: seq<Byte>)
    requires InversePair(w) && CutShort(tail)
    requires forall f | f in frames :: Sendable(w, f)
    ensures ReadStream(w, AllBytes(w, frames) + tail).0 == AllOutcomes(frames)
    decreases |frames|
  {
    hide InversePair, Sendable, BytesOf, CutShort;
    if frames == [] {
      TailEnds(w, tail);
      assert AllBytes(w, frames) + tail == tail;
    } else {
      var behind := AllBytes(w, frames[1..]) + tail;
      assert frames[0] in frames;
      FrameRoundTrip(w, frames[0], behind);
      assert AllBytes(w, frames) + tail == BytesOf(w, frames[0]) + behind;
      StreamRoundTrip(w, frames[1..], tail);
    }
  }

  lemma Front<T>(w: Wire<T>, bytes: seq<Byte>) returns (body: seq<Byte>, rest: seq<Byte>)
    requires !CutShort(bytes)
    ensures |body| < U32_LIMIT && bytes == ToLittleEndian(|body|) + body + rest && |rest| < |bytes|
    ensures |ReadStream(w, bytes).0| == 1 + |ReadStream(w, rest).0|
  {
    var len := FromLittleEndian(bytes[..4]);
    body, rest := bytes[4..][..len], bytes[4..][len..];
    LengthRoundTripBack(bytes[..4]);
    assert bytes == bytes[..4] + body + rest;
  }

  function Framed(bodies: seq<seq<Byte>>): seq<Byte> {
    if bodies == [] then []
    else
      var len := |bodies[0]|;
      (if len < U32_LIMIT then ToLittleEndian(len) else []) + bodies[0] + Framed(bodies[1..])
  }

  /** Every byte string is such a mixture with such a tail, so nothing else can be received. */
  lemma {:induction false} EveryStreamIsFrames<T>(w: Wire<T>, bytes: seq<Byte>) returns (bodies: seq<seq<Byte>>, tail: seq<Byte>)
    ensures bytes == Framed(bodies) + tail && CutShort(tail)
    ensures forall b | b in bodies :: |b| < U32_LIMIT
    ensures |ReadStream(w, bytes).0| == |bodies|
    decreases |bytes|
  {
    hide ReadStream, ReadFrame, FromLittleEndian, ToLittleEndian;
    if CutShort(bytes) {
      TailEnds(w, bytes);
      return [], bytes;
    }
    var body, rest := Front(w, bytes);
    var more, t := EveryStreamIsFrames(w, rest);
    bodies, tail := [body] + more, t;
    assert bodies[1..] == more;
    assert Framed(bodies) + tail == ToLittleEndian(|body|) + body + (Framed(more) + tail);
  }

  /** Two frames that encode to the same bytes carry the same value, and no frame is the
      beginning of another: a receiver never has to guess. */
  lemma EncodingUnambiguous<T(!new)>(w: Wire<T>, a: T, b: T, tail: seq<Byte>)
    requires InversePair(w) && Encode(w, a).Ok? && Encode(w, b).Ok?
    requires Encode(w, a).value + tail == Encode(w, b).value
    ensures a == b && tail == []
  {
    hide InversePair, ReadFrame, Encode;
    var fa: Sent<T>, fb: Sent<T> := Good(a), Good(b);
    FrameRoundTrip(w, fa, tail);
    FrameRoundTrip(w, fb, []);
    assert Encode(w, b).value + [] == Encode(w, b).value;
  }
}
