// The client's end of a connection. It numbers its requests and reads frames in order, so a
// response under another id can only be a frame some earlier call left unread.

module Client {
  import opened Wrappers
  import opened Codec
  import opened Connection

  datatype ClientError =
    | CannotEncode(cause: FrameError)
    | Closed
    | IdMismatch(sent: nat, got: nat)
    | Refused(error: DaemonError)

  datatype Call = Once(req: Request) | Streaming(req: Request)

  /** Index answers in several frames and is streamed; everything else is asked once. */
  predicate Disciplined(c: Call) {
    c.Streaming? <==> c.req.Index?
  }

  /** The frames after which a stream asks for no more. */
  predicate EndsStreaming(r: Response) {
    r.IndexDone? || r.Error?
  }

  lemma IndexEndsStream(w: Wire<Reply>, helloDone: bool, env: Envelope<Request>, m: Moment)
    requires env.payload.Index?
    ensures EndsStreaming(LastTried(w, helloDone, env, m))
  {
  }

  predicate Answerable(w: Wire<Reply>, helloDone: bool, env: Envelope<Request>, m: Moment) {
    Fits(w, env.requestId, LastTried(w, helloDone, env, m))
  }

  function Payloads(replies: seq<Reply>): seq<Response> {
    seq(|replies|, i requires 0 <= i < |replies| => replies[i].payload)
  }

  /** Progress frames, then the one that ends the stream. */
  ghost predicate Streamed(items: seq<Response>) {
    && items != [] && EndsStreaming(items[|items| - 1])
    && forall i | 0 <= i < |items| - 1 :: items[i].IndexProgress?
  }

  /** What the caller of a single-frame request gets. */
  function AnswerTo(w: Wire<Reply>, helloDone: bool, env: Envelope<Request>, m: Moment): Result<Response, ClientError> {
    var last := LastTried(w, helloDone, env, m);
    if !Fits(w, env.requestId, last) then Err(Closed)
    else if last.Error? then Err(Refused(last.error))
    else Ok(last)
  }

  lemma OwnIds(w: Wire<Reply>, x: Exchange)
    requires Honoured(w, x) && x.incoming.Ok?
    ensures forall i | 0 <= i < |x.replies| :: x.replies[i].requestId == x.incoming.value.requestId
  {
    hide LastTried, Fits;
  }

  lemma OneFrame(w: Wire<Reply>, x: Exchange)
    requires Honoured(w, x) && x.incoming.Ok?
    ensures forall i | 0 <= i < |x.replies| :: x.replies[i].requestId == x.incoming.value.requestId
    ensures !x.incoming.value.payload.Index? ==> |x.replies| <= 1
    ensures var last := LastTried(w, x.helloBefore, x.incoming.value, x.moment);
      if Fits(w, x.incoming.value.requestId, last) then x.replies != [] && x.replies[|x.replies| - 1].payload == last
      else !x.open && (!x.incoming.value.payload.Index? ==> x.replies == [])
  {
    hide LastTried, Fits;
    if !x.incoming.value.payload.Index? && x.replies != [] {
      assert Terminal(x.replies[0].payload);
    }
  }

  lemma StreamFrames(w: Wire<Reply>, x: Exchange)
    requires Honoured(w, x) && x.incoming.Ok?
    ensures forall i | 0 <= i < |x.replies| :: x.replies[i].requestId == x.incoming.value.requestId
    ensures forall i | 0 <= i < |x.replies| - 1 :: x.replies[i].payload.IndexProgress?
    ensures Answerable(w, x.helloBefore, x.incoming.value, x.moment) ==> x.replies != []
    ensures Answerable(w, x.helloBefore, x.incoming.value, x.moment) && x.incoming.value.payload.Index? ==>
      EndsStreaming(x.replies[|x.replies| - 1].payload)
    ensures x.incoming.value.payload.Index? && x.replies != [] ==>
      EndsStreaming(x.replies[|x.replies| - 1].payload) || !x.open
    ensures x.replies == [] ==> !x.open
  {
    hide LastTried, Fits;
    if x.incoming.value.payload.Index? {
      IndexEndsStream(w, x.helloBefore, x.incoming.value, x.moment);
    }
  }

  class DaemonClient {
    const server: ServerConnection
    const wire: Wire<Envelope<Request>>
    var nextId: nat
    /** How many of the server's frames have been read. */
    var consumed: nat

    ghost predicate Valid()
      reads this, server
    {
      && server.Valid() && consumed <= |server.written|
      && forall i | consumed <= i < |server.written| :: server.written[i].requestId < nextId
    }

    /** Nothing is waiting to be read. */
    ghost predicate InStep()
      reads this, server
    {
      Valid() && consumed == |server.written|
    }

    constructor (server: ServerConnection, wire: Wire<Envelope<Request>>)
      requires server.Valid() && server.written == []
      ensures this.server == server && this.wire == wire && nextId == 1 && InStep()
    {
      this.server, this.wire, nextId, consumed := server, wire, 1, 0;
    }

    ghost predicate Sends(req: Request)
      reads this, server
    {
      server.open && Encode(wire, Envelope(nextId, req)).Ok?
    }

    /** Numbers and sends a request; the server's frames for it line up behind the unread ones. */
    method Send(req: Request, m: Moment) returns (error: Option<ClientError>, id: nat, ghost replies: seq<Reply>)
      requires Valid()
      modifies this`nextId, server
      ensures Valid() && id == old(nextId) && nextId == id + 1
      ensures error.None? <==> old(Sends(req))
      ensures error.Some? ==> !error.value.IdMismatch?
      ensures error.Some? ==> server.written == old(server.written)
      ensures server.written == old(server.written) + replies
      ensures error.None? ==> Honoured(server.wire,
        Exchange(Ok(Envelope(id, req)), m, old(server.helloDone), server.helloDone, replies, server.open))
    {
      hide Honoured;
      id := nextId;
      nextId := nextId + 1;
      replies := [];
      var encoded := Encode(wire, Envelope(id, req));
      if encoded.Err? {
        return Some(CannotEncode(encoded.error)), id, [];
      }
      if !server.open {
        return Some(Closed), id, [];
      }
      error := None;
      replies := server.HandleFrame(Ok(Envelope(id, req)), m);
      ghost var x := Exchange(Ok(Envelope(id, req)), m, old(server.helloDone), server.helloDone, replies, server.open);
      assert Honoured(server.wire, x) by {
        assert server.log[|server.log| - 1] == x;
      }
      OwnIds(server.wire, x);
    }

    /** One request, one frame. */
    method Ask(req: Request, m: Moment) returns (r: Result<Response, ClientError>)
      requires Valid()
      modifies this, server
      ensures Valid() && nextId == old(nextId) + 1
      ensures r.Err? && r.error.IdMismatch? <==> old(Sends(req)) && !old(InStep())
      ensures old(InStep()) && !req.Index? ==> InStep()
      ensures old(InStep()) && old(Sends(req)) && !req.Index? ==>
        r == AnswerTo(server.wire, old(server.helloDone), Envelope(old(nextId), req), m)
    {
      hide Honoured, LastTried, Fits;
      var error, id;
      ghost var replies;
      error, id, replies := Send(req, m);
      if error.Some? {
        return Err(error.value);
      }
      ghost var x := Exchange(Ok(Envelope(id, req)), m, old(server.helloDone), server.helloDone, replies, server.open);
      OneFrame(server.wire, x);
      if consumed == |server.written| {
        return Err(Closed);
      }
      var frame := server.written[consumed];
      consumed := consumed + 1;
      if frame.requestId != id {
        return Err(IdMismatch(id, frame.requestId));
      }
      r := if frame.payload.Error? then Err(Refused(frame.payload.error)) else Ok(frame.payload);
    }

    /** Reads frames up to and including the one that ends the stream. `waiting` means that the
        stream has asked for a frame which nobody will send. */
    method AskStreaming(req: Request, m: Moment) returns (items: seq<Response>, failed: Option<ClientError>, waiting: bool)
      requires Valid()
      modifies this, server
      ensures Valid() && nextId == old(nextId) + 1
      ensures failed.Some? && failed.value.IdMismatch? <==> old(Sends(req)) && !old(InStep())
      ensures old(InStep()) && req.Index? ==> InStep() && !waiting
      ensures old(InStep()) && req.Index? && failed.None? ==> Streamed(items)
      ensures old(InStep()) && req.Index? && old(Sends(req)) && Answerable(server.wire, old(server.helloDone), Envelope(old(nextId), req), m) ==>
        failed.None?
    {
      hide Honoured, LastTried, Fits;
      items, failed, waiting := [], None, false;
      var error, id;
      ghost var replies;
      error, id, replies := Send(req, m);
      if error.Some? {
        return [], error, false;
      }
      ghost var first := consumed;
      ghost var x := Exchange(Ok(Envelope(id, req)), m, old(server.helloDone), server.helloDone, replies, server.open);
      StreamFrames(server.wire, x);
      var done := false;
      while !done && consumed < |server.written|
        modifies this`consumed
        invariant first <= consumed <= |server.written|
        invariant failed.Some? && failed.value.IdMismatch? <==> done && !old(InStep())
        invariant failed.Some? ==> failed.value.IdMismatch?
        invariant done ==> consumed > first
        invariant !done ==> |items| == consumed - first
        invariant old(InStep()) ==> |items| == consumed - first && items == Payloads(replies[..|items|])
        invariant old(InStep()) && items != [] ==> done == EndsStreaming(items[|items| - 1])
        invariant old(InStep()) ==> forall i | 0 <= i < |items| - 1 :: !EndsStreaming(items[i])
        invariant !old(InStep()) && !done ==> consumed == first
      {
        var frame := server.written[consumed];
        consumed := consumed + 1;
        if frame.requestId != id {
          failed, done := Some(IdMismatch(id, frame.requestId)), true;
        } else {
          items := items + [frame.payload];
          done := EndsStreaming(frame.payload);
        }
      }
      if !done {
        if server.open {
          waiting := true;
        } else {
          failed := Some(Closed);
        }
      }
    }
  }

  /** A conversation that streams every index request and nothing else never sees a mismatched
      id, however the daemon answers. */
  method Converse(client: DaemonClient, calls: seq<Call>, moments: seq<Moment>) returns (mismatched: bool)
    requires client.InStep() && |calls| == |moments|
    requires forall i | 0 <= i < |calls| :: Disciplined(calls[i])
    modifies client, client.server
    ensures !mismatched && client.InStep()
  {
    mismatched := false;
    for i := 0 to |calls|
      invariant client.InStep() && !mismatched
    {
      match calls[i] {
        case Once(req) =>
          var r := client.Ask(req, moments[i]);
          mismatched := mismatched || (r.Err? && r.error.IdMismatch?);
        case Streaming(req) =>
          var items, failed, waiting := client.AskStreaming(req, moments[i]);
          mismatched := mismatched || (failed.Some? && failed.value.IdMismatch?);
      }
    }
  }
}
