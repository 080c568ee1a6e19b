// One connection of the daemon, frame by frame.

module Connection {
  import opened Wrappers
  import opened Bytes
  import opened Codec

  const PROTOCOL_VERSION := 1

  datatype Request =
    | Hello(protocolVersion: nat, client: string)
    | Search(query: string, topK: nat)
    | SearchSimilar(code: string, topK: nat)
    | GetSymbol(file: string, symbol: string)
    | Index(full: bool, repoDir: string)
    | Status
    | Shutdown

  datatype DaemonError =
    | ProtocolVersion(daemon: nat, client: nat)
    | Starting
    | IndexInProgress
    | StoreStale(reason: string)
    | Malformed(detail: string)
    | TooLarge(bytes: nat, limit: nat)
    | WorkFailed(detail: string)

  datatype Response =
    | Greeting(protocolVersion: nat, modelId: string, chunks: nat)
    | Found(body: string)
    | IndexProgress(phase: nat, done: nat, total: Option<nat>)
    | IndexDone(report: string)
    | StatusIs(status: string)
    | Error(error: DaemonError)

  datatype Envelope<T> = Envelope(requestId: nat, payload: T)

  type Incoming = Result<Envelope<Request>, FrameError>

  type Reply = Envelope<Response>

  // ---------- What the connection meets but does not decide ----------

  /** One look at the serving cell. */
  datatype Glimpse = StillStarting | GoneStale(reason: string) | Up(modelId: string, chunks: nat)

  /** The cell is looked at three times before Hello, and may change in between. `claimed` is
      the compare-and-swap of an index request; `answer` and `report` are what a lookup and an
      index run come to, and `ticks` the progress frames forwarded before the latter does. */
  datatype Moment = Moment(
    first: Glimpse,
    second: Glimpse,
    third: Glimpse,
    status: string,
    claimed: bool,
    ticks: seq<(nat, nat, Option<nat>)>,
    answer: Result<string, DaemonError>,
    report: Result<string, DaemonError>
  )

  function Tick(t: (nat, nat, Option<nat>)): Response {
    IndexProgress(t.0, t.1, t.2)
  }

  predicate Fits(w: Wire<Reply>, id: nat, r: Response) {
    Encode(w, Envelope(id, r)).Ok?
  }

  function AsDaemonError(e: FrameError): (r: DaemonError)
    ensures if e.RequestTooLarge? then r == TooLarge(e.bytes, e.limit) else r.Malformed?
  {
    match e
    case RequestTooLarge(bytes, limit) => TooLarge(bytes, limit)
    case TruncatedPrefix => Malformed("truncated length prefix")
    case TruncatedBody => Malformed("truncated frame body")
    case SkipFailed => Malformed("drain oversized")
    case DecodeFailed => Malformed("decode")
    case SerializeFailed => Malformed("encode")
  }

  /** Accepts a Hello of this protocol version and nothing else. */
  function HandleHello(env: Envelope<Request>, modelId: string, chunks: nat): (r: Result<Response, Response>)
    ensures r.Ok? <==> env.payload.Hello? && env.payload.protocolVersion == PROTOCOL_VERSION
    ensures r.Ok? ==> r.value.Greeting?
    ensures r.Err? ==> r.error.Error?
  {
    match env.payload
    case Hello(version, client) =>
      if version != PROTOCOL_VERSION then Err(Error(ProtocolVersion(PROTOCOL_VERSION, version)))
      else Ok(Greeting(PROTOCOL_VERSION, modelId, chunks))
    case _ => Err(Error(Malformed("Hello required before other requests")))
  }

  // ---------- What one request is owed ----------

  /** The terminal response a dispatched request works towards. */
  function Attempt(req: Request, m: Moment): Result<Response, DaemonError> {
    match req
    case Hello(_, _) => Err(Malformed("duplicate Hello"))
    case Status => Ok(StatusIs(m.status))
    case Shutdown => Ok(StatusIs(m.status))
    case Index(_, _) =>
      if !m.claimed then Err(IndexInProgress)
      else if m.report.Ok? then Ok(IndexDone(m.report.value))
      else Err(m.report.error)
    case _ => if m.answer.Ok? then Ok(Found(m.answer.value)) else Err(m.answer.error)
  }

  /** The first progress frame that cannot be sent, if any. */
  function FirstUnfit(w: Wire<Reply>, id: nat, ticks: seq<(nat, nat, Option<nat>)>): Option<nat> {
    if ticks == [] then None
    else
      var last := |ticks| - 1;
      var earlier := FirstUnfit(w, id, ticks[..last]);
      if earlier.Some? then earlier else if Fits(w, id, Tick(ticks[last])) then None else Some(last)
  }

  lemma {:induction false} UnfitStays(w: Wire<Reply>, id: nat, ticks: seq<(nat, nat, Option<nat>)>, n: nat)
    requires n <= |ticks| && FirstUnfit(w, id, ticks[..n]).Some?
    ensures FirstUnfit(w, id, ticks) == FirstUnfit(w, id, ticks[..n])
    decreases |ticks|
  {
    if n < |ticks| {
      assert ticks[..|ticks| - 1][..n] == ticks[..n];
      UnfitStays(w, id, ticks[..|ticks| - 1], n);
    } else {
      assert ticks[..n] == ticks;
    }
  }

  lemma FirstUnfitMeaning(w: Wire<Reply>, id: nat, ticks: seq<(nat, nat, Option<nat>)>, n: nat)
    requires n < |ticks| && FirstUnfit(w, id, ticks[..n]).None?
    ensures FirstUnfit(w, id, ticks[..n + 1]) == if Fits(w, id, Tick(ticks[n])) then None else Some(n)
    ensures !Fits(w, id, Tick(ticks[n])) ==> FirstUnfit(w, id, ticks) == Some(n)
  {
    assert ticks[..n + 1][..n] == ticks[..n];
    if !Fits(w, id, Tick(ticks[n])) {
      UnfitStays(w, id, ticks, n + 1);
    }
  }

  function Ticks(env: Envelope<Request>, m: Moment): seq<(nat, nat, Option<nat>)> {
    if env.payload.Index? && m.claimed then m.ticks else []
  }

  function EncodeError(w: Wire<Reply>, id: nat, r: Response): DaemonError {
    match Encode(w, Envelope(id, r))
    case Ok(_) => Malformed("")
    case Err(e) => AsDaemonError(e)
  }

  lemma EncodeErrorMeaning(w: Wire<Reply>, id: nat, r: Response)
    requires !Fits(w, id, r)
    ensures Encode(w, Envelope(id, r)).Err? && EncodeError(w, id, r) == AsDaemonError(Encode(w, Envelope(id, r)).error)
  {
  }

  datatype Continue = GoOn | Greeted | Rejected

  /** Before Hello: a stale store refuses everything, a starting one answers Status and Hello. */
  function BeforeHello(env: Envelope<Request>, m: Moment): (Response, Continue) {
    if m.second.GoneStale? then (Error(StoreStale(m.second.reason)), GoOn)
    else if m.first.StillStarting? && env.payload.Status? then (StatusIs(m.status), GoOn)
    else if m.first.StillStarting? && !env.payload.Hello? then (Error(Starting), GoOn)
    else
      var (modelId, chunks) := if m.third.Up? then (m.third.modelId, m.third.chunks) else ("", 0);
      match HandleHello(env, modelId, chunks)
      case Ok(greeting) => (greeting, Greeted)
      case Err(refusal) => (refusal, Rejected)
  }

  /** The last frame the daemon tries to send for a request: what it works towards, or the error
      that replaces it when it failed or cannot be encoded. */
  function LastTried(w: Wire<Reply>, helloDone: bool, env: Envelope<Request>, m: Moment): Response {
    if !helloDone then BeforeHello(env, m).0
    else
      var unfit := FirstUnfit(w, env.requestId, Ticks(env, m));
      if unfit.Some? && unfit.value < |Ticks(env, m)| then Error(EncodeError(w, env.requestId, Tick(Ticks(env, m)[unfit.value])))
      else
        match Attempt(env.payload, m)
        case Err(e) => Error(e)
        case Ok(r) => if Fits(w, env.requestId, r) then r else Error(EncodeError(w, env.requestId, r))
  }

  predicate Terminal(r: Response) {
    !r.IndexProgress?
  }

  /** Progress frames and then one terminal frame, all under the request's own id. */
  ghost predicate OneTerminal(id: nat, replies: seq<Reply>) {
    && replies != []
    && (forall i | 0 <= i < |replies| :: replies[i].requestId == id)
    && (forall i | 0 <= i < |replies| :: Terminal(replies[i].payload) <==> i == |replies| - 1)
  }

  ghost predicate OnlyProgress(id: nat, replies: seq<Reply>) {
    forall i | 0 <= i < |replies| :: replies[i].requestId == id && !Terminal(replies[i].payload)
  }

  /** Every frame is one the wire can carry. */
  ghost predicate AllFit(w: Wire<Reply>, replies: seq<Reply>) {
    forall i | 0 <= i < |replies| :: Encode(w, replies[i]).Ok?
  }

  /** One frame and what became of it. */
  datatype Exchange = Exchange(incoming: Incoming, moment: Moment, helloBefore: bool, helloAfter: bool, replies: seq<Reply>, open: bool)

  ghost predicate Dispatched(x: Exchange) {
    x.incoming.Ok? && x.helloBefore
  }

  ghost predicate GoodHello(x: Exchange) {
    && x.incoming.Ok? && x.incoming.value.payload.Hello?
    && x.incoming.value.payload.protocolVersion == PROTOCOL_VERSION
  }

  ghost predicate SomeHello(log: seq<Exchange>) {
    exists i :: 0 <= i < |log| && GoodHello(log[i])
  }

  /** Before every dispatched request there is a version-matching Hello. */
  ghost predicate HelloFirst(log: seq<Exchange>) {
    forall i | 0 <= i < |log| && Dispatched(log[i]) :: SomeHello(log[..i])
  }

  // ---------- Which frames a request gets ----------

  /** The frame of an error, if the wire can carry it. */
  ghost function ErrorFrame(w: Wire<Reply>, id: nat, e: DaemonError): seq<Reply> {
    if Fits(w, id, Error(e)) then [Envelope(id, Error(e))] else []
  }

  /** One frame, if the wire can carry it. */
  ghost predicate OnlySends(w: Wire<Reply>, id: nat, r: Response, replies: seq<Reply>) {
    replies == if Encode(w, Envelope(id, r)).Ok? then [Envelope(id, r)] else []
  }

  lemma ErrorFrameSends(w: Wire<Reply>, id: nat, e: DaemonError)
    ensures OnlySends(w, id, Error(e), ErrorFrame(w, id, e)) && OnlySends(w, id, Error(e), [] + ErrorFrame(w, id, e))
  {
    assert [] + ErrorFrame(w, id, e) == ErrorFrame(w, id, e);
  }

  /** One progress frame for each tick, in order. */
  ghost predicate Progressed(id: nat, ticks: seq<(nat, nat, Option<nat>)>, replies: seq<Reply>) {
    && |replies| == |ticks|
    && forall i | 0 <= i < |ticks| :: replies[i] == Envelope(id, IndexProgress(ticks[i].0, ticks[i].1, ticks[i].2))
  }

  /** One frame, or the error that says why the wire cannot carry it. */
  ghost predicate Sends(w: Wire<Reply>, id: nat, r: Response, replies: seq<Reply>) {
    match Encode(w, Envelope(id, r))
    case Ok(_) => replies == [Envelope(id, r)]
    case Err(e) => OnlySends(w, id, Error(AsDaemonError(e)), replies)
  }

  /** What an answer or its failure sends. */
  ghost predicate SendsOutcome(w: Wire<Reply>, id: nat, r: Result<Response, DaemonError>, replies: seq<Reply>) {
    match r
    case Ok(response) => Sends(w, id, response, replies)
    case Err(e) => OnlySends(w, id, Error(e), replies)
  }

  /** An index run: the progress frames up to the first that the wire cannot carry, and what that
      comes to, or all of them and the report. */
  ghost predicate SendsRun(w: Wire<Reply>, id: nat, m: Moment, replies: seq<Reply>) {
    exists n: nat | n <= |m.ticks| && n <= |replies| ::
      && Progressed(id, m.ticks[..n], replies[..n])
      && if n < |m.ticks|
         then Encode(w, Envelope(id, Tick(m.ticks[n]))).Err?
           && OnlySends(w, id, Error(AsDaemonError(Encode(w, Envelope(id, Tick(m.ticks[n]))).error)), replies[n..])
         else SendsOutcome(w, id, if m.report.Ok? then Ok(IndexDone(m.report.value)) else Err(m.report.error), replies[n..])
  }

  lemma RunCut(w: Wire<Reply>, id: nat, m: Moment, progress: seq<Reply>, tail: seq<Reply>)
    requires |progress| < |m.ticks| && Progressed(id, m.ticks[..|progress|], progress)
    requires Encode(w, Envelope(id, Tick(m.ticks[|progress|]))).Err?
    requires OnlySends(w, id, Error(AsDaemonError(Encode(w, Envelope(id, Tick(m.ticks[|progress|]))).error)), tail)
    ensures SendsRun(w, id, m, progress + tail)
  {
    hide Encode, AsDaemonError, OnlySends, Progressed;
    var n := |progress|;
    assert (progress + tail)[..n] == progress && (progress + tail)[n..] == tail;
  }

  lemma RunReported(w: Wire<Reply>, id: nat, m: Moment, progress: seq<Reply>, tail: seq<Reply>)
    requires |progress| == |m.ticks| && Progressed(id, m.ticks, progress)
    requires SendsOutcome(w, id, if m.report.Ok? then Ok(IndexDone(m.report.value)) else Err(m.report.error), tail)
    ensures SendsRun(w, id, m, progress + tail)
  {
    hide Encode, AsDaemonError, SendsOutcome, Progressed;
    var n := |progress|;
    assert m.ticks[..n] == m.ticks;
    assert (progress + tail)[..n] == progress && (progress + tail)[n..] == tail;
  }

  /** After Hello, by the kind of the request and what it meets. */
  ghost predicate Served(w: Wire<Reply>, env: Envelope<Request>, m: Moment, replies: seq<Reply>) {
    match env.payload
    case Hello(_, _) => OnlySends(w, env.requestId, Error(Malformed("duplicate Hello")), replies)
    case Status => Sends(w, env.requestId, StatusIs(m.status), replies)
    case Shutdown => Sends(w, env.requestId, StatusIs(m.status), replies)
    case Index(_, _) =>
      if m.claimed then SendsRun(w, env.requestId, m, replies) else OnlySends(w, env.requestId, Error(IndexInProgress), replies)
    case _ => SendsOutcome(w, env.requestId, if m.answer.Ok? then Ok(Found(m.answer.value)) else Err(m.answer.error), replies)
  }

  /** Before Hello: a stale store is named, a starting daemon says so to everything but Status and
      Hello, a Hello of this version is greeted, and any other first request is turned away. */
  ghost predicate Welcomed(w: Wire<Reply>, env: Envelope<Request>, m: Moment, replies: seq<Reply>, greeted: bool, open: bool) {
    var id := env.requestId;
    var starting := m.first.StillStarting?;
    if m.second.GoneStale? then OnlySends(w, id, Error(StoreStale(m.second.reason)), replies) && !greeted && (open <==> replies != [])
    else if starting && env.payload.Status? then OnlySends(w, id, StatusIs(m.status), replies) && !greeted && (open <==> replies != [])
    else if starting && !env.payload.Hello? then OnlySends(w, id, Error(Starting), replies) && !greeted && (open <==> replies != [])
    else if !env.payload.Hello? then
      OnlySends(w, id, Error(Malformed("Hello required before other requests")), replies) && !greeted && !open
    else if env.payload.protocolVersion != PROTOCOL_VERSION then
      OnlySends(w, id, Error(ProtocolVersion(PROTOCOL_VERSION, env.payload.protocolVersion)), replies) && !greeted && !open
    else
      var greeting := match m.third
        case Up(modelId, chunks) => Greeting(PROTOCOL_VERSION, modelId, chunks)
        case _ => Greeting(PROTOCOL_VERSION, "", 0);
      OnlySends(w, id, greeting, replies) && greeted && (open <==> replies != [])
  }

  /** The frames, the greeting and the end of the connection, for a request. */
  ghost predicate Treated(w: Wire<Reply>, env: Envelope<Request>, m: Moment, before: bool, after: bool, replies: seq<Reply>, open: bool) {
    if before then Served(w, env, m, replies) && (open <==> OneTerminal(env.requestId, replies) && !env.payload.Shutdown?)
    else Welcomed(w, env, m, replies, after, open)
  }

  ghost predicate Answered(w: Wire<Reply>, x: Exchange) {
    match x.incoming
    case Err(e) =>
      && x.helloAfter == x.helloBefore
      && (if e.TruncatedPrefix? || e.TruncatedBody? then x.replies == [] && !x.open
          else if Fits(w, 0, Error(AsDaemonError(e))) then x.replies == [Envelope(0, Error(AsDaemonError(e)))] && x.open
          else x.replies == [] && !x.open)
    case Ok(env) =>
      var last := LastTried(w, x.helloBefore, env, x.moment);
      && (OneTerminal(env.requestId, x.replies) <==> Fits(w, env.requestId, last))
      && (Fits(w, env.requestId, last) ==> x.replies[|x.replies| - 1].payload == last)
      && (!Fits(w, env.requestId, last) ==> OnlyProgress(env.requestId, x.replies) && !x.open)
      && (forall i | 0 <= i < |x.replies| && !Terminal(x.replies[i].payload) :: env.payload.Index? && x.helloBefore)
      && (x.helloBefore ==> x.helloAfter)
      && (x.helloAfter && !x.helloBefore ==> GoodHello(x))
      && Treated(w, env, x.moment, x.helloBefore, x.helloAfter, x.replies, x.open)
  }

  /** Every frame is treated as the protocol promises. */
  ghost predicate Honoured(w: Wire<Reply>, x: Exchange) {
    AllFit(w, x.replies) && Answered(w, x)
  }

  lemma HonouredHello(w: Wire<Reply>, x: Exchange)
    requires Honoured(w, x) && x.helloAfter && !x.helloBefore
    ensures GoodHello(x)
  {
  }

  lemma HelloFirstSnoc(w: Wire<Reply>, log: seq<Exchange>, x: Exchange)
    requires Honoured(w, x) && (x.helloBefore ==> SomeHello(log)) && HelloFirst(log)
    ensures HelloFirst(log + [x]) && (x.helloAfter ==> SomeHello(log + [x]))
  {
    hide Honoured, GoodHello;
    var after := log + [x];
    if x.helloBefore {
      var i :| 0 <= i < |log| && GoodHello(log[i]);
      assert GoodHello(after[i]);
    } else if x.helloAfter {
      HonouredHello(w, x);
      assert GoodHello(after[|log|]);
    }
    forall i | 0 <= i < |log| && Dispatched(after[i])
      ensures SomeHello(after[..i])
    {
      assert Dispatched(log[i]) && after[..i] == log[..i];
    }
    assert after[..|log|] == log;
  }

  function Incomings(log: seq<Exchange>): seq<Incoming> {
    seq(|log|, i requires 0 <= i < |log| => log[i].incoming)
  }

  predicate Truncated(r: Incoming) {
    r.Err? && (r.error.TruncatedPrefix? || r.error.TruncatedBody?)
  }

  /** What a connection reads from a byte string, up to the cut that ends it. */
  function Received(w: Wire<Envelope<Request>>, bytes: seq<Byte>): seq<Incoming>
    decreases |bytes|
  {
    var (r, rest) := ReadFrame(w, bytes);
    if Truncated(r) then [r] else [r] + Received(w, rest)
  }

  lemma ReceivedStep(w: Wire<Envelope<Request>>, bytes: seq<Byte>)
    ensures var (r, rest) := ReadFrame(w, bytes);
      && Received(w, bytes) == [r] + (if Truncated(r) then [] else Received(w, rest))
      && (!Truncated(r) ==> |rest| < |bytes|)
      && |rest| <= |bytes|
  {
  }

  lemma ReadOn(done: seq<Incoming>, r: Incoming, behind: seq<Incoming>, all: seq<Incoming>)
    requires done + ([r] + behind) == all
    ensures done + [r] + behind == all && done + [r] <= all
  {
    assert done + [r] + behind == done + ([r] + behind);
  }

  lemma TruncatedCloses(w: Wire<Reply>, x: Exchange)
    requires Honoured(w, x)
    ensures Truncated(x.incoming) ==> !x.open
  {
  }

  function AllReplies(log: seq<Exchange>): seq<Reply> {
    if log == [] then [] else AllReplies(log[..|log| - 1]) + log[|log| - 1].replies
  }

  class ServerConnection {
    const wire: Wire<Reply>
    var helloDone: bool
    var open: bool
    var written: seq<Reply>
    ghost var log: seq<Exchange>

    /** The log accounts for everything written, and nothing was dispatched before a Hello. */
    ghost predicate Valid()
      reads this
    {
      && written == AllReplies(log)
      && (forall i | 0 <= i < |log| :: Honoured(wire, log[i]))
      && (helloDone ==> SomeHello(log))
      && HelloFirst(log)
    }

    constructor (wire: Wire<Reply>)
      ensures Valid() && this.wire == wire && !helloDone && open && log == [] && written == []
    {
      this.wire := wire;
      helloDone, open, written, log := false, true, [], [];
    }

    method WriteResponse(id: nat, r: Response) returns (failed: Option<DaemonError>)
      modifies this`written
      ensures failed.None? <==> Fits(wire, id, r)
      ensures written == if Fits(wire, id, r) then old(written) + [Envelope(id, r)] else old(written)
      ensures failed.Some? ==> failed.value == EncodeError(wire, id, r)
    {
      match Encode(wire, Envelope(id, r)) {
        case Ok(_) =>
          written := written + [Envelope(id, r)];
          return None;
        case Err(e) =>
          return Some(AsDaemonError(e));
      }
    }

    method ForwardProgress(id: nat, ticks: seq<(nat, nat, Option<nat>)>) returns (failed: Option<DaemonError>, ghost sent: seq<Reply>)
      modifies this`written
      ensures written == old(written) + sent && OnlyProgress(id, sent) && AllFit(wire, sent) && |sent| <= |ticks|
      ensures failed.None? <==> FirstUnfit(wire, id, ticks).None?
      ensures failed.Some? ==> FirstUnfit(wire, id, ticks).value < |ticks|
      ensures failed.Some? ==> failed.value == EncodeError(wire, id, Tick(ticks[FirstUnfit(wire, id, ticks).value]))
      ensures Progressed(id, ticks[..|sent|], sent)
      ensures failed.None? ==> |sent| == |ticks|
      ensures failed.Some? ==> |sent| < |ticks| && match Encode(wire, Envelope(id, Tick(ticks[|sent|])))
        case Ok(_) => false
        case Err(e) => failed.value == AsDaemonError(e)
    {
      hide EncodeError, Encode, AsDaemonError;
      sent := [];
      failed := None;
      for i := 0 to |ticks|
        invariant written == old(written) + sent && OnlyProgress(id, sent) && AllFit(wire, sent) && |sent| == i
        invariant Progressed(id, ticks[..i], sent)
        invariant FirstUnfit(wire, id, ticks[..i]).None?
      {
        FirstUnfitMeaning(wire, id, ticks, i);
        failed := WriteResponse(id, Tick(ticks[i]));
        if failed.Some? {
          EncodeErrorMeaning(wire, id, Tick(ticks[i]));
          return;
        }
        sent := sent + [Envelope(id, Tick(ticks[i]))];
      }
      assert ticks[..|ticks|] == ticks;
      failed := None;
    }

    /** Writes one response and says what was sent. */
    method Send(id: nat, r: Response) returns (failed: Option<DaemonError>, ghost sent: seq<Reply>)
      modifies this`written
      ensures written == old(written) + sent
      ensures failed.None? <==> Fits(wire, id, r)
      ensures sent == if Fits(wire, id, r) then [Envelope(id, r)] else []
      ensures failed.Some? ==> failed.value == EncodeError(wire, id, r)
      ensures failed.None? ==> Sends(wire, id, r, sent)
      ensures failed.Some? ==> Sends(wire, id, r, sent + ErrorFrame(wire, id, failed.value))
    {
      hide EncodeError, AsDaemonError;
      failed := WriteResponse(id, r);
      sent := if failed.None? then [Envelope(id, r)] else [];
      if failed.Some? {
        EncodeErrorMeaning(wire, id, r);
        ErrorFrameSends(wire, id, failed.value);
      }
    }

    /** Forwards the progress of an index run and then its report. */
    method RunIndex(id: nat, m: Moment) returns (failed: Option<DaemonError>, ghost sent: seq<Reply>)
      modifies this`written
      ensures written == old(written) + sent && AllFit(wire, sent)
      ensures var unfit := FirstUnfit(wire, id, m.ticks);
        if unfit.Some? then unfit.value < |m.ticks| && failed == Some(EncodeError(wire, id, Tick(m.ticks[unfit.value])))
        else if m.report.Err? then failed == Some(m.report.error)
        else if Fits(wire, id, IndexDone(m.report.value)) then failed.None?
        else failed == Some(EncodeError(wire, id, IndexDone(m.report.value)))
      ensures failed.None? ==> OneTerminal(id, sent) && sent[|sent| - 1].payload == IndexDone(m.report.value)
      ensures failed.Some? ==> OnlyProgress(id, sent)
      ensures failed.None? ==> SendsRun(wire, id, m, sent)
      ensures failed.Some? ==> SendsRun(wire, id, m, sent + ErrorFrame(wire, id, failed.value))
    {
      hide EncodeError, Encode, AsDaemonError, Sends, OnlySends, SendsRun;
      failed, sent := ForwardProgress(id, m.ticks);
      ghost var progress := sent;
      if failed.Some? {
        ErrorFrameSends(wire, id, failed.value);
        RunCut(wire, id, m, progress, ErrorFrame(wire, id, failed.value));
        return;
      }
      assert m.ticks[..|progress|] == m.ticks;
      if m.report.Err? {
        ErrorFrameSends(wire, id, m.report.error);
        RunReported(wire, id, m, progress, ErrorFrame(wire, id, m.report.error));
        return Some(m.report.error), sent;
      }
      ghost var last;
      failed, last := Send(id, IndexDone(m.report.value));
      sent := progress + last;
      if failed.Some? {
        RunReported(wire, id, m, progress, last + ErrorFrame(wire, id, failed.value));
        assert sent + ErrorFrame(wire, id, failed.value) == progress + (last + ErrorFrame(wire, id, failed.value));
      } else {
        RunReported(wire, id, m, progress, last);
      }
    }

    method Dispatch(env: Envelope<Request>, m: Moment) returns (failed: Option<DaemonError>, ghost sent: seq<Reply>)
      modifies this`written
      ensures written == old(written) + sent && AllFit(wire, sent)
      ensures failed.None? ==> OneTerminal(env.requestId, sent) && sent[|sent| - 1].payload == LastTried(wire, true, env, m)
      ensures failed.None? ==> Fits(wire, env.requestId, LastTried(wire, true, env, m))
      ensures failed.Some? ==> OnlyProgress(env.requestId, sent) && LastTried(wire, true, env, m) == Error(failed.value)
      ensures !env.payload.Index? ==> |sent| <= 1 && (failed.Some? ==> sent == [])
      ensures failed.None? ==> Served(wire, env, m, sent)
      ensures failed.Some? ==> Served(wire, env, m, sent + ErrorFrame(wire, env.requestId, failed.value))
    {
      hide EncodeError, Encode, AsDaemonError, SendsRun, Sends, OnlySends;
      sent := [];
      failed := None;
      match env.payload {
        case Hello(_, _) =>
          ErrorFrameSends(wire, env.requestId, Malformed("duplicate Hello"));
          return Some(Malformed("duplicate Hello")), [];
        case Status =>
          failed, sent := Send(env.requestId, StatusIs(m.status));
        case Shutdown =>
          failed, sent := Send(env.requestId, StatusIs(m.status));
        case Index(_, _) =>
          if !m.claimed {
            ErrorFrameSends(wire, env.requestId, IndexInProgress);
            return Some(IndexInProgress), [];
          }
          failed, sent := RunIndex(env.requestId, m);
        case _ =>
          if m.answer.Err? {
            ErrorFrameSends(wire, env.requestId, m.answer.error);
            return Some(m.answer.error), [];
          }
          failed, sent := Send(env.requestId, Found(m.answer.value));
      }
    }

    ghost method Record(x: Exchange)
      requires Honoured(wire, x) && x.helloAfter == helloDone
      requires written == AllReplies(log) + x.replies
      requires forall i | 0 <= i < |log| :: Honoured(wire, log[i])
      requires (x.helloBefore ==> SomeHello(log)) && HelloFirst(log)
      modifies this`log
      ensures Valid() && log == old(log) + [x]
    {
      hide Honoured, SomeHello, HelloFirst;
      assert (log + [x])[..|log|] == log;
      HelloFirstSnoc(wire, log, x);
      log := log + [x];
    }

    method FramingError(e: FrameError) returns (ghost replies: seq<Reply>)
      requires open
      modifies this`written, this`open
      ensures written == old(written) + replies
      ensures forall m :: Honoured(wire, Exchange(Err(e), m, helloDone, helloDone, replies, open))
    {
      replies := [];
      if e.TruncatedPrefix? || e.TruncatedBody? {
        open := false;
        return;
      }
      var failed := WriteResponse(0, Error(AsDaemonError(e)));
      if failed.Some? {
        open := false;
      } else {
        replies := [Envelope(0, Error(AsDaemonError(e)))];
      }
    }

    method Greet(env: Envelope<Request>, m: Moment) returns (ghost replies: seq<Reply>)
      requires open && !helloDone
      modifies this`written, this`open, this`helloDone
      ensures written == old(written) + replies
      ensures Honoured(wire, Exchange(Ok(env), m, false, helloDone, replies, open))
    {
      hide Encode;
      var starting := m.first.StillStarting?;
      var response: Response;
      if m.second.GoneStale? {
        response := Error(StoreStale(m.second.reason));
      } else if starting && env.payload.Status? {
        response := StatusIs(m.status);
      } else if starting && !env.payload.Hello? {
        response := Error(Starting);
      } else {
        var (modelId, chunks) := if m.third.Up? then (m.third.modelId, m.third.chunks) else ("", 0);
        match HandleHello(env, modelId, chunks) {
          case Ok(greeting) =>
            helloDone := true;
            response := greeting;
          case Err(refusal) =>
            response := refusal;
            open := false;
        }
      }
      var failed := WriteResponse(env.requestId, response);
      replies := if failed.None? then [Envelope(env.requestId, response)] else [];
      if failed.Some? {
        open := false;
      }
    }

    method Serve(env: Envelope<Request>, m: Moment) returns (ghost replies: seq<Reply>)
      requires open && helloDone
      modifies this`written, this`open
      ensures written == old(written) + replies
      ensures Honoured(wire, Exchange(Ok(env), m, true, true, replies, open))
    {
      hide Encode, LastTried, Served, EncodeError, AsDaemonError;
      var failed;
      failed, replies := Dispatch(env, m);
      if failed.Some? {
        var unsent := WriteResponse(env.requestId, Error(failed.value));
        if unsent.Some? {
          open := false;
          assert replies + ErrorFrame(wire, env.requestId, failed.value) == replies;
          assert replies != [] ==> !Terminal(replies[|replies| - 1].payload);
          return;
        }
        replies := replies + [Envelope(env.requestId, Error(failed.value))];
      }
      if env.payload.Shutdown? {
        open := false;
      }
    }

    /** One turn of the connection's loop. */
    method HandleFrame(incoming: Incoming, m: Moment) returns (ghost replies: seq<Reply>)
      requires Valid() && open
      modifies this
      ensures Valid() && written == old(written) + replies
      ensures log == old(log) + [Exchange(incoming, m, old(helloDone), helloDone, replies, open)]
    {
      ghost var helloBefore := helloDone;
      match incoming {
        case Err(e) =>
          replies := FramingError(e);
        case Ok(env) =>
          if !helloDone {
            replies := Greet(env, m);
          } else {
            replies := Serve(env, m);
          }
      }
      Record(Exchange(incoming, m, helloBefore, helloDone, replies, open));
    }

    /** Reads frames until the connection closes, which it does at the latest where the peer's
        stream ends. `moments` are what the frames meet, in order. */
    method HandleConnection(reader: Reader, requests: Wire<Envelope<Request>>, moments: nat -> Moment)
      requires Valid() && open && log == []
      modifies this, reader
      ensures Valid() && !open
      ensures Incomings(log) <= Received(requests, old(reader.rest))
      ensures forall i | 0 <= i < |log| :: log[i].moment == moments(i)
      ensures forall i | 0 <= i < |log| :: log[i].open <==> i < |log| - 1
    {
      hide Honoured, SomeHello, HelloFirst, AllReplies, ReadFrame, Received;
      ghost var bytes := reader.rest;
      var turn := 0;
      assert Incomings(log) == [];
      while open
        invariant Valid() && turn == |log|
        invariant if open then Incomings(log) + Received(requests, reader.rest) == Received(requests, bytes)
          else Incomings(log) <= Received(requests, bytes)
        invariant forall i | 0 <= i < |log| :: log[i].moment == moments(i)
        invariant forall i | 0 <= i < |log| :: log[i].open <==> i < |log| - 1 || open
        decreases |reader.rest|, open
      {
        ghost var before, done := reader.rest, log;
        ReceivedStep(requests, before);
        var incoming := reader.DecodeOneRecovering(requests);
        ghost var replies := HandleFrame(incoming, moments(turn));
        turn := turn + 1;
        TruncatedCloses(wire, log[|log| - 1]);
        assert Incomings(log) == Incomings(done) + [incoming];
        ReadOn(Incomings(done), incoming, if Truncated(incoming) then [] else Received(requests, reader.rest), Received(requests, bytes));
      }
    }
  }

  lemma CutStream(w: Wire<Envelope<Request>>, bytes: seq<Byte>)
    requires ReadFrame(w, bytes).0.Err? && EndsStream(ReadFrame(w, bytes).0.error)
    ensures ReadStream(w, bytes) == ([], ReadFrame(w, bytes).0.error)
    ensures ReadFrame(w, bytes).0.error.SkipFailed? ==> Received(w, bytes) == [Err(SkipFailed), Err(TruncatedPrefix)]
  {
    assert Received(w, []) == [Err(TruncatedPrefix)];
  }

  /** A connection reads the frames of the stream; an oversized frame that is cut off is followed
      by the end of the stream, any other cut is that end. */
  lemma {:induction false} ReceivedIsStream(w: Wire<Envelope<Request>>, bytes: seq<Byte>)
    ensures var (outcomes, last) := ReadStream(w, bytes);
      Received(w, bytes) == outcomes + if last.SkipFailed? then [Err(SkipFailed), Err(TruncatedPrefix)] else [Err(last)]
    decreases |bytes|
  {
    hide ReadFrame;
    ReceivedStep(w, bytes);
    var (r, rest) := ReadFrame(w, bytes);
    if r.Err? && EndsStream(r.error) {
      CutStream(w, bytes);
    } else {
      ReceivedIsStream(w, rest);
      var (more, last) := ReadStream(w, rest);
      assert ReadStream(w, bytes) == ([r] + more, last);
    }
  }

  /** Frames that were sent, good, oversized or undecodable, are what the connection reads, in
      order and before anything else. */
  lemma SentIsReceived(w: Wire<Envelope<Request>>, frames: seq<Sent<Envelope<Request>>>, tail: seq<Byte>)
    requires InversePair(w) && CutShort(tail) && forall f | f in frames :: Sendable(w, f)
    ensures AllOutcomes(frames) <= Received(w, AllBytes(w, frames) + tail)
  {
    hide InversePair, CutShort, Sendable;
    StreamRoundTrip(w, frames, tail);
    ReceivedIsStream(w, AllBytes(w, frames) + tail);
  }

  // ---------- One terminal frame per request ----------

  function TerminalCount(frames: seq<Reply>, id: nat): nat {
    if frames == [] then 0
    else
      var last := frames[|frames| - 1];
      TerminalCount(frames[..|frames| - 1], id) + if last.requestId == id && Terminal(last.payload) then 1 else 0
  }

  /** What one exchange owes to `id`: a request under that id whose last frame can be sent, or,
      under id 0, a framing error. */
  function Owed(w: Wire<Reply>, x: Exchange, id: nat): nat {
    match x.incoming
    case Ok(env) =>
      if env.requestId == id && Fits(w, id, LastTried(w, x.helloBefore, env, x.moment)) then 1 else 0
    case Err(e) =>
      if id == 0 && !e.TruncatedPrefix? && !e.TruncatedBody? && Fits(w, 0, Error(AsDaemonError(e))) then 1 else 0
  }

  function TotalOwed(w: Wire<Reply>, log: seq<Exchange>, id: nat): nat {
    if log == [] then 0 else TotalOwed(w, log[..|log| - 1], id) + Owed(w, log[|log| - 1], id)
  }

  lemma {:induction false} TerminalConcat(a: seq<Reply>, b: seq<Reply>, id: nat)
    ensures TerminalCount(a + b, id) == TerminalCount(a, id) + TerminalCount(b, id)
  {
    if b == [] {
      assert a + b == a;
    } else {
      assert (a + b)[..|a + b| - 1] == a + b[..|b| - 1];
      TerminalConcat(a, b[..|b| - 1], id);
    }
  }

  lemma {:induction false} ProgressCountsNothing(own: nat, replies: seq<Reply>, id: nat)
    requires OnlyProgress(own, replies)
    ensures TerminalCount(replies, id) == 0
  {
    if replies != [] {
      ProgressCountsNothing(own, replies[..|replies| - 1], id);
    }
  }

  lemma ExchangeCount(w: Wire<Reply>, x: Exchange, id: nat)
    requires Honoured(w, x)
    ensures TerminalCount(x.replies, id) == Owed(w, x, id)
  {
    hide Fits, LastTried;
    match x.incoming
    case Ok(env) =>
      if OneTerminal(env.requestId, x.replies) {
        var last := |x.replies| - 1;
        assert OnlyProgress(env.requestId, x.replies[..last]);
        ProgressCountsNothing(env.requestId, x.replies[..last], id);
      } else {
        ProgressCountsNothing(env.requestId, x.replies, id);
      }
    case Err(e) =>
      if x.replies != [] {
        assert x.replies[..0] == [];
      }
  }

  /** In everything written under an id there is one terminal frame for each answerable request
      that carried it, and for id 0 one more for each framing error: never two for one request. */
  lemma {:induction false} OneTerminalEach(w: Wire<Reply>, log: seq<Exchange>, id: nat)
    requires forall i | 0 <= i < |log| :: Honoured(w, log[i])
    ensures TerminalCount(AllReplies(log), id) == TotalOwed(w, log, id)
  {
    hide Honoured, Owed;
    if log != [] {
      var last := |log| - 1;
      OneTerminalEach(w, log[..last], id);
      ExchangeCount(w, log[last], id);
      TerminalConcat(AllReplies(log[..last]), log[last].replies, id);
    }
  }

  // ---------- Some request is never answered ----------

  /** The byte strings of length at most `n`: there are finitely many. */
  ghost function Strings(n: nat): set<seq<Byte>> {
    if n == 0 then {[]}
    else Strings(n - 1) + set s, b: Byte | s in Strings(n - 1) && 0 <= b < 256 :: s + [b]
  }

  lemma {:induction false} StringsAll(n: nat, s: seq<Byte>)
    requires |s| <= n
    ensures s in Strings(n)
  {
    if n > 0 {
      if |s| == n {
        StringsAll(n - 1, s[..n - 1]);
        assert s == s[..n - 1] + [s[n - 1]];
      } else {
        StringsAll(n - 1, s);
      }
    }
  }

  ghost function Image(ks: set<nat>, f: nat -> seq<Byte>): set<seq<Byte>> {
    set k | k in ks :: f(k)
  }

  lemma {:induction false} ImageSize(ks: set<nat>, f: nat -> seq<Byte>)
    requires forall a, b | a in ks && b in ks && a != b :: f(a) != f(b)
    ensures |Image(ks, f)| == |ks|
    decreases ks
  {
    if ks != {} {
      var k :| k in ks;
      ImageSize(ks - {k}, f);
      assert Image(ks, f) == Image(ks - {k}, f) + {f(k)};
    }
  }

  lemma {:induction false} SubsetSize<T>(a: set<T>, b: set<T>)
    requires a <= b
    ensures |a| <= |b|
    decreases a
  {
    if a != {} {
      var x :| x in a;
      SubsetSize(a - {x}, b - {x});
    }
  }

  ghost function Below(n: nat): (ks: set<nat>)
    ensures |ks| == n && forall k :: k in ks <==> 0 <= k < n
  {
    if n == 0 then {} else Below(n - 1) + {n - 1}
  }

  /** What a lookup answers when it fails with a detail of `k` letters. */
  function Failure(k: nat): Response {
    Error(WorkFailed(seq(k, _ => 'x')))
  }

  lemma FailuresApart(a: nat, b: nat)
    requires a != b
    ensures Failure(a) != Failure(b)
  {
    assert |Failure(a).error.detail| == a && |Failure(b).error.detail| == b;
  }

  /** Distinct failures need distinct frames, and there are only so many within the limit. */
  lemma SomeUnfit(w: Wire<Reply>, id: nat, limit: nat) returns (k: nat)
    requires InversePair(w) && limit >= MAX_REQUEST_BYTES
    ensures !Fits(w, id, Failure(k))
  {
    hide Failure, ToLittleEndian, Strings;
    var all := Below(|Strings(limit)| + 1);
    var fit := set n | n in all && Fits(w, id, Failure(n));
    var payload := (n: nat) => var s := w.serialize(Envelope(id, Failure(n))); if s.Some? then s.value else [];
    forall a, b | a in fit && b in fit && a != b
      ensures payload(a) != payload(b)
    {
      FailuresApart(a, b);
      Inverts(w, Envelope(id, Failure(a)));
      Inverts(w, Envelope(id, Failure(b)));
    }
    ImageSize(fit, payload);
    forall s | s in Image(fit, payload)
      ensures s in Strings(limit)
    {
      StringsAll(limit, s);
    }
    SubsetSize(Image(fit, payload), Strings(limit));
    assert fit != all;
    k :| k in all && k !in fit;
  }

  /** Whatever the serializer, some lookup fails in a way that no frame can carry: the connection
      closes and the request is never answered. */
  lemma UnsendableError(w: Wire<Reply>, id: nat) returns (x: Exchange)
    requires InversePair(w)
    ensures Honoured(w, x) && Dispatched(x) && x.incoming.Ok? && x.incoming.value.requestId == id && x.incoming.value.payload.GetSymbol?
    ensures x.replies == [] && !x.open && TotalOwed(w, [x], id) == 0
  {
    hide Fits;
    var k := SomeUnfit(w, id, MAX_REQUEST_BYTES);
    var env := Envelope(id, GetSymbol("file", "symbol"));
    var m := Moment(StillStarting, StillStarting, StillStarting, "", false, [], Err(Failure(k).error), Err(Starting));
    x := Exchange(Ok(env), m, true, true, [], false);
    assert LastTried(w, true, env, m) == Failure(k) == Error(m.answer.error);
    ErrorFrameSends(w, id, m.answer.error);
    assert Served(w, env, m, ErrorFrame(w, id, m.answer.error));
    assert [x][..0] == [];
  }

  // ---------- What the peer reads ----------

  function Goods(frames: seq<Reply>): seq<Sent<Reply>> {
    seq(|frames|, i requires 0 <= i < |frames| => Good(frames[i]))
  }

  function Reads(frames: seq<Reply>): seq<Result<Reply, FrameError>> {
    seq(|frames|, i requires 0 <= i < |frames| => Ok(frames[i]))
  }

  lemma {:induction false} RepliesFit(w: Wire<Reply>, log: seq<Exchange>)
    requires forall i | 0 <= i < |log| :: Honoured(w, log[i])
    ensures AllFit(w, AllReplies(log))
  {
    hide Answered;
    if log != [] {
      RepliesFit(w, log[..|log| - 1]);
      assert Honoured(w, log[|log| - 1]);
    }
  }

  lemma {:induction false} OutcomesOfGoods(frames: seq<Reply>)
    ensures AllOutcomes(Goods(frames)) == Reads(frames)
    decreases |frames|
  {
    if frames != [] {
      assert Goods(frames)[1..] == Goods(frames[1..]);
      OutcomesOfGoods(frames[1..]);
      assert Reads(frames) == [Ok(frames[0])] + Reads(frames[1..]);
    }
  }

  /** The bytes a connection writes, cut off wherever the stream ends, decode to exactly the
      frames it wrote, in order. */
  lemma PeerReadsReplies(w: Wire<Reply>, log: seq<Exchange>, tail: seq<Byte>)
    requires InversePair(w) && CutShort(tail)
    requires forall i | 0 <= i < |log| :: Honoured(w, log[i])
    ensures ReadStream(w, AllBytes(w, Goods(AllReplies(log))) + tail).0 == Reads(AllReplies(log))
  {
    hide Honoured, InversePair, CutShort, Encode;
    var frames := AllReplies(log);
    RepliesFit(w, log);
    assert forall f | f in Goods(frames) :: Sendable(w, f);
    StreamRoundTrip(w, Goods(frames), tail);
    OutcomesOfGoods(frames);
  }
}
