// The life of a server connection of websocketpp (impl/connection_impl.hpp).  The server runs its handlers
// on one thread, so each handler is one atomic action; nothing is assumed about their order, except that a
// requested shutdown completes at most once.
module Lifecycle {

  datatype Life = Connecting | Open | Closing | Closed

  datatype IState = UserInit | TransportInit | ReadRequest | ProcessRequest | ProcessConnection

  datatype HttpState = HInit | HDeferred | HBodyWritten | HClosed

  /** The error codes the code tells apart. */
  datatype Err = NoError | HttpEnded | Eof | InvalidState | Aborted | OtherError

  /** What the transport reports; http_connection_ended is the connection's own. */
  type Report = e: Err | e != HttpEnded witness NoError

  /** The status code of the response, as far as the code tells them apart: not set, 101, or another. */
  datatype Status = NoStatus | Switching | OtherStatus

  datatype Tstat = FailedStat | ClosedStat

  /** The fields, the shutdowns requested and not completed, and how often each user handler was called. */
  datatype State = State(
    life: Life, istate: IState, ec: Err, isHttp: bool, http: HttpState, status: Status, wasClean: bool,
    shutdowns: seq<Tstat>, requested: nat, openCalls: nat, failCalls: nat, closeCalls: nat)

  function Init(): State {
    State(Connecting, UserInit, NoError, false, HInit, NoStatus, false, [], 0, 0, 0, 0)
  }

  /** How the request was answered: upgraded; handed to the HTTP handler, which may set a status and defer the
      response; or refused, with whatever status the application has set. */
  datatype Answer = Upgrade | Http(deferred: bool, status: Status) | Refused(status: Status)

  datatype Handshake = OutOfBounds | BadRequest | Incomplete | Complete(answer: Answer)

  /** What one piece of frame data leads to; `sent` says whether a close frame could be prepared. */
  datatype Event =
    | ProtocolError(sent: bool)
    | Message(closes: bool, sent: bool)
    | PingPong
    | CloseFrame(valid: bool, sent: bool)

  datatype Action =
    | Start
    | HandleTransportInit(e: Report)
    | HandleReadHandshake(e: Report, request: Handshake)
    | SetStatus(status: Status)
    | DeferHttpResponse
    | SendHttpResponse
    | HandleWriteHttpResponse(e: Report)
    | HandleReadFrame(e: Report, events: seq<Event>)
    | Close(sent: bool)
    | WriteEnds(e: Report, terminal: bool)
    | OpenTimeout(e: Report)
    | CloseTimeout(e: Report)
    | Abandon(e: Report)     // terminate called by the endpoint
    | HandleTerminate

  // ---------- the handlers as functions ----------

  function Terminate(s: State, e: Err): State {
    var noted := if e != NoError then s.(ec := e) else s;
    var t := if s.isHttp then noted.(http := HClosed) else noted;
    if s.life == Closed then t
    else
      var tstat := if s.life == Connecting then FailedStat else ClosedStat;
      t.(life := Closed, shutdowns := s.shutdowns + [tstat], requested := s.requested + 1)
  }

  function WriteHttpResponse(s: State, e: Err): State {
    if e == HttpEnded then s
    else if s.status == NoStatus then s.(status := OtherStatus, ec := OtherError)
    else s.(ec := e)
  }

  function ReadHandshakeError(s: State, e: Err): Err {
    if e != NoError then e
    else if s.life == Connecting && s.istate == ReadRequest then NoError
    else InvalidState
  }

  function WriteHttpResponseError(s: State, e: Err): State {
    if s.istate != ReadRequest then Terminate(s, InvalidState)
    else WriteHttpResponse(s.(istate := ProcessRequest), e)
  }

  /** A refusal without a status of its own is a bad request. */
  function BadUnlessSet(status: Status): Status {
    if status == NoStatus then OtherStatus else status
  }

  function Answered(s: State, a: Answer): State {
    var p := s.(istate := ProcessRequest);
    match a
    case Upgrade => WriteHttpResponse(p.(status := Switching), NoError)
    case Http(deferred, status) =>
      var h := p.(isHttp := true, http := if deferred then HDeferred else p.http, status := status);
      if h.http == HInit then WriteHttpResponse(h, NoError) else h
    case Refused(status) => WriteHttpResponse(p.(status := BadUnlessSet(status)), OtherError)
  }

  function ReadHandshake(s: State, e: Err, request: Handshake): State {
    if e == NoError && s.life == Closed then s
    else
      var ecm := ReadHandshakeError(s, e);
      if ecm != NoError then (if ecm == Eof && s.life == Closed then s else Terminate(s, ecm))
      else
        match request
        case OutOfBounds => Terminate(s, OtherError)
        case BadRequest => WriteHttpResponseError(s.(status := OtherStatus), OtherError)
        case Incomplete => s
        case Complete(a) => Answered(s, a)
  }

  function WroteHttpResponse(s: State, e: Err): State {
    if e == NoError && s.life == Closed then s
    else
      var ecm := if e != NoError then e
                 else if s.life == Connecting && s.istate == ProcessRequest then NoError else InvalidState;
      if ecm != NoError then (if ecm == Eof && s.life == Closed then s else Terminate(s, ecm))
      else if s.status != Switching then
        var ended := if s.isHttp then s.(ec := HttpEnded) else s;
        Terminate(ended, ended.ec)
      else s.(istate := ProcessConnection, life := Open, openCalls := s.openCalls + 1)
  }

  function SendCloseFrame(s: State, ack: bool, sent: bool): State {
    if !sent then s else s.(life := Closing, wasClean := s.wasClean || ack)
  }

  function UserClose(s: State, sent: bool): State {
    if s.life != Open then s else SendCloseFrame(s, false, sent)
  }

  function ControlFrame(s: State, valid: bool, sent: bool, drop: bool): State {
    if s.life == Closed then s
    else if !valid then (if drop then Terminate(s, OtherError) else SendCloseFrame(s, true, sent))
    else if s.life == Open then SendCloseFrame(s, true, sent)
    else if s.life == Closing && !s.wasClean then Terminate(s.(wasClean := true), NoError)
    else s
  }

  /** One round of the loop over the received bytes, and whether the loop goes on. */
  function Consume(s: State, ev: Event, drop: bool): (State, bool) {
    match ev
    case ProtocolError(sent) =>
      if drop then (Terminate(s, OtherError), false)
      else if s.life == Open && sent then (UserClose(s, true), false)
      else (Terminate(s, if s.life != Open then InvalidState else OtherError), false)
    case Message(closes, sent) => (if s.life == Open && closes then UserClose(s, sent) else s, true)
    case PingPong => (s, true)
    case CloseFrame(valid, sent) => (ControlFrame(s, valid, sent, drop), true)
  }

  function ConsumeAll(s: State, events: seq<Event>, drop: bool): State
    decreases |events|
  {
    if events == [] then s
    else
      var (t, more) := Consume(s, events[0], drop);
      if more then ConsumeAll(t, events[1..], drop) else t
  }

  function ReadFrame(s: State, e: Err, events: seq<Event>, drop: bool): State {
    var ecm := if e != NoError then e else if s.istate != ProcessConnection then InvalidState else NoError;
    if ecm == NoError then ConsumeAll(s, events, drop)
    else if ecm in {Eof, InvalidState} && s.life == Closed then s
    else Terminate(s, ecm)
  }

  function Timeout(s: State, e: Err): State {
    if e == NoError then Terminate(s, OtherError) else s
  }

  function HandleTerminated(s: State): State
    requires s.shutdowns != []
  {
    var t := s.(shutdowns := s.shutdowns[1..]);
    if s.shutdowns[0] == FailedStat then (if s.ec != HttpEnded then t.(failCalls := s.failCalls + 1) else t)
    else t.(closeCalls := s.closeCalls + 1)
  }

  function TransportReady(s: State, e: Err): State {
    var ecm := if s.istate != TransportInit then InvalidState else e;
    if ecm != NoError then Terminate(s, ecm) else s.(istate := ReadRequest)
  }

  predicate Enabled(s: State, a: Action) {
    a.HandleTerminate? ==> s.shutdowns != []
  }

  /** `drop` is config::drop_on_protocol_error. */
  function Apply(s: State, a: Action, drop: bool): State
    requires Enabled(s, a)
  {
    match a
    case Start => if s.istate != UserInit then Terminate(s, InvalidState) else s.(istate := TransportInit)
    case HandleTransportInit(e) => TransportReady(s, e)
    case HandleReadHandshake(e, request) => ReadHandshake(s, e, request)
    case SetStatus(status) => if s.istate == ProcessRequest then s.(status := status) else s
    case DeferHttpResponse => s.(http := HDeferred)
    case SendHttpResponse => if s.http != HDeferred then s else WriteHttpResponse(s.(http := HBodyWritten), NoError)
    case HandleWriteHttpResponse(e) => WroteHttpResponse(s, e)
    case HandleReadFrame(e, events) => ReadFrame(s, e, events, drop)
    case Close(sent) => UserClose(s, sent)
    case WriteEnds(e, terminal) => if e != NoError || terminal then Terminate(s, e) else s
    case OpenTimeout(e) => Timeout(s, e)
    case CloseTimeout(e) => Timeout(s, e)
    case Abandon(e) => Terminate(s, e)
    case HandleTerminate => HandleTerminated(s)
  }

  // ---------- the invariant ----------

  function Rank(l: Life): nat {
    match l
    case Connecting => 0
    case Open => 1
    case Closing => 2
    case Closed => 3
  }

  ghost predicate Inv(s: State) {
    // a shutdown is requested on the way to closed, and only then
    && s.requested == (if s.life == Closed then 1 else 0)
    && |s.shutdowns| + s.failCalls + s.closeCalls <= s.requested
    // frames are processed only on a connection that was opened
    && (s.istate == ProcessConnection <==> s.openCalls == 1) && s.openCalls <= 1
    && (s.life in {Open, Closing} ==> s.openCalls == 1)
    && (s.life == Connecting ==> s.openCalls == 0)
    // the pending status, and the handler called for it, tell whether the connection was open
    && (s.shutdowns != [] ==> s.openCalls == if s.shutdowns[0] == FailedStat then 0 else 1)
    && (s.failCalls > 0 ==> s.openCalls == 0)
    && (s.life == Closed && s.shutdowns == [] ==> s.closeCalls == s.openCalls)
  }

  lemma TerminateKeeps(s: State, e: Err)
    requires Inv(s)
    ensures Inv(Terminate(s, e)) && Terminate(s, e).life == Closed
  {
    if s.life != Closed { assert s.shutdowns == []; }
  }

  lemma CloseKeeps(s: State, ack: bool, sent: bool)
    requires Inv(s) && s.life in {Open, Closing}
    ensures Inv(SendCloseFrame(s, ack, sent)) && Rank(s.life) <= Rank(SendCloseFrame(s, ack, sent).life)
  {
  }

  lemma ControlKeeps(s: State, valid: bool, sent: bool, drop: bool)
    requires Inv(s) && s.openCalls == 1
    ensures var t := ControlFrame(s, valid, sent, drop); Inv(t) && t.openCalls == 1 && Rank(s.life) <= Rank(t.life)
  {
    TerminateKeeps(s, OtherError);
    TerminateKeeps(s.(wasClean := true), NoError);
    if s.life != Closed { CloseKeeps(s, true, sent); }
  }

  lemma ConsumeKeeps(s: State, ev: Event, drop: bool)
    requires Inv(s) && s.openCalls == 1
    ensures var t := Consume(s, ev, drop).0; Inv(t) && t.openCalls == 1 && Rank(s.life) <= Rank(t.life)
  {
    TerminateKeeps(s, OtherError);
    TerminateKeeps(s, InvalidState);
    if ev.CloseFrame? { ControlKeeps(s, ev.valid, ev.sent, drop); }
  }

  lemma {:induction false} ConsumeAllKeeps(s: State, events: seq<Event>, drop: bool)
    requires Inv(s) && s.openCalls == 1
    ensures var t := ConsumeAll(s, events, drop); Inv(t) && Rank(s.life) <= Rank(t.life)
    decreases |events|
  {
    if events != [] {
      ConsumeKeeps(s, events[0], drop);
      ConsumeAllKeeps(Consume(s, events[0], drop).0, events[1..], drop);
    }
  }

  /** What only prepares a response leaves the life of the connection alone. */
  lemma OnlyAnswers(s: State, t: State)
    requires Inv(s) && t.life == s.life && t.shutdowns == s.shutdowns && t.requested == s.requested
    requires t.openCalls == s.openCalls && t.failCalls == s.failCalls && t.closeCalls == s.closeCalls
    requires t.istate == ProcessConnection <==> s.istate == ProcessConnection
    ensures Inv(t)
  {
  }

  lemma AnswerKeeps(s: State, a: Answer)
    requires Inv(s) && s.istate == ReadRequest
    ensures Inv(Answered(s, a)) && Answered(s, a).life == s.life
  {
    OnlyAnswers(s, Answered(s, a));
  }

  lemma FieldKeeps(s: State, a: Action, drop: bool)
    requires Inv(s) && (a.SetStatus? || a.DeferHttpResponse? || a.SendHttpResponse?)
    ensures Inv(Apply(s, a, drop)) && Apply(s, a, drop).life == s.life
  {
    OnlyAnswers(s, Apply(s, a, drop));
  }

  lemma HandshakeKeeps(s: State, e: Err, request: Handshake)
    requires Inv(s)
    ensures var t := ReadHandshake(s, e, request); Inv(t) && Rank(s.life) <= Rank(t.life)
  {
    if e == NoError && s.life == Connecting && s.istate == ReadRequest {
      match request
      case OutOfBounds => TerminateKeeps(s, OtherError);
      case BadRequest => OnlyAnswers(s, WriteHttpResponseError(s.(status := OtherStatus), OtherError));
      case Incomplete =>
      case Complete(a) => AnswerKeeps(s, a);
    } else {
      TerminateKeeps(s, ReadHandshakeError(s, e));
    }
  }

  lemma ResponseKeeps(s: State, e: Err)
    requires Inv(s)
    ensures var t := WroteHttpResponse(s, e); Inv(t) && Rank(s.life) <= Rank(t.life)
  {
    if e != NoError {
      TerminateKeeps(s, e);
    } else if s.life != Connecting || s.istate != ProcessRequest {
      TerminateKeeps(s, InvalidState);
    } else if s.isHttp {
      TerminateKeeps(s.(ec := HttpEnded), HttpEnded);
    } else {
      TerminateKeeps(s, s.ec);
    }
  }

  lemma FrameKeeps(s: State, e: Err, events: seq<Event>, drop: bool)
    requires Inv(s)
    ensures var t := ReadFrame(s, e, events, drop); Inv(t) && Rank(s.life) <= Rank(t.life)
  {
    if e == NoError && s.istate == ProcessConnection {
      ConsumeAllKeeps(s, events, drop);
    } else {
      TerminateKeeps(s, if e != NoError then e else InvalidState);
    }
  }

  lemma InitKeeps(s: State, e: Err)
    requires Inv(s)
    ensures var t := TransportReady(s, e); Inv(t) && Rank(s.life) <= Rank(t.life)
  {
    TerminateKeeps(s, if s.istate != TransportInit then InvalidState else e);
  }

  lemma TerminatedKeeps(s: State)
    requires Inv(s) && s.shutdowns != []
    ensures Inv(HandleTerminated(s)) && s.life == HandleTerminated(s).life
  {
  }

  /** The handlers that do no more than terminate, or nothing. */
  lemma PlainKeeps(s: State, a: Action, drop: bool)
    requires Inv(s) && (a.WriteEnds? || a.Abandon? || a.Start? || a.OpenTimeout? || a.CloseTimeout?)
    ensures Inv(Apply(s, a, drop)) && Rank(s.life) <= Rank(Apply(s, a, drop).life)
  {
    match a
    case WriteEnds(e, _) => TerminateKeeps(s, e);
    case Abandon(e) => TerminateKeeps(s, e);
    case Start => TerminateKeeps(s, InvalidState);
    case OpenTimeout(_) => TerminateKeeps(s, OtherError);
    case CloseTimeout(_) => TerminateKeeps(s, OtherError);
  }

  /** Every handler, in whatever state it is called, keeps the invariant and never moves the state back. */
  lemma StepKeeps(s: State, a: Action, drop: bool)
    requires Inv(s) && Enabled(s, a)
    ensures Inv(Apply(s, a, drop)) && Rank(s.life) <= Rank(Apply(s, a, drop).life)
  {
    match a
    case HandleReadHandshake(e, request) => HandshakeKeeps(s, e, request);
    case HandleWriteHttpResponse(e) => ResponseKeeps(s, e);
    case HandleReadFrame(e, events) => FrameKeeps(s, e, events, drop);
    case Close(sent) => if s.life == Open { CloseKeeps(s, false, sent); }
    case HandleTerminate => TerminatedKeeps(s);
    case HandleTransportInit(e) => InitKeeps(s, e);
    case _ =>
      if a.SetStatus? || a.DeferHttpResponse? || a.SendHttpResponse? {
        FieldKeeps(s, a, drop);
      } else {
        PlainKeeps(s, a, drop);
      }
  }

  // ---------- whole runs ----------

  ghost predicate Possible(s: State, run: seq<Action>, drop: bool)
    decreases |run|
  {
    run == [] || (Enabled(s, run[0]) && Possible(Apply(s, run[0], drop), run[1..], drop))
  }

  ghost function After(s: State, run: seq<Action>, drop: bool): State
    requires Possible(s, run, drop)
    decreases |run|
  {
    if run == [] then s else After(Apply(s, run[0], drop), run[1..], drop)
  }

  /** Connecting, open, closing, closed: in every run, from any reachable state, never backwards. */
  lemma {:induction false} NeverBackwards(s: State, run: seq<Action>, drop: bool)
    requires Inv(s) && Possible(s, run, drop)
    ensures Inv(After(s, run, drop)) && Rank(s.life) <= Rank(After(s, run, drop).life)
    decreases |run|
  {
    if run != [] {
      StepKeeps(s, run[0], drop);
      NeverBackwards(Apply(s, run[0], drop), run[1..], drop);
    }
  }

  /** The handler contract: one shutdown, requested exactly when the connection closes; never both a fail and
      an open, never a close without an open, nothing called twice; and once the shutdown has completed, the
      close handler has been called exactly as often as the open handler. */
  lemma HandlerContract(run: seq<Action>, drop: bool)
    requires Possible(Init(), run, drop)
    ensures var s := After(Init(), run, drop);
      && s.requested == (if s.life == Closed then 1 else 0)
      && s.failCalls + s.openCalls <= 1 && s.closeCalls <= s.openCalls
      && (s.life == Closed && s.shutdowns == [] ==> s.closeCalls == s.openCalls)
  {
    NeverBackwards(Init(), run, drop);
  }

  // ---------- what closes a connection ----------

  /** An error is reported, a handler is called out of place, a request is out of bounds, a response other than 101 or
      a terminal message has been written, a timer has expired, or the endpoint gives up. */
  predicate Breaks(s: State, a: Action) {
    match a
    case Start => s.istate != UserInit
    case HandleTransportInit(e) => e != NoError || s.istate != TransportInit
    case HandleReadHandshake(e, request) =>
      e != NoError || s.life != Connecting || s.istate != ReadRequest || request.OutOfBounds?
    case HandleWriteHttpResponse(e) =>
      e != NoError || s.life != Connecting || s.istate != ProcessRequest || s.status != Switching
    case HandleReadFrame(e, _) => e != NoError || s.istate != ProcessConnection
    case WriteEnds(e, terminal) => e != NoError || terminal
    case OpenTimeout(e) => e == NoError
    case CloseTimeout(e) => e == NoError
    case Abandon(_) => true
    case _ => false
  }

  /** Frames apart, exactly these close a connection that is not closed. */
  lemma ClosesIff(s: State, a: Action, drop: bool)
    requires s.life != Closed && Enabled(s, a)
    requires a.HandleReadFrame? ==> a.e != NoError || s.istate != ProcessConnection
    ensures Apply(s, a, drop).life == Closed <==> Breaks(s, a)
  {
  }

  // ---------- opening and closing ----------

  /** Action a, and then the actions `later`. */
  lemma RunOf(drop: bool, s: State, a: Action, next: State, later: seq<Action>, end: State) returns (run: seq<Action>)
    requires Enabled(s, a) && Apply(s, a, drop) == next
    requires Possible(next, later, drop) && After(next, later, drop) == end
    ensures run == [a] + later && Possible(s, run, drop) && After(s, run, drop) == end
  {
    run := [a] + later;
    assert run[1..] == later;
  }

  /** An opened connection that is being shut down. */
  function ShutDown(s: State): State {
    s.(life := Closed, shutdowns := [ClosedStat], requested := 1, http := if s.isHttp then HClosed else s.http)
  }

  /** ... whose shutdown has been reported. */
  function Ended(s: State): State {
    ShutDown(s).(wasClean := true, shutdowns := [], closeCalls := 1)
  }

  /** The shutdown of an opened connection ends with the close handler. */
  lemma ClosesAtEnd(drop: bool, s: State) returns (run: seq<Action>)
    requires Inv(s) && s.life in {Open, Closing} && s.wasClean
    ensures run == [HandleTerminate]
    ensures Possible(ShutDown(s), run, drop) && After(ShutDown(s), run, drop) == Ended(s)
  {
    var t := ShutDown(s);
    assert s.shutdowns == [] && s.closeCalls == 0;
    assert t.shutdowns[1..] == [];
    run := RunOf(drop, t, HandleTerminate, Ended(s), [], Ended(s));
  }

  /** The peer closes an open connection: its close frame is acknowledged, and with the acknowledgement written the
      connection closes cleanly. */
  lemma PeerCloses(drop: bool, s: State)
    requires Inv(s) && s.life == Open
    ensures Apply(s, HandleReadFrame(NoError, [CloseFrame(true, true)]), drop) == s.(life := Closing, wasClean := true)
    ensures var run := [HandleReadFrame(NoError, [CloseFrame(true, true)]), WriteEnds(NoError, true), HandleTerminate];
      Possible(s, run, drop) && After(s, run, drop) == Ended(s)
  {
    var closing := s.(life := Closing, wasClean := true);
    assert s.shutdowns == [];
    OneFrame(s, CloseFrame(true, true), drop);
    var run := ClosesAtEnd(drop, closing);
    run := RunOf(drop, closing, WriteEnds(NoError, true), ShutDown(closing), run, Ended(s));
    run := RunOf(drop, s, HandleReadFrame(NoError, [CloseFrame(true, true)]), closing, run, Ended(s));
  }

  /** The application closes an open connection: the peer's answer ends it at once, as the server must. */
  lemma ApplicationCloses(drop: bool, s: State, sent: bool)
    requires Inv(s) && s.life == Open && !s.wasClean
    ensures Apply(s, Close(true), drop) == s.(life := Closing)
    ensures var run := [Close(true), HandleReadFrame(NoError, [CloseFrame(true, sent)]), HandleTerminate];
      Possible(s, run, drop) && After(s, run, drop) == Ended(s)
  {
    var closing := s.(life := Closing);
    assert s.shutdowns == [];
    OneFrame(closing, CloseFrame(true, sent), drop);
    var clean := closing.(wasClean := true);
    var run := ClosesAtEnd(drop, clean);
    run := RunOf(drop, closing, HandleReadFrame(NoError, [CloseFrame(true, sent)]), ShutDown(clean), run, Ended(s));
    run := RunOf(drop, s, Close(true), closing, run, Ended(s));
  }

  lemma OneFrame(s: State, ev: Event, drop: bool)
    requires s.istate == ProcessConnection
    ensures ReadFrame(s, NoError, [ev], drop) == Consume(s, ev, drop).0
  {
    var t := Consume(s, ev, drop).0;
    assert [ev][1..] == [];
    assert ConsumeAll(t, [], drop) == t;
    assert ConsumeAll(s, [ev], drop) == t;
  }

  /** A close frame that cannot be processed, or any other breach of the protocol, ends the connection where the
      configuration says so. */
  lemma BreachesDrop(s: State, ev: Event, sent: bool)
    requires Inv(s) && s.life in {Open, Closing} && ev in {CloseFrame(false, sent), ProtocolError(sent)}
    ensures Apply(s, HandleReadFrame(NoError, [ev]), true) == Terminate(s, OtherError)
    ensures Terminate(s, OtherError).life == Closed && Terminate(s, OtherError).shutdowns == [ClosedStat]
  {
    assert s.shutdowns == [];
    OneFrame(s, ev, true);
  }

  /** ... and where it does not, starts to close: an open connection sends a close frame, if one can be prepared. */
  lemma BreachesClose(s: State, sent: bool)
    requires Inv(s) && s.life == Open
    ensures Apply(s, HandleReadFrame(NoError, [ProtocolError(sent)]), false)
            == if sent then s.(life := Closing) else Terminate(s, OtherError)
    ensures Apply(s, HandleReadFrame(NoError, [CloseFrame(false, sent)]), false)
            == if sent then s.(life := Closing, wasClean := true) else s
  {
    OneFrame(s, ProtocolError(sent), false);
    OneFrame(s, CloseFrame(false, sent), false);
  }

  function OpenState(): State {
    Init().(life := Open, istate := ProcessConnection, status := Switching, openCalls := 1)
  }

  /** A handshake from the start: the connection opens when its response has been written. */
  lemma Opens(drop: bool)
    ensures var run := [Start, HandleTransportInit(NoError), HandleReadHandshake(NoError, Complete(Upgrade)),
                        HandleWriteHttpResponse(NoError)];
      Possible(Init(), run, drop) && After(Init(), run, drop) == OpenState()
  {
    var s1 := Init().(istate := TransportInit);
    var s2 := s1.(istate := ReadRequest);
    var s3 := s2.(istate := ProcessRequest, status := Switching);
    var run := RunOf(drop, s3, HandleWriteHttpResponse(NoError), OpenState(), [], OpenState());
    run := RunOf(drop, s2, HandleReadHandshake(NoError, Complete(Upgrade)), s3, run, OpenState());
    run := RunOf(drop, s1, HandleTransportInit(NoError), s2, run, OpenState());
    run := RunOf(drop, Init(), Start, s1, run, OpenState());
  }

  /** A handshake that is refused, with the refusal still to be written. */
  function Refusing(): State {
    Init().(istate := ProcessRequest, status := OtherStatus, ec := OtherError)
  }

  lemma RefusalWritten(drop: bool) returns (run: seq<Action>)
    ensures run == [HandleWriteHttpResponse(NoError), HandleTerminate] && Possible(Refusing(), run, drop)
    ensures var s := After(Refusing(), run, drop); s.life == Closed && s.failCalls == 1 && s.openCalls == 0
  {
    var closed := Refusing().(life := Closed, shutdowns := [FailedStat], requested := 1);
    var end := closed.(shutdowns := [], failCalls := 1);
    assert closed.shutdowns[1..] == [];
    run := RunOf(drop, closed, HandleTerminate, end, [], end);
    run := RunOf(drop, Refusing(), HandleWriteHttpResponse(NoError), closed, run, end);
  }

  /** A refused handshake: once the refusal has been written the connection closes, and the fail handler runs. */
  lemma RefusedFails(drop: bool)
    ensures var run := [Start, HandleTransportInit(NoError), HandleReadHandshake(NoError, Complete(Refused(NoStatus))),
                        HandleWriteHttpResponse(NoError), HandleTerminate];
      Possible(Init(), run, drop)
      && var s := After(Init(), run, drop); s.life == Closed && s.failCalls == 1 && s.openCalls == 0
  {
    var s1 := Init().(istate := TransportInit);
    var s2 := s1.(istate := ReadRequest);
    var run := RefusalWritten(drop);
    var end := After(Refusing(), run, drop);
    run := RunOf(drop, s2, HandleReadHandshake(NoError, Complete(Refused(NoStatus))), Refusing(), run, end);
    run := RunOf(drop, s1, HandleTransportInit(NoError), s2, run, end);
    run := RunOf(drop, Init(), Start, s1, run, end);
  }

  // ---------- plain HTTP connections ----------

  /** More of what every reachable state satisfies: a plain HTTP connection that was not opened stays in the middle
      of its request, and the code for its end is stored only when it is closed. */
  ghost predicate HttpInv(s: State) {
    && Inv(s)
    && (s.isHttp && s.openCalls == 0 ==> s.istate == ProcessRequest)
    && (s.life == Connecting ==> s.ec != HttpEnded)
  }

  lemma HttpFrames(s: State, e: Err, events: seq<Event>, drop: bool)
    requires HttpInv(s) && e != HttpEnded
    ensures var t := ReadFrame(s, e, events, drop); HttpInv(t) && t.isHttp == s.isHttp && t.openCalls == s.openCalls
  {
    FrameKeeps(s, e, events, drop);
    if e == NoError && s.istate == ProcessConnection { HttpConsume(s, events, drop); }
  }

  /** Frames belong to an opened connection, and do not touch what HttpInv speaks of. */
  lemma {:induction false} HttpConsume(s: State, events: seq<Event>, drop: bool)
    requires s.life != Connecting
    ensures var t := ConsumeAll(s, events, drop);
      t.isHttp == s.isHttp && t.istate == s.istate && t.openCalls == s.openCalls && t.life != Connecting
    decreases |events|
  {
    if events != [] {
      HttpConsume(Consume(s, events[0], drop).0, events[1..], drop);
    }
  }

  lemma HttpHandshake(s: State, e: Err, request: Handshake)
    requires HttpInv(s) && e != HttpEnded
    ensures HttpInv(ReadHandshake(s, e, request)) && s.openCalls == ReadHandshake(s, e, request).openCalls
  {
    HandshakeKeeps(s, e, request);
  }

  lemma HttpResponse(s: State, e: Err)
    requires HttpInv(s) && e != HttpEnded
    ensures HttpInv(WroteHttpResponse(s, e)) && s.openCalls <= WroteHttpResponse(s, e).openCalls
  {
    ResponseKeeps(s, e);
  }

  lemma HttpTerminate(s: State, e: Err)
    requires HttpInv(s) && e != HttpEnded
    ensures HttpInv(Terminate(s, e)) && Terminate(s, e).openCalls == s.openCalls
  {
    TerminateKeeps(s, e);
  }

  lemma HttpOther(s: State, a: Action, drop: bool)
    requires HttpInv(s) && Enabled(s, a)
    requires a.Close? || a.HandleTerminate? || a.SetStatus? || a.DeferHttpResponse? || a.SendHttpResponse?
    ensures HttpInv(Apply(s, a, drop)) && s.openCalls == Apply(s, a, drop).openCalls
  {
    StepKeeps(s, a, drop);
  }

  lemma HttpPlain(s: State, a: Action, drop: bool)
    requires HttpInv(s) && Enabled(s, a)
    requires !a.HandleReadFrame? && !a.HandleReadHandshake? && !a.HandleWriteHttpResponse?
    ensures HttpInv(Apply(s, a, drop)) && s.openCalls == Apply(s, a, drop).openCalls
  {
    match a
    case WriteEnds(e, _) => HttpTerminate(s, e);
    case Abandon(e) => HttpTerminate(s, e);
    case Start => HttpTerminate(s, InvalidState);
    case OpenTimeout(_) => HttpTerminate(s, OtherError);
    case CloseTimeout(_) => HttpTerminate(s, OtherError);
    case HandleTransportInit(e) => HttpTerminate(s, if s.istate != TransportInit then InvalidState else e);
    case _ => HttpOther(s, a, drop);
  }

  lemma StepKeepsHttp(s: State, a: Action, drop: bool)
    requires HttpInv(s) && Enabled(s, a)
    ensures HttpInv(Apply(s, a, drop)) && s.openCalls <= Apply(s, a, drop).openCalls
  {
    match a
    case HandleReadFrame(e, events) => HttpFrames(s, e, events, drop);
    case HandleReadHandshake(e, request) => HttpHandshake(s, e, request);
    case HandleWriteHttpResponse(e) => HttpResponse(s, e);
    case _ => HttpPlain(s, a, drop);
  }

  /** A plain HTTP connection that is closed without having been open, and waits for its shutdown. */
  ghost predicate HttpClosed(s: State) {
    HttpInv(s) && s.isHttp && s.life == Closed && s.shutdowns == [FailedStat]
  }

  /** Of all the actions that can close a plain HTTP connection, a response written without error is the one that
      stores the code for its end. */
  lemma ClosesHttp(s: State, a: Action, drop: bool)
    requires HttpInv(s) && Enabled(s, a) && s.life == Connecting
    requires Apply(s, a, drop).life == Closed && Apply(s, a, drop).isHttp
    ensures var t := Apply(s, a, drop); HttpClosed(t) && t.http == HClosed
    ensures Apply(s, a, drop).ec == HttpEnded <==> a == HandleWriteHttpResponse(NoError)
  {
    StepKeepsHttp(s, a, drop);
    ClosesOnce(s, a, drop);
    CodeOfEnd(s, a, drop);
  }

  lemma ClosesOnce(s: State, a: Action, drop: bool)
    requires Inv(s) && Enabled(s, a) && s.life == Connecting
    requires Apply(s, a, drop).life == Closed && Apply(s, a, drop).isHttp
    ensures var t := Apply(s, a, drop); t.shutdowns == [FailedStat] && t.http == HClosed
  {
    assert s.shutdowns == [];
  }

  lemma CodeOfEnd(s: State, a: Action, drop: bool)
    requires HttpInv(s) && Enabled(s, a) && s.life == Connecting
    requires Apply(s, a, drop).life == Closed && Apply(s, a, drop).isHttp
    ensures Apply(s, a, drop).ec == HttpEnded <==> a == HandleWriteHttpResponse(NoError)
  {
  }

  /** A response written without error is also the only thing that opens a connection. */
  lemma OpensOnResponse(s: State, a: Action, drop: bool)
    requires HttpInv(s) && Enabled(s, a) && s.life == Connecting && Apply(s, a, drop).life != Connecting
    requires Apply(s, a, drop).life != Closed
    ensures a == HandleWriteHttpResponse(NoError) && Apply(s, a, drop).openCalls == 1
  {
  }

  /** Handlers that hand terminate() an error although the connection is closed -- a timer that had already
      expired, a failed read or write other than end of file, a handler out of place.  terminate() stores the
      error and only then finds the connection closed. */
  predicate ReportsError(a: Action) {
    match a
    case Start => true
    case HandleTransportInit(_) => true
    case HandleReadHandshake(e, _) => e !in {NoError, Eof}
    case HandleWriteHttpResponse(e) => e !in {NoError, Eof}
    case HandleReadFrame(e, _) => e !in {NoError, Eof, InvalidState}
    case WriteEnds(e, _) => e != NoError
    case OpenTimeout(e) => e == NoError
    case CloseTimeout(e) => e == NoError
    case Abandon(e) => e != NoError
    case _ => false
  }

  /** Whether a response is deferred after action a on a closed plain HTTP connection: any call to terminate()
      takes the deferral back. */
  predicate DeferredAfter(deferred: bool, a: Action) {
    match a
    case DeferHttpResponse => true
    case SendHttpResponse => false
    case WriteEnds(_, terminal) => deferred && !terminal
    case Abandon(_) => false
    case _ => deferred
  }

  /** The stored code is overwritten: by an error, or by sending a response deferred after the close. */
  predicate Overwrites(a: Action, deferred: bool) {
    ReportsError(a) || (deferred && a.SendHttpResponse?)
  }

  lemma LateStep(s: State, a: Action, drop: bool)
    requires HttpClosed(s) && !a.HandleTerminate?
    ensures var t := Apply(s, a, drop);
      && HttpClosed(t)
      && (t.ec == HttpEnded <==> s.ec == HttpEnded && !Overwrites(a, s.http == HDeferred))
      && (!ReportsError(a) ==> (t.http == HDeferred <==> DeferredAfter(s.http == HDeferred, a)))
  {
    StepKeepsHttp(s, a, drop);
  }

  /** The shutdown completes, and nothing has overwritten the stored code before. */
  predicate QuietShutdown(late: seq<Action>, deferred: bool)
    decreases |late|
  {
    late != []
    && (late[0].HandleTerminate?
        || (!Overwrites(late[0], deferred) && QuietShutdown(late[1..], DeferredAfter(deferred, late[0]))))
  }

  lemma {:induction false} ClosedFrames(s: State, events: seq<Event>, drop: bool)
    requires s.life == Closed
    ensures var t := ConsumeAll(s, events, drop);
      t.life == Closed && t.shutdowns == s.shutdowns && t.failCalls == s.failCalls
    decreases |events|
  {
    if events != [] {
      ClosedFrames(Consume(s, events[0], drop).0, events[1..], drop);
    }
  }

  /** A closed connection requests no second shutdown. */
  lemma ClosedStep(s: State, a: Action, drop: bool)
    requires s.life == Closed && Enabled(s, a) && !a.HandleTerminate?
    ensures var t := Apply(s, a, drop); t.life == Closed && t.shutdowns == s.shutdowns && t.failCalls == s.failCalls
  {
    if a.HandleReadFrame? { ClosedFrames(s, a.events, drop); }
  }

  /** After the shutdown nothing changes what was called. */
  lemma {:induction false} NothingCalledAfter(s: State, run: seq<Action>, drop: bool)
    requires s.life == Closed && s.shutdowns == [] && Possible(s, run, drop)
    ensures After(s, run, drop).failCalls == s.failCalls
    decreases |run|
  {
    if run != [] {
      ClosedStep(s, run[0], drop);
      NothingCalledAfter(Apply(s, run[0], drop), run[1..], drop);
    }
  }

  lemma {:induction false} ClosedRun(s: State, late: seq<Action>, drop: bool)
    requires HttpClosed(s) && Possible(s, late, drop) && After(s, late, drop).shutdowns == []
    ensures After(s, late, drop).failCalls == 0 <==> s.ec == HttpEnded && QuietShutdown(late, s.http == HDeferred)
    decreases |late|
  {
    if late != [] {
      StepKeeps(s, late[0], drop);
      if late[0].HandleTerminate? {
        NothingCalledAfter(Apply(s, late[0], drop), late[1..], drop);
      } else {
        LateStep(s, late[0], drop);
        ClosedRun(Apply(s, late[0], drop), late[1..], drop);
      }
    }
  }

  /** A response is written without error to a connecting peer; that opens the connection, or closes it, and then
      nothing overwrites the code for its end before the shutdown is over. */
  ghost predicate RespondsQuietly(s: State, run: seq<Action>, drop: bool)
    requires Possible(s, run, drop)
    decreases |run|
  {
    run != []
    && (var t := Apply(s, run[0], drop);
        if t.life == Connecting then RespondsQuietly(t, run[1..], drop)
        else run[0] == HandleWriteHttpResponse(NoError) && (t.life == Closed ==> QuietShutdown(run[1..], false)))
  }

  /** A connection that was opened never fails. */
  lemma {:induction false} OpenedNeverFails(s: State, run: seq<Action>, drop: bool)
    requires HttpInv(s) && s.openCalls == 1 && Possible(s, run, drop)
    ensures After(s, run, drop).failCalls == 0
    decreases |run|
  {
    if run != [] {
      StepKeepsHttp(s, run[0], drop);
      OpenedNeverFails(Apply(s, run[0], drop), run[1..], drop);
    }
  }

  lemma {:induction false} StaysNonHttp(s: State, run: seq<Action>, drop: bool)
    requires HttpInv(s) && !s.isHttp && s.life != Connecting && Possible(s, run, drop)
    ensures !After(s, run, drop).isHttp
    decreases |run|
  {
    if run != [] {
      NotHttpLater(s, run[0], drop);
      StaysNonHttp(Apply(s, run[0], drop), run[1..], drop);
    }
  }

  lemma NotHttpLater(s: State, a: Action, drop: bool)
    requires HttpInv(s) && Enabled(s, a) && !s.isHttp && s.life != Connecting
    ensures var t := Apply(s, a, drop); HttpInv(t) && !t.isHttp && t.life != Connecting
  {
    StepKeepsHttp(s, a, drop);
    StepKeeps(s, a, drop);
    if a.HandleReadFrame? { HttpConsume(s, a.events, drop); }
  }

  lemma {:induction false} HttpRun(s: State, run: seq<Action>, drop: bool)
    requires HttpInv(s) && s.life == Connecting && Possible(s, run, drop)
    requires var t := After(s, run, drop); t.isHttp && t.life == Closed && t.shutdowns == []
    ensures After(s, run, drop).failCalls == 0 <==> RespondsQuietly(s, run, drop)
    decreases |run|
  {
    if run != [] {
      var t := Apply(s, run[0], drop);
      StepKeepsHttp(s, run[0], drop);
      if t.life == Connecting {
        HttpRun(t, run[1..], drop);
      } else if t.life != Closed {
        OpensOnResponse(s, run[0], drop);
        OpenedNeverFails(t, run[1..], drop);
      } else if !t.isHttp {
        StaysNonHttp(t, run[1..], drop);
        assert false;
      } else {
        ClosesHttp(s, run[0], drop);
        ClosedRun(t, run[1..], drop);
      }
    }
  }

  /** The promise that a plain HTTP connection triggers the HTTP handler instead of the fail handler: over every
      run of every connection that turned out to be plain HTTP and whose shutdown is over, it is kept exactly
      when a response written without error opened the connection (with status 101), or closed it and nothing
      overwrote the code for its end before the shutdown was over. */
  lemma HttpFailHandlerIff(run: seq<Action>, drop: bool)
    requires Possible(Init(), run, drop)
    requires var t := After(Init(), run, drop); t.isHttp && t.life == Closed && t.shutdowns == []
    ensures After(Init(), run, drop).failCalls == 0 <==> RespondsQuietly(Init(), run, drop)
  {
    HttpRun(Init(), run, drop);
  }

  /** A plain HTTP request has been read, and its response is being written. */
  function Responding(): State {
    Init().(istate := ProcessRequest, isHttp := true, status := OtherStatus)
  }

  /** The actions before that. */
  const REQUEST := [
    Start, HandleTransportInit(NoError), HandleReadHandshake(NoError, Complete(Http(false, OtherStatus)))]

  lemma OneByOne(a: Action, b: Action, c: Action, later: seq<Action>)
    ensures [a] + ([b] + ([c] + later)) == [a, b, c] + later
  {
  }

  lemma AfterRequest(later: seq<Action>, end: State)
    requires Possible(Responding(), later, true) && After(Responding(), later, true) == end
    ensures Possible(Init(), REQUEST + later, true) && After(Init(), REQUEST + later, true) == end
  {
    var s1 := Init().(istate := TransportInit);
    var s2 := s1.(istate := ReadRequest);
    var run := RunOf(true, s2, REQUEST[2], Responding(), later, end);
    run := RunOf(true, s1, REQUEST[1], s2, run, end);
    run := RunOf(true, Init(), REQUEST[0], s1, run, end);
    OneByOne(REQUEST[0], REQUEST[1], REQUEST[2], later);
  }

  /** A plain HTTP connection closed with code e. */
  function ClosedWith(e: Err): State {
    Responding().(ec := e, http := HClosed, life := Closed, shutdowns := [FailedStat], requested := 1)
  }

  lemma FailsAtEnd(s: State) returns (run: seq<Action>)
    requires s.ec != HttpEnded && s.shutdowns == [FailedStat]
    ensures run == [HandleTerminate] && Possible(s, run, true)
    ensures After(s, run, true) == s.(shutdowns := [], failCalls := s.failCalls + 1)
  {
    var end := s.(shutdowns := [], failCalls := s.failCalls + 1);
    run := RunOf(true, s, HandleTerminate, end, [], end);
  }

  /** The handshake timer had expired before it was cancelled: the fail handler runs for a finished HTTP request. */
  lemma HttpConnectionFails()
    ensures var run := REQUEST + [HandleWriteHttpResponse(NoError), OpenTimeout(NoError), HandleTerminate];
      Possible(Init(), run, true) && var s := After(Init(), run, true); s.isHttp && s.failCalls == 1
  {
    var s4, s5 := ClosedWith(HttpEnded), ClosedWith(OtherError);
    var run := FailsAtEnd(s5);
    var end := After(s5, run, true);
    run := RunOf(true, s4, OpenTimeout(NoError), s5, run, end);
    run := RunOf(true, Responding(), HandleWriteHttpResponse(NoError), s4, run, end);
    assert run == [HandleWriteHttpResponse(NoError), OpenTimeout(NoError), HandleTerminate];
    AfterRequest(run, end);
  }

  /** A peer too slow to take its response: the fail handler runs for an HTTP request that was handled. */
  lemma SlowPeerFails()
    ensures var run := REQUEST + [OpenTimeout(NoError), HandleTerminate];
      Possible(Init(), run, true) && var s := After(Init(), run, true); s.isHttp && s.failCalls == 1
  {
    var s4 := ClosedWith(OtherError);
    var run := FailsAtEnd(s4);
    var end := After(s4, run, true);
    run := RunOf(true, Responding(), OpenTimeout(NoError), s4, run, end);
    assert run == [OpenTimeout(NoError), HandleTerminate];
    AfterRequest(run, end);
  }

  /** The application defers and sends a response once more after the first one was written: no handler reports an
      error, and the fail handler runs. */
  lemma LateDeferral() returns (run: seq<Action>)
    ensures var s := ClosedWith(HttpEnded);
      && run == [DeferHttpResponse, SendHttpResponse, HandleTerminate] && Possible(s, run, true)
      && After(s, run, true) == s.(http := HBodyWritten, ec := NoError, shutdowns := [], failCalls := 1)
  {
    var s4 := ClosedWith(HttpEnded);
    var s5 := s4.(http := HDeferred);
    var s6 := s4.(http := HBodyWritten, ec := NoError);
    var end := s6.(shutdowns := [], failCalls := 1);
    run := FailsAtEnd(s6);
    run := RunOf(true, s5, SendHttpResponse, s6, run, end);
    run := RunOf(true, s4, DeferHttpResponse, s5, run, end);
  }

  lemma LateDeferralFails()
    ensures var late := [DeferHttpResponse, SendHttpResponse, HandleTerminate];
      var run := REQUEST + ([HandleWriteHttpResponse(NoError)] + late);
      Possible(Init(), run, true) && var s := After(Init(), run, true); s.isHttp && s.failCalls == 1
  {
    var s4 := ClosedWith(HttpEnded);
    var run := LateDeferral();
    var end := After(s4, run, true);
    run := RunOf(true, Responding(), HandleWriteHttpResponse(NoError), s4, run, end);
    AfterRequest(run, end);
  }

  // ---------- the connection object ----------

  class Connection {
    const drop_on_protocol_error: bool
    var m_state: Life
    var m_internal_state: IState
    var m_ec: Err
    var m_is_http: bool
    var m_http_state: HttpState
    var m_response_status: Status  // of m_response
    var m_was_clean: bool
    ghost var calls: State  // shutdowns and handler calls so far

    ghost function Now(): State
      reads this
    {
      calls.(life := m_state, istate := m_internal_state, ec := m_ec, isHttp := m_is_http, http := m_http_state,
             status := m_response_status, wasClean := m_was_clean)
    }

    constructor (drop: bool)
      ensures Now() == Init() && Inv(Now()) && drop_on_protocol_error == drop
    {
      drop_on_protocol_error := drop;
      m_state, m_internal_state, m_ec, m_is_http, m_http_state := Connecting, UserInit, NoError, false, HInit;
      m_response_status, m_was_clean, calls := NoStatus, false, Init();
    }

    /** terminate(): the error is stored first; then the connection closes once, and asks for the shutdown with
        the status of the state it leaves. */
    method CloseDown(e: Err)
      modifies this
      ensures Now() == Terminate(old(Now()), e)
    {
      if e != NoError {
        m_ec := e;
      }
      if m_is_http {
        m_http_state := HClosed;
      }
      if m_state == Connecting {
        m_state := Closed;
        calls := calls.(shutdowns := calls.shutdowns + [FailedStat], requested := calls.requested + 1);
      } else if m_state != Closed {
        m_state := Closed;
        calls := calls.(shutdowns := calls.shutdowns + [ClosedStat], requested := calls.requested + 1);
      }
    }

    method TerminateConnection(e: Err)
      requires Inv(Now())
      modifies this
      ensures Now() == Terminate(old(Now()), e)
      ensures Inv(Now()) && Rank(old(m_state)) <= Rank(m_state)
    {
      TerminateKeeps(Now(), e);
      CloseDown(e);
    }

    /** The completion of an asynchronous shutdown, with the status it was started for. */
    method HandleTerminate(tstat: Tstat)
      requires Now().shutdowns != [] && tstat == Now().shutdowns[0]
      requires Inv(Now())
      modifies this
      ensures Now() == HandleTerminated(old(Now()))
      ensures Inv(Now()) && Rank(old(m_state)) <= Rank(m_state)
    {
      TerminatedKeeps(Now());
      calls := calls.(shutdowns := calls.shutdowns[1..]);
      if tstat == FailedStat {
        if m_ec != HttpEnded {
          calls := calls.(failCalls := calls.failCalls + 1);
        }
      } else {
        calls := calls.(closeCalls := calls.closeCalls + 1);
      }
    }

    method StartConnection()
      requires Inv(Now())
      modifies this
      ensures Now() == Apply(old(Now()), Start, drop_on_protocol_error)
      ensures Inv(Now()) && Rank(old(m_state)) <= Rank(m_state)
    {
      TerminateKeeps(Now(), InvalidState);
      if m_internal_state != UserInit {
        TerminateConnection(InvalidState);
        return;
      }
      m_internal_state := TransportInit;
    }

    method HandleTransportInit(e: Report)
      requires Inv(Now())
      modifies this
      ensures Now() == TransportReady(old(Now()), e)
      ensures Inv(Now()) && Rank(old(m_state)) <= Rank(m_state)
    {
      InitKeeps(Now(), e);
      var ecm: Err := e;
      if m_internal_state != TransportInit {
        ecm := InvalidState;
      }
      if ecm != NoError {
        TerminateConnection(ecm);
        return;
      }
      m_internal_state := ReadRequest;
    }

    method WriteResponse(e: Err)
      modifies this`m_ec, this`m_response_status
      ensures Now() == WriteHttpResponse(old(Now()), e)
    {
      if e == HttpEnded {
        return;
      }
      if m_response_status == NoStatus {
        m_response_status := OtherStatus;
        m_ec := OtherError;
      } else {
        m_ec := e;
      }
    }

    /** set_status: refused with an exception, and nothing changed, outside the processing of a request. */
    method SetStatus(status: Status) returns (ok: bool)
      requires Inv(Now())
      modifies this`m_response_status
      ensures Now() == Apply(old(Now()), Action.SetStatus(status), drop_on_protocol_error)
      ensures Inv(Now()) && ok == (m_internal_state == ProcessRequest)
    {
      ok := m_internal_state == ProcessRequest;
      if ok {
        m_response_status := status;
      }
    }

    /** defer_http_response: in whatever state. */
    method DeferResponse()
      requires Inv(Now())
      modifies this`m_http_state
      ensures Now() == Apply(old(Now()), DeferHttpResponse, drop_on_protocol_error) && Inv(Now())
    {
      m_http_state := HDeferred;
    }

    /** send_http_response: only for a deferred response. */
    method SendResponse() returns (ok: bool)
      requires Inv(Now())
      modifies this`m_http_state, this`m_ec, this`m_response_status
      ensures Now() == Apply(old(Now()), SendHttpResponse, drop_on_protocol_error)
      ensures Inv(Now()) && ok == (old(m_http_state) == HDeferred)
    {
      if m_http_state != HDeferred {
        return false;
      }
      m_http_state := HBodyWritten;
      WriteResponse(NoError);
      ok := true;
    }

    method WriteResponseError(e: Err)
      requires Inv(Now())
      modifies this
      ensures Now() == WriteHttpResponseError(old(Now()), e)
      ensures Inv(Now()) && Rank(old(m_state)) <= Rank(m_state)
    {
      TerminateKeeps(Now(), InvalidState);
      if m_internal_state != ReadRequest {
        TerminateConnection(InvalidState);
        return;
      }
      m_internal_state := ProcessRequest;
      WriteResponse(e);
    }

    /** The complete request: process it, and respond unless an HTTP handler has deferred the response. */
    method Respond(a: Answer)
      modifies this
      ensures Now() == Answered(old(Now()), a)
    {
      m_internal_state := ProcessRequest;
      var handshakeEc := NoError;
      match a {
        case Upgrade =>
          m_response_status := Switching;
        case Http(deferred, status) =>
          m_is_http := true;
          m_response_status := status;
          if deferred {
            m_http_state := HDeferred;
          }
        case Refused(status) =>
          m_response_status := BadUnlessSet(status);
          handshakeEc := OtherError;
      }
      if !a.Http? || m_http_state == HInit {
        WriteResponse(handshakeEc);
      }
    }

    method HandleReadHandshake(e: Report, request: Handshake)
      requires Inv(Now())
      modifies this
      ensures Now() == ReadHandshake(old(Now()), e, request)
      ensures Inv(Now()) && Rank(old(m_state)) <= Rank(m_state)
    {
      HandshakeKeeps(Now(), e, request);
      var ecm: Err := e;
      if ecm == NoError {
        if m_state == Connecting {
          if m_internal_state != ReadRequest {
            ecm := InvalidState;
          }
        } else if m_state == Closed {
          return;
        } else {
          ecm := InvalidState;
        }
      }
      if ecm != NoError {
        if !(ecm == Eof && m_state == Closed) {
          TerminateConnection(ecm);
        }
        return;
      }
      match request {
        case OutOfBounds => TerminateConnection(OtherError);
        case BadRequest =>
          m_response_status := OtherStatus;
          WriteResponseError(OtherError);
        case Incomplete =>
        case Complete(a) => Respond(a);
      }
    }

    method HandleWriteHttpResponse(e: Report)
      requires Inv(Now())
      modifies this
      ensures Now() == WroteHttpResponse(old(Now()), e)
      ensures Inv(Now()) && Rank(old(m_state)) <= Rank(m_state)
    {
      ResponseKeeps(Now(), e);
      var ecm: Err := e;
      if ecm == NoError {
        if m_state == Connecting {
          if m_internal_state != ProcessRequest {
            ecm := InvalidState;
          }
        } else if m_state == Closed {
          return;
        } else {
          ecm := InvalidState;
        }
      }
      if ecm != NoError {
        if !(ecm == Eof && m_state == Closed) {
          TerminateConnection(ecm);
        }
        return;
      }
      if m_response_status != Switching {
        if m_is_http {
          m_ec := HttpEnded;
        }
        TerminateConnection(m_ec);
        return;
      }
      m_internal_state := ProcessConnection;
      m_state := Open;
      calls := calls.(openCalls := calls.openCalls + 1);
    }

    /** send_close_frame: an acknowledgement makes the close clean; nothing happens if no frame can be made. */
    method SendClose(ack: bool, sent: bool)
      modifies this
      ensures Now() == SendCloseFrame(old(Now()), ack, sent)
    {
      if !sent {
        return;
      }
      m_state := Closing;
      if ack {
        m_was_clean := true;
      }
    }

    method CloseByUser(sent: bool) returns (ok: bool)
      requires Inv(Now())
      modifies this
      ensures Now() == UserClose(old(Now()), sent) && ok == (old(m_state) == Open && sent)
      ensures Inv(Now()) && Rank(old(m_state)) <= Rank(m_state)
    {
      if m_state == Open { CloseKeeps(Now(), false, sent); }
      if m_state != Open {
        return false;
      }
      SendClose(false, sent);
      ok := sent;
    }

    method ProcessCloseFrame(valid: bool, sent: bool)
      requires Inv(Now()) && Now().openCalls == 1
      modifies this
      ensures Now() == ControlFrame(old(Now()), valid, sent, drop_on_protocol_error)
      ensures old(m_state) == Closed ==> m_state == Closed && m_was_clean == old(m_was_clean)
      ensures old(m_state) == Open && valid && sent ==> m_state == Closing && m_was_clean
      ensures old(m_state) == Closing && valid && !old(m_was_clean) ==> m_state == Closed && m_was_clean
      ensures Inv(Now()) && Rank(old(m_state)) <= Rank(m_state)
      ensures Now().openCalls == 1
    {
      ControlKeeps(Now(), valid, sent, drop_on_protocol_error);
      if m_state == Closed {
        return;
      }
      if !valid {
        if drop_on_protocol_error {
          TerminateConnection(OtherError);
        } else {
          SendClose(true, sent);
        }
        return;
      }
      if m_state == Open {
        SendClose(true, sent);
      } else if m_state == Closing && !m_was_clean {
        m_was_clean := true;
        TerminateConnection(NoError);
      }
    }

    method ConsumeOne(ev: Event) returns (goesOn: bool)
      requires Inv(Now()) && Now().openCalls == 1
      modifies this
      ensures (Now(), goesOn) == Consume(old(Now()), ev, drop_on_protocol_error)
      ensures Inv(Now()) && Rank(old(m_state)) <= Rank(m_state)
      ensures Now().openCalls == 1
    {
      ConsumeKeeps(Now(), ev, drop_on_protocol_error);
      goesOn := true;
      match ev {
        case ProtocolError(sent) =>
          goesOn := false;
          if drop_on_protocol_error {
            TerminateConnection(OtherError);
          } else {
            var wasOpen := m_state == Open;
            var ok := CloseByUser(sent);
            if !ok {
              TerminateConnection(if wasOpen then OtherError else InvalidState);
            }
          }
        case Message(closes, sent) =>
          if m_state == Open && closes {
            var _ := CloseByUser(sent);
          }
        case PingPong =>
        case CloseFrame(valid, sent) =>
          ProcessCloseFrame(valid, sent);
      }
    }

    /** handle_read_frame: the received bytes, piece by piece, until one of them ends the loop. */
    method HandleReadFrame(e: Report, events: seq<Event>)
      requires Inv(Now())
      modifies this
      ensures Now() == ReadFrame(old(Now()), e, events, drop_on_protocol_error)
      ensures Inv(Now()) && Rank(old(m_state)) <= Rank(m_state)
    {
      FrameKeeps(Now(), e, events, drop_on_protocol_error);
      var ecm: Err := e;
      if ecm == NoError && m_internal_state != ProcessConnection {
        ecm := InvalidState;
      }
      if ecm != NoError {
        if !(ecm in {Eof, InvalidState} && m_state == Closed) {
          TerminateConnection(ecm);
        }
        return;
      }
      ghost var goal := ConsumeAll(Now(), events, drop_on_protocol_error);
      var p := 0;
      while p < |events|
        invariant p <= |events| && Inv(Now()) && Now().openCalls == 1
        invariant goal == ConsumeAll(Now(), events[p..], drop_on_protocol_error)
      {
        assert events[p..][0] == events[p] && events[p..][1..] == events[p + 1..];
        var goesOn := ConsumeOne(events[p]);
        if !goesOn {
          return;
        }
        p := p + 1;
      }
    }

    method HandleTimeout(e: Report)
      requires Inv(Now())
      modifies this
      ensures Now() == Timeout(old(Now()), e)
      ensures Inv(Now()) && Rank(old(m_state)) <= Rank(m_state)
    {
      TerminateKeeps(Now(), OtherError);
      if e == NoError {
        TerminateConnection(OtherError);
      }
    }
  }
}
