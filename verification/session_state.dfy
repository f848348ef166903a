/** What each handler of `Session` and `Handler` does to the session, as functions on its state. */
module SessionState {
  import opened Words
  import R = Ring

  /** `head` stands for the fields the constructor sets once: version, method, host, agent. */
  datatype HttpRequest = HttpRequest(head: string, target: string)

  /** The identity of a callback object. */
  type Callback = nat

  /** `RequestStatus`. */
  datatype Status = RequestSent | SessionNotReady | SessionError | EndSubscribeRequest

  /** A call of `AsyncRequest` before the session is ready sleeps this long, in milliseconds. */
  const EARLY_SLEEP := 1000

  /** One element of `mSubscriber`. */
  datatype Subscription = Subscription(target: string, hdl: Callback)

  datatype Entry = Entry(req: HttpRequest, hdl: Callback)
  datatype Response = Response(body: string, status: nat)

  /** One call of a callback, with its arguments. */
  datatype Delivery = Delivery(hdl: Callback, response: Response, target: string)

  /** `mIoc`: running, stopped, or left by an exception that escaped a handler. */
  datatype IoState = Running | Stopped | Crashed

  /** The connection step whose completion is outstanding. */
  datatype Opening = NotRun | Resolving | Connecting | Handshaking | Open | Failed

  /** An outstanding `async_write`: it refers to a slot, and has put `sent` bytes on the wire. */
  datatype Write = Write(slot: nat, sent: nat)

  datatype Session = Session(
    ring: R.Ring<Entry>,
    template: HttpRequest,
    ready: bool,
    error: bool,
    io: IoState,
    opening: Opening,
    reading: nat,
    writes: seq<Write>,
    delivered: seq<Delivery>)
  {
    predicate Valid() {
      ring.Valid()
    }
  }

  function StopIo(io: IoState): IoState {
    if io.Running? then Stopped else io
  }

  function ErrorHandle(s: Session): Session {
    s.(error := true, io := StopIo(s.io))
  }

  function Stop(s: Session): Session {
    s.(io := StopIo(s.io))
  }

  /** Without a server name for TLS nothing is started. */
  function Run(s: Session, named: bool): Session {
    s.(opening := if named then Resolving else Failed)
  }

  function OnResolve(s: Session, failed: bool): Session {
    if failed then ErrorHandle(s.(opening := Failed)) else s.(opening := Connecting)
  }

  function OnConnect(s: Session, failed: bool): Session {
    if failed then ErrorHandle(s.(opening := Failed)) else s.(opening := Handshaking)
  }

  function OnHandshake(s: Session, failed: bool): Session {
    if failed then ErrorHandle(s.(opening := Failed)) else Read(s.(opening := Open, ready := true))
  }

  function Read(s: Session): Session {
    s.(reading := s.reading + 1)
  }

  function OnRead(s: Session, failed: bool, response: Response): Session
    requires s.Valid() && s.reading > 0
  {
    var done := s.(reading := s.reading - 1);
    if failed then ErrorHandle(done)
    else
      var (ring', request) := R.Get(s.ring);
      var called := if request.None? then []
                    else [Delivery(request.value.hdl, response, request.value.req.target)];
      Read(done.(ring := ring', delivered := s.delivered + called))
  }

  function OnWrite(s: Session, failed: bool): Session {
    if failed then ErrorHandle(s) else s
  }

  /** `Handler::Write`. */
  function StartWrite(s: Session, slot: nat): Session {
    s.(writes := s.writes + [Write(slot, 0)])
  }

  /** A full ring throws out of the handler, and so out of `mIoc.run()`. */
  function ExecRequest(s: Session, target: string, hdl: Callback): Session
    requires s.Valid()
  {
    var req := s.template.(target := target);
    var (ring', res) := R.Add(s.ring, Entry(req, hdl));
    match res
    case Full => s.(template := req, io := Crashed)
    case Stored(slot) => StartWrite(s.(template := req, ring := ring'), slot)
  }
}
