/** The composed client: calling threads, the subscribe task, the io queue, the session with its ring,
    the wire, and a peer that answers in order. Handlers run one at a time in the thread of `mIoc`. */
module Pipeline {
  import opened Words
  import R = Ring
  import S = SessionState
  import T = Targets

  /** `encode` gives the bytes of a request; nothing is assumed of it. */
  datatype Config = Config(subs: seq<S.Subscription>, encode: S.HttpRequest -> seq<Byte>)

  /** One posted call of `ExecRequest`; caller 0 is the subscribe task, which numbers its calls. */
  datatype Post = Post(caller: nat, call: nat, target: string, hdl: S.Callback)

  /** Where a client thread is in `RestClient::AsyncRequest`. */
  datatype At =
    | Outside
    | AtError(target: string, hdl: S.Callback)
    | AtStop(target: string, hdl: S.Callback)
    | AtReady(target: string, hdl: S.Callback)
    | AtPost(target: string, hdl: S.Callback)

  datatype Client = Client(at: At, calls: nat)

  /** Where the subscribe task is; `i` indexes `mSubscriber`. */
  datatype Task = TestStop | TestError | SubReady(i: nat) | SubPost(i: nat) | SubSleep(i: nat) | Exited

  /** A finished call, and how many posts there were when it ended. */
  datatype Finished = Finished(caller: nat, call: nat, status: S.Status, posts: nat)

  datatype Stage = Resolved | Connected | Secured

  /** `wire`, `answers` and below are histories: bytes sent, requests wholly sent, answers of the peer,
      how many of them were read, entries added, posts made, connection steps and finished calls. */
  datatype State = State(
    session: S.Session,
    stop: bool,
    queue: seq<Post>,
    clients: seq<Client>,
    task: Task,
    taskCalls: nat,
    wire: seq<Byte>,
    sent: nat,
    answers: seq<S.Response>,
    read: nat,
    added: seq<S.Entry>,
    posts: seq<Post>,
    stages: seq<Stage>,
    finished: seq<Finished>)
  {
    ghost predicate Shape() {
      session.Valid()
    }

    ghost function Size(): Capacity
      requires Shape()
    {
      |session.ring.slots|
    }
  }

  datatype Action =
    | Run(named: bool)
    | Resolve(failed: bool)
    | Connect(failed: bool)
    | Handshake(failed: bool)
    | ExecPost
    | Send(k: nat)
    | Wrote(failed: bool)
    | Answer(response: S.Response)
    | ReadDone(failed: bool)
    | Signal
    | ClientCall(c: nat, request: string, hdl: S.Callback)
    | ClientStep(c: nat)
    | TaskStep

  ghost function Start(head: string, slots: seq<S.Entry>, clients: nat): State {
    State(S.Session(R.Fresh(slots), S.HttpRequest(head, ""), false, false, S.Running, S.NotRun, 0, [], []),
          false, [], seq(clients, _ => Client(Outside, 0)), TestStop, 0, [], 0, [], 0, [], [], [], [])
  }

  /** The bytes the oldest unfinished write is sending: read from its slot as it is now. */
  ghost function Sending(cfg: Config, st: State): seq<Byte>
    requires st.Shape() && st.session.writes != [] && st.session.writes[0].slot < |st.session.ring.slots|
  {
    cfg.encode(st.session.ring.slots[st.session.writes[0].slot].req)
  }

  ghost predicate CanSend(cfg: Config, st: State, k: nat)
    requires st.Shape()
  {
    var s := st.session;
    && s.io.Running? && s.writes != [] && s.writes[0].slot < |s.ring.slots|
    && s.writes[0].sent + k <= |Sending(cfg, st)|
  }

  /** The oldest write puts `k` more bytes on the wire; with its last byte it is finished. */
  ghost function AfterSend(cfg: Config, st: State, k: nat): State
    requires st.Shape() && CanSend(cfg, st, k)
  {
    var s := st.session;
    var bytes := Sending(cfg, st);
    var w := s.writes[0];
    var to := w.sent + k;
    st.(wire := st.wire + bytes[w.sent..to],
        sent := st.sent + (if to == |bytes| then 1 else 0),
        session := s.(writes := (if to == |bytes| then [] else [w.(sent := to)]) + s.writes[1..]))
  }

  ghost predicate CanExec(st: State) {
    st.session.io.Running? && st.queue != []
  }

  ghost function AfterExec(st: State): State
    requires st.Shape() && CanExec(st)
  {
    var p := st.queue[0];
    var s' := S.ExecRequest(st.session, p.target, p.hdl);
    st.(queue := st.queue[1..],
        session := s',
        added := if s'.io.Crashed? then st.added else st.added + [S.Entry(s'.template, p.hdl)])
  }

  ghost predicate CanRead(st: State, failed: bool) {
    st.session.io.Running? && st.session.reading > 0 && (failed || st.read < |st.answers|)
  }

  ghost function AfterRead(st: State, failed: bool): State
    requires st.Shape() && CanRead(st, failed)
  {
    if failed then st.(session := S.OnRead(st.session, true, S.Response("", 0)))
    else st.(session := S.OnRead(st.session, false, st.answers[st.read]), read := st.read + 1)
  }

  ghost function AfterStage(st: State, s': S.Session, failed: bool, stage: Stage): State {
    st.(session := s', stages := st.stages + if failed then [] else [stage])
  }

  ghost function Return(st: State, c: nat, status: S.Status): State
    requires c < |st.clients|
  {
    var me := st.clients[c];
    st.(clients := st.clients[c := me.(at := Outside)],
        finished := st.finished + [Finished(c + 1, me.calls, status, |st.posts|)])
  }

  ghost function Enqueue(st: State, p: Post): State {
    st.(queue := st.queue + [p], posts := st.posts + [p])
  }

  ghost function AfterClientStep(st: State, c: nat): State
    requires c < |st.clients| && !st.clients[c].at.Outside?
  {
    var me := st.clients[c];
    match me.at
    case AtError(t, h) =>
      if st.session.error then Return(st, c, S.SessionError)
      else st.(clients := st.clients[c := me.(at := AtStop(t, h))])
    case AtStop(t, h) =>
      if st.stop then Return(st, c, S.EndSubscribeRequest)
      else st.(clients := st.clients[c := me.(at := AtReady(t, h))])
    case AtReady(t, h) =>
      if !st.session.ready then Return(st, c, S.SessionNotReady)
      else st.(clients := st.clients[c := me.(at := AtPost(t, h))])
    case AtPost(t, h) => Return(Enqueue(st, Post(c + 1, me.calls, t, h)), c, S.RequestSent)
  }

  ghost function BeginTaskCall(cfg: Config, st: State, i: nat): State {
    if i < |cfg.subs| then st.(task := SubReady(i), taskCalls := st.taskCalls + 1) else st.(task := TestStop)
  }

  ghost function EndTaskCall(st: State, i: nat, status: S.Status): State {
    st.(task := SubSleep(i), finished := st.finished + [Finished(0, st.taskCalls, status, |st.posts|)])
  }

  ghost function AfterTaskStep(cfg: Config, st: State): State
    requires !st.task.Exited?
  {
    match st.task
    case TestStop => if st.stop then st.(task := Exited) else st.(task := TestError)
    case TestError => if st.session.error then st.(task := Exited) else BeginTaskCall(cfg, st, 0)
    case SubReady(i) =>
      if !st.session.ready then EndTaskCall(st, i, S.SessionNotReady) else st.(task := SubPost(i))
    case SubPost(i) =>
      var sub := if i < |cfg.subs| then cfg.subs[i] else S.Subscription("", 0);
      EndTaskCall(Enqueue(st, Post(0, st.taskCalls, sub.target, sub.hdl)), i, S.RequestSent)
    case SubSleep(i) => BeginTaskCall(cfg, st, i + 1)
  }

  ghost function AfterClientCall(st: State, c: nat, request: string, hdl: S.Callback): State
    requires c < |st.clients|
  {
    st.(clients := st.clients[c := Client(AtError(T.PREFIX + request, hdl), st.clients[c].calls + 1)])
  }

  /** Handlers, and the writes they drive, need a running `mIoc`; the peer answers only requests that
      have wholly arrived, one answer each. */
  ghost predicate Enabled(cfg: Config, st: State, a: Action)
    requires st.Shape()
  {
    match a
    case Run(_) => st.session.opening.NotRun?
    case Resolve(_) => st.session.io.Running? && st.session.opening.Resolving?
    case Connect(_) => st.session.io.Running? && st.session.opening.Connecting?
    case Handshake(_) => st.session.io.Running? && st.session.opening.Handshaking?
    case ExecPost => CanExec(st)
    case Send(k) => CanSend(cfg, st, k)
    case Wrote(_) => st.session.io.Running? && (st.session.writes != [] || st.sent > 0)
    case Answer(_) => |st.answers| < st.sent
    case ReadDone(failed) => CanRead(st, failed)
    case Signal => st.session.io.Running?
    case ClientCall(c, _, _) => c < |st.clients| && st.clients[c].at.Outside?
    case ClientStep(c) => c < |st.clients| && !st.clients[c].at.Outside?
    case TaskStep => !st.task.Exited?
  }

  ghost function Next(cfg: Config, st: State, a: Action): (st': State)
    requires st.Shape() && Enabled(cfg, st, a)
    ensures st'.Shape() && |st'.session.ring.slots| == |st.session.ring.slots|
  {
    match a
    case Run(named) => st.(session := S.Run(st.session, named))
    case Resolve(failed) => AfterStage(st, S.OnResolve(st.session, failed), failed, Resolved)
    case Connect(failed) => AfterStage(st, S.OnConnect(st.session, failed), failed, Connected)
    case Handshake(failed) => AfterStage(st, S.OnHandshake(st.session, failed), failed, Secured)
    case ExecPost => AfterExec(st)
    case Send(k) => AfterSend(cfg, st, k)
    case Wrote(failed) => st.(session := S.OnWrite(st.session, failed))
    case Answer(response) => st.(answers := st.answers + [response])
    case ReadDone(failed) => AfterRead(st, failed)
    case Signal => st.(stop := true, session := S.Stop(st.session))
    case ClientCall(c, request, hdl) => AfterClientCall(st, c, request, hdl)
    case ClientStep(c) => AfterClientStep(st, c)
    case TaskStep => AfterTaskStep(cfg, st)
  }

  ghost function Exec(cfg: Config, st: State, run: seq<Action>): (end: Option<State>)
    requires st.Shape()
    ensures end.Some? ==> end.value.Shape() && |end.value.session.ring.slots| == |st.session.ring.slots|
    decreases |run|
  {
    if run == [] then Some(st)
    else if Enabled(cfg, st, run[0]) then Exec(cfg, Next(cfg, st, run[0]), run[1..])
    else None
  }

  // ---------------------------------------------------------------- the invariant

  /** The bytes of the first `n` entries, one after the other. */
  ghost function Bytes(cfg: Config, added: seq<S.Entry>, n: nat): seq<Byte>
    requires n <= |added|
  {
    if n == 0 then [] else Bytes(cfg, added, n - 1) + cfg.encode(added[n - 1].req)
  }

  ghost predicate RingOk(st: State) {
    && R.Models(st.session.ring, st.added, |st.session.delivered|)
    && |st.session.delivered| == st.read <= |st.answers| <= st.sent <= |st.added|
  }

  /** The outstanding writes are those of the entries not wholly sent, in order, each referring to its
      entry's slot; the wire holds exactly the encodings of the entries, as they were added. */
  ghost predicate WritesAt(cfg: Config, size: Capacity, added: seq<S.Entry>, sent: nat, wire: seq<Byte>,
                           ws: seq<S.Write>)
  {
    && |added| == sent + |ws|
    && (forall k :: 0 <= k < |ws| ==> ws[k].slot == Slot(sent + k, size))
    && (forall k :: 0 < k < |ws| ==> ws[k].sent == 0)
    && (ws != [] ==> ws[0].sent <= |cfg.encode(added[sent].req)|)
    && wire == Bytes(cfg, added, sent) + if ws == [] then [] else cfg.encode(added[sent].req)[..ws[0].sent]
  }

  ghost predicate WritesOk(cfg: Config, st: State)
    requires st.Shape()
  {
    WritesAt(cfg, st.Size(), st.added, st.sent, st.wire, st.session.writes)
  }

  ghost predicate DeliveriesOk(st: State) {
    forall k :: 0 <= k < |st.session.delivered| && k < |st.added| && k < |st.answers| ==>
      st.session.delivered[k] == S.Delivery(st.added[k].hdl, st.answers[k], st.added[k].req.target)
  }

  ghost function EntryOf(head: string, p: Post): S.Entry {
    S.Entry(S.HttpRequest(head, p.target), p.hdl)
  }

  /** Posts are executed in the order they were made; the one a crash interrupted is the last. */
  ghost predicate PostsOk(st: State) {
    var n := |st.added| + if st.session.io.Crashed? then 1 else 0;
    && n <= |st.posts|
    && st.queue == st.posts[n..]
    && forall k :: 0 <= k < |st.added| ==> st.added[k] == EntryOf(st.session.template.head, st.posts[k])
  }

  ghost predicate LifecycleOk(st: State) {
    var s := st.session;
    && (s.ready <==> s.opening.Open?)
    && (match s.opening
        case NotRun => st.stages == []
        case Resolving => st.stages == []
        case Connecting => st.stages == [Resolved]
        case Handshaking => st.stages == [Resolved, Connected]
        case Open => st.stages == [Resolved, Connected, Secured]
        case Failed => true)
    && s.reading <= 1
    && (!s.ready ==> s.reading == 0 && st.posts == [])
    && (s.ready && !s.error ==> s.reading == 1)
    && (s.error ==> !s.io.Running?)
    && (s.io.Stopped? ==> s.error || st.stop)
    && (st.task.SubPost? ==> s.ready)
    && forall c :: 0 <= c < |st.clients| && st.clients[c].at.AtPost? ==> s.ready
  }

  ghost predicate TaskOk(cfg: Config, st: State) {
    st.task.SubReady? || st.task.SubPost? || st.task.SubSleep? ==> st.task.i < |cfg.subs|
  }

  /** Calls a caller has begun, and whether its latest one is still under way. */
  ghost function CallsOf(st: State, caller: nat): nat {
    if caller == 0 then st.taskCalls
    else if caller <= |st.clients| then st.clients[caller - 1].calls
    else 0
  }

  ghost predicate Calling(st: State, caller: nat) {
    if caller == 0 then st.task.SubReady? || st.task.SubPost?
    else caller <= |st.clients| && !st.clients[caller - 1].at.Outside?
  }

  /** Call numbers in use by `caller` so far are at most this. */
  ghost function LastDone(st: State, caller: nat): int {
    CallsOf(st, caller) - if Calling(st, caller) then 1 else 0
  }

  ghost predicate CallOrder(st: State) {
    && (forall k :: 0 <= k < |st.posts| ==> st.posts[k].call <= LastDone(st, st.posts[k].caller))
    && (forall a, b :: 0 <= a < b < |st.posts| && st.posts[a].caller == st.posts[b].caller ==>
          st.posts[a].call < st.posts[b].call)
  }

  /** A call that ended as sent is the post it made; the other answers were given on a set flag. */
  ghost predicate FinishedCall(st: State, f: Finished) {
    match f.status
    case RequestSent =>
      && 0 < f.posts <= |st.posts|
      && st.posts[f.posts - 1].caller == f.caller && st.posts[f.posts - 1].call == f.call
    case SessionError => st.session.error
    case EndSubscribeRequest => st.stop
    case SessionNotReady => true
  }

  ghost predicate FinishedOk(st: State) {
    forall k :: 0 <= k < |st.finished| ==> FinishedCall(st, st.finished[k])
  }

  ghost predicate Inv(cfg: Config, st: State)
    requires st.Shape()
  {
    && RingOk(st) && WritesOk(cfg, st) && DeliveriesOk(st) && PostsOk(st)
    && LifecycleOk(st) && TaskOk(cfg, st) && CallOrder(st) && FinishedOk(st)
  }
}
