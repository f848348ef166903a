/** Every step of the composed client keeps the invariant. */
module PipelineInv {
  import opened Words
  import opened Pipeline
  import R = Ring
  import S = SessionState

  lemma StartInv(cfg: Config, head: string, slots: seq<S.Entry>, clients: nat)
    requires IsCapacity(|slots|)
    ensures Start(head, slots, clients).Shape() && Inv(cfg, Start(head, slots, clients))
    ensures Start(head, slots, clients).session.template.head == head
  {
  }

  lemma {:induction false} BytesOfPrefix(cfg: Config, a: seq<S.Entry>, b: seq<S.Entry>, n: nat)
    requires n <= |a| && a <= b
    ensures Bytes(cfg, a, n) == Bytes(cfg, b, n)
  {
    if n > 0 {
      BytesOfPrefix(cfg, a, b, n - 1);
    }
  }

  /** Steps that leave the ring, the wire and the posts alone. */
  ghost predicate SameData(st: State, st': State) {
    && st'.session.ring == st.session.ring
    && st'.session.template.head == st.session.template.head
    && st'.session.writes == st.session.writes
    && st'.session.delivered == st.session.delivered
    && st'.wire == st.wire && st'.sent == st.sent && st'.read == st.read
    && st.answers <= st'.answers
    && st'.added == st.added
  }

  lemma SameDataKeeps(cfg: Config, st: State, st': State)
    requires st.Shape() && st'.Shape() && SameData(st, st')
    requires RingOk(st) && WritesOk(cfg, st) && DeliveriesOk(st) && |st'.answers| <= st'.sent
    ensures RingOk(st') && WritesOk(cfg, st') && DeliveriesOk(st')
  {
  }

  ghost predicate SameCallers(st: State, st': State) {
    && st'.posts == st.posts && st'.clients == st.clients && st'.task == st.task
    && st'.taskCalls == st.taskCalls && st'.finished == st.finished
    && (st.session.error ==> st'.session.error) && (st.stop ==> st'.stop)
  }

  lemma SameCallersKeeps(cfg: Config, st: State, st': State)
    requires SameCallers(st, st') && TaskOk(cfg, st) && CallOrder(st) && FinishedOk(st)
    ensures TaskOk(cfg, st') && CallOrder(st') && FinishedOk(st')
  {
  }

  // ---------------------------------------------------------------- opening, errors, stopping

  ghost predicate IsSessionStep(a: Action) {
    a.Run? || a.Resolve? || a.Connect? || a.Handshake? || a.Wrote? || a.Answer? || a.Signal?
  }

  lemma SessionLifecycle(cfg: Config, st: State, a: Action)
    requires st.Shape() && LifecycleOk(st) && Enabled(cfg, st, a) && IsSessionStep(a)
    ensures LifecycleOk(Next(cfg, st, a))
  {
  }

  lemma SessionFrame(cfg: Config, st: State, a: Action)
    requires st.Shape() && Enabled(cfg, st, a) && IsSessionStep(a)
    ensures SameData(st, Next(cfg, st, a)) && SameCallers(st, Next(cfg, st, a))
    ensures Next(cfg, st, a).queue == st.queue
    ensures Next(cfg, st, a).session.io.Crashed? <==> st.session.io.Crashed?
    ensures |st.answers| <= st.sent ==> |Next(cfg, st, a).answers| <= st.sent
  {
  }

  lemma SessionPosts(cfg: Config, st: State, a: Action)
    requires st.Shape() && PostsOk(st) && Enabled(cfg, st, a) && IsSessionStep(a)
    ensures PostsOk(Next(cfg, st, a))
  {
    SessionFrame(cfg, st, a);
    hide Next, Enabled;
  }

  lemma QuietSteps(cfg: Config, st: State, a: Action)
    requires st.Shape() && Inv(cfg, st) && Enabled(cfg, st, a) && IsSessionStep(a)
    ensures Inv(cfg, Next(cfg, st, a))
  {
    SessionLifecycle(cfg, st, a);
    SessionPosts(cfg, st, a);
    SessionFrame(cfg, st, a);
    assert |st.answers| <= st.sent;
    hide Next, Enabled, RingOk, WritesOk, DeliveriesOk, PostsOk, LifecycleOk, TaskOk, CallOrder, FinishedOk;
    hide SameCallers;
    var st' := Next(cfg, st, a);
    SameCallersKeeps(cfg, st, st');
    SameDataKeeps(cfg, st, st');
  }

  // ---------------------------------------------------------------- reading a response

  /** A response that has arrived is read while its request is the oldest in the ring. */
  lemma ReadData(st: State)
    requires st.Shape() && RingOk(st) && DeliveriesOk(st) && CanRead(st, false) && |st.added| < TWO_64
    ensures RingOk(AfterRead(st, false)) && DeliveriesOk(AfterRead(st, false))
    ensures |AfterRead(st, false).session.delivered| == |st.session.delivered| + 1
    ensures |AfterRead(st, false).session.ring.slots| == |st.session.ring.slots|
  {
    R.NoWrapBelow(st.session.ring, st.added, st.read);
    R.GetTakesOldest(st.session.ring, st.added, st.read);
  }

  lemma ReadLifecycle(st: State, failed: bool)
    requires st.Shape() && CanRead(st, failed) && LifecycleOk(st) && PostsOk(st)
    ensures LifecycleOk(AfterRead(st, failed)) && PostsOk(AfterRead(st, failed))
    ensures SameCallers(st, AfterRead(st, failed))
  {
  }

  lemma ReadStep(cfg: Config, st: State, failed: bool)
    requires st.Shape() && Inv(cfg, st) && CanRead(st, failed) && |st.added| < TWO_64
    ensures AfterRead(st, failed).Shape() && Inv(cfg, AfterRead(st, failed))
  {
    var st' := AfterRead(st, failed);
    ReadLifecycle(st, failed);
    SameCallersKeeps(cfg, st, st');
    if failed {
      SameDataKeeps(cfg, st, st');
    } else {
      ReadData(st);
    }
  }

  // ---------------------------------------------------------------- executing a post

  ghost predicate Fits(st: State) {
    |st.added| - st.read < |st.session.ring.slots|
  }

  ghost function Head(st: State): S.Entry
    requires CanExec(st)
  {
    EntryOf(st.session.template.head, st.queue[0])
  }

  lemma ExecEffect(st: State)
    requires st.Shape() && RingOk(st) && PostsOk(st) && CanExec(st)
    ensures |st.added| < |st.posts| && st.queue[0] == st.posts[|st.added|]
    ensures !Fits(st) ==>
              AfterExec(st) == st.(
                queue := st.queue[1..],
                session := st.session.(template := Head(st).req, io := S.Crashed))
    ensures Fits(st) ==>
              && R.Models(R.Add(st.session.ring, Head(st)).0, st.added + [Head(st)], st.read)
              && |R.Add(st.session.ring, Head(st)).0.slots| == |st.session.ring.slots|
              && AfterExec(st) == st.(
                   queue := st.queue[1..],
                   added := st.added + [Head(st)],
                   session := st.session.(
                     template := Head(st).req,
                     ring := R.Add(st.session.ring, Head(st)).0,
                     writes := st.session.writes + [S.Write(Slot(|st.added|, |st.session.ring.slots|), 0)]))
  {
    R.AddAppends(st.session.ring, st.added, st.read, Head(st));
  }

  lemma WritesPush(cfg: Config, size: Capacity, added: seq<S.Entry>, sent: nat, wire: seq<Byte>,
                   ws: seq<S.Write>, e: S.Entry)
    requires WritesAt(cfg, size, added, sent, wire, ws)
    ensures WritesAt(cfg, size, added + [e], sent, wire, ws + [S.Write(Slot(|added|, size), 0)])
  {
    BytesOfPrefix(cfg, added, added + [e], sent);
    if ws == [] {
      assert cfg.encode(e.req)[..0] == [];
    }
  }

  lemma ExecRing(st: State)
    requires st.Shape() && RingOk(st) && PostsOk(st) && CanExec(st)
    ensures RingOk(AfterExec(st))
  {
    ExecEffect(st);
    hide AfterExec, R.Add, PostsOk;
  }

  lemma ExecPosts(st: State)
    requires st.Shape() && RingOk(st) && PostsOk(st) && CanExec(st)
    ensures PostsOk(AfterExec(st))
  {
    ExecEffect(st);
    hide AfterExec, R.Add, R.Models;
  }

  lemma ExecDeliveries(st: State)
    requires st.Shape() && RingOk(st) && PostsOk(st) && DeliveriesOk(st) && CanExec(st)
    ensures DeliveriesOk(AfterExec(st))
  {
  }

  lemma ExecLifecycle(st: State)
    requires st.Shape() && RingOk(st) && PostsOk(st) && LifecycleOk(st) && CanExec(st)
    ensures LifecycleOk(AfterExec(st)) && SameCallers(st, AfterExec(st))
  {
  }

  lemma ExecStep(cfg: Config, st: State)
    requires st.Shape() && Inv(cfg, st) && CanExec(st)
    ensures AfterExec(st).Shape() && Inv(cfg, AfterExec(st))
  {
    ExecRing(st);
    ExecPosts(st);
    ExecDeliveries(st);
    ExecLifecycle(st);
    SameCallersKeeps(cfg, st, AfterExec(st));
    ExecEffect(st);
    WritesPush(cfg, st.Size(), st.added, st.sent, st.wire, st.session.writes, Head(st));
  }

  // ---------------------------------------------------------------- sending

  /** The slot a write reads from still holds the entry it was started for. */
  lemma SlotStillHolds(cfg: Config, st: State)
    requires st.Shape() && RingOk(st) && WritesOk(cfg, st) && st.session.writes != []
    ensures st.session.writes[0].slot < |st.session.ring.slots|
    ensures st.session.ring.slots[st.session.writes[0].slot] == st.added[st.sent]
    ensures Sending(cfg, st) == cfg.encode(st.added[st.sent].req)
  {
  }

  lemma WritesAdvance(cfg: Config, size: Capacity, added: seq<S.Entry>, sent: nat, wire: seq<Byte>,
                      ws: seq<S.Write>, to: nat)
    requires WritesAt(cfg, size, added, sent, wire, ws) && ws != []
    requires ws[0].sent <= to <= |cfg.encode(added[sent].req)|
    ensures var bytes := cfg.encode(added[sent].req);
            WritesAt(cfg, size, added, sent + (if to == |bytes| then 1 else 0), wire + bytes[ws[0].sent..to],
                     (if to == |bytes| then [] else [ws[0].(sent := to)]) + ws[1..])
  {
  }

  lemma SendWrites(cfg: Config, st: State, k: nat)
    requires st.Shape() && RingOk(st) && WritesOk(cfg, st) && CanSend(cfg, st, k)
    ensures WritesOk(cfg, AfterSend(cfg, st, k))
  {
    SlotStillHolds(cfg, st);
    hide WritesAt, RingOk, Bytes, R.Models;
    var ws := st.session.writes;
    WritesAdvance(cfg, st.Size(), st.added, st.sent, st.wire, ws, ws[0].sent + k);
  }

  lemma SendRest(cfg: Config, st: State, k: nat)
    requires st.Shape() && RingOk(st) && DeliveriesOk(st) && PostsOk(st) && LifecycleOk(st)
    requires CanSend(cfg, st, k) && st.sent < |st.added|
    ensures var st' := AfterSend(cfg, st, k);
            RingOk(st') && DeliveriesOk(st') && PostsOk(st') && LifecycleOk(st') && SameCallers(st, st')
  {
  }

  lemma SendStep(cfg: Config, st: State, k: nat)
    requires st.Shape() && Inv(cfg, st) && CanSend(cfg, st, k)
    ensures Inv(cfg, AfterSend(cfg, st, k))
  {
    SendWrites(cfg, st, k);
    SendRest(cfg, st, k);
    SameCallersKeeps(cfg, st, AfterSend(cfg, st, k));
  }

  // ---------------------------------------------------------------- callers

  /** What a step of a caller leaves alone. */
  ghost predicate CallerFrame(st: State, st': State) {
    && st'.session == st.session && st'.stop == st.stop && st'.stages == st.stages
    && st'.wire == st.wire && st'.sent == st.sent && st'.read == st.read
    && st'.answers == st.answers && st'.added == st.added
  }

  /** Whether it posts: then behind everything posted, under the number of the call under way. */
  ghost predicate PostsOne(st: State, st': State, p: Post) {
    && st'.posts == st.posts + [p] && st'.queue == st.queue + [p]
    && LastDone(st, p.caller) < p.call <= LastDone(st', p.caller)
  }

  ghost predicate PostsNothing(st: State, st': State) {
    st'.posts == st.posts && st'.queue == st.queue
  }

  /** The call numbers, and the post if the step made one. */
  ghost predicate Counted(st: State, st': State, made: Option<Post>) {
    && CallerFrame(st, st')
    && (forall c :: LastDone(st, c) <= LastDone(st', c))
    && (if made.None? then PostsNothing(st, st') else PostsOne(st, st', made.value))
  }

  /** The records of finished calls, one of which the step may have added. */
  ghost predicate Recorded(st: State, st': State) {
    && st.posts <= st'.posts
    && (st'.finished == st.finished ||
        (&& |st'.finished| == |st.finished| + 1 && st.finished <= st'.finished
         && FinishedCall(st', st'.finished[|st.finished|])))
  }

  lemma ClientCalls(st: State, c: nat, request: string, hdl: S.Callback)
    requires c < |st.clients| && st.clients[c].at.Outside?
    ensures Counted(st, AfterClientCall(st, c, request, hdl), None)
    ensures Recorded(st, AfterClientCall(st, c, request, hdl))
    ensures LifecycleOk(st) ==> LifecycleOk(AfterClientCall(st, c, request, hdl))
  {
  }

  lemma ClientCounts(st: State, c: nat)
    requires c < |st.clients| && !st.clients[c].at.Outside?
    ensures var at := st.clients[c].at;
            Counted(st, AfterClientStep(st, c),
                    if at.AtPost? then Some(Post(c + 1, st.clients[c].calls, at.target, at.hdl)) else None)
    ensures Recorded(st, AfterClientStep(st, c))
  {
  }

  lemma ClientLifecycle(st: State, c: nat)
    requires c < |st.clients| && !st.clients[c].at.Outside? && LifecycleOk(st)
    ensures LifecycleOk(AfterClientStep(st, c))
  {
  }

  /** The post of the subscribe task when it is about to make one. */
  ghost function TaskPost(cfg: Config, st: State): Option<Post>
    requires TaskOk(cfg, st)
  {
    if st.task.SubPost? then
      Some(Post(0, st.taskCalls, cfg.subs[st.task.i].target, cfg.subs[st.task.i].hdl))
    else None
  }

  lemma TaskCounts(cfg: Config, st: State)
    requires !st.task.Exited? && TaskOk(cfg, st)
    ensures Counted(st, AfterTaskStep(cfg, st), TaskPost(cfg, st))
    ensures Recorded(st, AfterTaskStep(cfg, st))
  {
  }

  lemma TaskLifecycle(cfg: Config, st: State)
    requires !st.task.Exited? && LifecycleOk(st) && TaskOk(cfg, st)
    ensures LifecycleOk(AfterTaskStep(cfg, st)) && TaskOk(cfg, AfterTaskStep(cfg, st))
  {
  }

  lemma CallerPosts(st: State, st': State)
    requires PostsOk(st) && CallerFrame(st, st')
    requires PostsNothing(st, st') || exists p :: PostsOne(st, st', p)
    ensures PostsOk(st')
  {
    var n := |st.added| + if st.session.io.Crashed? then 1 else 0;
    if p :| PostsOne(st, st', p) {
      assert (st.posts + [p])[n..] == st.posts[n..] + [p];
    }
  }

  lemma CallerData(cfg: Config, st: State, st': State)
    requires st.Shape() && RingOk(st) && WritesOk(cfg, st) && DeliveriesOk(st) && CallerFrame(st, st')
    ensures RingOk(st') && WritesOk(cfg, st') && DeliveriesOk(st')
  {
    hide R.Models, WritesAt;
  }

  lemma CallerOrder(st: State, st': State)
    requires CallOrder(st) && (forall c :: LastDone(st, c) <= LastDone(st', c))
    requires PostsNothing(st, st') || exists p :: PostsOne(st, st', p)
    ensures CallOrder(st')
  {
  }

  lemma CallerFinished(st: State, st': State)
    requires FinishedOk(st) && CallerFrame(st, st') && Recorded(st, st')
    ensures FinishedOk(st')
  {
  }

  lemma CallerKeeps(cfg: Config, st: State, st': State, made: Option<Post>)
    requires st.Shape() && st'.Shape() && Inv(cfg, st)
    requires Counted(st, st', made) && Recorded(st, st') && LifecycleOk(st') && TaskOk(cfg, st')
    ensures Inv(cfg, st')
  {
    CallerData(cfg, st, st');
    CallerPosts(st, st');
    CallerOrder(st, st');
    CallerFinished(st, st');
  }

  lemma ClientCallStep(cfg: Config, st: State, c: nat, request: string, hdl: S.Callback)
    requires st.Shape() && Inv(cfg, st) && c < |st.clients| && st.clients[c].at.Outside?
    ensures Inv(cfg, AfterClientCall(st, c, request, hdl))
  {
    ClientCalls(st, c, request, hdl);
    CallerKeeps(cfg, st, AfterClientCall(st, c, request, hdl), None);
  }

  lemma ClientThreadStep(cfg: Config, st: State, c: nat)
    requires st.Shape() && Inv(cfg, st) && c < |st.clients| && !st.clients[c].at.Outside?
    ensures Inv(cfg, AfterClientStep(st, c))
  {
    var at := st.clients[c].at;
    ClientCounts(st, c);
    ClientLifecycle(st, c);
    CallerKeeps(cfg, st, AfterClientStep(st, c),
                if at.AtPost? then Some(Post(c + 1, st.clients[c].calls, at.target, at.hdl)) else None);
  }

  lemma TaskThreadStep(cfg: Config, st: State)
    requires st.Shape() && Inv(cfg, st) && !st.task.Exited?
    ensures Inv(cfg, AfterTaskStep(cfg, st))
  {
    TaskCounts(cfg, st);
    TaskLifecycle(cfg, st);
    CallerKeeps(cfg, st, AfterTaskStep(cfg, st), TaskPost(cfg, st));
  }

  // ---------------------------------------------------------------- all steps, all runs

  lemma StepInv(cfg: Config, st: State, a: Action)
    requires st.Shape() && Inv(cfg, st) && Enabled(cfg, st, a) && |st.added| < TWO_64
    ensures Inv(cfg, Next(cfg, st, a))
  {
    hide Inv;
    match a
    case ExecPost => ExecStep(cfg, st);
    case Send(k) => SendStep(cfg, st, k);
    case ReadDone(failed) => ReadStep(cfg, st, failed);
    case ClientCall(c, request, hdl) => ClientCallStep(cfg, st, c, request, hdl);
    case ClientStep(c) => ClientThreadStep(cfg, st, c);
    case TaskStep => TaskThreadStep(cfg, st);
    case _ => QuietSteps(cfg, st, a);
  }

  lemma StepGrows(cfg: Config, st: State, a: Action)
    requires st.Shape() && Enabled(cfg, st, a)
    ensures st.added <= Next(cfg, st, a).added
    ensures Next(cfg, st, a).session.template.head == st.session.template.head
  {
    match a
    case ExecPost =>
    case ClientStep(c) => assert AfterClientStep(st, c).session == st.session;
    case TaskStep => assert AfterTaskStep(cfg, st).session == st.session;
    case _ =>
  }

  lemma {:induction false} Grows(cfg: Config, st: State, run: seq<Action>)
    requires st.Shape() && Exec(cfg, st, run).Some?
    ensures st.added <= Exec(cfg, st, run).value.added
    ensures Exec(cfg, st, run).value.session.template.head == st.session.template.head
    decreases |run|
  {
    hide Next, Enabled;
    if run != [] {
      StepGrows(cfg, st, run[0]);
      Grows(cfg, Next(cfg, st, run[0]), run[1..]);
    }
  }

  lemma {:induction false} RunInv(cfg: Config, st: State, run: seq<Action>)
    requires st.Shape() && Inv(cfg, st) && Exec(cfg, st, run).Some?
    requires |Exec(cfg, st, run).value.added| < TWO_64
    ensures Inv(cfg, Exec(cfg, st, run).value)
    decreases |run|
  {
    hide Next, Enabled, Inv;
    if run != [] {
      Grows(cfg, st, run);
      Grows(cfg, Next(cfg, st, run[0]), run[1..]);
      StepInv(cfg, st, run[0]);
      RunInv(cfg, Next(cfg, st, run[0]), run[1..]);
    }
  }
}
