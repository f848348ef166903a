/** What holds of every run of the composed client in which fewer than 2^64 requests are executed. */
module PipelineTheorems {
  import opened Words
  import opened Pipeline
  import opened PipelineInv
  import R = Ring
  import S = SessionState

  /** A run from the start: any configuration, initial slots, number of client threads and order of steps. */
  datatype Trace = Trace(cfg: Config, head: string, slots: seq<S.Entry>, clients: nat, actions: seq<Action>) {
    ghost predicate Possible() {
      && IsCapacity(|slots|)
      && Exec(cfg, Start(head, slots, clients), actions).Some?
      && |Exec(cfg, Start(head, slots, clients), actions).value.added| < TWO_64
    }

    ghost function End(): (st: State)
      requires Possible()
      ensures st.Shape() && |st.session.ring.slots| == |slots|
    {
      Exec(cfg, Start(head, slots, clients), actions).value
    }
  }

  lemma EndInv(t: Trace)
    requires t.Possible()
    ensures Inv(t.cfg, t.End())
    ensures t.End().session.template.head == t.head
  {
    StartInv(t.cfg, t.head, t.slots, t.clients);
    EndFrom(t, Start(t.head, t.slots, t.clients));
  }

  lemma EndFrom(t: Trace, start: State)
    requires start.Shape() && Inv(t.cfg, start) && Exec(t.cfg, start, t.actions).Some?
    requires |Exec(t.cfg, start, t.actions).value.added| < TWO_64
    ensures Inv(t.cfg, Exec(t.cfg, start, t.actions).value)
    ensures Exec(t.cfg, start, t.actions).value.session.template.head == start.session.template.head
  {
    RunInv(t.cfg, start, t.actions);
    Grows(t.cfg, start, t.actions);
  }

  // ---------------------------------------------------------------- pipelining

  /** The k-th response goes to the callback of the k-th executed request, with that request's own
      target; every response read is delivered, and what is executed is delivered or in the ring. */
  lemma ResponsesMatchRequests(t: Trace)
    requires t.Possible()
    ensures var st := t.End();
            && |st.session.delivered| == st.read <= |st.answers| <= st.sent <= |st.added| <= |st.posts|
            && (forall k :: 0 <= k < st.read ==>
                  st.session.delivered[k] == S.Delivery(st.posts[k].hdl, st.answers[k], st.posts[k].target))
            && |st.added| == |st.session.delivered| + Sub(st.session.ring.w, st.session.ring.r)
  {
    EndInv(t);
    var st := t.End();
    R.NoWrapBelow(st.session.ring, st.added, st.read);
    forall k | 0 <= k < st.read
      ensures st.session.delivered[k] == S.Delivery(st.posts[k].hdl, st.answers[k], st.posts[k].target)
    {
      assert st.added[k] == EntryOf(t.head, st.posts[k]);
    }
  }

  /** Posts are executed in order, each once: what was posted is what was executed, then the one whose
      execution crashed, if any, then what is still queued. */
  lemma PostsAreExecutedInOrder(t: Trace)
    requires t.Possible()
    ensures var st := t.End();
            var n := |st.added|;
            && n <= |st.posts|
            && (forall k :: 0 <= k < n ==> st.added[k] == EntryOf(t.head, st.posts[k]))
            && (!st.session.io.Crashed? ==> st.posts == st.posts[..n] + st.queue)
            && (st.session.io.Crashed? ==> n < |st.posts| && st.posts == st.posts[..n] + [st.posts[n]] + st.queue)
  {
    EndInv(t);
  }

  /** The wire holds the encodings of the executed requests as they were when executed, back to back,
      the last one possibly in part, although each is read from its slot while it is being sent. */
  lemma WireIsRequestsInOrder(t: Trace)
    requires t.Possible()
    ensures var st := t.End();
            && st.sent <= |st.added|
            && Bytes(t.cfg, st.added, st.sent) <= st.wire
            && (st.sent == |st.added| ==> st.wire == Bytes(t.cfg, st.added, st.sent))
            && (st.sent < |st.added| ==> st.wire <= Bytes(t.cfg, st.added, st.sent + 1))
  {
    EndInv(t);
    var st := t.End();
    if st.sent < |st.added| {
      var bytes := t.cfg.encode(st.added[st.sent].req);
      var to := st.session.writes[0].sent;
      var done := Bytes(t.cfg, st.added, st.sent);
      assert done + bytes == (done + bytes[..to]) + bytes[to..];
    }
  }

  /** Every outstanding write still refers to the entry it was started for. */
  lemma PendingWritesAreStable(t: Trace, k: nat)
    requires t.Possible() && k < |t.End().session.writes|
    ensures var st := t.End();
            && st.sent + k < |st.added|
            && st.session.writes[k].slot < |t.slots|
            && st.session.ring.slots[st.session.writes[k].slot] == st.added[st.sent + k]
  {
    EndInv(t);
    var st := t.End();
    assert st.session.writes[k].slot == Slot(st.sent + k, |t.slots|);
  }

  lemma ExecOutcome(st: State)
    requires st.Shape() && RingOk(st) && PostsOk(st) && CanExec(st)
    ensures AfterExec(st).session.io.Crashed? <==> |st.added| - |st.session.delivered| == |st.session.ring.slots|
  {
    ExecEffect(st);
    hide AfterExec;
  }

  /** When a request is executed into a slot used before, the request it replaces has been taken from
      the ring, so answered, so wholly sent. */
  lemma OverwrittenWasAnswered(t: Trace)
    requires t.Possible() && Enabled(t.cfg, t.End(), ExecPost)
    requires !Next(t.cfg, t.End(), ExecPost).session.io.Crashed? && |t.End().added| >= |t.slots|
    ensures var st := t.End();
            var i := |st.added| - |t.slots|;
            && Slot(i, |t.slots|) == Slot(|st.added|, |t.slots|)
            && i < |st.session.delivered| <= |st.answers| <= st.sent
  {
    EndInv(t);
    var st := t.End();
    ExecOutcome(st);
    SlotPeriodic(|st.added| - |t.slots|, |t.slots|);
    hide AfterExec, Slot;
  }

  /** Executing a request crashes the client exactly when the ring already holds its size of
      unanswered requests. */
  lemma CrashesExactlyWhenFull(t: Trace)
    requires t.Possible() && Enabled(t.cfg, t.End(), ExecPost)
    ensures Next(t.cfg, t.End(), ExecPost).session.io.Crashed? <==>
            |t.End().added| - |t.End().session.delivered| == |t.slots|
  {
    EndInv(t);
    ExecOutcome(t.End());
    hide AfterExec;
  }

  // ---------------------------------------------------------------- per caller

  /** Of two calls of one caller that returned RequestSent, the earlier one was posted earlier; so when
      the later one's callback has been called, the earlier one's was called before it. */
  lemma CallbacksFollowCallOrder(t: Trace, i: nat, j: nat)
    requires t.Possible() && i < |t.End().finished| && j < |t.End().finished|
    requires t.End().finished[i].caller == t.End().finished[j].caller
    requires t.End().finished[i].status.RequestSent? && t.End().finished[j].status.RequestSent?
    requires t.End().finished[i].call < t.End().finished[j].call
    ensures var st := t.End();
            var x, y := st.finished[i].posts - 1, st.finished[j].posts - 1;
            && 0 <= x < y < |st.posts|
            && st.posts[x].caller == st.posts[y].caller == st.finished[i].caller
            && st.posts[x].call == st.finished[i].call && st.posts[y].call == st.finished[j].call
            && (y < |st.session.delivered| ==>
                  && x < |st.answers| && y < |st.answers|
                  && st.session.delivered[x] == S.Delivery(st.posts[x].hdl, st.answers[x], st.posts[x].target)
                  && st.session.delivered[y] == S.Delivery(st.posts[y].hdl, st.answers[y], st.posts[y].target))
  {
    EndInv(t);
    ResponsesMatchRequests(t);
    var st := t.End();
    assert FinishedCall(st, st.finished[i]) && FinishedCall(st, st.finished[j]);
  }

  // ---------------------------------------------------------------- round robin

  /** Where the subscribe task stands is given by how many calls it has begun, and each of its posts is
      for the subscription its call number selects. */
  ghost predicate RoundRobin(cfg: Config, st: State) {
    var n := |cfg.subs|;
    && (match st.task
        case TestStop => n > 0 ==> st.taskCalls % n == 0
        case TestError => n > 0 ==> st.taskCalls % n == 0
        case SubReady(i) => i < n && st.taskCalls > 0 && (st.taskCalls - 1) % n == i
        case SubPost(i) => i < n && st.taskCalls > 0 && (st.taskCalls - 1) % n == i
        case SubSleep(i) => i < n && st.taskCalls > 0 && (st.taskCalls - 1) % n == i
        case Exited => true)
    && forall k :: 0 <= k < |st.posts| && st.posts[k].caller == 0 ==> ForTurn(cfg, st.posts[k])
  }

  ghost predicate ForTurn(cfg: Config, p: Post) {
    && p.call > 0 && |cfg.subs| > 0
    && S.Subscription(p.target, p.hdl) == cfg.subs[(p.call - 1) % |cfg.subs|]
  }

  lemma NextTurn(c: nat, n: nat)
    requires n > 0
    ensures (c + 1) % n == if c % n + 1 < n then c % n + 1 else 0
  {
    var q, r := c / n, c % n;
    if r + 1 < n {
      DivModUnique(c + 1, n, q, r + 1);
    } else {
      assert (q + 1) * n == q * n + n;
      DivModUnique(c + 1, n, q + 1, 0);
    }
  }

  lemma RoundRobinTask(cfg: Config, st: State)
    requires RoundRobin(cfg, st) && !st.task.Exited?
    ensures RoundRobin(cfg, AfterTaskStep(cfg, st))
  {
    if st.task.SubSleep? {
      NextTurn(st.taskCalls - 1, |cfg.subs|);
    }
    if st.task.SubPost? {
      assert ForTurn(cfg, AfterTaskStep(cfg, st).posts[|st.posts|]);
    }
  }

  lemma RoundRobinOther(cfg: Config, st: State, a: Action)
    requires st.Shape() && Enabled(cfg, st, a) && !a.TaskStep?
    ensures var st' := Next(cfg, st, a);
            && st'.task == st.task && st'.taskCalls == st.taskCalls
            && st.posts <= st'.posts
            && forall k :: |st.posts| <= k < |st'.posts| ==> st'.posts[k].caller != 0
  {
  }

  lemma RoundRobinStep(cfg: Config, st: State, a: Action)
    requires st.Shape() && RoundRobin(cfg, st) && Enabled(cfg, st, a)
    ensures RoundRobin(cfg, Next(cfg, st, a))
  {
    if a.TaskStep? {
      RoundRobinTask(cfg, st);
    } else {
      RoundRobinOther(cfg, st, a);
      hide Next, Enabled, ForTurn;
    }
  }

  lemma {:induction false} RoundRobinRun(cfg: Config, st: State, run: seq<Action>)
    requires st.Shape() && RoundRobin(cfg, st) && Exec(cfg, st, run).Some?
    ensures RoundRobin(cfg, Exec(cfg, st, run).value)
    decreases |run|
  {
    if run != [] {
      hide Next, Enabled, RoundRobin;
      RoundRobinStep(cfg, st, run[0]);
      RoundRobinRun(cfg, Next(cfg, st, run[0]), run[1..]);
    }
  }

  /** However the subscribe task and the client threads interleave, its k-th call is for subscription
      k - 1 mod n, and the response to it goes to that subscription's callback with its target. */
  lemma SubscriptionsTakeTurns(t: Trace, k: nat)
    requires t.Possible() && k < |t.End().session.delivered|
    ensures var st := t.End();
            && k < |st.posts| && k < |st.answers|
            && (st.posts[k].caller == 0 ==>
                  && st.posts[k].call > 0 && |t.cfg.subs| > 0
                  && var sub := t.cfg.subs[(st.posts[k].call - 1) % |t.cfg.subs|];
                     st.session.delivered[k] == S.Delivery(sub.hdl, st.answers[k], sub.target))
  {
    ResponsesMatchRequests(t);
    RoundRobinRun(t.cfg, Start(t.head, t.slots, t.clients), t.actions);
    assert t.End().posts[k].caller == 0 ==> ForTurn(t.cfg, t.End().posts[k]);
  }

  // ---------------------------------------------------------------- lifecycle

  /** Ready means resolved, connected and secured, in this order; before that nothing is posted or in
      the ring. At most one read is outstanding, and exactly one while ready without error. */
  lemma Lifecycle(t: Trace)
    requires t.Possible()
    ensures var st := t.End();
            && (st.session.ready ==> st.stages == [Resolved, Connected, Secured])
            && (!st.session.ready ==> st.posts == [] && st.added == [] && st.session.writes == [])
            && st.session.reading <= 1
            && (st.session.ready && !st.session.error ==> st.session.reading == 1)
            && (st.session.error ==> !st.session.io.Running?)
  {
    EndInv(t);
  }

  /** What only handlers change, and `mReadPos`, `mWritePos`, the wire and the callback history. */
  ghost predicate Frozen(st: State, st': State) {
    && st'.session.ring == st.session.ring
    && st'.session.template == st.session.template
    && st'.session.writes == st.session.writes
    && st'.session.delivered == st.session.delivered
    && st'.session.ready == st.session.ready
    && st'.session.io == st.session.io
    && st'.wire == st.wire && st'.sent == st.sent && st'.read == st.read && st'.added == st.added
  }

  lemma StoppedStep(cfg: Config, st: State, a: Action)
    requires st.Shape() && !st.session.io.Running? && Enabled(cfg, st, a)
    ensures Frozen(st, Next(cfg, st, a))
  {
    match a
    case Run(_) =>
    case Answer(_) =>
    case ClientCall(_, _, _) =>
    case ClientStep(c) => assert AfterClientStep(st, c).session == st.session;
    case TaskStep => assert AfterTaskStep(cfg, st).session == st.session;
    case _ =>
  }

  /** Once `mIoc` no longer runs, no post is executed, nothing is sent and no callback is called. */
  lemma {:induction false} StoppedIsFrozen(cfg: Config, st: State, run: seq<Action>)
    requires st.Shape() && !st.session.io.Running? && Exec(cfg, st, run).Some?
    ensures Frozen(st, Exec(cfg, st, run).value)
    decreases |run|
  {
    hide Next, Enabled;
    if run != [] {
      StoppedStep(cfg, st, run[0]);
      StoppedIsFrozen(cfg, Next(cfg, st, run[0]), run[1..]);
    }
  }

  lemma FlagsStep(cfg: Config, st: State, a: Action)
    requires st.Shape() && Enabled(cfg, st, a)
    ensures st.session.error ==> Next(cfg, st, a).session.error
    ensures st.stop ==> Next(cfg, st, a).stop
    ensures st.session.ready ==> Next(cfg, st, a).session.ready
  {
  }

  /** `mError`, `mStopSubscriber` and `mSessionReady`, once set, stay set. */
  lemma {:induction false} FlagsStay(cfg: Config, st: State, run: seq<Action>)
    requires st.Shape() && Exec(cfg, st, run).Some?
    ensures st.session.error ==> Exec(cfg, st, run).value.session.error
    ensures st.stop ==> Exec(cfg, st, run).value.stop
    ensures st.session.ready ==> Exec(cfg, st, run).value.session.ready
    decreases |run|
  {
    hide Next, Enabled;
    if run != [] {
      FlagsStep(cfg, st, run[0]);
      FlagsStay(cfg, Next(cfg, st, run[0]), run[1..]);
    }
  }

  // ---------------------------------------------------------------- the subscribe task after a flag

  /** Calls the subscribe task can still begin once a flag is set. */
  ghost function CallsLeft(cfg: Config, st: State): int {
    match st.task
    case TestError => if st.session.error then 0 else |cfg.subs|
    case SubReady(i) => |cfg.subs| - i - 1
    case SubPost(i) => |cfg.subs| - i - 1
    case SubSleep(i) => |cfg.subs| - i - 1
    case _ => 0
  }

  /** Steps the subscribe task can still take once a flag is set. */
  ghost function StepsLeft(cfg: Config, st: State): int {
    match st.task
    case TestStop => 2
    case TestError => if st.session.error then 1 else 3 * |cfg.subs| + 3
    case SubReady(i) => 3 * (|cfg.subs| - i) + 2
    case SubPost(i) => 3 * (|cfg.subs| - i) + 1
    case SubSleep(i) => 3 * (|cfg.subs| - i)
    case Exited => 0
  }

  ghost function TaskSteps(run: seq<Action>): nat {
    if run == [] then 0 else (if run[0].TaskStep? then 1 else 0) + TaskSteps(run[1..])
  }

  lemma CallsLeftBound(cfg: Config, st: State)
    requires TaskOk(cfg, st)
    ensures 0 <= CallsLeft(cfg, st) <= |cfg.subs|
    ensures 0 <= StepsLeft(cfg, st) <= 3 * |cfg.subs| + 3
  {
  }

  lemma FlaggedTaskStep(cfg: Config, st: State)
    requires TaskOk(cfg, st) && !st.task.Exited? && (st.stop || st.session.error)
    ensures var st' := AfterTaskStep(cfg, st);
            && TaskOk(cfg, st') && (st'.stop || st'.session.error)
            && st'.taskCalls + CallsLeft(cfg, st') <= st.taskCalls + CallsLeft(cfg, st)
            && StepsLeft(cfg, st') < StepsLeft(cfg, st)
  {
  }

  lemma FlaggedOtherStep(cfg: Config, st: State, a: Action)
    requires st.Shape() && Enabled(cfg, st, a) && !a.TaskStep?
    ensures var st' := Next(cfg, st, a);
            && st'.task == st.task && st'.taskCalls == st.taskCalls
            && (st.stop ==> st'.stop) && (st.session.error ==> st'.session.error)
  {
  }

  lemma FlaggedStep(cfg: Config, st: State, a: Action)
    requires st.Shape() && TaskOk(cfg, st) && Enabled(cfg, st, a) && (st.stop || st.session.error)
    ensures var st' := Next(cfg, st, a);
            && TaskOk(cfg, st') && (st'.stop || st'.session.error)
            && st'.taskCalls + CallsLeft(cfg, st') <= st.taskCalls + CallsLeft(cfg, st)
            && StepsLeft(cfg, st') <= StepsLeft(cfg, st) - if a.TaskStep? then 1 else 0
  {
    if a.TaskStep? {
      FlaggedTaskStep(cfg, st);
    } else {
      FlaggedOtherStep(cfg, st, a);
    }
  }

  lemma {:induction false} FlaggedRun(cfg: Config, st: State, run: seq<Action>)
    requires st.Shape() && TaskOk(cfg, st) && Exec(cfg, st, run).Some? && (st.stop || st.session.error)
    ensures Exec(cfg, st, run).value.taskCalls <= st.taskCalls + CallsLeft(cfg, st)
    ensures TaskSteps(run) <= StepsLeft(cfg, st)
    decreases |run|
  {
    hide Next, Enabled;
    if run == [] {
      CallsLeftBound(cfg, st);
    } else {
      FlaggedStep(cfg, st, run[0]);
      FlaggedRun(cfg, Next(cfg, st, run[0]), run[1..]);
    }
  }

  /** From the moment a flag is set, in any continuation, the subscribe task begins at most one call per
      subscription, and has exited after at most `3 * n + 3` of its steps. */
  lemma TaskEndsAfterFlag(t: Trace, more: seq<Action>)
    requires t.Possible() && Exec(t.cfg, t.End(), more).Some?
    requires t.End().stop || t.End().session.error
    ensures Exec(t.cfg, t.End(), more).value.taskCalls <= t.End().taskCalls + |t.cfg.subs|
    ensures TaskSteps(more) <= 3 * |t.cfg.subs| + 3
  {
    EndInv(t);
    CallsLeftBound(t.cfg, t.End());
    FlaggedRun(t.cfg, t.End(), more);
  }

  // ---------------------------------------------------------------- nothing gets stuck

  ghost function Pending(st: State): int {
    3 * |st.added| - st.read - |st.answers| - st.sent
  }

  /** In an open, running session some step brings an executed request nearer to its callback. */
  ghost function Forward(cfg: Config, st: State): Action
    requires st.Shape()
  {
    if st.read < |st.answers| then ReadDone(false)
    else if |st.answers| < st.sent then Answer(S.Response("", 200))
    else if st.session.writes != [] && st.session.writes[0].slot < |st.session.ring.slots|
            && |Sending(cfg, st)| >= st.session.writes[0].sent then
      Send(|Sending(cfg, st)| - st.session.writes[0].sent)
    else Send(0)
  }

  lemma ForwardStep(cfg: Config, st: State)
    requires st.Shape() && RingOk(st) && WritesOk(cfg, st) && st.session.io.Running? && st.session.reading == 1
    requires |st.session.delivered| < |st.added|
    ensures Enabled(cfg, st, Forward(cfg, st))
    ensures var st' := Next(cfg, st, Forward(cfg, st));
            && st'.added == st.added && st'.session.io.Running? && st'.session.ready == st.session.ready
            && st'.session.error == st.session.error
            && Pending(st') == Pending(st) - 1
  {
  }

  /** Some continuation calls the callback of every request executed so far. */
  ghost predicate Deliverable(cfg: Config, st: State)
    requires st.Shape()
  {
    exists run :: Delivers(cfg, st, run)
  }

  ghost predicate Delivers(cfg: Config, st: State, run: seq<Action>)
    requires st.Shape()
  {
    && Exec(cfg, st, run).Some?
    && Exec(cfg, st, run).value.added == st.added
    && |Exec(cfg, st, run).value.session.delivered| == |st.added|
  }

  lemma DeliverableFrom(cfg: Config, st: State, a: Action)
    requires st.Shape() && Enabled(cfg, st, a) && Next(cfg, st, a).added == st.added
    requires Deliverable(cfg, Next(cfg, st, a))
    ensures Deliverable(cfg, st)
  {
    hide Next, Enabled;
    var rest :| Delivers(cfg, Next(cfg, st, a), rest);
    assert ([a] + rest)[1..] == rest;
    assert Exec(cfg, st, [a] + rest) == Exec(cfg, Next(cfg, st, a), rest);
    assert Delivers(cfg, st, [a] + rest);
  }

  lemma {:induction false} CanDeliver(cfg: Config, st: State)
    requires st.Shape() && Inv(cfg, st) && st.session.io.Running? && st.session.ready && |st.added| < TWO_64
    ensures Deliverable(cfg, st)
    decreases Pending(st)
  {
    if |st.session.delivered| == |st.added| {
      assert Delivers(cfg, st, []);
    } else {
      ForwardStep(cfg, st);
      hide Next, Enabled, Forward, Inv, Deliverable;
      var a := Forward(cfg, st);
      StepInv(cfg, st, a);
      CanDeliver(cfg, Next(cfg, st, a));
      DeliverableFrom(cfg, st, a);
    }
  }

  /** From every reachable state with the session ready and running there is a continuation in which
      every executed request's callback is called: no response can be stranded. */
  lemma CanDeliverAll(t: Trace)
    requires t.Possible() && t.End().session.io.Running? && t.End().session.ready
    ensures Deliverable(t.cfg, t.End())
  {
    EndInv(t);
    CanDeliver(t.cfg, t.End());
  }
}
