/** The calls of the composed client: what each is answered, what it posts, and that it ends. */
module PipelineCalls {
  import opened Words
  import opened Pipeline
  import opened PipelineInv
  import opened PipelineTheorems
  import S = SessionState
  import T = Targets

  /** The records of one caller's finished calls. */
  ghost function Records(finished: seq<Finished>, caller: nat): seq<Finished> {
    if finished == [] then []
    else
      var last := finished[|finished| - 1];
      Records(finished[..|finished| - 1], caller) + if last.caller == caller then [last] else []
  }

  lemma RecordsSnoc(finished: seq<Finished>, f: Finished, caller: nat)
    ensures Records(finished + [f], caller) == Records(finished, caller) + if f.caller == caller then [f] else []
  {
    assert (finished + [f])[..|finished|] == finished;
  }

  // ---------------------------------------------------------------- what a step does to callers

  ghost predicate IsCallerStep(a: Action) {
    a.ClientCall? || a.ClientStep? || a.TaskStep?
  }

  ghost predicate SameCalls(st: State, st': State) {
    && st'.clients == st.clients && st'.task == st.task && st'.taskCalls == st.taskCalls
    && st'.posts == st.posts && st'.finished == st.finished
  }

  lemma HandlerEffect(cfg: Config, st: State, a: Action)
    requires st.Shape() && Enabled(cfg, st, a) && !IsCallerStep(a)
    ensures SameCalls(st, Next(cfg, st, a))
  {
  }

  /** The record of a call that ended with this step. */
  ghost predicate Ends(st: State, st': State, caller: nat, call: nat) {
    && |st'.finished| == |st.finished| + 1 && st'.finished == st.finished + [st'.finished[|st.finished|]]
    && st'.finished[|st.finished|].caller == caller && st'.finished[|st.finished|].call == call
  }

  lemma ClientEffect(st: State, c: nat)
    requires c < |st.clients| && !st.clients[c].at.Outside?
    ensures var st' := AfterClientStep(st, c);
            var me, me' := st.clients[c], st'.clients[c];
            && st'.clients == st.clients[c := me'] && me'.calls == me.calls
            && st'.task == st.task && st'.taskCalls == st.taskCalls
            && st'.session == st.session && st'.stop == st.stop
            && (if me'.at.Outside? then Ends(st, st', c + 1, me.calls)
                else st'.finished == st.finished && me'.at.target == me.at.target && me'.at.hdl == me.at.hdl)
            && st'.posts == st.posts + if me.at.AtPost? then [Post(c + 1, me.calls, me.at.target, me.at.hdl)] else []
  {
  }

  lemma CallEffect(st: State, c: nat, request: string, hdl: S.Callback)
    requires c < |st.clients| && st.clients[c].at.Outside?
    ensures var st' := AfterClientCall(st, c, request, hdl);
            && st'.clients == st.clients[c := Client(AtError(T.PREFIX + request, hdl), st.clients[c].calls + 1)]
            && st'.task == st.task && st'.taskCalls == st.taskCalls && st'.session == st.session
            && st'.stop == st.stop && st'.posts == st.posts && st'.finished == st.finished
  {
  }

  lemma TaskEffect(cfg: Config, st: State)
    requires !st.task.Exited?
    ensures var st' := AfterTaskStep(cfg, st);
            && st'.clients == st.clients && st'.session == st.session && st'.stop == st.stop
            && (if st'.task.SubSleep? then Ends(st, st', 0, st.taskCalls) && st'.taskCalls == st.taskCalls
                                           && (st.task.SubReady? || st.task.SubPost?)
                else st'.finished == st.finished)
            && (st'.posts == st.posts || (|st'.posts| == |st.posts| + 1 && st.posts < st'.posts
                                          && st'.posts[|st.posts|].caller == 0))
  {
  }

  // ---------------------------------------------------------------- one call of a client thread

  ghost predicate OtherThan(a: Action, c: nat) {
    !(a.ClientCall? && a.c == c) && !(a.ClientStep? && a.c == c)
  }

  /** What the other threads, the handlers and the peer do to a call under way. */
  lemma OtherSteps(cfg: Config, st: State, a: Action, c: nat)
    requires st.Shape() && Enabled(cfg, st, a) && OtherThan(a, c) && c < |st.clients|
    ensures var st' := Next(cfg, st, a);
            && |st'.clients| == |st.clients| && st'.clients[c] == st.clients[c] && st.posts <= st'.posts
            && Records(st'.finished, c + 1) == Records(st.finished, c + 1)
  {
    var st' := Next(cfg, st, a);
    match a
    case ClientCall(d, request, hdl) =>
      CallEffect(st, d, request, hdl);
      hide AfterClientCall, Records;
    case ClientStep(d) =>
      ClientEffect(st, d);
      if |st'.finished| > |st.finished| {
        RecordsSnoc(st.finished, st'.finished[|st.finished|], c + 1);
      }
      hide AfterClientStep, Records;
    case TaskStep =>
      TaskEffect(cfg, st);
      if |st'.finished| > |st.finished| {
        RecordsSnoc(st.finished, st'.finished[|st.finished|], c + 1);
      }
      hide AfterTaskStep, Records;
    case _ =>
      HandlerEffect(cfg, st, a);
      hide Next, Enabled, Records;
  }

  /** How a call is answered that began in `st0`. A flag set before it began is seen; one that is not set
      when it ends was not; and only a call answered RequestSent has posted. */
  ghost predicate Answered(st0: State, st: State, c: nat, request: string, hdl: S.Callback, f: Finished) {
    && f.caller == c + 1
    && match f.status
       case SessionError => st.session.error
       case EndSubscribeRequest => st.stop && !st0.session.error
       case SessionNotReady => !st0.session.ready && !st0.session.error && !st0.stop
       case RequestSent =>
         && !st0.session.error && !st0.stop && st.session.ready
         && 0 < f.posts <= |st.posts| && st.posts[f.posts - 1] == Post(c + 1, f.call, T.PREFIX + request, hdl)
  }

  /** A call under way, or over, that began in `st0`. */
  ghost predicate CallState(st0: State, st: State, c: nat, request: string, hdl: S.Callback)
    requires c < |st0.clients|
  {
    && c < |st.clients| && st.clients[c].calls == st0.clients[c].calls + 1
    && (st0.session.error ==> st.session.error) && (st0.stop ==> st.stop) && (st0.session.ready ==> st.session.ready)
    && var before, now := Records(st0.finished, c + 1), Records(st.finished, c + 1);
    var at := st.clients[c].at;
    if at.Outside? then
      && |now| == |before| + 1 && before < now && now[|before|].call == st.clients[c].calls
      && Answered(st0, st, c, request, hdl, now[|before|])
    else
      && now == before && at.target == T.PREFIX + request && at.hdl == hdl
      && (!at.AtError? ==> !st0.session.error)
      && (at.AtReady? || at.AtPost? ==> !st0.stop)
      && (at.AtPost? ==> st.session.ready)
  }

  ghost function StepsLeft(at: At): nat {
    match at
    case Outside => 0
    case AtError(_, _) => 4
    case AtStop(_, _) => 3
    case AtReady(_, _) => 2
    case AtPost(_, _) => 1
  }

  /** Each test of a call: what it answers, or that it goes on. */
  lemma ClientTests(st: State, c: nat)
    requires c < |st.clients| && !st.clients[c].at.Outside?
    ensures var st' := AfterClientStep(st, c);
            var at, at' := st.clients[c].at, st'.clients[c].at;
            && StepsLeft(at') < StepsLeft(at)
            && (at'.Outside? <==> (at.AtError? && st.session.error) || (at.AtStop? && st.stop)
                                  || (at.AtReady? && !st.session.ready) || at.AtPost?)
            && (at'.Outside? ==>
                  && |st'.finished| > |st.finished|
                  && var f := st'.finished[|st.finished|];
                  && f.posts == |st'.posts|
                  && f.status == match at
                                 case AtError(_, _) => S.SessionError
                                 case AtStop(_, _) => S.EndSubscribeRequest
                                 case AtReady(_, _) => S.SessionNotReady
                                 case _ => S.RequestSent)
            && (!at'.Outside? ==>
                  match at
                  case AtError(_, _) => at'.AtStop?
                  case AtStop(_, _) => at'.AtReady?
                  case _ => at'.AtPost? && st.session.ready)
  {
  }

  lemma OwnStep(st0: State, st: State, c: nat, request: string, hdl: S.Callback)
    requires c < |st0.clients| && CallState(st0, st, c, request, hdl) && !st.clients[c].at.Outside?
    ensures CallState(st0, AfterClientStep(st, c), c, request, hdl)
    ensures StepsLeft(AfterClientStep(st, c).clients[c].at) < StepsLeft(st.clients[c].at)
  {
    var st' := AfterClientStep(st, c);
    ClientEffect(st, c);
    ClientTests(st, c);
    hide AfterClientStep, StepsLeft;
    if st'.clients[c].at.Outside? {
      RecordsSnoc(st.finished, st'.finished[|st.finished|], c + 1);
    }
    hide Records;
  }

  lemma OtherStep(cfg: Config, st0: State, st: State, a: Action, c: nat, request: string, hdl: S.Callback)
    requires st.Shape() && Enabled(cfg, st, a) && OtherThan(a, c)
    requires c < |st0.clients| && CallState(st0, st, c, request, hdl)
    ensures CallState(st0, Next(cfg, st, a), c, request, hdl)
  {
    OtherSteps(cfg, st, a, c);
    FlagsStep(cfg, st, a);
    hide Next, Enabled, Records;
  }

  ghost function ClientSteps(run: seq<Action>, c: nat): nat {
    if run == [] then 0 else (if run[0] == ClientStep(c) then 1 else 0) + ClientSteps(run[1..], c)
  }

  lemma {:induction false} CallRun(cfg: Config, st0: State, st: State, run: seq<Action>, c: nat,
                                   request: string, hdl: S.Callback)
    requires st.Shape() && Exec(cfg, st, run).Some?
    requires c < |st0.clients| && CallState(st0, st, c, request, hdl)
    requires forall k :: 0 <= k < |run| ==> !(run[k].ClientCall? && run[k].c == c)
    ensures var end := Exec(cfg, st, run).value;
            && CallState(st0, end, c, request, hdl)
            && ClientSteps(run, c) + StepsLeft(end.clients[c].at) <= StepsLeft(st.clients[c].at)
    decreases |run|
  {
    if run != [] {
      var st' := Next(cfg, st, run[0]);
      if run[0] == ClientStep(c) {
        OwnStep(st0, st, c, request, hdl);
      } else {
        OtherStep(cfg, st0, st, run[0], c, request, hdl);
        OtherSteps(cfg, st, run[0], c);
      }
      assert forall k :: 0 <= k < |run[1..]| ==> run[1..][k] == run[k + 1];
      hide Next, Enabled, CallState, StepsLeft;
      CallRun(cfg, st0, st', run[1..], c, request, hdl);
    }
  }

  /** A call of client thread `c`, from any state and whatever the others do meanwhile: it ends within four
      of its own steps, with one answer, given as `Answered` says. So a call that begins with the error
      set is answered SessionError, and so on down the tests. */
  lemma ClientCallIsAnswered(cfg: Config, st: State, run: seq<Action>, c: nat, request: string, hdl: S.Callback)
    requires st.Shape() && c < |st.clients| && st.clients[c].at.Outside?
    requires Exec(cfg, st, [ClientCall(c, request, hdl)] + run).Some?
    requires forall k :: 0 <= k < |run| ==> !(run[k].ClientCall? && run[k].c == c)
    ensures var end := Exec(cfg, st, [ClientCall(c, request, hdl)] + run).value;
            && CallState(st, end, c, request, hdl)
            && ClientSteps(run, c) <= 4
            && (ClientSteps(run, c) == 4 ==> end.clients[c].at.Outside?)
  {
    var call := ClientCall(c, request, hdl);
    var st' := AfterClientCall(st, c, request, hdl);
    assert ([call] + run)[1..] == run;
    assert Exec(cfg, st, [call] + run) == Exec(cfg, st', run);
    CallRun(cfg, st, st', run, c, request, hdl);
  }

  /** What the call is answered when no flag changes after it began. */
  lemma AnswerWithoutChange(st0: State, st: State, c: nat, request: string, hdl: S.Callback)
    requires c < |st0.clients| && CallState(st0, st, c, request, hdl) && st.clients[c].at.Outside?
    requires st.session.error == st0.session.error && st.stop == st0.stop && st.session.ready == st0.session.ready
    ensures var before, now := Records(st0.finished, c + 1), Records(st.finished, c + 1);
            && |now| == |before| + 1
            && now[|before|].status ==
               if st0.session.error then S.SessionError
               else if st0.stop then S.EndSubscribeRequest
               else if !st0.session.ready then S.SessionNotReady
               else S.RequestSent
  {
    hide Records;
  }

  // ---------------------------------------------------------------- every call has its record

  /** The finished calls of every caller are recorded, each once, in the order of their numbers. */
  ghost predicate RecordsOk(st: State, caller: nat) {
    && |Records(st.finished, caller)| == LastDone(st, caller)
    && forall k :: 0 <= k < |Records(st.finished, caller)| ==> Records(st.finished, caller)[k].call == k + 1
  }

  lemma RecordsKept(st: State, st': State, caller: nat)
    requires RecordsOk(st, caller) && st'.finished == st.finished && LastDone(st', caller) == LastDone(st, caller)
    ensures RecordsOk(st', caller)
  {
  }

  lemma RecordsMore(st: State, st': State, caller: nat, owner: nat, call: nat)
    requires RecordsOk(st, caller) && Ends(st, st', owner, call)
    requires owner == caller ==> LastDone(st', caller) == LastDone(st, caller) + 1 == call
    requires owner != caller ==> LastDone(st', caller) == LastDone(st, caller)
    ensures RecordsOk(st', caller)
  {
    RecordsSnoc(st.finished, st'.finished[|st.finished|], caller);
    hide LastDone;
  }

  lemma ClientLastDone(st: State, c: nat, caller: nat)
    requires c < |st.clients| && !st.clients[c].at.Outside?
    ensures var st' := AfterClientStep(st, c);
            LastDone(st', caller) ==
            LastDone(st, caller) + if caller == c + 1 && st'.clients[c].at.Outside? then 1 else 0
    ensures st.clients[c].calls == LastDone(st, c + 1) + 1
  {
    ClientEffect(st, c);
    hide AfterClientStep;
  }

  lemma ClientRecords(st: State, c: nat, caller: nat)
    requires c < |st.clients| && !st.clients[c].at.Outside? && RecordsOk(st, caller)
    ensures RecordsOk(AfterClientStep(st, c), caller)
  {
    var st' := AfterClientStep(st, c);
    ClientEffect(st, c);
    ClientLastDone(st, c, caller);
    hide AfterClientStep, LastDone, RecordsOk;
    if st'.clients[c].at.Outside? {
      RecordsMore(st, st', caller, c + 1, st.clients[c].calls);
    } else {
      RecordsKept(st, st', caller);
    }
  }

  lemma TaskRecords(cfg: Config, st: State, caller: nat)
    requires !st.task.Exited? && RecordsOk(st, caller)
    ensures RecordsOk(AfterTaskStep(cfg, st), caller)
  {
    var st' := AfterTaskStep(cfg, st);
    TaskEffect(cfg, st);
    TaskLastDone(cfg, st, caller);
    hide AfterTaskStep, LastDone, RecordsOk;
    if st'.task.SubSleep? {
      RecordsMore(st, st', caller, 0, st.taskCalls);
    } else {
      RecordsKept(st, st', caller);
    }
  }

  lemma RecordsStep(cfg: Config, st: State, a: Action, caller: nat)
    requires st.Shape() && Enabled(cfg, st, a) && RecordsOk(st, caller)
    ensures RecordsOk(Next(cfg, st, a), caller)
  {
    hide RecordsOk;
    match a
    case ClientCall(c, request, hdl) =>
      CallEffect(st, c, request, hdl);
      hide AfterClientCall;
      RecordsKept(st, Next(cfg, st, a), caller);
    case ClientStep(c) => ClientRecords(st, c, caller);
    case TaskStep => TaskRecords(cfg, st, caller);
    case _ =>
      HandlerEffect(cfg, st, a);
      hide Next, Enabled;
      RecordsKept(st, Next(cfg, st, a), caller);
  }

  lemma TaskLastDone(cfg: Config, st: State, caller: nat)
    requires !st.task.Exited?
    ensures var st' := AfterTaskStep(cfg, st);
            LastDone(st', caller) == LastDone(st, caller) + (if caller == 0 && st'.task.SubSleep? then 1 else 0)
    ensures AfterTaskStep(cfg, st).task.SubSleep? ==> st.taskCalls == LastDone(st, 0) + 1
  {
  }

  lemma {:induction false} RecordsRun(cfg: Config, st: State, run: seq<Action>, caller: nat)
    requires st.Shape() && Exec(cfg, st, run).Some? && RecordsOk(st, caller)
    ensures RecordsOk(Exec(cfg, st, run).value, caller)
    decreases |run|
  {
    hide Next, Enabled, RecordsOk;
    if run != [] {
      RecordsStep(cfg, st, run[0], caller);
      RecordsRun(cfg, Next(cfg, st, run[0]), run[1..], caller);
    }
  }

  /** In every run, of a client thread and of the subscribe task alike. */
  lemma EveryCallIsRecorded(t: Trace, caller: nat)
    requires t.Possible()
    ensures RecordsOk(t.End(), caller)
  {
    RecordsRun(t.cfg, Start(t.head, t.slots, t.clients), t.actions, caller);
  }

  // ---------------------------------------------------------------- what the posts are

  /** The calls client thread `c` has made, with their arguments. */
  ghost function CallsBy(actions: seq<Action>, c: nat): seq<(string, S.Callback)> {
    if actions == [] then []
    else
      var last := actions[|actions| - 1];
      CallsBy(actions[..|actions| - 1], c)
      + if last.ClientCall? && last.c == c then [(last.request, last.hdl)] else []
  }

  /** What the calls made so far, `done`, say about threads and posts. */
  ghost predicate Made(st: State, done: seq<Action>, c: nat) {
    var calls := CallsBy(done, c);
    && (c < |st.clients| ==>
          && st.clients[c].calls == |calls|
          && (!st.clients[c].at.Outside? ==>
                && calls != [] && st.clients[c].at.target == T.PREFIX + calls[|calls| - 1].0
                && st.clients[c].at.hdl == calls[|calls| - 1].1))
    && forall k :: 0 <= k < |st.posts| && st.posts[k].caller == c + 1 ==> IsCall(st.posts[k], calls)
  }

  /** A post is for the call whose number it carries. */
  ghost predicate IsCall(p: Post, calls: seq<(string, S.Callback)>) {
    0 < p.call <= |calls| && p.target == T.PREFIX + calls[p.call - 1].0 && p.hdl == calls[p.call - 1].1
  }

  lemma CallsBySnoc(done: seq<Action>, a: Action, c: nat)
    ensures CallsBy(done + [a], c) ==
            CallsBy(done, c) + if a.ClientCall? && a.c == c then [(a.request, a.hdl)] else []
  {
    assert (done + [a])[..|done|] == done;
  }

  lemma MadeStep(cfg: Config, st: State, done: seq<Action>, a: Action, c: nat)
    requires st.Shape() && Enabled(cfg, st, a) && Made(st, done, c)
    ensures Made(Next(cfg, st, a), done + [a], c)
  {
    CallsBySnoc(done, a, c);
    hide CallsBy;
    match a
    case ClientCall(d, request, hdl) =>
      CallEffect(st, d, request, hdl);
      hide AfterClientCall;
    case ClientStep(d) =>
      ClientEffect(st, d);
      hide AfterClientStep;
    case TaskStep =>
      TaskEffect(cfg, st);
      hide AfterTaskStep;
    case _ =>
      HandlerEffect(cfg, st, a);
      hide Next, Enabled;
  }

  lemma {:induction false} MadeRun(cfg: Config, st: State, done: seq<Action>, run: seq<Action>, c: nat)
    requires st.Shape() && Exec(cfg, st, run).Some? && Made(st, done, c)
    ensures Made(Exec(cfg, st, run).value, done + run, c)
    decreases |run|
  {
    hide Next, Enabled, Made;
    if run == [] {
      assert done + run == done;
    } else {
      MadeStep(cfg, st, done, run[0], c);
      MadeRun(cfg, Next(cfg, st, run[0]), done + [run[0]], run[1..], c);
      assert done + [run[0]] + run[1..] == done + run;
    }
  }

  lemma MadeAtEnd(t: Trace, c: nat)
    requires t.Possible()
    ensures Made(t.End(), t.actions, c)
  {
    var none: seq<Action> := [];
    var start := Start(t.head, t.slots, t.clients);
    assert Made(start, none, c);
    EndIsExec(t);
    hide *;
    MadeRun(t.cfg, start, none, t.actions, c);
    assert none + t.actions == t.actions;
  }

  lemma EndIsExec(t: Trace)
    requires t.Possible()
    ensures Exec(t.cfg, Start(t.head, t.slots, t.clients), t.actions) == Some(t.End())
  {
  }

  lemma PostIsItsCall(t: Trace, k: nat)
    requires t.Possible() && k < |t.End().posts| && t.End().posts[k].caller > 0
    ensures IsCall(t.End().posts[k], CallsBy(t.actions, t.End().posts[k].caller - 1))
  {
    MadeAtEnd(t, t.End().posts[k].caller - 1);
    hide CallsBy, Start, Exec, IsCall;
  }

  /** From end to end: the k-th response goes to the callback that was passed to the call whose post was
      executed k-th, together with the target made from the endpoint passed to that call. */
  lemma ResponsesReachTheirCalls(t: Trace, k: nat)
    requires t.Possible() && k < |t.End().session.delivered|
    ensures var st := t.End();
            && k < |st.posts| && k < |st.answers|
            && (st.posts[k].caller > 0 ==>
                  var calls := CallsBy(t.actions, st.posts[k].caller - 1);
                  && 0 < st.posts[k].call <= |calls|
                  && var (request, hdl) := calls[st.posts[k].call - 1];
                  st.session.delivered[k] == S.Delivery(hdl, st.answers[k], T.PREFIX + request))
  {
    ResponsesMatchRequests(t);
    if t.End().posts[k].caller > 0 {
      PostIsItsCall(t, k);
    }
    hide CallsBy, Exec, Start;
  }

  // ---------------------------------------------------------------- the subscribe task

  /** The task leaves its loop only on a flag, and has posted only when ready. */
  ghost predicate TaskSound(st: State) {
    && (st.task.Exited? ==> st.stop || st.session.error)
    && (st.task.SubPost? ==> st.session.ready)
  }

  /** Its position in the loop, counted from the beginning of its last call. */
  ghost function Position(task: Task): nat {
    match task
    case SubReady(_) => 0
    case SubPost(_) => 1
    case SubSleep(_) => 2
    case TestStop => 3
    case TestError => 4
    case Exited => 5
  }

  lemma TaskMoves(cfg: Config, st: State, a: Action)
    requires st.Shape() && Enabled(cfg, st, a) && TaskSound(st)
    ensures var st' := Next(cfg, st, a);
            && TaskSound(st') && st.taskCalls <= st'.taskCalls
            && (!a.TaskStep? ==> st'.task == st.task && st'.taskCalls == st.taskCalls)
            && (a.TaskStep? && |cfg.subs| > 0 ==>
                  Position(st.task) + 1 <= 5 * (st'.taskCalls - st.taskCalls) + Position(st'.task))
  {
    FlagsStep(cfg, st, a);
    if !a.TaskStep? {
      FlaggedOtherStep(cfg, st, a);
      hide Next, Enabled;
    }
  }

  lemma {:induction false} TaskRun(cfg: Config, st: State, run: seq<Action>)
    requires st.Shape() && Exec(cfg, st, run).Some? && TaskSound(st)
    ensures var end := Exec(cfg, st, run).value;
            && TaskSound(end) && st.taskCalls <= end.taskCalls
            && (|cfg.subs| > 0 ==>
                  Position(st.task) + TaskSteps(run) <= 5 * (end.taskCalls - st.taskCalls) + Position(end.task))
    decreases |run|
  {
    hide Next, Enabled, TaskSound;
    if run != [] {
      TaskMoves(cfg, st, run[0]);
      TaskRun(cfg, Next(cfg, st, run[0]), run[1..]);
    }
  }

  /** The task exits only on a flag; and while it has something to subscribe to, its steps force calls: at
      most five from one to the next. */
  lemma TaskKeepsCalling(t: Trace)
    requires t.Possible()
    ensures t.End().task.Exited? ==> t.End().stop || t.End().session.error
    ensures |t.cfg.subs| > 0 ==> TaskSteps(t.actions) <= 5 * t.End().taskCalls + 2
    ensures |t.cfg.subs| > 0 && !t.End().task.Exited? ==> TaskSteps(t.actions) <= 5 * t.End().taskCalls + 1
  {
    TaskRun(t.cfg, Start(t.head, t.slots, t.clients), t.actions);
  }

  /** And without a flag it is never held up: some of its own steps, at most five, begin the next call. */
  lemma {:induction false} NextCallComes(cfg: Config, st: State) returns (run: seq<Action>)
    requires st.Shape() && TaskOk(cfg, st) && |cfg.subs| > 0
    requires !st.task.Exited? && !st.stop && !st.session.error
    ensures Exec(cfg, st, run).Some? && Exec(cfg, st, run).value.taskCalls == st.taskCalls + 1
    ensures |run| <= 5 - Position(st.task) && forall k :: 0 <= k < |run| ==> run[k] == TaskStep
    decreases 5 - Position(st.task)
  {
    var st' := AfterTaskStep(cfg, st);
    var rest: seq<Action> := [];
    if st'.taskCalls == st.taskCalls {
      rest := NextCallComes(cfg, st');
    }
    run := [TaskStep] + rest;
    assert run[1..] == rest;
    assert Exec(cfg, st, run) == Exec(cfg, st', rest);
  }

  /** Each of its calls is answered by readiness: sent if the session was ready before, not if it is not
      ready after. */
  ghost predicate TaskAnswered(st0: State, st: State) {
    var before, now := Records(st0.finished, 0), Records(st.finished, 0);
    && before <= now
    && forall k :: |before| <= k < |now| ==>
         && (now[k].status.RequestSent? || now[k].status.SessionNotReady?)
         && (st0.session.ready ==> now[k].status.RequestSent?)
         && (!st.session.ready ==> now[k].status.SessionNotReady?)
  }

  lemma TaskStatus(cfg: Config, st: State)
    requires !st.task.Exited? && TaskSound(st) && AfterTaskStep(cfg, st).task.SubSleep?
    ensures |AfterTaskStep(cfg, st).finished| > |st.finished|
    ensures AfterTaskStep(cfg, st).finished[|st.finished|].status
            == if st.session.ready then S.RequestSent else S.SessionNotReady
  {
  }

  lemma TaskAnswersStep(cfg: Config, st0: State, st: State, a: Action)
    requires st.Shape() && Enabled(cfg, st, a) && TaskSound(st) && TaskAnswered(st0, st)
    requires st0.session.ready ==> st.session.ready
    ensures TaskAnswered(st0, Next(cfg, st, a))
  {
    var st' := Next(cfg, st, a);
    FlagsStep(cfg, st, a);
    match a
    case ClientCall(d, request, hdl) =>
      CallEffect(st, d, request, hdl);
      hide AfterClientCall, Records;
    case ClientStep(d) =>
      ClientEffect(st, d);
      if st'.clients[d].at.Outside? {
        RecordsSnoc(st.finished, st'.finished[|st.finished|], 0);
      }
      hide AfterClientStep, Records;
    case TaskStep =>
      TaskEffect(cfg, st);
      if st'.task.SubSleep? {
        TaskStatus(cfg, st);
        RecordsSnoc(st.finished, st'.finished[|st.finished|], 0);
      }
      hide AfterTaskStep, Records;
    case _ =>
      HandlerEffect(cfg, st, a);
      hide Next, Enabled, Records;
  }

  lemma {:induction false} TaskAnswersRun(cfg: Config, st0: State, st: State, run: seq<Action>)
    requires st.Shape() && Exec(cfg, st, run).Some? && TaskSound(st) && TaskAnswered(st0, st)
    requires st0.session.ready ==> st.session.ready
    ensures TaskAnswered(st0, Exec(cfg, st, run).value)
    decreases |run|
  {
    hide Next, Enabled, TaskSound, TaskAnswered;
    if run != [] {
      TaskAnswersStep(cfg, st0, st, run[0]);
      TaskMoves(cfg, st, run[0]);
      FlagsStep(cfg, st, run[0]);
      TaskAnswersRun(cfg, st0, Next(cfg, st, run[0]), run[1..]);
    }
  }

  /** In any continuation of any run. */
  lemma TaskCallsAreAnswered(t: Trace, more: seq<Action>)
    requires t.Possible() && Exec(t.cfg, t.End(), more).Some?
    ensures TaskAnswered(t.End(), Exec(t.cfg, t.End(), more).value)
  {
    TaskRun(t.cfg, Start(t.head, t.slots, t.clients), t.actions);
    TaskAnswersRun(t.cfg, t.End(), t.End(), more);
  }
}
