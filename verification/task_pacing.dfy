/** The subscribe task of the composed client on a clock: its calls, in every interleaving, are those of
    the loop `SubscribeTask`. */
module TaskPacing {
  import opened Words
  import opened Pipeline
  import opened PipelineTheorems
  import C = RestClients
  import P = Pacing
  import S = SessionState

  /** The earliest end of the sleep that step `a`, taken at `now`, begins; otherwise `wake` stands. */
  ghost function WakeAfter(st: State, a: Action, now: nat, wake: nat): nat {
    if !a.TaskStep? then wake
    else if st.task.SubReady? && !st.session.ready then now + C.Rest(S.SessionNotReady)
    else if st.task.SubPost? then now + C.Rest(S.RequestSent)
    else wake
  }

  /** A run on a clock: time does not go back, and no sleep ends before its time. */
  ghost predicate Timely(cfg: Config, st: State, run: seq<Action>, times: seq<nat>, last: nat, wake: nat)
    requires st.Shape() && Exec(cfg, st, run).Some? && |times| == |run|
    decreases |run|
  {
    run != [] ==>
      && last <= times[0]
      && (run[0].TaskStep? && st.task.SubSleep? ==> wake <= times[0])
      && Timely(cfg, Next(cfg, st, run[0]), run[1..], times[1..], times[0], WakeAfter(st, run[0], times[0], wake))
  }

  /** The calls of the task, each made when it tests whether the session is ready. */
  ghost function CallsOf(cfg: Config, st: State, run: seq<Action>, times: seq<nat>): seq<C.TaskCall>
    requires st.Shape() && Exec(cfg, st, run).Some? && |times| == |run|
    decreases |run|
  {
    if run == [] then []
    else CallOf(cfg, st, run[0], times[0]) + CallsOf(cfg, Next(cfg, st, run[0]), run[1..], times[1..])
  }

  ghost function CallOf(cfg: Config, st: State, a: Action, now: nat): seq<C.TaskCall> {
    if a.TaskStep? && st.task.SubReady? && st.task.i < |cfg.subs| then
      [C.TaskCall(now, cfg.subs[st.task.i], if st.session.ready then S.RequestSent else S.SessionNotReady)]
    else []
  }

  /** How many calls were made so far. */
  ghost function Made(st: State): int {
    st.taskCalls - if st.task.SubReady? then 1 else 0
  }

  /** Each call is for the subscription whose turn it was, answered by whether the session was ready. */
  ghost predicate TurnsOk(cfg: Config, calls: seq<C.TaskCall>) {
    && (forall k :: 0 <= k < |calls| ==> |cfg.subs| > 0 && calls[k].sub == cfg.subs[k % |cfg.subs|])
    && (forall k :: 0 <= k < |calls| ==> calls[k].status.RequestSent? || calls[k].status.SessionNotReady?)
    && C.RestBetween(calls)
  }

  /** Where the task stands after its last call: resting until `wake`, or the rest is over. */
  ghost predicate RestOk(st: State, calls: seq<C.TaskCall>, last: nat, wake: nat) {
    && (st.task.SubPost? ==> calls != [] && calls[|calls| - 1].status.RequestSent?)
    && (calls != [] ==>
          var call := calls[|calls| - 1];
          && call.at <= last
          && (st.task.SubSleep? ==> call.at + C.Rest(call.status) <= wake)
          && (!st.task.SubPost? && !st.task.SubSleep? && !st.task.Exited? ==> call.at + C.Rest(call.status) <= last))
  }

  /** `calls` are the calls so far, at time `last`. */
  ghost predicate Paced(cfg: Config, st: State, calls: seq<C.TaskCall>, last: nat, wake: nat) {
    RoundRobin(cfg, st) && |calls| == Made(st) && TurnsOk(cfg, calls) && RestOk(st, calls, last, wake)
  }

  lemma TurnsSnoc(cfg: Config, calls: seq<C.TaskCall>, call: C.TaskCall)
    requires TurnsOk(cfg, calls) && |cfg.subs| > 0 && call.sub == cfg.subs[|calls| % |cfg.subs|]
    requires call.status.RequestSent? || call.status.SessionNotReady?
    requires C.Rested(calls, call.at)
    ensures TurnsOk(cfg, calls + [call])
  {
  }

  lemma PacedTask(cfg: Config, st: State, calls: seq<C.TaskCall>, last: nat, wake: nat, now: nat)
    requires !st.task.Exited? && Paced(cfg, st, calls, last, wake) && last <= now
    requires st.task.SubSleep? ==> wake <= now
    ensures var calls' := calls + CallOf(cfg, st, TaskStep, now);
            var st' := AfterTaskStep(cfg, st);
            && |calls'| == Made(st') && TurnsOk(cfg, calls')
            && RestOk(st', calls', now, WakeAfter(st, TaskStep, now, wake))
  {
    hide TurnsOk;
    if st.task.SubReady? {
      TurnsSnoc(cfg, calls, CallOf(cfg, st, TaskStep, now)[0]);
    } else {
      assert calls + [] == calls;
    }
  }

  lemma PacedStep(cfg: Config, st: State, a: Action, calls: seq<C.TaskCall>, last: nat, wake: nat, now: nat)
    requires st.Shape() && Enabled(cfg, st, a) && Paced(cfg, st, calls, last, wake) && last <= now
    requires a.TaskStep? && st.task.SubSleep? ==> wake <= now
    ensures Paced(cfg, Next(cfg, st, a), calls + CallOf(cfg, st, a, now), now, WakeAfter(st, a, now, wake))
  {
    RoundRobinStep(cfg, st, a);
    if a.TaskStep? {
      PacedTask(cfg, st, calls, last, wake, now);
      hide RoundRobin, TurnsOk, RestOk, Made, AfterTaskStep;
    } else {
      RoundRobinOther(cfg, st, a);
      assert calls + [] == calls;
      hide Next, Enabled, RoundRobin, TurnsOk;
    }
  }

  lemma {:induction false} PacedRun(cfg: Config, st: State, run: seq<Action>, times: seq<nat>,
                                    calls: seq<C.TaskCall>, last: nat, wake: nat)
    requires st.Shape() && Exec(cfg, st, run).Some? && |times| == |run| && Timely(cfg, st, run, times, last, wake)
    requires Paced(cfg, st, calls, last, wake)
    ensures TurnsOk(cfg, calls + CallsOf(cfg, st, run, times))
    ensures |calls + CallsOf(cfg, st, run, times)| == Made(Exec(cfg, st, run).value)
    decreases |run|
  {
    hide Next, Enabled, RoundRobin, RestOk, TurnsOk;
    if run == [] {
      assert calls + [] == calls;
    } else {
      var st', now := Next(cfg, st, run[0]), times[0];
      var one := CallOf(cfg, st, run[0], now);
      PacedStep(cfg, st, run[0], calls, last, wake, now);
      var wake' := WakeAfter(st, run[0], now, wake);
      hide Paced, CallOf, WakeAfter, Made;
      PacedRun(cfg, st', run[1..], times[1..], calls + one, now, wake');
      assert calls + (one + CallsOf(cfg, st', run[1..], times[1..])) ==
             (calls + one) + CallsOf(cfg, st', run[1..], times[1..]);
    }
  }

  /** Which calls found the session ready. */
  ghost function ReadyAt(calls: seq<C.TaskCall>): nat -> bool {
    (k: nat) => k < |calls| && calls[k].status.RequestSent?
  }

  lemma TurnsAreTaskCalls(cfg: Config, calls: seq<C.TaskCall>)
    requires TurnsOk(cfg, calls)
    ensures C.TaskCalls(cfg.subs, ReadyAt(calls), calls)
  {
  }

  /** However client threads, handlers and peer interleave with it, the calls the task makes on the
      clock are calls of the loop `SubscribeTask`: in turn, answered by readiness, spaced by the
      timeout, as many as the run counts; and so no minute holds more than the limit. */
  lemma CallsAreTheLoops(t: Trace, times: seq<nat>, from: nat)
    requires t.Possible() && |times| == |t.actions|
    requires Timely(t.cfg, Start(t.head, t.slots, t.clients), t.actions, times, 0, 0)
    ensures var calls := CallsOf(t.cfg, Start(t.head, t.slots, t.clients), t.actions, times);
            && C.TaskCalls(t.cfg.subs, ReadyAt(calls), calls)
            && |calls| == Made(t.End())
            && P.InMinute(C.Times(calls), from) <= P.LIMIT
  {
    var start := Start(t.head, t.slots, t.clients);
    var calls := CallsOf(t.cfg, start, t.actions, times);
    assert Paced(t.cfg, start, [], 0, 0);
    PacedRun(t.cfg, start, t.actions, times, [], 0, 0);
    assert [] + calls == calls;
    hide *;
    TurnsAreTaskCalls(t.cfg, calls);
    C.TaskKeepsLimit(t.cfg.subs, ReadyAt(calls), calls, from);
  }
}
