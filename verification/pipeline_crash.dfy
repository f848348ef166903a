/** The exception of a full ring: that it happens, whatever the size, and how a caller keeps clear of it. */
module PipelineCrash {
  import opened Words
  import opened Pipeline
  import opened PipelineInv
  import opened PipelineTheorems
  import R = Ring
  import S = SessionState
  import T = Targets

  // ---------------------------------------------------------------- keeping clear of it

  /** While no more posts than the ring has slots are without their callback, executing one does not
      crash the client. */
  lemma FewPostsDoNotCrash(t: Trace)
    requires t.Possible() && Enabled(t.cfg, t.End(), ExecPost)
    requires |t.End().posts| - |t.End().session.delivered| <= |t.slots|
    ensures !Next(t.cfg, t.End(), ExecPost).session.io.Crashed?
  {
    EndInv(t);
    CrashesExactlyWhenFull(t);
    hide Next;
  }

  /** In every state of the run no more than `limit` posts are without their callback. */
  ghost predicate Throttled(cfg: Config, st: State, run: seq<Action>, limit: nat)
    requires st.Shape() && Exec(cfg, st, run).Some?
    decreases |run|
  {
    && |st.posts| <= |st.session.delivered| + limit
    && (run != [] ==> Throttled(cfg, Next(cfg, st, run[0]), run[1..], limit))
  }

  lemma OtherStepsDoNotCrash(cfg: Config, st: State, a: Action)
    requires st.Shape() && Enabled(cfg, st, a) && !a.ExecPost?
    ensures Next(cfg, st, a).session.io.Crashed? ==> st.session.io.Crashed?
  {
    match a
    case ClientStep(c) => assert AfterClientStep(st, c).session == st.session;
    case TaskStep => assert AfterTaskStep(cfg, st).session == st.session;
    case _ =>
  }

  lemma ThrottledStep(cfg: Config, st: State, a: Action)
    requires st.Shape() && Inv(cfg, st) && !st.session.io.Crashed? && Enabled(cfg, st, a)
    requires |st.posts| <= |st.session.delivered| + |st.session.ring.slots|
    ensures !Next(cfg, st, a).session.io.Crashed?
  {
    if a.ExecPost? {
      ExecOutcome(st);
      hide AfterExec;
    } else {
      OtherStepsDoNotCrash(cfg, st, a);
      hide Next, Enabled;
    }
  }

  lemma AddedGrows(cfg: Config, st: State, run: seq<Action>)
    requires st.Shape() && Exec(cfg, st, run).Some?
    ensures |st.added| <= |Exec(cfg, st, run).value.added|
  {
    Grows(cfg, st, run);
  }

  lemma ExecNothing(cfg: Config, st: State)
    requires st.Shape()
    ensures Exec(cfg, st, []) == Some(st)
  {
  }

  lemma ThrottledHead(cfg: Config, st: State, run: seq<Action>, limit: nat)
    requires st.Shape() && run != [] && Exec(cfg, st, run).Some? && Throttled(cfg, st, run, limit)
    ensures Enabled(cfg, st, run[0]) && Exec(cfg, st, run) == Exec(cfg, Next(cfg, st, run[0]), run[1..])
    ensures |st.posts| <= |st.session.delivered| + limit
    ensures Throttled(cfg, Next(cfg, st, run[0]), run[1..], limit)
  {
    hide Next, Enabled;
  }

  lemma {:induction false} ThrottledRun(cfg: Config, st: State, run: seq<Action>)
    requires st.Shape() && Inv(cfg, st) && !st.session.io.Crashed? && Exec(cfg, st, run).Some?
    requires |Exec(cfg, st, run).value.added| < TWO_64
    requires Throttled(cfg, st, run, |st.session.ring.slots|)
    ensures !Exec(cfg, st, run).value.session.io.Crashed?
    decreases |run|
  {
    hide *;
    if run == [] {
      ExecNothing(cfg, st);
    } else {
      ThrottledHead(cfg, st, run, |st.session.ring.slots|);
      var st' := Next(cfg, st, run[0]);
      AddedGrows(cfg, st, run);
      StepInv(cfg, st, run[0]);
      ThrottledStep(cfg, st, run[0]);
      ThrottledRun(cfg, st', run[1..]);
    }
  }

  /** So callers that keep the number of posts without a callback within the size of the ring never see
      the exception. */
  lemma ThrottledNeverCrashes(t: Trace)
    requires t.Possible()
    requires Throttled(t.cfg, Start(t.head, t.slots, t.clients), t.actions, |t.slots|)
    ensures !t.End().session.io.Crashed?
  {
    StartInv(t.cfg, t.head, t.slots, t.clients);
    ThrottledRun(t.cfg, Start(t.head, t.slots, t.clients), t.actions);
  }

  // ---------------------------------------------------------------- reaching it

  lemma {:induction false} ExecAppend(cfg: Config, st: State, one: seq<Action>, two: seq<Action>)
    requires st.Shape() && Exec(cfg, st, one).Some?
    ensures Exec(cfg, st, one + two) == Exec(cfg, Exec(cfg, st, one).value, two)
    decreases |one|
  {
    hide Next, Enabled;
    if one == [] {
      assert one + two == two;
    } else {
      assert (one + two)[1..] == one[1..] + two;
      ExecAppend(cfg, Next(cfg, st, one[0]), one[1..], two);
    }
  }

  /** One step more, after a run from `start` that has led to `st`. */
  lemma Step(cfg: Config, start: State, run: seq<Action>, st: State, a: Action)
    requires start.Shape() && Exec(cfg, start, run) == Some(st) && Enabled(cfg, st, a)
    ensures Exec(cfg, start, run + [a]) == Some(Next(cfg, st, a))
  {
    ExecAppend(cfg, start, run, [a]);
    hide Next, Enabled;
    assert [a][1..] == [];
    assert Exec(cfg, st, [a]) == Exec(cfg, Next(cfg, st, a), []);
  }

  /** An open session with nothing queued, and client thread 0 between two calls. */
  ghost predicate Idle(cfg: Config, st: State) {
    && st.Shape() && Inv(cfg, st)
    && st.session.io.Running? && st.session.ready && !st.session.error && !st.stop
    && st.queue == [] && |st.clients| > 0 && st.clients[0].at.Outside?
  }

  lemma IsIdle(cfg: Config, st: State)
    requires Idle(cfg, st)
    ensures st.Shape() && Inv(cfg, st)
    ensures Fits(st) <==> |st.added| < |st.session.delivered| + |st.session.ring.slots|
  {
  }

  lemma Opening(cfg: Config, start: State) returns (st1: State, st2: State, st3: State, end: State)
    requires start.Shape() && start.session.opening.NotRun? && start.session.io.Running?
    ensures Enabled(cfg, start, Run(true)) && st1 == Next(cfg, start, Run(true))
    ensures Enabled(cfg, st1, Resolve(false)) && st2 == Next(cfg, st1, Resolve(false))
    ensures Enabled(cfg, st2, Connect(false)) && st3 == Next(cfg, st2, Connect(false))
    ensures Enabled(cfg, st3, Handshake(false)) && end == Next(cfg, st3, Handshake(false))
    ensures end.session.io.Running? && end.session.ready && end.session.error == start.session.error
    ensures end.stop == start.stop && end.queue == start.queue && end.clients == start.clients
    ensures end.posts == start.posts && end.added == start.added
    ensures end.session.ring == start.session.ring && end.session.delivered == start.session.delivered
  {
    st1 := Next(cfg, start, Run(true));
    st2 := Next(cfg, st1, Resolve(false));
    st3 := Next(cfg, st2, Connect(false));
    end := Next(cfg, st3, Handshake(false));
  }

  lemma OpenAlone(cfg: Config, head: string, slots: seq<S.Entry>, clients: nat) returns (run: seq<Action>, end: State)
    requires IsCapacity(|slots|) && clients > 0
    ensures Exec(cfg, Start(head, slots, clients), run) == Some(end) && Idle(cfg, end)
    ensures |end.session.ring.slots| == |slots| && end.added == [] && end.session.delivered == [] && end.posts == []
  {
    var start := Start(head, slots, clients);
    StartInv(cfg, head, slots, clients);
    var st1, st2, st3;
    st1, st2, st3, end := Opening(cfg, start);
    run := [];
    assert Exec(cfg, start, run) == Some(start);
    hide Exec, Inv, Next, Enabled;
    Step(cfg, start, run, start, Run(true));
    run := run + [Run(true)];
    Step(cfg, start, run, st1, Resolve(false));
    run := run + [Resolve(false)];
    Step(cfg, start, run, st2, Connect(false));
    run := run + [Connect(false)];
    Step(cfg, start, run, st3, Handshake(false));
    run := run + [Handshake(false)];
    RunInv(cfg, start, run);
  }

  lemma Posting(cfg: Config, st: State, request: string, hdl: S.Callback)
    returns (st1: State, st2: State, st3: State, st4: State, end: State)
    requires st.Shape() && st.session.ready && !st.session.error && !st.stop
    requires |st.clients| > 0 && st.clients[0].at.Outside?
    ensures Enabled(cfg, st, ClientCall(0, request, hdl)) && st1 == Next(cfg, st, ClientCall(0, request, hdl))
    ensures Enabled(cfg, st1, ClientStep(0)) && st2 == Next(cfg, st1, ClientStep(0))
    ensures Enabled(cfg, st2, ClientStep(0)) && st3 == Next(cfg, st2, ClientStep(0))
    ensures Enabled(cfg, st3, ClientStep(0)) && st4 == Next(cfg, st3, ClientStep(0))
    ensures Enabled(cfg, st4, ClientStep(0)) && end == Next(cfg, st4, ClientStep(0))
    ensures end.session == st.session && end.stop == st.stop && end.added == st.added && end.read == st.read
    ensures |end.queue| == |st.queue| + 1 && |end.posts| == |st.posts| + 1
    ensures |end.clients| == |st.clients| && end.clients[0].at.Outside?
  {
    st1 := AfterClientCall(st, 0, request, hdl);
    st2 := AfterClientStep(st1, 0);
    st3 := AfterClientStep(st2, 0);
    st4 := AfterClientStep(st3, 0);
    end := AfterClientStep(st4, 0);
  }

  /** A call of client thread 0, up to its return. */
  lemma PostAlone(cfg: Config, st: State, request: string, hdl: S.Callback) returns (run: seq<Action>, end: State)
    requires Idle(cfg, st) && |st.added| < TWO_64
    ensures Exec(cfg, st, run) == Some(end) && end.Shape() && Inv(cfg, end)
    ensures end.session == st.session && end.stop == st.stop && end.added == st.added && end.read == st.read
    ensures |end.queue| == 1 && |end.posts| == |st.posts| + 1
    ensures |end.clients| == |st.clients| && end.clients[0].at.Outside?
  {
    var st1, st2, st3, st4;
    st1, st2, st3, st4, end := Posting(cfg, st, request, hdl);
    run := [];
    assert Exec(cfg, st, run) == Some(st);
    hide Exec, Inv, Next, Enabled;
    Step(cfg, st, run, st, ClientCall(0, request, hdl));
    run := run + [ClientCall(0, request, hdl)];
    Step(cfg, st, run, st1, ClientStep(0));
    run := run + [ClientStep(0)];
    Step(cfg, st, run, st2, ClientStep(0));
    run := run + [ClientStep(0)];
    Step(cfg, st, run, st3, ClientStep(0));
    run := run + [ClientStep(0)];
    Step(cfg, st, run, st4, ClientStep(0));
    run := run + [ClientStep(0)];
    RunInv(cfg, st, run);
  }

  /** Its execution: stored while there is room, and otherwise the exception. */
  lemma ExecAlone(cfg: Config, st: State)
    requires st.Shape() && Inv(cfg, st) && CanExec(st) && |st.queue| == 1 && |st.added| + 1 < TWO_64
    ensures var st' := Next(cfg, st, ExecPost);
            && st'.Shape() && Inv(cfg, st') && st'.posts == st.posts && st'.session.delivered == st.session.delivered
            && st'.clients == st.clients
            && if Fits(st) then
                 && |st'.added| == |st.added| + 1 && st'.queue == [] && st'.stop == st.stop
                 && st'.session.io == st.session.io && st'.session.ready == st.session.ready
                 && st'.session.error == st.session.error
               else st'.session.io.Crashed? && st'.added == st.added
  {
    ExecEffect(st);
    StepInv(cfg, st, ExecPost);
    hide AfterExec, R.Add, R.Models;
  }

  lemma CallAlone(cfg: Config, st: State, request: string, hdl: S.Callback) returns (run: seq<Action>, end: State)
    requires Idle(cfg, st) && |st.added| + 1 < TWO_64
    ensures Exec(cfg, st, run) == Some(end) && end.Shape()
    ensures end.session.delivered == st.session.delivered && |end.posts| == |st.posts| + 1
    ensures |end.session.ring.slots| == |st.session.ring.slots|
    ensures if Fits(st) then Idle(cfg, end) && |end.added| == |st.added| + 1
            else end.session.io.Crashed? && end.added == st.added
  {
    var mid;
    run, mid := PostAlone(cfg, st, request, hdl);
    ExecAlone(cfg, mid);
    hide Exec, Inv, Next;
    Step(cfg, st, run, mid, ExecPost);
    run := run + [ExecPost];
    end := Next(cfg, mid, ExecPost);
  }

  /** `n` calls in a row, unanswered. */
  lemma {:induction false} CallsAlone(cfg: Config, st: State, request: string, hdl: S.Callback, n: nat)
    returns (run: seq<Action>, end: State)
    requires Idle(cfg, st) && |st.added| + n < TWO_64
    requires |st.added| + n <= |st.session.delivered| + |st.session.ring.slots|
    ensures Exec(cfg, st, run) == Some(end) && Idle(cfg, end) && |end.added| == |st.added| + n
    ensures end.session.delivered == st.session.delivered && |end.posts| == |st.posts| + n
    ensures |end.session.ring.slots| == |st.session.ring.slots|
    decreases n
  {
    if n == 0 {
      run, end := [], st;
    } else {
      IsIdle(cfg, st);
      var first, mid := CallAlone(cfg, st, request, hdl);
      hide Inv, Exec;
      var second;
      second, end := CallsAlone(cfg, mid, request, hdl, n - 1);
      ExecAppend(cfg, st, first, second);
      run := first + second;
    }
  }

  lemma FullAlone(cfg: Config, head: string, slots: seq<S.Entry>, clients: nat, request: string, hdl: S.Callback)
    returns (run: seq<Action>, end: State)
    requires IsCapacity(|slots|) && clients > 0
    ensures Exec(cfg, Start(head, slots, clients), run) == Some(end) && Idle(cfg, end) && !Fits(end)
    ensures |end.posts| == |end.added| == |end.session.ring.slots| == |slots| && end.session.delivered == []
  {
    R.CapacityBelowWrap(|slots|);
    var start := Start(head, slots, clients);
    assert start.Shape();
    hide *;
    var open, mid := OpenAlone(cfg, head, slots, clients);
    IsIdle(cfg, mid);
    var fill;
    fill, end := CallsAlone(cfg, mid, request, hdl, |slots|);
    IsIdle(cfg, end);
    ExecAppend(cfg, start, open, fill);
    run := open + fill;
  }

  /** For every configuration, size and request: one unanswered call more than the ring has slots ends
      the client with the exception. */
  lemma FullRingCrashes(cfg: Config, head: string, slots: seq<S.Entry>, clients: nat, request: string, hdl: S.Callback)
    requires IsCapacity(|slots|) && clients > 0
    ensures exists actions ::
              var t := Trace(cfg, head, slots, clients, actions);
              && t.Possible() && t.End().session.io.Crashed?
              && |t.End().posts| == |slots| + 1 && t.End().session.delivered == []
  {
    R.CapacityBelowWrap(|slots|);
    var start := Start(head, slots, clients);
    assert start.Shape();
    var fill, st := FullAlone(cfg, head, slots, clients, request, hdl);
    hide Exec, Inv, Start, Fits, Idle;
    var last, end := CallAlone(cfg, st, request, hdl);
    ExecAppend(cfg, start, fill, last);
    var t := Trace(cfg, head, slots, clients, fill + last);
    assert t.Possible() && t.End() == end;
  }
}
