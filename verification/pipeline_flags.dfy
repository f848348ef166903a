/** What the flags of the client say about the steps that were taken, exactly. */
module PipelineFlags {
  import opened Words
  import opened Pipeline
  import opened PipelineInv
  import opened PipelineTheorems
  import S = SessionState

  ghost predicate Has(run: seq<Action>, p: Action -> bool) {
    exists k :: 0 <= k < |run| && p(run[k])
  }

  lemma HasCons(run: seq<Action>, p: Action -> bool)
    requires run != []
    ensures Has(run, p) <==> p(run[0]) || Has(run[1..], p)
  {
    if Has(run, p) {
      var k :| 0 <= k < |run| && p(run[k]);
      assert k > 0 ==> run[1..][k - 1] == run[k];
    }
    if Has(run[1..], p) {
      var k :| 0 <= k < |run[1..]| && p(run[1..][k]);
      assert run[k + 1] == run[1..][k];
    }
  }

  ghost predicate ReadFails(a: Action) {
    a.ReadDone? && a.failed
  }

  ghost predicate OpeningFails(a: Action) {
    (a.Run? && !a.named) || ((a.Resolve? || a.Connect? || a.Handshake?) && a.failed)
  }

  /** A handler called with an error. */
  ghost predicate Fails(a: Action) {
    (OpeningFails(a) && !a.Run?) || (a.Wrote? && a.failed) || ReadFails(a)
  }

  ghost predicate Opens(a: Action) {
    a.Handshake? && !a.failed
  }

  ghost predicate IsSignal(a: Action) {
    a.Signal?
  }

  ghost predicate IsRun(a: Action) {
    a.Run?
  }

  lemma CallersLeaveSession(cfg: Config, st: State, a: Action)
    requires st.Shape() && Enabled(cfg, st, a) && (a.ClientStep? || a.TaskStep? || a.ClientCall?)
    ensures Next(cfg, st, a).session == st.session && Next(cfg, st, a).stop == st.stop
  {
    match a
    case ClientStep(c) =>
    case TaskStep =>
    case ClientCall(_, _, _) =>
  }

  /** What a step does to the flags. */
  ghost predicate FlagsGo(st: State, st': State, a: Action) {
    && (st'.session.error <==> st.session.error || Fails(a))
    && (st'.stop <==> st.stop || a.Signal?)
    && (st'.session.ready <==> st.session.ready || Opens(a))
    && (st'.session.opening.Failed? <==> st.session.opening.Failed? || OpeningFails(a))
    && (st'.session.opening.NotRun? <==> st.session.opening.NotRun? && !a.Run?)
    && (st'.session.io.Running? ==> st.session.io.Running? && !a.Signal?)
  }

  ghost predicate IsOpeningStep(a: Action) {
    a.Run? || a.Resolve? || a.Connect? || a.Handshake?
  }

  lemma OpeningFlags(cfg: Config, st: State, a: Action)
    requires st.Shape() && Enabled(cfg, st, a) && IsOpeningStep(a)
    ensures FlagsGo(st, Next(cfg, st, a), a)
  {
  }

  lemma OtherFlags(cfg: Config, st: State, a: Action)
    requires st.Shape() && Enabled(cfg, st, a) && !IsOpeningStep(a)
    requires !(a.ClientStep? || a.TaskStep? || a.ClientCall?)
    ensures FlagsGo(st, Next(cfg, st, a), a)
  {
  }

  lemma FlagsMove(cfg: Config, st: State, a: Action)
    requires st.Shape() && Enabled(cfg, st, a)
    ensures FlagsGo(st, Next(cfg, st, a), a)
  {
    if IsOpeningStep(a) {
      OpeningFlags(cfg, st, a);
      hide *;
    } else if a.ClientStep? || a.TaskStep? || a.ClientCall? {
      CallersLeaveSession(cfg, st, a);
      hide Next, Enabled;
    } else {
      OtherFlags(cfg, st, a);
      hide *;
    }
  }

  lemma {:induction false} FlagsRun(cfg: Config, st: State, run: seq<Action>)
    requires st.Shape() && Exec(cfg, st, run).Some?
    ensures var end := Exec(cfg, st, run).value;
            && (end.session.error <==> st.session.error || Has(run, Fails))
            && (end.stop <==> st.stop || Has(run, IsSignal))
            && (end.session.ready <==> st.session.ready || Has(run, Opens))
            && (end.session.opening.Failed? <==> st.session.opening.Failed? || Has(run, OpeningFails))
            && (end.session.opening.NotRun? <==> st.session.opening.NotRun? && !Has(run, IsRun))
            && (end.session.io.Running? ==> st.session.io.Running? && !Has(run, IsSignal))
    decreases |run|
  {
    if run != [] {
      hide Next, Enabled;
      FlagsMove(cfg, st, run[0]);
      FlagsRun(cfg, Next(cfg, st, run[0]), run[1..]);
      HasCons(run, Fails);
      HasCons(run, IsSignal);
      HasCons(run, Opens);
      HasCons(run, OpeningFails);
      HasCons(run, IsRun);
      hide Has, Fails, Opens, OpeningFails;
    }
  }

  /** The error is set exactly when some handler was called with one, the stop flag exactly by the
      signal, readiness exactly by a handshake; opening failed exactly when it could not be started or a
      step of it failed; and the context runs exactly until the signal, an error or an exception. */
  lemma FlagsExactly(t: Trace)
    requires t.Possible()
    ensures var st := t.End();
            && (st.session.error <==> Has(t.actions, Fails))
            && (st.stop <==> Has(t.actions, IsSignal))
            && (st.session.ready <==> Has(t.actions, Opens))
            && (st.session.opening.Failed? <==> Has(t.actions, OpeningFails))
            && (st.session.opening.NotRun? <==> !Has(t.actions, IsRun))
            && (st.session.io.Running? <==> !st.stop && !st.session.error && !st.session.io.Crashed?)
  {
    EndInv(t);
    FlagsRun(t.cfg, Start(t.head, t.slots, t.clients), t.actions);
    hide Has, Exec;
  }

  /** The signal can come whenever the context runs; from then on no callback is called and nothing sent. */
  lemma SignalIsFinal(t: Trace, more: seq<Action>)
    requires t.Possible() && t.End().session.io.Running?
    ensures Enabled(t.cfg, t.End(), Signal) && Next(t.cfg, t.End(), Signal).stop
    ensures var stopped := Next(t.cfg, t.End(), Signal);
            Exec(t.cfg, stopped, more).Some? ==>
              var st := Exec(t.cfg, stopped, more).value;
              && st.stop && !st.session.io.Running?
              && st.session.delivered == t.End().session.delivered && st.wire == t.End().wire
  {
    var stopped := Next(t.cfg, t.End(), Signal);
    if Exec(t.cfg, stopped, more).Some? {
      StoppedIsFrozen(t.cfg, stopped, more);
      FlagsStay(t.cfg, stopped, more);
    }
    hide Exec;
  }

  // ---------------------------------------------------------------- the outstanding read

  /** One read from the handshake on, until one failed. */
  ghost predicate ReadOut(st: State, failed: bool) {
    && st.session.reading == (if st.session.ready && !failed then 1 else 0)
    && (failed ==> st.session.ready && !st.session.io.Running?)
  }

  lemma ReadOutStep(cfg: Config, st: State, a: Action, failed: bool)
    requires st.Shape() && LifecycleOk(st) && Enabled(cfg, st, a) && ReadOut(st, failed)
    ensures ReadOut(Next(cfg, st, a), failed || ReadFails(a))
  {
    FlagsMove(cfg, st, a);
    if a.ClientStep? || a.TaskStep? || a.ClientCall? {
      CallersLeaveSession(cfg, st, a);
      hide Next, Enabled;
    }
  }

  lemma {:induction false} ReadOutRun(cfg: Config, st: State, run: seq<Action>, failed: bool)
    requires st.Shape() && Inv(cfg, st) && Exec(cfg, st, run).Some? && ReadOut(st, failed)
    requires |Exec(cfg, st, run).value.added| < TWO_64
    ensures ReadOut(Exec(cfg, st, run).value, failed || Has(run, ReadFails))
    decreases |run|
  {
    if run != [] {
      Grows(cfg, st, run);
      ReadOutStep(cfg, st, run[0], failed);
      hide Next, Enabled, Inv, ReadOut;
      Grows(cfg, Next(cfg, st, run[0]), run[1..]);
      StepInv(cfg, st, run[0]);
      ReadOutRun(cfg, Next(cfg, st, run[0]), run[1..], failed || ReadFails(run[0]));
      HasCons(run, ReadFails);
    }
  }

  /** From the handshake on one read is outstanding, until a read fails. */
  lemma OneReadOutstanding(t: Trace)
    requires t.Possible()
    ensures t.End().session.reading == if t.End().session.ready && !Has(t.actions, ReadFails) then 1 else 0
  {
    StartInv(t.cfg, t.head, t.slots, t.clients);
    ReadOutRun(t.cfg, Start(t.head, t.slots, t.clients), t.actions, false);
  }
}
