/** What the invariant of the step-by-step ring gives over whole runs. */
module RingTheorems {
  import opened Words
  import opened RingSteps
  import R = Ring

  // ---------------------------------------------------------------- safety

  /** In every reachable state the occupancy is between 0 and the size, the claimed indices are
      exactly 0 .. mReadPos - 1 in this order, so each by one `get`, and every live index still has
      its entry in its slot. The last store begun, for index `Begun(s) - 1`, reuses the slot of an index
      that has been claimed. */
  lemma ReachableSafety<T>(slots: seq<T>, consumers: nat, run: seq<Action<T>>)
    requires IsCapacity(|slots|) && Exec(Start(slots, consumers), run).Some?
    requires |Exec(Start(slots, consumers), run).value.added| < TWO_64
    ensures var s := Exec(Start(slots, consumers), run).value;
            && 0 <= s.w - s.r <= |slots|
            && s.w == |s.added|
            && s.r == |s.claims|
            && (forall k :: 0 <= k < s.r ==> s.claims[k].i == k)
            && (forall j :: s.r <= j < s.w ==> s.slots[Slot(j, |slots|)] == s.added[j])
            && Begun(s) <= s.r + |slots|
  {
    StartInv(slots, consumers);
    RunInv(Start(slots, consumers), run);
  }

  /** Every `get` that has returned gave the entry stored at the index it claimed, unless it was
      overtaken: when its copy ended, the producer had begun its store for `size` indices later. What
      was returned stays right however long the run goes on. No index is returned twice, and a claimed
      index is either returned or still held by its claimant. */
  lemma ReachableReturns<T>(slots: seq<T>, consumers: nat, run: seq<Action<T>>)
    requires IsCapacity(|slots|) && Exec(Start(slots, consumers), run).Some?
    requires |Exec(Start(slots, consumers), run).value.added| < TWO_64
    ensures var s := Exec(Start(slots, consumers), run).value;
            && (forall a :: 0 <= a < |s.returned| ==>
                  var t := s.returned[a];
                  && t.i < |s.claims| <= |s.added|
                  && s.claims[t.i].c == t.c
                  && (!t.overtaken ==> t.v == s.added[t.i])
                  && (t.overtaken ==> Begun(s) > t.i + |slots|))
            && (forall a, b :: 0 <= a < b < |s.returned| ==> s.returned[a].i != s.returned[b].i)
            && (forall k :: 0 <= k < |s.claims| ==>
                  && s.claims[k].c < |s.cons|
                  && (Holds(s.cons[s.claims[k].c], k) || IsReturned(s, k)))
  {
    StartInv(slots, consumers);
    RunInv(Start(slots, consumers), run);
    var s := Exec(Start(slots, consumers), run).value;
    assert forall a :: 0 <= a < |s.returned| ==> ReturnOk(s, s.returned[a]);
  }

  // ---------------------------------------------------------------- refinement of the FIFO

  ghost function Queue<T>(s: State<T>): seq<T>
    requires |s.claims| <= |s.added|
  {
    s.added[|s.claims|..]
  }

  datatype Event<T> = Event(op: R.Op<T>, out: R.Out<T>)

  /** The step of a call at which it takes effect. For `add` and an empty `get` it fixes the answer the
      call gives; for the other `get` it is what the claimed slot holds then, while the call itself
      copies the slot later. */
  ghost function EventOf<T>(s: State<T>, a: Action<T>): Option<Event<T>>
    requires s.Shape() && Enabled(s, a)
  {
    match a
    case Publish => Some(Event(R.OpAdd(s.prod.e), R.Accepted))
    case CheckSpace => if Next(s, a).prod.PIdle? then Some(Event(R.OpAdd(s.prod.e), R.Refused)) else None
    case CheckEmpty(c) => if Next(s, a).cons[c].CIdle? then Some(Event(R.OpGet, R.Nothing)) else None
    case Cas(c) =>
      if Next(s, a).cons[c].CClaimed? then
        Some(Event(R.OpGet, R.Got(s.slots[Slot(s.cons[c].local, |s.slots|)])))
      else None
    case _ => None
  }

  /** `Next` does to the queue what the event says, or leaves it alone. */
  ghost predicate Refines<T>(s: State<T>, s': State<T>, event: Option<Event<T>>)
    requires |s.claims| <= |s.added| && |s'.claims| <= |s'.added|
  {
    match event
    case None => Queue(s') == Queue(s)
    case Some(e) => R.StepFifo(|s.slots|, Queue(s), e.op) == (Queue(s'), e.out)
  }

  lemma PublishRefines<T>(s: State<T>)
    requires s.Shape() && Counters(s) && ProducerOk(s) && Enabled(s, Publish)
    ensures |Next(s, Publish).claims| <= |Next(s, Publish).added|
    ensures Refines(s, Next(s, Publish), EventOf(s, Publish))
  {
    assert Next(s, Publish).added[|s.claims|..] == Queue(s) + [s.prod.e];
  }

  lemma CasRefines<T>(s: State<T>, c: nat)
    requires s.Shape() && Counters(s) && SlotsOk(s) && ProducerOk(s) && Enabled(s, Cas(c)) && ConsumerOk(s, c)
    requires |s.added| < TWO_64
    ensures |Next(s, Cas(c)).claims| <= |Next(s, Cas(c)).added|
    ensures Refines(s, Next(s, Cas(c)), EventOf(s, Cas(c)))
  {
  }

  lemma CheckRefines<T>(s: State<T>, a: Action<T>)
    requires s.Shape() && Counters(s) && ProducerOk(s) && Enabled(s, a) && (a.CheckSpace? || a.CheckEmpty?)
    requires a.CheckEmpty? ==> ConsumerOk(s, a.c)
    requires |s.added| < TWO_64
    ensures |Next(s, a).claims| <= |Next(s, a).added|
    ensures Refines(s, Next(s, a), EventOf(s, a))
  {
  }

  /** Each step either leaves the queue alone or does to it what one call on the bounded FIFO does,
      with the FIFO's answer, although the checks read counters that may have moved on. */
  lemma StepRefines<T>(s: State<T>, a: Action<T>)
    requires s.Shape() && Inv(s) && Enabled(s, a) && |Next(s, a).added| < TWO_64
    ensures Inv(Next(s, a))
    ensures EventOf(s, a).None? ==> Queue(Next(s, a)) == Queue(s)
    ensures EventOf(s, a).Some? ==>
              R.StepFifo(|s.slots|, Queue(s), EventOf(s, a).value.op) == (Queue(Next(s, a)), EventOf(s, a).value.out)
  {
    StepInv(s, a);
    match a
    case Publish => PublishRefines(s);
    case CheckSpace => CheckRefines(s, a);
    case CheckEmpty(c) =>
      assert ConsumerOk(s, c);
      CheckRefines(s, a);
    case Cas(c) =>
      assert ConsumerOk(s, c);
      CasRefines(s, c);
    case _ =>
  }

  ghost function History<T>(s: State<T>, run: seq<Action<T>>): seq<Event<T>>
    requires s.Shape() && Exec(s, run).Some?
    decreases |run|
  {
    if run == [] then []
    else
      var rest := History(Next(s, run[0]), run[1..]);
      if EventOf(s, run[0]).None? then rest else [EventOf(s, run[0]).value] + rest
  }

  ghost function Ops<T>(h: seq<Event<T>>): (ops: seq<R.Op<T>>)
    ensures |ops| == |h|
  {
    if h == [] then [] else [h[0].op] + Ops(h[1..])
  }

  ghost function Outs<T>(h: seq<Event<T>>): (outs: seq<R.Out<T>>)
    ensures |outs| == |h|
  {
    if h == [] then [] else [h[0].out] + Outs(h[1..])
  }

  lemma {:induction false} RunRefines<T>(s: State<T>, run: seq<Action<T>>)
    requires s.Shape() && Inv(s) && Exec(s, run).Some?
    requires |Exec(s, run).value.added| < TWO_64
    ensures R.RunFifo(|s.slots|, Queue(s), Ops(History(s, run))) == Outs(History(s, run))
    decreases |run|
  {
    if run != [] {
      AddedGrows(Next(s, run[0]), run[1..]);
      StepRefines(s, run[0]);
      RunRefines(Next(s, run[0]), run[1..]);
      var rest := History(Next(s, run[0]), run[1..]);
      if EventOf(s, run[0]).Some? {
        var e := EventOf(s, run[0]).value;
        assert ([e] + rest)[1..] == rest;
        assert Ops([e] + rest)[1..] == Ops(rest);
      }
    }
  }

  /** What the claims were answered with, in order. */
  ghost function Gots<T>(h: seq<Event<T>>): seq<T> {
    if h == [] then []
    else (if h[0].out.Got? then [h[0].out.e] else []) + Gots(h[1..])
  }

  lemma EventClaims<T>(s: State<T>, a: Action<T>)
    requires s.Shape() && Inv(s) && Enabled(s, a) && |s.added| < TWO_64
    ensures var event := EventOf(s, a);
            if event.Some? && event.value.out.Got? then
              && |s.claims| < |s.added| && event.value.out.e == s.added[|s.claims|]
              && |Next(s, a).claims| == |s.claims| + 1
            else |Next(s, a).claims| == |s.claims|
  {
    if a.Cas? {
      assert ConsumerOk(s, a.c);
    }
  }

  lemma GotsCons<T>(event: Option<Event<T>>, rest: seq<Event<T>>)
    ensures Gots((if event.None? then [] else [event.value]) + rest) ==
            (if event.Some? && event.value.out.Got? then [event.value.out.e] else []) + Gots(rest)
  {
    if event.None? {
      assert [] + rest == rest;
    }
  }

  lemma GotsStep<T>(s: State<T>, a: Action<T>, rest: seq<Event<T>>, added: seq<T>, n: nat)
    requires s.Shape() && Inv(s) && Enabled(s, a) && |s.added| < TWO_64
    requires s.added <= added && |Next(s, a).claims| <= n <= |added|
    requires Gots(rest) == added[|Next(s, a).claims|..n]
    ensures |s.claims| <= n
    ensures Gots((if EventOf(s, a).None? then [] else [EventOf(s, a).value]) + rest) == added[|s.claims|..n]
  {
    EventClaims(s, a);
    GotsCons(EventOf(s, a), rest);
    hide Gots, EventOf, Next, Enabled, Inv;
  }

  /** The claims take the entries in the order in which they were added. */
  lemma {:induction false} GotsInOrder<T>(s: State<T>, run: seq<Action<T>>)
    requires s.Shape() && Inv(s) && Exec(s, run).Some?
    requires |Exec(s, run).value.added| < TWO_64
    ensures var end := Exec(s, run).value;
            && |s.claims| <= |end.claims| <= |end.added|
            && Gots(History(s, run)) == end.added[|s.claims|..|end.claims|]
    decreases |run|
  {
    if run == [] {
    } else {
      var s' := Next(s, run[0]);
      AddedGrows(s, run);
      AddedGrows(s', run[1..]);
      StepInv(s, run[0]);
      GotsInOrder(s', run[1..]);
      var end := Exec(s, run).value;
      var rest := History(s', run[1..]);
      assert History(s, run) == (if EventOf(s, run[0]).None? then [] else [EventOf(s, run[0]).value]) + rest;
      hide Inv, Next, Enabled, EventOf, Gots;
      GotsStep(s, run[0], rest, end.added, |end.claims|);
    }
  }

  /** Any interleaving of one producer and any number of consumers is, in the order of these steps, a
      run of the bounded FIFO: "full" is given only when `size` entries are queued, "empty" only when
      none is, the claim of index n gets the n-th entry, and that is the value its `get` returns unless
      it was overtaken. So without overtaken calls every answer is the FIFO's. */
  lemma InterleavingsRefineFifo<T>(slots: seq<T>, consumers: nat, run: seq<Action<T>>)
    requires IsCapacity(|slots|) && Exec(Start(slots, consumers), run).Some?
    requires |Exec(Start(slots, consumers), run).value.added| < TWO_64
    ensures var h := History(Start(slots, consumers), run);
            var s := Exec(Start(slots, consumers), run).value;
            && R.RunFifo(|slots|, [], Ops(h)) == Outs(h)
            && |s.claims| <= |s.added| && Gots(h) == s.added[..|s.claims|]
            && forall a :: 0 <= a < |s.returned| ==>
                 var t := s.returned[a];
                 t.i < |Gots(h)| && (!t.overtaken ==> t.v == Gots(h)[t.i])
  {
    var s := Start(slots, consumers);
    StartInv(slots, consumers);
    RunRefines(s, run);
    assert Queue(s) == [];
    GotsInOrder(s, run);
    ReachableReturns(slots, consumers, run);
    hide Inv, History, Ops, Outs, Gots, R.RunFifo, Enabled, Next;
  }

  // ---------------------------------------------------------------- progress of get

  /** Inside a call, the failed exchanges are no more than the claims made since it began, and all of
      those were made by other consumers. */
  lemma FailuresAreOthersClaims<T>(slots: seq<T>, consumers: nat, run: seq<Action<T>>, c: nat)
    requires IsCapacity(|slots|) && Exec(Start(slots, consumers), run).Some?
    requires |Exec(Start(slots, consumers), run).value.added| < TWO_64
    requires c < consumers && InLoop(Exec(Start(slots, consumers), run).value.cons[c])
    ensures var s := Exec(Start(slots, consumers), run).value;
            && s.cons[c].start + s.cons[c].fails <= |s.claims|
            && forall k :: s.cons[c].start <= k < |s.claims| ==> s.claims[k].c != c
  {
    StartInv(slots, consumers);
    RunInv(Start(slots, consumers), run);
    assert ConsumerOk(Exec(Start(slots, consumers), run).value, c);
  }

  /** The steps a call of `get` can still take, when at most `bound` entries are ever added. */
  ghost function Rank(p: Consumer, bound: nat): int {
    match p
    case CIdle => 0
    case CLoop(start, fails) => 3 * (bound - start - fails) + 5
    case CLoaded(start, fails, _) => 3 * (bound - start - fails) + 4
    case CNonEmpty(start, fails, _) => 3 * (bound - start - fails) + 3
    case CClaimed(_) => 2
    case CCopying(_, _) => 1
  }

  /** Whether `a` is a step of the call that consumer `c` is in. */
  ghost predicate StepOf<T>(a: Action<T>, c: nat) {
    match a
    case LoadRead(d) => d == c
    case CheckEmpty(d) => d == c
    case Cas(d) => d == c
    case BeginCopy(d) => d == c
    case EndCopy(d, _) => d == c
    case _ => false
  }

  lemma RankDecreases<T>(s: State<T>, a: Action<T>, c: nat, bound: nat)
    requires s.Shape() && Inv(s) && Enabled(s, a) && |s.added| <= bound && c < |s.cons|
    requires !(a.Enter? && a.c == c)
    ensures Rank(s.cons[c], bound) >= 0
    ensures StepOf(a, c) ==> Rank(Next(s, a).cons[c], bound) < Rank(s.cons[c], bound)
    ensures !StepOf(a, c) ==> Rank(Next(s, a).cons[c], bound) == Rank(s.cons[c], bound)
  {
    assert ConsumerOk(s, c);
  }

  ghost function StepsOf<T>(run: seq<Action<T>>, c: nat): nat {
    if run == [] then 0 else (if StepOf(run[0], c) then 1 else 0) + StepsOf(run[1..], c)
  }

  /** While consumer `c` begins no new call, it takes at most `Rank` steps, whatever the others do: a
      `get` that starts when `start` indices are claimed ends within `3 * (bound - start) + 5` of its
      own steps. */
  lemma {:induction false} GetIsBounded<T>(s: State<T>, run: seq<Action<T>>, c: nat, bound: nat)
    requires s.Shape() && Inv(s) && Exec(s, run).Some? && c < |s.cons|
    requires |Exec(s, run).value.added| <= bound < TWO_64
    requires forall k :: 0 <= k < |run| ==> run[k] != Enter(c)
    ensures StepsOf(run, c) + Rank(Exec(s, run).value.cons[c], bound) <= Rank(s.cons[c], bound)
    ensures Rank(Exec(s, run).value.cons[c], bound) >= 0
    decreases |run|
  {
    if run == [] {
      RankNat(s, c, bound);
    } else {
      AddedGrows(s, run);
      AddedGrows(Next(s, run[0]), run[1..]);
      StepInv(s, run[0]);
      assert run[0] != Enter(c);
      RankDecreases(s, run[0], c, bound);
      forall k | 0 <= k < |run[1..]|
        ensures run[1..][k] != Enter(c)
      {
        assert run[1..][k] == run[k + 1];
      }
      GetIsBounded(Next(s, run[0]), run[1..], c, bound);
    }
  }

  lemma RankNat<T>(s: State<T>, c: nat, bound: nat)
    requires s.Shape() && Inv(s) && |s.added| <= bound && c < |s.cons|
    ensures Rank(s.cons[c], bound) >= 0
  {
    assert ConsumerOk(s, c);
  }

  // ---------------------------------------------------------------- the copy after the claim

  /** The last of the first `n` indices that shares the slot of `i`. */
  ghost function LatestOf(i: nat, n: nat, size: Capacity): (j: nat)
    requires i < n
    ensures i <= j < n <= j + size && Slot(j, size) == Slot(i, size)
    ensures j == i <==> n <= i + size
    decreases n - i
  {
    SlotIsMod(i, size);
    if n <= i + size then i
    else
      SlotPeriodic(i, size);
      LatestOf(i + size, n, size)
  }

  lemma CopySteps<T>(s: State<T>, c: nat, v: T)
    requires s.Shape() && c < |s.cons| && s.cons[c].CClaimed?
    ensures Exec(s, [BeginCopy(c), EndCopy(c, v)]).Some? <==> Enabled(Next(s, BeginCopy(c)), EndCopy(c, v))
  {
    var s' := Next(s, BeginCopy(c));
    assert [BeginCopy(c), EndCopy(c, v)][1..] == [EndCopy(c, v)];
    assert Exec(s', [EndCopy(c, v)]).Some? <==> Enabled(s', EndCopy(c, v));
  }

  /** Whether a store under way is into the slot of index `i`. */
  ghost predicate StoringOver<T>(s: State<T>, i: nat)
    requires s.Shape()
  {
    Begun(s) > |s.added| && Slot(|s.added|, |s.slots|) == Slot(i, |s.slots|)
  }

  /** In every state: what a copy yields that begins now and ends before any other step. Over a store
      that is under way it yields anything, over one that is complete but not yet published that entry,
      and otherwise the latest entry added into its slot. It is bound to yield the entry of its own
      index exactly while the store `size` indices later has not begun. */
  lemma CopyReturnsLatest<T>(s: State<T>, c: nat, v: T)
    requires s.Shape() && Inv(s) && |s.added| < TWO_64 && c < |s.cons| && s.cons[c].CClaimed?
    ensures var i := s.cons[c].i;
            && i < |s.claims| <= |s.added|
            && (Exec(s, [BeginCopy(c), EndCopy(c, v)]).Some? <==>
                if StoringOver(s, i) then s.prod.PStoring? || v == s.prod.e
                else v == s.added[LatestOf(i, |s.added|, |s.slots|)])
            && (!StoringOver(s, i) && LatestOf(i, |s.added|, |s.slots|) == i <==> Begun(s) <= i + |s.slots|)
  {
    assert ConsumerOk(s, c);
    var i := s.cons[c].i;
    var j := LatestOf(i, |s.added|, |s.slots|);
    StoringOverExactly(s, i);
    if !StoringOver(s, i) {
      LatestIsThere(s, i);
    }
    CopySteps(s, c, v);
    hide LatestOf;
  }

  /** A store into the slot of `i` is one for an index at least `size` later; the one exactly `size`
      later is into that slot. */
  lemma StoringOverExactly<T>(s: State<T>, i: nat)
    requires s.Shape() && i < |s.added|
    ensures StoringOver(s, i) ==> i + |s.slots| < Begun(s)
    ensures |s.added| <= i + |s.slots| < Begun(s) ==> StoringOver(s, i)
  {
    StoreSpares(s, i);
    SlotPeriodic(i, |s.slots|);
  }

  /** With no store over it, the slot holds the latest entry added into it. */
  lemma LatestIsThere<T>(s: State<T>, i: nat)
    requires s.Shape() && Inv(s) && i < |s.added| && !StoringOver(s, i)
    ensures s.slots[Slot(i, |s.slots|)] == s.added[LatestOf(i, |s.added|, |s.slots|)]
  {
    var j := LatestOf(i, |s.added|, |s.slots|);
    StoringOverExactly(s, j);
    assert Begun(s) <= j + |s.slots|;
  }

  /** A copy that a store begins to disturb returns anything, when the store is into the same slot. */
  lemma DisturbedCopy<T>(s: State<T>, c: nat, junk: T, v: T)
    requires s.Shape() && Inv(s) && s.prod.PSpace? && c < |s.cons| && s.cons[c].CCopying? && !s.cons[c].racing
    ensures Exec(s, [BeginStore(junk), EndCopy(c, v)]).Some? <==>
            var slot := Slot(s.cons[c].i, |s.slots|);
            v == s.slots[slot] || slot == Slot(|s.added|, |s.slots|)
  {
    var s' := Next(s, BeginStore(junk));
    assert [BeginStore(junk), EndCopy(c, v)][1..] == [EndCopy(c, v)];
    assert Exec(s', [EndCopy(c, v)]).Some? <==> Enabled(s', EndCopy(c, v));
  }

  lemma {:induction false} ExecAppend<T>(s: State<T>, one: seq<Action<T>>, two: seq<Action<T>>)
    requires s.Shape() && Exec(s, one).Some?
    ensures Exec(s, one + two) == Exec(Exec(s, one).value, two)
    decreases |one|
  {
    if one == [] {
      assert one + two == two;
    } else {
      assert (one + two)[1..] == one[1..] + two;
      ExecAppend(Next(s, one[0]), one[1..], two);
    }
  }

  /** One step more, after a run from `s` that has led to `t`. */
  lemma Step<T>(s: State<T>, run: seq<Action<T>>, t: State<T>, a: Action<T>)
    requires s.Shape() && Exec(s, run) == Some(t) && Enabled(t, a)
    ensures Exec(s, run + [a]) == Some(Next(t, a))
  {
    ExecAppend(s, run, [a]);
    hide Next, Enabled;
    assert [a][1..] == [];
    assert Exec(t, [a]) == Exec(Next(t, a), []);
  }

  /** What an addition changes once it is over, the slots and `w` apart. */
  ghost predicate Added<T>(s: State<T>, s': State<T>, added: seq<T>) {
    && s'.prod.PIdle? && s'.added == s.added + added
    && s'.claims == s.claims && s'.cons == s.cons && s'.returned == s.returned
  }

  ghost predicate NoneCopying<T>(s: State<T>) {
    forall c :: 0 <= c < |s.cons| ==> !s.cons[c].CCopying?
  }

  /** The steps of `add` up to the store. */
  lemma SpaceAlone<T>(s: State<T>, e: T) returns (run: seq<Action<T>>)
    requires s.Shape() && s.prod.PIdle? && Sub(s.w, s.r) < |s.slots|
    ensures Exec(s, run) == Some(s.(prod := PSpace(e, s.w)))
  {
    run := [];
    assert Exec(s, run) == Some(s);
    hide Exec;
    var s1 := s.(prod := PCalled(e));
    Step(s, run, s, Call(e));
    run := run + [Call(e)];
    var s2 := s1.(prod := PLoaded(e, s.w));
    Step(s, run, s1, LoadWrite);
    run := run + [LoadWrite];
    Step(s, run, s2, CheckSpace);
    run := run + [CheckSpace];
  }

  /** The store and the increment. */
  lemma StoreAlone<T>(s: State<T>, e: T) returns (run: seq<Action<T>>, end: State<T>)
    requires s.Shape() && s.prod == PSpace(e, s.w) && NoneCopying(s)
    ensures Exec(s, run) == Some(end) && Added(s, end, [e])
  {
    run := [];
    assert Exec(s, run) == Some(s);
    hide Exec;
    Step(s, run, s, BeginStore(e));
    run := run + [BeginStore(e)];
    var s1 := Next(s, BeginStore(e));
    assert s1.cons == s.cons;
    Step(s, run, s1, EndStore);
    run := run + [EndStore];
    var s2 := Next(s1, EndStore);
    Step(s, run, s2, Publish);
    run := run + [Publish];
    end := Next(s2, Publish);
  }

  /** An addition no one interferes with. */
  lemma AddAlone<T>(s: State<T>, e: T) returns (run: seq<Action<T>>, end: State<T>)
    requires s.Shape() && Inv(s) && s.prod.PIdle? && NoneCopying(s)
    requires |s.added| < |s.claims| + |s.slots| && |s.added| + 1 < TWO_64
    ensures Exec(s, run) == Some(end) && end.Shape() && Inv(end) && Added(s, end, [e])
  {
    var first := SpaceAlone(s, e);
    var second;
    second, end := StoreAlone(s.(prod := PSpace(e, s.w)), e);
    ExecAppend(s, first, second);
    run := first + second;
    RunInv(s, run);
  }

  lemma {:induction false} FillAlone<T>(s: State<T>, e: T, n: nat) returns (run: seq<Action<T>>, end: State<T>)
    requires s.Shape() && Inv(s) && s.prod.PIdle? && NoneCopying(s)
    requires |s.added| + n <= |s.claims| + |s.slots| && |s.added| + n < TWO_64
    ensures Exec(s, run) == Some(end) && end.Shape() && Inv(end) && Added(s, end, seq(n, _ => e))
    decreases n
  {
    if n == 0 {
      run, end := [], s;
    } else {
      var first, mid := AddAlone(s, e);
      var second;
      second, end := FillAlone(mid, e, n - 1);
      ExecAppend(s, first, second);
      run := first + second;
      assert [e] + seq(n - 1, _ => e) == seq(n, _ => e);
    }
  }

  /** Consumer 0 claims the first entry. */
  lemma ClaimAlone<T>(s: State<T>) returns (run: seq<Action<T>>, end: State<T>)
    requires s.Shape() && Inv(s) && Counters(s) && s.claims == [] && 0 < |s.added| < TWO_64
    requires |s.cons| > 0 && s.cons[0].CIdle?
    ensures Exec(s, run) == Some(end) && end.Shape() && Inv(end)
    ensures end == s.(r := 1, cons := s.cons[0 := CClaimed(0)], claims := [Claim(0, 0)])
  {
    run := [];
    assert Exec(s, run) == Some(s);
    hide Exec, Inv;
    Step(s, run, s, Enter(0));
    run := run + [Enter(0)];
    var s1 := Next(s, Enter(0));
    Step(s, run, s1, LoadRead(0));
    run := run + [LoadRead(0)];
    var s2 := Next(s1, LoadRead(0));
    Step(s, run, s2, CheckEmpty(0));
    run := run + [CheckEmpty(0)];
    var s3 := Next(s2, CheckEmpty(0));
    Step(s, run, s3, Cas(0));
    run := run + [Cas(0)];
    end := Next(s3, Cas(0));
    assert end.cons == s.cons[0 := CClaimed(0)] && end.claims == [Claim(0, 0)];
    RunInv(s, run);
  }

  /** A claim overtaken by one store yields the entry of that store. */
  lemma CopyAlone<T>(s: State<T>)
    requires s.Shape() && Inv(s) && s.prod.PIdle? && |s.added| == |s.slots| + 1 < TWO_64 && s.returned == []
    requires |s.cons| > 0 && s.cons[0] == CClaimed(0)
    ensures var v := s.added[|s.slots|];
            var end := Exec(s, [BeginCopy(0), EndCopy(0, v)]);
            end.Some? && end.value.returned == [Returned(0, 0, v, true)] && end.value.added == s.added
  {
    var size := |s.slots|;
    var v := s.added[size];
    var j := LatestOf(0, |s.added|, size);
    assert j == size;
    CopyReturnsLatest(s, 0, v);
    var s1 := Next(s, BeginCopy(0));
    var none: seq<Action<T>> := [];
    Step(s, none, s, BeginCopy(0));
    assert none + [BeginCopy(0)] == [BeginCopy(0)];
    CopySteps(s, 0, v);
    Step(s, [BeginCopy(0)], s1, EndCopy(0, v));
    assert [BeginCopy(0)] + [EndCopy(0, v)] == [BeginCopy(0), EndCopy(0, v)];
  }

  lemma OvertakenClaim<T>(slots: seq<T>, consumers: nat, a: T, b: T) returns (run: seq<Action<T>>, end: State<T>)
    requires IsCapacity(|slots|) && consumers > 0
    ensures Exec(Start(slots, consumers), run) == Some(end) && end.Shape() && Inv(end) && end.prod.PIdle?
    ensures |end.slots| == |slots| && end.returned == [] && |end.cons| > 0 && end.cons[0] == CClaimed(0)
    ensures end.added == seq(|slots|, _ => a) + [b]
  {
    R.CapacityBelowWrap(|slots|);
    var s := Start(slots, consumers);
    StartInv(slots, consumers);
    assert s.added == [] && s.claims == [] && s.cons[0] == CIdle && NoneCopying(s);
    hide Start, Next, Enabled, Exec;
    var fill, s1 := FillAlone(s, a, |slots|);
    var claim, s2 := ClaimAlone(s1);
    ExecAppend(s, fill, claim);
    hide Inv;
    var more;
    more, end := AddAlone(s2, b);
    ExecAppend(s, fill + claim, more);
    run := fill + claim + more;
  }

  /** So it happens, whatever the size: fill the ring, claim the first entry, add one more, and only
      then copy. */
  lemma OvertakenCopyReturnsLater<T>(slots: seq<T>, consumers: nat, a: T, b: T)
    requires IsCapacity(|slots|) && consumers > 0
    ensures exists run ::
              var end := Exec(Start(slots, consumers), run);
              && end.Some? && end.value.returned == [Returned(0, 0, b, true)]
              && end.value.added == seq(|slots|, _ => a) + [b]
  {
    R.CapacityBelowWrap(|slots|);
    var run, s := OvertakenClaim(slots, consumers, a, b);
    var copy := [BeginCopy(0), EndCopy(0, b)];
    assert s.added[|slots|] == b;
    CopyAlone(s);
    hide Start, Next, Enabled, Inv, Exec;
    ExecAppend(Start(slots, consumers), run, copy);
    assert Exec(Start(slots, consumers), run + copy) == Exec(s, copy);
  }
}
