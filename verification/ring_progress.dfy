/** The calls on the step-by-step ring: each is answered once, and none has to wait for another thread. */
module RingProgress {
  import opened Words
  import opened RingSteps
  import opened RingTheorems
  import R = Ring

  // ---------------------------------------------------------------- steps of add

  ghost predicate IsAddStep<T>(a: Action<T>) {
    a.LoadWrite? || a.CheckSpace? || a.BeginStore? || a.EndStore? || a.Publish?
  }

  ghost function AddSteps<T>(run: seq<Action<T>>): nat {
    if run == [] then 0 else (if IsAddStep(run[0]) then 1 else 0) + AddSteps(run[1..])
  }

  /** The steps a call of `add` can still take. */
  ghost function AddRank<T>(p: Producer<T>): nat {
    match p
    case PIdle => 0
    case PCalled(_) => 5
    case PLoaded(_, _) => 4
    case PSpace(_, _) => 3
    case PStoring(_, _) => 2
    case PStored(_, _) => 1
  }

  /** While no new call begins, the producer takes at most so many steps: a call of `add` ends within five
      of its own, whatever the consumers do. */
  lemma {:induction false} AddIsBounded<T>(s: State<T>, run: seq<Action<T>>)
    requires s.Shape() && Exec(s, run).Some?
    requires forall k :: 0 <= k < |run| ==> !run[k].Call?
    ensures AddSteps(run) + AddRank(Exec(s, run).value.prod) <= AddRank(s.prod) <= 5
    decreases |run|
  {
    if run != [] {
      assert forall k :: 0 <= k < |run[1..]| ==> run[1..][k] == run[k + 1];
      assert !run[0].Call?;
      AddIsBounded(Next(s, run[0]), run[1..]);
    }
  }

  /** And it never has to wait: in a call, its next step is possible. */
  lemma AddNeverWaits<T>(s: State<T>)
    requires s.Shape() && !s.prod.PIdle?
    ensures exists a :: IsAddStep(a) && Enabled(s, a)
  {
    var a := match s.prod
      case PCalled(_) => LoadWrite
      case PLoaded(_, _) => CheckSpace
      case PSpace(e, _) => BeginStore(e)
      case PStoring(_, _) => EndStore
      case PStored(_, _) => Publish;
    assert IsAddStep(a) && Enabled(s, a);
  }

  /** Nor does a consumer in `get`. */
  lemma GetNeverWaits<T>(s: State<T>, c: nat)
    requires s.Shape() && c < |s.cons| && !s.cons[c].CIdle?
    ensures exists a :: StepOf(a, c) && Enabled(s, a)
  {
    var a := match s.cons[c]
      case CLoop(_, _) => LoadRead(c)
      case CLoaded(_, _, _) => CheckEmpty(c)
      case CNonEmpty(_, _, _) => Cas(c)
      case CClaimed(_) => BeginCopy(c)
      case CCopying(i, _) => EndCopy(c, s.slots[Slot(i, |s.slots|)]);
    assert StepOf(a, c) && Enabled(s, a);
  }

  // ---------------------------------------------------------------- every call is answered

  /** The entries passed to `add`, and those `add` has answered for. */
  ghost function Passed<T>(run: seq<Action<T>>): seq<T> {
    if run == [] then [] else (if run[0].Call? then [run[0].e] else []) + Passed(run[1..])
  }

  ghost function Answered<T>(h: seq<Event<T>>): seq<T> {
    if h == [] then [] else (if h[0].op.OpAdd? then [h[0].op.e] else []) + Answered(h[1..])
  }

  ghost function UnderWay<T>(p: Producer<T>): seq<T> {
    if p.PIdle? then [] else [p.e]
  }

  ghost function EventsOf<T>(s: State<T>, a: Action<T>): seq<Event<T>>
    requires s.Shape() && Enabled(s, a)
  {
    if EventOf(s, a).None? then [] else [EventOf(s, a).value]
  }

  lemma AnsweredCons<T>(one: seq<Event<T>>, rest: seq<Event<T>>)
    requires |one| <= 1
    ensures Answered(one + rest) == Answered(one) + Answered(rest)
    ensures Gets(one + rest) == Gets(one) + Gets(rest)
  {
    if one == [] {
      assert one + rest == rest;
    } else {
      assert (one + rest)[1..] == rest && one[1..] == [];
    }
  }

  lemma AddAccount<T>(s: State<T>, a: Action<T>)
    requires s.Shape() && Enabled(s, a)
    ensures UnderWay(s.prod) + (if a.Call? then [a.e] else [])
            == Answered(EventsOf(s, a)) + UnderWay(Next(s, a).prod)
  {
    assert forall e: Event<T> :: [e][1..] == [];
  }

  lemma HistoryHead<T>(s: State<T>, run: seq<Action<T>>)
    requires s.Shape() && run != [] && Exec(s, run).Some?
    ensures Enabled(s, run[0]) && Exec(s, run) == Exec(Next(s, run[0]), run[1..])
    ensures History(s, run) == EventsOf(s, run[0]) + History(Next(s, run[0]), run[1..])
  {
  }

  lemma Balance<T>(before: seq<T>, passed: seq<T>, rest: seq<T>, answered: seq<T>, after: seq<T>,
                   later: seq<T>, end: seq<T>)
    requires before + passed == answered + after && after + rest == later + end
    ensures before + (passed + rest) == (answered + later) + end
  {
    assert before + (passed + rest) == (before + passed) + rest;
    assert (answered + after) + rest == answered + (after + rest);
    assert (answered + later) + end == answered + (later + end);
  }

  lemma {:induction false} AddsAccount<T>(s: State<T>, run: seq<Action<T>>)
    requires s.Shape() && Exec(s, run).Some?
    ensures UnderWay(s.prod) + Passed(run) == Answered(History(s, run)) + UnderWay(Exec(s, run).value.prod)
    decreases |run|
  {
    if run != [] {
      var s' := Next(s, run[0]);
      HistoryHead(s, run);
      AddAccount(s, run[0]);
      var one := EventsOf(s, run[0]);
      AnsweredCons(one, History(s', run[1..]));
      AddsAccount(s', run[1..]);
      hide Next, Enabled, EventsOf, History, Answered, UnderWay, Exec;
      Balance(UnderWay(s.prod), if run[0].Call? then [run[0].e] else [], Passed(run[1..]),
              Answered(one), UnderWay(s'.prod), Answered(History(s', run[1..])),
              UnderWay(Exec(s', run[1..]).value.prod));
    }
  }

  ghost function Enters<T>(run: seq<Action<T>>): nat {
    if run == [] then 0 else (if run[0].Enter? then 1 else 0) + Enters(run[1..])
  }

  ghost function Gets<T>(h: seq<Event<T>>): nat {
    if h == [] then 0 else (if h[0].op.OpGet? then 1 else 0) + Gets(h[1..])
  }

  /** How many consumers are in a call of `get` that has not taken effect. */
  ghost function Looping(cons: seq<Consumer>): nat {
    if cons == [] then 0 else (if InLoop(cons[0]) then 1 else 0) + Looping(cons[1..])
  }

  lemma {:induction false} LoopingUpdate(cons: seq<Consumer>, c: nat, p: Consumer)
    requires c < |cons|
    ensures Looping(cons[c := p]) + (if InLoop(cons[c]) then 1 else 0) == Looping(cons) + if InLoop(p) then 1 else 0
    decreases c
  {
    if c == 0 {
      assert cons[c := p][1..] == cons[1..];
    } else {
      assert cons[c := p][1..] == cons[1..][c - 1 := p];
      LoopingUpdate(cons[1..], c - 1, p);
    }
  }

  lemma {:induction false} LoopingSame(cons: seq<Consumer>, cons': seq<Consumer>)
    requires |cons'| == |cons| && forall c :: 0 <= c < |cons| ==> InLoop(cons'[c]) == InLoop(cons[c])
    ensures Looping(cons') == Looping(cons)
  {
    if cons != [] {
      LoopingSame(cons[1..], cons'[1..]);
    }
  }

  lemma GetAccount<T>(s: State<T>, a: Action<T>)
    requires s.Shape() && Enabled(s, a)
    ensures Looping(s.cons) + (if a.Enter? then 1 else 0) == Gets(EventsOf(s, a)) + Looping(Next(s, a).cons)
  {
    assert forall e: Event<T> :: [e][1..] == [];
    if IsConsumerStep(a) {
      LoopingUpdate(s.cons, a.c, Next(s, a).cons[a.c]);
    } else {
      LoopingSame(s.cons, Next(s, a).cons);
    }
    hide Looping;
  }

  lemma {:induction false} GetsAccount<T>(s: State<T>, run: seq<Action<T>>)
    requires s.Shape() && Exec(s, run).Some?
    ensures Looping(s.cons) + Enters(run) == Gets(History(s, run)) + Looping(Exec(s, run).value.cons)
    decreases |run|
  {
    if run != [] {
      var s' := Next(s, run[0]);
      HistoryHead(s, run);
      GetAccount(s, run[0]);
      AnsweredCons(EventsOf(s, run[0]), History(s', run[1..]));
      GetsAccount(s', run[1..]);
      hide Next, Enabled, EventsOf, History, Looping, Exec;
    }
  }

  /** In every interleaving the entries passed to `add` are, in order, those answered for in the history,
      then the one of the call under way; and each call of `get` has its event in the history or is still
      before it. */
  lemma EveryCallIsAnswered<T>(slots: seq<T>, consumers: nat, run: seq<Action<T>>)
    requires IsCapacity(|slots|) && Exec(Start(slots, consumers), run).Some?
    ensures var h := History(Start(slots, consumers), run);
            var s := Exec(Start(slots, consumers), run).value;
            && Passed(run) == Answered(h) + UnderWay(s.prod)
            && Enters(run) == Gets(h) + Looping(s.cons)
  {
    var s := Start(slots, consumers);
    AddsAccount(s, run);
    GetsAccount(s, run);
    NoneLooping(s.cons);
    assert UnderWay(s.prod) + Passed(run) == Passed(run);
  }

  lemma {:induction false} NoneLooping(cons: seq<Consumer>)
    requires forall c :: 0 <= c < |cons| ==> cons[c].CIdle?
    ensures Looping(cons) == 0
  {
    if cons != [] {
      NoneLooping(cons[1..]);
    }
  }
}
