/** `RequestBuffer` step by step: one producer thread in `add` and any number of consumer threads in
    `get`, interleaved at every atomic load, store, increment and compare-exchange. Storing into and
    copying out of a slot are not atomic: each has a beginning and an end. */
module RingSteps {
  import opened Words
  import R = Ring

  /** Where the producer is in `add`; `cw` is `currentWritePos`. */
  datatype Producer<T> =
    | PIdle
    | PCalled(e: T)
    | PLoaded(e: T, cw: Word)
    | PSpace(e: T, cw: Word)
    | PStoring(e: T, cw: Word)
    | PStored(e: T, cw: Word)

  /** Where a consumer is in `get`; `local` is `localReadPos`. `start` and `fails` only observe: the
      number of claims made when the call began, and the failed exchanges since. */
  datatype Consumer =
    | CIdle
    | CLoop(start: nat, fails: nat)
    | CLoaded(start: nat, fails: nat, local: Word)
    | CNonEmpty(start: nat, fails: nat, local: Word)
    | CClaimed(i: Word)
    | CCopying(i: Word, racing: bool)

  datatype Claim = Claim(c: nat, i: Word)
  datatype Returned<T> = Returned(c: nat, i: Word, v: T, overtaken: bool)

  /** `added`, `claims` and `returned` are histories. */
  datatype State<T> = State(
    slots: seq<T>, w: Word, r: Word,
    prod: Producer<T>, cons: seq<Consumer>,
    added: seq<T>, claims: seq<Claim>, returned: seq<Returned<T>>)
  {
    ghost predicate Shape() {
      IsCapacity(|slots|)
    }

    ghost function Size(): Capacity
      requires Shape()
    {
      |slots|
    }
  }

  datatype Action<T> =
    | Call(e: T)            // add is called
    | LoadWrite             // currentWritePos is loaded
    | CheckSpace            // mReadPos is loaded and the space tested
    | BeginStore(junk: T)   // the store into the slot begins: what it shows meanwhile is arbitrary
    | EndStore              // the store ends
    | Publish               // mWritePos is incremented
    | Enter(c: nat)         // get is called
    | LoadRead(c: nat)      // localReadPos is loaded
    | CheckEmpty(c: nat)    // mWritePos is loaded and emptiness tested
    | Cas(c: nat)           // the exchange on mReadPos
    | BeginCopy(c: nat)     // the copy out of the slot begins
    | EndCopy(c: nat, v: T) // the copy ends with `v`

  ghost function Start<T>(slots: seq<T>, consumers: nat): State<T> {
    State(slots, 0, 0, PIdle, seq(consumers, _ => CIdle), [], [], [])
  }

  ghost predicate Enabled<T>(s: State<T>, a: Action<T>)
    requires s.Shape()
  {
    match a
    case Call(_) => s.prod.PIdle?
    case LoadWrite => s.prod.PCalled?
    case CheckSpace => s.prod.PLoaded?
    case BeginStore(_) => s.prod.PSpace?
    case EndStore => s.prod.PStoring?
    case Publish => s.prod.PStored?
    case Enter(c) => c < |s.cons| && s.cons[c].CIdle?
    case LoadRead(c) => c < |s.cons| && s.cons[c].CLoop?
    case CheckEmpty(c) => c < |s.cons| && s.cons[c].CLoaded?
    case Cas(c) => c < |s.cons| && s.cons[c].CNonEmpty?
    case BeginCopy(c) => c < |s.cons| && s.cons[c].CClaimed?
    case EndCopy(c, v) =>
      && c < |s.cons| && s.cons[c].CCopying?
      && (s.cons[c].racing || v == s.slots[Slot(s.cons[c].i, |s.slots|)])
  }

  /** A copy under way from the slot a store begins in may yield anything. */
  ghost function Disturb(p: Consumer, slot: nat, size: Capacity): Consumer {
    if p.CCopying? && Slot(p.i, size) == slot then p.(racing := true) else p
  }

  ghost function Next<T>(s: State<T>, a: Action<T>): (s': State<T>)
    requires s.Shape() && Enabled(s, a)
    ensures s'.Shape() && |s'.slots| == |s.slots| && |s'.cons| == |s.cons|
  {
    var size := s.Size();
    match a
    case Call(e) => s.(prod := PCalled(e))
    case LoadWrite => s.(prod := PLoaded(s.prod.e, s.w))
    case CheckSpace =>
      if Sub(s.prod.cw, s.r) >= size then s.(prod := PIdle) else s.(prod := PSpace(s.prod.e, s.prod.cw))
    case BeginStore(junk) =>
      var slot := Slot(s.prod.cw, size);
      s.(slots := s.slots[slot := junk],
         prod := PStoring(s.prod.e, s.prod.cw),
         cons := seq(|s.cons|, c requires 0 <= c < |s.cons| => Disturb(s.cons[c], slot, size)))
    case EndStore =>
      s.(slots := s.slots[Slot(s.prod.cw, size) := s.prod.e], prod := PStored(s.prod.e, s.prod.cw))
    case Publish => s.(w := Inc(s.w), prod := PIdle, added := s.added + [s.prod.e])
    case Enter(c) => s.(cons := s.cons[c := CLoop(|s.claims|, 0)])
    case LoadRead(c) => s.(cons := s.cons[c := CLoaded(s.cons[c].start, s.cons[c].fails, s.r)])
    case CheckEmpty(c) =>
      var p := s.cons[c];
      if p.local >= s.w then s.(cons := s.cons[c := CIdle])
      else s.(cons := s.cons[c := CNonEmpty(p.start, p.fails, p.local)])
    case Cas(c) =>
      var p := s.cons[c];
      if s.r == p.local then
        s.(r := Inc(p.local), cons := s.cons[c := CClaimed(p.local)], claims := s.claims + [Claim(c, p.local)])
      else s.(cons := s.cons[c := CLoop(p.start, p.fails + 1)])
    case BeginCopy(c) =>
      var i := s.cons[c].i;
      s.(cons := s.cons[c := CCopying(i, s.prod.PStoring? && Slot(s.prod.cw, size) == Slot(i, size))])
    case EndCopy(c, v) =>
      var i := s.cons[c].i;
      s.(cons := s.cons[c := CIdle], returned := s.returned + [Returned(c, i, v, Begun(s) > i + size)])
  }

  /** How many stores the producer has begun: index `Begun(s) - 1` is the last one. */
  ghost function Begun<T>(s: State<T>): nat {
    |s.added| + if s.prod.PStoring? || s.prod.PStored? then 1 else 0
  }

  /** The state a list of actions leads to, if each is enabled in turn. */
  ghost function Exec<T>(s: State<T>, run: seq<Action<T>>): (end: Option<State<T>>)
    requires s.Shape()
    ensures end.Some? ==> end.value.Shape() && |end.value.slots| == |s.slots| && |end.value.cons| == |s.cons|
    decreases |run|
  {
    if run == [] then Some(s)
    else if Enabled(s, run[0]) then Exec(Next(s, run[0]), run[1..])
    else None
  }

  // ---------------------------------------------------------------- the invariant

  ghost predicate Counters<T>(s: State<T>)
    requires s.Shape()
  {
    && s.w == |s.added|
    && s.r == |s.claims|
    && |s.claims| <= |s.added| <= |s.claims| + |s.slots|
  }

  ghost predicate ProducerOk<T>(s: State<T>)
    requires s.Shape()
  {
    && (s.prod.PLoaded? || s.prod.PSpace? || s.prod.PStoring? || s.prod.PStored? ==> s.prod.cw == s.w)
    && (s.prod.PSpace? || s.prod.PStoring? || s.prod.PStored? ==> |s.added| < |s.claims| + |s.slots|)
    && (s.prod.PStored? ==> s.slots[Slot(|s.added|, |s.slots|)] == s.prod.e)
  }

  /** Every index whose slot no later store has begun to reuse still has its entry there. */
  ghost predicate SlotsOk<T>(s: State<T>)
    requires s.Shape()
  {
    forall j: nat :: j < |s.added| && Begun(s) <= j + |s.slots| ==> s.slots[Slot(j, |s.slots|)] == s.added[j]
  }

  ghost predicate ClaimsOk<T>(s: State<T>) {
    forall k :: 0 <= k < |s.claims| ==> s.claims[k].i == k && s.claims[k].c < |s.cons|
  }

  ghost predicate Holds(p: Consumer, i: nat) {
    (p.CClaimed? || p.CCopying?) && p.i == i
  }

  ghost predicate InLoop(p: Consumer) {
    p.CLoop? || p.CLoaded? || p.CNonEmpty?
  }

  ghost predicate ConsumerOk<T>(s: State<T>, c: nat)
    requires s.Shape() && c < |s.cons|
  {
    var p := s.cons[c];
    && (InLoop(p) ==>
          && p.start + p.fails <= |s.claims|
          && forall k :: p.start <= k < |s.claims| ==> s.claims[k].c != c)
    && (p.CLoaded? || p.CNonEmpty? ==> p.start + p.fails <= p.local <= s.r)
    && (p.CNonEmpty? ==> p.local < s.w)
    && (p.CClaimed? || p.CCopying? ==> p.i < |s.claims| && s.claims[p.i].c == c)
    && (p.CCopying? && p.racing ==> Begun(s) > p.i + |s.slots|)
  }

  ghost predicate ConsumersOk<T>(s: State<T>)
    requires s.Shape()
  {
    forall c :: 0 <= c < |s.cons| ==> ConsumerOk(s, c)
  }

  ghost predicate ReturnOk<T>(s: State<T>, t: Returned<T>)
    requires s.Shape()
  {
    && t.i < |s.claims| && t.i < |s.added|
    && s.claims[t.i].c == t.c
    && (!t.overtaken ==> t.v == s.added[t.i])
    && (t.overtaken ==> Begun(s) > t.i + |s.slots|)
  }

  ghost predicate NotHeld<T>(s: State<T>) {
    forall a, c :: 0 <= a < |s.returned| && 0 <= c < |s.cons| ==> !Holds(s.cons[c], s.returned[a].i)
  }

  ghost predicate ReturnsOk<T>(s: State<T>)
    requires s.Shape()
  {
    && (forall a :: 0 <= a < |s.returned| ==> ReturnOk(s, s.returned[a]))
    && (forall a, b :: 0 <= a < b < |s.returned| ==> s.returned[a].i != s.returned[b].i)
    && NotHeld(s)
  }

  ghost predicate IsReturned<T>(s: State<T>, i: nat) {
    exists a :: 0 <= a < |s.returned| && s.returned[a].i == i
  }

  ghost predicate NoneLost<T>(s: State<T>) {
    forall k :: 0 <= k < |s.claims| && s.claims[k].c < |s.cons| ==> Holds(s.cons[s.claims[k].c], k) || IsReturned(s, k)
  }

  ghost predicate Inv<T>(s: State<T>)
    requires s.Shape()
  {
    Counters(s) && ProducerOk(s) && SlotsOk(s) && ClaimsOk(s) && ConsumersOk(s) && ReturnsOk(s) && NoneLost(s)
  }

  lemma StartInv<T>(slots: seq<T>, consumers: nat)
    requires IsCapacity(|slots|)
    ensures Inv(Start(slots, consumers))
  {
  }

  // ---------------------------------------------------------------- preservation

  /** A slot the producer may store into is not the slot of any index it has not already overtaken. */
  lemma StoreSpares<T>(s: State<T>, j: nat)
    requires s.Shape() && j < |s.added|
    ensures Slot(j, |s.slots|) == Slot(|s.added|, |s.slots|) ==> j + |s.slots| <= |s.added|
  {
    if |s.added| < j + |s.slots| {
      SlotsDistinct(j, |s.added|, |s.slots|);
    }
  }

  lemma StoreKeepsSlots<T>(s: State<T>, a: Action<T>)
    requires s.Shape() && Inv(s) && Enabled(s, a) && (a.BeginStore? || a.EndStore?)
    ensures SlotsOk(Next(s, a)) && ProducerOk(Next(s, a)) && Counters(Next(s, a)) && ClaimsOk(Next(s, a))
  {
    var s' := Next(s, a);
    forall j: nat | j < |s'.added| && Begun(s') <= j + |s'.slots|
      ensures s'.slots[Slot(j, |s'.slots|)] == s'.added[j]
    {
      StoreSpares(s, j);
    }
  }

  lemma StoreKeepsConsumers<T>(s: State<T>, a: Action<T>)
    requires s.Shape() && Inv(s) && Enabled(s, a) && (a.BeginStore? || a.EndStore?)
    ensures ConsumersOk(Next(s, a)) && ReturnsOk(Next(s, a)) && NoneLost(Next(s, a))
  {
    var s' := Next(s, a);
    forall c | 0 <= c < |s'.cons|
      ensures ConsumerOk(s', c)
    {
      var p := s.cons[c];
      assert ConsumerOk(s, c);
      if p.CCopying? {
        StoreSpares(s, p.i);
      }
    }
    forall b | 0 <= b < |s'.returned|
      ensures ReturnOk(s', s'.returned[b])
    {
      assert ReturnOk(s, s.returned[b]);
    }
    forall k | 0 <= k < |s'.claims|
      ensures Holds(s'.cons[s'.claims[k].c], k) || IsReturned(s', k)
    {
      if IsReturned(s, k) {
        var b :| 0 <= b < |s.returned| && s.returned[b].i == k;
        assert s'.returned[b].i == k;
      }
    }
  }

  lemma QuietSteps<T>(s: State<T>, a: Action<T>)
    requires s.Shape() && Inv(s) && Enabled(s, a) && (a.Call? || a.LoadWrite? || a.CheckSpace?)
    requires |s.added| < TWO_64
    ensures Inv(Next(s, a))
  {
    var s' := Next(s, a);
    assert Begun(s') == Begun(s);
    forall c | 0 <= c < |s'.cons|
      ensures ConsumerOk(s', c)
    {
      assert ConsumerOk(s, c);
    }
    SameReturns(s, s');
  }

  lemma PublishRing<T>(s: State<T>)
    requires s.Shape() && Inv(s) && Enabled(s, Publish) && |s.added| + 1 < TWO_64
    ensures var s' := Next(s, Publish);
            Begun(s') == Begun(s) && Counters(s') && ProducerOk(s') && SlotsOk(s') && ClaimsOk(s')
  {
    hide ConsumersOk, ReturnsOk, NoneLost;
  }

  lemma PublishConsumer<T>(s: State<T>, c: nat)
    requires s.Shape() && Enabled(s, Publish) && c < |s.cons| && ConsumerOk(s, c) && |s.added| + 1 < TWO_64
    requires s.w == |s.added| && Begun(Next(s, Publish)) == Begun(s)
    ensures ConsumerOk(Next(s, Publish), c)
  {
    hide Begun;
  }

  lemma PublishStep<T>(s: State<T>)
    requires s.Shape() && Inv(s) && Enabled(s, Publish) && |s.added| + 1 < TWO_64
    ensures Inv(Next(s, Publish))
  {
    var s' := Next(s, Publish);
    PublishRing(s);
    assert s.added <= s'.added;
    SameReturns(s, s');
    forall c | 0 <= c < |s'.cons|
      ensures ConsumerOk(s', c)
    {
      PublishConsumer(s, c);
    }
    hide Begun, SlotsOk, ProducerOk, ClaimsOk, ReturnsOk, NoneLost, ConsumerOk, Counters;
  }

  lemma SameReturns<T>(s: State<T>, s': State<T>)
    requires s.Shape() && s'.Shape() && |s'.slots| == |s.slots| && ReturnsOk(s) && NoneLost(s)
    requires s'.returned == s.returned && s'.claims == s.claims && s'.cons == s.cons
    requires s.added <= s'.added && Begun(s) <= Begun(s')
    ensures ReturnsOk(s') && NoneLost(s')
  {
  }

  ghost predicate IsConsumerStep<T>(a: Action<T>) {
    a.Enter? || a.LoadRead? || a.CheckEmpty? || a.Cas? || a.BeginCopy? || a.EndCopy?
  }

  lemma OwnConsumer<T>(s: State<T>, a: Action<T>)
    requires s.Shape() && Inv(s) && Enabled(s, a) && IsConsumerStep(a) && |s.added| < TWO_64
    ensures ConsumerOk(Next(s, a), a.c)
  {
    assert ConsumerOk(s, a.c);
    if a.BeginCopy? {
      StoreSpares(s, s.cons[a.c].i);
    }
  }

  lemma OtherConsumers<T>(s: State<T>, a: Action<T>, c: nat)
    requires s.Shape() && Inv(s) && Enabled(s, a) && IsConsumerStep(a) && |s.added| < TWO_64
    requires c < |s.cons| && c != a.c
    ensures ConsumerOk(Next(s, a), c)
  {
    assert ConsumerOk(s, c) && ConsumerOk(s, a.c);
    assert Begun(Next(s, a)) == Begun(s);
    assert Next(s, a).cons[c] == s.cons[c];
  }

  lemma ConsumerKeepsRing<T>(s: State<T>, a: Action<T>)
    requires s.Shape() && Inv(s) && Enabled(s, a) && IsConsumerStep(a) && |s.added| < TWO_64
    ensures Counters(Next(s, a)) && ProducerOk(Next(s, a)) && SlotsOk(Next(s, a)) && ClaimsOk(Next(s, a))
  {
    assert ConsumerOk(s, a.c);
    assert Begun(Next(s, a)) == Begun(s);
  }

  lemma ConsumerSteps<T>(s: State<T>, a: Action<T>)
    requires s.Shape() && Inv(s) && Enabled(s, a) && IsConsumerStep(a) && |s.added| < TWO_64
    ensures Inv(Next(s, a))
  {
    var s' := Next(s, a);
    ConsumerKeepsRing(s, a);
    OwnConsumer(s, a);
    forall c | 0 <= c < |s'.cons|
      ensures ConsumerOk(s', c)
    {
      if c != a.c {
        OtherConsumers(s, a, c);
      }
    }
    if a.EndCopy? {
      EndCopyReturns(s, a);
      EndCopyLosesNone(s, a);
    } else {
      ConsumerStepReturns(s, a);
      ConsumerStepLosesNone(s, a);
    }
    hide Next, Enabled, Counters, ProducerOk, SlotsOk, ClaimsOk, ReturnsOk, NoneLost, ConsumerOk;
  }

  lemma ConsumerStepHolds<T>(s: State<T>, a: Action<T>)
    requires s.Shape() && Inv(s) && Enabled(s, a) && IsConsumerStep(a) && !a.EndCopy?
    ensures NotHeld(Next(s, a))
  {
  }

  lemma ConsumerStepReturns<T>(s: State<T>, a: Action<T>)
    requires s.Shape() && Inv(s) && Enabled(s, a) && IsConsumerStep(a) && !a.EndCopy?
    ensures ReturnsOk(Next(s, a))
  {
    var s' := Next(s, a);
    ConsumerStepHolds(s, a);
    assert ConsumerOk(s, a.c);
    assert Begun(s') == Begun(s);
    forall b | 0 <= b < |s'.returned|
      ensures ReturnOk(s', s'.returned[b])
    {
      assert ReturnOk(s, s.returned[b]);
    }
  }

  lemma ConsumerStepLosesNone<T>(s: State<T>, a: Action<T>)
    requires s.Shape() && Inv(s) && Enabled(s, a) && IsConsumerStep(a) && !a.EndCopy?
    ensures NoneLost(Next(s, a))
  {
  }

  lemma EndCopyReturns<T>(s: State<T>, a: Action<T>)
    requires s.Shape() && Inv(s) && Enabled(s, a) && a.EndCopy?
    ensures ReturnsOk(Next(s, a))
  {
    var s' := Next(s, a);
    var i := s.cons[a.c].i;
    assert ConsumerOk(s, a.c);
    assert Begun(s') == Begun(s);
    var n := |s.returned|;
    assert !s'.returned[n].overtaken ==> s'.returned[n].v == s.added[i];
    forall b | 0 <= b < |s'.returned|
      ensures ReturnOk(s', s'.returned[b])
    {
      if b < n {
        assert ReturnOk(s, s.returned[b]);
      }
    }
    forall b, c | 0 <= b < |s'.returned| && 0 <= c < |s'.cons|
      ensures !Holds(s'.cons[c], s'.returned[b].i)
    {
      assert ConsumerOk(s, c);
      if b < n {
        assert !Holds(s.cons[c], s.returned[b].i);
      }
    }
    forall b | 0 <= b < n
      ensures s'.returned[b].i != s'.returned[n].i
    {
      assert !Holds(s.cons[a.c], s.returned[b].i);
    }
  }

  lemma EndCopyLosesNone<T>(s: State<T>, a: Action<T>)
    requires s.Shape() && Inv(s) && Enabled(s, a) && a.EndCopy?
    ensures NoneLost(Next(s, a))
  {
    var s' := Next(s, a);
    forall k | 0 <= k < |s'.claims| && s'.claims[k].c < |s'.cons|
      ensures Holds(s'.cons[s'.claims[k].c], k) || IsReturned(s', k)
    {
      if IsReturned(s, k) {
        var b :| 0 <= b < |s.returned| && s.returned[b].i == k;
        assert s'.returned[b].i == k;
      } else if Holds(s.cons[a.c], k) {
        assert s'.returned[|s.returned|].i == k;
      }
    }
  }

  lemma StepInv<T>(s: State<T>, a: Action<T>)
    requires s.Shape() && Inv(s) && Enabled(s, a)
    requires |Next(s, a).added| < TWO_64
    ensures Inv(Next(s, a))
  {
    if a.BeginStore? || a.EndStore? {
      StoreKeepsSlots(s, a);
      StoreKeepsConsumers(s, a);
    } else if a.Call? || a.LoadWrite? || a.CheckSpace? {
      QuietSteps(s, a);
    } else if a.Publish? {
      PublishStep(s);
    } else {
      ConsumerSteps(s, a);
    }
  }

  lemma {:induction false} AddedGrows<T>(s: State<T>, run: seq<Action<T>>)
    requires s.Shape() && Exec(s, run).Some?
    ensures s.added <= Exec(s, run).value.added
    ensures s.claims <= Exec(s, run).value.claims
    decreases |run|
  {
    if run != [] {
      AddedGrows(Next(s, run[0]), run[1..]);
    }
  }

  /** Every state of every run with fewer than 2^64 additions satisfies the invariant. */
  lemma {:induction false} RunInv<T>(s: State<T>, run: seq<Action<T>>)
    requires s.Shape() && Inv(s) && Exec(s, run).Some?
    requires |Exec(s, run).value.added| < TWO_64
    ensures Inv(Exec(s, run).value)
    decreases |run|
  {
    if run != [] {
      AddedGrows(Next(s, run[0]), run[1..]);
      StepInv(s, run[0]);
      RunInv(Next(s, run[0]), run[1..]);
    }
  }
}
