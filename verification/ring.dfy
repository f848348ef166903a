/** The ring of `RequestBuffer` as a value, one call at a time, and what it refines: a bounded FIFO. */
module Ring {
  import opened Words

  /** `mRequests`, `mWritePos` and `mReadPos`. */
  datatype Ring<T> = Ring(slots: seq<T>, w: Word, r: Word) {
    predicate Valid() {
      IsCapacity(|slots|)
    }
  }

  datatype AddResult = Stored(slot: nat) | Full

  /** `add`: throws, leaving the ring as it was, when `mWritePos - mReadPos >= mSize`. */
  function Add<T>(ring: Ring<T>, e: T): (Ring<T>, AddResult)
    requires ring.Valid()
  {
    if Sub(ring.w, ring.r) >= |ring.slots| then (ring, Full)
    else
      var slot := Slot(ring.w, |ring.slots|);
      (ring.(slots := ring.slots[slot := e], w := Inc(ring.w)), Stored(slot))
  }

  /** `get`: nothing when `mReadPos >= mWritePos`, else the entry at the read position. */
  function Get<T>(ring: Ring<T>): (Ring<T>, Option<T>)
    requires ring.Valid()
  {
    if ring.r >= ring.w then (ring, None)
    else (ring.(r := Inc(ring.r)), Some(ring.slots[Slot(ring.r, |ring.slots|)]))
  }

  function Fresh<T>(slots: seq<T>): Ring<T> {
    Ring(slots, 0, 0)
  }

  // ---------------------------------------------------------------- what a ring stands for

  /** The ring after `added` was stored, in order, of which the first `taken` have been handed out.
      The histories are unbounded; the counters show them modulo 2^64. */
  ghost predicate Models<T>(ring: Ring<T>, added: seq<T>, taken: nat) {
    && ring.Valid()
    && taken <= |added| <= taken + |ring.slots|
    && ring.w == |added| % TWO_64
    && ring.r == taken % TWO_64
    && forall j :: taken <= j < |added| ==> ring.slots[Slot(j, |ring.slots|)] == added[j]
  }

  lemma CapacityBelowWrap(size: Capacity)
    ensures 2 <= size <= TWO_63
  {
    assert IsCapacity(size);
    var k :| 1 <= k <= 63 && size == Pow2(k);
    Pow2Monotone(1, k);
    Pow2Monotone(k, 63);
    Pow2Values();
  }

  lemma SlotOfCounter(j: nat, size: Capacity)
    ensures Slot(j % TWO_64, size) == Slot(j, size)
  {
    hide And;
    assert j % TWO_64 % TWO_64 == j % TWO_64;
  }

  /** The fullness test is right however often the counters have wrapped. */
  lemma FullExactlyAtSize<T>(ring: Ring<T>, added: seq<T>, taken: nat)
    requires Models(ring, added, taken)
    ensures Sub(ring.w, ring.r) == |added| - taken
  {
    CapacityBelowWrap(|ring.slots|);
    WrappedDistance(|added|, taken);
  }

  /** Storing in the next slot spares every entry still queued. */
  lemma StoreKeepsQueue<T>(slots: seq<T>, added: seq<T>, taken: nat, e: T)
    requires IsCapacity(|slots|) && taken <= |added| < taken + |slots|
    requires forall j :: taken <= j < |added| ==> slots[Slot(j, |slots|)] == added[j]
    ensures var slots' := slots[Slot(|added|, |slots|) := e];
            forall j :: taken <= j < |added| + 1 ==> slots'[Slot(j, |slots|)] == (added + [e])[j]
  {
    forall j | taken <= j < |added|
      ensures Slot(j, |slots|) != Slot(|added|, |slots|)
    {
      SlotsDistinct(j, |added|, |slots|);
    }
  }

  lemma StoredModels<T>(ring: Ring<T>, added: seq<T>, taken: nat, e: T)
    requires Models(ring, added, taken) && |added| < taken + |ring.slots|
    ensures Models(ring.(slots := ring.slots[Slot(|added|, |ring.slots|) := e], w := Inc(ring.w)), added + [e], taken)
  {
    IncWraps(|added|);
    StoreKeepsQueue(ring.slots, added, taken, e);
    hide Slot, Inc;
  }

  /** `add` stores behind everything queued, or throws exactly when `size` entries are queued. */
  lemma AddAppends<T>(ring: Ring<T>, added: seq<T>, taken: nat, e: T)
    requires Models(ring, added, taken)
    ensures Add(ring, e).1.Full? <==> |added| - taken == |ring.slots|
    ensures Add(ring, e).1.Full? ==> Add(ring, e).0 == ring
    ensures Add(ring, e).1.Stored? ==>
              && Models(Add(ring, e).0, added + [e], taken)
              && Add(ring, e).1.slot == Slot(|added|, |ring.slots|)
              && Add(ring, e).0.r == ring.r
              && |Add(ring, e).0.slots| == |ring.slots|
  {
    FullExactlyAtSize(ring, added, taken);
    SlotOfCounter(|added|, |ring.slots|);
    if |added| < taken + |ring.slots| {
      StoredModels(ring, added, taken, e);
    }
    hide Slot, Inc, Sub;
  }

  lemma EmptyAnswer<T>(ring: Ring<T>, added: seq<T>, taken: nat)
    requires Models(ring, added, taken)
    ensures ring.r >= ring.w <==> |added| == taken || ring.w < ring.r
  {
    CapacityBelowWrap(|ring.slots|);
  }

  /** Exactly when `get` answers "empty": when it is, and also when the write counter has wrapped and
      the read counter has not. Otherwise it hands out the oldest entry. */
  lemma GetTakesOldest<T>(ring: Ring<T>, added: seq<T>, taken: nat)
    requires Models(ring, added, taken)
    ensures Get(ring).1.None? <==> |added| == taken || ring.w < ring.r
    ensures Get(ring).1.None? ==> Get(ring).0 == ring
    ensures Get(ring).1.Some? ==>
              && Get(ring).1.value == added[taken]
              && Models(Get(ring).0, added, taken + 1)
  {
    EmptyAnswer(ring, added, taken);
    SlotOfCounter(taken, |ring.slots|);
    IncWraps(taken);
    hide Slot, Inc;
  }

  /** Below 2^64 additions the write counter is never behind the read counter. */
  lemma NoWrapBelow<T>(ring: Ring<T>, added: seq<T>, taken: nat)
    requires Models(ring, added, taken) && |added| < TWO_64
    ensures ring.r <= ring.w
    ensures ring.w == |added| && ring.r == taken && Sub(ring.w, ring.r) == |added| - taken
  {
  }

  // ---------------------------------------------------------------- whole runs

  datatype Op<T> = OpAdd(e: T) | OpGet
  datatype Out<T> = Accepted | Refused | Got(e: T) | Nothing

  function StepRing<T>(ring: Ring<T>, op: Op<T>): (Ring<T>, Out<T>)
    requires ring.Valid()
  {
    match op
    case OpAdd(e) =>
      var (ring', res) := Add(ring, e);
      (ring', if res.Full? then Refused else Accepted)
    case OpGet =>
      var (ring', res) := Get(ring);
      (ring', if res.None? then Nothing else Got(res.value))
  }

  /** The simple form: a queue that holds at most `cap` entries. */
  function StepFifo<T>(cap: nat, q: seq<T>, op: Op<T>): (seq<T>, Out<T>) {
    match op
    case OpAdd(e) => if |q| >= cap then (q, Refused) else (q + [e], Accepted)
    case OpGet => if q == [] then (q, Nothing) else (q[1..], Got(q[0]))
  }

  function RunRing<T>(ring: Ring<T>, ops: seq<Op<T>>): seq<Out<T>>
    requires ring.Valid()
    decreases |ops|
  {
    if ops == [] then []
    else
      var (ring', out) := StepRing(ring, ops[0]);
      [out] + RunRing(ring', ops[1..])
  }

  function RunFifo<T>(cap: nat, q: seq<T>, ops: seq<Op<T>>): seq<Out<T>>
    decreases |ops|
  {
    if ops == [] then []
    else
      var (q', out) := StepFifo(cap, q, ops[0]);
      [out] + RunFifo(cap, q', ops[1..])
  }

  function AcceptedIn<T>(outs: seq<Out<T>>): nat {
    if outs == [] then 0 else (if outs[0].Accepted? then 1 else 0) + AcceptedIn(outs[1..])
  }

  /** Whether `get` is called after `left` more entries have been accepted. */
  ghost predicate GetAfter<T>(cap: nat, q: seq<T>, ops: seq<Op<T>>, left: nat)
    decreases |ops|
  {
    if left == 0 then OpGet in ops
    else
      ops != [] &&
      var (q', out) := StepFifo(cap, q, ops[0]);
      GetAfter(cap, q', ops[1..], if out.Accepted? then left - 1 else left)
  }

  /** One call on both: the same answer, except for a `get` past the wrap. */
  lemma StepAgrees<T>(ring: Ring<T>, added: seq<T>, taken: nat, op: Op<T>) returns (added': seq<T>, taken': nat)
    requires Models(ring, added, taken)
    ensures var (ring', out) := StepRing(ring, op);
            var (q', out') := StepFifo(|ring.slots|, added[taken..], op);
            if op.OpGet? && ring.w < ring.r then out != out'
            else
              && out == out' && Models(ring', added', taken') && |ring'.slots| == |ring.slots|
              && q' == added'[taken'..]
              && |added'| == |added| + if out.Accepted? then 1 else 0
    ensures op.OpAdd? ==> taken' == taken
  {
    added', taken' := added, taken;
    match op
    case OpAdd(e) =>
      AddAppends(ring, added, taken, e);
      if Add(ring, e).1.Stored? {
        assert (added + [e])[taken..] == added[taken..] + [e];
        added' := added + [e];
      }
    case OpGet =>
      CapacityBelowWrap(|ring.slots|);
      GetTakesOldest(ring, added, taken);
      if Get(ring).1.Some? {
        assert added[taken + 1..] == added[taken..][1..];
        taken' := taken + 1;
      }
  }

  lemma StaysWrapped<T>(ring: Ring<T>, ring': Ring<T>, added: seq<T>, added': seq<T>, taken: nat)
    requires Models(ring, added, taken) && ring.w < ring.r
    requires Models(ring', added', taken) && |ring'.slots| == |ring.slots| && |added| <= |added'| <= |added| + 1
    ensures ring'.w < ring'.r
  {
    CapacityBelowWrap(|ring.slots|);
    AheadBy(taken, |added| - taken);
    AheadBy(taken, |added'| - taken);
  }

  lemma SameHead<T>(ring: Ring<T>, q: seq<T>, ops: seq<Op<T>>)
    requires ring.Valid() && ops != []
    ensures var (ring', out) := StepRing(ring, ops[0]);
            var (q', out') := StepFifo(|ring.slots|, q, ops[0]);
            RunRing(ring, ops) == RunFifo(|ring.slots|, q, ops) <==>
            out == out' && RunRing(ring', ops[1..]) == RunFifo(|ring.slots|, q', ops[1..])
  {
    var (ring', out) := StepRing(ring, ops[0]);
    var (q', out') := StepFifo(|ring.slots|, q, ops[0]);
    var x, y := RunRing(ring', ops[1..]), RunFifo(|ring.slots|, q', ops[1..]);
    assert ([out] + x)[0] == out && ([out'] + y)[0] == out' && ([out] + x)[1..] == x && ([out'] + y)[1..] == y;
  }

  /** Past the wrap `add` still answers as the FIFO's does, and `get` never: the FIFO has an entry. */
  lemma {:induction false} WrappedAgree<T>(ring: Ring<T>, added: seq<T>, taken: nat, ops: seq<Op<T>>)
    requires Models(ring, added, taken) && ring.w < ring.r
    ensures RunRing(ring, ops) == RunFifo(|ring.slots|, added[taken..], ops) <==> OpGet !in ops
    decreases |ops|
  {
    if ops != [] {
      SameHead(ring, added[taken..], ops);
      var added', taken' := StepAgrees(ring, added, taken, ops[0]);
      var ring' := StepRing(ring, ops[0]).0;
      hide Models, StepRing, StepFifo, RunRing, RunFifo;
      if ops[0].OpAdd? {
        StaysWrapped(ring, ring', added, added', taken);
        WrappedAgree(ring', added', taken, ops[1..]);
      }
    }
  }

  /** From any state below the wrap. */
  lemma {:induction false} RunsAgree<T>(ring: Ring<T>, added: seq<T>, taken: nat, ops: seq<Op<T>>)
    requires Models(ring, added, taken) && |added| < TWO_64
    ensures RunRing(ring, ops) == RunFifo(|ring.slots|, added[taken..], ops) <==>
            !GetAfter(|ring.slots|, added[taken..], ops, TWO_64 - |added|)
    decreases |ops|
  {
    if ops != [] {
      NoWrapBelow(ring, added, taken);
      SameHead(ring, added[taken..], ops);
      var added', taken' := StepAgrees(ring, added, taken, ops[0]);
      var ring' := StepRing(ring, ops[0]).0;
      if |added'| < TWO_64 {
        hide Models, StepRing, StepFifo, RunRing, RunFifo;
        RunsAgree(ring', added', taken', ops[1..]);
      } else {
        LastAdded(ring', added', taken', ring, added, taken);
        hide Models, StepRing, RunRing, RunFifo;
        WrappedAgree(ring', added', taken', ops[1..]);
      }
    }
  }

  /** The addition with which the write counter wraps leaves an entry queued. */
  lemma LastAdded<T>(ring': Ring<T>, added': seq<T>, taken': nat, ring: Ring<T>, added: seq<T>, taken: nat)
    requires Models(ring, added, taken) && Models(ring', added', taken') && |ring'.slots| == |ring.slots|
    requires |added| < TWO_64 == |added'| && taken' == taken
    ensures ring'.w < ring'.r
  {
    CapacityBelowWrap(|ring.slots|);
  }

  lemma FreshModels<T>(slots: seq<T>)
    requires IsCapacity(|slots|)
    ensures Models(Fresh(slots), [], 0)
  {
  }

  /** A sequence of calls answers, call by call, as the bounded FIFO does, whatever the slots held at
      the start, exactly when `get` is not called once 2^64 entries have been stored. */
  lemma RunsAgreeExactly<T>(slots: seq<T>, ops: seq<Op<T>>)
    requires IsCapacity(|slots|)
    ensures RunRing(Fresh(slots), ops) == RunFifo(|slots|, [], ops) <==> !GetAfter(|slots|, [], ops, TWO_64)
  {
    FreshModels(slots);
    var added: seq<T> := [];
    assert added[0..] == [];
    RunsAgree(Fresh(slots), added, 0, ops);
  }

  lemma {:induction false} FewAccepted<T>(cap: nat, q: seq<T>, ops: seq<Op<T>>, left: nat)
    requires AcceptedIn(RunFifo(cap, q, ops)) < left
    ensures !GetAfter(cap, q, ops, left)
    decreases |ops|
  {
    if ops != [] {
      var (q', out) := StepFifo(cap, q, ops[0]);
      assert RunFifo(cap, q, ops)[1..] == RunFifo(cap, q', ops[1..]);
      FewAccepted(cap, q', ops[1..], if out.Accepted? then left - 1 else left);
    }
  }

  /** So it does when fewer than 2^64 entries are stored. */
  lemma RingRefinesFifo<T>(slots: seq<T>, ops: seq<Op<T>>)
    requires IsCapacity(|slots|)
    requires AcceptedIn(RunFifo(|slots|, [], ops)) < TWO_64
    ensures RunRing(Fresh(slots), ops) == RunFifo(|slots|, [], ops)
  {
    FewAccepted(|slots|, [], ops, TWO_64);
    RunsAgreeExactly(slots, ops);
  }

  // ---------------------------------------------------------------- past the bound

  /** `n` rounds of one addition and one removal. */
  function Rounds<T>(n: nat, e: T): (ops: seq<Op<T>>)
    ensures |ops| == 2 * n
  {
    if n == 0 then [] else [OpAdd(e), OpGet] + Rounds(n - 1, e)
  }

  lemma RoundOfFifo<T>(cap: nat, e: T, tail: seq<Op<T>>)
    requires cap > 0
    ensures RunFifo(cap, [], [OpAdd(e), OpGet] + tail) == [Accepted, Got(e)] + RunFifo(cap, [], tail)
  {
    var ops := [OpAdd(e), OpGet] + tail;
    assert ops[1..][0] == OpGet && ops[1..][1..] == tail;
    var q := [e];
    assert StepFifo(cap, [], OpAdd(e)).0 == q && q[1..] == [];
    assert RunFifo(cap, q, ops[1..]) == [Got(e)] + RunFifo(cap, [], tail);
  }

  lemma AcceptedInRound<T>(e: T, outs: seq<Out<T>>)
    ensures AcceptedIn([Accepted, Got(e)] + outs) == 1 + AcceptedIn(outs)
  {
  }

  lemma GetAfterRound<T>(cap: nat, e: T, tail: seq<Op<T>>, left: nat)
    requires cap > 0 && left > 0
    ensures GetAfter(cap, [], [OpAdd(e), OpGet] + tail, left) <==> left == 1 || GetAfter(cap, [], tail, left - 1)
  {
    var none: seq<T> := [];
    var ops := [OpAdd(e), OpGet] + tail;
    var rest := [OpGet] + tail;
    assert ops[1..] == rest && rest[1..] == tail;
    assert none + [e] == [e] && [e][1..] == none;
    assert StepFifo(cap, none, ops[0]) == ([e], Accepted);
    assert rest[0] == OpGet && StepFifo(cap, [e], rest[0]) == (none, Got(e));
    assert GetAfter(cap, none, ops, left) <==> GetAfter(cap, [e], rest, left - 1);
  }

  lemma {:induction false} RoundsAccepted<T>(cap: nat, n: nat, e: T)
    requires cap > 0
    ensures AcceptedIn(RunFifo(cap, [], Rounds(n, e))) == n
    ensures n > 0 ==> GetAfter(cap, [], Rounds(n, e), n)
    decreases n
  {
    if n > 0 {
      var tail := Rounds(n - 1, e);
      RoundOfFifo(cap, e, tail);
      AcceptedInRound(e, RunFifo(cap, [], tail));
      GetAfterRound(cap, e, tail, n);
      RoundsAccepted(cap, n - 1, e);
    }
  }

  /** It happens: the last of 2^64 rounds stores an entry that cannot be taken. */
  lemma WrapLosesEntry<T>(slots: seq<T>, e: T)
    requires IsCapacity(|slots|)
    ensures exists ops ::
              && AcceptedIn(RunFifo(|slots|, [], ops)) == TWO_64
              && RunRing(Fresh(slots), ops) != RunFifo(|slots|, [], ops)
  {
    CapacityBelowWrap(|slots|);
    var ops := Rounds(TWO_64, e);
    RoundsAccepted(|slots|, TWO_64, e);
    RunsAgreeExactly(slots, ops);
    hide RunFifo, RunRing, GetAfter, Rounds, AcceptedIn;
    assert AcceptedIn(RunFifo(|slots|, [], ops)) == TWO_64;
  }

  /** And it is final: once the write counter has wrapped past the read counter, `get` never again
      hands anything out, whatever is called. */
  lemma {:induction false} WrapIsPermanent<T>(ring: Ring<T>, added: seq<T>, taken: nat, ops: seq<Op<T>>)
    requires Models(ring, added, taken) && ring.w < ring.r
    ensures forall i :: 0 <= i < |RunRing(ring, ops)| ==> !RunRing(ring, ops)[i].Got?
    decreases |ops|
  {
    if ops != [] {
      CapacityBelowWrap(|ring.slots|);
      match ops[0]
      case OpAdd(e) =>
        AddAppends(ring, added, taken, e);
        if Add(ring, e).1.Full? {
          WrapIsPermanent(ring, added, taken, ops[1..]);
        } else {
          WrapIsPermanent(Add(ring, e).0, added + [e], taken, ops[1..]);
        }
      case OpGet =>
        WrapIsPermanent(ring, added, taken, ops[1..]);
    }
  }
}
