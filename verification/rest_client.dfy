/** `RestClient`: subscriptions, direct requests, the signal, and the subscribe task. */
module RestClients {
  import opened Words
  import R = Ring
  import S = SessionState
  import T = Targets
  import P = Pacing
  import Sessions

  /** One call of the subscribe task: when it was made, for whom, and its answer. */
  datatype TaskCall = TaskCall(at: nat, sub: S.Subscription, status: S.Status)

  ghost function Times(calls: seq<TaskCall>): (times: seq<nat>)
    ensures |times| == |calls| && forall k :: 0 <= k < |calls| ==> times[k] == calls[k].at
  {
    seq(|calls|, k requires 0 <= k < |calls| => calls[k].at)
  }

  class RestClient {
    const mSession: Sessions.Session
    var mStopSubscriber: bool
    var mSubscriber: seq<S.Subscription>

    /** Whether the wait for SIGINT that calls `SignalHandler` is outstanding. */
    var waiting: bool

    /** Waits for the signal, and starts a fresh session. */
    constructor (head: string, capacity: Word, named: bool)
      requires 1 <= capacity <= TWO_63
      ensures waiting && !mStopSubscriber && mSubscriber == []
      ensures mSession.Valid() && fresh(mSession) && R.Models(mSession.View().ring, [], 0)
      ensures mSession.mRequest.Queue() == [] && mSession.posted == []
      ensures mSession.opening == if named then S.Resolving else S.Failed
      ensures !mSession.mSessionReady && !mSession.mError && mSession.mIoc.Running? && mSession.reading == 0
    {
      waiting := true;
      mStopSubscriber, mSubscriber := false, [];
      mSession := new Sessions.Session(head, capacity);
      new;
      mSession.Run(named);
    }

    method SubscribeEndpoint(request: string, hdl: S.Callback)
      modifies this`mSubscriber
      ensures mSubscriber == old(mSubscriber) + [S.Subscription(T.Target(request, []), hdl)]
    {
      var newRequest := T.PREFIX + request;
      assert newRequest + "" == newRequest;
      mSubscriber := mSubscriber + [S.Subscription(newRequest, hdl)];
    }

    method SubscribeEndpointWith(request: string, opts: seq<string>, hdl: S.Callback)
      requires opts != []
      modifies this`mSubscriber
      ensures mSubscriber == old(mSubscriber) + [S.Subscription(T.Target(request, opts), hdl)]
    {
      var newRequest := T.PREFIX + request;
      var tail := T.GetTargetOpts(opts);
      mSubscriber := mSubscriber + [S.Subscription(newRequest + tail, hdl)];
    }

    /** An error answers first, then the stop flag, then a session that is not ready; only a call
        answered RequestSent posts anything, and it posts behind everything posted. */
    method AsyncRequest(request: string, hdl: S.Callback) returns (status: S.Status, slept: nat)
      modifies mSession`posted
      ensures slept == if status.SessionNotReady? then 1000 else 0
      ensures status.SessionError? <==> mSession.mError
      ensures status.EndSubscribeRequest? <==> !mSession.mError && mStopSubscriber
      ensures status.RequestSent? <==> !mSession.mError && !mStopSubscriber && mSession.mSessionReady
      ensures mSession.posted == old(mSession.posted) +
                                 if status.RequestSent? then [(T.Target(request, []), hdl)] else []
    {
      var newRequest := T.PREFIX + request;
      assert newRequest + "" == newRequest;
      if mSession.mError {
        return S.SessionError, 0;
      }
      if mStopSubscriber {
        return S.EndSubscribeRequest, 0;
      }
      status, slept := mSession.AsyncRequest(newRequest, hdl);
    }

    method SignalHandler()
      modifies this`mStopSubscriber, this`waiting, mSession`mIoc
      ensures mStopSubscriber && !waiting && !mSession.mIoc.Running?
      ensures mSession.View() == S.Stop(old(mSession.View()))
    {
      waiting := false;
      mStopSubscriber := true;
      mSession.Stop();
    }
  }

  /** How long the loop rests after a call: the sleep of an early call, and the timeout. */
  function Rest(status: S.Status): (ms: nat)
    ensures status.RequestSent? ==> ms == 500
    ensures status.SessionNotReady? ==> ms == 1500
  {
    (if status.SessionNotReady? then S.EARLY_SLEEP else 0) + P.TimeoutMs(P.LIMIT)
  }

  ghost predicate RestBetween(calls: seq<TaskCall>) {
    forall k :: 0 < k < |calls| ==> calls[k - 1].at + Rest(calls[k - 1].status) <= calls[k].at
  }

  /** The calls go round the subscriptions in order; each is answered by whether the session was ready;
      between two of them there is the rest of the first. */
  ghost predicate TaskCalls(subs: seq<S.Subscription>, ready: nat -> bool, calls: seq<TaskCall>) {
    && (forall k :: 0 <= k < |calls| ==> |subs| > 0 && calls[k].sub == subs[k % |subs|])
    && (forall k :: 0 <= k < |calls| ==> calls[k].status == if ready(k) then S.RequestSent else S.SessionNotReady)
    && RestBetween(calls)
  }

  /** Room for the next call: the rest of the last one is over. */
  ghost predicate Rested(calls: seq<TaskCall>, now: nat) {
    |calls| > 0 ==> calls[|calls| - 1].at + Rest(calls[|calls| - 1].status) <= now
  }

  /** How many calls so many passes make. */
  ghost function Calls(passes: nat, subs: seq<S.Subscription>): nat {
    passes * |subs|
  }

  lemma TaskCallsSnoc(subs: seq<S.Subscription>, ready: nat -> bool, calls: seq<TaskCall>, call: TaskCall,
                      passes: nat, i: nat)
    requires TaskCalls(subs, ready, calls) && Rested(calls, call.at)
    requires i < |subs| && |calls| == Calls(passes, subs) + i && call.sub == subs[i]
    requires call.status == if ready(|calls|) then S.RequestSent else S.SessionNotReady
    ensures TaskCalls(subs, ready, calls + [call])
  {
    DivModUnique(|calls|, |subs|, passes, i);
  }

  /** Made without any other delay than the late ends of the sleeps. */
  ghost predicate OnSchedule(calls: seq<TaskCall>, start: nat, late: nat -> nat) {
    && (calls != [] ==> calls[0].at == start)
    && forall k :: 0 < k < |calls| ==> calls[k].at == calls[k - 1].at + Rest(calls[k - 1].status) + late(k - 1)
  }

  /** The time of the next call. */
  ghost predicate IsNext(calls: seq<TaskCall>, start: nat, late: nat -> nat, now: nat) {
    now == if calls == [] then start
           else calls[|calls| - 1].at + Rest(calls[|calls| - 1].status) + late(|calls| - 1)
  }

  /** The calls made so far, when the next one is made `now`. */
  ghost predicate SoFar(subs: seq<S.Subscription>, ready: nat -> bool, late: nat -> nat, start: nat,
                        calls: seq<TaskCall>, now: nat)
  {
    TaskCalls(subs, ready, calls) && OnSchedule(calls, start, late) && IsNext(calls, start, late, now)
  }

  lemma NoneSoFar(subs: seq<S.Subscription>, ready: nat -> bool, late: nat -> nat, start: nat)
    ensures SoFar(subs, ready, late, start, [], start) && Calls(0, subs) == 0
  {
  }

  lemma OneMore(subs: seq<S.Subscription>, ready: nat -> bool, late: nat -> nat, start: nat,
                calls: seq<TaskCall>, call: TaskCall, passes: nat, i: nat)
    requires SoFar(subs, ready, late, start, calls, call.at)
    requires i < |subs| && |calls| == Calls(passes, subs) + i && call.sub == subs[i]
    requires call.status == if ready(|calls|) then S.RequestSent else S.SessionNotReady
    ensures SoFar(subs, ready, late, start, calls + [call], call.at + Rest(call.status) + late(|calls|))
  {
    TaskCallsSnoc(subs, ready, calls, call, passes, i);
    hide TaskCalls;
  }

  /** The tests of the loop before this one found no flag. */
  ghost predicate NoneFlagged(flagged: nat -> bool, passes: nat) {
    forall p: nat :: p < passes ==> !flagged(p)
  }

  /** What `LaunchTaskSubscribe` starts. What other threads decide is given: whether the n-th test of
      the loop finds a flag set, whether the k-th call finds the session ready, and how late the k-th
      sleep ends. `last` is a test that finds one: without it the loop is endless. */
  method SubscribeTask(subs: seq<S.Subscription>, flagged: nat -> bool, ghost last: nat,
                       ready: nat -> bool, late: nat -> nat, start: nat)
    returns (calls: seq<TaskCall>, passes: nat)
    requires flagged(last)
    ensures passes <= last && flagged(passes) && NoneFlagged(flagged, passes)
    ensures |calls| == Calls(passes, subs)
    ensures TaskCalls(subs, ready, calls)
    ensures OnSchedule(calls, start, late)
  {
    calls, passes := [], 0;
    var now: nat := start;
    NoneSoFar(subs, ready, late, start);
    assert NoneFlagged(flagged, 0);
    hide *;
    while !flagged(passes)
      invariant passes <= last && NoneFlagged(flagged, passes)
      invariant |calls| == Calls(passes, subs)
      invariant SoFar(subs, ready, late, start, calls, now)
      decreases last - passes
    {
      for i := 0 to |subs|
        invariant |calls| == Calls(passes, subs) + i
        invariant SoFar(subs, ready, late, start, calls, now)
      {
        var k := |calls|;
        var call := TaskCall(now, subs[i], if ready(k) then S.RequestSent else S.SessionNotReady);
        OneMore(subs, ready, late, start, calls, call, passes, i);
        calls := calls + [call];
        now := now + Rest(call.status) + late(k);
      }
      OnePassMore(passes, subs, flagged);
      passes := passes + 1;
    }
    AllSoFar(subs, ready, late, start, calls, now);
  }

  lemma AllSoFar(subs: seq<S.Subscription>, ready: nat -> bool, late: nat -> nat, start: nat,
                 calls: seq<TaskCall>, now: nat)
    requires SoFar(subs, ready, late, start, calls, now)
    ensures TaskCalls(subs, ready, calls) && OnSchedule(calls, start, late)
  {
  }

  lemma OnePassMore(passes: nat, subs: seq<S.Subscription>, flagged: nat -> bool)
    requires NoneFlagged(flagged, passes) && !flagged(passes)
    ensures Calls(passes + 1, subs) == Calls(passes, subs) + |subs| && NoneFlagged(flagged, passes + 1)
  {
  }

  /** So no minute sees more than the configured number of its calls. */
  lemma TaskKeepsLimit(subs: seq<S.Subscription>, ready: nat -> bool, calls: seq<TaskCall>, from: nat)
    requires TaskCalls(subs, ready, calls)
    ensures P.InMinute(Times(calls), from) <= P.LIMIT
  {
    RestSpaces(calls);
    P.ConfiguredLimitIsKept();
  }

  lemma RestSpaces(calls: seq<TaskCall>)
    requires RestBetween(calls)
    ensures P.Spaced(Times(calls), P.TimeoutMs(P.LIMIT))
  {
    var times := Times(calls);
    forall k | 0 < k < |times|
      ensures times[k - 1] + P.TimeoutMs(P.LIMIT) <= times[k]
    {
      assert calls[k - 1].at + Rest(calls[k - 1].status) <= calls[k].at;
    }
  }
}
