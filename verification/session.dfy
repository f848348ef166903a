/** `Session` and `Handler` as objects that share the ring, each method proved against the function
    of module `SessionState` with its name. */
module Sessions {
  import opened Words
  import R = Ring
  import B = RequestBuffers
  import S = SessionState

  class Handler {
    const mSession: Session
    var mHttpResult: S.Response

    constructor (session: Session)
      ensures mSession == session
    {
      mSession := session;
      mHttpResult := S.Response("", 0);
    }

    method Read()
      requires mSession.Valid() && mSession.mHandler == this
      modifies this, mSession`reading
      ensures mSession.Valid()
      ensures mSession.View() == S.Read(old(mSession.View()))
      ensures mHttpResult == S.Response("", 0)
    {
      mHttpResult := S.Response("", 0);
      mSession.reading := mSession.reading + 1;
    }

    /** Runs when a read completes; `mHttpResult` then holds the response. It goes to the callback of the
        oldest queued entry, if `get` gives one. */
    method OnRead(failed: bool)
      requires mSession.Valid() && mSession.mHandler == this && mSession.reading > 0
      modifies this, mSession, mSession.mRequest
      ensures mSession.Valid() && mSession.mHandler == this
      ensures mSession.View() == S.OnRead(old(mSession.View()), failed, old(mHttpResult))
      ensures if failed then mSession.mError && !mSession.mIoc.Running? && mSession.reading == old(mSession.reading) - 1
              else mSession.mError == old(mSession.mError) && mSession.mIoc == old(mSession.mIoc)
                   && mSession.reading == old(mSession.reading) && mHttpResult == S.Response("", 0)
      ensures var q := old(mSession.mRequest.Queue());
              if failed || q == [] || old(mSession.mRequest.mWritePos) < old(mSession.mRequest.mReadPos) then
                mSession.mRequest.Queue() == q && mSession.delivered == old(mSession.delivered)
              else
                && mSession.mRequest.Queue() == q[1..]
                && mSession.delivered == old(mSession.delivered)
                                         + [S.Delivery(q[0].hdl, old(mHttpResult), q[0].req.target)]
    {
      mSession.reading := mSession.reading - 1;
      if failed {
        mSession.ErrorHandle();
        return;
      }
      var request := mSession.mRequest.Get();
      if request.Some? {
        var call := S.Delivery(request.value.hdl, mHttpResult, request.value.req.target);
        mSession.delivered := mSession.delivered + [call];
      }
      Read();
    }

    method OnWrite(failed: bool)
      requires mSession.Valid()
      modifies mSession`mError, mSession`mIoc
      ensures mSession.Valid()
      ensures mSession.View() == S.OnWrite(old(mSession.View()), failed)
      ensures if failed then mSession.mError && !mSession.mIoc.Running?
              else mSession.mError == old(mSession.mError) && mSession.mIoc == old(mSession.mIoc)
    {
      if failed {
        mSession.ErrorHandle();
      }
    }

    method Write(slot: nat)
      requires mSession.Valid()
      modifies mSession`writes
      ensures mSession.Valid()
      ensures mSession.View() == S.StartWrite(old(mSession.View()), slot)
    {
      mSession.writes := mSession.writes + [S.Write(slot, 0)];
    }
  }

  class Session {
    const mRequest: B.RequestBuffer<S.Entry>
    var mHandler: Handler?
    var mHttpRequest: S.HttpRequest
    var mSessionReady: bool
    var mError: bool
    var mIoc: S.IoState

    /** What is posted to `mIoc` and not yet executed. */
    var posted: seq<(string, S.Callback)>

    // what has been started on the stream, and what the callbacks were called with
    var opening: S.Opening
    var reading: nat
    var writes: seq<S.Write>
    var delivered: seq<S.Delivery>

    ghost predicate Valid()
      reads this, mRequest, mRequest.mRequests, mHandler
    {
      mHandler != null && mHandler.mSession == this && mRequest.Valid()
    }

    ghost function View(): S.Session
      reads this, mRequest, mRequest.mRequests
    {
      S.Session(mRequest.View(), mHttpRequest, mSessionReady, mError, mIoc, opening, reading, writes, delivered)
    }

    /** `capacity` is the SIZE of the ring, 4096 unless set otherwise. */
    constructor (head: string, capacity: Word)
      requires 1 <= capacity <= TWO_63
      ensures Valid() && fresh(mRequest) && fresh(mRequest.mRequests) && fresh(mHandler)
      ensures R.Models(View().ring, [], 0) && mRequest.Queue() == [] && posted == []
      ensures !View().ready && !View().error && View().io.Running? && View().opening.NotRun?
      ensures View().reading == 0 && View().writes == [] && View().delivered == [] && View().template.head == head
    {
      var empty := S.HttpRequest(head, "");
      mHttpRequest := empty;
      mRequest := new B.RequestBuffer(capacity, S.Entry(empty, 0));
      mSessionReady, mError, mIoc := false, false, S.Running;
      opening, reading, writes, delivered := S.NotRun, 0, [], [];
      posted := [];
      mHandler := null;
      new;
      mHandler := new Handler(this);
    }

    method ErrorHandle()
      modifies this`mError, this`mIoc
      ensures View() == S.ErrorHandle(old(View()))
      ensures mError && !mIoc.Running? && (old(mIoc.Crashed?) ==> mIoc.Crashed?)
    {
      mError := true;
      Stop();
    }

    method Stop()
      modifies this`mIoc
      ensures View() == S.Stop(old(View()))
      ensures !mIoc.Running? && (old(mIoc.Crashed?) ==> mIoc.Crashed?)
    {
      if mIoc.Running? {
        mIoc := S.Stopped;
      }
    }

    method Run(named: bool)
      modifies this`opening
      ensures View() == S.Run(old(View()), named)
      ensures opening == if named then S.Resolving else S.Failed
    {
      if !named {
        opening := S.Failed;
        return;
      }
      opening := S.Resolving;
    }

    /** Called from any thread; a call that comes too early sleeps before it returns. */
    method AsyncRequest(request: string, hdl: S.Callback) returns (status: S.Status, slept: nat)
      modifies this`posted
      ensures status == if mSessionReady then S.RequestSent else S.SessionNotReady
      ensures slept == if mSessionReady then 0 else 1000
      ensures posted == if mSessionReady then old(posted) + [(request, hdl)] else old(posted)
    {
      if !mSessionReady {
        return S.SessionNotReady, S.EARLY_SLEEP;
      }
      posted := posted + [(request, hdl)];
      return S.RequestSent, 0;
    }

    method OnResolve(failed: bool)
      modifies this`opening, this`mError, this`mIoc
      ensures View() == S.OnResolve(old(View()), failed)
      ensures if failed then opening.Failed? && mError && !mIoc.Running?
              else opening.Connecting? && mError == old(mError) && mIoc == old(mIoc)
    {
      if failed {
        opening := S.Failed;
        ErrorHandle();
        return;
      }
      opening := S.Connecting;
    }

    method OnConnect(failed: bool)
      modifies this`opening, this`mError, this`mIoc
      ensures View() == S.OnConnect(old(View()), failed)
      ensures if failed then opening.Failed? && mError && !mIoc.Running?
              else opening.Handshaking? && mError == old(mError) && mIoc == old(mIoc)
    {
      if failed {
        opening := S.Failed;
        ErrorHandle();
        return;
      }
      opening := S.Handshaking;
    }

    method OnHandshake(failed: bool)
      requires Valid()
      modifies this, mHandler
      ensures Valid() && mHandler == old(mHandler)
      ensures View() == S.OnHandshake(old(View()), failed)
      ensures if failed then opening.Failed? && mError && !mIoc.Running? && mSessionReady == old(mSessionReady)
              else opening.Open? && mSessionReady && reading == old(reading) + 1
                   && mError == old(mError) && mIoc == old(mIoc)
    {
      if failed {
        opening := S.Failed;
        ErrorHandle();
        return;
      }
      opening := S.Open;
      mSessionReady := true;
      mHandler.Read();
    }

    /** The shared template gets the new target; the ring keeps its own copy. */
    method ExecRequest(target: string, hdl: S.Callback)
      requires Valid()
      modifies this, mRequest, mRequest.mRequests
      ensures Valid() && mHandler == old(mHandler)
      ensures View() == S.ExecRequest(old(View()), target, hdl)
      ensures var q := old(mRequest.Queue());
              var e := S.Entry(S.HttpRequest(old(mHttpRequest).head, target), hdl);
              if |q| == mRequest.mSize then
                mIoc.Crashed? && mRequest.Queue() == q && writes == old(writes)
              else
                && mIoc == old(mIoc) && mRequest.Queue() == q + [e]
                && |writes| == |old(writes)| + 1 && old(writes) < writes
                && writes[|writes| - 1].slot < mRequest.mRequests.Length && writes[|writes| - 1].sent == 0
                && mRequest.mRequests[writes[|writes| - 1].slot] == e
    {
      mHttpRequest := mHttpRequest.(target := target);
      var res := mRequest.Add(S.Entry(mHttpRequest, hdl));
      match res
      case Full => mIoc := S.Crashed;
      case Stored(slot) => mHandler.Write(slot);
    }
  }
}
