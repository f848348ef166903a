/** `RequestBuffer` over a real array: each call is proved against the ring of module `Ring`, and
    against the queue of entries stored and not yet handed out. */
module RequestBuffers {
  import opened Words
  import R = Ring

  class RequestBuffer<T> {
    const mSize: Capacity
    const mRingMask: nat
    const mRequests: array<T>
    var mWritePos: Word
    var mReadPos: Word
    ghost var added: seq<T>
    ghost var taken: nat

    ghost predicate Valid()
      reads this, mRequests
    {
      && mRequests.Length == mSize
      && mRingMask == mSize - 1
      && R.Models(View(), added, taken)
    }

    ghost function View(): R.Ring<T>
      reads this, mRequests
    {
      R.Ring(mRequests[..], mWritePos, mReadPos)
    }

    ghost function Queue(): seq<T>
      reads this, mRequests
      requires Valid()
    {
      added[taken..]
    }

    /** `capacity` is the template argument SIZE: 0 and values above 2^63 do not compile. */
    constructor (capacity: Word, fill: T)
      requires 1 <= capacity <= TWO_63
      ensures Valid() && fresh(mRequests)
      ensures GetClosestExp(capacity) == Some(mSize)
      ensures View() == R.Fresh(seq(mSize, _ => fill)) && added == [] && taken == 0
    {
      ClosestExpIsLeastPower(capacity);
      var size: Capacity := GetClosestExp(capacity).value;
      mSize := size;
      mRingMask := size - 1;
      mRequests := new T[size](_ => fill);
      mWritePos, mReadPos := 0, 0;
      added, taken := [], 0;
      new;
      assert mRequests[..] == seq(mSize, _ => fill);
    }

    /** Throws, changing nothing, exactly when `mSize` entries are queued. */
    method Add(e: T) returns (res: R.AddResult)
      requires Valid()
      modifies this`mWritePos, this`added, mRequests
      ensures Valid()
      ensures (View(), res) == R.Add(old(View()), e)
      ensures res.Full? <==> |old(Queue())| == mSize
      ensures Queue() == if res.Full? then old(Queue()) else old(Queue()) + [e]
      ensures added == if res.Full? then old(added) else old(added) + [e]
    {
      R.AddAppends(View(), added, taken, e);
      MaskedCounter(mWritePos, mSize, mRingMask);
      var currentWritePos := mWritePos;
      if Sub(currentWritePos, mReadPos) >= mSize {
        return R.Full;
      }
      mRequests[And(currentWritePos, mRingMask)] := e;
      mWritePos := Inc(mWritePos);
      added := added + [e];
      return R.Stored(And(currentWritePos, mRingMask));
    }

    /** `compare_exchange_strong` on `mReadPos`. */
    method CompareExchange(expected: Word, desired: Word) returns (swapped: bool, seen: Word)
      modifies this`mReadPos
      ensures swapped <==> old(mReadPos) == expected
      ensures mReadPos == if swapped then desired else old(mReadPos)
      ensures seen == old(mReadPos)
    {
      seen := mReadPos;
      swapped := mReadPos == expected;
      if swapped {
        mReadPos := desired;
      }
    }

    /** The oldest entry; nothing exactly when none is queued or the write counter has wrapped past
        the read counter. */
    method Get() returns (res: Option<T>)
      requires Valid()
      modifies this`mReadPos, this`taken
      ensures Valid()
      ensures (View(), res) == R.Get(old(View()))
      ensures res.None? <==> old(Queue()) == [] || old(mWritePos) < old(mReadPos)
      ensures res.Some? ==> res.value == old(Queue())[0] && Queue() == old(Queue())[1..] && taken == old(taken) + 1
      ensures res.None? ==> Queue() == old(Queue()) && taken == old(taken)
    {
      R.GetTakesOldest(View(), added, taken);
      MaskedCounter(mReadPos, mSize, mRingMask);
      var localReadPos := mReadPos;
      var swapped := false;
      while !swapped
        invariant localReadPos == old(mReadPos) && taken == old(taken)
        invariant swapped ==> localReadPos < mWritePos && mReadPos == Inc(localReadPos)
        invariant !swapped ==> mReadPos == old(mReadPos)
        decreases !swapped
      {
        localReadPos := mReadPos;
        if localReadPos >= mWritePos {
          return None;
        }
        swapped, localReadPos := CompareExchange(localReadPos, Inc(localReadPos));
      }
      taken := taken + 1;
      return Some(mRequests[And(localReadPos, mRingMask)]);
    }
  }
}
