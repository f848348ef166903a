/** `buffer_body`: a body passed through buffers the caller supplies, pausing with `need_buffer`. */
module BufferBody {
  import opened Words
  import F = FileBody

  // ---------------------------------------------------------------- serializing

  /** The caller's `value_type` while serializing; no data stands for `nullptr`. */
  datatype Supply = Supply(data: Option<seq<Byte>>, more: bool)

  /** What `writer::get` answers. */
  datatype Out = Piece(bytes: seq<Byte>, more: bool) | NeedBuffer | End

  /** `writer::get`: the new value of `toggle_`, and the answer. */
  function GetStep(toggle: bool, body: Supply): (bool, Out) {
    if toggle then
      if body.more then (false, NeedBuffer) else (true, End)
    else if body.data.Some? then (true, Piece(body.data.value, body.more))
    else (false, if body.more then NeedBuffer else End)
  }

  /** One round: the calls of `get` while the caller leaves `body` as it is. After a piece it is called
      once more. */
  function Round(toggle: bool, body: Supply): (bool, seq<Out>) {
    var (t, first) := GetStep(toggle, body);
    if !first.Piece? then (t, [first])
    else
      var (t', second) := GetStep(t, body);
      (t', [first, second])
  }

  function RoundEnd(more: bool): Out {
    if more then NeedBuffer else End
  }

  function DataOf(body: Supply): seq<seq<Byte>> {
    if body.data.Some? then [body.data.value] else []
  }

  /** The call after a piece never gives another; so a round gives the data, if there is any, and then
      asks for more or ends. After a request the next round begins where the first did. */
  lemma OneRound(body: Supply)
    ensures forall toggle :: GetStep(toggle, body).1.Piece? ==> !GetStep(GetStep(toggle, body).0, body).1.Piece?
    ensures Round(false, body).1 == (if body.data.Some? then [Piece(body.data.value, body.more)] else [])
                                    + [RoundEnd(body.more)]
    ensures body.more ==> !Round(false, body).0
  {
    if body.data.Some? {
      var piece := Piece(body.data.value, body.more);
      assert [piece] + [RoundEnd(body.more)] == [piece, RoundEnd(body.more)];
    } else {
      assert [] + [RoundEnd(body.more)] == [RoundEnd(body.more)];
    }
  }

  /** The caller supplies one thing after the other, each when asked. */
  function Serialize(toggle: bool, supplies: seq<Supply>): (rounds: seq<seq<Out>>)
    ensures |rounds| == |supplies|
    decreases |supplies|
  {
    if supplies == [] then []
    else
      var (toggle', outs) := Round(toggle, supplies[0]);
      [outs] + Serialize(toggle', supplies[1..])
  }

  /** There is more behind every supply but the last. */
  ghost predicate Continued(supplies: seq<Supply>) {
    forall k :: 0 <= k < |supplies| - 1 ==> supplies[k].more
  }

  function Offered(supplies: seq<Supply>): seq<seq<Byte>> {
    if supplies == [] then [] else DataOf(supplies[0]) + Offered(supplies[1..])
  }

  function PiecesOf(outs: seq<Out>): seq<seq<Byte>> {
    if outs == [] then [] else (if outs[0].Piece? then [outs[0].bytes] else []) + PiecesOf(outs[1..])
  }

  function AllPieces(rounds: seq<seq<Out>>): seq<seq<Byte>> {
    if rounds == [] then [] else PiecesOf(rounds[0]) + AllPieces(rounds[1..])
  }

  lemma PiecesOfRound(body: Supply)
    ensures PiecesOf(Round(false, body).1) == DataOf(body)
  {
    OneRound(body);
    if body.data.Some? {
      assert PiecesOf([RoundEnd(body.more)]) == [];
      assert Round(false, body).1[1..] == [RoundEnd(body.more)];
    }
  }

  /** What was supplied comes out exactly once and in order, empty pieces too, and a supply without
      data gives none; each round but the last ends with a request, the last as its flag says. */
  lemma {:induction false} EachPieceOnce(supplies: seq<Supply>)
    requires Continued(supplies)
    ensures forall k :: 0 <= k < |supplies| ==>
              Serialize(false, supplies)[k] ==
              (if supplies[k].data.Some? then [Piece(supplies[k].data.value, supplies[k].more)] else [])
              + [RoundEnd(supplies[k].more)]
    ensures AllPieces(Serialize(false, supplies)) == Offered(supplies)
    decreases |supplies|
  {
    if supplies != [] {
      OneRound(supplies[0]);
      PiecesOfRound(supplies[0]);
      hide Round, PiecesOf;
      var rest := supplies[1..];
      if rest != [] {
        assert forall k :: 0 <= k < |rest| ==> rest[k] == supplies[k + 1];
        EachPieceOnce(rest);
        assert Serialize(false, supplies)[1..] == Serialize(false, rest);
      }
    }
  }

  // ---------------------------------------------------------------- parsing

  /** The caller's `value_type` while parsing: what the buffer has received, and the room left. */
  datatype Target = NoBuffer | Target(got: seq<Byte>, room: nat)

  datatype PutResult = PutResult(target: Target, n: nat, needBuffer: bool)

  /** `reader::put`: takes what fits; asks for a buffer if anything is left over, or if there is none. */
  function PutInto(target: Target, input: seq<Byte>): (r: PutResult)
    ensures r.n <= |input|
  {
    if target.NoBuffer? then PutResult(target, 0, true)
    else
      var n := if target.room < |input| then target.room else |input|;
      PutResult(Target(target.got + input[..n], target.room - n), n, n != |input|)
  }

  /** The caller's loop: on `need_buffer` keep what the buffer got, supply the next one, and put the
      rest again. Gives what all buffers received, and what is left when they run out. */
  function Receive(target: Target, input: seq<Byte>, rooms: seq<nat>): (Target, seq<Byte>, seq<Byte>, seq<nat>)
    decreases |rooms|
  {
    var r := PutInto(target, input);
    var rest := input[r.n..];
    if !r.needBuffer || rooms == [] then (r.target, [], rest, rooms)
    else
      var filled := if r.target.NoBuffer? then [] else r.target.got;
      var (t, got, left, rooms') := Receive(Target([], rooms[0]), rest, rooms[1..]);
      (t, filled + got, left, rooms')
  }

  function Held(target: Target): seq<Byte> {
    if target.NoBuffer? then [] else target.got
  }

  function Room(target: Target): nat {
    if target.NoBuffer? then 0 else target.room
  }

  function Sum(rooms: seq<nat>): nat {
    if rooms == [] then 0 else rooms[0] + Sum(rooms[1..])
  }

  lemma PutKeepsBytes(target: Target, input: seq<Byte>)
    ensures var r := PutInto(target, input);
            && Held(r.target) + input[r.n..] == Held(target) + input
            && Room(r.target) + r.n == Room(target)
            && (r.needBuffer <==> target.NoBuffer? || r.n < |input|)
            && (!r.needBuffer ==> r.n == |input|)
            && (r.n < |input| ==> Room(r.target) == 0)
  {
  }

  lemma Regroup(filled: seq<Byte>, got: seq<Byte>, held: seq<Byte>, left: seq<Byte>, rest: seq<Byte>)
    requires got + held + left == rest
    ensures (filled + got) + held + left == filled + rest
  {
  }

  /** No byte is lost, repeated or moved; and all are taken if the buffers have the room. */
  lemma {:induction false} ReceiveKeepsBytes(target: Target, input: seq<Byte>, rooms: seq<nat>)
    ensures var (t, got, left, rooms') := Receive(target, input, rooms);
            && got + Held(t) + left == Held(target) + input
            && |left| <= |input|
            && Room(t) + Sum(rooms') + |input| - |left| == Room(target) + Sum(rooms)
            && (left != [] ==> Room(t) + Sum(rooms') == 0)
    decreases |rooms|
  {
    var r := PutInto(target, input);
    var rest := input[r.n..];
    PutKeepsBytes(target, input);
    hide PutInto;
    if r.needBuffer && rooms != [] {
      var next := Target([], rooms[0]);
      ReceiveKeepsBytes(next, rest, rooms[1..]);
      var (t, got, left, rooms') := Receive(next, rest, rooms[1..]);
      assert Held(next) + rest == rest;
      Regroup(Held(r.target), got, Held(t), left, rest);
    } else {
      assert [] + Held(r.target) + rest == Held(r.target) + rest;
    }
  }

  /** Every piece in turn. */
  function ReceiveAll(target: Target, pieces: seq<seq<Byte>>, rooms: seq<nat>): (Target, seq<Byte>, seq<Byte>)
    decreases |pieces|
  {
    if pieces == [] then (target, [], [])
    else
      var (t, got, left, rooms') := Receive(target, pieces[0], rooms);
      if left != [] then (t, got, left + F.Flatten(pieces[1..]))
      else
        var (t', got', left') := ReceiveAll(t, pieces[1..], rooms');
        (t', got + got', left')
  }

  lemma Chain(held: seq<Byte>, piece: seq<Byte>, rest: seq<Byte>, got: seq<Byte>, mid: seq<Byte>,
              got': seq<Byte>, held': seq<Byte>, left': seq<Byte>)
    requires got + mid == held + piece && got' + held' + left' == mid + rest
    ensures (got + got') + held' + left' == held + (piece + rest)
  {
    Regroup(got, got', held', left', mid + rest);
    assert got + (mid + rest) == (got + mid) + rest;
    assert held + (piece + rest) == (held + piece) + rest;
  }

  lemma Stop(held: seq<Byte>, piece: seq<Byte>, rest: seq<Byte>, got: seq<Byte>, mid: seq<Byte>, left: seq<Byte>)
    requires got + mid + left == held + piece
    ensures got + mid + (left + rest) == held + (piece + rest)
  {
    assert got + mid + (left + rest) == (got + mid + left) + rest;
    assert held + (piece + rest) == (held + piece) + rest;
  }

  lemma {:induction false} ReceiveAllKeepsBytes(target: Target, pieces: seq<seq<Byte>>, rooms: seq<nat>)
    ensures var (t, got, left) := ReceiveAll(target, pieces, rooms);
            && got + Held(t) + left == Held(target) + F.Flatten(pieces)
            && |left| == if Room(target) + Sum(rooms) >= |F.Flatten(pieces)| then 0
                         else |F.Flatten(pieces)| - Room(target) - Sum(rooms)
    decreases |pieces|
  {
    if pieces == [] {
      assert [] + Held(target) + [] == Held(target) + [];
    } else {
      ReceiveKeepsBytes(target, pieces[0], rooms);
      hide Receive, Held, Room, Sum;
      var (t, got, left, rooms') := Receive(target, pieces[0], rooms);
      var rest := F.Flatten(pieces[1..]);
      assert F.Flatten(pieces) == pieces[0] + rest;
      hide F.Flatten;
      if left == [] {
        ReceiveAllKeepsBytes(t, pieces[1..], rooms');
        var (t', got', left') := ReceiveAll(t, pieces[1..], rooms');
        assert got + Held(t) + [] == got + Held(t);
        Chain(Held(target), pieces[0], rest, got, Held(t), got', Held(t'), left');
      } else {
        Stop(Held(target), pieces[0], rest, got, Held(t), left);
      }
    }
  }

  /** The pieces a writer yields for any supplies, put one by one into a reader whose receive buffers
      have any sizes with enough room in all, arrive as the concatenation of the data supplied. */
  lemma RoundTrip(supplies: seq<Supply>, rooms: seq<nat>)
    requires Continued(supplies) && Sum(rooms) >= |F.Flatten(Offered(supplies))|
    ensures var (t, got, left) := ReceiveAll(NoBuffer, AllPieces(Serialize(false, supplies)), rooms);
            got + Held(t) == F.Flatten(Offered(supplies)) && left == []
  {
    EachPieceOnce(supplies);
    var pieces := Offered(supplies);
    ReceiveAllKeepsBytes(NoBuffer, pieces, rooms);
    var (t, got, left) := ReceiveAll(NoBuffer, pieces, rooms);
    assert got + Held(t) + [] == got + Held(t);
    assert [] + F.Flatten(pieces) == F.Flatten(pieces);
  }

  // ---------------------------------------------------------------- the classes

  /** `value_type`: `data` points `offset` bytes into the caller's memory. */
  class Body {
    var data: array?<Byte>
    var offset: nat
    var size: nat
    var more: bool

    constructor ()
      ensures data == null && size == 0 && offset == 0 && more
    {
      data, offset, size, more := null, 0, 0, true;
    }

    ghost predicate Valid()
      reads this
    {
      data != null ==> offset + size <= data.Length
    }

    function AsSupply(): Supply
      reads this, data
      requires Valid()
    {
      Supply(if data == null then None else Some(data[offset..offset + size]), more)
    }

    ghost function AsTarget(): Target
      reads this, data
      requires Valid()
    {
      if data == null then NoBuffer else Target(data[..offset], size)
    }
  }

  class Writer {
    const body: Body
    var toggle: bool

    constructor (body: Body)
      ensures this.body == body && !toggle
    {
      this.body := body;
      toggle := false;
    }

    method Get() returns (out: Out)
      requires body.Valid()
      modifies this`toggle
      ensures (toggle, out) == GetStep(old(toggle), body.AsSupply())
    {
      if toggle {
        if body.more {
          toggle := false;
          return NeedBuffer;
        }
        return End;
      }
      if body.data != null {
        toggle := true;
        return Piece(body.data[body.offset..body.offset + body.size], body.more);
      }
      return if body.more then NeedBuffer else End;
    }
  }

  class Reader {
    const body: Body

    constructor (body: Body)
      ensures this.body == body
    {
      this.body := body;
    }

    /** Copies into the caller's memory, moves `data` on and takes what was used off `size`; memory
        outside the part filled is untouched. */
    method Put(buffers: seq<seq<Byte>>) returns (n: nat, needBuffer: bool)
      requires body.Valid()
      modifies body`offset, body`size, body.data
      ensures body.Valid() && body.data == old(body.data)
      ensures PutResult(body.AsTarget(), n, needBuffer) == PutInto(old(body.AsTarget()), F.Flatten(buffers))
      ensures needBuffer <==> body.data == null || n < |F.Flatten(buffers)|
      ensures n == if body.data == null then 0
                   else if old(body.size) < |F.Flatten(buffers)| then old(body.size) else |F.Flatten(buffers)|
      ensures body.data != null ==>
                forall i :: body.offset <= i < body.data.Length ==> body.data[i] == old(body.data[i])
    {
      if body.data == null {
        return 0, true;
      }
      var input := F.Flatten(buffers);
      n := if body.size < |input| then body.size else |input|;
      var from := body.offset;
      forall i | 0 <= i < n {
        body.data[from + i] := input[i];
      }
      body.offset := from + n;
      body.size := body.size - n;
      needBuffer := n != |input|;
      assert body.data[..from + n] == old(body.data[..from]) + input[..n];
    }
  }
}
