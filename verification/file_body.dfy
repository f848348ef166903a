/** `basic_file_body`: a body stored into a file by `reader::put` and read back by `writer::get`. */
module FileBody {
  import opened Words

  /** An open file: its bytes and the position of the next read or write. */
  datatype File = File(data: seq<Byte>, pos: nat) {
    predicate Valid() {
      pos <= |data|
    }
  }

  const BUFFER := 4096

  function Flatten(parts: seq<seq<Byte>>): seq<Byte> {
    if parts == [] then [] else parts[0] + Flatten(parts[1..])
  }

  lemma {:induction false} FlattenSnoc(parts: seq<seq<Byte>>, last: seq<Byte>)
    ensures Flatten(parts + [last]) == Flatten(parts) + last
  {
    if parts == [] {
      assert [] + [last] == [last] && last + [] == last;
    } else {
      assert (parts + [last])[1..] == parts[1..] + [last];
      FlattenSnoc(parts[1..], last);
    }
  }

  // ---------------------------------------------------------------- storing

  /** Writing at the position: over what is there, then beyond it. */
  function Store(f: File, bytes: seq<Byte>): (f': File)
    requires f.Valid()
    ensures f'.Valid()
  {
    var end := f.pos + |bytes|;
    File(f.data[..f.pos] + bytes + (if end < |f.data| then f.data[end..] else []), end)
  }

  /** Cutting what is stored into pieces makes no difference. */
  lemma StoreTwice(f: File, a: seq<Byte>, b: seq<Byte>)
    requires f.Valid()
    ensures Store(Store(f, a), b) == Store(f, a + b)
  {
  }

  lemma StoreInEmpty(f: File, bytes: seq<Byte>)
    requires f.Valid()
    ensures f.data == [] ==> Store(f, bytes).data == bytes
  {
  }

  /** Byte by byte: the ones before the position and behind the range stay, those in it are replaced. */
  lemma StoreAt(f: File, bytes: seq<Byte>, k: nat)
    requires f.Valid()
    ensures var f' := Store(f, bytes);
            var end := f.pos + |bytes|;
            && f'.pos == end && |f'.data| == (if end < |f.data| then |f.data| else end)
            && (f.pos <= k < end ==> f'.data[k] == bytes[k - f.pos])
            && (k < |f.data| && !(f.pos <= k < end) ==> f'.data[k] == f.data[k])
  {
  }

  function StoreAll(f: File, puts: seq<seq<seq<Byte>>>): (f': File)
    requires f.Valid()
    ensures f'.Valid()
    decreases |puts|
  {
    if puts == [] then f else StoreAll(Store(f, Flatten(puts[0])), puts[1..])
  }

  function Bodies(puts: seq<seq<seq<Byte>>>): seq<Byte> {
    if puts == [] then [] else Flatten(puts[0]) + Bodies(puts[1..])
  }

  lemma {:induction false} StoreAllIsStore(f: File, puts: seq<seq<seq<Byte>>>)
    requires f.Valid()
    ensures StoreAll(f, puts) == Store(f, Bodies(puts))
    decreases |puts|
  {
    if puts == [] {
      assert f.data[..f.pos] + [] + f.data[f.pos..] == f.data;
      assert f.data[..|f.data|] == f.data;
    } else {
      StoreAllIsStore(Store(f, Flatten(puts[0])), puts[1..]);
      StoreTwice(f, Flatten(puts[0]), Bodies(puts[1..]));
    }
  }

  // ---------------------------------------------------------------- reading back

  /** What `writer::get` gives: nothing left, an error of the file, a short read, or a piece with the
      flag that says whether more follow. */
  datatype Out = Done | ReadFailed | ShortRead | Piece(bytes: seq<Byte>, more: bool)

  /** The outcomes of one `get` with `remain_` bytes unread by its count: the file may return any
      non-empty part of what was asked for, and nothing only at its end. */
  ghost predicate CanGet(f: File, remain: nat, out: Out)
    requires f.Valid()
  {
    match out
    case Done => remain == 0
    case ReadFailed => remain > 0
    case ShortRead => remain > 0 && f.pos == |f.data|
    case Piece(bytes, more) =>
      && 0 < |bytes| <= remain && |bytes| <= BUFFER
      && f.pos + |bytes| <= |f.data|
      && bytes == f.data[f.pos..f.pos + |bytes|]
      && (more <==> remain > |bytes|)
  }

  /** Successive calls of `get` while there are pieces. */
  ghost predicate Gets(f: File, remain: nat, outs: seq<Out>)
    requires f.Valid()
    decreases |outs|
  {
    outs == [] ||
    (CanGet(f, remain, outs[0]) &&
     if outs[0].Piece? then Gets(f.(pos := f.pos + |outs[0].bytes|), remain - |outs[0].bytes|, outs[1..])
     else |outs| == 1)
  }

  function Pieces(outs: seq<Out>): seq<seq<Byte>> {
    if outs == [] then []
    else (if outs[0].Piece? then [outs[0].bytes] else []) + Pieces(outs[1..])
  }

  /** The calls came to an end by themselves: nothing left, or a last piece without more to follow. */
  ghost predicate Finished(outs: seq<Out>) {
    outs != [] && (outs[|outs| - 1].Done? || (outs[|outs| - 1].Piece? && !outs[|outs| - 1].more))
  }

  lemma PiecesCons(first: Out, rest: seq<Out>)
    requires first.Piece?
    ensures Flatten(Pieces([first] + rest)) == first.bytes + Flatten(Pieces(rest))
  {
  }

  /** From any position and count: what the pieces are, and that there are at most `remain` of them. */
  lemma {:induction false} GetsRead(f: File, remain: nat, outs: seq<Out>)
    requires f.Valid() && Gets(f, remain, outs)
    ensures var read := Flatten(Pieces(outs));
            && |read| <= remain && f.pos + |read| <= |f.data|
            && read == f.data[f.pos..f.pos + |read|]
            && (Finished(outs) ==> |read| == remain)
            && |outs| <= remain + 1
            && (outs != [] && outs[|outs| - 1].ShortRead? ==> f.pos + |read| == |f.data| && |read| < remain)
    decreases |outs|
  {
    if outs != [] && outs[0].Piece? {
      var n := |outs[0].bytes|;
      var rest := outs[1..];
      GetsRead(f.(pos := f.pos + n), remain - n, rest);
      var read := Flatten(Pieces(rest));
      assert outs == [outs[0]] + rest;
      PiecesCons(outs[0], rest);
      assert f.data[f.pos..f.pos + n] + f.data[f.pos + n..f.pos + n + |read|] == f.data[f.pos..f.pos + n + |read|];
      if rest != [] {
        assert outs[|outs| - 1] == rest[|rest| - 1];
      }
    }
  }

  /** No call follows a piece whose flag says that it is the last. */
  ghost predicate StopsAtLast(outs: seq<Out>) {
    forall k :: 0 <= k < |outs| - 1 && outs[k].Piece? ==> outs[k].more
  }

  /** A caller that heeds the flag makes at most `remain` calls, and one if there is nothing to read. */
  lemma {:induction false} CallsBounded(f: File, remain: nat, outs: seq<Out>)
    requires f.Valid() && Gets(f, remain, outs) && StopsAtLast(outs)
    ensures |outs| <= if remain == 0 then 1 else remain
    decreases |outs|
  {
    if |outs| > 1 {
      var rest := outs[1..];
      assert forall k :: 0 <= k < |rest| ==> rest[k] == outs[k + 1];
      assert outs[0].more;
      CallsBounded(f.(pos := f.pos + |outs[0].bytes|), remain - |outs[0].bytes|, rest);
    }
  }

  /** Each piece has between 1 and 4096 bytes, and its flag is true exactly while bytes of the count are
      still unread after it. */
  lemma {:induction false} PieceFlags(f: File, remain: nat, outs: seq<Out>, k: nat)
    requires f.Valid() && Gets(f, remain, outs) && k < |outs| && outs[k].Piece?
    ensures 0 < |outs[k].bytes| <= BUFFER
    ensures outs[k].more <==> |Flatten(Pieces(outs[..k + 1]))| < remain
    decreases k
  {
    var rest := outs[1..];
    if k == 0 {
      assert outs[..1] == [outs[0]] + [];
      PiecesCons(outs[0], []);
    } else {
      PieceFlags(f.(pos := f.pos + |outs[0].bytes|), remain - |outs[0].bytes|, rest, k - 1);
      assert outs[..k + 1] == [outs[0]] + rest[..k];
      PiecesCons(outs[0], rest[..k]);
    }
  }

  /** The writer takes `remain_` from the cached file size and reads from the file's position. It can
      come to an end only if that position was 0; then it has given the whole file. */
  lemma WriterGivesWholeFile(f: File, outs: seq<Out>)
    requires f.Valid() && Gets(f, |f.data|, outs) && Finished(outs)
    ensures f.pos == 0 && Flatten(Pieces(outs)) == f.data
  {
    GetsRead(f, |f.data|, outs);
    assert f.data[0..|f.data|] == f.data;
  }

  /** From position 0 it never runs into the end of the file before its count is used up. */
  lemma NoShortReadFromStart(f: File, outs: seq<Out>)
    requires f.Valid() && f.pos == 0 && Gets(f, |f.data|, outs) && outs != []
    ensures !outs[|outs| - 1].ShortRead?
  {
    GetsRead(f, |f.data|, outs);
  }

  /** And it can always go on: until finished, some `get` gives a piece or reports nothing left. */
  lemma GetIsPossible(f: File, remain: nat)
    requires f.Valid() && f.pos + remain <= |f.data|
    ensures exists out :: CanGet(f, remain, out) && (out.Done? || out.Piece?)
  {
    if remain == 0 {
      assert CanGet(f, remain, Done);
    } else {
      assert CanGet(f, remain, Piece(f.data[f.pos..f.pos + 1], remain > 1));
    }
  }

  /** Byte by byte, for example. */
  lemma {:induction false} FinishedCalls(f: File, remain: nat) returns (outs: seq<Out>)
    requires f.Valid() && f.pos + remain <= |f.data|
    ensures Gets(f, remain, outs) && Finished(outs)
    decreases remain
  {
    if remain == 0 {
      outs := [Done];
    } else {
      var first := Piece(f.data[f.pos..f.pos + 1], remain > 1);
      var rest := [];
      if remain > 1 {
        rest := FinishedCalls(f.(pos := f.pos + 1), remain - 1);
      }
      outs := [first] + rest;
      assert outs[1..] == rest;
    }
  }

  /** So the writer can come to an end exactly when its count fits the file from its position; and
      with the size of the whole file as its count, exactly from position 0. */
  lemma FinishesExactlyFromStart(f: File, remain: nat)
    requires f.Valid()
    ensures (exists outs :: Gets(f, remain, outs) && Finished(outs)) <==> f.pos + remain <= |f.data|
    ensures (exists outs :: Gets(f, |f.data|, outs) && Finished(outs)) <==> f.pos == 0
  {
    forall outs, n: nat | Gets(f, n, outs) && Finished(outs)
      ensures f.pos + n <= |f.data|
    {
      GetsRead(f, n, outs);
    }
    if f.pos + remain <= |f.data| {
      var outs := FinishedCalls(f, remain);
    }
    if f.pos == 0 {
      var outs := FinishedCalls(f, |f.data|);
    }
  }

  /** Whatever the file held, and whatever the calls of `put` and their buffers were: after reopening at
      position 0 the pieces of any finished sequence of `get` make up what one store of all the bytes
      leaves; for a file that was empty, the bytes themselves. */
  lemma StoredIsReadBack(f: File, puts: seq<seq<seq<Byte>>>, outs: seq<Out>)
    requires f.Valid()
    requires var data := StoreAll(f, puts).data; Gets(File(data, 0), |data|, outs) && Finished(outs)
    ensures Flatten(Pieces(outs)) == Store(f, Bodies(puts)).data
    ensures f.data == [] ==> Flatten(Pieces(outs)) == Bodies(puts)
  {
    hide *;
    StoreAllIsStore(f, puts);
    var data := StoreAll(f, puts).data;
    WriterGivesWholeFile(File(data, 0), outs);
    StoreInEmpty(f, Bodies(puts));
  }

  // ---------------------------------------------------------------- the classes

  /** One call on a file: what was asked for or given to it, and what came of it. */
  datatype ReadCall = ReadCall(asked: nat, bytes: seq<Byte>, failed: bool)
  datatype WriteCall = WriteCall(bytes: seq<Byte>, n: nat, failed: bool)

  /** A file handle; reads may be short, reads and writes may fail. The ghost fields
      record the calls made on it; of a size query, whether it failed. */
  class Handle {
    var f: File
    var isOpen: bool
    ghost var readCalls: seq<ReadCall>
    ghost var writeCalls: seq<WriteCall>
    ghost var sizeCalls: seq<bool>

    constructor (data: seq<Byte>)
      ensures f == File(data, 0) && isOpen
      ensures readCalls == [] && writeCalls == [] && sizeCalls == []
    {
      f, isOpen := File(data, 0), true;
      readCalls, writeCalls, sizeCalls := [], [], [];
    }

    method Read(n: nat) returns (bytes: seq<Byte>, failed: bool)
      requires f.Valid()
      modifies this`f, this`readCalls
      ensures f.Valid() && f.data == old(f.data)
      ensures readCalls == old(readCalls) + [ReadCall(n, bytes, failed)]
      ensures !failed ==> |bytes| <= n && old(f.pos) + |bytes| <= |f.data|
      ensures !failed ==> bytes == f.data[old(f.pos)..old(f.pos) + |bytes|] && f.pos == old(f.pos) + |bytes|
      ensures !failed && bytes == [] ==> n == 0 || f.pos == |f.data|
    {
      failed, bytes := !isOpen, [];
      if isOpen {
        failed := *;
      }
      var left := |f.data| - f.pos;
      if !failed && n > 0 && left > 0 {
        var k :| 0 < k <= n && k <= left;
        bytes := f.data[f.pos..f.pos + k];
        f := f.(pos := f.pos + k);
      }
      readCalls := readCalls + [ReadCall(n, bytes, failed)];
    }

    method Write(bytes: seq<Byte>) returns (n: nat, failed: bool)
      requires f.Valid()
      modifies this`f, this`writeCalls
      ensures writeCalls == old(writeCalls) + [WriteCall(bytes, n, failed)]
      ensures n <= |bytes| && (!failed ==> n == |bytes|)
      ensures f.Valid() && f == Store(old(f), bytes[..n])
    {
      if !isOpen {
        n, failed := 0, true;
      } else if * {
        n :| 0 <= n <= |bytes|;
        failed := true;
      } else {
        n, failed := |bytes|, false;
      }
      StoreNothing(f);
      f := Store(f, bytes[..n]);
      writeCalls := writeCalls + [WriteCall(bytes, n, failed)];
    }

    method Size() returns (size: nat, failed: bool)
      modifies this`sizeCalls
      ensures sizeCalls == old(sizeCalls) + [failed]
      ensures size == if failed then 0 else |f.data|
      ensures !isOpen ==> failed
    {
      failed := !isOpen;
      if isOpen {
        failed := *;
      }
      size := if failed then 0 else |f.data|;
      sizeCalls := sizeCalls + [failed];
    }

    method Close()
      modifies this`isOpen
      ensures !isOpen
    {
      isOpen := false;
    }
  }

  lemma StoreNothing(f: File)
    requires f.Valid()
    ensures Store(f, []) == f
  {
  }

  /** `value_type`: the handle, and the size it had when it was set. */
  class Body {
    var file: Handle?
    var fileSize: nat

    constructor ()
      ensures file == null && fileSize == 0
    {
      file, fileSize := null, 0;
    }

    /** Closes the file set before, and keeps the new one's position. Asking for the size can fail,
        and does for a file that is not open; the size set is then the 0 that comes with the error. */
    method Reset(handle: Handle) returns (failed: bool)
      requires file != handle
      modifies this, file, handle`sizeCalls
      ensures handle.sizeCalls == old(handle.sizeCalls) + [failed]
      ensures file == handle && fileSize == if failed then 0 else |handle.f.data|
      ensures !handle.isOpen ==> failed
      ensures old(file) != null ==> !old(file).isOpen
    {
      if file != null {
        file.Close();
      }
      file := handle;
      fileSize, failed := handle.Size();
    }
  }

  class BodyReader {
    const body: Body

    constructor (body: Body)
      ensures this.body == body
    {
      this.body := body;
    }

    /** Stores the buffers one after the other; on an error, what was stored is still counted. It writes
        each buffer once, in order, and stops with an error exactly at the first write that fails. */
    method Put(buffers: seq<seq<Byte>>) returns (nwritten: nat, failed: bool)
      requires body.file != null && body.file.f.Valid()
      modifies body.file`f, body.file`writeCalls
      ensures body.file.f.Valid()
      ensures old(body.file.writeCalls) <= body.file.writeCalls
      ensures WritesInTurn(body.file.writeCalls[|old(body.file.writeCalls)|..], buffers, failed)
      ensures nwritten <= |Flatten(buffers)| && (!failed ==> nwritten == |Flatten(buffers)|)
      ensures body.file.f == Store(old(body.file.f), Flatten(buffers)[..nwritten])
    {
      nwritten := 0;
      var file := body.file;
      ghost var before := file.f;
      ghost var calls: seq<WriteCall> := [];
      PutNone(before, buffers);
      hide *;
      for i := 0 to |buffers|
        invariant file.f.Valid()
        invariant HasStored(before, file.f, buffers, i, nwritten)
        invariant file.writeCalls == old(body.file.writeCalls) + calls && |calls| == i
        invariant forall k :: 0 <= k < i ==> calls[k].bytes == buffers[k] && !calls[k].failed
      {
        ghost var mid := file.f;
        var n, bad := file.Write(buffers[i]);
        calls := calls + [WriteCall(buffers[i], n, bad)];
        PutOne(before, mid, file.f, buffers, i, nwritten, n);
        nwritten := nwritten + n;
        if bad {
          InTurn(calls, buffers, true);
          return nwritten, true;
        }
      }
      PutEach(before, file.f, buffers, nwritten);
      InTurn(calls, buffers, false);
      failed := false;
    }
  }

  /** The buffers written one after the other: all of them, or up to the first write that failed. */
  ghost predicate WritesInTurn(calls: seq<WriteCall>, buffers: seq<seq<Byte>>, failed: bool) {
    && |calls| <= |buffers|
    && (forall k :: 0 <= k < |calls| ==> calls[k].bytes == buffers[k])
    && (forall k :: 0 <= k < |calls| ==> (calls[k].failed <==> failed && k == |calls| - 1))
    && (failed ==> calls != [])
    && (!failed ==> |calls| == |buffers|)
  }

  lemma InTurn(calls: seq<WriteCall>, buffers: seq<seq<Byte>>, failed: bool)
    requires |calls| <= |buffers| && (if failed then calls != [] else |calls| == |buffers|)
    requires forall k :: 0 <= k < |calls| ==> calls[k].bytes == buffers[k]
    requires forall k :: 0 <= k < |calls| ==> (calls[k].failed <==> failed && k == |calls| - 1)
    ensures WritesInTurn(calls, buffers, failed)
  {
  }

  /** `after` is `before` with the first `i` buffers stored, `n` bytes in all. */
  ghost predicate HasStored(before: File, after: File, buffers: seq<seq<Byte>>, i: nat, n: nat)
    requires before.Valid() && i <= |buffers|
  {
    n == |Flatten(buffers[..i])| && after == Store(before, Flatten(buffers[..i]))
  }

  lemma PutNone(f: File, buffers: seq<seq<Byte>>)
    requires f.Valid()
    ensures HasStored(f, f, buffers, 0, 0)
  {
    StoreNothing(f);
  }

  lemma PutOne(before: File, mid: File, after: File, buffers: seq<seq<Byte>>, i: nat, k: nat, n: nat)
    requires before.Valid() && mid.Valid() && i < |buffers| && n <= |buffers[i]|
    requires HasStored(before, mid, buffers, i, k) && after == Store(mid, buffers[i][..n])
    ensures k + n <= |Flatten(buffers)| && after == Store(before, Flatten(buffers)[..k + n])
    ensures n == |buffers[i]| ==> HasStored(before, after, buffers, i + 1, k + n)
  {
    var front := Flatten(buffers[..i]);
    FlattenSplit(buffers, i, n);
    StoreTwice(before, front, buffers[i][..n]);
    hide Store;
    if n == |buffers[i]| {
      assert buffers[..i + 1] == buffers[..i] + [buffers[i]] && buffers[i][..n] == buffers[i];
      FlattenSnoc(buffers[..i], buffers[i]);
    }
    hide Flatten;
  }

  lemma PutEach(before: File, after: File, buffers: seq<seq<Byte>>, n: nat)
    requires before.Valid() && HasStored(before, after, buffers, |buffers|, n)
    ensures n == |Flatten(buffers)| && after == Store(before, Flatten(buffers)[..n])
  {
    hide Store, Flatten;
    assert buffers[..|buffers|] == buffers;
    assert Flatten(buffers)[..n] == Flatten(buffers);
  }

  lemma FlattenSplit(buffers: seq<seq<Byte>>, i: nat, n: nat)
    requires i < |buffers| && n <= |buffers[i]|
    ensures |Flatten(buffers[..i])| + n <= |Flatten(buffers)|
    ensures Flatten(buffers)[..|Flatten(buffers[..i])| + n] == Flatten(buffers[..i]) + buffers[i][..n]
  {
    FlattenAppend(buffers[..i], buffers[i..]);
    assert buffers == buffers[..i] + buffers[i..];
    assert Flatten(buffers[i..]) == buffers[i] + Flatten(buffers[i + 1..]);
  }

  lemma {:induction false} FlattenAppend(a: seq<seq<Byte>>, b: seq<seq<Byte>>)
    ensures Flatten(a + b) == Flatten(a) + Flatten(b)
  {
    if a == [] {
      assert a + b == b;
    } else {
      assert (a + b)[1..] == a[1..] + b;
      FlattenAppend(a[1..], b);
    }
  }

  class BodyWriter {
    const body: Body
    var remain: nat
    const buf: array<Byte>

    constructor (body: Body)
      requires body.file != null && body.file.isOpen
      ensures this.body == body && remain == body.fileSize
      ensures fresh(buf) && buf.Length == BUFFER
    {
      this.body := body;
      remain := body.fileSize;
      buf := new Byte[BUFFER](_ => 0);
    }

    /** Each `get` is one of the outcomes of `CanGet`; a piece is left in `buf_`, and the file and
        `remain_` move on by its length. While bytes of the count are left it makes one read, of as many
        as there is room for; the outcome is an error of the file exactly when that read failed, and
        otherwise a piece unless the file is at its end. */
    method Get() returns (out: Out)
      requires body.file != null && body.file.f.Valid() && buf.Length == BUFFER
      modifies this`remain, buf, body.file`f, body.file`readCalls
      ensures body.file.f.Valid() && body.file.f.data == old(body.file.f.data)
      ensures CanGet(old(body.file.f), old(remain), out)
      ensures out.Piece? ==>
                && |out.bytes| <= buf.Length && buf[..|out.bytes|] == out.bytes
                && remain == old(remain) - |out.bytes|
                && body.file.f.pos == old(body.file.f.pos) + |out.bytes|
      ensures !out.Piece? ==> remain == old(remain)
      ensures old(remain) == 0 ==> body.file.readCalls == old(body.file.readCalls)
      ensures old(remain) > 0 ==>
                && |body.file.readCalls| == |old(body.file.readCalls)| + 1
                && old(body.file.readCalls) < body.file.readCalls
                && var call := body.file.readCalls[|old(body.file.readCalls)|];
                && call.asked == (if old(remain) > BUFFER then BUFFER else old(remain))
                && (out.ReadFailed? <==> call.failed)
                && (!call.failed && old(body.file.f.pos) < |body.file.f.data| ==> out.Piece? && out.bytes == call.bytes)
    {
      var amount := if remain > buf.Length then buf.Length else remain;
      if amount == 0 {
        return Done;
      }
      var bytes, failed := body.file.Read(amount);
      if failed {
        return ReadFailed;
      }
      if bytes == [] {
        return ShortRead;
      }
      forall i | 0 <= i < |bytes| {
        buf[i] := bytes[i];
      }
      remain := remain - |bytes|;
      assert buf[..|bytes|] == bytes;
      return Piece(bytes, remain > 0);
    }
  }
}
