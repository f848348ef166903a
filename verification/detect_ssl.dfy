/** Detecting a TLS client_hello from the first bytes of a stream, however they arrive. */
module DetectSsl {
  import opened Words

  datatype Tri = Yes | No | Indeterminate

  /** A big-endian number. */
  function Number(bytes: seq<Byte>): (n: nat) {
    if bytes == [] then 0 else Number(bytes[..|bytes| - 1]) * 256 + bytes[|bytes| - 1]
  }

  /** `is_tls_client_hello`: looks at no more than the first nine bytes. */
  function IsTlsClientHello(data: seq<Byte>): Tri {
    var n := |data|;
    if n < 1 then Indeterminate
    else if data[0] != 0x16 then No
    else if n < 5 then Indeterminate
    else if Number(data[3..5]) < 34 then No
    else if n < 6 then Indeterminate
    else if data[5] != 0x01 then No
    else if n < 9 then Indeterminate
    else if Number(data[6..9]) + 4 > Number(data[3..5]) then No
    else Yes
  }

  /** A handshake record of at least 34 bytes whose message is a client_hello that fits into it. */
  ghost predicate IsHello(data: seq<Byte>) {
    && |data| >= 9
    && data[0] == 0x16
    && Number(data[3..5]) >= 34
    && data[5] == 0x01
    && Number(data[6..9]) + 4 <= Number(data[3..5])
  }

  /** With nine bytes there is always an answer; an answer is kept on every extension, and is right
      about every stream that begins with these bytes. */
  lemma AnswerIsFinal(data: seq<Byte>, more: seq<Byte>)
    ensures |data| >= 9 ==> !IsTlsClientHello(data).Indeterminate?
    ensures !IsTlsClientHello(data).Indeterminate? ==> IsTlsClientHello(data + more) == IsTlsClientHello(data)
    ensures IsTlsClientHello(data).Yes? ==> IsHello(data + more)
    ensures IsTlsClientHello(data).No? ==> !IsHello(data + more)
  {
    var all := data + more;
    assert |data| >= 5 ==> all[3..5] == data[3..5];
    assert |data| >= 9 ==> all[6..9] == data[6..9];
  }

  /** But an answer can come later than the bytes allow. The least length the message can have once its
      first one or two length bytes are there: */
  function LeastLength(data: seq<Byte>): nat
    requires |data| >= 7
  {
    data[6] as int * 65536 + if |data| >= 8 then data[7] as int * 256 else 0
  }

  /** Undecided bytes already rule a client_hello out exactly when the message cannot fit into the
      record any more; and they already force one exactly when there are eight and the message fits
      whatever its last length byte is. */
  lemma LateExactly(data: seq<Byte>)
    requires IsTlsClientHello(data).Indeterminate?
    ensures (forall more: seq<Byte> :: !IsHello(data + more)) <==>
            |data| >= 7 && LeastLength(data) + 4 > Number(data[3..5])
    ensures (forall more: seq<Byte> :: |data + more| >= 9 ==> IsHello(data + more)) <==>
            |data| == 8 && LeastLength(data) + 0xFF + 4 <= Number(data[3..5])
  {
    if |data| >= 7 && LeastLength(data) + 4 > Number(data[3..5]) {
      forall more: seq<Byte>
        ensures !IsHello(data + more)
      {
        TooLong(data, more);
      }
    } else {
      SomeHello(data);
    }
    if |data| == 8 && LeastLength(data) + 0xFF + 4 <= Number(data[3..5]) {
      forall more: seq<Byte> | |data + more| >= 9
        ensures IsHello(data + more)
      {
        AlwaysFits(data, more);
      }
    } else {
      SomeOther(data);
    }
  }

  lemma TooLong(data: seq<Byte>, more: seq<Byte>)
    requires |data| >= 7 && LeastLength(data) + 4 > Number(data[3..5])
    ensures !IsHello(data + more)
  {
    var all := data + more;
    if |all| >= 9 {
      assert all[3..5] == data[3..5];
      LengthOf(all);
    }
  }

  lemma AlwaysFits(data: seq<Byte>, more: seq<Byte>)
    requires IsTlsClientHello(data).Indeterminate? && |data| == 8 && more != []
    requires LeastLength(data) + 0xFF + 4 <= Number(data[3..5])
    ensures IsHello(data + more)
  {
    var all := data + more;
    assert all[3..5] == data[3..5];
    LengthOf(all);
  }

  /** The missing bytes can be chosen so that a client_hello comes out. */
  lemma SomeHello(data: seq<Byte>)
    requires IsTlsClientHello(data).Indeterminate?
    requires |data| >= 7 ==> LeastLength(data) + 4 <= Number(data[3..5])
    ensures exists more: seq<Byte> :: IsHello(data + more)
  {
    var hello: seq<Byte> := [0x16, 3, 1, 0xFF, 0xFF, 1, 0, 0, 0];
    var more := hello[|data|..];
    var all := data + more;
    assert |all| == 9 && all[0] == 0x16 && all[5] == 1;
    assert all[3..5] == [all[3], all[4]];
    TwoBytes(all[3], all[4]);
    assert |data| >= 5 ==> all[3..5] == data[3..5];
    LengthOf(all);
    assert IsHello(data + more);
  }

  /** And, short of eight bytes that leave room, so that it does not. */
  lemma SomeOther(data: seq<Byte>)
    requires IsTlsClientHello(data).Indeterminate?
    requires |data| == 8 ==> LeastLength(data) + 0xFF + 4 > Number(data[3..5])
    ensures exists more: seq<Byte> :: |data + more| >= 9 && !IsHello(data + more)
  {
    var other: seq<Byte> := [0x16, 3, 1, 0xFF, 0xFF, 1, 0xFF, 0xFF, 0xFF];
    var more := other[|data|..];
    var all := data + more;
    assert |all| == 9;
    assert all[3..5] == [all[3], all[4]];
    TwoBytes(all[3], all[4]);
    assert |data| >= 5 ==> all[3..5] == data[3..5];
    LengthOf(all);
    assert !IsHello(data + more);
  }

  lemma LengthOf(all: seq<Byte>)
    requires |all| >= 9
    ensures Number(all[6..9]) == LeastLength(all) + all[8]
  {
    assert all[6..9] == [all[6], all[7], all[8]];
    ThreeBytes(all[6], all[7], all[8]);
  }

  /** For example: these seven bytes rule a client_hello out, since no message of 65536 bytes or more
      fits into a record. */
  lemma AnswerCanBeLate()
    ensures IsTlsClientHello([0x16, 3, 1, 0xFF, 0xFF, 1, 1]).Indeterminate?
    ensures forall more: seq<Byte> :: !IsHello([0x16, 3, 1, 0xFF, 0xFF, 1, 1] + more)
  {
    var data: seq<Byte> := [0x16, 3, 1, 0xFF, 0xFF, 1, 1];
    assert data[3..5] == [0xFF, 0xFF];
    TwoBytes(0xFF, 0xFF);
    LateExactly(data);
  }

  lemma TwoBytes(a: Byte, b: Byte)
    ensures Number([a, b]) == a as int * 256 + b
  {
    assert [a, b][..1] == [a] && [a][..0] == [];
    assert Number([a]) == a;
  }

  lemma ThreeBytes(a: Byte, b: Byte, c: Byte)
    ensures Number([a, b, c]) == (a as int * 256 + b) * 256 + c
  {
    assert [a, b, c][..2] == [a, b];
    TwoBytes(a, b);
  }

  // ---------------------------------------------------------------- the read loop

  /** One result of `read_some`. */
  datatype Read = Read(data: seq<Byte>, failed: bool)

  function Concat(results: seq<Read>): seq<Byte> {
    if results == [] then [] else results[0].data + Concat(results[1..])
  }

  /** How the loop ends: with the answer and `ec` it returns, or still asking for a read. */
  datatype Outcome = Returned(answer: bool, failed: bool) | Asking

  /** The loop of `detect_ssl` when its reads give these results in turn: how it ends, the buffer then,
      and how many reads it made. */
  function Detect(buffer: seq<Byte>, results: seq<Read>): (Outcome, seq<Byte>, nat)
    decreases |results|
  {
    var result := IsTlsClientHello(buffer);
    if !result.Indeterminate? then (Returned(result.Yes?, false), buffer, 0)
    else if results == [] then (Asking, buffer, 0)
    else
      var buffer' := buffer + results[0].data;
      if results[0].failed then (Returned(false, true), buffer', 1)
      else
        var (outcome, b, n) := Detect(buffer', results[1..]);
        (outcome, b, n + 1)
  }

  ghost predicate Clean(results: seq<Read>) {
    forall k :: 0 <= k < |results| ==> !results[k].failed && results[k].data != []
  }

  /** Without read errors, for every way to cut the stream into non-empty reads, the loop ends as soon
      as there is an answer, with the answer the whole stream has; it keeps in the buffer exactly what
      was read, and needs no read once nine bytes are there. */
  lemma {:induction false} DetectIsTheWholeAnswer(buffer: seq<Byte>, results: seq<Read>)
    requires Clean(results)
    ensures var (outcome, b, n) := Detect(buffer, results);
            var whole := IsTlsClientHello(buffer + Concat(results));
            && outcome == (if whole.Indeterminate? then Asking else Returned(whole.Yes?, false))
            && n <= |results| && b == buffer + Concat(results[..n])
            && (n > 0 ==> |buffer| + n <= 9)
    decreases |results|
  {
    AnswerIsFinal(buffer, Concat(results));
    if IsTlsClientHello(buffer).Indeterminate? && results != [] {
      var buffer' := buffer + results[0].data;
      assert buffer' + Concat(results[1..]) == buffer + Concat(results);
      assert results[0].data != [];
      assert forall k :: 0 <= k < |results[1..]| ==> results[1..][k] == results[k + 1];
      DetectIsTheWholeAnswer(buffer', results[1..]);
      var n := Detect(buffer', results[1..]).2;
      assert results[..n + 1][0] == results[0] && results[..n + 1][1..] == results[1..][..n];
      assert buffer' + Concat(results[1..][..n]) == buffer + Concat(results[..n + 1]);
      AnswerIsFinal(buffer', []);
      assert buffer' + [] == buffer';
    } else {
      assert buffer + Concat(results[..0]) == buffer;
      assert buffer + [] == buffer;
    }
  }

  /** So two ways to cut the same stream give the same outcome. */
  lemma ChunkingDoesNotMatter(buffer: seq<Byte>, one: seq<Read>, other: seq<Read>)
    requires Clean(one) && Clean(other) && Concat(one) == Concat(other)
    ensures Detect(buffer, one).0 == Detect(buffer, other).0
    ensures buffer == [] ==> Detect([], one).2 <= 9 && Detect([], other).2 <= 9
  {
    DetectIsTheWholeAnswer(buffer, one);
    DetectIsTheWholeAnswer(buffer, other);
  }

  /** A read error ends the loop without an answer, whatever the bytes that came with it. */
  lemma {:induction false} ErrorAnswersFalse(buffer: seq<Byte>, results: seq<Read>)
    requires Detect(buffer, results).0.Returned? && Detect(buffer, results).0.failed
    ensures !Detect(buffer, results).0.answer
    ensures var n := Detect(buffer, results).2;
            && 0 < n <= |results| && results[n - 1].failed
            && Detect(buffer, results).1 == buffer + Concat(results[..n])
            && IsTlsClientHello(buffer + Concat(results[..n - 1])).Indeterminate?
    decreases |results|
  {
    hide IsTlsClientHello;
    if results[0].failed {
      assert results[..1] == [results[0]] && results[..1][1..] == [] && results[..0] == [];
      assert buffer + Concat(results[..0]) == buffer;
      assert Concat(results[..1]) == results[0].data + [];
    } else {
      var buffer' := buffer + results[0].data;
      ErrorAnswersFalse(buffer', results[1..]);
      var n := Detect(buffer', results[1..]).2;
      assert results[..n + 1][0] == results[0] && results[..n + 1][1..] == results[1..][..n];
      assert results[..n][0] == results[0] && results[..n][1..] == results[1..][..n - 1];
      assert buffer' + Concat(results[1..][..n]) == buffer + Concat(results[..n + 1]);
      assert buffer' + Concat(results[1..][..n - 1]) == buffer + Concat(results[..n]);
    }
  }

  /** A stream that gives the bytes still to come in pieces of its own choosing, or fails. `log` and
      `limits` record the results of the reads made and how much each asked for. */
  class Stream {
    var rest: seq<Byte>
    ghost var log: seq<Read>
    ghost var limits: seq<nat>

    constructor (bytes: seq<Byte>)
      ensures rest == bytes && log == [] && limits == []
    {
      rest := bytes;
      log, limits := [], [];
    }

    method ReadSome(limit: nat) returns (r: Read)
      requires limit > 0
      modifies this
      ensures |r.data| <= limit && old(rest) == r.data + rest
      ensures !r.failed ==> r.data != []
      ensures log == old(log) + [r] && limits == old(limits) + [limit]
    {
      if * {
        r := Read([], true);
      } else if rest == [] {
        r := Read([], true);
      } else {
        var n :| 0 < n <= limit && n <= |rest|;
        r := Read(rest[..n], false);
        rest := rest[n..];
      }
      log, limits := log + [r], limits + [limit];
    }
  }

  /** What may be asked for with `size` bytes in the buffer: at most 1536 and what fits, and no less than
      512 unless that is all that fits. */
  ghost predicate FairSize(limit: nat, size: nat, maxSize: nat) {
    limit <= 1536 && size + limit <= maxSize && (limit >= 512 || size + limit == maxSize)
  }

  ghost predicate Fair(limits: seq<nat>, buffer: seq<Byte>, results: seq<Read>, maxSize: nat) {
    && |limits| == |results|
    && forall k :: 0 <= k < |results| ==> FairSize(limits[k], |buffer + Concat(results[..k])|, maxSize)
  }

  lemma FullAtZero(limit: nat, size: nat, maxSize: nat)
    requires FairSize(limit, size, maxSize)
    ensures size + limit <= maxSize && (limit == 0 ==> size == maxSize)
  {
  }

  lemma FairSnoc(limits: seq<nat>, buffer: seq<Byte>, results: seq<Read>, maxSize: nat, limit: nat, last: Read)
    requires Fair(limits, buffer, results, maxSize) && FairSize(limit, |buffer + Concat(results)|, maxSize)
    ensures Fair(limits + [limit], buffer, results + [last], maxSize)
  {
    hide FairSize, Concat;
    assert (results + [last])[..|results|] == results;
    assert forall k :: 0 <= k < |results| ==> (results + [last])[..k] == results[..k];
  }

  /** The caller's dynamic buffer. */
  class Buffer {
    var data: seq<Byte>
    const maxSize: nat
    var capacity: nat

    constructor (maxSize: nat)
      ensures data == [] && this.maxSize == maxSize && capacity == 0
    {
      data, capacity := [], 0;
      this.maxSize := maxSize;
    }

    /** `read_size(buffer, 1536)`: prefers existing room, never exceeds the limits. */
    function ReadSize(): (n: nat)
      reads this
      requires |data| <= maxSize
      ensures FairSize(n, |data|, maxSize)
      ensures 512 <= capacity - |data| <= 1536 && capacity <= maxSize ==> n == capacity - |data|
    {
      var room := if capacity - |data| > 512 then capacity - |data| else 512;
      var limit := if maxSize - |data| < 1536 then maxSize - |data| else 1536;
      if room < limit then room else limit
    }

    method Commit(bytes: seq<Byte>)
      requires |data| + |bytes| <= maxSize
      modifies this
      ensures data == old(data) + bytes
    {
      data := data + bytes;
      if capacity < |data| {
        capacity := |data|;
      }
    }
  }

  /** Every shorter prefix of the reads leaves the answer open. */
  ghost predicate Undecided(buffer: seq<Byte>, results: seq<Read>) {
    forall k :: 0 <= k < |results| ==> IsTlsClientHello(buffer + Concat(results[..k])).Indeterminate?
  }

  /** Then the reads are all made. */
  lemma {:induction false} RunOf(buffer: seq<Byte>, results: seq<Read>)
    requires Clean(results)
    requires Undecided(buffer, results)
    ensures var whole := IsTlsClientHello(buffer + Concat(results));
            Detect(buffer, results) ==
            (if whole.Indeterminate? then Asking else Returned(whole.Yes?, false), buffer + Concat(results), |results|)
    decreases |results|
  {
    hide IsTlsClientHello;
    if results == [] {
      assert buffer + Concat(results) == buffer;
    } else {
      assert results[..0] == [] && buffer + Concat(results[..0]) == buffer;
      var buffer' := buffer + results[0].data;
      var rest := results[1..];
      assert forall k :: 0 <= k < |rest| ==> rest[k] == results[k + 1];
      forall k | 0 <= k < |rest|
        ensures IsTlsClientHello(buffer' + Concat(rest[..k])).Indeterminate?
      {
        assert results[..k + 1][0] == results[0] && results[..k + 1][1..] == rest[..k];
        assert buffer' + Concat(rest[..k]) == buffer + Concat(results[..k + 1]);
      }
      RunOf(buffer', rest);
      assert buffer' + Concat(rest) == buffer + Concat(results);
    }
  }

  lemma {:induction false} ConcatSnoc(results: seq<Read>, last: Read)
    ensures Concat(results + [last]) == Concat(results) + last.data
    decreases |results|
  {
    if results == [] {
      assert results + [last] == [last] && [last][1..] == [];
      assert last.data + [] == last.data;
    } else {
      assert (results + [last])[1..] == results[1..] + [last];
      ConcatSnoc(results[1..], last);
    }
  }

  lemma {:induction false} FailAfter(buffer: seq<Byte>, results: seq<Read>, last: Read)
    requires Detect(buffer, results) == (Asking, buffer + Concat(results), |results|) && last.failed
    ensures Detect(buffer, results + [last]) ==
            (Returned(false, true), buffer + Concat(results) + last.data, |results| + 1)
    decreases |results|
  {
    if results == [] {
      assert results + [last] == [last];
      assert buffer + Concat(results) == buffer;
    } else {
      var buffer' := buffer + results[0].data;
      assert (results + [last])[1..] == results[1..] + [last];
      assert buffer' + Concat(results[1..]) == buffer + Concat(results);
      FailAfter(buffer', results[1..], last);
    }
  }

  /** One more read, made because there is no answer yet. */
  lemma OneMore(buffer: seq<Byte>, results: seq<Read>, last: Read)
    requires Clean(results) && Undecided(buffer, results)
    requires IsTlsClientHello(buffer + Concat(results)).Indeterminate?
    ensures Undecided(buffer, results + [last])
    ensures Concat(results + [last]) == Concat(results) + last.data
    ensures !last.failed && last.data != [] ==> Clean(results + [last])
    ensures last.failed ==> Detect(buffer, results + [last]) ==
                            (Returned(false, true), buffer + Concat(results) + last.data, |results| + 1)
  {
    ConcatSnoc(results, last);
    RunOf(buffer, results);
    hide IsTlsClientHello, Concat, Detect;
    if last.failed {
      FailAfter(buffer, results, last);
    }
    assert (results + [last])[..|results|] == results;
    assert forall k :: 0 <= k < |results| ==> (results + [last])[..k] == results[..k];
  }

  /** A decided beginning decides every longer one. */
  lemma StaysDecided(data: seq<Byte>, rest: seq<Byte>, m: nat)
    requires |data| <= m <= |data + rest| && !IsTlsClientHello(data).Indeterminate?
    ensures !IsTlsClientHello((data + rest)[..m]).Indeterminate?
  {
    assert (data + rest)[..m] == data + rest[..m - |data|];
    AnswerIsFinal(data, rest[..m - |data|]);
  }

  /** A buffer can fill up without an answer exactly when it may hold fewer than nine bytes. */
  lemma NineBytesSuffice(m: nat)
    ensures (exists data :: |data| == m && IsTlsClientHello(data).Indeterminate?) <==> m < 9
  {
    if m < 9 {
      var hello: seq<Byte> := [0x16, 3, 1, 0xFF, 0xFF, 1, 0, 0];
      var data := hello[..m];
      if m >= 5 {
        assert data[3] == 0xFF && data[4] == 0xFF;
        TwoBytes(data[3], data[4]);
        assert data[3..5] == [data[3], data[4]];
        assert Number(data[3..5]) == 0xFFFF;
      }
      assert m >= 1 ==> data[0] == 0x16;
      assert m >= 6 ==> data[5] == 1;
      assert IsTlsClientHello(data).Indeterminate?;
    } else {
      forall data | |data| == m
        ensures !IsTlsClientHello(data).Indeterminate?
      {
        AnswerIsFinal(data, []);
      }
    }
  }

  /** `detect_ssl`; `results` and `limits` list the reads it made on the stream. When the buffer is full
      before there is an answer there is no room to read into: from then on the code reads zero bytes
      for ever, which the outcome `Asking` stands for. Unless a read fails, this happens exactly when
      the first `maxSize` bytes of what is there and what the stream has yet to give leave the answer
      open. */
  method DetectOnStream(stream: Stream, buffer: Buffer)
    returns (outcome: Outcome, ghost results: seq<Read>, ghost limits: seq<nat>)
    requires |buffer.data| <= buffer.maxSize
    modifies stream, buffer
    ensures |buffer.data| <= buffer.maxSize
    ensures stream.log == old(stream.log) + results && stream.limits == old(stream.limits) + limits
    ensures Fair(limits, old(buffer.data), results, buffer.maxSize)
    ensures Detect(old(buffer.data), results) == (outcome, buffer.data, |results|)
    ensures buffer.data + stream.rest == old(buffer.data) + old(stream.rest)
    ensures var whole := old(buffer.data) + old(stream.rest);
            !(outcome.Returned? && outcome.failed) ==>
              (outcome.Asking? <==>
               |whole| >= buffer.maxSize && IsTlsClientHello(whole[..buffer.maxSize]).Indeterminate?)
    ensures outcome.Asking? ==> |buffer.data| == buffer.maxSize < 9
    ensures outcome.Returned? && !outcome.failed ==>
              (outcome.answer <==> IsTlsClientHello(old(buffer.data) + old(stream.rest)).Yes?)
    ensures outcome.Returned? && outcome.failed ==> !outcome.answer
  {
    ghost var before, whole := buffer.data, buffer.data + stream.rest;
    results, limits := [], [];
    assert Concat(results) == [] && before + [] == before;
    assert Clean(results) && Undecided(before, results) && Fair(limits, before, results, buffer.maxSize);
    hide *;
    while true
      invariant |buffer.data| <= buffer.maxSize
      invariant Clean(results) && buffer.data == before + Concat(results)
      invariant Undecided(before, results)
      invariant stream.log == old(stream.log) + results && stream.limits == old(stream.limits) + limits
      invariant Fair(limits, before, results, buffer.maxSize)
      invariant buffer.data + stream.rest == whole
      decreases if |buffer.data| < 9 then 9 - |buffer.data| else 0
    {
      var result := IsTlsClientHello(buffer.data);
      AnswerIsFinal(buffer.data, stream.rest);
      RunOf(before, results);
      if !result.Indeterminate? {
        if |whole| >= buffer.maxSize {
          StaysDecided(buffer.data, stream.rest, buffer.maxSize);
        }
        return Returned(result.Yes?, false), results, limits;
      }
      FullAtZero(buffer.ReadSize(), |buffer.data|, buffer.maxSize);
      if buffer.ReadSize() == 0 {
        assert whole[..buffer.maxSize] == buffer.data;
        return Asking, results, limits;
      }
      var limit := buffer.ReadSize();
      var r := stream.ReadSome(limit);
      FairSnoc(limits, before, results, buffer.maxSize, limit, r);
      buffer.Commit(r.data);
      OneMore(before, results, r);
      results, limits := results + [r], limits + [limit];
      if r.failed {
        return Returned(false, true), results, limits;
      }
    }
  }

  /** Reading zero bytes, however often, ends nothing: with a full buffer the loop stays undecided. */
  lemma {:induction false} ZeroReadsGoOn(buffer: seq<Byte>, n: nat)
    requires IsTlsClientHello(buffer).Indeterminate?
    ensures Detect(buffer, seq(n, _ => Read([], false))) == (Asking, buffer, n)
  {
    var results := seq(n, _ => Read([], false));
    if n > 0 {
      assert results[0].data == [] && buffer + [] == buffer;
      assert results[1..] == seq(n - 1, _ => Read([], false));
      ZeroReadsGoOn(buffer, n - 1);
    }
  }
}
