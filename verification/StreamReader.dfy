/**
 `CompatibleStreamReader` of python/eggress/_asyncio_adapter.py: buffered reads
 over a transport that delivers its bytes in chunks of its own choosing.
 */
module StreamReader {
  import opened Common

  /** One transport read: some bytes (none means end of stream), or an exception. */
  datatype Arrival = Data(bytes: seq<byte>) | Failure

  /** What the transport will still deliver; nothing is read after the end or a failure. */
  function Incoming(arrivals: seq<Arrival>): seq<byte> {
    if arrivals == [] || arrivals[0].Failure? || arrivals[0].bytes == [] then []
    else arrivals[0].bytes + Incoming(arrivals[1..])
  }

  datatype Op = Read(n: int) | ReadExactly(n: int) | ReadUntil(separator: seq<byte>) | ReadLine

  datatype Outcome = Bytes(data: seq<byte>) | Incomplete(partial: seq<byte>, expected: int) | ValueError

  // ----- Searching -----

  predicate OccursAt(s: seq<byte>, sep: seq<byte>, i: int) {
    0 <= i && i + |sep| <= |s| && s[i..i + |sep|] == sep
  }

  /** `bytearray.find` from position `from`: the first occurrence, or -1. */
  function Find(s: seq<byte>, sep: seq<byte>, from: nat): (r: int)
    requires from <= |s|
    ensures r == -1 || (from <= r && OccursAt(s, sep, r))
    ensures forall i :: from <= i && (r == -1 || i < r) ==> !OccursAt(s, sep, i)
    decreases |s| - from
  {
    if OccursAt(s, sep, from) then from
    else if from == |s| then -1
    else Find(s, sep, from + 1)
  }

  /** An occurrence found in what has arrived so far is the first in the whole stream. */
  lemma FindInPrefix(s: seq<byte>, whole: seq<byte>, sep: seq<byte>)
    requires s <= whole && Find(s, sep, 0) >= 0
    ensures Find(whole, sep, 0) == Find(s, sep, 0)
  {
    var i, j := Find(s, sep, 0), Find(whole, sep, 0);
    assert whole[i..i + |sep|] == s[i..i + |sep|];
    assert OccursAt(whole, sep, i);
    assert whole[j..j + |sep|] == s[j..j + |sep|];
    assert OccursAt(s, sep, j);
  }

  // ----- Each operation as a function of the logical stream -----

  const NEWLINE: seq<byte> := [10]

  /** What is still to be read, and whether the end behind it has been seen. */
  datatype Stream = Stream(bytes: seq<byte>, ended: bool)

  function Take(stream: Stream, n: nat): (Outcome, Stream) {
    if n <= |stream.bytes| then (Bytes(stream.bytes[..n]), Stream(stream.bytes[n..], stream.ended))
    else (Bytes(stream.bytes), Stream([], true))
  }

  /** The result, and the stream that is left. */
  function Serve(op: Op, stream: Stream): (Outcome, Stream) {
    match op
    case Read(n) =>
      if n == -1 then (Bytes(stream.bytes), Stream([], true))
      else if n < 0 then (if stream == Stream([], true) then Bytes([]) else ValueError, stream)
      else Take(stream, n)
    case ReadExactly(n) =>
      if n < 0 then (ValueError, stream)
      else if |stream.bytes| < n then (Incomplete(stream.bytes, n), Stream([], true))
      else Take(stream, n)
    case ReadUntil(sep) =>
      if sep == [] then (ValueError, stream)
      else
        var i := Find(stream.bytes, sep, 0);
        if i == -1 then (Incomplete(stream.bytes, -1), Stream(stream.bytes, true)) else Take(stream, i + |sep|)
    case ReadLine =>
      var i := Find(stream.bytes, NEWLINE, 0);
      if i == -1 then (Bytes(stream.bytes), Stream([], true)) else Take(stream, i + 1)
  }

  /** The bytes an operation takes out of the stream; a failed `readuntil` takes none. */
  function Handed(op: Op, outcome: Outcome): seq<byte> {
    match outcome
    case Bytes(data) => data
    case Incomplete(partial, _) => if op.ReadExactly? then partial else []
    case ValueError => []
  }

  function ServeAll(ops: seq<Op>, stream: Stream): (seq<Outcome>, Stream) {
    if ops == [] then ([], stream)
    else
      var (first, left) := Serve(ops[0], stream);
      var (others, rest) := ServeAll(ops[1..], left);
      ([first] + others, rest)
  }

  function HandedAll(ops: seq<Op>, outcomes: seq<Outcome>): seq<byte>
    requires |ops| == |outcomes|
  {
    if ops == [] then [] else Handed(ops[0], outcomes[0]) + HandedAll(ops[1..], outcomes[1..])
  }

  /** No operation loses, repeats or reorders a byte. */
  lemma ServeConserves(op: Op, stream: Stream)
    ensures Handed(op, Serve(op, stream).0) + Serve(op, stream).1.bytes == stream.bytes
  {
    hide Find, Take;
    assert stream.bytes + [] == stream.bytes && [] + stream.bytes == stream.bytes;
    match op
    case Read(n) =>
      if n >= 0 {
        TakeCuts(stream, n);
      }
    case ReadExactly(n) =>
      if n >= 0 {
        TakeCuts(stream, n);
      }
    case ReadUntil(sep) =>
      if Find(stream.bytes, sep, 0) >= 0 {
        TakeCuts(stream, Find(stream.bytes, sep, 0) + |sep|);
      }
    case ReadLine =>
      if Find(stream.bytes, NEWLINE, 0) >= 0 {
        TakeCuts(stream, Find(stream.bytes, NEWLINE, 0) + 1);
      }
  }

  lemma TakeCuts(stream: Stream, n: nat)
    ensures Take(stream, n).0.Bytes? && Take(stream, n).0.data + Take(stream, n).1.bytes == stream.bytes
    ensures |Take(stream, n).0.data| == if n < |stream.bytes| then n else |stream.bytes|
    ensures Take(stream, n).0.data == if n < |stream.bytes| then stream.bytes[..n] else stream.bytes
    ensures Take(stream, n).1.ended == (stream.ended || n > |stream.bytes|)
  {
  }

  lemma {:induction false} RunConserves(ops: seq<Op>, stream: Stream)
    ensures |ServeAll(ops, stream).0| == |ops|
    ensures HandedAll(ops, ServeAll(ops, stream).0) + ServeAll(ops, stream).1.bytes == stream.bytes
  {
    if ops == [] {
    } else {
      var (first, left) := Serve(ops[0], stream);
      ServeConserves(ops[0], stream);
      RunConserves(ops[1..], left);
      var (others, rest) := ServeAll(ops[1..], left);
      assert ServeAll(ops, stream).0[1..] == others;
      assert Handed(ops[0], first) + HandedAll(ops[1..], others) + rest.bytes
          == Handed(ops[0], first) + (HandedAll(ops[1..], others) + rest.bytes);
    }
  }

  ghost predicate EndsWith(s: seq<byte>, sep: seq<byte>) {
    |sep| <= |s| && s[|s| - |sep|..] == sep
  }

  /** `readuntil` returns the shortest prefix of the stream that ends in the separator. */
  lemma UntilIsShortest(sep: seq<byte>, stream: seq<byte>, ended: bool)
    requires sep != []
    ensures var outcome := Serve(ReadUntil(sep), Stream(stream, ended)).0;
      if exists m :: 0 <= m <= |stream| && EndsWith(stream[..m], sep)
      then outcome.Bytes? && outcome.data <= stream && EndsWith(outcome.data, sep) &&
           forall m :: 0 <= m < |outcome.data| ==> !EndsWith(stream[..m], sep)
      else outcome == Incomplete(stream, -1)
  {
    hide Find;
    var i := Find(stream, sep, 0);
    forall m | 0 <= m <= |stream| && EndsWith(stream[..m], sep) ensures OccursAt(stream, sep, m - |sep|) {
      EndOccurs(stream, sep, m);
    }
    if i >= 0 {
      OccurrenceEnds(stream, sep, i);
      assert Serve(ReadUntil(sep), Stream(stream, ended)).0 == Bytes(stream[..i + |sep|]);
    }
  }

  lemma EndOccurs(stream: seq<byte>, sep: seq<byte>, m: nat)
    requires m <= |stream| && EndsWith(stream[..m], sep)
    ensures OccursAt(stream, sep, m - |sep|)
  {
    assert stream[..m][m - |sep|..] == stream[m - |sep|..m];
  }

  lemma OccurrenceEnds(stream: seq<byte>, sep: seq<byte>, i: nat)
    requires OccursAt(stream, sep, i)
    ensures EndsWith(stream[..i + |sep|], sep)
  {
    assert stream[..i + |sep|][i..] == stream[i..i + |sep|];
  }

  /** The data is taken from the front of the stream, and the rest is left. */
  ghost predicate Cut(stream: Stream, outcome: Outcome, rest: Stream) {
    outcome.Bytes? && outcome.data + rest.bytes == stream.bytes
  }

  /** The bytes end in a newline and have none before. */
  ghost predicate IsLine(data: seq<byte>) {
    |data| > 0 && data[|data| - 1] == 10 && 10 !in data[..|data| - 1]
  }

  ghost predicate HasNewline(bytes: seq<byte>) {
    exists k :: 0 <= k < |bytes| && bytes[k] == 10
  }

  /** What each operation promises of its result and of the stream it leaves. */
  ghost predicate Promised(op: Op, stream: Stream, outcome: Outcome, rest: Stream) {
    match op
    case Read(n) =>
      if n == -1 then outcome == Bytes(stream.bytes) && rest == Stream([], true)
      else if n < -1 then
        rest == stream && outcome == if stream.ended && |stream.bytes| == 0 then Bytes([]) else ValueError
      else
        Cut(stream, outcome, rest) && |outcome.data| == (if n < |stream.bytes| then n else |stream.bytes|) &&
        (rest.ended <==> stream.ended || n > |stream.bytes|)
    case ReadExactly(n) =>
      if n < 0 then outcome == ValueError && rest == stream
      else if n <= |stream.bytes| then
        Cut(stream, outcome, rest) && |outcome.data| == n && rest.ended == stream.ended
      else outcome == Incomplete(stream.bytes, n) && rest == Stream([], true)
    case ReadUntil(sep) =>
      if |sep| == 0 then outcome == ValueError && rest == stream
      else if exists m :: 0 <= m <= |stream.bytes| && EndsWith(stream.bytes[..m], sep) then
        Cut(stream, outcome, rest) && rest.ended == stream.ended && EndsWith(outcome.data, sep) &&
        forall m :: 0 <= m < |outcome.data| ==> !EndsWith(stream.bytes[..m], sep)
      else outcome == Incomplete(stream.bytes, -1) && rest == Stream(stream.bytes, true)
    case ReadLine =>
      if HasNewline(stream.bytes) then
        Cut(stream, outcome, rest) && rest.ended == stream.ended && IsLine(outcome.data)
      else outcome == Bytes(stream.bytes) && rest == Stream([], true)
  }

  lemma ServeKeepsPromise(op: Op, stream: Stream)
    ensures Promised(op, stream, Serve(op, stream).0, Serve(op, stream).1)
  {
    hide Find, Take, EndsWith;
    match op
    case Read(n) =>
      if n >= 0 {
        TakeCuts(stream, n);
      }
    case ReadExactly(n) =>
      if n >= 0 {
        TakeCuts(stream, n);
      }
    case ReadUntil(sep) => UntilKeepsPromise(sep, stream);
    case ReadLine => LineKeepsPromise(stream);
  }

  lemma UntilKeepsPromise(sep: seq<byte>, stream: Stream)
    ensures Promised(ReadUntil(sep), stream, Serve(ReadUntil(sep), stream).0, Serve(ReadUntil(sep), stream).1)
  {
    hide Find, Take, EndsWith;
    if sep != [] {
      UntilIsShortest(sep, stream.bytes, stream.ended);
      if Find(stream.bytes, sep, 0) >= 0 {
        TakeCuts(stream, Find(stream.bytes, sep, 0) + |sep|);
      }
    }
  }

  lemma FirstNewline(bytes: seq<byte>)
    ensures var i := Find(bytes, NEWLINE, 0);
      if HasNewline(bytes) then 0 <= i < |bytes| && IsLine(bytes[..i + 1]) else i == -1
  {
    hide Find;
    var i := Find(bytes, NEWLINE, 0);
    forall k | 0 <= k < |bytes| ensures OccursAt(bytes, NEWLINE, k) <==> bytes[k] == 10 {
      assert bytes[k..k + 1] == [bytes[k]];
    }
    if k :| 0 <= k < |bytes| && bytes[k] == 10 {
      assert OccursAt(bytes, NEWLINE, k);
      assert bytes[..i + 1][..i] == bytes[..i];
    }
  }

  lemma LineKeepsPromise(stream: Stream)
    ensures Promised(ReadLine, stream, Serve(ReadLine, stream).0, Serve(ReadLine, stream).1)
  {
    hide Find, IsLine, EndsWith, HasNewline, Take;
    var i := Find(stream.bytes, NEWLINE, 0);
    FirstNewline(stream.bytes);
    if i >= 0 {
      TakeCuts(stream, i + 1);
    }
  }

  /** The streams between the operations of a run, each with the promise of the operation after it. */
  ghost predicate RunPromised(
      ops: seq<Op>, outcomes: seq<Outcome>, streams: seq<Stream>, first: Stream, last: Stream) {
    |outcomes| == |ops| && |streams| == |ops| + 1 && streams[0] == first && streams[|ops|] == last &&
    forall k :: 0 <= k < |ops| ==> Promised(ops[k], streams[k], outcomes[k], streams[k + 1])
  }

  lemma {:induction false} RunKeepsPromises(ops: seq<Op>, stream: Stream) returns (streams: seq<Stream>)
    ensures RunPromised(ops, ServeAll(ops, stream).0, streams, stream, ServeAll(ops, stream).1)
    decreases |ops|
  {
    hide Promised, Serve;
    if ops == [] {
      streams := [stream];
    } else {
      var first, left := Serve(ops[0], stream).0, Serve(ops[0], stream).1;
      ServeKeepsPromise(ops[0], stream);
      var others := RunKeepsPromises(ops[1..], left);
      streams := [stream] + others;
      var outcomes, rest := ServeAll(ops, stream).0, ServeAll(ops[1..], left).0;
      assert outcomes == [first] + rest;
      forall k | 0 <= k < |ops| ensures Promised(ops[k], streams[k], outcomes[k], streams[k + 1]) {
        if k > 0 {
          assert Promised(ops[1..][k - 1], others[k - 1], rest[k - 1], others[k]);
        }
      }
    }
  }

  /** The transport delivers its chunks up to the first that is empty, an exception, or missing. */
  lemma {:induction false} IncomingIsChunks(arrivals: seq<Arrival>) returns (chunks: seq<seq<byte>>)
    ensures Incoming(arrivals) == Flatten(chunks) && |chunks| <= |arrivals|
    ensures forall k :: 0 <= k < |chunks| ==> chunks[k] != [] && arrivals[k] == Data(chunks[k])
    ensures |chunks| < |arrivals| ==> arrivals[|chunks|].Failure? || arrivals[|chunks|] == Data([])
  {
    if arrivals == [] || arrivals[0].Failure? || arrivals[0].bytes == [] {
      chunks := [];
    } else {
      var others := IncomingIsChunks(arrivals[1..]);
      chunks := [arrivals[0].bytes] + others;
      assert chunks[1..] == others;
      assert forall k :: 1 <= k < |chunks| ==> chunks[k] == others[k - 1] && arrivals[k] == arrivals[1..][k - 1];
    }
  }

  // ----- The object -----

  class Reader {
    var buffer: seq<byte>
    var eof: bool
    var arrivals: seq<Arrival>

    constructor (arrivals: seq<Arrival>)
      ensures buffer == [] && !eof && this.arrivals == arrivals
    {
      buffer, eof, this.arrivals := [], false, arrivals;
    }

    /** What a client can still read, however it is cut. */
    ghost function Logical(): seq<byte>
      reads this
    {
      buffer + if eof then [] else Incoming(arrivals)
    }

    ghost function View(): Stream
      reads this
    {
      Stream(Logical(), eof)
    }

    /** Reads until `n` bytes are buffered or the transport ends. */
    method FillBuffer(n: nat)
      modifies this
      ensures Logical() == old(Logical()) && old(buffer) <= buffer
      ensures |buffer| >= n || eof
      ensures eof == (old(eof) || |old(Logical())| < n)
      ensures old(eof) ==> eof && buffer == old(buffer)
      ensures |arrivals| <= |old(arrivals)|
      ensures !old(eof) && |old(buffer)| < n ==> eof || |arrivals| < |old(arrivals)|
    {
      while |buffer| < n && !eof
        invariant Logical() == old(Logical()) && old(buffer) <= buffer
        invariant eof == old(eof) && (eof ==> buffer == old(buffer))
        invariant |arrivals| <= |old(arrivals)|
        invariant !old(eof) && |old(buffer)| < n ==>
          eof || |arrivals| < |old(arrivals)| || (arrivals == old(arrivals) && buffer == old(buffer))
        decreases !eof, |arrivals|
      {
        if arrivals == [] || arrivals[0].Failure? || arrivals[0].bytes == [] {
          eof := true;
          assert Logical() == buffer;
          return;
        }
        var chunk := arrivals[0].bytes;
        assert buffer + (chunk + Incoming(arrivals[1..])) == (buffer + chunk) + Incoming(arrivals[1..]);
        buffer := buffer + chunk;
        arrivals := arrivals[1..];
      }
    }

    /** Removes and returns the first `n` buffered bytes. */
    method Consume(n: nat) returns (outcome: Outcome)
      requires n <= |buffer|
      modifies this`buffer
      ensures (outcome, View()) == Take(old(View()), n)
      ensures old(eof) && n == |old(buffer)| ==> buffer == [] && outcome == Bytes(old(Logical()))
    {
      assert Logical()[..n] == buffer[..n];
      assert Logical()[n..] == buffer[n..] + if eof then [] else Incoming(arrivals);
      outcome := Bytes(buffer[..n]);
      buffer := buffer[n..];
    }

    method ReadUpTo(n: int) returns (outcome: Outcome)
      modifies this
      ensures (outcome, View()) == Serve(Read(n), old(View()))
    {
      if eof && buffer == [] {
        return Bytes([]);
      }
      if n == -1 {
        while !eof
          invariant Logical() == old(Logical())
          decreases !eof, |arrivals|
        {
          FillBuffer(|buffer| + 1);
        }
        outcome := Consume(|buffer|);
        return;
      }
      if n < 0 {
        return ValueError;
      }
      if |buffer| >= n {
        outcome := Consume(n);
        return;
      }
      if !eof {
        FillBuffer(n);
      }
      outcome := Consume(if n < |buffer| then n else |buffer|);
    }

    method ReadExact(n: int) returns (outcome: Outcome)
      modifies this
      ensures (outcome, View()) == Serve(ReadExactly(n), old(View()))
    {
      if n < 0 {
        return ValueError;
      }
      if n == 0 {
        return Bytes([]);
      }
      if !eof && |buffer| < n {
        FillBuffer(n);
      }
      if |buffer| < n {
        assert Logical() == buffer;
        outcome := Incomplete(buffer, n);
        assert old(Logical()) == buffer;
        buffer := [];
        assert Logical() == [];
        return;
      }
      outcome := Consume(n);
    }

    method ReadUpToSeparator(sep: seq<byte>) returns (outcome: Outcome)
      modifies this
      ensures (outcome, View()) == Serve(ReadUntil(sep), old(View()))
    {
      hide Find;
      if sep == [] {
        return ValueError;
      }
      while true
        invariant Logical() == old(Logical())
        invariant eof == old(eof) || (eof && Find(old(Logical()), sep, 0) == -1)
        decreases !eof, |arrivals|
      {
        var i := Find(buffer, sep, 0);
        if i >= 0 {
          FindInPrefix(buffer, Logical(), sep);
          outcome := Consume(i + |sep|);
          return;
        }
        if eof {
          assert Logical() == buffer;
          return Incomplete(buffer, -1);
        }
        ghost var searched := buffer;
        assert searched <= Logical();
        FillBuffer(|buffer| + 1);
        assert eof ==> old(Logical()) == searched;
      }
    }

    method ReadOneLine() returns (outcome: Outcome)
      modifies this
      ensures (outcome, View()) == Serve(ReadLine, old(View()))
    {
      hide Find;
      while true
        invariant Logical() == old(Logical())
        invariant eof == old(eof) || (eof && Find(old(Logical()), NEWLINE, 0) == -1)
        decreases !eof, |arrivals|
      {
        var i := Find(buffer, NEWLINE, 0);
        if i >= 0 {
          FindInPrefix(buffer, Logical(), NEWLINE);
          outcome := Consume(i + 1);
          return;
        }
        if eof {
          assert Logical() == buffer;
          outcome := Bytes(buffer);
          buffer := [];
          assert Logical() == [];
          return;
        }
        ghost var searched := buffer;
        assert searched <= Logical();
        FillBuffer(|buffer| + 1);
        assert eof ==> old(Logical()) == searched;
      }
    }

    /** Pushes bytes back in front of the stream; after a successful read this undoes it. */
    method Rollback(data: seq<byte>)
      modifies this`buffer
      ensures View() == Stream(data + old(Logical()), old(eof))
    {
      buffer := data + buffer;
    }

    method Perform(op: Op) returns (outcome: Outcome)
      modifies this
      ensures (outcome, View()) == Serve(op, old(View()))
    {
      match op
      case Read(n) => outcome := ReadUpTo(n);
      case ReadExactly(n) => outcome := ReadExact(n);
      case ReadUntil(sep) => outcome := ReadUpToSeparator(sep);
      case ReadLine => outcome := ReadOneLine();
    }
  }

  /**
   Any run of reads: the results are those of the whole stream, whatever the
   transport's chunks were, and results plus remainder are that stream.
   */
  method Run(arrivals: seq<Arrival>, ops: seq<Op>) returns (outcomes: seq<Outcome>, rest: Stream)
    ensures (outcomes, rest) == ServeAll(ops, Stream(Incoming(arrivals), false))
    ensures |outcomes| == |ops| && HandedAll(ops, outcomes) + rest.bytes == Incoming(arrivals)
    ensures exists streams :: RunPromised(ops, outcomes, streams, Stream(Incoming(arrivals), false), rest)
  {
    var reader := new Reader(arrivals);
    outcomes := [];
    ghost var whole := Stream(Incoming(arrivals), false);
    assert reader.View() == whole;
    hide Serve, Incoming;
    for k := 0 to |ops|
      invariant fresh(reader)
      invariant ServeAll(ops, whole).0 == outcomes + ServeAll(ops[k..], reader.View()).0
      invariant ServeAll(ops, whole).1 == ServeAll(ops[k..], reader.View()).1
    {
      var outcome := reader.Perform(ops[k]);
      assert ops[k..][1..] == ops[k + 1..];
      Assoc(outcomes, [outcome], ServeAll(ops[k + 1..], reader.View()).0);
      outcomes := outcomes + [outcome];
    }
    RunConserves(ops, whole);
    ghost var streams := RunKeepsPromises(ops, whole);
    hide RunPromised, HandedAll;
    var ended := reader.eof;
    ghost var left := reader.View();
    var tail := reader.Perform(Read(-1));
    TailIsAll(left);
    assert outcomes + [] == outcomes;
    rest := Stream(tail.data, ended);
  }

  lemma TailIsAll(stream: Stream)
    ensures Serve(Read(-1), stream).0 == Bytes(stream.bytes)
  {
  }

  /** A read followed by pushing its bytes back leaves the stream as it was. */
  method ReadAndRollback(reader: Reader, op: Op) returns (outcome: Outcome)
    modifies reader
    ensures outcome == Serve(op, old(reader.View())).0
    ensures reader.Logical() == old(reader.Logical())
  {
    outcome := reader.Perform(op);
    ServeConserves(op, old(reader.View()));
    reader.Rollback(Handed(op, outcome));
  }

  /**
   When the bytes that are left decide the result by themselves: always, except
   for a `read` with a length below -1 when none are left.
   */
  lemma BytesDecide(op: Op, bytes: seq<byte>)
    ensures Serve(op, Stream(bytes, false)).0 == Serve(op, Stream(bytes, true)).0 <==>
      !(op.Read? && op.n < -1 && bytes == [])
  {
  }

  /**
   That exception at work, on a transport that is at its end: such a read is
   refused when it comes first and answered after another read has seen the end.
   */
  lemma NegativeReadSeesEof(n: int)
    requires n < -1
    ensures ServeAll([Read(n)], Stream([], false)).0 == [ValueError]
    ensures ServeAll([Read(-1), Read(n)], Stream([], false)).0 == [Bytes([]), Bytes([])]
  {
    assert [Read(n)][1..] == [];
    assert ServeAll([Read(n)], Stream([], true)).0 == [Bytes([])] + ServeAll([], Stream([], true)).0;
    assert [Read(-1), Read(n)][1..] == [Read(n)];
  }
}
