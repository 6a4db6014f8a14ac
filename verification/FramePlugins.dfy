/**
 The two framing plugins of python/pproxy/plugin.py. Both cut data into
 length-prefixed frames and decode them from a buffer that survives between
 calls; they differ in what a frame holds. CRC-32, the random paddings and
 zlib are function-valued parameters.
 */
module FramePlugins {
  import opened Common

  type uint32 = x: int | 0 <= x < 0x1_0000_0000

  /** `os.urandom(os.urandom(1)[0] % 16)` */
  type Padding = p: seq<byte> | |p| < 16

  /** `padding(m, i)` is the padding drawn for frame `i` of message `m`. */
  datatype Codec =
    | VerifySimple(crc: seq<byte> -> uint32, padding: (nat, nat) -> Padding)
    | VerifyDeflate(compress: seq<byte> -> seq<byte>, decompress: seq<byte> -> Option<seq<byte>>)

  // ----- Integers on the wire -----

  function Little4(n: uint32): (r: seq<byte>)
    ensures |r| == 4
  {
    [n % 256, n / 256 % 256, n / 0x1_0000 % 256, n / 0x100_0000]
  }

  function FromLittle4(b: seq<byte>): int
    requires |b| == 4
  {
    b[0] + (b[1] as int) * 256 + (b[2] as int) * 0x1_0000 + (b[3] as int) * 0x100_0000
  }

  lemma Little4RoundTrip(n: uint32)
    ensures FromLittle4(Little4(n)) == n
  {
    assert n / 0x1_0000 == n / 256 / 256;
    assert n / 0x100_0000 == n / 256 / 256 / 256;
  }

  /** `(~crc32(data)) & 0xFFFFFFFF` */
  function Checksum(crc: seq<byte> -> uint32, data: seq<byte>): uint32 {
    0xFFFF_FFFF - crc(data)
  }

  // ----- Decoding -----

  /** What the head of the buffer is: not a whole frame, a frame that raises, or a good frame. */
  datatype Head = Wait | Bad | Frame(payload: seq<byte>, size: nat)

  function MinLength(codec: Codec): int {
    if codec.VerifySimple? then 7 else 3
  }

  function Parse(codec: Codec, buffer: seq<byte>): (h: Head)
    ensures h.Frame? ==> 0 < h.size <= |buffer|
  {
    if |buffer| < 2 then Wait
    else
      var length := FromBig2(buffer[..2]);
      if length < MinLength(codec) || |buffer| < length then Wait
      else match codec
        case VerifySimple(crc, _) =>
          var expected := FromLittle4(buffer[length - 4..length]);
          var padding := buffer[2];
          if expected != Checksum(crc, buffer[..length - 4]) then Bad
          else if padding == 0 || 2 + padding > length - 4 then Bad
          else Frame(buffer[2 + padding..length - 4], length)
        case VerifyDeflate(_, decompress) =>
          match decompress([0x78, 0x9c] + buffer[2..length])
          case None => Bad
          case Some(data) => Frame(data, length)
  }

  /** A frame of verify-simple: its length, a padding with its length plus one in front, the chunk, and the checksum. */
  ghost predicate SimpleFrame(crc: seq<byte> -> uint32, f: seq<byte>, pad: seq<byte>, chunk: seq<byte>) {
    var n := |f|;
    |pad| <= 254 && n == 7 + |pad| + |chunk| && n < 0x1_0000 &&
    f[0] == n / 256 && f[1] == n % 256 && f[2] == |pad| + 1 &&
    f[3..3 + |pad|] == pad && f[3 + |pad|..n - 4] == chunk &&
    f[n - 4] + 0x100 * (f[n - 3] as int) + 0x1_0000 * (f[n - 2] as int) + 0x100_0000 * (f[n - 1] as int)
      == 0xFFFF_FFFF - crc(f[..n - 4])
  }

  /** The length that a buffer's first two bytes announce. */
  ghost function Announced(buffer: seq<byte>): int
    requires |buffer| >= 2
  {
    256 * (buffer[0] as int) + buffer[1]
  }

  /**
   What verify-simple makes of a buffer: it waits until what is announced has
   arrived, and for good if that is less than seven bytes; then it yields a
   chunk exactly if the piece is a frame that carries it, and raises otherwise.
   */
  lemma SimpleHead(
      crc: seq<byte> -> uint32, padding: (nat, nat) -> Padding, buffer: seq<byte>, chunk: seq<byte>, size: nat)
    ensures var h := Parse(VerifySimple(crc, padding), buffer);
      h.Wait? <==> |buffer| < 2 || Announced(buffer) < 7 || |buffer| < Announced(buffer)
    ensures var h := Parse(VerifySimple(crc, padding), buffer);
      h == Frame(chunk, size) <==>
        2 <= |buffer| && size == Announced(buffer) <= |buffer| &&
        exists pad :: SimpleFrame(crc, buffer[..size], pad, chunk)
  {
    if 2 <= |buffer| && 7 <= Announced(buffer) <= |buffer| {
      var n := Announced(buffer);
      var f := buffer[..n];
      SimplePiece(crc, padding, buffer);
      hide Parse, SimpleFrame, FromLittle4;
      if pad :| SimpleFrame(crc, f, pad, chunk) {
        FrameAsPiece(crc, f, pad, chunk);
      }
      if Parse(VerifySimple(crc, padding), buffer).Frame? {
        PieceAsFrame(crc, f);
      }
    }
  }

  lemma FrameAsPiece(crc: seq<byte> -> uint32, f: seq<byte>, pad: seq<byte>, chunk: seq<byte>)
    requires SimpleFrame(crc, f, pad, chunk)
    ensures |f| >= 7 && 3 <= 2 + f[2] as int <= |f| - 4
    ensures FromLittle4(f[|f| - 4..]) == 0xFFFF_FFFF - crc(f[..|f| - 4])
    ensures chunk == f[2 + f[2] as int..|f| - 4]
  {
  }

  lemma PieceAsFrame(crc: seq<byte> -> uint32, f: seq<byte>)
    requires |f| >= 7 && Announced(f) == |f| && 3 <= 2 + f[2] as int <= |f| - 4
    requires FromLittle4(f[|f| - 4..]) == 0xFFFF_FFFF - crc(f[..|f| - 4])
    ensures SimpleFrame(crc, f, f[3..2 + f[2] as int], f[2 + f[2] as int..|f| - 4])
  {
  }

  lemma SimplePiece(crc: seq<byte> -> uint32, padding: (nat, nat) -> Padding, buffer: seq<byte>)
    requires 2 <= |buffer| && 7 <= Announced(buffer) <= |buffer|
    ensures
      var n := Announced(buffer);
      var f, padded := buffer[..n], 2 + buffer[2] as int;
      Parse(VerifySimple(crc, padding), buffer) ==
        if 3 <= padded <= n - 4 && FromLittle4(f[n - 4..]) == 0xFFFF_FFFF - crc(f[..n - 4])
        then Frame(f[padded..n - 4], n) else Bad
  {
    var n := Announced(buffer);
    var f, padded := buffer[..n], 2 + buffer[2] as int;
    assert f[n - 4..] == buffer[n - 4..n] && f[..n - 4] == buffer[..n - 4];
    assert 3 <= padded <= n - 4 ==> f[padded..n - 4] == buffer[padded..n - 4];
  }

  /** The same for verify-deflate: what zlib makes of the piece behind a standard header decides. */
  lemma DeflateHead(
      compress: seq<byte> -> seq<byte>, decompress: seq<byte> -> Option<seq<byte>>,
      buffer: seq<byte>, data: seq<byte>, size: nat)
    ensures var h := Parse(VerifyDeflate(compress, decompress), buffer);
      h.Wait? <==> |buffer| < 2 || Announced(buffer) < 3 || |buffer| < Announced(buffer)
    ensures var h := Parse(VerifyDeflate(compress, decompress), buffer);
      h == Frame(data, size) <==>
        2 <= |buffer| && 3 <= size == Announced(buffer) <= |buffer| &&
        decompress([0x78, 0x9c] + buffer[2..size]) == Some(data)
  {
  }

  datatype Drained = Drained(out: seq<byte>, rest: seq<byte>, raised: bool)

  /** Everything one pass of the decoding loop does to a buffer. */
  function Drain(codec: Codec, buffer: seq<byte>): Drained
    decreases |buffer|
  {
    match Parse(codec, buffer)
    case Wait => Drained([], buffer, false)
    case Bad => Drained([], buffer, true)
    case Frame(payload, size) =>
      var d := Drain(codec, buffer[size..]);
      d.(out := payload + d.out)
  }

  /** The state shared by a plugin's closures. */
  class Decoder {
    const codec: Codec
    var buffer: seq<byte>

    constructor (codec: Codec)
      ensures this.codec == codec && buffer == []
    {
      this.codec := codec;
      buffer := [];
    }

    /**
     One call of `decrypt`. The buffer keeps the unparsed tail; a call that
     raises keeps everything from the offending frame on and delivers nothing.
     */
    method Decrypt(data: seq<byte>) returns (r: Result<seq<byte>, ()>)
      modifies this
      ensures buffer == Drain(codec, old(buffer) + data).rest
      ensures r == if Drain(codec, old(buffer) + data).raised then Err(())
                   else Ok(Drain(codec, old(buffer) + data).out)
    {
      hide Parse;
      buffer := buffer + data;
      ghost var whole := Drain(codec, buffer);
      var result: seq<byte> := [];
      assert [] + whole.out == whole.out;
      while true
        invariant whole == var d := Drain(codec, buffer); d.(out := result + d.out)
        decreases |buffer|
      {
        match Parse(codec, buffer)
        case Wait =>
          assert result + [] == result;
          return Ok(result);
        case Bad =>
          return Err(());
        case Frame(payload, size) =>
          Assoc(result, payload, Drain(codec, buffer[size..]).out);
          result := result + payload;
          buffer := buffer[size..];
      }
    }
  }

  // ----- Decoding does not depend on how the bytes are split -----

  lemma ParseStable(codec: Codec, x: seq<byte>, y: seq<byte>)
    requires !Parse(codec, x).Wait?
    ensures Parse(codec, x + y) == Parse(codec, x)
  {
    var z, length := x + y, FromBig2(x[..2]);
    assert z[..2] == x[..2];
    assert length <= |x|;
    if codec.VerifySimple? {
      assert z[length - 4..length] == x[length - 4..length];
      assert z[..length - 4] == x[..length - 4];
      var padding := x[2];
      if padding != 0 && 2 + padding <= length - 4 {
        assert z[2 + padding..length - 4] == x[2 + padding..length - 4];
      }
    } else {
      assert z[2..length] == x[2..length];
    }
  }

  /**
   The exact effect of splitting: decoding `x + y` at once raises, leaves and
   yields what decoding `x` and then `y` does; after a raise the rest of the
   input is only appended to the buffer.
   */
  lemma {:induction false} DrainSplit(codec: Codec, x: seq<byte>, y: seq<byte>)
    ensures
      var a := Drain(codec, x);
      var b := Drain(codec, a.rest + y);
      Drain(codec, x + y) ==
        if a.raised then Drained(a.out, a.rest + y, true) else Drained(a.out + b.out, b.rest, b.raised)
    decreases |x|
  {
    hide Parse;
    match Parse(codec, x)
    case Wait =>
      assert [] + Drain(codec, x + y).out == Drain(codec, x + y).out;
    case Bad =>
      ParseStable(codec, x, y);
    case Frame(payload, size) =>
      ParseStable(codec, x, y);
      assert (x + y)[size..] == x[size..] + y;
      DrainSplit(codec, x[size..], y);
      var a := Drain(codec, x[size..]);
      var b := Drain(codec, a.rest + y);
      assert payload + (a.out + b.out) == (payload + a.out) + b.out;
  }

  /** Successive `decrypt` calls, up to the first that raises. */
  function Feed(codec: Codec, buffer: seq<byte>, chunks: seq<seq<byte>>): Drained
    decreases |chunks|
  {
    if chunks == [] then Drained([], buffer, false)
    else
      var d := Drain(codec, buffer + chunks[0]);
      if d.raised then Drained([], d.rest, true)
      else
        After(d.out, Feed(codec, d.rest, chunks[1..]))
  }

  /** A receiver that passes each chunk to `decrypt` and gives up at the first exception. */
  method Receive(codec: Codec, chunks: seq<seq<byte>>) returns (r: Drained)
    ensures r == Feed(codec, [], chunks)
  {
    hide Drain;
    var decoder := new Decoder(codec);
    r := Drained([], [], false);
    for k := 0 to |chunks|
      invariant decoder.codec == codec && fresh(decoder)
      invariant r.rest == decoder.buffer && !r.raised
      invariant Feed(codec, [], chunks) == After(r.out, Feed(codec, r.rest, chunks[k..]))
    {
      var step := decoder.Decrypt(chunks[k]);
      assert chunks[k..][0] == chunks[k] && chunks[k..][1..] == chunks[k + 1..];
      if step.Err? {
        NothingAfter(r.out, decoder.buffer, true);
        return Drained(r.out, decoder.buffer, true);
      }
      Assoc(r.out, step.value, Feed(codec, decoder.buffer, chunks[k + 1..]).out);
      r := Drained(r.out + step.value, decoder.buffer, false);
    }
    NothingAfter(r.out, r.rest, false);
  }

  /** The result of further calls, behind what was already delivered. */
  function After(out: seq<byte>, d: Drained): Drained {
    d.(out := out + d.out)
  }

  lemma NothingAfter(out: seq<byte>, rest: seq<byte>, raised: bool)
    ensures After(out, Drained([], rest, raised)) == Drained(out, rest, raised)
  {
    assert out + [] == out;
  }

  /** A buffer as a call leaves it: nothing in it can be decoded yet. */
  ghost predicate Quiet(codec: Codec, buffer: seq<byte>) {
    Parse(codec, buffer).Wait?
  }

  lemma EmptyIsQuiet(codec: Codec)
    ensures Quiet(codec, [])
  {
  }

  lemma {:induction false} DrainRest(codec: Codec, x: seq<byte>)
    ensures var d := Drain(codec, x); if d.raised then Parse(codec, d.rest).Bad? else Quiet(codec, d.rest)
    decreases |x|
  {
    var h := Parse(codec, x);
    if !h.Frame? {
    } else {
      DrainRest(codec, x[h.size..]);
    }
  }

  /**
   Any chunking of the same bytes raises exactly when one call on all of them
   would; when it does not, the total output and the residual buffer agree,
   and when it does, what was delivered before is a prefix of the payloads.
   */
  lemma {:induction false} Fragmentation(codec: Codec, buffer: seq<byte>, chunks: seq<seq<byte>>)
    requires Quiet(codec, buffer)
    ensures
      var whole := Drain(codec, buffer + Flatten(chunks));
      var fed := Feed(codec, buffer, chunks);
      fed.raised == whole.raised && fed.out <= whole.out && (!whole.raised ==> fed == whole)
    decreases |chunks|
  {
    if chunks == [] {
      assert buffer + Flatten(chunks) == buffer;
    } else {
      var x, y := buffer + chunks[0], Flatten(chunks[1..]);
      assert buffer + Flatten(chunks) == x + y;
      DrainSplit(codec, x, y);
      DrainRest(codec, x);
      var a := Drain(codec, x);
      if !a.raised {
        Fragmentation(codec, a.rest, chunks[1..]);
      }
    }
  }

  /** A bad frame at the head of the buffer raises on every later call and never yields a byte. */
  lemma BadIsSticky(codec: Codec, buffer: seq<byte>, more: seq<byte>)
    requires Parse(codec, buffer).Bad?
    ensures Drain(codec, buffer + more) == Drained([], buffer + more, true)
    ensures Parse(codec, buffer + more).Bad?
  {
    ParseStable(codec, buffer, more);
  }

  ghost predicate ShortHeader(codec: Codec, buffer: seq<byte>) {
    |buffer| >= 2 && FromBig2(buffer[..2]) < MinLength(codec)
  }

  /** A header below the minimum stalls the decoder for good, without raising. */
  lemma {:induction false} ShortHeaderIsSticky(codec: Codec, buffer: seq<byte>, chunks: seq<seq<byte>>)
    requires ShortHeader(codec, buffer)
    ensures Feed(codec, buffer, chunks) == Drained([], buffer + Flatten(chunks), false)
    decreases |chunks|
  {
    if chunks == [] {
      assert buffer + Flatten(chunks) == buffer;
    } else {
      var next := buffer + chunks[0];
      assert next[..2] == buffer[..2];
      ShortHeaderIsSticky(codec, next, chunks[1..]);
      assert buffer + Flatten(chunks) == next + Flatten(chunks[1..]);
    }
  }

  /** A piece that is one frame by itself. */
  ghost predicate WholeFrame(codec: Codec, f: seq<byte>) {
    Parse(codec, f).Frame? && Parse(codec, f).size == |f|
  }

  lemma ParseIsLocal(codec: Codec, x: seq<byte>)
    requires Parse(codec, x).Frame?
    ensures WholeFrame(codec, x[..Parse(codec, x).size])
    ensures Parse(codec, x[..Parse(codec, x).size]) == Parse(codec, x)
  {
    var size := Parse(codec, x).size;
    var f := x[..size];
    assert f[..2] == x[..2];
    assert size == FromBig2(x[..2]);
    if codec.VerifySimple? {
      var padding := x[2];
      assert f[size - 4..size] == x[size - 4..size];
      assert f[..size - 4] == x[..size - 4];
      assert f[2 + padding..size - 4] == x[2 + padding..size - 4];
    } else {
      assert f[2..size] == x[2..size];
    }
  }

  /** The pieces of wire that the decoder consumes as frames. */
  ghost function Frames(codec: Codec, x: seq<byte>): (frames: seq<seq<byte>>)
    ensures forall f :: f in frames ==> WholeFrame(codec, f)
    decreases |x|
  {
    hide Parse;
    var h := Parse(codec, x);
    if h.Frame? then
      ParseIsLocal(codec, x);
      [x[..h.size]] + Frames(codec, x[h.size..])
    else []
  }

  ghost function Payloads(codec: Codec, frames: seq<seq<byte>>): seq<byte> {
    if frames == [] then []
    else
      var h := Parse(codec, frames[0]);
      (if h.Frame? then h.payload else []) + Payloads(codec, frames[1..])
  }

  /** Nothing is lost or invented: the input is the consumed frames followed by the rest. */
  lemma {:induction false} DrainAccounts(codec: Codec, x: seq<byte>)
    ensures x == Flatten(Frames(codec, x)) + Drain(codec, x).rest
    decreases |x|
  {
    hide Parse, Flatten, WholeFrame;
    var h := Parse(codec, x);
    if h.Frame? {
      var f, tail := x[..h.size], x[h.size..];
      DrainAccounts(codec, tail);
      FlattenCons(f, Frames(codec, tail));
      Parts(x, h.size);
      Assoc(f, Flatten(Frames(codec, tail)), Drain(codec, tail).rest);
    } else {
      EmptyFlatten();
    }
  }

  lemma Parts(x: seq<byte>, n: nat)
    requires n <= |x|
    ensures x == x[..n] + x[n..]
  {
  }

  lemma EmptyFlatten()
    ensures Flatten<byte>([]) == []
  {
  }

  lemma FlattenCons(f: seq<byte>, frames: seq<seq<byte>>)
    ensures Flatten([f] + frames) == f + Flatten(frames)
  {
    assert ([f] + frames)[1..] == frames;
  }

  /** The output is the payloads of those frames, in order. */
  lemma {:induction false} DrainYieldsPayloads(codec: Codec, x: seq<byte>)
    ensures Drain(codec, x).out == Payloads(codec, Frames(codec, x))
    decreases |x|
  {
    hide Parse, WholeFrame;
    var h := Parse(codec, x);
    if !h.Frame? {
    } else {
      var tail := x[h.size..];
      DrainYieldsPayloads(codec, tail);
      ParseIsLocal(codec, x);
      assert Frames(codec, x)[1..] == Frames(codec, tail);
    }
  }

  // ----- Encoding -----

  function ChunkSize(codec: Codec): int {
    if codec.VerifySimple? then 8100 else 32700
  }

  /** zlib's documented bound on the size of a compressed buffer. */
  function CompressBound(n: nat): nat {
    n + n / 4096 + n / 16384 + n / 33554432 + 13
  }

  /**
   What is assumed of zlib at its default level: decompression inverts
   compression, the output starts with the header 78 9c of section 2.2 of
   RFC 1950 and has more than that, and it stays within the bound.
   */
  ghost predicate Lawful(codec: Codec) {
    codec.VerifyDeflate? ==>
      forall d: seq<byte> :: |d| <= 32700 ==>
        var c := codec.compress(d);
        2 < |c| <= CompressBound(|d|) && c[..2] == [0x78, 0x9c] && codec.decompress(c) == Some(d)
  }

  /** One frame of `encrypt`; `m` and `i` select the padding. */
  function EncodeFrame(codec: Codec, m: nat, i: nat, chunk: seq<byte>): (frame: seq<byte>)
    requires Lawful(codec) && 0 < |chunk| <= ChunkSize(codec)
    ensures MinLength(codec) <= |frame| < 0x1_0000
    ensures FromBig2(frame[..2]) == |frame|
  {
    match codec
    case VerifySimple(crc, padding) =>
      var pad := padding(m, i);
      var body := [|pad| + 1] + pad + chunk;
      var frame := Big2(|body| + 6) + body;
      var r := frame + Little4(Checksum(crc, frame));
      assert r[..2] == Big2(|body| + 6);
      r
    case VerifyDeflate(compress, _) =>
      var body := compress(chunk)[2..];
      var r := Big2(|body| + 2) + body;
      assert r[..2] == Big2(|body| + 2);
      r
  }

  lemma FrameDecodes(codec: Codec, m: nat, i: nat, chunk: seq<byte>)
    requires Lawful(codec) && 0 < |chunk| <= ChunkSize(codec)
    ensures Parse(codec, EncodeFrame(codec, m, i, chunk)) == Frame(chunk, |EncodeFrame(codec, m, i, chunk)|)
  {
    var wire := EncodeFrame(codec, m, i, chunk);
    match codec
    case VerifySimple(crc, padding) =>
      var pad := padding(m, i);
      var body := [|pad| + 1] + pad + chunk;
      var frame := Big2(|body| + 6) + body;
      var sum := Checksum(crc, frame);
      assert wire[|wire| - 4..|wire|] == Little4(sum);
      assert wire[..|wire| - 4] == frame;
      Little4RoundTrip(sum);
      assert wire[2] == |pad| + 1;
      assert wire[2 + wire[2]..|wire| - 4] == chunk;
    case VerifyDeflate(compress, decompress) =>
      var c := compress(chunk);
      assert wire[2..|wire|] == c[2..];
      assert [0x78, 0x9c] + c[2..] == c;
  }

  function Encode(codec: Codec, m: nat, i: nat, data: seq<byte>): seq<byte>
    requires Lawful(codec)
    decreases |data|
  {
    if data == [] then []
    else
      var n := if |data| < ChunkSize(codec) then |data| else ChunkSize(codec);
      EncodeFrame(codec, m, i, data[..n]) + Encode(codec, m, i + 1, data[n..])
  }

  lemma EncodeStep(codec: Codec, m: nat, i: nat, data: seq<byte>, start: nat, end: nat)
    requires Lawful(codec) && start < |data|
    requires end == if start + ChunkSize(codec) < |data| then start + ChunkSize(codec) else |data|
    ensures Encode(codec, m, i, data[start..])
         == EncodeFrame(codec, m, i, data[start..end]) + Encode(codec, m, i + 1, data[end..])
  {
    hide EncodeFrame, Lawful;
    assert data[start..][..end - start] == data[start..end];
    assert data[start..][end - start..] == data[end..];
  }

  /** The data cut into pieces of full size and a last one of at most that, and one frame for each. */
  ghost predicate Framed(
      codec: Codec, m: nat, i: nat, data: seq<byte>, wire: seq<byte>, pieces: seq<seq<byte>>, frames: seq<seq<byte>>)
  {
    var full := if codec.VerifySimple? then 8100 else 32700;
    Flatten(pieces) == data && Flatten(frames) == wire && |frames| == |pieces| &&
    (forall k :: 0 <= k < |pieces| ==> 0 < |pieces[k]| <= full && (k < |pieces| - 1 ==> |pieces[k]| == full)) &&
    forall k :: 0 <= k < |pieces| ==> Carries(codec, m, i + k, pieces[k], frames[k])
  }

  /** A frame as either plugin writes it, around one piece of data. */
  ghost predicate Carries(codec: Codec, m: nat, i: nat, piece: seq<byte>, frame: seq<byte>) {
    match codec
    case VerifySimple(crc, padding) => SimpleFrame(crc, frame, padding(m, i), piece)
    case VerifyDeflate(compress, _) =>
      |compress(piece)| < 0x1_0000 && 2 <= |compress(piece)| &&
      frame == [|compress(piece)| / 256, |compress(piece)| % 256] + compress(piece)[2..]
  }

  lemma FrameCarries(codec: Codec, m: nat, i: nat, piece: seq<byte>)
    requires Lawful(codec) && 0 < |piece| <= ChunkSize(codec)
    ensures Carries(codec, m, i, piece, EncodeFrame(codec, m, i, piece))
  {
    var f := EncodeFrame(codec, m, i, piece);
    if codec.VerifySimple? {
      var pad, n := codec.padding(m, i), |f|;
      var sum := Checksum(codec.crc, f[..n - 4]);
      assert f[..n - 4] == Big2(n) + [|pad| + 1] + pad + piece;
      assert f[n - 4..] == Little4(sum);
      assert f[n - 4] == Little4(sum)[0] && f[n - 3] == Little4(sum)[1];
      assert f[n - 2] == Little4(sum)[2] && f[n - 1] == Little4(sum)[3];
      Little4RoundTrip(sum);
      assert f[3..3 + |pad|] == pad && f[3 + |pad|..n - 4] == piece;
    }
  }

  lemma FramedCons(
      codec: Codec, m: nat, i: nat, piece: seq<byte>, frame: seq<byte>, data: seq<byte>, wire: seq<byte>,
      pieces: seq<seq<byte>>, frames: seq<seq<byte>>)
    requires Framed(codec, m, i + 1, data, wire, pieces, frames)
    requires 0 < |piece| <= ChunkSize(codec) && (data != [] ==> |piece| == ChunkSize(codec))
    requires Carries(codec, m, i, piece, frame)
    ensures Framed(codec, m, i, piece + data, frame + wire, [piece] + pieces, [frame] + frames)
  {
    hide Carries;
    var ps, fs := [piece] + pieces, [frame] + frames;
    FlattenCons(piece, pieces);
    FlattenCons(frame, frames);
    if pieces != [] {
      FlattenCons(pieces[0], pieces[1..]);
      assert [pieces[0]] + pieces[1..] == pieces;
    }
    forall k | 0 <= k < |ps| ensures Carries(codec, m, i + k, ps[k], fs[k]) {
      if k > 0 {
        assert Carries(codec, m, i + 1 + (k - 1), pieces[k - 1], frames[k - 1]);
      }
    }
  }

  lemma FramedNone(codec: Codec, m: nat, i: nat)
    requires Lawful(codec)
    ensures Framed(codec, m, i, [], Encode(codec, m, i, []), [], [])
  {
  }

  lemma {:induction false} EncodeIsFramed(codec: Codec, m: nat, i: nat, data: seq<byte>)
    returns (pieces: seq<seq<byte>>, frames: seq<seq<byte>>)
    requires Lawful(codec)
    ensures Framed(codec, m, i, data, Encode(codec, m, i, data), pieces, frames)
    decreases |data|
  {
    hide Carries, EncodeFrame, Encode, Lawful, Framed;
    if data == [] {
      pieces, frames := [], [];
      FramedNone(codec, m, i);
    } else {
      var n := if |data| < ChunkSize(codec) then |data| else ChunkSize(codec);
      var piece, rest := data[..n], data[n..];
      var frame := EncodeFrame(codec, m, i, piece);
      pieces, frames := EncodeIsFramed(codec, m, i + 1, rest);
      FrameCarries(codec, m, i, piece);
      FramedCons(codec, m, i, piece, frame, rest, Encode(codec, m, i + 1, rest), pieces, frames);
      assert data[0..] == data && data[0..n] == piece;
      EncodeStep(codec, m, i, data, 0, n);
      assert piece + rest == data;
      pieces, frames := [piece] + pieces, [frame] + frames;
    }
  }

  /** One call of `encrypt`; no frame length ever overflows its two-byte field. */
  method Encrypt(codec: Codec, m: nat, data: seq<byte>) returns (wire: seq<byte>)
    requires Lawful(codec)
    ensures wire == Encode(codec, m, 0, data)
    ensures exists pieces, frames :: Framed(codec, m, 0, data, wire, pieces, frames)
  {
    hide EncodeFrame, Encode, Lawful, Framed;
    wire := [];
    var start, i := 0, 0;
    while start < |data|
      invariant 0 <= start <= |data|
      invariant wire + Encode(codec, m, i, data[start..]) == Encode(codec, m, 0, data)
    {
      var end := if start + ChunkSize(codec) < |data| then start + ChunkSize(codec) else |data|;
      var frame := EncodeFrame(codec, m, i, data[start..end]);
      EncodeStep(codec, m, i, data, start, end);
      Assoc(wire, frame, Encode(codec, m, i + 1, data[end..]));
      wire := wire + frame;
      start, i := end, i + 1;
    }
    NothingToEncode(codec, m, i);
    assert data[start..] == [];
    ghost var pieces, frames := EncodeIsFramed(codec, m, 0, data);
  }

  lemma NothingToEncode(codec: Codec, m: nat, i: nat)
    requires Lawful(codec)
    ensures Encode(codec, m, i, []) == []
  {
  }

  lemma DrainFrame(codec: Codec, frame: seq<byte>, payload: seq<byte>, tail: seq<byte>)
    requires Parse(codec, frame) == Frame(payload, |frame|)
    ensures Drain(codec, frame + tail) == var d := Drain(codec, tail); d.(out := payload + d.out)
  {
    hide Parse;
    ParseStable(codec, frame, tail);
    assert (frame + tail)[|frame|..] == tail;
  }

  lemma {:induction false} EncodedDrains(codec: Codec, m: nat, i: nat, data: seq<byte>, rest: seq<byte>)
    requires Lawful(codec)
    ensures Drain(codec, Encode(codec, m, i, data) + rest)
         == var d := Drain(codec, rest); d.(out := data + d.out)
    decreases |data|
  {
    hide EncodeFrame, Parse, Lawful, Drain;
    var d := Drain(codec, rest);
    if data == [] {
      assert Encode(codec, m, i, data) + rest == rest;
      assert data + d.out == d.out;
    } else {
      var n := if |data| < ChunkSize(codec) then |data| else ChunkSize(codec);
      var chunk, others := data[..n], data[n..];
      var frame, tail := EncodeFrame(codec, m, i, chunk), Encode(codec, m, i + 1, others) + rest;
      assert Encode(codec, m, i, data) + rest == frame + tail;
      FrameDecodes(codec, m, i, chunk);
      DrainFrame(codec, frame, chunk, tail);
      EncodedDrains(codec, m, i + 1, others, rest);
      assert chunk + (others + d.out) == (chunk + others) + d.out;
      assert chunk + others == data;
    }
  }

  /** The wire image of a list of messages, each one `encrypt` call. */
  function EncodeAll(codec: Codec, m: nat, messages: seq<seq<byte>>): seq<byte>
    requires Lawful(codec)
    decreases |messages|
  {
    if messages == [] then []
    else Encode(codec, m, 0, messages[0]) + EncodeAll(codec, m + 1, messages[1..])
  }

  lemma {:induction false} AllDrain(codec: Codec, m: nat, messages: seq<seq<byte>>)
    requires Lawful(codec)
    ensures Drain(codec, EncodeAll(codec, m, messages)) == Drained(Flatten(messages), [], false)
    decreases |messages|
  {
    if messages == [] {
    } else {
      EncodedDrains(codec, m, 0, messages[0], EncodeAll(codec, m + 1, messages[1..]));
      AllDrain(codec, m + 1, messages[1..]);
    }
  }

  /**
   Round trip: whatever the messages, the paddings and the fragmentation of
   the wire, the decoder never raises, yields the messages and ends empty.
   */
  lemma RoundTrip(codec: Codec, messages: seq<seq<byte>>, chunks: seq<seq<byte>>)
    requires Lawful(codec)
    requires Flatten(chunks) == EncodeAll(codec, 0, messages)
    ensures Feed(codec, [], chunks) == Drained(Flatten(messages), [], false)
  {
    hide Parse, Drain, Feed, EncodeAll, Lawful;
    AllDrain(codec, 0, messages);
    EmptyIsQuiet(codec);
    Fragmentation(codec, [], chunks);
    assert [] + Flatten(chunks) == Flatten(chunks);
  }

  /** While the wire is still arriving, what was delivered is a prefix of what was sent. */
  lemma NeverAhead(codec: Codec, messages: seq<seq<byte>>, chunks: seq<seq<byte>>)
    requires Lawful(codec)
    requires Flatten(chunks) <= EncodeAll(codec, 0, messages)
    ensures !Feed(codec, [], chunks).raised
    ensures Feed(codec, [], chunks).out <= Flatten(messages)
  {
    hide Parse, Drain, Feed, EncodeAll, Lawful;
    var x := Flatten(chunks);
    var y := EncodeAll(codec, 0, messages)[|x|..];
    assert x + y == EncodeAll(codec, 0, messages);
    AllDrain(codec, 0, messages);
    DrainSplit(codec, x, y);
    EmptyIsQuiet(codec);
    Fragmentation(codec, [], chunks);
    assert [] + x == x;
    assert Drain(codec, x).out <= Drain(codec, x + y).out;
  }

  /** The assumptions on zlib can be met: a compressor that stores its input behind the header. */
  lemma LawfulIsPossible()
    ensures exists codec: Codec :: codec.VerifyDeflate? && Lawful(codec)
  {
    var codec := VerifyDeflate(
      (d: seq<byte>) => [0x78, 0x9c, 0x00] + d,
      (c: seq<byte>) => if |c| < 3 then None else Some(c[3..]));
    forall d: seq<byte> ensures codec.decompress(codec.compress(d)) == Some(d) {
      assert ([0x78, 0x9c, 0x00] + d)[3..] == d;
    }
    assert Lawful(codec);
  }
}
