// The native messaging channel: messages framed by a 4-byte little-endian length, read from a byte
// stream that arrives in arbitrary chunks.
module Framing {
  import opened Text

  type Byte = b: int | 0 <= b < 256
  type Bytes = seq<Byte>

  const MAX_MESSAGE_SIZE: nat := 0x10_0000
  const WORD: nat := 0x1_0000_0000

  // ---------- Frames ----------

  // binary.LittleEndian.PutUint32
  function PutUint32(n: nat): (r: Bytes)
    requires n < WORD
    ensures |r| == 4
  {
    [n % 256, n / 256 % 256, n / 65536 % 256, n / 16777216]
  }

  // binary.LittleEndian.Uint32
  function Uint32(b: Bytes): (n: nat)
    requires |b| == 4
    ensures n < WORD
  {
    var b0: int, b1: int, b2: int, b3: int := b[0], b[1], b[2], b[3];
    b0 + 256 * b1 + 65536 * b2 + 16777216 * b3
  }

  lemma Uint32RoundTrip(n: nat)
    requires n < WORD
    ensures Uint32(PutUint32(n)) == n
  {
    assert n / 65536 == n / 256 / 256 && n / 16777216 == n / 65536 / 256;
  }

  // What WriteResponse puts on the wire; the length is truncated to 32 bits.
  function Frame(body: Bytes): Bytes
  {
    PutUint32(|body| % WORD) + body
  }

  function Stream(bodies: seq<Bytes>): Bytes
  {
    if bodies == [] then [] else Frame(bodies[0]) + Stream(bodies[1..])
  }

  // ---------- Reading, as a function of the unread bytes ----------

  datatype Outcome = Body(body: Bytes) | Eof | UnexpectedEof | TooLarge(size: nat)

  // io.ReadFull ends with EOF when not a single byte is left, and with "unexpected EOF" when some are.
  function ShortRead(available: nat): Outcome
  {
    if available == 0 then Eof else UnexpectedEof
  }

  // What follows a header that announces a body of some size.
  function NextBody(size: nat, input: Bytes): Outcome
  {
    if size > MAX_MESSAGE_SIZE then TooLarge(size)
    else if |input| < size then ShortRead(|input|)
    else Body(input[..size])
  }

  function NextFrame(input: Bytes): (r: Outcome)
    ensures r.Body? ==> |input| >= 4 + |r.body|
  {
    if |input| < 4 then ShortRead(|input|) else NextBody(Uint32(input[..4]), input[4..])
  }

  // The bodies read until the first failure.
  function Bodies(input: Bytes): seq<Bytes>
    decreases |input|
  {
    match NextFrame(input)
    case Body(body) => [body] + Bodies(input[4 + |body|..])
    case _ => []
  }

  // The failure that ends reading.
  function Ending(input: Bytes): Outcome
    decreases |input|
  {
    match NextFrame(input)
    case Body(body) => Ending(input[4 + |body|..])
    case other => other
  }

  // ---------- The code ----------

  // The reader's end of a pipe: what has not been read yet.
  class Input {
    var unread: Bytes

    constructor (bytes: Bytes)
      ensures unread == bytes
    {
      unread := bytes;
    }

    // io.Reader: some bytes, at most as many as asked for; none only at the end.
    method Read(max: nat) returns (chunk: Bytes)
      requires max > 0
      modifies this
      ensures |chunk| <= max && (chunk == [] <==> old(unread) == [])
      ensures old(unread) == chunk + unread
    {
      if unread == [] {
        return [];
      }
      var n :| 1 <= n <= max && n <= |unread|;
      chunk := unread[..n];
      unread := unread[n..];
    }

    // io.ReadFull: fills the buffer chunk by chunk. None is success.
    method ReadFull(buf: array<Byte>) returns (failure: Option<Outcome>)
      modifies this, buf
      ensures buf.Length <= old(|unread|) ==>
        failure == None && buf[..] == old(unread)[..buf.Length] && unread == old(unread)[buf.Length..]
      ensures buf.Length > old(|unread|) ==> failure == Some(ShortRead(old(|unread|))) && unread == []
    {
      var n := 0;
      while n < buf.Length
        invariant 0 <= n <= buf.Length && n <= old(|unread|)
        invariant buf[..n] == old(unread)[..n] && unread == old(unread)[n..]
      {
        var chunk := Read(buf.Length - n);
        if chunk == [] {
          return Some(if n == 0 then Eof else UnexpectedEof);
        }
        CopyChunk(buf, n, chunk);
        assert old(unread)[n..] == chunk + unread;
        assert old(unread)[..n + |chunk|] == old(unread)[..n] + chunk;
        n := n + |chunk|;
      }
      failure := None;
    }

    method CopyChunk(buf: array<Byte>, at: nat, chunk: Bytes)
      requires at + |chunk| <= buf.Length
      modifies buf
      ensures buf[..at + |chunk|] == old(buf[..at]) + chunk
    {
      for k := 0 to |chunk|
        invariant buf[..at] == old(buf[..at]) && buf[at..at + k] == chunk[..k]
      {
        buf[at + k] := chunk[k];
      }
    }

    // One frame, as ReadRequest reads it: header buffer, size check, body buffer.
    method ReadFrame() returns (r: Outcome)
      modifies this
      ensures r == NextFrame(old(unread))
      ensures match r
              case Body(body) => unread == old(unread)[4 + |body|..]
              case TooLarge(_) => unread == old(unread)[4..]
              case _ => unread == []
    {
      var lenBuf := new Byte[4];
      var failure := ReadFull(lenBuf);
      if failure.Some? {
        return failure.value;
      }
      var size := Uint32(lenBuf[..]);
      if size > MAX_MESSAGE_SIZE {
        return TooLarge(size);
      }
      var msgBuf := new Byte[size];
      failure := ReadFull(msgBuf);
      if failure.Some? {
        return failure.value;
      }
      r := Body(msgBuf[..]);
    }
  }

  class Output {
    var written: Bytes

    constructor ()
      ensures written == []
    {
      written := [];
    }

    method Write(data: Bytes)
      modifies this
      ensures written == old(written) + data
    {
      written := written + data;
    }

    // WriteResponse, after marshaling: header, then body.
    method WriteFrame(data: Bytes)
      modifies this
      ensures written == old(written) + Frame(data)
    {
      Write(PutUint32(|data| % WORD));
      Write(data);
      assert old(written) + PutUint32(|data| % WORD) + data == old(written) + Frame(data);
    }
  }

  // The requests before the first body that does not decode.
  function Decodable<R>(bodies: seq<Bytes>, decode: Bytes -> Option<R>): seq<R>
  {
    if bodies == [] || decode(bodies[0]).None? then []
    else [decode(bodies[0]).value] + Decodable(bodies[1..], decode)
  }

  function Replies<R>(requests: seq<R>, handle: R -> Bytes): Bytes
  {
    if requests == [] then [] else Frame(handle(requests[0])) + Replies(requests[1..], handle)
  }

  // The answers to everything the input holds.
  function AllReplies<R>(input: Bytes, decode: Bytes -> Option<R>, handle: R -> Bytes): Bytes
  {
    Replies(Decodable(Bodies(input), decode), handle)
  }

  // The host's main loop: answers every request in order until the input ends or a message is
  // truncated, too large or not a request, however the input is chunked.
  method Serve<R>(input: Input, output: Output, decode: Bytes -> Option<R>, handle: R -> Bytes)
    modifies input, output
    ensures output.written == old(output.written) + AllReplies(old(input.unread), decode, handle)
  {
    ghost var all := output.written + AllReplies(input.unread, decode, handle);
    while true
      invariant output.written + AllReplies(input.unread, decode, handle) == all
      decreases |input.unread|
    {
      ghost var before := input.unread;
      var r := input.ReadFrame();
      if !r.Body? {
        NoReplies(before, decode, handle);
        break;
      }
      var req := decode(r.body);
      if req.None? {
        NoReplies(before, decode, handle);
        break;
      }
      RepliesStep(before, input.unread, decode, handle);
      output.WriteFrame(handle(req.value));
    }
  }

  lemma NoReplies<R>(input: Bytes, decode: Bytes -> Option<R>, handle: R -> Bytes)
    requires NextFrame(input).Body? ==> decode(NextFrame(input).body).None?
    ensures AllReplies(input, decode, handle) == []
  {
  }

  lemma RepliesStep<R>(before: Bytes, after: Bytes, decode: Bytes -> Option<R>, handle: R -> Bytes)
    requires NextFrame(before).Body? && after == before[4 + |NextFrame(before).body|..]
    requires decode(NextFrame(before).body).Some?
    ensures AllReplies(before, decode, handle)
         == Frame(handle(decode(NextFrame(before).body).value)) + AllReplies(after, decode, handle)
  {
    var body := NextFrame(before).body;
    assert Bodies(before) == [body] + Bodies(after);
    assert Bodies(before)[1..] == Bodies(after);
    var requests := Decodable(Bodies(before), decode);
    assert requests == [decode(body).value] + Decodable(Bodies(after), decode);
    assert requests[1..] == Decodable(Bodies(after), decode);
  }

  // ---------- Round trips ----------

  // A header announces the body's length, as far as 32 bits reach.
  lemma HeaderAnnounces(body: Bytes, tail: Bytes)
    ensures NextFrame(PutUint32(|body| % WORD) + tail) == NextBody(|body| % WORD, tail)
  {
    var input := PutUint32(|body| % WORD) + tail;
    assert input[..4] == PutUint32(|body| % WORD) && input[4..] == tail;
    Uint32RoundTrip(|body| % WORD);
  }

  // A frame reads back as its body exactly when the body is at most 1 MiB.
  lemma FrameRoundTripIff(body: Bytes, rest: Bytes)
    ensures NextFrame(Frame(body) + rest) == Body(body) <==> |body| <= MAX_MESSAGE_SIZE
    ensures |body| <= MAX_MESSAGE_SIZE ==> (Frame(body) + rest)[4 + |body|..] == rest
  {
    HeaderAnnounces(body, body + rest);
    assert Frame(body) + rest == PutUint32(|body| % WORD) + (body + rest);
    assert (body + rest)[..|body|] == body;
  }

  predicate AllFit(bodies: seq<Bytes>)
  {
    forall i :: 0 <= i < |bodies| ==> |bodies[i]| <= MAX_MESSAGE_SIZE
  }

  lemma ReadPast(body: Bytes, rest: Bytes)
    requires |body| <= MAX_MESSAGE_SIZE
    ensures Bodies(Frame(body) + rest) == [body] + Bodies(rest)
    ensures Ending(Frame(body) + rest) == Ending(rest)
  {
    FrameRoundTripIff(body, rest);
  }

  // A stream of frames of at most 1 MiB reads back as exactly its bodies, and then a clean end.
  lemma {:induction false} StreamRoundTrip(bodies: seq<Bytes>)
    requires AllFit(bodies)
    ensures Bodies(Stream(bodies)) == bodies && Ending(Stream(bodies)) == Eof
  {
    if bodies != [] {
      ReadPast(bodies[0], Stream(bodies[1..]));
      StreamRoundTrip(bodies[1..]);
      assert bodies == [bodies[0]] + bodies[1..];
    }
  }

  // Positions of a stream where the reader cannot tell that more was to come: between two frames,
  // and right behind the header of a non-empty body.
  predicate IsSeam(bodies: seq<Bytes>, cut: nat)
  {
    bodies != [] && (
      cut == 0 || (cut == 4 && bodies[0] != [])
      || (cut >= 4 + |bodies[0]| && IsSeam(bodies[1..], cut - 4 - |bodies[0]|)))
  }

  // A cut inside a frame.
  lemma CutFrame(body: Bytes, rest: Bytes, cut: nat)
    requires |body| <= MAX_MESSAGE_SIZE && cut < 4 + |body|
    ensures NextFrame((Frame(body) + rest)[..cut]) == if cut == 0 || cut == 4 then Eof else UnexpectedEof
  {
    if cut >= 4 {
      HeaderAnnounces(body, body[..cut - 4]);
      assert (Frame(body) + rest)[..cut] == PutUint32(|body| % WORD) + body[..cut - 4];
    }
  }

  lemma CutInFirstFrame(body: Bytes, rest: Bytes, cut: nat)
    requires |body| <= MAX_MESSAGE_SIZE && cut < 4 + |body|
    ensures Bodies((Frame(body) + rest)[..cut]) == []
    ensures Ending((Frame(body) + rest)[..cut]) == if cut == 0 || cut == 4 then Eof else UnexpectedEof
  {
    CutFrame(body, rest, cut);
  }

  lemma CutBehindFrame(body: Bytes, rest: Bytes, cut: nat)
    requires 4 + |body| <= cut <= |Frame(body) + rest|
    ensures (Frame(body) + rest)[..cut] == Frame(body) + rest[..cut - 4 - |body|]
  {
  }

  lemma PrefixBehind(first: Bytes, got: seq<Bytes>, bodies: seq<Bytes>)
    requires bodies != [] && first == bodies[0] && got < bodies[1..]
    ensures [first] + got < bodies
  {
    assert bodies == [first] + bodies[1..];
  }

  // A stream cut short yields fewer bodies, all of them right, and then an end of input; the end is
  // reported as a clean one exactly at the seams.
  lemma {:induction false} TruncatedStream(bodies: seq<Bytes>, cut: nat)
    requires AllFit(bodies)
    requires cut < |Stream(bodies)|
    ensures Bodies(Stream(bodies)[..cut]) < bodies
    ensures Ending(Stream(bodies)[..cut]) == if IsSeam(bodies, cut) then Eof else UnexpectedEof
  {
    var body, rest := bodies[0], Stream(bodies[1..]);
    assert Stream(bodies) == Frame(body) + rest;
    if cut < 4 + |body| {
      CutInFirstFrame(body, rest, cut);
    } else {
      var left := rest[..cut - 4 - |body|];
      ReadPast(body, left);
      TruncatedStream(bodies[1..], cut - 4 - |body|);
      CutBehindFrame(body, rest, cut);
      PrefixBehind(body, Bodies(left), bodies);
    }
  }

  // The header is little-endian: the number modulo 256 comes first, and the bytes behind it spell
  // the number divided by 256.
  lemma HeaderIsLittleEndian(n: nat, low: Byte)
    requires n < 0x100_0000
    ensures PutUint32(256 * n + low) == [low] + PutUint32(n)[..3]
    ensures PutUint32(low) == [low, 0, 0, 0]
  {
    var m := 256 * n + low;
    assert m % 256 == low && m / 256 == n;
    assert m / 65536 == m / 256 / 256 && m / 16777216 == m / 256 / 65536;
    assert n / 65536 % 256 == n / 65536;
  }
}
