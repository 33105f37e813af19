/** Length-prefixed binary framing (`src/proto_postcard/mod.rs`).

    A frame is the payload's length as 8 big-endian bytes, followed by the
    payload. The payload serialiser is a parameter of every operation:
    `encode` may fail (postcard's `to_allocvec` error), `decode` answers
    `None` for bytes that are not a value of the target type. */
module PostcardFrame {
  import opened Io
  import opened BigEndian

  const U64_LIMIT: nat := 0x1_0000_0000_0000_0000

  /** A `Vec<u8>`: its length is a `usize`. */
  type Payload = p: seq<byte> | |p| < U64_LIMIT

  lemma Pow256Eight()
    ensures Pow256(8) == U64_LIMIT
  {
  }

  /** The bytes `write_u64_be` writes for `v`. */
  function EncodeU64(v: nat): (r: seq<byte>)
    requires v < U64_LIMIT
    ensures |r| == 8
  {
    Pow256Eight();
    ToBytes(v, 8)
  }

  /** What `read_u64_be` makes of a stream: the value and the bytes after it. */
  function DecodeU64(s: seq<byte>): (r: Result<(nat, seq<byte>)>)
    ensures r.Ok? <==> |s| >= 8
    ensures r.Err? ==> r.error == UnexpectedEof
    ensures r.Ok? ==> r.value.0 < U64_LIMIT && |r.value.1| == |s| - 8
  {
    Pow256Eight();
    if |s| < 8 then Err(UnexpectedEof) else Ok((FromBytes(s[..8]), s[8..]))
  }

  /** `write_u64_be` emits most significant byte first. */
  lemma EncodeU64At(v: nat, i: nat)
    requires v < U64_LIMIT && i < 8
    ensures EncodeU64(v)[i] as int == v / Pow256(7 - i) % 256
  {
    Pow256Eight();
    ToBytesAt(v, 8, i);
  }

  /** Reading back what `write_u64_be` wrote gives the value and consumes
      exactly 8 bytes. */
  lemma U64RoundTrip(v: nat, rest: seq<byte>)
    requires v < U64_LIMIT
    ensures DecodeU64(EncodeU64(v) + rest) == Ok((v, rest))
  {
    Pow256Eight();
    var s := EncodeU64(v) + rest;
    assert s[..8] == ToBytes(v, 8);
    FromToBytes(v, 8);
  }

  /** Every 8-byte prefix is the encoding of the value read from it. */
  lemma DecodeU64Inverse(s: seq<byte>)
    requires DecodeU64(s).Ok?
    ensures s == EncodeU64(DecodeU64(s).value.0) + DecodeU64(s).value.1
  {
    Pow256Eight();
    ToFromBytes(s[..8]);
    assert s == s[..8] + s[8..];
  }

  /** One frame around `p`. */
  function Frame(p: Payload): (r: seq<byte>)
    ensures |r| == 8 + |p|
  {
    EncodeU64(|p|) + p
  }

  /** Split a stream into the payload of its first frame and what follows. */
  function ParseFrame(s: seq<byte>): (r: Result<(seq<byte>, seq<byte>)>)
    ensures r.Err? ==> r.error == UnexpectedEof
    ensures r.Ok? ==> 8 + |r.value.0| + |r.value.1| == |s|
  {
    match DecodeU64(s)
    case Err(e) => Err(e)
    case Ok((n, rest)) => if |rest| < n then Err(UnexpectedEof) else Ok((rest[..n], rest[n..]))
  }

  /** The outcome of one `receive_proto` and the unread rest of the stream. */
  datatype Received<T> = Received(result: Result<T>, rest: seq<byte>)

  /** `receive_proto` on a stream. After a short read the stream is drained;
      after an undecodable payload the frame has been consumed. */
  function Receive<T>(s: seq<byte>, decode: seq<byte> -> Option<T>): (r: Received<T>)
    ensures |r.rest| <= |s|
    ensures r.result.Ok? ==> |r.rest| + 8 <= |s|
  {
    match ParseFrame(s)
    case Err(e) => Received(Err(e), [])
    case Ok((payload, rest)) =>
      match decode(payload)
      case None => Received(Err(InvalidData), rest)
      case Some(m) => Received(Ok(m), rest)
  }

  lemma ParseFrameRoundTrip(p: Payload, rest: seq<byte>)
    ensures ParseFrame(Frame(p) + rest) == Ok((p, rest))
  {
    var s := Frame(p) + rest;
    assert s == EncodeU64(|p|) + (p + rest);
    U64RoundTrip(|p|, p + rest);
    assert (p + rest)[..|p|] == p;
    assert (p + rest)[|p|..] == rest;
  }

  /** A frame is received as what the decoder makes of its payload, and
      exactly the bytes after it are left for the next frame. */
  lemma FrameRoundTrip<T>(p: Payload, rest: seq<byte>, decode: seq<byte> -> Option<T>)
    ensures Receive(Frame(p) + rest, decode) ==
      match decode(p)
      case Some(m) => Received(Ok(m), rest)
      case None => Received(Err(InvalidData), rest)
  {
    ParseFrameRoundTrip(p, rest);
  }

  /** Framing is unambiguous: a successful parse splits the stream into
      one whole frame and the rest. */
  lemma ParseFrameInverse(s: seq<byte>)
    requires ParseFrame(s).Ok?
    ensures |ParseFrame(s).value.0| < U64_LIMIT
    ensures s == Frame(ParseFrame(s).value.0) + ParseFrame(s).value.1
  {
    DecodeU64Inverse(s);
    var (n, rest) := DecodeU64(s).value;
    assert rest == rest[..n] + rest[n..];
  }

  /** A message is received only from a whole frame whose payload decodes
      to it. */
  lemma ReceiveInverse<T>(s: seq<byte>, decode: seq<byte> -> Option<T>)
    requires Receive(s, decode).result.Ok?
    ensures ParseFrame(s).Ok?
    ensures var (p, rest) := ParseFrame(s).value;
      |p| < U64_LIMIT && s == Frame(p) + rest &&
      decode(p) == Some(Receive(s, decode).result.value) && Receive(s, decode).rest == rest
  {
    ParseFrameInverse(s);
  }

  /** A stream that ends anywhere inside a frame yields `UnexpectedEof`,
      never a message. */
  lemma TruncatedFrame<T>(p: Payload, k: nat, decode: seq<byte> -> Option<T>)
    requires k < |Frame(p)|
    ensures Receive(Frame(p)[..k], decode) == Received(Err(UnexpectedEof), [])
  {
    var s := Frame(p)[..k];
    if k >= 8 {
      U64RoundTrip(|p|, p);
      assert s[..8] == Frame(p)[..8];
      assert DecodeU64(s).value.0 == |p|;
    }
  }

  /** The bytes `send_proto` writes for `m`, or its serialisation error. */
  function SendBytes<T>(m: T, encode: T -> Option<Payload>): (r: Result<seq<byte>>)
    ensures r.Err? <==> encode(m).None?
    ensures r.Err? ==> r.error == InvalidData
  {
    match encode(m)
    case None => Err(InvalidData)
    case Some(p) => Ok(Frame(p))
  }

  /** The concatenation of the frames of `ms`, written back to back. */
  function FramesOf<T>(ms: seq<T>, encode: T -> Option<Payload>): seq<byte>
    requires forall i :: 0 <= i < |ms| ==> encode(ms[i]).Some?
  {
    if ms == [] then [] else Frame(encode(ms[0]).value) + FramesOf(ms[1..], encode)
  }

  /** Receive messages one after the other until the first failure:
      the messages and the error that ended the sequence. */
  function ReceiveAll<T>(s: seq<byte>, decode: seq<byte> -> Option<T>): (seq<T>, IoError)
    decreases |s|
  {
    var r := Receive(s, decode);
    match r.result
    case Err(e) => ([], e)
    case Ok(m) => var (ms, e) := ReceiveAll(r.rest, decode); ([m] + ms, e)
  }

  lemma ReceiveAllStep<T>(s: seq<byte>, decode: seq<byte> -> Option<T>, m: T)
    requires Receive(s, decode).result == Ok(m)
    ensures var next := ReceiveAll(Receive(s, decode).rest, decode);
      ReceiveAll(s, decode) == ([m] + next.0, next.1)
  {
  }

  /** Frames written back to back are received in the same order with
      the same values, and then the receive loop goes on with what follows. */
  lemma {:induction false} FramesRoundTrip<T>(ms: seq<T>, rest: seq<byte>,
                                              encode: T -> Option<Payload>,
                                              decode: seq<byte> -> Option<T>)
    requires forall i :: 0 <= i < |ms| ==> encode(ms[i]).Some? && decode(encode(ms[i]).value) == Some(ms[i])
    ensures ReceiveAll(FramesOf(ms, encode) + rest, decode) ==
      (ms + ReceiveAll(rest, decode).0, ReceiveAll(rest, decode).1)
  {
    var after := ReceiveAll(rest, decode);
    if ms == [] {
      assert FramesOf(ms, encode) + rest == rest;
      assert ms + after.0 == after.0;
    } else {
      var p := encode(ms[0]).value;
      var tail := FramesOf(ms[1..], encode) + rest;
      assert FramesOf(ms, encode) + rest == Frame(p) + tail;
      assert ReceiveAll(tail, decode) == (ms[1..] + after.0, after.1) by {
        FramesRoundTrip(ms[1..], rest, encode, decode);
      }
      assert Receive(Frame(p) + tail, decode).rest == tail by {
        FrameRoundTrip(p, tail, decode);
      }
      assert ReceiveAll(Frame(p) + tail, decode) == ([ms[0]] + ReceiveAll(tail, decode).0, ReceiveAll(tail, decode).1) by {
        FrameRoundTrip(p, tail, decode);
        ReceiveAllStep(Frame(p) + tail, decode, ms[0]);
      }
      ConsAppend(ms, after.0);
    }
  }

  lemma ConsAppend<T>(xs: seq<T>, ys: seq<T>)
    requires xs != []
    ensures xs + ys == [xs[0]] + (xs[1..] + ys)
  {
    assert xs == [xs[0]] + xs[1..];
  }

  /** `read_u64_be`: fill a zeroed 8-byte buffer and read it big-endian. */
  method ReadU64Be(r: Source<byte>) returns (res: Result<nat>)
    requires r.Valid()
    modifies r
    ensures r.Valid()
    ensures match DecodeU64(old(r.Remaining()))
      case Ok((v, rest)) => res == Ok(v) && r.Remaining() == rest
      case Err(e) => res == Err(e) && r.Remaining() == []
  {
    var buf := new byte[8];
    var ok := r.ReadExact(buf);
    if !ok {
      return Err(UnexpectedEof);
    }
    res := Ok(FromBytes(buf[..]));
  }

  /** `write_u64_be`. */
  method WriteU64Be(w: Sink<byte>, v: nat)
    requires v < U64_LIMIT
    modifies w
    ensures w.delivered == old(w.delivered) && w.buffered == old(w.buffered) + EncodeU64(v)
  {
    Pow256Eight();
    w.WriteAll(ToBytes(v, 8));
  }

  /** `ProtoPostcard::receive_proto`. */
  method ReceiveProto<T>(r: Source<byte>, decode: seq<byte> -> Option<T>) returns (res: Result<T>)
    requires r.Valid()
    modifies r
    ensures r.Valid()
    ensures Received(res, r.Remaining()) == Receive(old(r.Remaining()), decode)
  {
    var len := ReadU64Be(r);
    if len.Err? {
      return Err(len.error);
    }
    var buf := new byte[len.value];
    var ok := r.ReadExact(buf);
    if !ok {
      return Err(UnexpectedEof);
    }
    match decode(buf[..])
    case None => res := Err(InvalidData);
    case Some(m) => res := Ok(m);
  }

  /** `ProtoPostcard::send_proto`: on success the frame follows whatever
      was written before, and everything has been flushed. */
  method SendProto<T>(w: Sink<byte>, m: T, encode: T -> Option<Payload>) returns (res: Result<()>)
    modifies w
    ensures match SendBytes(m, encode)
      case Err(e) => res == Err(e) && w.delivered == old(w.delivered) && w.buffered == old(w.buffered)
      case Ok(frame) => res == Ok(()) && w.delivered == old(w.delivered) + old(w.buffered) + frame && w.buffered == []
  {
    var bytes := encode(m);
    if bytes.None? {
      return Err(InvalidData);
    }
    WriteU64Be(w, |bytes.value|);
    w.WriteAll(bytes.value);
    w.Flush();
    res := Ok(());
  }
}
