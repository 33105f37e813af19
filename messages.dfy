/** The two message families of the exchange (`C2SMsg`, `S2CMsg`) and a
    payload serialiser for them.

    The serialiser stands in for postcard: it is not postcard's wire
    format, only some encoding that fails when a value is too long for a
    `usize`-sized buffer and whose decoder inverts it. Integers are 8 bytes
    two's complement big-endian, a `char` is its scalar value in 3 bytes,
    a string is its length in 8 bytes followed by its chars; a leading tag
    byte selects the variant, and bytes after the value are ignored (as
    `postcard::from_bytes` ignores them). */
module Messages {
  import opened Io
  import opened BigEndian
  import opened PostcardFrame

  /** Client-to-server messages. */
  datatype C2SMsg = Request(expression: string) | Reply(value: int64)

  /** Server-to-client messages. */
  datatype S2CMsg = Response(result: int64) | Query(symbol: char) | Log(text: string) | BadSeq

  function EncodeInt64(v: int64): (r: seq<byte>)
    ensures |r| == 8
  {
    Pow256Eight();
    ToBytes(if v < 0 then v + U64_LIMIT else v, 8)
  }

  function DecodeInt64(s: seq<byte>): int64
    requires |s| == 8
  {
    Pow256Eight();
    var u := FromBytes(s);
    if u >= 0x8000_0000_0000_0000 then u - U64_LIMIT else u
  }

  lemma Int64RoundTrip(v: int64)
    ensures DecodeInt64(EncodeInt64(v)) == v
  {
    Pow256Eight();
    FromToBytes(if v < 0 then v + U64_LIMIT else v, 8);
  }

  predicate IsScalar(n: nat) {
    n < 0xD800 || 0xE000 <= n < 0x11_0000
  }

  function EncodeChar(c: char): (r: seq<byte>)
    ensures |r| == 3
  {
    ToBytes(c as int, 3)
  }

  function DecodeChar(s: seq<byte>): Option<char>
    requires |s| == 3
  {
    var n := FromBytes(s);
    if IsScalar(n) then Some(n as char) else None
  }

  lemma CharRoundTrip(c: char)
    ensures DecodeChar(EncodeChar(c)) == Some(c)
  {
    FromToBytes(c as int, 3);
  }

  function EncodeChars(s: string): (r: seq<byte>)
    ensures |r| == 3 * |s|
  {
    if s == [] then [] else EncodeChar(s[0]) + EncodeChars(s[1..])
  }

  /** Decode `count` chars from the front of `b`: the chars and the bytes after them. */
  function DecodeChars(b: seq<byte>, count: nat): Option<(string, seq<byte>)>
    decreases count
  {
    if count == 0 then Some(([], b))
    else if |b| < 3 then None
    else match DecodeChar(b[..3])
      case None => None
      case Some(c) =>
        match DecodeChars(b[3..], count - 1)
        case None => None
        case Some((cs, rest)) => Some(([c] + cs, rest))
  }

  lemma {:induction false} CharsRoundTrip(s: string, rest: seq<byte>)
    ensures DecodeChars(EncodeChars(s) + rest, |s|) == Some((s, rest))
  {
    if s != [] {
      var b := EncodeChars(s) + rest;
      assert b == EncodeChar(s[0]) + (EncodeChars(s[1..]) + rest);
      assert b[..3] == EncodeChar(s[0]);
      assert b[3..] == EncodeChars(s[1..]) + rest;
      CharRoundTrip(s[0]);
      assert DecodeChar(b[..3]) == Some(s[0]);
      CharsRoundTrip(s[1..], rest);
      assert DecodeChars(b[3..], |s| - 1) == Some((s[1..], rest));
      assert [s[0]] + s[1..] == s;
    } else {
      assert EncodeChars(s) + rest == rest;
    }
  }

  /** A string fits when its encoded tagged form stays below 2^64 bytes. */
  predicate FitsPayload(s: string) {
    1 + 8 + 3 * |s| < U64_LIMIT
  }

  function EncodeString(s: string): (r: seq<byte>)
    requires FitsPayload(s)
    ensures |r| == 8 + 3 * |s|
  {
    EncodeU64(|s|) + EncodeChars(s)
  }

  function DecodeString(b: seq<byte>): Option<(string, seq<byte>)> {
    match DecodeU64(b)
    case Err(_) => None
    case Ok((n, rest)) => DecodeChars(rest, n)
  }

  lemma StringRoundTrip(s: string, rest: seq<byte>)
    requires FitsPayload(s)
    ensures DecodeString(EncodeString(s) + rest) == Some((s, rest))
  {
    assert EncodeString(s) + rest == EncodeU64(|s|) + (EncodeChars(s) + rest);
    U64RoundTrip(|s|, EncodeChars(s) + rest);
    CharsRoundTrip(s, rest);
  }

  function EncodeC2S(m: C2SMsg): (r: Option<Payload>)
    ensures r.None? <==> m.Request? && !FitsPayload(m.expression)
  {
    match m
    case Request(e) => if FitsPayload(e) then Some([0 as byte] + EncodeString(e)) else None
    case Reply(v) => Some([1 as byte] + EncodeInt64(v))
  }

  function DecodeC2S(p: seq<byte>): Option<C2SMsg> {
    if |p| == 0 then None
    else if p[0] == 0 then
      match DecodeString(p[1..])
      case None => None
      case Some((e, _)) => Some(Request(e))
    else if p[0] == 1 && |p| >= 9 then Some(Reply(DecodeInt64(p[1..9])))
    else None
  }

  function EncodeS2C(m: S2CMsg): (r: Option<Payload>)
    ensures r.None? <==> m.Log? && !FitsPayload(m.text)
  {
    match m
    case Response(v) => Some([0 as byte] + EncodeInt64(v))
    case Query(c) => Some([1 as byte] + EncodeChar(c))
    case Log(t) => if FitsPayload(t) then Some([2 as byte] + EncodeString(t)) else None
    case BadSeq => Some([3 as byte])
  }

  function DecodeS2C(p: seq<byte>): Option<S2CMsg> {
    if |p| == 0 then None
    else if p[0] == 0 && |p| >= 9 then Some(Response(DecodeInt64(p[1..9])))
    else if p[0] == 1 && |p| >= 4 then
      match DecodeChar(p[1..4])
      case None => None
      case Some(c) => Some(Query(c))
    else if p[0] == 2 then
      match DecodeString(p[1..])
      case None => None
      case Some((t, _)) => Some(Log(t))
    else if p[0] == 3 then Some(BadSeq)
    else None
  }

  /** Every client message that can be serialised decodes back to itself. */
  lemma C2SRoundTrip(m: C2SMsg)
    requires EncodeC2S(m).Some?
    ensures DecodeC2S(EncodeC2S(m).value) == Some(m)
  {
    var p := EncodeC2S(m).value;
    match m
    case Request(e) =>
      assert p[1..] == EncodeString(e) + [];
      StringRoundTrip(e, []);
    case Reply(v) =>
      assert p[1..9] == EncodeInt64(v);
      Int64RoundTrip(v);
  }

  /** Every server message that can be serialised decodes back to itself. */
  lemma S2CRoundTrip(m: S2CMsg)
    requires EncodeS2C(m).Some?
    ensures DecodeS2C(EncodeS2C(m).value) == Some(m)
  {
    var p := EncodeS2C(m).value;
    match m
    case Response(v) =>
      assert p[1..9] == EncodeInt64(v);
      Int64RoundTrip(v);
    case Query(c) =>
      assert p[1..4] == EncodeChar(c);
      CharRoundTrip(c);
    case Log(t) =>
      assert p[1..] == EncodeString(t) + [];
      StringRoundTrip(t, []);
    case BadSeq =>
  }

  /** Client messages sent back to back with `send_proto` are received in
      order by repeated `receive_proto`, and the stream's end then stops
      the reader with `UnexpectedEof`. */
  lemma C2SStream(ms: seq<C2SMsg>)
    requires forall i :: 0 <= i < |ms| ==> EncodeC2S(ms[i]).Some?
    ensures ReceiveAll(FramesOf(ms, EncodeC2S), DecodeC2S) == (ms, UnexpectedEof)
  {
    forall i | 0 <= i < |ms| ensures DecodeC2S(EncodeC2S(ms[i]).value) == Some(ms[i]) {
      C2SRoundTrip(ms[i]);
    }
    FramesRoundTrip(ms, [], EncodeC2S, DecodeC2S);
    assert FramesOf(ms, EncodeC2S) + [] == FramesOf(ms, EncodeC2S);
    assert ms + [] == ms;
  }

  /** The same for server messages. */
  lemma S2CStream(ms: seq<S2CMsg>)
    requires forall i :: 0 <= i < |ms| ==> EncodeS2C(ms[i]).Some?
    ensures ReceiveAll(FramesOf(ms, EncodeS2C), DecodeS2C) == (ms, UnexpectedEof)
  {
    forall i | 0 <= i < |ms| ensures DecodeS2C(EncodeS2C(ms[i]).value) == Some(ms[i]) {
      S2CRoundTrip(ms[i]);
    }
    FramesRoundTrip(ms, [], EncodeS2C, DecodeS2C);
    assert FramesOf(ms, EncodeS2C) + [] == FramesOf(ms, EncodeS2C);
    assert ms + [] == ms;
  }

  /** The module's own test, for any two strings in place of "hello" and
      "world": two requests written to one buffer are read back in that
      order. */
  lemma TwoRequests(first: string, second: string)
    requires FitsPayload(first) && FitsPayload(second)
    ensures var ms := [Request(first), Request(second)];
      ReceiveAll(FramesOf(ms, EncodeC2S), DecodeC2S).0 == ms
  {
    var ms := [Request(first), Request(second)];
    assert EncodeC2S(ms[0]).Some? && EncodeC2S(ms[1]).Some?;
    C2SStream(ms);
  }
}
