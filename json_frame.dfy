/** Newline-delimited text framing (`src/proto_json/mod.rs`): one JSON
    document per line.

    The stream is text (`Source<char>`, `Sink<char>`); `read_line`'s UTF-8
    decoding is not modelled. The JSON serialiser and parser are the
    parameters `toJson` and `parse`. */
module JsonFrame {
  import opened Io
  import opened BigEndian

  /** The requests of this protocol. */
  datatype Request = ListMacros(dylibPath: string) | ExpandMacro(id: byte)

  /** The position of the first newline, or `|s|` when there is none. */
  function NewlineAt(s: string): (i: nat)
    ensures i <= |s|
    ensures forall j :: 0 <= j < i ==> s[j] != '\n'
    ensures i < |s| ==> s[i] == '\n'
  {
    if s == [] || s[0] == '\n' then 0 else 1 + NewlineAt(s[1..])
  }

  /** How much `read_line` takes: up to and including the first newline,
      or everything when no newline is left. */
  function LineLength(s: string): (n: nat)
    ensures n <= |s|
  {
    if NewlineAt(s) < |s| then NewlineAt(s) + 1 else |s|
  }

  /** `String::pop`: drop the last character, if any. */
  function Pop(s: string): (r: string)
    ensures s == [] ==> r == []
    ensures s != [] ==> r + [s[|s| - 1]] == s
  {
    if s == [] then [] else s[..|s| - 1]
  }

  /** The result of one `receive_proto` and the text it leaves unread. */
  datatype ReceivedJson<T> = ReceivedJson(result: Result<T>, rest: string)

  /** `receive_proto` on the text `s`: read a line and drop its last
      character; an empty buffer is an `InvalidData` error, a line not
      starting with `{` is skipped, and the first line starting with `{`
      is parsed, a parse failure being `InvalidData`. */
  function ReceiveSpec<T>(s: string, parse: string -> Option<T>): (r: ReceivedJson<T>)
    ensures |r.rest| <= |s|
    decreases |s|
  {
    var n := LineLength(s);
    var buf := Pop(s[..n]);
    if buf == [] then ReceivedJson(Err(InvalidData), s[n..])
    else if buf[0] != '{' then ReceiveSpec(s[n..], parse)
    else match parse(buf)
      case Some(m) => ReceivedJson(Ok(m), s[n..])
      case None => ReceivedJson(Err(InvalidData), s[n..])
  }

  /** `BufRead::read_line`: the characters up to and including the next
      newline, or all that is left. */
  method ReadLine(r: Source<char>) returns (line: string)
    requires r.Valid()
    modifies r
    ensures r.Valid()
    ensures var s := old(r.Remaining());
      line == s[..LineLength(s)] && r.Remaining() == s[LineLength(s)..]
  {
    ghost var s := r.Remaining();
    var start := r.pos;
    line := [];
    while r.pos < |r.stream|
      invariant start <= r.pos <= |r.stream|
      invariant s == r.stream[start..]
      invariant r.pos - start <= NewlineAt(s)
      invariant line == s[..r.pos - start]
      decreases |r.stream| - r.pos
    {
      var c := r.stream[r.pos];
      r.pos := r.pos + 1;
      line := line + [c];
      assert line == s[..r.pos - start];
      if c == '\n' {
        return;
      }
    }
  }

  /** `ProtoJson::receive_proto`. */
  method ReceiveJson<T>(r: Source<char>, parse: string -> Option<T>) returns (res: Result<T>)
    requires r.Valid()
    modifies r
    ensures r.Valid()
    ensures ReceivedJson(res, r.Remaining()) == ReceiveSpec(old(r.Remaining()), parse)
  {
    while true
      invariant r.Valid()
      invariant ReceiveSpec(r.Remaining(), parse) == ReceiveSpec(old(r.Remaining()), parse)
      decreases |r.stream| - r.pos
    {
      var buf := ReadLine(r);
      buf := Pop(buf);
      if buf == [] {
        return Err(InvalidData);
      }
      if buf[0] != '{' {
        continue;
      }
      match parse(buf)
      case Some(m) => return Ok(m);
      case None => return Err(InvalidData);
    }
  }

  /** What `send_proto` writes for `m`: the serialised text and one
      newline; `None` when serialisation fails. */
  function SendSpec<T>(m: T, toJson: T -> Option<string>): (r: Option<string>)
    ensures r.Some? <==> toJson(m).Some?
    ensures r.Some? ==> |r.value| >= 1 && r.value[|r.value| - 1] == '\n' && Pop(r.value) == toJson(m).value
  {
    match toJson(m)
    case Some(text) => Some(text + "\n")
    case None => None
  }

  /** `ProtoJson::send_proto`: on success the text and its newline have
      been written and flushed, after whatever was buffered before. */
  method SendJson<T>(w: Sink<char>, m: T, toJson: T -> Option<string>) returns (res: Result<()>)
    modifies w
    ensures res.Err? <==> SendSpec(m, toJson).None?
    ensures res.Err? ==> res.error == InvalidData && w.delivered == old(w.delivered) && w.buffered == old(w.buffered)
    ensures res.Ok? ==> w.delivered == old(w.delivered) + old(w.buffered) + SendSpec(m, toJson).value && w.buffered == []
  {
    var text := toJson(m);
    if text.None? {
      return Err(InvalidData);
    }
    w.WriteAll(text.value);
    w.WriteAll("\n");
    w.Flush();
    assert w.delivered == old(w.delivered) + old(w.buffered) + text.value + "\n";
    return Ok(());
  }

  /** At the end of the stream `read_line` yields nothing and the receive
      fails with `InvalidData`. */
  lemma EndOfStream<T>(parse: string -> Option<T>)
    ensures ReceiveSpec([], parse) == ReceivedJson(Err(InvalidData), [])
  {
  }

  /** A blank line is fatal, not skipped, and only that line is consumed. */
  lemma BlankLine<T>(rest: string, parse: string -> Option<T>)
    ensures ReceiveSpec("\n" + rest, parse) == ReceivedJson(Err(InvalidData), rest)
  {
    var s := "\n" + rest;
    assert NewlineAt(s) == 0;
    assert s[..1] == "\n" && s[1..] == rest;
  }

  /** A line of text without newlines, followed by its newline. */
  lemma LineSplit(text: string, rest: string)
    requires '\n' !in text
    ensures var s := text + "\n" + rest;
      LineLength(s) == |text| + 1 && s[..LineLength(s)] == text + "\n" && s[LineLength(s)..] == rest
      && Pop(s[..LineLength(s)]) == text
  {
    var s := text + "\n" + rest;
    NewlineAfter(text, rest);
    assert s[..|text| + 1] == text + "\n";
    assert s[|text| + 1..] == rest;
    assert (text + "\n")[..|text|] == text;
  }

  lemma {:induction false} NewlineAfter(text: string, rest: string)
    requires '\n' !in text
    ensures NewlineAt(text + "\n" + rest) == |text|
  {
    if text != [] {
      assert text[0] in text;
      assert (text + "\n" + rest)[1..] == text[1..] + "\n" + rest;
      NewlineAfter(text[1..], rest);
    }
  }

  /** A terminated line that does not start with `{` is discarded and the
      next line is read. */
  lemma StrayLine<T>(text: string, rest: string, parse: string -> Option<T>)
    requires '\n' !in text && text != [] && text[0] != '{'
    ensures ReceiveSpec(text + "\n" + rest, parse) == ReceiveSpec(rest, parse)
  {
    LineSplit(text, rest);
  }

  /** The first line starting with `{` goes to the parser, and nothing after
      it is read. */
  lemma BraceLine<T>(text: string, rest: string, parse: string -> Option<T>)
    requires '\n' !in text && text != [] && text[0] == '{'
    ensures ReceiveSpec(text + "\n" + rest, parse) ==
      ReceivedJson(if parse(text).Some? then Ok(parse(text).value) else Err(InvalidData), rest)
  {
    LineSplit(text, rest);
  }

  /** Without a final newline `pop` still removes a character: the last
      line's final character never reaches the parser. */
  lemma UnterminatedLine<T>(text: string, parse: string -> Option<T>)
    requires '\n' !in text && |text| >= 2 && text[0] == '{'
    ensures ReceiveSpec(text, parse) ==
      ReceivedJson(if parse(text[..|text| - 1]).Some? then Ok(parse(text[..|text| - 1]).value) else Err(InvalidData), [])
  {
    assert forall j :: 0 <= j < |text| ==> text[j] != '\n';
    assert NewlineAt(text) == |text|;
    assert text[..|text|] == text;
    assert text[..|text| - 1][0] == '{';
  }

  /** Stray lines: non-empty, without newlines, not starting with `{`. */
  predicate IsStray(line: string) {
    line != [] && '\n' !in line && line[0] != '{'
  }

  /** The text of some lines, each followed by its newline. */
  function Lines(lines: seq<string>): string {
    if lines == [] then [] else lines[0] + "\n" + Lines(lines[1..])
  }

  /** Stray output before a frame is passed over. */
  lemma {:induction false} SkipStray<T>(noise: seq<string>, rest: string, parse: string -> Option<T>)
    requires forall j :: 0 <= j < |noise| ==> IsStray(noise[j])
    ensures ReceiveSpec(Lines(noise) + rest, parse) == ReceiveSpec(rest, parse)
  {
    if noise == [] {
      assert Lines(noise) + rest == rest;
    } else {
      assert Lines(noise) + rest == noise[0] + "\n" + (Lines(noise[1..]) + rest);
      StrayLine(noise[0], Lines(noise[1..]) + rest, parse);
      SkipStray(noise[1..], rest, parse);
    }
  }

  /** The round trip: a serialiser that writes one line starting with `{`
      and a parser that inverts it bring the message back, however much
      stray output precedes it, and leave the text after its line
      unread. */
  lemma RoundTrip<T>(m: T, noise: seq<string>, rest: string, toJson: T -> Option<string>, parse: string -> Option<T>)
    requires forall j :: 0 <= j < |noise| ==> IsStray(noise[j])
    requires toJson(m).Some? && toJson(m).value != [] && toJson(m).value[0] == '{' && '\n' !in toJson(m).value
    requires parse(toJson(m).value) == Some(m)
    ensures ReceiveSpec(Lines(noise) + SendSpec(m, toJson).value + rest, parse) == ReceivedJson(Ok(m), rest)
  {
    var text := toJson(m).value;
    assert SendSpec(m, toJson).value + rest == text + "\n" + rest;
    assert Lines(noise) + SendSpec(m, toJson).value + rest == Lines(noise) + (text + "\n" + rest);
    SkipStray(noise, text + "\n" + rest, parse);
    BraceLine(text, rest, parse);
  }
}
