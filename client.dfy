/** The client's side of the exchange (`src/bin/client.rs`): the symbol
    table `TOKEN`, one round `run`, and the `main` loop that repeats it.

    What the server sends is a sequence of messages; its end stands for
    any read failure. Standard input is the sequence `lines`; past its end
    `read_line` yields the empty string, as it does at end of file. */
module Client {
  import opened Io
  import opened Strings
  import opened Messages

  /** A table of symbol values. The functions and methods below read the
      one they are given; the client binary gives them `TOKEN`. */
  type Table = map<char, int64>

  /** The symbols the client knows and their values. */
  const TOKEN: Table := map[
    'a' := 1, 'b' := 2, 'c' := 3,
    '\U{25B2}' := 1, '\U{25BC}' := -1, '\U{25B6}' := 100, '\U{25C0}' := 200
  ]

  /** `TOKEN.get(&c).copied().unwrap_or_default()`: the value of `c`, or
      0 for a symbol missing from the table. */
  function Lookup(table: Table, c: char): int64 {
    if c in table then table[c] else 0
  }

  /** The values `TOKEN` gives: 1, 2 and 3 for `a`, `b` and `c`, and 1, -1,
      100 and 200 for the four triangles; every other character gets 0. */
  lemma TokenValues(c: char)
    ensures Lookup(TOKEN, c) ==
      if c == 'a' || c == '\U{25B2}' then 1
      else if c == 'b' then 2
      else if c == 'c' then 3
      else if c == '\U{25BC}' then -1
      else if c == '\U{25B6}' then 100
      else if c == '\U{25C0}' then 200
      else 0
  {
  }

  /** The symbols asked about in `ms`, in order. */
  function QueriedSymbols(ms: seq<S2CMsg>): (r: seq<char>)
    ensures |r| <= |ms|
  {
    if ms == [] then []
    else
      var last := ms[|ms| - 1];
      QueriedSymbols(ms[..|ms| - 1]) + (if last.Query? then [last.symbol] else [])
  }

  /** The answers to queries about `cs`, in order. */
  function Replies(table: Table, cs: seq<char>): (r: seq<C2SMsg>)
    ensures |r| == |cs|
    ensures forall j :: 0 <= j < |cs| ==> r[j] == Reply(Lookup(table, cs[j]))
  {
    if cs == [] then [] else [Reply(Lookup(table, cs[0]))] + Replies(table, cs[1..])
  }

  /** The position of the first `Response`, or `|ms|` when there is none. */
  function FirstResponse(ms: seq<S2CMsg>): (i: nat)
    ensures i <= |ms|
    ensures forall j :: 0 <= j < i ==> !ms[j].Response?
    ensures i < |ms| ==> ms[i].Response?
  {
    if ms == [] || ms[0].Response? then 0 else 1 + FirstResponse(ms[1..])
  }

  /** What a round sent, how many messages it received, and whether it
      returned `Ok` (it saw a `Response`) or an error (the input ended). */
  datatype Ran = Ran(sent: seq<C2SMsg>, consumed: nat, ok: bool)

  /** One round of `run` on the line typed by the user: the trimmed line as
      a `Request`, then one `Reply` with the table's value for every
      `Query` up to the first `Response`; `Log` and `BadSeq` are passed
      over. Without a `Response` the round ends in an error. */
  function RunSpec(table: Table, line: string, input: seq<S2CMsg>): (r: Ran)
    ensures r.consumed <= |input|
  {
    var i := FirstResponse(input);
    var sent := [Request(Trim(line))] + Replies(table, QueriedSymbols(input[..i]));
    if i < |input| then Ran(sent, i + 1, true) else Ran(sent, |input|, false)
  }

  /** A round returns `Ok` exactly when a `Response` arrives, and then it
      has read up to and including the first one. It sends one `Reply`
      per `Query` before it. */
  lemma RunOutcome(table: Table, line: string, input: seq<S2CMsg>)
    ensures var r := RunSpec(table, line, input);
      && (r.ok <==> exists j :: 0 <= j < |input| && input[j].Response?)
      && (r.ok ==> input[r.consumed - 1].Response? && forall j :: 0 <= j < r.consumed - 1 ==> !input[j].Response?)
      && |r.sent| == 1 + |QueriedSymbols(input[..FirstResponse(input)])|
      && r.sent[0] == Request(Trim(line))
  {
  }

  lemma RepliesAppend(table: Table, cs: seq<char>, c: char)
    ensures Replies(table, cs + [c]) == Replies(table, cs) + [Reply(Lookup(table, c))]
  {
    var a := Replies(table, cs + [c]);
    var b := Replies(table, cs) + [Reply(Lookup(table, c))];
    assert |a| == |b|;
    forall j | 0 <= j < |a| ensures a[j] == b[j] {
      if j < |cs| {
        assert (cs + [c])[j] == cs[j];
      }
    }
  }

  /** Reading one more message that is not a `Response`. */
  lemma QueriedStep(input: seq<S2CMsg>, i: nat)
    requires i < |input|
    ensures QueriedSymbols(input[..i + 1]) ==
      QueriedSymbols(input[..i]) + (if input[i].Query? then [input[i].symbol] else [])
  {
    assert input[..i + 1][..i] == input[..i];
  }

  /** The loop of `run` past a message other than `Response`: a `Query` is
      answered, anything else adds nothing. */
  lemma RunStep(table: Table, expression: string, input: seq<S2CMsg>, i: nat, sent: seq<C2SMsg>)
    requires i < |input| && i <= FirstResponse(input) && !input[i].Response?
    requires sent == [Request(expression)] + Replies(table, QueriedSymbols(input[..i]))
    ensures i + 1 <= FirstResponse(input)
    ensures input[i].Query? ==>
      sent + [Reply(Lookup(table, input[i].symbol))] == [Request(expression)] + Replies(table, QueriedSymbols(input[..i + 1]))
    ensures !input[i].Query? ==>
      sent == [Request(expression)] + Replies(table, QueriedSymbols(input[..i + 1]))
  {
    QueriedStep(input, i);
    if input[i].Query? {
      RepliesAppend(table, QueriedSymbols(input[..i]), input[i].symbol);
    }
  }

  lemma RunFound(table: Table, line: string, input: seq<S2CMsg>, i: nat)
    requires i <= FirstResponse(input) && i < |input| && input[i].Response?
    ensures RunSpec(table, line, input) == Ran([Request(Trim(line))] + Replies(table, QueriedSymbols(input[..i])), i + 1, true)
  {
  }

  lemma RunExhausted(table: Table, line: string, input: seq<S2CMsg>)
    requires FirstResponse(input) == |input|
    ensures RunSpec(table, line, input) == Ran([Request(Trim(line))] + Replies(table, QueriedSymbols(input)), |input|, false)
  {
    assert input[..|input|] == input;
  }

  /** `run`. */
  method Run(table: Table, line: string, input: seq<S2CMsg>) returns (sent: seq<C2SMsg>, consumed: nat, ok: bool)
    ensures RunSpec(table, line, input) == Ran(sent, consumed, ok)
  {
    var expression := Trim(line);
    sent := [Request(expression)];
    var i := 0;
    while i < |input|
      invariant i <= FirstResponse(input)
      invariant sent == [Request(expression)] + Replies(table, QueriedSymbols(input[..i]))
      decreases |input| - i
    {
      var m := input[i];
      if m.Response? {
        RunFound(table, line, input, i);
        return sent, i + 1, true;
      }
      RunStep(table, expression, input, i, sent);
      if m.Query? {
        sent := sent + [Reply(Lookup(table, m.symbol))];
      }
      i := i + 1;
    }
    RunExhausted(table, line, input);
    assert input[..i] == input;
    return sent, |input|, false;
  }

  /** `Log` and `BadSeq` before the `Response` change nothing the client
      sends: the round only reads past them. */
  lemma {:induction false} NoiseIgnored(table: Table, line: string, noise: seq<S2CMsg>, input: seq<S2CMsg>)
    requires forall j :: 0 <= j < |noise| ==> noise[j].Log? || noise[j].BadSeq?
    ensures var r := RunSpec(table, line, input);
      RunSpec(table, line, noise + input) == Ran(r.sent, |noise| + r.consumed, r.ok)
  {
    NoiseSkipped(noise, input);
  }

  lemma NoiseSkipped(noise: seq<S2CMsg>, input: seq<S2CMsg>)
    requires forall j :: 0 <= j < |noise| ==> noise[j].Log? || noise[j].BadSeq?
    ensures FirstResponse(noise + input) == |noise| + FirstResponse(input)
    ensures QueriedSymbols((noise + input)[..|noise| + FirstResponse(input)]) == QueriedSymbols(input[..FirstResponse(input)])
  {
    var i := FirstResponse(input);
    FirstResponseAfterNoise(noise, input);
    PrefixAfter(noise, input, i);
    NoiseQueried(noise, input[..i]);
  }

  lemma PrefixAfter<T>(a: seq<T>, b: seq<T>, i: nat)
    requires i <= |b|
    ensures (a + b)[..|a| + i] == a + b[..i]
  {
  }

  lemma NoiseQueried(noise: seq<S2CMsg>, ms: seq<S2CMsg>)
    requires forall j :: 0 <= j < |noise| ==> noise[j].Log? || noise[j].BadSeq?
    ensures QueriedSymbols(noise + ms) == QueriedSymbols(ms)
  {
    QueriedSymbolsAppend(noise, ms);
    NoiseAsksNothing(noise);
    assert [] + QueriedSymbols(ms) == QueriedSymbols(ms);
  }

  lemma {:induction false} FirstResponseAfterNoise(noise: seq<S2CMsg>, input: seq<S2CMsg>)
    requires forall j :: 0 <= j < |noise| ==> noise[j].Log? || noise[j].BadSeq?
    ensures FirstResponse(noise + input) == |noise| + FirstResponse(input)
  {
    if noise != [] {
      assert (noise + input)[1..] == noise[1..] + input;
      FirstResponseAfterNoise(noise[1..], input);
    } else {
      assert noise + input == input;
    }
  }

  lemma {:induction false} QueriedSymbolsAppend(a: seq<S2CMsg>, b: seq<S2CMsg>)
    ensures QueriedSymbols(a + b) == QueriedSymbols(a) + QueriedSymbols(b)
    decreases |b|
  {
    if b == [] {
      assert a + b == a;
    } else {
      var last := b[|b| - 1];
      assert (a + b)[..|a + b| - 1] == a + b[..|b| - 1];
      QueriedSymbolsAppend(a, b[..|b| - 1]);
      var tail := if last.Query? then [last.symbol] else [];
      assert QueriedSymbols(a + b) == QueriedSymbols(a) + QueriedSymbols(b[..|b| - 1]) + tail;
      SeqAssoc(QueriedSymbols(a), QueriedSymbols(b[..|b| - 1]), tail);
    }
  }

  lemma {:induction false} NoiseAsksNothing(noise: seq<S2CMsg>)
    requires forall j :: 0 <= j < |noise| ==> noise[j].Log? || noise[j].BadSeq?
    ensures QueriedSymbols(noise) == []
  {
    if noise != [] {
      NoiseAsksNothing(noise[..|noise| - 1]);
    }
  }

  /** The line `read_line` yields: the next one, or the empty string once
      standard input is exhausted. */
  function NextLine(lines: seq<string>): string {
    if lines == [] then "" else lines[0]
  }

  function LaterLines(lines: seq<string>): seq<string> {
    if lines == [] then [] else lines[1..]
  }

  /** The `main` loop: rounds on successive lines, each reading on from
      where the previous one stopped, until a round fails. Everything the
      client sends. */
  function SessionSpec(table: Table, lines: seq<string>, input: seq<S2CMsg>): (sent: seq<C2SMsg>)
    decreases |input|
  {
    var r := RunSpec(table, NextLine(lines), input);
    if !r.ok then r.sent
    else r.sent + SessionSpec(table, LaterLines(lines), input[r.consumed..])
  }

  /** A round that ends normally hands the rest of the input to the next
      line's round. */
  lemma SessionStep(table: Table, lines: seq<string>, input: seq<S2CMsg>, r: Ran)
    requires RunSpec(table, NextLine(lines), input) == r
    ensures r.consumed <= |input|
    ensures r.ok ==> r.consumed >= 1 && SessionSpec(table, lines, input) == r.sent + SessionSpec(table, LaterLines(lines), input[r.consumed..])
    ensures !r.ok ==> SessionSpec(table, lines, input) == r.sent
  {
  }

  /** The invariant of `main`'s loop carried over one round: `sent` so far,
      then what the session sends from the unread input, is everything. */
  lemma SessionAdvance(table: Table, lines: seq<string>, input: seq<S2CMsg>,
                       sent: seq<C2SMsg>, rest: seq<string>, unread: seq<S2CMsg>, r: Ran)
    requires sent + SessionSpec(table, rest, unread) == SessionSpec(table, lines, input)
    requires RunSpec(table, NextLine(rest), unread) == r
    ensures r.consumed <= |unread|
    ensures r.ok ==> r.consumed >= 1
    ensures r.ok ==> (sent + r.sent) + SessionSpec(table, LaterLines(rest), unread[r.consumed..]) == SessionSpec(table, lines, input)
    ensures !r.ok ==> sent + r.sent == SessionSpec(table, lines, input)
  {
    SessionStep(table, rest, unread, r);
    if r.ok {
      SeqAssoc(sent, r.sent, SessionSpec(table, LaterLines(rest), unread[r.consumed..]));
    }
  }

  /** `main`'s loop. */
  method Session(table: Table, lines: seq<string>, input: seq<S2CMsg>) returns (sent: seq<C2SMsg>)
    ensures sent == SessionSpec(table, lines, input)
  {
    var unread := input;
    var rest := lines;
    sent := [];
    assert sent + SessionSpec(table, rest, unread) == SessionSpec(table, lines, input);
    while true
      invariant sent + SessionSpec(table, rest, unread) == SessionSpec(table, lines, input)
      decreases |unread|
    {
      var out, used, ok := Run(table, NextLine(rest), unread);
      SessionAdvance(table, lines, input, sent, rest, unread, Ran(out, used, ok));
      sent := sent + out;
      if !ok {
        return;
      }
      unread := unread[used..];
      rest := LaterLines(rest);
    }
  }

  /** A session on a server that has stopped answering sends exactly one
      `Request`: the first round fails at once. */
  lemma SilentServer(table: Table, lines: seq<string>)
    ensures SessionSpec(table, lines, []) == [Request(Trim(NextLine(lines)))]
  {
  }
}
