/** The client and the server talking to each other: the messages each
    side sends are exactly what the other side reads. */
module EndToEnd {
  import opened Io
  import opened Strings
  import opened Messages
  import opened Server
  import opened Client

  /** The value every symbol of `expr` has once the client has answered
      for it. */
  function TableValues(table: Table, expr: string): (kv: map<char, int64>)
    ensures kv.Keys == Symbols(expr)
    ensures forall c :: c in kv ==> kv[c] == Lookup(table, c)
  {
    map c | c in Symbols(expr) :: Lookup(table, c)
  }

  /** The answer the server computes for `expr` when the client supplies
      the values: it mentions no enumeration order. */
  function Answer(table: Table, expr: string, eval: string -> Option<int64>): int64 {
    Evaluate(Substitute(expr, Rendered(TableValues(table, expr))), eval)
  }

  /** The client reads back, from the server's queries, the symbols in the
      order they were asked. */
  lemma {:induction false} QueriedQueries(order: seq<char>)
    ensures QueriedSymbols(Queries(order)) == order
  {
    if order != [] {
      var head: seq<S2CMsg> := [Query(order[0])];
      assert Queries(order) == head + Queries(order[1..]);
      QueriedSymbolsAppend(head, Queries(order[1..]));
      assert head[..0] == [];
      assert QueriedSymbols(head) == [order[0]];
      QueriedQueries(order[1..]);
      assert [order[0]] + order[1..] == order;
    }
  }

  lemma {:induction false} RepliesAreReplies(table: Table, order: seq<char>)
    ensures FirstNonReply(Replies(table, order)) == |order|
  {
    if order != [] {
      assert Replies(table, order)[1..] == Replies(table, order[1..]);
      RepliesAreReplies(table, order[1..]);
    }
  }

  /** The values recorded once every query has been answered from the
      table are the table's values. */
  lemma ValuesFromTable(table: Table, expr: string, order: seq<char>)
    requires IsEnumeration(order, Symbols(expr))
    requires QueryLoop(order, InitialValues(expr), Replies(table, order)).status == AllAnswered
    ensures QueryLoop(order, InitialValues(expr), Replies(table, order)).values == TableValues(table, expr)
  {
    var kv := InitialValues(expr);
    var input := Replies(table, order);
    var values := QueryLoop(order, kv, input).values;
    var t := TableValues(table, expr);
    QueryLoopValues(order, kv, input);
    forall c ensures c in values <==> c in t {
      assert c in order <==> c in kv.Keys;
    }
    forall c | c in values ensures values[c] == t[c] {
      var j :| 0 <= j < |order| && order[j] == c;
      assert values[order[j]] == input[j].value;
      assert input[j] == Reply(Lookup(table, order[j]));
    }
  }

  /** The client's replies to queries in `order`, read by the server: the
      values recorded are the table's, whatever the order. */
  lemma AnsweredValues(table: Table, expr: string, order: seq<char>)
    requires IsEnumeration(order, Symbols(expr))
    ensures QueryLoop(order, InitialValues(expr), Replies(table, order)) ==
      Queried(Queries(order), TableValues(table, expr), |order|, AllAnswered)
  {
    RepliesAreReplies(table, order);
    QueryLoopShape(order, InitialValues(expr), Replies(table, order));
    ValuesFromTable(table, expr, order);
  }

  /** The server's side of one exchange whose queries are all answered
      from the table. */
  lemma ServerSide(table: Table, expr: string, order: seq<char>, eval: string -> Option<int64>)
    requires IsEnumeration(order, Symbols(expr))
    ensures ServeSpec([Request(expr)] + Replies(table, order), [order], eval) ==
      Some(Queries(order) + [Response(Answer(table, expr, eval))])
  {
    HandledAnswered(table, expr, order, eval);
    var h := HandleSpec(expr, order, Replies(table, order), eval);
    LastRequest(expr, order, Replies(table, order), eval, h);
  }

  /** A `Request` whose exchange reads all the rest of the input and leaves
      the server alive: what it sends is all that is sent. */
  lemma LastRequest(expr: string, order: seq<char>, rest: seq<C2SMsg>, eval: string -> Option<int64>, h: Handled)
    requires IsEnumeration(order, Symbols(expr))
    requires HandleSpec(expr, order, rest, eval) == h && h.alive && h.consumed == |rest|
    ensures ServeSpec([Request(expr)] + rest, [order], eval) == Some(h.sent)
  {
    FirstRequest(expr, order, rest, eval);
    assert rest[|rest|..] == [];
    assert ServeSpec([], [], eval) == Some([]);
    assert h.sent + [] == h.sent;
  }

  /** `handle_request` on the client's replies: every query answered, then
      the `Response`, and the server goes on serving. */
  lemma HandledAnswered(table: Table, expr: string, order: seq<char>, eval: string -> Option<int64>)
    requires IsEnumeration(order, Symbols(expr))
    ensures HandleSpec(expr, order, Replies(table, order), eval) ==
      Handled(Queries(order) + [Response(Answer(table, expr, eval))], |order|, true)
  {
    AnsweredValues(table, expr, order);
  }

  lemma {:induction false} FirstResponseAfterQueries(order: seq<char>, answer: int64)
    ensures FirstResponse(Queries(order) + [Response(answer)]) == |order|
  {
    var ms := Queries(order) + [Response(answer)];
    if order != [] {
      assert ms[0] == Query(order[0]);
      assert ms[1..] == Queries(order[1..]) + [Response(answer)];
      FirstResponseAfterQueries(order[1..], answer);
    } else {
      assert ms[0] == Response(answer);
    }
  }

  /** The client's side of the same exchange. */
  lemma ClientSide(table: Table, line: string, order: seq<char>, answer: int64)
    ensures RunSpec(table, line, Queries(order) + [Response(answer)]) ==
      Ran([Request(Trim(line))] + Replies(table, order), |order| + 1, true)
  {
    var ms := Queries(order) + [Response(answer)];
    FirstResponseAfterQueries(order, answer);
    assert ms[..|order|] == Queries(order);
    QueriedQueries(order);
  }

  /** One line typed at the client, with the server's map yielding the
      symbols in `order`: the server sends one `Query` per symbol and then
      the `Response`; the client sends the `Request` and one `Reply` per
      `Query`. Each side's output is exactly what the other side reads,
      and both return normally. */
  lemma Conversation(table: Table, line: string, order: seq<char>, eval: string -> Option<int64>)
    requires IsEnumeration(order, Symbols(Trim(line)))
    ensures var expr := Trim(line);
      var toClient := Queries(order) + [Response(Answer(table, expr, eval))];
      var toServer := [Request(expr)] + Replies(table, order);
      && HandleSpec(expr, order, Replies(table, order), eval).alive
      && ServeSpec(toServer, [order], eval) == Some(toClient)
      && RunSpec(table, line, toClient) == Ran(toServer, |toClient|, true)
  {
    HandledAnswered(table, Trim(line), order, eval);
    ServerSide(table, Trim(line), order, eval);
    ClientSide(table, line, order, Answer(table, Trim(line), eval));
  }

  /** The map's iteration order changes only the order of the queries:
      as many messages, the same symbols asked about, and the same
      `Response` at the end. */
  lemma OrderIndependence(table: Table, line: string, o1: seq<char>, o2: seq<char>, eval: string -> Option<int64>)
    requires IsEnumeration(o1, Symbols(Trim(line))) && IsEnumeration(o2, Symbols(Trim(line)))
    ensures var t1 := ServeSpec([Request(Trim(line))] + Replies(table, o1), [o1], eval);
      var t2 := ServeSpec([Request(Trim(line))] + Replies(table, o2), [o2], eval);
      && t1.Some? && t2.Some? && |t1.value| == |t2.value| >= 1
      && t1.value[|t1.value| - 1] == t2.value[|t2.value| - 1]
      && (forall c :: Query(c) in t1.value <==> Query(c) in t2.value)
  {
    var e := Trim(line);
    ServerSide(table, e, o1, eval);
    ServerSide(table, e, o2, eval);
    EnumerationSize(o1, Symbols(e));
    EnumerationSize(o2, Symbols(e));
    var answer := Response(Answer(table, e, eval));
    var q1 := Queries(o1) + [answer];
    var q2 := Queries(o2) + [answer];
    assert q1[|q1| - 1] == answer && q2[|q2| - 1] == answer;
    forall c ensures Query(c) in Queries(o1) + [answer] <==> Query(c) in Queries(o2) + [answer] {
      QueryIn(o1, c, answer);
      QueryIn(o2, c, answer);
    }
  }

  lemma QueryIn(order: seq<char>, c: char, last: S2CMsg)
    requires !last.Query?
    ensures Query(c) in Queries(order) + [last] <==> c in order
  {
    var q := Queries(order) + [last];
    if Query(c) in q {
      var j :| 0 <= j < |q| && q[j] == Query(c);
      assert order[j] == c;
    }
    if c in order {
      var j :| 0 <= j < |order| && order[j] == c;
      assert q[j] == Query(c);
    }
  }

  /** With one line of input the client goes on reading standard input
      after the round: at its end `read_line` yields an empty line, and the
      client sends `Request("")` before it notices that the server has
      nothing more to say. */
  lemma OneLineSession(table: Table, line: string, order: seq<char>, eval: string -> Option<int64>)
    requires IsEnumeration(order, Symbols(Trim(line)))
    ensures var expr := Trim(line);
      var toClient := Queries(order) + [Response(Answer(table, expr, eval))];
      SessionSpec(table, [line], toClient) == [Request(expr)] + Replies(table, order) + [Request([])]
  {
    var toClient := Queries(order) + [Response(Answer(table, Trim(line), eval))];
    var r := RunSpec(table, line, toClient);
    assert r == Ran([Request(Trim(line))] + Replies(table, order), |toClient|, true) by {
      Conversation(table, line, order, eval);
    }
    assert NextLine([line]) == line && LaterLines([line]) == [];
    SessionStep(table, [line], toClient, r);
    assert toClient[|toClient|..] == [];
    SilentServer(table, []);
    assert Trim(NextLine([])) == [];
  }

  lemma SymbolsOfAPlusA()
    ensures Symbols("a+a") == {'a'}
  {
    assert IsSymbol('a') && !IsSymbol('+');
    assert forall c :: c in "a+a" <==> c == 'a' || c == '+';
  }

  lemma RenderOne()
    ensures Decimal(1) == "1"
  {
    assert NatDigits(1) == [DigitChar(1)];
  }

  lemma RenderZero()
    ensures Decimal(0) == "0"
  {
    assert NatDigits(0) == [DigitChar(0)];
  }

  /** "a+a" has one distinct symbol, so the map can yield it in one
      order only, and exactly one `Query('a')` is sent. */
  lemma OrderOfAPlusA()
    ensures forall order :: IsEnumeration(order, Symbols("a+a")) <==> order == ['a']
  {
    SymbolsOfAPlusA();
    forall order | IsEnumeration(order, Symbols("a+a")) ensures order == ['a'] {
      EnumerationSize(order, Symbols("a+a"));
      assert order[0] in order;
    }
    assert IsEnumeration(['a'], Symbols("a+a"));
  }

  lemma RenderedOfAPlusA()
    ensures Rendered(TableValues(TOKEN, "a+a")) == map['a' := "1"]
  {
    SymbolsOfAPlusA();
    RenderOne();
  }

  lemma SubstituteAPlusA()
    ensures Substitute("a+a", map['a' := "1"]) == "1+1"
  {
    var r := map['a' := "1"];
    assert "a+a"[1..] == "+a" && "+a"[1..] == "a" && "a"[1..] == [];
    assert Substitute("a", r) == "1";
    assert Substitute("+a", r) == "+1";
  }

  lemma AnswerOfAPlusA(eval: string -> Option<int64>)
    ensures Answer(TOKEN, "a+a", eval) == Evaluate("1+1", eval)
  {
    RenderedOfAPlusA();
    SubstituteAPlusA();
  }

  /** An expression with one distinct symbol `x`: the map can only yield
      `x`, one `Query(x)` is sent, and the table's value answers it. */
  lemma SingleSymbol(table: Table, expr: string, x: char, order: seq<char>, eval: string -> Option<int64>)
    requires Symbols(expr) == {x}
    requires IsEnumeration(order, Symbols(expr))
    ensures order == [x]
    ensures ServeSpec([Request(expr), Reply(Lookup(table, x))], [order], eval) ==
      Some([Query(x), Response(Answer(table, expr, eval))])
  {
    EnumerationSize(order, Symbols(expr));
    assert order[0] in order;
    assert order == [x];
    ServerSide(table, expr, order, eval);
    assert Replies(table, order) == [Reply(Lookup(table, x))];
    assert [Request(expr)] + Replies(table, order) == [Request(expr), Reply(Lookup(table, x))];
    var answer := Response(Answer(table, expr, eval));
    assert Queries(order) == [Query(x)];
    assert Queries(order) + [answer] == [Query(x), answer];
  }

  /** The exchange for "a+a", whatever order the map yields: one
      `Query('a')`, answered with 1, and the evaluator is handed "1+1". */
  lemma APlusA(order: seq<char>, eval: string -> Option<int64>)
    requires IsEnumeration(order, Symbols("a+a"))
    ensures order == ['a']
    ensures ServeSpec([Request("a+a"), Reply(1)], [order], eval) == Some([Query('a'), Response(Evaluate("1+1", eval))])
  {
    var expr := "a+a";
    assert ServeSpec([Request(expr), Reply(Lookup(TOKEN, 'a'))], [order], eval) ==
      Some([Query('a'), Response(Answer(TOKEN, expr, eval))]) && order == ['a'] by {
      SymbolsOfAPlusA();
      SingleSymbol(TOKEN, expr, 'a', order, eval);
    }
    assert Lookup(TOKEN, 'a') == 1;
    AnswerOfAPlusA(eval);
  }

  lemma SymbolsOfOnePlusTwo()
    ensures Symbols("1+2") == {}
  {
    assert forall c :: c in "1+2" ==> !IsSymbol(c);
  }

  lemma AnswerOfOnePlusTwo(eval: string -> Option<int64>)
    ensures Answer(TOKEN, "1+2", eval) == Evaluate("1+2", eval)
  {
    SymbolsOfOnePlusTwo();
    assert Rendered(TableValues(TOKEN, "1+2")) == map[];
    SubstituteNothing("1+2");
  }

  /** "1+2" has no symbols: no `Query`, and the `Response` comes at once. */
  lemma OnePlusTwo(order: seq<char>, eval: string -> Option<int64>)
    requires IsEnumeration(order, Symbols("1+2"))
    ensures order == []
    ensures ServeSpec([Request("1+2")], [order], eval) == Some([Response(Evaluate("1+2", eval))])
  {
    SymbolsOfOnePlusTwo();
    EnumerationSize(order, Symbols("1+2"));
    ServerSide(TOKEN, "1+2", order, eval);
    assert [Request("1+2")] + Replies(TOKEN, order) == [Request("1+2")];
    assert Queries(order) + [Response(Answer(TOKEN, "1+2", eval))] == [Response(Evaluate("1+2", eval))] by {
      AnswerOfOnePlusTwo(eval);
    }
  }

  lemma SymbolsOfX()
    ensures Symbols("x") == {'x'}
  {
    assert IsSymbol('x');
    assert forall c :: c in "x" <==> c == 'x';
  }

  lemma AnswerOfX(eval: string -> Option<int64>)
    ensures Answer(TOKEN, "x", eval) == Evaluate("0", eval)
  {
    SymbolsOfX();
    RenderZero();
    var r := Rendered(TableValues(TOKEN, "x"));
    assert r == map['x' := "0"];
    assert "x"[1..] == [];
    assert Substitute("x", r) == "0";
  }

  /** A symbol missing from the client's table is worth 0: the client
      answers `Query('x')` with `Reply(0)`, and the server evaluates "0". */
  lemma UnknownSymbol(order: seq<char>, eval: string -> Option<int64>)
    requires IsEnumeration(order, Symbols("x"))
    ensures Lookup(TOKEN, 'x') == 0
    ensures RunSpec(TOKEN, "x", [Query('x'), Response(Evaluate("0", eval))]) == Ran([Request("x"), Reply(0)], 2, true)
    ensures ServeSpec([Request("x"), Reply(0)], [order], eval) == Some([Query('x'), Response(Evaluate("0", eval))])
  {
    TokenValues('x');
    assert Trim("x") == "x";
    ClientAnswersOne(TOKEN, "x", 'x', Evaluate("0", eval));
    SymbolsOfX();
    SingleSymbol(TOKEN, "x", 'x', order, eval);
    AnswerOfX(eval);
  }

  /** The client's round on one `Query` and a `Response`: the `Request`,
      then one `Reply` with the table's value, and `Ok`. */
  lemma ClientAnswersOne(table: Table, line: string, x: char, answer: int64)
    ensures RunSpec(table, line, [Query(x), Response(answer)]) ==
      Ran([Request(Trim(line)), Reply(Lookup(table, x))], 2, true)
  {
    ClientSide(table, line, [x], answer);
    assert Queries([x]) + [Response(answer)] == [Query(x), Response(answer)];
    assert [Request(Trim(line))] + Replies(table, [x]) == [Request(Trim(line)), Reply(Lookup(table, x))];
  }

  /** A `Reply` nobody asked for is answered with `BadSeq`, and the server
      waits for the next message. */
  lemma StrayReply(order: seq<char>, eval: string -> Option<int64>)
    requires IsEnumeration(order, Symbols("1+2"))
    ensures ServeSpec([Reply(5), Request("1+2")], [order], eval) ==
      Some([BadSeq, Response(Evaluate("1+2", eval))])
  {
    OnePlusTwo(order, eval);
    assert [Reply(5), Request("1+2")][1..] == [Request("1+2")];
    assert [BadSeq] + [Response(Evaluate("1+2", eval))] == [BadSeq, Response(Evaluate("1+2", eval))];
  }

  /** `n` copies of `x`. */
  function Repeat<T>(x: T, n: nat): (r: seq<T>)
    ensures |r| == n && forall i :: 0 <= i < n ==> r[i] == x
  {
    if n == 0 then [] else [x] + Repeat(x, n - 1)
  }

  /** Once standard input is exhausted every round sends `Request("")`,
      and a server that answers it with a `Response` keeps the client
      looping: `n` responses give `n + 1` empty requests, and only the end
      of the server's output stops the loop. */
  lemma {:induction false} EmptyRounds(table: Table, n: nat, v: int64)
    ensures SessionSpec(table, [], Repeat(Response(v), n)) == Repeat(Request([]), n + 1)
  {
    assert Trim([]) == [];
    var input := Repeat(Response(v), n);
    if n == 0 {
      SilentServer(table, []);
    } else {
      var r := RunSpec(table, NextLine([]), input);
      assert input[..0] == [];
      assert r == Ran([Request([])], 1, true);
      SessionStep(table, [], input, r);
      assert input[1..] == Repeat(Response(v), n - 1);
      EmptyRounds(table, n - 1, v);
    }
  }

  /** The server answers the empty request at once, with the evaluation of
      the empty text, which `eval_int` rejects, so with 0. */
  lemma EmptyRequest(order: seq<char>, eval: string -> Option<int64>)
    requires IsEnumeration(order, Symbols([]))
    requires eval([]).None?
    ensures ServeSpec([Request([])], [order], eval) == Some([Response(0)])
  {
    assert Symbols([]) == {};
    NoSymbols([], order, [], eval);
    FirstRequest([], order, [], eval);
    var empty: seq<C2SMsg> := [];
    assert empty[0..] == [];
    assert ServeSpec([], [], eval) == Some([]);
    assert Evaluate([], eval) == 0;
    assert [Response(0)] + [] == [Response(0)];
  }
}
