/** The server's side of the exchange (`src/bin/server.rs`): the
    top-level dispatch loop `serve` and `handle_request`.

    Messages are read from a sequence; reaching its end stands for any
    read failure (end of stream or a frame that does not decode). The
    evaluator `eval_int` is the parameter `eval`. The iteration order of
    the symbol `HashMap` is unspecified: the methods pick keys with `:|`,
    and report the order they used as a ghost out-parameter. */
module Server {
  import opened Io
  import opened Strings
  import opened Messages

  /** The characters `handle_request` asks the client about (server.rs:44). */
  predicate IsSymbol(c: char) {
    !(IsAsciiDigit(c) || IsWhitespace(c) || c in "+-*/")
  }

  /** The symbol characters of `expr`, in order and with repeats: the
      `filter` stage. */
  function SymbolChars(expr: string): (r: string)
    ensures forall c :: c in r <==> c in expr && IsSymbol(c)
  {
    if expr == [] then []
    else (if IsSymbol(expr[0]) then [expr[0]] else []) + SymbolChars(expr[1..])
  }

  /** The map `kv` collected from the symbols zipped with 0: one entry per
      distinct symbol, every value 0. */
  function InitialValues(expr: string): (kv: map<char, int64>)
    ensures forall c :: c in kv <==> c in expr && IsSymbol(c)
    ensures forall c :: c in kv ==> kv[c] == 0
  {
    map c | c in SymbolChars(expr) :: 0
  }

  function Symbols(expr: string): set<char> {
    InitialValues(expr).Keys
  }

  predicate NoDup(s: seq<char>) {
    forall i, j :: 0 <= i < j < |s| ==> s[i] != s[j]
  }

  /** `order` lists every element of `keys` exactly once: a possible
      iteration order of a map with these keys. */
  ghost predicate IsEnumeration(order: seq<char>, keys: set<char>) {
    NoDup(order) && forall c :: c in order <==> c in keys
  }

  lemma NoDupAppend(a: seq<char>, b: seq<char>)
    requires NoDup(a) && NoDup(b)
    requires forall c :: c in a ==> c !in b
    ensures NoDup(a + b)
  {
    forall i, j | 0 <= i < j < |a + b| ensures (a + b)[i] != (a + b)[j] {
      if j >= |a| && i < |a| {
        assert (a + b)[i] in a && (a + b)[j] in b;
      }
    }
  }

  /** An enumeration lists as many elements as the set has. */
  lemma {:induction false} EnumerationSize(order: seq<char>, keys: set<char>)
    requires IsEnumeration(order, keys)
    ensures |order| == |keys|
  {
    if order != [] {
      var c := order[0];
      assert c in order;
      var rest := order[1..];
      forall x ensures x in rest <==> x in keys - {c} {
        if x in rest {
          var j :| 0 <= j < |rest| && rest[j] == x;
          assert order[j + 1] == x;
        }
        if x in keys - {c} {
          var j :| 0 <= j < |order| && order[j] == x;
          assert j != 0;
          assert rest[j - 1] == x;
        }
      }
      EnumerationSize(rest, keys - {c});
    } else {
      assert forall x :: x !in keys;
      assert keys == {};
    }
  }

  ghost function SomeEnumeration(keys: set<char>): (r: seq<char>)
    ensures IsEnumeration(r, keys)
    decreases keys
  {
    if keys == {} then []
    else
      var c :| c in keys;
      var rest := SomeEnumeration(keys - {c});
      NoDupAppend([c], rest);
      [c] + rest
  }

  function Queries(order: seq<char>): (r: seq<S2CMsg>)
    ensures |r| == |order|
    ensures forall i :: 0 <= i < |order| ==> r[i] == Query(order[i])
  {
    if order == [] then [] else [Query(order[0])] + Queries(order[1..])
  }

  /** How the query loop ended: every symbol answered, a message other than
      `Reply` arrived (answered with `BadSeq`), or a read failed. */
  datatype Status = AllAnswered | OutOfSequence | ReadFailed

  /** What the query loop sent, the values it recorded, how many messages
      it read successfully, and how it ended. */
  datatype Queried = Queried(sent: seq<S2CMsg>, values: map<char, int64>, consumed: nat, status: Status)

  /** The `for (k, v) in kv.iter_mut()` loop of `handle_request`, with the
      keys visited in `order`. */
  function QueryLoop(order: seq<char>, kv: map<char, int64>, input: seq<C2SMsg>): (q: Queried)
    ensures q.consumed <= |input|
  {
    if order == [] then Queried([], kv, 0, AllAnswered)
    else if input == [] then Queried([Query(order[0])], kv, 0, ReadFailed)
    else match input[0]
      case Reply(v) =>
        var q := QueryLoop(order[1..], kv[order[0] := v], input[1..]);
        Queried([Query(order[0])] + q.sent, q.values, q.consumed + 1, q.status)
      case Request(_) => Queried([Query(order[0]), BadSeq], kv, 1, OutOfSequence)
  }

  /** The position of the first message that is not a `Reply`. */
  function FirstNonReply(input: seq<C2SMsg>): (i: nat)
    ensures i <= |input|
    ensures forall j :: 0 <= j < i ==> input[j].Reply?
    ensures i < |input| ==> !input[i].Reply?
  {
    if input == [] || !input[0].Reply? then 0 else 1 + FirstNonReply(input[1..])
  }

  /** Every symbol answered: one `Query` per symbol, each followed by one
      receive. */
  lemma {:induction false} QueryLoopCompleted(order: seq<char>, kv: map<char, int64>, input: seq<C2SMsg>)
    requires |order| <= FirstNonReply(input)
    ensures var q := QueryLoop(order, kv, input);
      q.status == AllAnswered && q.consumed == |order| && q.sent == Queries(order)
  {
    if order != [] {
      assert input[0].Reply?;
      QueryLoopCompleted(order[1..], kv[order[0] := input[0].value], input[1..]);
    }
  }

  /** A query goes unanswered: either a non-`Reply` arrives (one `BadSeq`,
      the offending message consumed, nothing more sent) or the input runs
      out. */
  lemma {:induction false} QueryLoopInterrupted(order: seq<char>, kv: map<char, int64>, input: seq<C2SMsg>)
    requires FirstNonReply(input) < |order|
    ensures var q := QueryLoop(order, kv, input);
      var i := FirstNonReply(input);
      && q.status == (if i < |input| then OutOfSequence else ReadFailed)
      && q.consumed == (if i < |input| then i + 1 else i)
      && q.sent == Queries(order[..i + 1]) + (if i < |input| then [BadSeq] else [])
  {
    var i := FirstNonReply(input);
    var tail: seq<S2CMsg> := if i < |input| then [BadSeq] else [];
    if input != [] && input[0].Reply? {
      var kv' := kv[order[0] := input[0].value];
      assert i == FirstNonReply(input[1..]) + 1;
      QueryLoopInterrupted(order[1..], kv', input[1..]);
      var p := order[..i + 1];
      assert p[0] == order[0] && p[1..] == order[1..][..i];
      assert Queries(p) == [Query(order[0])] + Queries(order[1..][..i]);
      SeqAssoc([Query(order[0])], Queries(order[1..][..i]), tail);
    } else {
      assert order[..1] == [order[0]];
      assert Queries([order[0]]) == [Query(order[0])];
    }
  }

  /** The query loop in closed form, with `i` the position of the first
      message that is not a `Reply`. */
  lemma QueryLoopShape(order: seq<char>, kv: map<char, int64>, input: seq<C2SMsg>)
    ensures var q := QueryLoop(order, kv, input);
      var i := FirstNonReply(input);
      if |order| <= i then
        q.status == AllAnswered && q.consumed == |order| && q.sent == Queries(order)
      else if i < |input| then
        q.status == OutOfSequence && q.consumed == i + 1 && q.sent == Queries(order[..i + 1]) + [BadSeq]
      else
        q.status == ReadFailed && q.consumed == i && q.sent == Queries(order[..i + 1])
  {
    if |order| <= FirstNonReply(input) {
      QueryLoopCompleted(order, kv, input);
    } else {
      QueryLoopInterrupted(order, kv, input);
      assert Queries(order[..FirstNonReply(input) + 1]) + [] == Queries(order[..FirstNonReply(input) + 1]);
    }
  }

  /** `Reply(v)` after `Query(k)` sets the value of `k` only; every other
      entry keeps its value. */
  lemma {:induction false} QueryLoopValues(order: seq<char>, kv: map<char, int64>, input: seq<C2SMsg>)
    requires NoDup(order)
    requires QueryLoop(order, kv, input).status == AllAnswered
    ensures |order| <= |input| && forall j :: 0 <= j < |order| ==> input[j].Reply?
    ensures var q := QueryLoop(order, kv, input);
      && (forall c :: c in q.values <==> c in kv || c in order)
      && (forall j :: 0 <= j < |order| ==> q.values[order[j]] == input[j].value)
      && (forall c :: c in kv && c !in order ==> q.values[c] == kv[c])
  {
    QueryLoopShape(order, kv, input);
    if order != [] {
      var k := order[0];
      QueryLoopValues(order[1..], kv[k := input[0].value], input[1..]);
      var q := QueryLoop(order, kv, input);
      forall j | 0 <= j < |order| ensures q.values[order[j]] == input[j].value {
        if j > 0 {
          assert order[j] == order[1..][j - 1];
        } else {
          assert k !in order[1..];
        }
      }
    }
  }

  /** Running the loop over `o1 + o2` is running it over `o1` and, if
      every query was answered, going on with `o2`. */
  lemma {:induction false} QueryLoopAppend(o1: seq<char>, o2: seq<char>, kv: map<char, int64>, input: seq<C2SMsg>)
    ensures var q1 := QueryLoop(o1, kv, input);
      QueryLoop(o1 + o2, kv, input) ==
        if q1.status == AllAnswered then
          var q2 := QueryLoop(o2, q1.values, input[q1.consumed..]);
          Queried(q1.sent + q2.sent, q2.values, q1.consumed + q2.consumed, q2.status)
        else q1
  {
    if o1 == [] {
      assert o1 + o2 == o2;
    } else {
      var o := o1 + o2;
      assert o != [] && o[0] == o1[0];
      if input != [] && input[0].Reply? {
        var kv' := kv[o1[0] := input[0].value];
        assert o[1..] == o1[1..] + o2;
        QueryLoopAppend(o1[1..], o2, kv', input[1..]);
        var q1 := QueryLoop(o1[1..], kv', input[1..]);
        if q1.status == AllAnswered {
          var q2 := QueryLoop(o2, q1.values, input[q1.consumed + 1..]);
          assert input[1..][q1.consumed..] == input[q1.consumed + 1..];
          SeqAssoc([Query(o1[0])], q1.sent, q2.sent);
        }
      }
    }
  }

  /** `str::replace(c, t)`: every occurrence of `c` replaced by `t`. */
  function Replace(s: string, c: char, t: string): string {
    if s == [] then [] else (if s[0] == c then t else [s[0]]) + Replace(s[1..], c, t)
  }

  /** Every character of `s` that is a key of `r` replaced by its image,
      all at once. */
  function Substitute(s: string, r: map<char, string>): string {
    if s == [] then [] else (if s[0] in r then r[s[0]] else [s[0]]) + Substitute(s[1..], r)
  }

  /** The decimal renderings of the recorded values. */
  function Rendered(kv: map<char, int64>): (r: map<char, string>)
    ensures r.Keys == kv.Keys
  {
    map k | k in kv :: Decimal(kv[k])
  }

  /** A rendering holds digits and `-` only, so no symbol. */
  lemma RenderedHasNoSymbol(kv: map<char, int64>, k: char)
    requires k in kv
    ensures forall i :: 0 <= i < |Rendered(kv)[k]| ==> !IsSymbol(Rendered(kv)[k][i])
  {
  }

  lemma {:induction false} ReplaceAppend(a: string, b: string, c: char, t: string)
    ensures Replace(a + b, c, t) == Replace(a, c, t) + Replace(b, c, t)
  {
    if a != [] {
      assert (a + b)[1..] == a[1..] + b;
      ReplaceAppend(a[1..], b, c, t);
    } else {
      assert a + b == b;
    }
  }

  lemma {:induction false} ReplaceAbsent(s: string, c: char, t: string)
    requires c !in s
    ensures Replace(s, c, t) == s
  {
    if s != [] {
      ReplaceAbsent(s[1..], c, t);
    }
  }

  /** Replacing one more key after a simultaneous substitution is the
      simultaneous substitution with that key added, as long as the key
      occurs in none of the images. */
  lemma {:induction false} ReplaceAfterSubstitute(s: string, r: map<char, string>, c: char, t: string)
    requires c !in r
    requires forall k :: k in r ==> c !in r[k]
    ensures Replace(Substitute(s, r), c, t) == Substitute(s, r[c := t])
  {
    if s != [] {
      var head := if s[0] in r then r[s[0]] else [s[0]];
      ReplaceAppend(head, Substitute(s[1..], r), c, t);
      ReplaceAfterSubstitute(s[1..], r, c, t);
      if s[0] in r {
        ReplaceAbsent(head, c, t);
      }
    }
  }

  /** After substituting a rendering for every symbol of `expr`, no symbol
      character is left. */
  lemma {:induction false} NoSymbolLeft(expr: string, kv: map<char, int64>)
    requires forall c :: c in expr && IsSymbol(c) ==> c in kv
    ensures forall i :: 0 <= i < |Substitute(expr, Rendered(kv))| ==> !IsSymbol(Substitute(expr, Rendered(kv))[i])
  {
    if expr != [] {
      NoSymbolLeft(expr[1..], kv);
      var r := Rendered(kv);
      var head := if expr[0] in r then r[expr[0]] else [expr[0]];
      if expr[0] in r {
        RenderedHasNoSymbol(kv, expr[0]);
      }
      assert Substitute(expr, r) == head + Substitute(expr[1..], r);
    }
  }

  lemma {:induction false} SubstituteNothing(s: string)
    ensures Substitute(s, map[]) == s
  {
    if s != [] {
      SubstituteNothing(s[1..]);
    }
  }

  /** The `for (old, new) in kv.iter()` loop: `replaced` is rewritten one
      key at a time, in whatever order the map yields its keys. The result
      is the simultaneous substitution, so it does not depend on the
      order. */
  method SubstituteAll(expr: string, kv: map<char, int64>) returns (replaced: string)
    requires forall k :: k in kv ==> IsSymbol(k)
    ensures replaced == Substitute(expr, Rendered(kv))
  {
    replaced := expr;
    var todo := kv.Keys;
    ghost var done: map<char, string> := map[];
    SubstituteNothing(expr);
    while todo != {}
      invariant todo <= kv.Keys
      invariant done.Keys == kv.Keys - todo
      invariant forall k :: k in done ==> done[k] == Decimal(kv[k])
      invariant replaced == Substitute(expr, done)
      decreases todo
    {
      var k :| k in todo;
      var text := Decimal(kv[k]);
      forall k' | k' in done ensures k !in done[k'] {
        assert forall i :: 0 <= i < |done[k']| ==> IsAsciiDigit(done[k'][i]) || done[k'][i] == '-';
      }
      ReplaceAfterSubstitute(expr, done, k, text);
      replaced := Replace(replaced, k, text);
      done := done[k := text];
      todo := todo - {k};
    }
    assert done == Rendered(kv);
  }

  /** `eval_int(&replaced).unwrap_or_default()`. */
  function Evaluate(text: string, eval: string -> Option<int64>): int64 {
    match eval(text)
    case Some(v) => v
    case None => 0
  }

  /** What `handle_request` sent, how many messages it read successfully,
      and whether it returned normally (`alive`) or with a read error. */
  datatype Handled = Handled(sent: seq<S2CMsg>, consumed: nat, alive: bool)

  /** `handle_request` on `expr` when the map yields its keys in `order`. */
  function HandleSpec(expr: string, order: seq<char>, input: seq<C2SMsg>, eval: string -> Option<int64>): (h: Handled)
    ensures h.consumed <= |input|
  {
    var q := QueryLoop(order, InitialValues(expr), input);
    match q.status
    case AllAnswered => Handled(q.sent + [Response(Evaluate(Substitute(expr, Rendered(q.values)), eval))], q.consumed, true)
    case OutOfSequence => Handled(q.sent, q.consumed, true)
    case ReadFailed => Handled(q.sent, q.consumed, false)
  }

  /** A completed exchange sends one `Query` per distinct symbol and then
      exactly one `Response`: the evaluation of the fully substituted
      expression, or 0 when evaluation fails. No symbol is left in the
      text handed to the evaluator. */
  lemma CompletedExchange(expr: string, order: seq<char>, input: seq<C2SMsg>, eval: string -> Option<int64>)
    requires IsEnumeration(order, Symbols(expr))
    requires |order| <= FirstNonReply(input)
    ensures var q := QueryLoop(order, InitialValues(expr), input);
      var text := Substitute(expr, Rendered(q.values));
      && HandleSpec(expr, order, input, eval) == Handled(Queries(order) + [Response(Evaluate(text, eval))], |order|, true)
      && (forall i :: 0 <= i < |text| ==> !IsSymbol(text[i]))
      && (eval(text).None? ==> Evaluate(text, eval) == 0)
  {
    var kv := InitialValues(expr);
    QueryLoopShape(order, kv, input);
    QueryLoopValues(order, kv, input);
    NoSymbolLeft(expr, QueryLoop(order, kv, input).values);
  }

  /** A non-`Reply` while a query is outstanding: exactly one `BadSeq`, it
      is the last message, no `Response` is sent, and the offending
      message has been consumed. */
  lemma AbortedExchange(expr: string, order: seq<char>, input: seq<C2SMsg>, eval: string -> Option<int64>)
    requires IsEnumeration(order, Symbols(expr))
    requires FirstNonReply(input) < |order| && FirstNonReply(input) < |input|
    ensures var i := FirstNonReply(input);
      HandleSpec(expr, order, input, eval) == Handled(Queries(order[..i + 1]) + [BadSeq], i + 1, true)
    ensures var h := HandleSpec(expr, order, input, eval);
      forall j :: 0 <= j < |h.sent| ==> (h.sent[j] == BadSeq <==> j == |h.sent| - 1) && !h.sent[j].Response?
  {
    QueryLoopShape(order, InitialValues(expr), input);
  }

  /** An expression without symbols is answered at once: no `Query`, one
      `Response` of the expression as written, nothing read. */
  lemma NoSymbols(expr: string, order: seq<char>, input: seq<C2SMsg>, eval: string -> Option<int64>)
    requires Symbols(expr) == {}
    requires IsEnumeration(order, Symbols(expr))
    ensures HandleSpec(expr, order, input, eval) == Handled([Response(Evaluate(expr, eval))], 0, true)
  {
    EnumerationSize(order, Symbols(expr));
    assert Rendered(InitialValues(expr)) == map[];
    SubstituteNothing(expr);
  }

  /** One more `Query` answered by a `Reply`. */
  lemma QueryAnswered(order: seq<char>, k: char, kv0: map<char, int64>, input: seq<C2SMsg>, q: Queried)
    requires QueryLoop(order, kv0, input) == q && q.status == AllAnswered
    requires q.consumed < |input| && input[q.consumed].Reply?
    ensures QueryLoop(order + [k], kv0, input) ==
      Queried(q.sent + [Query(k)], q.values[k := input[q.consumed].value], q.consumed + 1, AllAnswered)
  {
    QueryLoopAppend(order, [k], kv0, input);
    var rest := input[q.consumed..];
    assert rest[0] == input[q.consumed];
    assert [Query(k)] + [] == [Query(k)];
  }

  /** The next `Query` goes unanswered: the input ends, or a `Request`
      arrives instead of a `Reply`. */
  lemma QueryUnanswered(order: seq<char>, more: seq<char>, kv0: map<char, int64>, input: seq<C2SMsg>, q: Queried)
    requires QueryLoop(order, kv0, input) == q && q.status == AllAnswered
    requires more != []
    requires q.consumed == |input| || input[q.consumed].Request?
    ensures QueryLoop(order + more, kv0, input) ==
      if q.consumed == |input| then Queried(q.sent + [Query(more[0])], q.values, q.consumed, ReadFailed)
      else Queried(q.sent + [Query(more[0]), BadSeq], q.values, q.consumed + 1, OutOfSequence)
  {
    QueryLoopAppend(order, more, kv0, input);
  }

  /** Finishing a partial order with an enumeration of the keys not yet
      visited gives an enumeration of all keys. */
  lemma CompleteOrder(order: seq<char>, k: char, others: seq<char>, keys: set<char>, todo: set<char>)
    requires NoDup(order) && (forall c :: c in order <==> c in keys && c !in todo)
    requires k in todo && todo <= keys && IsEnumeration(others, todo - {k})
    ensures IsEnumeration(order + ([k] + others), keys)
  {
    NoDupAppend([k], others);
    NoDupAppend(order, [k] + others);
  }

  /** `handle_request`. */
  method HandleRequest(expr: string, input: seq<C2SMsg>, eval: string -> Option<int64>)
    returns (sent: seq<S2CMsg>, consumed: nat, alive: bool, ghost order: seq<char>)
    ensures IsEnumeration(order, Symbols(expr))
    ensures HandleSpec(expr, order, input, eval) == Handled(sent, consumed, alive)
  {
    var kv0 := InitialValues(expr);
    var kv := kv0;
    var todo := kv.Keys;
    sent, consumed, order := [], 0, [];
    while todo != {}
      invariant todo <= kv0.Keys && kv.Keys == kv0.Keys
      invariant NoDup(order)
      invariant forall c :: c in order <==> c in kv0 && c !in todo
      invariant QueryLoop(order, kv0, input) == Queried(sent, kv, consumed, AllAnswered)
      decreases todo
    {
      var k :| k in todo;
      if consumed == |input| || input[consumed].Request? {
        ghost var others := SomeEnumeration(todo - {k});
        CompleteOrder(order, k, others, kv0.Keys, todo);
        QueryUnanswered(order, [k] + others, kv0, input, Queried(sent, kv, consumed, AllAnswered));
        order := order + ([k] + others);
        if consumed == |input| {
          return sent + [Query(k)], consumed, false, order;
        }
        return sent + [Query(k), BadSeq], consumed + 1, true, order;
      }
      QueryAnswered(order, k, kv0, input, Queried(sent, kv, consumed, AllAnswered));
      NoDupAppend(order, [k]);
      kv := kv[k := input[consumed].value];
      sent := sent + [Query(k)];
      consumed := consumed + 1;
      order := order + [k];
      todo := todo - {k};
    }
    var replaced := SubstituteAll(expr, kv);
    var ret := Evaluate(replaced, eval);
    sent := sent + [Response(ret)];
    alive := true;
  }

  function Prepend(a: seq<S2CMsg>, o: Option<seq<S2CMsg>>): Option<seq<S2CMsg>> {
    match o
    case None => None
    case Some(b) => Some(a + b)
  }

  /** Everything `serve` sends for `input` when the `j`-th request's map
      yields its keys in `orders[j]`; `None` when `orders` does not supply
      a valid order for every request. A top-level `Reply` gets `BadSeq`
      and the loop goes on; a read failure, here or inside an exchange,
      ends `serve`. */
  ghost function ServeSpec(input: seq<C2SMsg>, orders: seq<seq<char>>, eval: string -> Option<int64>): Option<seq<S2CMsg>>
    decreases |input|
  {
    if input == [] then Some([])
    else match input[0]
      case Reply(_) => Prepend([BadSeq], ServeSpec(input[1..], orders, eval))
      case Request(e) =>
        if orders == [] || !IsEnumeration(orders[0], Symbols(e)) then None
        else
          var h := HandleSpec(e, orders[0], input[1..], eval);
          if !h.alive then Some(h.sent)
          else Prepend(h.sent, ServeSpec(input[1 + h.consumed..], orders[1..], eval))
  }

  lemma PrependPrepend(a: seq<S2CMsg>, b: seq<S2CMsg>, o: Option<seq<S2CMsg>>)
    ensures Prepend(a, Prepend(b, o)) == Prepend(a + b, o)
  {
    if o.Some? {
      SeqAssoc(a, b, o.value);
    }
  }

  lemma PrependNothing(o: Option<seq<S2CMsg>>)
    ensures Prepend([], o) == o
  {
    if o.Some? {
      assert [] + o.value == o.value;
    }
  }

  /** `serve` on a `Request`: the exchange's messages, then, if it ended
      normally, whatever follows the messages it consumed. */
  lemma ServeRequest(input: seq<C2SMsg>, pos: nat, order: seq<char>, future: seq<seq<char>>, eval: string -> Option<int64>)
    requires pos < |input| && input[pos].Request?
    requires IsEnumeration(order, Symbols(input[pos].expression))
    ensures var h := HandleSpec(input[pos].expression, order, input[pos + 1..], eval);
      ServeSpec(input[pos..], [order] + future, eval) ==
        if h.alive then Prepend(h.sent, ServeSpec(input[pos + 1 + h.consumed..], future, eval))
        else Some(h.sent)
  {
    var h := HandleSpec(input[pos].expression, order, input[pos + 1..], eval);
    assert input[pos..][1..] == input[pos + 1..];
    assert input[pos..][1 + h.consumed..] == input[pos + 1 + h.consumed..];
    assert ([order] + future)[1..] == future;
  }

  /** `serve` on input that starts with a `Request`, for the last order
      supplied: the exchange, then what follows it. */
  lemma FirstRequest(expr: string, order: seq<char>, rest: seq<C2SMsg>, eval: string -> Option<int64>)
    requires IsEnumeration(order, Symbols(expr))
    ensures var h := HandleSpec(expr, order, rest, eval);
      ServeSpec([Request(expr)] + rest, [order], eval) ==
        if h.alive then Prepend(h.sent, ServeSpec(rest[h.consumed..], [], eval)) else Some(h.sent)
  {
    var input := [Request(expr)] + rest;
    var h := HandleSpec(expr, order, rest, eval);
    assert input[0] == Request(expr) && input[1..] == rest;
    assert input[1 + h.consumed..] == rest[h.consumed..];
    assert [order][1..] == [];
  }

  /** `serve` on a stray `Reply`: one `BadSeq`, then the rest. */
  lemma ServeReply(input: seq<C2SMsg>, pos: nat, future: seq<seq<char>>, eval: string -> Option<int64>)
    requires pos < |input| && input[pos].Reply?
    ensures ServeSpec(input[pos..], future, eval) == Prepend([BadSeq], ServeSpec(input[pos + 1..], future, eval))
  {
    assert input[pos..][1..] == input[pos + 1..];
  }

  /** The loop invariant of `serve`: `sent` so far, followed by what is
      sent for the unread input, is what is sent for the whole input. */
  ghost predicate Served(input: seq<C2SMsg>, pos: nat, orders: seq<seq<char>>, sent: seq<S2CMsg>, eval: string -> Option<int64>)
    requires pos <= |input|
  {
    forall future {:trigger ServeSpec(input[pos..], future, eval)} ::
      ServeSpec(input, orders + future, eval) == Prepend(sent, ServeSpec(input[pos..], future, eval))
  }

  lemma ServedStart(input: seq<C2SMsg>, eval: string -> Option<int64>)
    ensures Served(input, 0, [], [], eval)
  {
    forall future ensures ServeSpec(input, [] + future, eval) == Prepend([], ServeSpec(input[0..], future, eval)) {
      assert [] + future == future && input[0..] == input;
      PrependNothing(ServeSpec(input, future, eval));
    }
  }

  lemma ServedEnd(input: seq<C2SMsg>, orders: seq<seq<char>>, sent: seq<S2CMsg>, eval: string -> Option<int64>)
    requires Served(input, |input|, orders, sent, eval)
    ensures ServeSpec(input, orders, eval) == Some(sent)
  {
    assert orders + [] == orders;
    assert input[|input|..] == [];
    assert ServeSpec([], [], eval) == Some([]);
    assert ServeSpec(input, orders + [], eval) == Prepend(sent, ServeSpec(input[|input|..], [], eval));
    assert sent + [] == sent;
  }

  lemma ServedRequest(input: seq<C2SMsg>, pos: nat, orders: seq<seq<char>>, sent: seq<S2CMsg>,
                      order: seq<char>, h: Handled, eval: string -> Option<int64>)
    requires pos < |input| && input[pos].Request? && Served(input, pos, orders, sent, eval)
    requires IsEnumeration(order, Symbols(input[pos].expression))
    requires HandleSpec(input[pos].expression, order, input[pos + 1..], eval) == h
    ensures h.alive ==> Served(input, pos + 1 + h.consumed, orders + [order], sent + h.sent, eval)
    ensures !h.alive ==> ServeSpec(input, orders + [order], eval) == Some(sent + h.sent)
  {
    if h.alive {
      forall future
        ensures ServeSpec(input, orders + [order] + future, eval) ==
                Prepend(sent + h.sent, ServeSpec(input[pos + 1 + h.consumed..], future, eval))
      {
        var later := ServeSpec(input[pos + 1 + h.consumed..], future, eval);
        ServeRequest(input, pos, order, future, eval);
        assert ServeSpec(input[pos..], [order] + future, eval) == Prepend(h.sent, later);
        assert orders + [order] + future == orders + ([order] + future);
        assert ServeSpec(input, orders + ([order] + future), eval) == Prepend(sent, ServeSpec(input[pos..], [order] + future, eval));
        PrependPrepend(sent, h.sent, later);
      }
    } else {
      ServeRequest(input, pos, order, [], eval);
      assert [order] + [] == [order];
      assert ServeSpec(input[pos..], [order], eval) == Some(h.sent);
      assert ServeSpec(input, orders + [order], eval) == Prepend(sent, ServeSpec(input[pos..], [order], eval));
    }
  }

  lemma ServedReply(input: seq<C2SMsg>, pos: nat, orders: seq<seq<char>>, sent: seq<S2CMsg>, eval: string -> Option<int64>)
    requires pos < |input| && input[pos].Reply? && Served(input, pos, orders, sent, eval)
    ensures Served(input, pos + 1, orders, sent + [BadSeq], eval)
  {
    forall future
      ensures ServeSpec(input, orders + future, eval) ==
              Prepend(sent + [BadSeq], ServeSpec(input[pos + 1..], future, eval))
    {
      ServeReply(input, pos, future, eval);
      PrependPrepend(sent, [BadSeq], ServeSpec(input[pos + 1..], future, eval));
    }
  }

  /** `serve`: receive, dispatch, repeat until a read fails. */
  method Serve(input: seq<C2SMsg>, eval: string -> Option<int64>)
    returns (sent: seq<S2CMsg>, ghost orders: seq<seq<char>>)
    ensures ServeSpec(input, orders, eval) == Some(sent)
  {
    var pos := 0;
    sent, orders := [], [];
    ServedStart(input, eval);
    while true
      invariant pos <= |input|
      invariant Served(input, pos, orders, sent, eval)
      decreases |input| - pos
    {
      if pos == |input| {
        ServedEnd(input, orders, sent, eval);
        return;
      }
      match input[pos]
      case Request(e) =>
        var out, used, alive, order := HandleRequest(e, input[pos + 1..], eval);
        ServedRequest(input, pos, orders, sent, order, Handled(out, used, alive), eval);
        orders := orders + [order];
        sent := sent + out;
        if !alive {
          return;
        }
        pos := pos + 1 + used;
      case Reply(_) =>
        ServedReply(input, pos, orders, sent, eval);
        sent := sent + [BadSeq];
        pos := pos + 1;
    }
  }
}
