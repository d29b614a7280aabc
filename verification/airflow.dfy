/** Extracting task dependencies from `>>` / `<<` expressions, and the proof that the extracted
    edges are those evaluating the expression would create. */
module Airflow {
  import opened Prelude

  const MAX_WALK_DEPTH: nat := 1024

  type TaskId = string
  type Edge = (TaskId, TaskId)

  datatype Op = RShift | LShift

  /** The Python expressions the walker tells apart; a list stands for a tuple as well. */
  datatype Expr =
    | Name(id: string)
    | List(elts: seq<Expr>)
    | Shift(left: Expr, op: Op, right: Expr)
    | Call(func: Expr)
    | Attribute(value: Expr)
    | Other

  type Aliases = seq<(string, TaskId)>

  // ---------------------------------------------------------------- the walk, with its depth limit

  /** The most recent binding of a name. */
  function LatestAlias(aliases: Aliases, id: string): Option<TaskId> {
    if aliases == [] then None
    else
      var (name, task) := aliases[|aliases| - 1];
      if name == id then Some(task) else LatestAlias(aliases[..|aliases| - 1], id)
  }

  function Resolve(aliases: Aliases, e: Expr, depth: nat): Option<TaskId>
    decreases e
  {
    if depth > MAX_WALK_DEPTH then None
    else
      match e
      case Name(id) => LatestAlias(aliases, id)
      case Call(func) => Resolve(aliases, func, depth + 1)
      case Attribute(value) => Resolve(aliases, value, depth + 1)
      case _ => None
  }

  function ResolveAll(aliases: Aliases, elts: seq<Expr>, depth: nat): seq<TaskId> {
    if elts == [] then []
    else
      var init := ResolveAll(aliases, elts[..|elts| - 1], depth);
      match Resolve(aliases, elts[|elts| - 1], depth)
      case Some(task) => init + [task]
      case None => init
  }

  function Terminals(aliases: Aliases, e: Expr, depth: nat): seq<TaskId>
    decreases e
  {
    if depth > MAX_WALK_DEPTH then []
    else
      match e
      case Shift(_, _, right) => Terminals(aliases, right, depth + 1)
      case List(elts) => ResolveAll(aliases, elts, depth + 1)
      case _ => ResolveAll(aliases, [e], depth + 1)
  }

  function Directed(op: Op, l: TaskId, r: TaskId): Edge { if op.RShift? then (l, r) else (r, l) }

  function Between(op: Op, ls: seq<TaskId>, rs: seq<TaskId>): set<Edge> {
    set l, r | l in ls && r in rs :: Directed(op, l, r)
  }

  /** The edges the walk adds for a shift met at this depth. */
  function Collected(aliases: Aliases, left: Expr, op: Op, right: Expr, depth: nat): set<Edge>
    decreases left
  {
    if depth > MAX_WALK_DEPTH then {}
    else
      Between(op, Terminals(aliases, left, depth), Terminals(aliases, right, depth)) +
      (if left.Shift? then Collected(aliases, left.left, left.op, left.right, depth + 1) else {})
  }

  // ---------------------------------------------------------------- the walker object

  ghost function EdgeSet(edges: seq<Edge>): set<Edge> { set e | e in edges }

  /** `now` is `was` with exactly `added` appended, each edge stored once. */
  ghost predicate Extended(was: seq<Edge>, added: set<Edge>, now: seq<Edge>) {
    && was <= now
    && EdgeSet(now) == EdgeSet(was) + added
    && (Distinct(was) ==> Distinct(now))
  }

  class Walker {
    var aliases: Aliases
    var edges: seq<Edge>

    constructor (aliases: Aliases)
      ensures this.aliases == aliases && edges == []
    {
      this.aliases, edges := aliases, [];
    }

    method PushUniqueEdge(e: Edge)
      modifies this`edges
      ensures Extended(old(edges), {e}, edges)
    {
      if e !in edges {
        edges := edges + [e];
      }
    }

    method TerminalTaskIds(e: Expr, depth: nat) returns (ids: seq<TaskId>)
      ensures ids == Terminals(aliases, e, depth)
      decreases e
    {
      if depth > MAX_WALK_DEPTH {
        return [];
      }
      if e.Shift? {
        ids := TerminalTaskIds(e.right, depth + 1);
        return;
      }
      var elts := if e.List? then e.elts else [e];
      ids := [];
      for i := 0 to |elts|
        invariant ids == ResolveAll(aliases, elts[..i], depth + 1)
      {
        assert elts[..i + 1][..i] == elts[..i];
        var id := Resolve(aliases, elts[i], depth + 1);
        if id.Some? {
          ids := ids + [id.value];
        }
      }
      assert elts[..|elts|] == elts;
    }

    /** Every edge between two lists of tasks. */
    method PushBetween(op: Op, ls: seq<TaskId>, rs: seq<TaskId>)
      modifies this`edges
      ensures Extended(old(edges), Between(op, ls, rs), edges)
    {
      for i := 0 to |ls|
        invariant Extended(old(edges), Between(op, ls[..i], rs), edges)
      {
        ghost var before := edges;
        for j := 0 to |rs|
          invariant Extended(before, Between(op, [ls[i]], rs[..j]), edges)
        {
          PushUniqueEdge(Directed(op, ls[i], rs[j]));
          assert Between(op, [ls[i]], rs[..j + 1]) == Between(op, [ls[i]], rs[..j]) + {Directed(op, ls[i], rs[j])};
        }
        assert rs[..|rs|] == rs;
        assert Between(op, ls[..i + 1], rs) == Between(op, ls[..i], rs) + Between(op, [ls[i]], rs);
      }
      assert ls[..|ls|] == ls;
    }

    /** The walk down the left spine of a shift adds exactly `Collected`, each edge once. */
    method CollectShiftEdges(left: Expr, op: Op, right: Expr, depth: nat)
      modifies this`edges
      ensures Extended(old(edges), Collected(aliases, left, op, right, depth), edges)
      decreases left
    {
      if depth > MAX_WALK_DEPTH {
        return;
      }
      var ls := TerminalTaskIds(left, depth);
      var rs := TerminalTaskIds(right, depth);
      PushBetween(op, ls, rs);
      if left.Shift? {
        CollectShiftEdges(left.left, left.op, left.right, depth + 1);
      }
    }
  }

  // ---------------------------------------------------------------- what Python would do

  /** The task an expression denotes, however deeply wrapped in calls and attributes. */
  function Denoted(aliases: Aliases, e: Expr): seq<TaskId> {
    match e
    case Name(id) => (match LatestAlias(aliases, id) case Some(task) => [task] case None => [])
    case Call(func) => Denoted(aliases, func)
    case Attribute(value) => Denoted(aliases, value)
    case _ => []
  }

  /** `upstream >> downstream`, or `downstream << upstream`: an edge leads from each task upstream to
      each task downstream. */
  function Links(op: Op, left: seq<TaskId>, right: seq<TaskId>): set<Edge> {
    var (upstream, downstream) := if op.RShift? then (left, right) else (right, left);
    set u, d | u in upstream && d in downstream :: (u, d)
  }

  lemma BetweenLinks(op: Op, left: seq<TaskId>, right: seq<TaskId>)
    ensures Between(op, left, right) == Links(op, left, right)
  {
    forall x, y ensures (x, y) in Between(op, left, right) <==> (x, y) in Links(op, left, right) {
      if op.RShift? {
        assert x in left && y in right ==> Directed(op, x, y) in Between(op, left, right);
      } else {
        assert y in left && x in right ==> Directed(op, y, x) in Between(op, left, right);
      }
    }
  }

  lemma LinksGrow(op: Op, ls: seq<TaskId>, rs: seq<TaskId>, ls': seq<TaskId>, rs': seq<TaskId>)
    requires (forall x :: x in ls ==> x in ls') && (forall x :: x in rs ==> x in rs')
    ensures Links(op, ls, rs) <= Links(op, ls', rs')
  {
  }

  datatype Evaluated = Evaluated(value: seq<TaskId>, edges: set<Edge>)

  /** Evaluation: operands left to right, a shift linking its operands' tasks and returning its
      right operand. */
  function Evaluate(aliases: Aliases, e: Expr): Evaluated
    decreases e, 1
  {
    match e
    case Shift(left, op, right) =>
      var (l, r) := (Evaluate(aliases, left), Evaluate(aliases, right));
      Evaluated(r.value, l.edges + r.edges + Links(op, l.value, r.value))
    case List(elts) => EvaluateAll(aliases, elts)
    case Call(func) => Evaluated(Denoted(aliases, e), Evaluate(aliases, func).edges)
    case Attribute(value) => Evaluated(Denoted(aliases, e), Evaluate(aliases, value).edges)
    case _ => Evaluated(Denoted(aliases, e), {})
  }

  /** The elements of a list; a list inside a list links nothing. */
  function EvaluateAll(aliases: Aliases, elts: seq<Expr>): Evaluated
    decreases elts, 0
  {
    if elts == [] then Evaluated([], {})
    else
      var (init, last) := (EvaluateAll(aliases, elts[..|elts| - 1]), elts[|elts| - 1]);
      var r := Evaluate(aliases, last);
      Evaluated(init.value + (if last.List? then [] else r.value), init.edges + r.edges)
  }

  // ---------------------------------------------------------------- chains

  predicate ShiftFree(e: Expr) {
    match e
    case Shift(_, _, _) => false
    case List(elts) => forall i | 0 <= i < |elts| :: ShiftFree(elts[i])
    case Call(func) => ShiftFree(func)
    case Attribute(value) => ShiftFree(value)
    case _ => true
  }

  /** A left-leaning chain of shifts over operands that are not shifts. */
  predicate Chain(e: Expr) { if e.Shift? then ShiftFree(e.right) && Chain(e.left) else ShiftFree(e) }

  function Shifts(e: Expr): nat { if e.Shift? then 1 + Shifts(e.left) else 0 }

  /** How many calls and attributes wrap a name. */
  function Wraps(e: Expr): nat {
    match e
    case Call(func) => 1 + Wraps(func)
    case Attribute(value) => 1 + Wraps(value)
    case _ => 0
  }

  /** No operand of the chain, nor element of one, is wrapped more than `n` times. */
  ghost predicate Wrapped(e: Expr, n: nat) {
    match e
    case Shift(left, _, right) => Wrapped(left, n) && Wrapped(right, n)
    case List(elts) => forall i | 0 <= i < |elts| :: Wraps(elts[i]) <= n
    case _ => Wraps(e) <= n
  }

  lemma {:induction false} ShiftFreeNoEdges(aliases: Aliases, e: Expr)
    requires ShiftFree(e)
    ensures Evaluate(aliases, e).edges == {}
    decreases e, 1
  {
    match e
    case List(elts) => ShiftFreeNoEdgesAll(aliases, elts);
    case Call(func) => ShiftFreeNoEdges(aliases, func);
    case Attribute(value) => ShiftFreeNoEdges(aliases, value);
    case _ =>
  }

  lemma {:induction false} ShiftFreeNoEdgesAll(aliases: Aliases, elts: seq<Expr>)
    requires forall i | 0 <= i < |elts| :: ShiftFree(elts[i])
    ensures EvaluateAll(aliases, elts).edges == {}
    decreases elts, 0
  {
    if elts != [] {
      ShiftFreeNoEdgesAll(aliases, elts[..|elts| - 1]);
      ShiftFreeNoEdges(aliases, elts[|elts| - 1]);
    }
  }

  /** Within the depth limit a wrapped name resolves to the task it denotes; beyond it, to none. */
  lemma {:induction false} ResolveWithin(aliases: Aliases, e: Expr, depth: nat)
    ensures depth + Wraps(e) <= MAX_WALK_DEPTH ==>
              Denoted(aliases, e) == (match Resolve(aliases, e, depth) case Some(task) => [task] case None => [])
    ensures depth + Wraps(e) > MAX_WALK_DEPTH ==> Resolve(aliases, e, depth) == None
    decreases e
  {
    match e
    case Call(func) => ResolveWithin(aliases, func, depth + 1);
    case Attribute(value) => ResolveWithin(aliases, value, depth + 1);
    case _ =>
  }

  lemma {:induction false} ResolveAllWithin(aliases: Aliases, elts: seq<Expr>, depth: nat)
    requires forall i | 0 <= i < |elts| :: ShiftFree(elts[i])
    ensures (forall i | 0 <= i < |elts| :: depth + Wraps(elts[i]) <= MAX_WALK_DEPTH) ==>
              ResolveAll(aliases, elts, depth) == EvaluateAll(aliases, elts).value
    ensures depth > MAX_WALK_DEPTH ==> ResolveAll(aliases, elts, depth) == []
    decreases elts
  {
    if elts != [] {
      var last := elts[|elts| - 1];
      ResolveAllWithin(aliases, elts[..|elts| - 1], depth);
      ResolveWithin(aliases, last, depth);
    }
  }

  /** An operand's tasks, found from a depth that leaves room for its wrapping. */
  lemma OperandTerminals(aliases: Aliases, e: Expr, n: nat, depth: nat)
    requires ShiftFree(e) && Wrapped(e, n)
    ensures depth + 1 + n <= MAX_WALK_DEPTH ==> Terminals(aliases, e, depth) == Evaluate(aliases, e).value
    ensures depth + 1 > MAX_WALK_DEPTH ==> Terminals(aliases, e, depth) == []
  {
    if e.List? {
      ResolveAllWithin(aliases, e.elts, depth + 1);
    } else {
      ResolveAllWithin(aliases, [e], depth + 1);
      assert [e][..0] == [];
      assert EvaluateAll(aliases, [e]).value == Evaluate(aliases, e).value;
    }
  }

  /** Every chain whose length plus wrapping is within the limit: the edges extracted are
      exactly the edges of evaluating it. */
  lemma {:induction false} ChainExtracted(aliases: Aliases, e: Expr, n: nat, depth: nat)
    requires e.Shift? && Chain(e) && Wrapped(e, n) && depth + Shifts(e) + n <= MAX_WALK_DEPTH
    ensures Collected(aliases, e.left, e.op, e.right, depth) == Evaluate(aliases, e).edges
    decreases e
  {
    OperandTerminals(aliases, e.right, n, depth);
    ShiftFreeNoEdges(aliases, e.right);
    BetweenLinks(e.op, Evaluate(aliases, e.left).value, Evaluate(aliases, e.right).value);
    if e.left.Shift? {
      OperandTerminals(aliases, e.left.right, n, depth + 1);
      ChainExtracted(aliases, e.left, n, depth + 1);
    } else {
      OperandTerminals(aliases, e.left, n, depth);
      ShiftFreeNoEdges(aliases, e.left);
    }
  }

  /** Which way a link goes: `left >> right` puts the tasks of `left` before those of `right`,
      `left << right` after them, and links nothing else. */
  lemma LinkDirection(aliases: Aliases, left: Expr, op: Op, right: Expr, x: TaskId, y: TaskId)
    requires ShiftFree(left) && ShiftFree(right) && Wrapped(left, 0) && Wrapped(right, 0)
    ensures (x, y) in Collected(aliases, left, op, right, 0) <==>
      match op
      case RShift => x in Evaluate(aliases, left).value && y in Evaluate(aliases, right).value
      case LShift => x in Evaluate(aliases, right).value && y in Evaluate(aliases, left).value
  {
    ChainExtracted(aliases, Shift(left, op, right), 0, 0);
    ShiftFreeNoEdges(aliases, left);
    ShiftFreeNoEdges(aliases, right);
    assert (x, y) in Links(op, Evaluate(aliases, left).value, Evaluate(aliases, right).value) <==>
      (x, y) in Evaluate(aliases, Shift(left, op, right)).edges;
  }

  // ---------------------------------------------------------------- chains past the limit

  /** The last `n` shifts of a chain, starting from the operand before them. */
  function LastShifts(e: Expr, n: nat): Expr
    requires n <= Shifts(e)
  {
    if n == 0 then (if e.Shift? then e.right else e) else Shift(LastShifts(e.left, n - 1), e.op, e.right)
  }

  /** Evaluating one more of the last shifts adds the edges of that shift. */
  lemma LastShiftsStep(aliases: Aliases, e: Expr, n: nat)
    requires e.Shift? && ShiftFree(e.right) && n <= Shifts(e.left)
    ensures Evaluate(aliases, LastShifts(e.left, n)).value == Evaluate(aliases, e.left).value
    ensures Evaluate(aliases, LastShifts(e, n + 1)).edges ==
            Evaluate(aliases, LastShifts(e.left, n)).edges
            + Links(e.op, Evaluate(aliases, e.left).value, Evaluate(aliases, e.right).value)
  {
    ShiftFreeNoEdges(aliases, e.right);
  }

  /** At the limit nothing is found, and one short of it no left operand is. */
  lemma NothingAtLimit(aliases: Aliases, e: Expr, depth: nat)
    requires e.Shift? && Chain(e) && Wrapped(e, 0) && depth >= MAX_WALK_DEPTH - 1
    requires depth + Shifts(e) > MAX_WALK_DEPTH
    ensures Collected(aliases, e.left, e.op, e.right, depth) == {}
    decreases e
  {
    if depth <= MAX_WALK_DEPTH {
      if depth == MAX_WALK_DEPTH { OperandTerminals(aliases, e.right, 0, depth); }
      if e.left.Shift? {
        OperandTerminals(aliases, e.left.right, 0, depth + 1);
        NothingAtLimit(aliases, e.left, depth + 1);
      } else {
        OperandTerminals(aliases, e.left, 0, depth);
      }
    }
  }

  lemma CollectedStep(aliases: Aliases, e: Expr, depth: nat)
    requires e.Shift? && e.left.Shift? && Chain(e) && Wrapped(e, 0) && depth + 2 <= MAX_WALK_DEPTH
    ensures Collected(aliases, e.left, e.op, e.right, depth) ==
            Collected(aliases, e.left.left, e.left.op, e.left.right, depth + 1)
            + Links(e.op, Evaluate(aliases, e.left).value, Evaluate(aliases, e.right).value)
  {
    BetweenLinks(e.op, Evaluate(aliases, e.left).value, Evaluate(aliases, e.right).value);
    OperandTerminals(aliases, e.right, 0, depth);
    OperandTerminals(aliases, e.left.right, 0, depth + 1);
  }

  /** The walk met at `depth` extracts exactly the edges of the last `n` shifts. */
  ghost predicate ExtractsLast(aliases: Aliases, e: Expr, depth: nat, n: nat)
    requires e.Shift? && n <= Shifts(e)
  {
    Collected(aliases, e.left, e.op, e.right, depth) == Evaluate(aliases, LastShifts(e, n)).edges
  }

  lemma ExtractsOneMore(aliases: Aliases, e: Expr, depth: nat, n: nat)
    requires e.Shift? && e.left.Shift? && Chain(e) && Wrapped(e, 0) && depth + 2 <= MAX_WALK_DEPTH
    requires n <= Shifts(e.left) && ExtractsLast(aliases, e.left, depth + 1, n)
    ensures ExtractsLast(aliases, e, depth, n + 1)
  {
    CollectedStep(aliases, e, depth);
    LastShiftsStep(aliases, e, n);
  }

  lemma ExtractsNone(aliases: Aliases, e: Expr)
    requires e.Shift? && Chain(e) && Wrapped(e, 0) && Shifts(e) > 1
    ensures ExtractsLast(aliases, e, MAX_WALK_DEPTH - 1, 0)
  {
    NothingAtLimit(aliases, e, MAX_WALK_DEPTH - 1);
    ShiftFreeNoEdges(aliases, e.right);
  }

  lemma {:induction false} LongChainExtracted(aliases: Aliases, e: Expr, depth: nat, n: nat)
    requires e.Shift? && Chain(e) && Wrapped(e, 0) && depth + n == MAX_WALK_DEPTH - 1
    requires Shifts(e) > n + 1
    ensures ExtractsLast(aliases, e, depth, n)
    decreases n
  {
    if n == 0 {
      ExtractsNone(aliases, e);
    } else {
      LongChainExtracted(aliases, e.left, depth + 1, n - 1);
      ExtractsOneMore(aliases, e, depth, n - 1);
    }
  }

  /** Every chain over names and lists of names, of any length: all edges of evaluating it up to
      1024 shifts; past that, exactly the edges of its last 1023 shifts. */
  lemma EveryChainExtracted(aliases: Aliases, e: Expr)
    requires e.Shift? && Chain(e) && Wrapped(e, 0)
    ensures Collected(aliases, e.left, e.op, e.right, 0) ==
            Evaluate(aliases, if Shifts(e) <= MAX_WALK_DEPTH then e else LastShifts(e, MAX_WALK_DEPTH - 1)).edges
  {
    if Shifts(e) <= MAX_WALK_DEPTH { ChainExtracted(aliases, e, 0, 0); }
    else { LongChainExtracted(aliases, e, 0, MAX_WALK_DEPTH - 1); }
  }

  /** `a >> b >> b >> ...` with `n` shifts. */
  function Repeated(a: string, b: string, n: nat): Expr {
    if n == 0 then Name(a) else Shift(Repeated(a, b, n - 1), RShift, Name(b))
  }

  lemma {:induction false} RepeatedIsChain(a: string, b: string, n: nat)
    ensures Chain(Repeated(a, b, n)) && Wrapped(Repeated(a, b, n), 0) && Shifts(Repeated(a, b, n)) == n
  {
    if n > 0 { RepeatedIsChain(a, b, n - 1); }
  }

  /** One shift more onto a name. */
  lemma EvaluateOntoName(aliases: Aliases, left: Expr, x: TaskId, b: string, y: TaskId)
    requires Evaluate(aliases, left).value == [x] && LatestAlias(aliases, b) == Some(y)
    ensures Evaluate(aliases, Shift(left, RShift, Name(b))) == Evaluated([y], Evaluate(aliases, left).edges + {(x, y)})
  {
    assert Evaluate(aliases, Name(b)) == Evaluated([y], {});
    assert Links(RShift, [x], [y]) == {(x, y)} by {
      assert [x][0] in [x] && [y][0] in [y];
    }
  }

  lemma {:induction false} RepeatedEdges(aliases: Aliases, a: string, x: TaskId, b: string, y: TaskId, n: nat)
    requires LatestAlias(aliases, a) == Some(x) && LatestAlias(aliases, b) == Some(y)
    ensures Evaluate(aliases, Repeated(a, b, n)).value == [if n == 0 then x else y]
    ensures n > 0 ==> (x, y) in Evaluate(aliases, Repeated(a, b, n)).edges
  {
    if n > 0 {
      RepeatedEdges(aliases, a, x, b, y, n - 1);
      EvaluateOntoName(aliases, Repeated(a, b, n - 1), if n == 1 then x else y, b, y);
    }
  }

  /** The last shifts, short of all of them, link the repeated task only to itself. */
  lemma {:induction false} LastRepeatedEdges(aliases: Aliases, a: string, b: string, y: TaskId, n: nat, k: nat)
    requires LatestAlias(aliases, b) == Some(y) && k < n && Shifts(Repeated(a, b, n)) == n
    ensures Evaluate(aliases, LastShifts(Repeated(a, b, n), k)).value == [y]
    ensures Evaluate(aliases, LastShifts(Repeated(a, b, n), k)).edges <= {(y, y)}
    decreases k
  {
    if k > 0 {
      LastRepeatedEdges(aliases, a, b, y, n - 1, k - 1);
      EvaluateOntoName(aliases, LastShifts(Repeated(a, b, n - 1), k - 1), y, b, y);
    }
  }

  /** A dependency is lost past the limit: between two tasks, evaluating `a >> b >> b >> ...`
      links the first to the second, and the walk finds that link exactly up to 1024 shifts. */
  lemma RepeatedLink(aliases: Aliases, a: string, x: TaskId, b: string, y: TaskId, n: nat)
    requires LatestAlias(aliases, a) == Some(x) && LatestAlias(aliases, b) == Some(y) && x != y && n > 0
    ensures var e := Repeated(a, b, n);
            && (x, y) in Evaluate(aliases, e).edges
            && ((x, y) in Collected(aliases, e.left, e.op, e.right, 0) <==> n <= MAX_WALK_DEPTH)
  {
    RepeatedIsChain(a, b, n);
    RepeatedEdges(aliases, a, x, b, y, n);
    EveryChainExtracted(aliases, Repeated(a, b, n));
    if n > MAX_WALK_DEPTH { LastRepeatedEdges(aliases, a, b, y, n, MAX_WALK_DEPTH - 1); }
  }

  /** One such chain: of its 1025 shifts, the first is not seen, and with it A before B. */
  lemma LongChainLosesEdge()
    ensures var aliases, e := [("a", "A"), ("b", "B")], Repeated("a", "b", 1025);
            && ("A", "B") in Evaluate(aliases, e).edges
            && ("A", "B") !in Collected(aliases, e.left, e.op, e.right, 0)
  {
    var aliases: Aliases := [("a", "A"), ("b", "B")];
    assert aliases[..1] == [("a", "A")];
    RepeatedLink(aliases, "a", "A", "b", "B", 1025);
  }

  // ---------------------------------------------------------------- any expression at all

  /** A name resolves to its most recent binding. */
  lemma {:induction false} LatestAliasIsLast(aliases: Aliases, id: string)
    ensures match LatestAlias(aliases, id)
            case None => forall i | 0 <= i < |aliases| :: aliases[i].0 != id
            case Some(task) =>
              exists i :: 0 <= i < |aliases| && aliases[i] == (id, task)
                          && forall j | i < j < |aliases| :: aliases[j].0 != id
    decreases |aliases|
  {
    if aliases != [] {
      var init, last := aliases[..|aliases| - 1], |aliases| - 1;
      LatestAliasIsLast(init, id);
      if aliases[last].0 == id {
        assert aliases[last] == (id, aliases[last].1);
      } else if LatestAlias(init, id).Some? {
        var i :| 0 <= i < |init| && init[i] == (id, LatestAlias(init, id).value)
                 && forall j | i < j < |init| :: init[j].0 != id;
        assert aliases[i] == init[i];
        assert forall j | i < j < last :: aliases[j] == init[j];
      }
    }
  }

  lemma {:induction false} ResolveAllSound(aliases: Aliases, elts: seq<Expr>, depth: nat)
    ensures forall x :: x in ResolveAll(aliases, elts, depth) ==> x in EvaluateAll(aliases, elts).value
    decreases elts
  {
    if elts != [] {
      var last := elts[|elts| - 1];
      ResolveAllSound(aliases, elts[..|elts| - 1], depth);
      ResolveWithin(aliases, last, depth);
    }
  }

  lemma {:induction false} TerminalsSound(aliases: Aliases, e: Expr, depth: nat)
    ensures forall x :: x in Terminals(aliases, e, depth) ==> x in Evaluate(aliases, e).value
    decreases e
  {
    match e
    case Shift(_, _, right) => TerminalsSound(aliases, right, depth + 1);
    case List(elts) => ResolveAllSound(aliases, elts, depth + 1);
    case _ =>
      ResolveAllSound(aliases, [e], depth + 1);
      assert [e][..0] == [];
      assert EvaluateAll(aliases, [e]).value == Evaluate(aliases, e).value;
  }

  /** Whatever the expression and its depth, no edge is extracted that evaluation would not make. */
  lemma {:induction false} NeverSpurious(aliases: Aliases, e: Expr, depth: nat)
    requires e.Shift?
    ensures Collected(aliases, e.left, e.op, e.right, depth) <= Evaluate(aliases, e).edges
    decreases e
  {
    var ls, rs := Terminals(aliases, e.left, depth), Terminals(aliases, e.right, depth);
    TerminalsSound(aliases, e.left, depth);
    TerminalsSound(aliases, e.right, depth);
    BetweenLinks(e.op, ls, rs);
    LinksGrow(e.op, ls, rs, Evaluate(aliases, e.left).value, Evaluate(aliases, e.right).value);
    if e.left.Shift? { NeverSpurious(aliases, e.left, depth + 1); }
  }
}
