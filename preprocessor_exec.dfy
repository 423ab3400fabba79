/** What running preprocessor nodes does to the interpreter. A node's `exec` and the
    callback given to `enterScope` are modelled as lists of calls back into the interpreter
    (bind a variable, define or remove a macro, open a scope around more calls, defer a node
    to the second pass, or throw), so that the scope discipline and the two phases of
    `execTree` can be stated over every possible node. */
module PreprocessorExec {
  import opened Common
  import opened PreprocessorScopes

  /** One call a node makes into the interpreter while it executes. */
  datatype Effect =
    | SetVar(name: string, value: Value)                       // setVariable
    | DefineCallable(callable: Callable)                       // defineRuntimeCallable
    | UndefCallable(name: string, caseSensitive: bool)         // undefRuntimeCallable
    | Scoped(variables: seq<(string, Value)>, body: seq<Effect>) // enterScope(variables, fn)
    | Defer(node: Node)                                        // appendToSecondPassExec
    | Raise(error: PreprocessorError)                          // throw

  /** A preprocessor node: its `exec` is its effects, in order. */
  datatype Node = Node(body: seq<Effect>)

  /** The interpreter's fields: `_scopes`, `_secondPassExec`, `_secondExecPassNodes`, and the
      counter that stands for `genUUID` when a scope is created. */
  datatype State = State(scopes: seq<Scope>, secondPassExec: bool, queue: seq<Node>, nextId: nat)

  /** The state after a call, and the error it threw, if any. */
  datatype Outcome = Outcome(state: State, error: Option<PreprocessorError>)

  /** The state inside `enterScope`: a fresh scope holding the variables is on top. */
  function Pushed(st: State, variables: seq<(string, Value)>): State
  {
    st.(scopes := st.scopes + [NewScope(variables, st.nextId)], nextId := st.nextId + 1)
  }

  function WithRoot(st: State, root: Scope): State
    requires |st.scopes| > 0
  {
    st.(scopes := st.scopes[0 := root])
  }

  /** One call. `enterScope` pops its scope only when the callback returns normally: there
      is no `finally`, so a throw leaves the scope on the stack. */
  function Step(st: State, e: Effect): (o: Outcome)
    requires |st.scopes| > 0
    ensures |o.state.scopes| >= |st.scopes|
    ensures o.error.None? ==> |o.state.scopes| == |st.scopes|
    decreases e
  {
    match e
    case SetVar(name, value) =>
      (match SetVariableIn(st.scopes, name, value)
       case Failure(err) => Outcome(st, Some(err))
       case Success(scopes) => Outcome(st.(scopes := scopes), None))
    case DefineCallable(c) =>
      (match Define(st.scopes[0], c)
       case Failure(err) => Outcome(st, Some(err))
       case Success(root) => Outcome(WithRoot(st, root), None))
    case UndefCallable(name, caseSensitive) =>
      Outcome(WithRoot(st, Undef(st.scopes[0], name, caseSensitive)), None)
    case Scoped(variables, body) =>
      var o := Run(Pushed(st, variables), body);
      if o.error.Some? then o
      else Outcome(o.state.(scopes := o.state.scopes[..|o.state.scopes| - 1]), None)
    case Defer(node) => Outcome(st.(queue := st.queue + [node]), None)
    case Raise(err) => Outcome(st, Some(err))
  }

  /** The calls in order, up to the first that throws. */
  function Run(st: State, effects: seq<Effect>): (o: Outcome)
    requires |st.scopes| > 0
    ensures |o.state.scopes| >= |st.scopes|
    ensures o.error.None? ==> |o.state.scopes| == |st.scopes|
    decreases effects
  {
    if effects == [] then Outcome(st, None)
    else
      var o := Step(st, effects[0]);
      if o.error.Some? then o else Run(o.state, effects[1..])
  }

  /** `R.forEach(node => node.exec(this), nodes)` */
  function RunNodes(st: State, nodes: seq<Node>): (o: Outcome)
    requires |st.scopes| > 0
    ensures |o.state.scopes| >= |st.scopes|
    decreases |nodes|
  {
    if nodes == [] then Outcome(st, None)
    else
      var o := Run(st, nodes[0].body);
      if o.error.Some? then o else RunNodes(o.state, nodes[1..])
  }

  /** The two phases of `execTree`: run the tree with the second-pass flag down and an empty
      queue; then, if nodes were deferred, raise the flag, run the deferred nodes in the
      order they were appended, and empty the queue. `R.forEach` fixes the list's length
      when it starts, so a node deferred during the second phase is dropped with the queue. */
  function ExecTree(st: State, ast: Node): Outcome
    requires |st.scopes| > 0
  {
    var first := Run(st.(secondPassExec := false, queue := []), ast.body);
    if first.error.Some? || first.state.queue == [] then first
    else
      var o := RunNodes(first.state.(secondPassExec := true), first.state.queue);
      if o.error.Some? then o else Outcome(o.state.(queue := []), None)
  }

  // ---------------------------------------------------------------------------------------
  // The scope discipline

  /** What a call that returns normally may change in the scope stack: nothing of its
      length or ids, the callables only in the root scope, and variables only in the top
      scope. */
  ghost predicate Frame(before: seq<Scope>, after: seq<Scope>)
  {
    |after| == |before|
    && forall k :: 0 <= k < |before| ==>
      && after[k].id == before[k].id
      && (k > 0 ==> after[k].sensitive == before[k].sensitive && after[k].nonSensitive == before[k].nonSensitive)
      && (k < |before| - 1 ==> after[k].variables == before[k].variables)
  }

  lemma {:induction false} StepFrame(st: State, e: Effect)
    requires |st.scopes| > 0
    ensures Step(st, e).error.None? ==> Frame(st.scopes, Step(st, e).state.scopes)
    decreases e
  {
    match e
    case Scoped(variables, body) =>
      RunFrame(Pushed(st, variables), body);
    case DefineCallable(c) =>
      DefineRule(st.scopes[0], c);
    case _ =>
  }

  lemma {:induction false} RunFrame(st: State, effects: seq<Effect>)
    requires |st.scopes| > 0
    ensures Run(st, effects).error.None? ==> Frame(st.scopes, Run(st, effects).state.scopes)
    decreases effects
  {
    if effects != [] {
      var o := Step(st, effects[0]);
      StepFrame(st, effects[0]);
      if o.error.None? {
        RunFrame(o.state, effects[1..]);
      }
    }
  }

  /** `enterScope` whose callback returns normally leaves the scope stack as it found it,
      except for callables the callback defined or removed, which live in the root scope. */
  lemma ScopedRestores(st: State, variables: seq<(string, Value)>, body: seq<Effect>)
    requires |st.scopes| > 0
    requires Step(st, Scoped(variables, body)).error.None?
    ensures var after := Step(st, Scoped(variables, body)).state.scopes;
      && |after| == |st.scopes|
      && after[1..] == st.scopes[1..]
      && after[0].variables == st.scopes[0].variables && after[0].id == st.scopes[0].id
  {
    var o := Run(Pushed(st, variables), body);
    RunFrame(Pushed(st, variables), body);
    var after := Step(st, Scoped(variables, body)).state.scopes;
    assert after == o.state.scopes[..|st.scopes|];
    forall k | 1 <= k < |st.scopes|
      ensures after[k] == st.scopes[k]
    {
      assert Pushed(st, variables).scopes[k] == st.scopes[k];
    }
    assert Pushed(st, variables).scopes[0] == st.scopes[0];
  }

  /** While the callback runs, the top scope holds exactly the supplied variables: asked
      with `currentScopeOnly`, a name reads as its last entry, and a name without an entry
      reads as `null`. */
  lemma ScopedTopHoldsVariables(st: State, variables: seq<(string, Value)>, name: string)
    ensures var inside := Pushed(st, variables).scopes;
      && inside[|inside| - 1] == NewScope(variables, st.nextId)
      && (Lookup(inside, name, true).Some? <==> exists k :: 0 <= k < |variables| && variables[k].0 == name)
      && forall k :: 0 <= k < |variables| && variables[k].0 == name && (forall j :: k < j < |variables| ==> variables[j].0 != name) ==>
           Lookup(inside, name, true) == Some(variables[k].1)
  {
    var inside := Pushed(st, variables).scopes;
    LookupMeaning(inside, name);
    MapOfKeys(variables, name);
    forall k | 0 <= k < |variables| && variables[k].0 == name && (forall j :: k < j < |variables| ==> variables[j].0 != name)
      ensures Lookup(inside, name, true) == Some(variables[k].1)
    {
      MapOfLastWins(variables, k);
    }
  }

  /** A throw inside the callback skips the pop: the scope stack stays deeper. */
  lemma ScopedThrowKeepsScope(st: State, variables: seq<(string, Value)>, body: seq<Effect>)
    requires |st.scopes| > 0
    requires Step(st, Scoped(variables, body)).error.Some?
    ensures |Step(st, Scoped(variables, body)).state.scopes| > |st.scopes|
  {
  }

  /** A macro defined inside any number of scopes is stored in the root scope, and stays
      there when the scope closes. */
  lemma DefineInsideScopeReachesRoot(st: State, variables: seq<(string, Value)>, c: Callable)
    requires |st.scopes| > 0 && Define(st.scopes[0], c).Success?
    ensures var o := Step(st, Scoped(variables, [DefineCallable(c)]));
      o.error.None? && o.state.scopes == st.scopes[0 := Define(st.scopes[0], c).value]
  {
    var inside := Pushed(st, variables);
    var o1 := Step(inside, DefineCallable(c));
    assert inside.scopes[0] == st.scopes[0];
    assert Run(inside, [DefineCallable(c)]) == Run(o1.state, []);
    assert o1.state.scopes[..|st.scopes|] == st.scopes[0 := Define(st.scopes[0], c).value];
  }

  // ---------------------------------------------------------------------------------------
  // Scope ids and the second-pass fields

  /** Scope ids grow from the root up and are all below the next fresh id. */
  ghost predicate IdsFresh(st: State)
  {
    && (forall k :: 0 <= k < |st.scopes| ==> st.scopes[k].id < st.nextId)
    && (forall j, k :: 0 <= j < k < |st.scopes| ==> st.scopes[j].id < st.scopes[k].id)
  }

  lemma {:induction false} StepIds(st: State, e: Effect)
    requires |st.scopes| > 0 && IdsFresh(st)
    ensures IdsFresh(Step(st, e).state) && Step(st, e).state.nextId >= st.nextId
    ensures Step(st, e).state.secondPassExec == st.secondPassExec
    ensures st.queue <= Step(st, e).state.queue
    decreases e
  {
    match e
    case Scoped(variables, body) =>
      PushedIds(st, variables);
      RunIds(Pushed(st, variables), body);
      var o := Run(Pushed(st, variables), body);
      if o.error.None? {
        PoppedIds(o.state);
      }
    case DefineCallable(c) =>
      DefineRule(st.scopes[0], c);
      if Define(st.scopes[0], c).Success? {
        RootIds(st, Define(st.scopes[0], c).value);
      }
    case UndefCallable(name, caseSensitive) =>
      RootIds(st, Undef(st.scopes[0], name, caseSensitive));
    case SetVar(name, value) =>
      if SetVariableIn(st.scopes, name, value).Success? {
        SetIds(st, SetVariableIn(st.scopes, name, value).value);
      }
    case _ =>
  }

  lemma PushedIds(st: State, variables: seq<(string, Value)>)
    requires IdsFresh(st)
    ensures IdsFresh(Pushed(st, variables))
  {
  }

  lemma PoppedIds(st: State)
    requires IdsFresh(st) && |st.scopes| > 0
    ensures IdsFresh(st.(scopes := st.scopes[..|st.scopes| - 1]))
  {
  }

  lemma RootIds(st: State, root: Scope)
    requires IdsFresh(st) && |st.scopes| > 0 && root.id == st.scopes[0].id
    ensures IdsFresh(WithRoot(st, root))
  {
    var after := WithRoot(st, root).scopes;
    assert forall k :: 0 <= k < |after| ==> after[k].id == st.scopes[k].id;
  }

  lemma SetIds(st: State, scopes: seq<Scope>)
    requires IdsFresh(st) && |scopes| == |st.scopes|
    requires forall k :: 0 <= k < |scopes| ==> scopes[k].id == st.scopes[k].id
    ensures IdsFresh(st.(scopes := scopes))
  {
  }

  /** Running calls keeps the ids fresh, never lowers the id counter, leaves the
      second-pass flag alone and only appends to the deferred queue, whether or not a call
      throws. */
  lemma {:induction false} RunIds(st: State, effects: seq<Effect>)
    requires |st.scopes| > 0 && IdsFresh(st)
    ensures IdsFresh(Run(st, effects).state) && Run(st, effects).state.nextId >= st.nextId
    ensures Run(st, effects).state.secondPassExec == st.secondPassExec
    ensures st.queue <= Run(st, effects).state.queue
    decreases effects
  {
    if effects != [] {
      var o := Step(st, effects[0]);
      StepIds(st, effects[0]);
      if o.error.None? {
        RunIds(o.state, effects[1..]);
      }
    }
  }

  lemma {:induction false} RunNodesIds(st: State, nodes: seq<Node>)
    requires |st.scopes| > 0 && IdsFresh(st)
    ensures IdsFresh(RunNodes(st, nodes).state)
    decreases |nodes|
  {
    if nodes != [] {
      RunIds(st, nodes[0].body);
      if Run(st, nodes[0].body).error.None? {
        RunNodesIds(Run(st, nodes[0].body).state, nodes[1..]);
      }
    }
  }

  /** `execTree` keeps the ids fresh; when it returns normally the deferred queue is empty,
      and the second-pass flag is up exactly when the first phase deferred a node. */
  lemma ExecTreePhases(st: State, ast: Node)
    requires |st.scopes| > 0 && IdsFresh(st)
    ensures IdsFresh(ExecTree(st, ast).state)
    ensures var first := Run(st.(secondPassExec := false, queue := []), ast.body);
      ExecTree(st, ast).error.None? ==>
        && ExecTree(st, ast).state.queue == []
        && (ExecTree(st, ast).state.secondPassExec <==> first.state.queue != [])
  {
    var st0 := st.(secondPassExec := false, queue := []);
    RunIds(st0, ast.body);
    var first := Run(st0, ast.body);
    if first.error.None? && first.state.queue != [] {
      RunNodesIds(first.state.(secondPassExec := true), first.state.queue);
      RunNodesFlag(first.state.(secondPassExec := true), first.state.queue);
    }
  }

  /** The nodes a list of calls defers when none of them throws: the `Defer` calls in
      program order, including those inside `enterScope` callbacks. */
  function DeferredIn(e: Effect): seq<Node>
    decreases e
  {
    match e
    case Scoped(_, body) => DeferredBy(body)
    case Defer(node) => [node]
    case _ => []
  }

  function DeferredBy(effects: seq<Effect>): seq<Node>
    decreases effects
  {
    if effects == [] then [] else DeferredIn(effects[0]) + DeferredBy(effects[1..])
  }

  /** A call that returns normally appends exactly the nodes it defers to the queue. */
  lemma {:induction false} StepDefers(st: State, e: Effect)
    requires |st.scopes| > 0 && Step(st, e).error.None?
    ensures Step(st, e).state.queue == st.queue + DeferredIn(e)
    decreases e
  {
    match e
    case Scoped(variables, body) =>
      RunDefers(Pushed(st, variables), body);
    case Defer(node) =>
    case Raise(err) =>
    case SetVar(_, _) =>
      assert st.queue + [] == st.queue;
    case DefineCallable(_) =>
      assert st.queue + [] == st.queue;
    case UndefCallable(_, _) =>
      assert st.queue + [] == st.queue;
  }

  /** Calls that return normally append exactly the nodes they defer, in order. */
  lemma {:induction false} RunDefers(st: State, effects: seq<Effect>)
    requires |st.scopes| > 0 && Run(st, effects).error.None?
    ensures Run(st, effects).state.queue == st.queue + DeferredBy(effects)
    decreases effects
  {
    if effects == [] {
      assert st.queue + [] == st.queue;
    } else {
      var o := Step(st, effects[0]);
      StepDefers(st, effects[0]);
      RunDefers(o.state, effects[1..]);
      assert st.queue + DeferredIn(effects[0]) + DeferredBy(effects[1..]) == st.queue + DeferredBy(effects);
    }
  }

  /** The outcome of calls run on a queue with `q` in front of it. */
  function QueueAfter(o: Outcome, q: seq<Node>): Outcome
  {
    Outcome(o.state.(queue := q + o.state.queue), o.error)
  }

  /** The queue is an accumulator: what a call does, and what it appends, does not depend on
      what was queued before it. */
  lemma {:induction false} StepQueue(st: State, e: Effect, q: seq<Node>)
    requires |st.scopes| > 0
    ensures Step(st.(queue := q + st.queue), e) == QueueAfter(Step(st, e), q)
    decreases e
  {
    match e
    case Scoped(variables, body) =>
      RunQueue(Pushed(st, variables), body, q);
      assert Pushed(st.(queue := q + st.queue), variables) == Pushed(st, variables).(queue := q + Pushed(st, variables).queue);
    case Defer(node) =>
      assert q + st.queue + [node] == q + (st.queue + [node]);
    case _ =>
  }

  lemma {:induction false} RunQueue(st: State, effects: seq<Effect>, q: seq<Node>)
    requires |st.scopes| > 0
    ensures Run(st.(queue := q + st.queue), effects) == QueueAfter(Run(st, effects), q)
    decreases effects
  {
    if effects != [] {
      var o := Step(st, effects[0]);
      StepQueue(st, effects[0], q);
      if o.error.None? {
        RunQueue(o.state, effects[1..], q);
        assert o.state.(queue := q + o.state.queue) == Step(st.(queue := q + st.queue), effects[0]).state;
      }
    }
  }

  /** Calls run on any queue behave as on an empty one, with the old queue kept in front. */
  lemma QueueIsAccumulator(st: State, effects: seq<Effect>)
    requires |st.scopes| > 0
    ensures var o := Run(st.(queue := []), effects);
      Run(st, effects) == Outcome(o.state.(queue := st.queue + o.state.queue), o.error)
  {
    RunQueue(st.(queue := []), effects, st.queue);
    assert st.(queue := []).(queue := st.queue + []) == st;
  }

  /** `execTree` in general: when the first phase returns normally, the second phase runs
      exactly the nodes the first phase deferred, in program order, with the flag up, and
      the queue is emptied when it returns normally too. */
  lemma ExecTreeRunsDeferred(st: State, ast: Node)
    requires |st.scopes| > 0
    ensures var first := Run(st.(secondPassExec := false, queue := []), ast.body);
      first.error.None? ==>
        && first.state.queue == DeferredBy(ast.body)
        && ExecTree(st, ast) ==
             if DeferredBy(ast.body) == [] then first
             else
               var o := RunNodes(first.state.(secondPassExec := true), DeferredBy(ast.body));
               if o.error.Some? then o else Outcome(o.state.(queue := []), None)
  {
    var st0 := st.(secondPassExec := false, queue := []);
    if Run(st0, ast.body).error.None? {
      RunDefers(st0, ast.body);
      assert [] + DeferredBy(ast.body) == DeferredBy(ast.body);
    }
  }

  lemma {:induction false} RunNodesFlag(st: State, nodes: seq<Node>)
    requires |st.scopes| > 0 && IdsFresh(st)
    ensures RunNodes(st, nodes).state.secondPassExec == st.secondPassExec
    decreases |nodes|
  {
    if nodes != [] {
      RunIds(st, nodes[0].body);
      if Run(st, nodes[0].body).error.None? {
        RunNodesFlag(Run(st, nodes[0].body).state, nodes[1..]);
      }
    }
  }

  /** A tree that only defers nodes runs them afterwards, in order, with the second-pass
      flag up: the deferred nodes see the effects of everything the first phase did. */
  lemma {:induction false} DeferredRunAfterFirstPhase(st: State, nodes: seq<Node>)
    requires |st.scopes| > 0 && nodes != []
    ensures var ast := Node(seq(|nodes|, k requires 0 <= k < |nodes| => Defer(nodes[k])));
      var o := RunNodes(st.(secondPassExec := true, queue := nodes), nodes);
      ExecTree(st, ast) == if o.error.Some? then o else Outcome(o.state.(queue := []), None)
  {
    var defers := seq(|nodes|, k requires 0 <= k < |nodes| => Defer(nodes[k]));
    DefersQueue(st.(secondPassExec := false, queue := []), nodes, defers);
    assert [] + nodes == nodes;
  }

  lemma {:induction false} DefersQueue(st: State, nodes: seq<Node>, defers: seq<Effect>)
    requires |st.scopes| > 0
    requires |defers| == |nodes| && forall k :: 0 <= k < |nodes| ==> defers[k] == Defer(nodes[k])
    ensures Run(st, defers) == Outcome(st.(queue := st.queue + nodes), None)
    decreases |nodes|
  {
    if nodes == [] {
      assert st.queue + nodes == st.queue;
    } else {
      var next := st.(queue := st.queue + [nodes[0]]);
      assert Step(st, defers[0]) == Outcome(next, None);
      DefersQueue(next, nodes[1..], defers[1..]);
      assert next.queue + nodes[1..] == st.queue + nodes;
    }
  }
}
