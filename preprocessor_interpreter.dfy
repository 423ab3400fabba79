/** `PreprocessorInterpreter`: the scope stack, the root callable tables and the second-pass
    queue, updated in place. Every state-changing method is proved to land in the state the
    value-level semantics of `PreprocessorExec` prescribes, and the lookups to return what
    `PreprocessorScopes` and `MacroExpansion` define. */
module Preprocessor {
  import opened Common
  import opened Tokens
  import opened PreprocessorScopes
  import opened PreprocessorExec
  import opened MacroExpansion

  class PreprocessorInterpreter {
    /** `_scopes`: the root scope first, the current scope last. */
    var scopes: seq<Scope>
    /** `_secondPassExec` */
    var secondPassExec: bool
    /** `_secondExecPassNodes` */
    var secondExecPassNodes: seq<Node>
    /** The next scope id; stands for `genUUID`. */
    var nextId: nat

    /** The fields as one value of the semantics. */
    ghost function Snapshot(): State
      reads this
    {
      State(scopes, secondPassExec, secondExecPassNodes, nextId)
    }

    /** There is always a root scope, and scope ids are unique and fresh. */
    ghost predicate Valid()
      reads this
    {
      |scopes| > 0 && IdsFresh(Snapshot())
    }

    /** `new PreprocessorInterpreter(config)`: the configured root scope, or a new empty one. */
    constructor(rootScope: Option<Scope>)
      ensures Valid()
      ensures scopes == [if rootScope.Some? then rootScope.value else NewScope([], 0)]
      ensures !secondPassExec && secondExecPassNodes == []
    {
      if rootScope.Some? {
        scopes := [rootScope.value];
        nextId := rootScope.value.id + 1;
      } else {
        scopes := [NewScope([], 0)];
        nextId := 1;
      }
      secondPassExec := false;
      secondExecPassNodes := [];
    }

    /** `appendToSecondPassExec(node)` */
    method AppendToSecondPassExec(node: Node)
      requires Valid()
      modifies this
      ensures Valid()
      ensures Snapshot() == Step(old(Snapshot()), Defer(node)).state
    {
      secondExecPassNodes := secondExecPassNodes + [node];
    }

    /** `enterScope(variables, fn)`: push a scope holding the variables, run the callback,
        and pop the scope if the callback returned normally. */
    method EnterScope(variables: seq<(string, Value)>, fn: seq<Effect>) returns (error: Option<PreprocessorError>)
      requires Valid()
      modifies this
      ensures Valid()
      ensures Outcome(Snapshot(), error) == Step(old(Snapshot()), Scoped(variables, fn))
      decreases fn, 1
    {
      ghost var st0 := Snapshot();
      StepIds(st0, Scoped(variables, fn));
      scopes := scopes + [NewScope(variables, nextId)];
      nextId := nextId + 1;
      assert Snapshot() == Pushed(st0, variables);
      PushedIds(st0, variables);
      error := ExecEffects(fn);
      assert Outcome(Snapshot(), error) == Run(Pushed(st0, variables), fn);
      if error.None? {
        scopes := scopes[..|scopes| - 1];
      }
    }

    /** A node's `exec(interpreter)`: its calls in order, up to the first that throws. */
    method ExecEffects(effects: seq<Effect>) returns (error: Option<PreprocessorError>)
      requires Valid()
      modifies this
      ensures Valid()
      ensures Outcome(Snapshot(), error) == Run(old(Snapshot()), effects)
      decreases effects, 0
    {
      var i := 0;
      error := None;
      while i < |effects|
        invariant 0 <= i <= |effects| && Valid() && error.None?
        invariant Run(old(Snapshot()), effects) == Run(Snapshot(), effects[i..])
        decreases |effects| - i
      {
        ghost var before := Snapshot();
        assert effects[i..][0] == effects[i] && effects[i..][1..] == effects[i + 1..];
        error := ExecEffect(effects[i]);
        assert Run(before, effects[i..]) == if error.Some? then Outcome(Snapshot(), error) else Run(Snapshot(), effects[i + 1..]);
        if error.Some? {
          return;
        }
        i := i + 1;
      }
    }

    /** One call of a node into the interpreter. */
    method ExecEffect(e: Effect) returns (error: Option<PreprocessorError>)
      requires Valid()
      modifies this
      ensures Valid()
      ensures Outcome(Snapshot(), error) == Step(old(Snapshot()), e)
      decreases e
    {
      match e
      case SetVar(name, value) =>
        error := SetVariable(name, value);
      case DefineCallable(c) =>
        error := DefineRuntimeCallable(c);
      case UndefCallable(name, caseSensitive) =>
        UndefRuntimeCallable(name, caseSensitive);
        error := None;
      case Scoped(variables, body) =>
        error := EnterScope(variables, body);
      case Defer(node) =>
        AppendToSecondPassExec(node);
        error := None;
      case Raise(err) =>
        error := Some(err);
    }

    /** `execTree(ast)`, its two phases; the emitter text it also builds is not modelled. */
    method ExecTree(ast: Node) returns (error: Option<PreprocessorError>)
      requires Valid()
      modifies this
      ensures Valid()
      ensures Outcome(Snapshot(), error) == PreprocessorExec.ExecTree(old(Snapshot()), ast)
    {
      secondPassExec := false;
      secondExecPassNodes := [];
      error := ExecEffects(ast.body);
      if error.Some? || secondExecPassNodes == [] {
        return;
      }
      secondPassExec := true;
      error := ExecNodes(secondExecPassNodes);
      if error.None? {
        secondExecPassNodes := [];
      }
    }

    /** `R.forEach(node => node.exec(this), nodes)` over a snapshot of the list. */
    method ExecNodes(nodes: seq<Node>) returns (error: Option<PreprocessorError>)
      requires Valid()
      modifies this
      ensures Valid()
      ensures Outcome(Snapshot(), error) == RunNodes(old(Snapshot()), nodes)
    {
      error := None;
      var k := 0;
      while k < |nodes|
        invariant 0 <= k <= |nodes| && Valid() && error.None?
        invariant RunNodes(old(Snapshot()), nodes) == RunNodes(Snapshot(), nodes[k..])
        decreases |nodes| - k
      {
        ghost var before := Snapshot();
        assert nodes[k..][0] == nodes[k] && nodes[k..][1..] == nodes[k + 1..];
        error := ExecEffects(nodes[k].body);
        assert RunNodes(before, nodes[k..]) == if error.Some? then Outcome(Snapshot(), error) else RunNodes(Snapshot(), nodes[k + 1..]);
        if error.Some? {
          return;
        }
        k := k + 1;
      }
    }

    /** `undefRuntimeCallable(name, caseSensitive)` */
    method UndefRuntimeCallable(name: string, caseSensitive: bool := true)
      requires Valid()
      modifies this
      ensures Valid()
      ensures Snapshot() == WithRoot(old(Snapshot()), Undef(old(scopes)[0], name, caseSensitive))
    {
      RootIds(Snapshot(), Undef(scopes[0], name, caseSensitive));
      var root := scopes[0];
      root := root.(nonSensitive := root.nonSensitive - {name});
      if caseSensitive {
        root := root.(sensitive := root.sensitive - {name});
      }
      scopes := scopes[0 := root];
    }

    /** `defineRuntimeCallable(callable)` */
    method DefineRuntimeCallable(c: Callable) returns (error: Option<PreprocessorError>)
      requires Valid()
      modifies this
      ensures Valid()
      ensures Outcome(Snapshot(), error) == Step(old(Snapshot()), DefineCallable(c))
    {
      DefineRule(scopes[0], c);
      var callables := GetCallables(scopes[0], c.name, c.caseSensitive);
      var duplicatedMacro := callables.Some? && HasArity(callables.value, c.argsCount);
      if duplicatedMacro || (callables.Some? && |callables.value| > 0 && c.argsCount == 0) {
        if duplicatedMacro && c.argsCount == 0 && |callables.value| == 1 {
          UndefRuntimeCallable(c.name, c.caseSensitive);
        } else {
          return Some(MacroAlreadyExists(c.name));
        }
      }
      var root := scopes[0];
      if c.caseSensitive {
        root := root.(sensitive := AppendKey(root.sensitive, c.name, c));
      } else {
        root := root.(nonSensitive := AppendKey(root.nonSensitive, ToLower(c.name), c));
      }
      RootIds(Snapshot(), root);
      scopes := scopes[0 := root];
      error := None;
    }

    /** `getVariable(name, currentScopeOnly)`: from the current scope down to the root. */
    method GetVariable(name: string, currentScopeOnly: bool := false) returns (r: Option<Value>)
      ensures r == Lookup(scopes, name, currentScopeOnly)
    {
      var i := |scopes|;
      while i > 0
        invariant 0 <= i <= |scopes|
        invariant LookupBelow(scopes, name, currentScopeOnly, i) == Lookup(scopes, name, currentScopeOnly)
        decreases i
      {
        var variables := scopes[i - 1].variables;
        if name in variables {
          return Some(variables[name]);
        }
        if currentScopeOnly {
          return None;
        }
        i := i - 1;
      }
      return None;
    }

    /** `setVariable(name, value)` */
    method SetVariable(name: string, value: Value) returns (error: Option<PreprocessorError>)
      requires Valid()
      modifies this
      ensures Valid()
      ensures Outcome(Snapshot(), error) == Step(old(Snapshot()), SetVar(name, value))
    {
      var top := scopes[|scopes| - 1];
      if name in top.variables {
        return Some(VariableAlreadyExistsInCurrentScope(name));
      }
      StepIds(Snapshot(), SetVar(name, value));
      scopes := scopes[|scopes| - 1 := top.(variables := top.variables[name := value])];
      error := None;
    }

    /** `removeMacrosFromTokens(tokens)`, for variables, `%%` and macro calls. */
    method RemoveMacrosFromTokens(tokens: seq<Token>, prefix: char, fetch: ArgsFetcher, call: RuntimeCall)
      returns (changed: bool, newTokens: seq<Token>)
      requires |scopes| > 0
      ensures (changed, newTokens) == Expand(scopes, prefix, fetch, call, tokens)
    {
      newTokens, changed := tokens, false;
      var i := 0;
      while i < |newTokens|
        invariant ExpandFrom(scopes, prefix, fetch, call, newTokens, i, changed) == Expand(scopes, prefix, fetch, call, tokens)
        decreases |newTokens| - i
      {
        var t := newTokens[i];
        if Substitutable(t) {
          var variable := GetVariable(t.text);
          if variable.Some? {
            newTokens := newTokens[i := KeywordToken(ValueText(variable.value))];
            changed := true;
          } else if |t.text| > 0 && t.text[0] == prefix {
            if |t.text| > 1 && t.text[1] == prefix {
              newTokens := newTokens[i := ScopeLocal(scopes, t.text)];
            }
          } else {
            var cs := CallablesNamed(scopes, t.text);
            if cs != [] {
              var site := SiteAt(fetch, newTokens, i, cs);
              var callable := SelectOverload(cs, |site.args|);
              if callable.Some? {
                newTokens := Spliced(call, newTokens, i, site, callable.value);
                changed := true;
              }
            }
          }
        }
        i := i + 1;
      }
    }

    /** `clear()`: a single, new, empty root scope. */
    method Clear()
      requires Valid()
      modifies this
      ensures Valid()
      ensures scopes == [NewScope([], old(nextId))] && nextId == old(nextId) + 1
      ensures secondPassExec == old(secondPassExec) && secondExecPassNodes == old(secondExecPassNodes)
    {
      scopes := [NewScope([], nextId)];
      nextId := nextId + 1;
    }
  }
}
