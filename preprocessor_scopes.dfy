/** The preprocessor's scope chain and its callable tables, as values: variable lookup from
    the innermost scope outwards, binding in the current scope, and the root scope's two
    callable tables (case-sensitive by exact name, the others by lower-cased name) with the
    redefinition rule of `defineRuntimeCallable`. */
module PreprocessorScopes {
  import opened Common
  import opened Tokens

  /** `InterpreterResult` without `void`: a string, a number or a boolean. */
  datatype Value = Text(s: string) | Number(n: int) | Flag(b: bool)

  /** `value.toString()` */
  function ValueText(v: Value): string
  {
    match v
    case Text(s) => s
    case Number(n) => IntToString(n)
    case Flag(b) => if b then "true" else "false"
  }

  /** A macro (`%define`, `%macro`) as the tables hold it; the body it expands to is only
      reached through the `runtimeCall` collaborator. */
  datatype Callable = Callable(name: string, argsCount: nat, caseSensitive: bool, body: seq<Token>)

  /** The errors the interpreter raises; `Raised` stands for one thrown by a node itself. */
  datatype PreprocessorError =
    | VariableAlreadyExistsInCurrentScope(name: string)
    | MacroAlreadyExists(name: string)
    | Raised(message: string)

  /** `PreprocessorScope`: variables, the two callable tables, and an id that is unique
      among the scopes of one interpreter. */
  datatype Scope = Scope(variables: map<string, Value>,
                         sensitive: map<string, seq<Callable>>,
                         nonSensitive: map<string, seq<Callable>>,
                         id: nat)

  /** `new Map(entries)`: a later entry for the same name overwrites an earlier one. */
  function MapOf(entries: seq<(string, Value)>): map<string, Value>
  {
    if entries == [] then map[]
    else MapOf(entries[..|entries| - 1])[entries[|entries| - 1].0 := entries[|entries| - 1].1]
  }

  /** The map holds exactly the entries' names. */
  lemma {:induction false} MapOfKeys(entries: seq<(string, Value)>, name: string)
    ensures name in MapOf(entries) <==> exists k :: 0 <= k < |entries| && entries[k].0 == name
  {
    if entries != [] {
      var init := entries[..|entries| - 1];
      MapOfKeys(init, name);
      if name in MapOf(entries) && name != entries[|entries| - 1].0 {
        var k :| 0 <= k < |init| && init[k].0 == name;
        assert entries[k] == init[k];
      }
      if k :| 0 <= k < |entries| && entries[k].0 == name {
        if k < |init| {
          assert init[k] == entries[k];
        }
      }
    }
  }

  /** Each name is bound to its last entry. */
  lemma {:induction false} MapOfLastWins(entries: seq<(string, Value)>, k: nat)
    requires k < |entries| && forall j :: k < j < |entries| ==> entries[j].0 != entries[k].0
    ensures entries[k].0 in MapOf(entries) && MapOf(entries)[entries[k].0] == entries[k].1
  {
    if k < |entries| - 1 {
      var init := entries[..|entries| - 1];
      assert init[k] == entries[k];
      forall j | k < j < |init| ensures init[j].0 != init[k].0 {
        assert init[j] == entries[j];
      }
      MapOfLastWins(init, k);
    }
  }

  /** `new PreprocessorScope(new Map(variables))` with a fresh id. */
  function NewScope(variables: seq<(string, Value)>, id: nat): Scope
  {
    Scope(MapOf(variables), map[], map[], id)
  }

  // ---------------------------------------------------------------------------------------
  // Variables

  /** The loop of `getVariable` from scope `n - 1` down to the root. */
  function LookupBelow(scopes: seq<Scope>, name: string, currentScopeOnly: bool, n: nat): Option<Value>
    requires n <= |scopes|
  {
    if n == 0 then None
    else if name in scopes[n - 1].variables then Some(scopes[n - 1].variables[name])
    else if currentScopeOnly then None
    else LookupBelow(scopes, name, currentScopeOnly, n - 1)
  }

  /** `getVariable(name, currentScopeOnly)`; `None` is `null`. */
  function Lookup(scopes: seq<Scope>, name: string, currentScopeOnly: bool := false): Option<Value>
  {
    LookupBelow(scopes, name, currentScopeOnly, |scopes|)
  }

  /** Scope `k` binds the name and no scope above it does. */
  ghost predicate Innermost(scopes: seq<Scope>, name: string, k: nat)
  {
    k < |scopes| && name in scopes[k].variables
    && forall j :: k < j < |scopes| ==> name !in scopes[j].variables
  }

  lemma {:induction false} LookupBelowMeaning(scopes: seq<Scope>, name: string, n: nat)
    requires n <= |scopes|
    ensures LookupBelow(scopes, name, false, n).Some? <==> exists k :: 0 <= k < n && name in scopes[k].variables
    ensures forall k :: 0 <= k < n && name in scopes[k].variables && (forall j :: k < j < n ==> name !in scopes[j].variables) ==>
      LookupBelow(scopes, name, false, n) == Some(scopes[k].variables[name])
  {
    if n > 0 && name !in scopes[n - 1].variables {
      LookupBelowMeaning(scopes, name, n - 1);
    }
  }

  /** `getVariable` finds a binding exactly when some scope holds the name, and then it is
      the innermost scope's binding; with `currentScopeOnly` only the top scope is asked. */
  lemma LookupMeaning(scopes: seq<Scope>, name: string)
    ensures Lookup(scopes, name, false).Some? <==> exists k :: 0 <= k < |scopes| && name in scopes[k].variables
    ensures forall k: nat :: Innermost(scopes, name, k) ==> Lookup(scopes, name, false) == Some(scopes[k].variables[name])
    ensures Lookup(scopes, name, true) ==
      if |scopes| > 0 && name in scopes[|scopes| - 1].variables then Some(scopes[|scopes| - 1].variables[name]) else None
  {
    LookupBelowMeaning(scopes, name, |scopes|);
  }

  /** `setVariable(name, value)`: binds in the current (top) scope, unless it already
      binds the name there. */
  function SetVariableIn(scopes: seq<Scope>, name: string, value: Value): Result<seq<Scope>, PreprocessorError>
    requires |scopes| > 0
  {
    var top := scopes[|scopes| - 1];
    if name in top.variables then Failure(VariableAlreadyExistsInCurrentScope(name))
    else Success(scopes[|scopes| - 1 := top.(variables := top.variables[name := value])])
  }

  /** `setVariable` fails exactly when the top scope holds the name; otherwise only the top
      scope's variables change, the name now reads as the value (shadowing any outer
      binding) and every other name reads as before. */
  lemma SetVariableShadows(scopes: seq<Scope>, name: string, value: Value)
    requires |scopes| > 0
    ensures SetVariableIn(scopes, name, value).Failure? <==> name in scopes[|scopes| - 1].variables
    ensures SetVariableIn(scopes, name, value).Success? ==>
      var after := SetVariableIn(scopes, name, value).value;
      && |after| == |scopes|
      && after[..|scopes| - 1] == scopes[..|scopes| - 1]
      && after[|scopes| - 1].sensitive == scopes[|scopes| - 1].sensitive
      && after[|scopes| - 1].nonSensitive == scopes[|scopes| - 1].nonSensitive
      && after[|scopes| - 1].id == scopes[|scopes| - 1].id
      && Lookup(after, name, false) == Some(value)
      && forall other :: other != name ==> Lookup(after, other, false) == Lookup(scopes, other, false)
  {
    if SetVariableIn(scopes, name, value).Success? {
      var after := SetVariableIn(scopes, name, value).value;
      forall other | other != name
        ensures Lookup(after, other, false) == Lookup(scopes, other, false)
      {
        LookupOthers(scopes, after, other, |scopes|);
      }
    }
  }

  lemma {:induction false} LookupOthers(scopes: seq<Scope>, after: seq<Scope>, name: string, n: nat)
    requires n <= |scopes| == |after|
    requires forall k :: 0 <= k < |scopes| ==>
      (name in after[k].variables <==> name in scopes[k].variables)
      && (name in scopes[k].variables ==> after[k].variables[name] == scopes[k].variables[name])
    ensures LookupBelow(after, name, false, n) == LookupBelow(scopes, name, false, n)
  {
    if n > 0 {
      LookupOthers(scopes, after, name, n - 1);
    }
  }

  // ---------------------------------------------------------------------------------------
  // Callables

  /** `getCallables(name, caseSensitive)` on the root scope. When the case-sensitive table
      has the exact name and case-insensitive lookup was asked for while the lower-cased name
      is also known, the source returns the case-sensitive list twice over; this is kept. */
  function GetCallables(root: Scope, name: string, caseSensitive: bool := true): Option<seq<Callable>>
  {
    var sensitiveResult := if name in root.sensitive then Some(root.sensitive[name]) else None;
    if caseSensitive && sensitiveResult.Some? then sensitiveResult
    else
      var nonSensitiveResult := if ToLower(name) in root.nonSensitive then Some(root.nonSensitive[ToLower(name)]) else None;
      if sensitiveResult.Some? && nonSensitiveResult.Some? then Some(sensitiveResult.value + sensitiveResult.value)
      else if sensitiveResult.Some? then sensitiveResult
      else nonSensitiveResult
  }

  /** A case-sensitive lookup returns the exact-name entry when there is one, and otherwise
      the entry under the lower-cased name. */
  lemma GetCallablesSensitive(root: Scope, name: string)
    ensures name in root.sensitive ==> GetCallables(root, name, true) == Some(root.sensitive[name])
    ensures name !in root.sensitive ==>
      GetCallables(root, name, true) == if ToLower(name) in root.nonSensitive then Some(root.nonSensitive[ToLower(name)]) else None
  {
  }

  /** On a case-insensitive lookup, when the case-sensitive table holds the exact name and
      the case-insensitive table holds the lower-cased name, the case-sensitive list comes
      back twice and the case-insensitive entry is never returned. */
  lemma GetCallablesDoubled(root: Scope, name: string)
    requires name in root.sensitive && ToLower(name) in root.nonSensitive
    ensures GetCallables(root, name, false) == Some(root.sensitive[name] + root.sensitive[name])
  {
  }

  /** An instance of the doubling: `A` defined case-sensitively and `a` case-insensitively. */
  lemma GetCallablesDoubles()
    ensures var c1, c2 := Callable("A", 0, true, []), Callable("a", 0, false, []);
      var root := Scope(map[], map["A" := [c1]], map["a" := [c2]], 0);
      GetCallables(root, "A", false) == Some([c1, c1])
  {
    LowerAOf();
    var c1 := Callable("A", 0, true, []);
    assert [c1] + [c1] == [c1, c1];
  }

  lemma LowerAOf()
    ensures ToLower("A") == "a" && ToLower("Foo") == "foo"
  {
    assert "A"[1..] == [];
    assert "Foo"[1..] == "oo" && "oo"[1..] == "o" && "o"[1..] == [];
  }

  /** `undefRuntimeCallable(name, caseSensitive)`: deletes the name, exactly as given (not
      lower-cased), from the case-insensitive table, and from the case-sensitive table too
      when `caseSensitive` is set. */
  function Undef(root: Scope, name: string, caseSensitive: bool := true): (r: Scope)
    ensures r.variables == root.variables && r.id == root.id
    ensures r.nonSensitive == root.nonSensitive - {name}
    ensures r.sensitive == if caseSensitive then root.sensitive - {name} else root.sensitive
  {
    root.(nonSensitive := root.nonSensitive - {name},
          sensitive := if caseSensitive then root.sensitive - {name} else root.sensitive)
  }

  /** `appendToMapKeyArray(key, item, m)` */
  function AppendKey(m: map<string, seq<Callable>>, key: string, c: Callable): (r: map<string, seq<Callable>>)
    ensures r.Keys == m.Keys + {key}
    ensures r[key] == (if key in m then m[key] else []) + [c]
    ensures forall k :: k in m && k != key ==> r[k] == m[k]
  {
    m[key := (if key in m then m[key] else []) + [c]]
  }

  /** The key a callable is stored under: its name, lower-cased unless case-sensitive. */
  function StorageKey(c: Callable): string
  {
    if c.caseSensitive then c.name else ToLower(c.name)
  }

  /** The table a callable goes into, with the callable appended under its key. */
  function Store(root: Scope, c: Callable): Scope
  {
    if c.caseSensitive then root.(sensitive := AppendKey(root.sensitive, c.name, c))
    else root.(nonSensitive := AppendKey(root.nonSensitive, ToLower(c.name), c))
  }

  /** Some overload in the list takes `n` arguments. */
  predicate HasArity(callables: seq<Callable>, n: nat)
  {
    exists k :: 0 <= k < |callables| && callables[k].argsCount == n
  }

  /** The existing overloads forbid the definition: one with the same arity exists, or the
      new callable takes no arguments and something is defined under the name... */
  predicate Clashes(existing: Option<seq<Callable>>, c: Callable)
  {
    existing.Some? && (HasArity(existing.value, c.argsCount) || (|existing.value| > 0 && c.argsCount == 0))
  }

  /** ...unless it takes no arguments and replaces the single, argument-less, definition. */
  predicate Replaces(existing: Option<seq<Callable>>, c: Callable)
  {
    existing.Some? && HasArity(existing.value, c.argsCount) && c.argsCount == 0 && |existing.value| == 1
  }

  /** `defineRuntimeCallable(callable)` on the root scope. */
  function Define(root: Scope, c: Callable): Result<Scope, PreprocessorError>
  {
    var existing := GetCallables(root, c.name, c.caseSensitive);
    if Clashes(existing, c) && !Replaces(existing, c) then Failure(MacroAlreadyExists(c.name))
    else if Clashes(existing, c) then Success(Store(Undef(root, c.name, c.caseSensitive), c))
    else Success(Store(root, c))
  }

  /** The callable table a definition with this case sensitivity writes into. */
  function Table(root: Scope, caseSensitive: bool): map<string, seq<Callable>>
  {
    if caseSensitive then root.sensitive else root.nonSensitive
  }

  /** The overloads that stay in front of a new definition under its storage key: all of
      them, unless the definition replaces the single argument-less one and the key is the
      name as given, which is what the undefinition deletes. */
  function PriorOverloads(root: Scope, c: Callable): seq<Callable>
  {
    var t := Table(root, c.caseSensitive);
    var key := StorageKey(c);
    if key in t && !(Replaces(GetCallables(root, c.name, c.caseSensitive), c) && key == c.name) then t[key] else []
  }

  /** The redefinition rule: an arity already defined fails, except that an argument-less
      callable replaces the one argument-less definition; an argument-less callable fails
      whenever something else is defined; a new arity is appended to the overloads. On
      success the callable is appended under its storage key after the overloads that stay,
      a replaced definition's name (as given) leaves both tables, and nothing else of the
      root scope changes. */
  lemma DefineRule(root: Scope, c: Callable)
    ensures var existing := GetCallables(root, c.name, c.caseSensitive);
      Define(root, c).Failure? <==>
        (existing.Some? && HasArity(existing.value, c.argsCount) && !(c.argsCount == 0 && |existing.value| == 1))
        || (existing.Some? && |existing.value| > 0 && c.argsCount == 0 && !HasArity(existing.value, 0))
    ensures Define(root, c).Failure? ==> Define(root, c) == Failure(MacroAlreadyExists(c.name))
    ensures var existing := GetCallables(root, c.name, c.caseSensitive);
      c.argsCount > 0 && !(existing.Some? && HasArity(existing.value, c.argsCount)) ==>
        Define(root, c) == Success(Store(root, c))
    ensures Define(root, c).Success? ==>
      var r := Define(root, c).value;
      var key := StorageKey(c);
      var replaced := Replaces(GetCallables(root, c.name, c.caseSensitive), c);
      var before, after := Table(root, c.caseSensitive), Table(r, c.caseSensitive);
      && r.variables == root.variables && r.id == root.id
      && after.Keys == (before.Keys - (if replaced then {c.name} else {})) + {key}
      && after[key] == PriorOverloads(root, c) + [c]
      && (forall k :: k in before && k != key && k != c.name ==> after[k] == before[k])
      && (c.caseSensitive ==> r.nonSensitive == if replaced then root.nonSensitive - {c.name} else root.nonSensitive)
      && (!c.caseSensitive ==> r.sensitive == root.sensitive)
  {
  }

  /** A name nothing is defined under takes any definition, which becomes its only overload. */
  lemma DefineFresh(root: Scope, c: Callable)
    requires GetCallables(root, c.name, c.caseSensitive).None?
    ensures Define(root, c).Success?
    ensures Table(Define(root, c).value, c.caseSensitive)[StorageKey(c)] == [c]
  {
    DefineRule(root, c);
  }

  /** The last element of a non-empty list. */
  function Last<T>(s: seq<T>): T
    requires |s| > 0
  {
    s[|s| - 1]
  }

  /** A new arity of a case-sensitive macro grows its overload list by the new callable. */
  lemma DefineAppendsOverload(root: Scope, c: Callable)
    requires c.caseSensitive && c.argsCount > 0 && c.name in root.sensitive
    requires !HasArity(root.sensitive[c.name], c.argsCount)
    ensures Define(root, c).Success?
    ensures Define(root, c).value.sensitive[c.name] == root.sensitive[c.name] + [c]
  {
    DefineRule(root, c);
  }

  /** An argument-less case-sensitive macro defined twice: the second replaces the first. */
  lemma DefineReplacesSingle(root: Scope, c: Callable, old0: Callable)
    requires c.caseSensitive && c.argsCount == 0 && old0.argsCount == 0
    requires c.name in root.sensitive && root.sensitive[c.name] == [old0]
    ensures Define(root, c).Success?
    ensures Define(root, c).value.sensitive[c.name] == [c]
  {
    assert HasArity([old0], 0) by { assert [old0][0].argsCount == 0; }
    assert Replaces(GetCallables(root, c.name, true), c);
  }

  /** As written, redefining an argument-less case-insensitive macro whose name has capitals
      keeps the old definition first in the list: the undefinition deletes the name as
      given while the entry sits under the lower-cased name. */
  lemma MixedCaseRedefinitionAppends()
    ensures var c1, c2 := Callable("Foo", 0, false, []), Callable("Foo", 0, false, [KeywordToken("x")]);
      var root := Scope(map[], map[], map["foo" := [c1]], 0);
      Define(root, c2) == Success(root.(nonSensitive := map["foo" := [c1, c2]]))
  {
    var c1, c2 := Callable("Foo", 0, false, []), Callable("Foo", 0, false, [KeywordToken("x")]);
    var root := Scope(map[], map[], map["foo" := [c1]], 0);
    LowerAOf();
    assert HasArity([c1], 0) by { assert [c1][0].argsCount == 0; }
    assert GetCallables(root, "Foo", false) == Some([c1]);
    assert root.nonSensitive - {"Foo"} == root.nonSensitive;
    assert Undef(root, "Foo", false) == root;
    assert [c1] + [c2] == [c1, c2];
    assert AppendKey(root.nonSensitive, "foo", c2) == map["foo" := [c1, c2]];
  }

  /** `callables.find(item => item.argsCount === n)`: the first overload of that arity. */
  function SelectOverload(callables: seq<Callable>, n: nat): Option<Callable>
  {
    if callables == [] then None
    else if callables[0].argsCount == n then Some(callables[0])
    else SelectOverload(callables[1..], n)
  }

  /** An overload is selected exactly when one takes `n` arguments, and it is the first. */
  lemma {:induction false} SelectOverloadFirst(callables: seq<Callable>, n: nat)
    ensures SelectOverload(callables, n).Some? <==> HasArity(callables, n)
    ensures SelectOverload(callables, n).Some? ==>
      exists k :: 0 <= k < |callables| && callables[k] == SelectOverload(callables, n).value
        && callables[k].argsCount == n && forall j :: 0 <= j < k ==> callables[j].argsCount != n
  {
    if callables != [] && callables[0].argsCount != n {
      SelectOverloadFirst(callables[1..], n);
      if HasArity(callables, n) {
        var k :| 0 <= k < |callables| && callables[k].argsCount == n;
        assert callables[1..][k - 1] == callables[k];
      }
      if SelectOverload(callables, n).Some? {
        var k :| 0 <= k < |callables[1..]| && callables[1..][k] == SelectOverload(callables, n).value
          && callables[1..][k].argsCount == n && forall j :: 0 <= j < k ==> callables[1..][j].argsCount != n;
        assert callables[k + 1] == callables[1..][k];
        forall j | 0 <= j < k + 1 ensures callables[j].argsCount != n {
          if j > 0 { assert callables[j] == callables[1..][j - 1]; }
        }
      }
    } else if callables != [] {
      assert callables[0].argsCount == n;
    }
  }
}
