/** The variable and macro-call part of `removeMacrosFromTokens`: one pass over the tokens
    that replaces a keyword bound to a variable by the variable's text, rewrites a `%%`
    prefix to the current scope's id, and splices in the expansion of a macro call when an
    overload takes exactly as many arguments as the call supplies. */
module MacroExpansion {
  import opened Common
  import opened Tokens
  import opened PreprocessorScopes

  /** What `fetchRuntimeCallArgsList` yields for a call: the argument token lists, already
      macro-expanded, and how many tokens after the macro name the iterator consumed. */
  datatype CallSite = CallSite(args: seq<seq<Token>>, consumed: nat)

  /** `fetchRuntimeCallArgsList(new TokensIterator(tokens, start), bracketCall ? 1 : 0)`
      followed by the recursive expansion of each argument. */
  type ArgsFetcher = (seq<Token>, nat, bool) -> CallSite

  /** `callable.runtimeCall(interpreter, argTexts)` */
  type RuntimeCall = (Callable, seq<string>) -> string

  /** Keywords without a kind, or bracket-prefixed, are the only tokens expansion looks at. */
  predicate Substitutable(t: Token)
  {
    t.ttype == Keyword && (t.kind == BracketPrefix || t.kind == NoKind)
  }

  /** `newTokens.slice(from)`: JavaScript clamps an index past the end to the empty list. */
  function SliceFrom(tokens: seq<Token>, from: nat): (r: seq<Token>)
    ensures |r| <= |tokens|
    ensures from <= |tokens| ==> r == tokens[from..]
  {
    if from <= |tokens| then tokens[from..] else []
  }

  /** `R.map(argTokens => joinTokensTexts('', argTokens), args)` */
  function ArgTexts(args: seq<seq<Token>>): (r: seq<string>)
    ensures |r| == |args|
  {
    seq(|args|, k requires 0 <= k < |args| => JoinTexts(args[k]))
  }

  /** `callables.some(({argsCount}) => argsCount > 0)` */
  predicate AnyWithArgs(callables: seq<Callable>)
  {
    exists k :: 0 <= k < |callables| && callables[k].argsCount > 0
  }

  /** Where the splice resumes: the iterator's index plus `max(0, args.length - 1)`. */
  function ResumeAt(i: nat, site: CallSite): (r: nat)
    ensures r > i
  {
    i + 1 + site.consumed + (if |site.args| > 0 then |site.args| - 1 else 0)
  }

  /** The call site at index `i` of a macro name with overloads `cs`: arguments are fetched
      only for a call at the very start whose overloads take arguments, or for a call
      written with a bracket. */
  function SiteAt(fetch: ArgsFetcher, tokens: seq<Token>, i: nat, cs: seq<Callable>): CallSite
  {
    var inline := i > 0 || !AnyWithArgs(cs);
    var bracketCall := i + 1 < |tokens| && tokens[i + 1].text == "(";
    if !inline || bracketCall then fetch(tokens, i + 1, bracketCall) else CallSite([], 0)
  }

  /** The tokens with the call at `i` replaced by the expansion of overload `c`. */
  function Spliced(call: RuntimeCall, tokens: seq<Token>, i: nat, site: CallSite, c: Callable): (r: seq<Token>)
    requires i < |tokens|
    ensures i < |r| <= |tokens| && r[..i] == tokens[..i] && r[i] == KeywordToken(call(c, ArgTexts(site.args)))
  {
    tokens[..i] + [KeywordToken(call(c, ArgTexts(site.args)))] + SliceFrom(tokens, ResumeAt(i, site))
  }

  /** The overloads a keyword names, when it names any. */
  function CallablesNamed(scopes: seq<Scope>, text: string): seq<Callable>
    requires |scopes| > 0
  {
    var found := GetCallables(scopes[0], text);
    if found.Some? then found.value else []
  }

  /** The token `%%name` becomes `<scope id>_name`. */
  function ScopeLocal(scopes: seq<Scope>, text: string): Token
    requires |scopes| > 0 && |text| >= 2
  {
    KeywordToken(NatToString(scopes[|scopes| - 1].id) + "_" + text[2..])
  }

  /** The loop of `removeMacrosFromTokens` from index `i`, with `changed` recording whether
      the token list was replaced by a new one. The `%%` rewrite happens in place in the
      source, so it does not count as a change. A `%`-prefixed token other than `%%` is
      left as it is. */
  function ExpandFrom(scopes: seq<Scope>, prefix: char, fetch: ArgsFetcher, call: RuntimeCall,
                      tokens: seq<Token>, i: nat, changed: bool): (bool, seq<Token>)
    requires |scopes| > 0
    decreases |tokens| - i
  {
    if i >= |tokens| then (changed, tokens)
    else
      var t := tokens[i];
      if !Substitutable(t) then ExpandFrom(scopes, prefix, fetch, call, tokens, i + 1, changed)
      else match Lookup(scopes, t.text, false)
        case Some(v) =>
          ExpandFrom(scopes, prefix, fetch, call, tokens[i := KeywordToken(ValueText(v))], i + 1, true)
        case None =>
          if |t.text| > 0 && t.text[0] == prefix then
            if |t.text| > 1 && t.text[1] == prefix then
              ExpandFrom(scopes, prefix, fetch, call, tokens[i := ScopeLocal(scopes, t.text)], i + 1, changed)
            else ExpandFrom(scopes, prefix, fetch, call, tokens, i + 1, changed)
          else
            var cs := CallablesNamed(scopes, t.text);
            var site := SiteAt(fetch, tokens, i, cs);
            if cs == [] then ExpandFrom(scopes, prefix, fetch, call, tokens, i + 1, changed)
            else match SelectOverload(cs, |site.args|)
              case None => ExpandFrom(scopes, prefix, fetch, call, tokens, i + 1, changed)
              case Some(c) => ExpandFrom(scopes, prefix, fetch, call, Spliced(call, tokens, i, site, c), i + 1, true)
  }

  /** `removeMacrosFromTokens(tokens)` as far as this model goes: `[changed, newTokens]`. */
  function Expand(scopes: seq<Scope>, prefix: char, fetch: ArgsFetcher, call: RuntimeCall, tokens: seq<Token>): (bool, seq<Token>)
    requires |scopes| > 0
  {
    ExpandFrom(scopes, prefix, fetch, call, tokens, 0, false)
  }

  // ---------------------------------------------------------------------------------------
  // Properties

  /** Expansion never makes the token list longer. */
  lemma {:induction false} ExpandNeverGrows(scopes: seq<Scope>, prefix: char, fetch: ArgsFetcher, call: RuntimeCall,
                                            tokens: seq<Token>, i: nat, changed: bool)
    requires |scopes| > 0
    ensures |ExpandFrom(scopes, prefix, fetch, call, tokens, i, changed).1| <= |tokens|
    decreases |tokens| - i
  {
    if i < |tokens| {
      var t := tokens[i];
      if !Substitutable(t) {
        ExpandNeverGrows(scopes, prefix, fetch, call, tokens, i + 1, changed);
      } else {
        match Lookup(scopes, t.text, false)
        case Some(v) =>
          ExpandNeverGrows(scopes, prefix, fetch, call, tokens[i := KeywordToken(ValueText(v))], i + 1, true);
        case None =>
          if |t.text| > 0 && t.text[0] == prefix {
            if |t.text| > 1 && t.text[1] == prefix {
              ExpandNeverGrows(scopes, prefix, fetch, call, tokens[i := ScopeLocal(scopes, t.text)], i + 1, changed);
            } else {
              ExpandNeverGrows(scopes, prefix, fetch, call, tokens, i + 1, changed);
            }
          } else {
            var cs := CallablesNamed(scopes, t.text);
            var site := SiteAt(fetch, tokens, i, cs);
            if cs == [] {
              ExpandNeverGrows(scopes, prefix, fetch, call, tokens, i + 1, changed);
            } else {
              match SelectOverload(cs, |site.args|)
              case None =>
                ExpandNeverGrows(scopes, prefix, fetch, call, tokens, i + 1, changed);
              case Some(c) =>
                ExpandNeverGrows(scopes, prefix, fetch, call, Spliced(call, tokens, i, site, c), i + 1, true);
            }
          }
      }
    }
  }

  /** A macro name is replaced only when one of its overloads takes exactly as many arguments
      as the call supplies, and then by the expansion of the first such overload; otherwise
      the name stays where it is and the pass moves on. */
  lemma {:induction false} CallNeedsMatchingArity(scopes: seq<Scope>, prefix: char, fetch: ArgsFetcher, call: RuntimeCall,
                               tokens: seq<Token>, i: nat, changed: bool)
    requires |scopes| > 0 && i < |tokens|
    requires var t := tokens[i];
      Substitutable(t) && Lookup(scopes, t.text, false).None? && !(|t.text| > 0 && t.text[0] == prefix)
    ensures var cs := CallablesNamed(scopes, tokens[i].text);
      var site := SiteAt(fetch, tokens, i, cs);
      && (!HasArity(cs, |site.args|) ==>
            ExpandFrom(scopes, prefix, fetch, call, tokens, i, changed) == ExpandFrom(scopes, prefix, fetch, call, tokens, i + 1, changed))
      && (HasArity(cs, |site.args|) ==>
            exists k :: 0 <= k < |cs| && cs[k].argsCount == |site.args|
              && (forall j :: 0 <= j < k ==> cs[j].argsCount != |site.args|)
              && ExpandFrom(scopes, prefix, fetch, call, tokens, i, changed)
                 == ExpandFrom(scopes, prefix, fetch, call, Spliced(call, tokens, i, site, cs[k]), i + 1, true))
  {
    var cs := CallablesNamed(scopes, tokens[i].text);
    var site := SiteAt(fetch, tokens, i, cs);
    SelectOverloadFirst(cs, |site.args|);
  }

  /** Every keyword that is neither bound to a variable nor a macro name nor `%`-prefixed. */
  ghost predicate OnlyVariables(scopes: seq<Scope>, prefix: char, tokens: seq<Token>)
    requires |scopes| > 0
  {
    forall k :: 0 <= k < |tokens| && Substitutable(tokens[k]) && Lookup(scopes, tokens[k].text, false).None? ==>
      !(|tokens[k].text| > 0 && tokens[k].text[0] == prefix) && CallablesNamed(scopes, tokens[k].text) == []
  }

  /** A token with a bound variable replaced by the variable's text. */
  function SubstituteVariable(scopes: seq<Scope>, t: Token): Token
  {
    if Substitutable(t) && Lookup(scopes, t.text, false).Some? then KeywordToken(ValueText(Lookup(scopes, t.text, false).value))
    else t
  }

  /** Some token is a keyword bound to a variable. */
  ghost predicate SomeBound(scopes: seq<Scope>, tokens: seq<Token>, from: nat)
  {
    exists k :: from <= k < |tokens| && Substitutable(tokens[k]) && Lookup(scopes, tokens[k].text, false).Some?
  }

  /** Without macro calls and `%` tokens, expansion is substitution token by token, and the
      list counts as changed exactly when some variable was substituted. */
  lemma {:induction false} ExpandOnlySubstitutes(scopes: seq<Scope>, prefix: char, fetch: ArgsFetcher, call: RuntimeCall, tokens: seq<Token>)
    requires |scopes| > 0 && OnlyVariables(scopes, prefix, tokens)
    ensures Expand(scopes, prefix, fetch, call, tokens)
      == (SomeBound(scopes, tokens, 0), seq(|tokens|, k requires 0 <= k < |tokens| => SubstituteVariable(scopes, tokens[k])))
  {
    SubstitutesFrom(scopes, prefix, fetch, call, tokens, tokens, 0, false);
  }

  lemma {:induction false} SubstitutesFrom(scopes: seq<Scope>, prefix: char, fetch: ArgsFetcher, call: RuntimeCall,
                                           tokens: seq<Token>, current: seq<Token>, i: nat, changed: bool)
    requires |scopes| > 0 && OnlyVariables(scopes, prefix, tokens)
    requires i <= |tokens| == |current| && current[i..] == tokens[i..]
    requires forall k :: 0 <= k < i ==> current[k] == SubstituteVariable(scopes, tokens[k])
    requires changed == SomeBound(scopes, tokens[..i], 0)
    ensures ExpandFrom(scopes, prefix, fetch, call, current, i, changed)
      == (SomeBound(scopes, tokens, 0), seq(|tokens|, k requires 0 <= k < |tokens| => SubstituteVariable(scopes, tokens[k])))
    decreases |tokens| - i
  {
    if i == |tokens| {
      assert tokens[..i] == tokens;
      assert current == seq(|tokens|, k requires 0 <= k < |tokens| => SubstituteVariable(scopes, tokens[k]));
    } else {
      var t := tokens[i];
      var next := current[i := SubstituteVariable(scopes, t)];
      UpdateKeepsTail(current, tokens, i, SubstituteVariable(scopes, t));
      var bound := Substitutable(t) && Lookup(scopes, t.text, false).Some?;
      SomeBoundSnoc(scopes, tokens, i);
      if !Substitutable(t) {
        assert next == current;
      } else if Lookup(scopes, t.text, false).None? {
        assert next == current;
        assert CallablesNamed(scopes, t.text) == [];
      }
      SubstitutesFrom(scopes, prefix, fetch, call, tokens, next, i + 1, changed || bound);
    }
  }

  lemma SomeBoundSnoc(scopes: seq<Scope>, tokens: seq<Token>, i: nat)
    requires i < |tokens|
    ensures SomeBound(scopes, tokens[..i + 1], 0)
      == (SomeBound(scopes, tokens[..i], 0) || (Substitutable(tokens[i]) && Lookup(scopes, tokens[i].text, false).Some?))
  {
    var t := tokens[i];
    var bound := Substitutable(t) && Lookup(scopes, t.text, false).Some?;
    if bound { assert tokens[..i + 1][i] == t; }
    if SomeBound(scopes, tokens[..i + 1], 0) && !bound {
      var k :| 0 <= k < |tokens[..i + 1]| && Substitutable(tokens[..i + 1][k]) && Lookup(scopes, tokens[..i + 1][k].text, false).Some?;
      assert tokens[..i][k] == tokens[..i + 1][k];
    }
    if SomeBound(scopes, tokens[..i], 0) {
      var k :| 0 <= k < |tokens[..i]| && Substitutable(tokens[..i][k]) && Lookup(scopes, tokens[..i][k].text, false).Some?;
      assert tokens[..i + 1][k] == tokens[..i][k];
    }
  }

  lemma UpdateKeepsTail<T>(current: seq<T>, tokens: seq<T>, i: nat, x: T)
    requires i < |tokens| == |current| && current[i..] == tokens[i..]
    ensures current[i] == tokens[i] && current[i := x][i + 1..] == tokens[i + 1..]
  {
    assert current[i..][0] == tokens[i..][0];
    assert forall k :: i + 1 <= k < |tokens| ==> current[i := x][k] == current[k] == current[i..][k - i] == tokens[k];
  }

  /** The `%%` rewrite: with no variable or macro in play, `%%loop` in the scope with id 7
      becomes `7_loop`, yet the list is reported as unchanged because the source writes
      the new token into the same array. */
  lemma ScopeLocalNotReported()
    ensures var scopes := [Scope(map[], map[], map[], 7)];
      var fetch: ArgsFetcher := (ts: seq<Token>, start: nat, bracket: bool) => CallSite([], 0);
      var call: RuntimeCall := (c: Callable, args: seq<string>) => "";
      Expand(scopes, '%', fetch, call, [KeywordToken("%%loop")]) == (false, [KeywordToken("7_loop")])
  {
    var scopes := [Scope(map[], map[], map[], 7)];
    assert LookupBelow(scopes, "%%loop", false, 0) == None;
    assert Lookup(scopes, "%%loop", false) == None;
    assert DigitChar(7) == '7';
    assert NatToString(7) == "7";
    assert "%%loop"[2..] == "loop";
    assert "7" + "_" + "loop" == "7_loop";
    assert ScopeLocal(scopes, "%%loop") == KeywordToken("7_loop");
    assert [KeywordToken("%%loop")][0 := ScopeLocal(scopes, "%%loop")] == [KeywordToken("7_loop")];
  }
}
