/** `ASTTimes.parse`: after the `times` keyword, the rest of the line is divided into the
    unevaluated repeat-count expression and the tokens of the instruction to repeat, and the
    latter are handed to a forked parser. The token predicates the parser uses and the forked
    parser itself are parameters. */
module Times {
  import opened Common
  import opened Tokens

  /** `TIMES_TOKEN_NAME` */
  const TimesTokenName: string := "times"

  /** The parser errors `parse` raises, and any other error the forked parser reports. */
  datatype ParserError =
    | IncorrectTimesArgsCount
    | MissingTimesRepeatedInstruction
    | UnableParseRepeatedInstruction(expression: string)
    | OtherParserError(code: string)

  /** The token predicates `isTokenInstructionBeginning`, `tokenDefSize` and
      `isLineTerminatorToken`. */
  datatype Classifier = Classifier(
    instructionBeginning: Token -> bool,
    defSize: Token -> bool,
    lineTerminator: Token -> bool)

  /** The forked parser's `getTree()` over a token list: the nodes of the tree, or the first
      of its errors. */
  type Fork<T> = seq<Token> -> Result<seq<T>, ParserError>

  /** A parsed `times` node over sub-tree nodes of type `T`. */
  datatype Times<T> = Times(timesExpression: seq<Token>, tree: seq<T>)
  {
    /** `toString()`; a token prints as its text. */
    function ToString(): string
    {
      TimesTokenName + " " + JoinTexts(timesExpression)
    }
  }

  /** A token that starts the repeated instruction. */
  predicate Opens(cls: Classifier, t: Token)
  {
    cls.instructionBeginning(t) || cls.defSize(t)
  }

  /** The index of the first token that starts an instruction or ends the line, or the
      length of the input when there is none: where the repeat-count expression ends. */
  function FirstStop(cls: Classifier, rest: seq<Token>): (n: nat)
    ensures n <= |rest|
    ensures forall k :: 0 <= k < n ==> !Opens(cls, rest[k]) && !cls.lineTerminator(rest[k])
    ensures n < |rest| ==> Opens(cls, rest[n]) || cls.lineTerminator(rest[n])
  {
    if rest == [] || Opens(cls, rest[0]) || cls.lineTerminator(rest[0]) then 0
    else 1 + FirstStop(cls, rest[1..])
  }

  /** The two lists the loop fills and the number of tokens it fetched. */
  datatype Split = Split(expression: seq<Token>, repeated: Option<seq<Token>>, consumed: nat)

  function Repeated(s: Split): seq<Token>
  {
    if s.repeated.Some? then s.repeated.value else []
  }

  /** The dividing loop from token `i` on, with the lists filled so far. */
  function SplitFrom(cls: Classifier, rest: seq<Token>, i: nat, expression: seq<Token>, repeated: Option<seq<Token>>): Split
    requires i <= |rest|
    decreases |rest| - i
  {
    if i == |rest| then Split(expression, repeated, i)
    else if repeated.None? && Opens(cls, rest[i]) then SplitFrom(cls, rest, i + 1, expression, Some([rest[i]]))
    else if cls.lineTerminator(rest[i]) then Split(expression, repeated, i + 1)
    else if repeated.Some? then SplitFrom(cls, rest, i + 1, expression, Some(repeated.value + [rest[i]]))
    else SplitFrom(cls, rest, i + 1, expression + [rest[i]], None)
  }

  function SplitLine(cls: Classifier, rest: seq<Token>): Split
  {
    SplitFrom(cls, rest, 0, [], None)
  }

  /** The checks after the loop, in their order, and the forked parse. */
  function Finish<T>(s: Split, fork: Fork<T>): Result<Times<T>, ParserError>
  {
    if s.expression == [] then Failure(IncorrectTimesArgsCount)
    else if s.repeated.None? || s.repeated.value == [] then Failure(MissingTimesRepeatedInstruction)
    else match fork(s.repeated.value)
      case Failure(e) => Failure(e)
      case Success(tree) =>
        if tree == [] then Failure(UnableParseRepeatedInstruction(JoinWith(" ", Texts(s.repeated.value))))
        else Success(Times(s.expression, tree))
  }

  /** `ASTTimes.parse(token, parser)` where `rest` is what the parser has left on the line:
      `null` (`None`) for another keyword, otherwise the node or the error thrown; with the
      number of tokens fetched from the parser. */
  function ParseTimes<T>(token: Token, rest: seq<Token>, cls: Classifier, fork: Fork<T>): (Option<Result<Times<T>, ParserError>>, nat)
  {
    if token.LowerText() != TimesTokenName then (None, 0)
    else
      var s := SplitLine(cls, rest);
      (Some(Finish(s, fork)), s.consumed)
  }

  /** `ASTTimes.parse`, fetching tokens one at a time. */
  method Parse<T>(token: Token, rest: seq<Token>, cls: Classifier, fork: Fork<T>)
    returns (r: Option<Result<Times<T>, ParserError>>, consumed: nat)
    ensures (r, consumed) == ParseTimes(token, rest, cls, fork)
  {
    if token.LowerText() != TimesTokenName {
      return None, 0;
    }
    var expression: seq<Token> := [];
    var repeated: Option<seq<Token>> := None;
    var i := 0;
    var stopped := false;
    while i < |rest| && !stopped
      invariant 0 <= i <= |rest|
      invariant SplitLine(cls, rest) == if stopped then Split(expression, repeated, i) else SplitFrom(cls, rest, i, expression, repeated)
      decreases |rest| - i, !stopped
    {
      var argToken := rest[i];
      i := i + 1;
      if repeated.None? && Opens(cls, argToken) {
        repeated := Some([argToken]);
      } else if cls.lineTerminator(argToken) {
        stopped := true;
      } else if repeated.Some? {
        repeated := Some(repeated.value + [argToken]);
      } else {
        expression := expression + [argToken];
      }
    }
    consumed := i;
    if expression == [] {
      r := Some(Failure(IncorrectTimesArgsCount));
    } else if repeated.None? || repeated.value == [] {
      r := Some(Failure(MissingTimesRepeatedInstruction));
    } else {
      var treeResult := fork(repeated.value);
      if treeResult.Failure? {
        r := Some(Failure(treeResult.error));
      } else if treeResult.value == [] {
        r := Some(Failure(UnableParseRepeatedInstruction(JoinWith(" ", Texts(repeated.value)))));
      } else {
        r := Some(Success(Times(expression, treeResult.value)));
      }
    }
  }

  // ---------------------------------------------------------------------------------------
  // What the dividing loop produces

  /** The loop's invariant: the tokens fetched so far are the expression followed by the
      repeated tokens; no expression token starts an instruction or ends the line; the
      repeated list starts with an instruction-beginning or def-size token and holds no line
      terminator. */
  ghost predicate SplitSoFar(cls: Classifier, rest: seq<Token>, i: nat, expression: seq<Token>, repeated: Option<seq<Token>>)
  {
    && i <= |rest|
    && expression + Repeated(Split(expression, repeated, 0)) == rest[..i]
    && (forall k :: 0 <= k < |expression| ==> !Opens(cls, expression[k]) && !cls.lineTerminator(expression[k]))
    && (repeated.Some? ==>
          && |repeated.value| > 0 && Opens(cls, repeated.value[0])
          && forall k :: 1 <= k < |repeated.value| ==> !cls.lineTerminator(repeated.value[k]))
  }

  /** The finished split: `SplitSoFar` over the `n` tokens placed in a list, and the loop
      stopped either at the end of the input or on a line terminator at `n`, which it fetched
      but placed in neither list (and which did not start an instruction if none had
      started). */
  ghost predicate SplitDone(cls: Classifier, rest: seq<Token>, s: Split)
  {
    var n := |s.expression| + |Repeated(s)|;
    && SplitSoFar(cls, rest, n, s.expression, s.repeated)
    && if n == |rest| then s.consumed == n
       else s.consumed == n + 1 && cls.lineTerminator(rest[n]) && (s.repeated.None? ==> !Opens(cls, rest[n]))
  }

  lemma {:induction false} SplitFromDone(cls: Classifier, rest: seq<Token>, i: nat, expression: seq<Token>, repeated: Option<seq<Token>>)
    requires SplitSoFar(cls, rest, i, expression, repeated)
    ensures SplitDone(cls, rest, SplitFrom(cls, rest, i, expression, repeated))
    decreases |rest| - i
  {
    var before := expression + Repeated(Split(expression, repeated, 0));
    if i < |rest| {
      var t := rest[i];
      assert rest[..i + 1] == before + [t];
      if repeated.None? && Opens(cls, t) {
        assert expression + [t] == before + [t];
        SplitFromDone(cls, rest, i + 1, expression, Some([t]));
      } else if cls.lineTerminator(t) {
      } else if repeated.Some? {
        assert expression + (repeated.value + [t]) == before + [t];
        SplitFromDone(cls, rest, i + 1, expression, Some(repeated.value + [t]));
      } else {
        assert (expression + [t]) + [] == before + [t];
        SplitFromDone(cls, rest, i + 1, expression + [t], None);
      }
    } else {
      assert rest[..i] == rest;
    }
  }

  /** What the loop produces for every input line. */
  lemma SplitLineDone(cls: Classifier, rest: seq<Token>)
    ensures SplitDone(cls, rest, SplitLine(cls, rest))
  {
    SplitFromDone(cls, rest, 0, [], None);
  }

  /** The index of the first line terminator, or the length of the input when there is
      none. */
  function FirstTerminator(cls: Classifier, rest: seq<Token>): (n: nat)
    ensures n <= |rest|
    ensures forall k :: 0 <= k < n ==> !cls.lineTerminator(rest[k])
    ensures n < |rest| ==> cls.lineTerminator(rest[n])
  {
    if rest == [] || cls.lineTerminator(rest[0]) then 0
    else 1 + FirstTerminator(cls, rest[1..])
  }

  /** Where the repeated instruction ends: its first token is at the first stop, and it runs
      up to the next line terminator or the end of the input. */
  function InstructionEnd(cls: Classifier, rest: seq<Token>): (e: nat)
    requires FirstStop(cls, rest) < |rest|
    ensures FirstStop(cls, rest) < e <= |rest|
  {
    FirstStop(cls, rest) + 1 + FirstTerminator(cls, rest[FirstStop(cls, rest) + 1..])
  }

  /** The loop's result read off the input: the expression is exactly the tokens before the
      first instruction start or line end; the repeated instruction, when there is one,
      starts right there and runs up to the next line end; the tokens fetched include the
      line terminator that stopped the loop. */
  lemma SplitAtFirstStop(cls: Classifier, rest: seq<Token>)
    ensures AtFirstStop(cls, rest, SplitLine(cls, rest))
  {
    SplitLineDone(cls, rest);
    DoneAtFirstStop(cls, rest, SplitLine(cls, rest));
  }

  ghost predicate AtFirstStop(cls: Classifier, rest: seq<Token>, s: Split)
  {
    var stop := FirstStop(cls, rest);
    && s.expression == rest[..stop]
    && (s.repeated.Some? <==> stop < |rest| && Opens(cls, rest[stop]))
    && (s.repeated.Some? ==>
          var end := InstructionEnd(cls, rest);
          s.repeated.value == rest[stop..end] && s.consumed == if end == |rest| then end else end + 1)
  }

  lemma DoneAtFirstStop(cls: Classifier, rest: seq<Token>, s: Split)
    requires SplitDone(cls, rest, s)
    ensures AtFirstStop(cls, rest, s)
  {
    DoneExpression(cls, rest, s);
    if s.repeated.Some? {
      DoneRepeated(cls, rest, s);
    }
  }

  lemma DoneExpression(cls: Classifier, rest: seq<Token>, s: Split)
    requires SplitDone(cls, rest, s)
    ensures |s.expression| == FirstStop(cls, rest) && s.expression == rest[..FirstStop(cls, rest)]
    ensures s.repeated.Some? ==> |s.expression| < |rest| && rest[|s.expression|] == s.repeated.value[0]
  {
    var m := |s.expression|;
    var n := m + |Repeated(s)|;
    assert rest[..n][..m] == s.expression;
    if s.repeated.Some? {
      assert rest[..n][m] == s.repeated.value[0];
    }
    IsFirstStop(cls, rest, s.expression);
  }

  lemma DoneRepeated(cls: Classifier, rest: seq<Token>, s: Split)
    requires SplitDone(cls, rest, s) && s.repeated.Some?
    requires |s.expression| == FirstStop(cls, rest) < |rest|
    ensures var end := InstructionEnd(cls, rest);
      s.repeated.value == rest[FirstStop(cls, rest)..end] && s.consumed == if end == |rest| then end else end + 1
  {
    var m := |s.expression|;
    var v := s.repeated.value;
    var n := m + |v|;
    assert v == rest[..n][m..] == rest[m..n];
    IsFirstTerminator(cls, rest[m + 1..], v[1..]);
  }

  /** Tokens that neither start an instruction nor end the line, followed by the end of
      the input or by a token that does, end at the first stop. */
  lemma IsFirstStop(cls: Classifier, rest: seq<Token>, prefix: seq<Token>)
    requires prefix <= rest
    requires forall k :: 0 <= k < |prefix| ==> !Opens(cls, prefix[k]) && !cls.lineTerminator(prefix[k])
    requires |prefix| == |rest| || Opens(cls, rest[|prefix|]) || cls.lineTerminator(rest[|prefix|])
    ensures |prefix| == FirstStop(cls, rest) && prefix == rest[..FirstStop(cls, rest)]
  {
    assert forall k :: 0 <= k < |prefix| ==> rest[k] == prefix[k];
  }

  lemma IsFirstTerminator(cls: Classifier, rest: seq<Token>, prefix: seq<Token>)
    requires prefix <= rest
    requires forall k :: 0 <= k < |prefix| ==> !cls.lineTerminator(prefix[k])
    requires |prefix| == |rest| || cls.lineTerminator(rest[|prefix|])
    ensures |prefix| == FirstTerminator(cls, rest)
  {
    assert forall k :: 0 <= k < |prefix| ==> rest[k] == prefix[k];
  }

  // ---------------------------------------------------------------------------------------
  // What `parse` returns

  /** `parse` returns `null`, fetching nothing, exactly for a keyword other than `times`
      (compared lower-cased). */
  lemma NotTimesIsNull<T>(token: Token, rest: seq<Token>, cls: Classifier, fork: Fork<T>)
    ensures ParseTimes(token, rest, cls, fork).0.None? <==> ToLower(token.text) != TimesTokenName
    ensures ParseTimes(token, rest, cls, fork).0.None? ==> ParseTimes(token, rest, cls, fork).1 == 0
  {
  }

  /** The outcome of `parse` of a `times` line, case by case on the input: no expression
      token fails with `INCORRECT_TIMES_ARGS_COUNT` whatever follows; an expression without an
      instruction fails with `MISSING_TIMES_REPEATED_INSTRUCTION`; otherwise the forked parse
      of the repeated tokens decides: its error is re-thrown, an empty tree fails with
      `UNABLE_PARSE_REPEATED_INSTRUCTION` carrying the tokens' texts joined by spaces, and a
      tree gives the node with the expression tokens unevaluated and in order. */
  lemma ParseOutcome<T>(token: Token, rest: seq<Token>, cls: Classifier, fork: Fork<T>)
    requires token.LowerText() == TimesTokenName
    ensures var r := ParseTimes(token, rest, cls, fork).0;
      var stop := FirstStop(cls, rest);
      && (stop == 0 ==> r == Some(Failure(IncorrectTimesArgsCount)))
      && (stop > 0 && (stop == |rest| || !Opens(cls, rest[stop])) ==> r == Some(Failure(MissingTimesRepeatedInstruction)))
      && (stop > 0 && stop < |rest| && Opens(cls, rest[stop]) ==>
            var repeated := rest[stop..InstructionEnd(cls, rest)];
            r == Some(match fork(repeated)
              case Failure(e) => Failure(e)
              case Success(tree) =>
                if tree == [] then Failure(UnableParseRepeatedInstruction(JoinWith(" ", Texts(repeated))))
                else Success(Times(rest[..stop], tree))))
  {
    SplitAtFirstStop(cls, rest);
  }

  /** A parsed node prints as `times ` followed by the expression tokens exactly as they
      appeared on the line. */
  lemma ParsedToString<T>(token: Token, rest: seq<Token>, cls: Classifier, fork: Fork<T>)
    requires ParseTimes(token, rest, cls, fork).0.Some? && ParseTimes(token, rest, cls, fork).0.value.Success?
    ensures ParseTimes(token, rest, cls, fork).0.value.value.ToString() == "times " + JoinTexts(rest[..FirstStop(cls, rest)])
  {
    SplitAtFirstStop(cls, rest);
  }

  /** `times -1 dyoa`: none of the three tokens starts an instruction, so the line has a
      repeat count but nothing to repeat. */
  lemma TimesMinusOneDyoa<T>(cls: Classifier, fork: Fork<T>)
    requires forall t: Token :: t.text in ["-", "1", "dyoa"] ==> !Opens(cls, t) && !cls.lineTerminator(t)
    ensures var line := [Token(Operator, NoKind, "-", 0), Token(Number, NoKind, "1", 1), Token(Keyword, NoKind, "dyoa", 0)];
      ParseTimes(KeywordToken("times"), line, cls, fork) == (Some(Failure(MissingTimesRepeatedInstruction)), 3)
  {
    var line := [Token(Operator, NoKind, "-", 0), Token(Number, NoKind, "1", 1), Token(Keyword, NoKind, "dyoa", 0)];
    assert "times"[1..] == "imes" && "imes"[1..] == "mes" && "mes"[1..] == "es" && "es"[1..] == "s" && "s"[1..] == [];
    assert ToLower("times") == "times";
    assert SplitLine(cls, line) == Split(line, None, 3);
  }
}
