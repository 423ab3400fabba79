# i8086.js assembler core in Dafny

This project models four pieces of the i8086.js x86 assembler and proves properties of each.

- **Data definitions** (`db`, `dw`, `dd` …), in `BinaryDefinition`. Each argument is encoded into byte slots: numbers little-endian, strings one byte per character padded to the element size, floats by an IEEE-754 encoder, and labels or bracketed expressions as placeholder slots. The arguments are concatenated in order. The placeholder offsets are collected, and later passes try to resolve each one by evaluating its expression. A successful evaluation patches the value into the binary; a failed one stays pending. Modules: `DefineEncoding` (encoding, compile, offset scan), `OffsetResolution` (one resolution pass as a function, and the invariant it keeps), and `Definitions` (the class, whose methods update `binary` and `unresolvedOffsets` in place and are proved against those functions).
- **The preprocessor interpreter**, in `PreprocessorInterpreter`. It keeps a stack of scopes, each with its own variables. The root scope also holds the case-sensitive and case-insensitive tables of macros. Macros are overloaded by argument count. There is a queue of nodes deferred to a second pass, and the variable and macro-call substitution over a token list. Modules:
  - `PreprocessorScopes`: the tables and their lookups, as values.
  - `PreprocessorExec`: a value-level semantics of the interpreter API. It covers the calls a node makes (set a variable, define or undefine a macro, open a scope around a callback, defer a node, throw) and the two phases of `execTree`.
  - `MacroExpansion`: the substitution pass.
  - `Preprocessor`: the class. Each of its methods is proved to reach the state the semantics prescribes.
- **The `times` prefix**, in `ASTTimes`. Parsing splits the rest of the line into the repeat-count expression and the instruction to repeat, which a forked parser parses (module `Times`).
- **The bit helpers** of `bits.ts`, on JavaScript's 32-bit signed integers (module `Bits`). Every operation is characterised bit by bit.

The model follows the code wherever it and its doc comments differ. These quirks are modelled as written and shown by lemmas:
- On a case-insensitive lookup (the one `defineRuntimeCallable` makes for a case-insensitive macro), when the case-sensitive table holds the exact name and the case-insensitive table holds the lower-cased name, `getCallables` returns the case-sensitive list twice and never the case-insensitive entry. The default case-sensitive lookup returns an exact-name hit once.
- `undefRuntimeCallable` deletes the case-insensitive entry under the name exactly as given, not lower-cased.
- `enterScope` has no `finally`, so a throwing callback leaves its scope on the stack.
- A `%%` rewrite is written into the same array, so the list is not reported as changed.

The one place where the code is evidently wrong (see Findings) is modelled both ways. The class uses the corrected definition.

## Model

| member | source | states |
|---|---|---|
| Bits.SetBitAt | packages/compiler-core/src/utils/bits.ts:10-16 | after `setBit(nth, value, num)`, bit `nth mod 32` is set exactly when `value` is, and every other of the 32 bits is that of `num` |
| Bits.ToggleBitAt | packages/compiler-core/src/utils/bits.ts:26-28 | `toggleBit` flips bit `nth mod 32` and keeps every other bit |
| Bits.ToggleBitInvolution | packages/compiler-core/src/utils/bits.ts:26-28 | toggling the same bit twice gives back the 32-bit image of the number |
| Bits.GetBit | packages/compiler-core/src/utils/bits.ts:38-40 | the result is 0 or 1, and 1 exactly when bit `nth mod 32` of the value is set |
| Bits.IsSetBit | packages/compiler-core/src/utils/bits.ts:62-64 | holds exactly when bit `nth mod 32` of the value is set |
| Bits.RemoveFlagAt | packages/compiler-core/src/utils/bits.ts:50-52 | the result has exactly the bits of the value that the flag does not have |
| Bits.RemoveFlagIdempotent | packages/compiler-core/src/utils/bits.ts:50-52 | removing a flag twice is removing it once |
| Bits.HasFlagIsInclusion | packages/compiler-core/src/utils/bits.ts:74-76 | for a 32-bit flag, `hasFlag` holds exactly when every bit of the flag is set in the value |
| Bits.HasFlagOutsideInt32 | packages/compiler-core/src/utils/bits.ts:74-76 | a flag outside the signed 32-bit range never matches, because `&` yields a 32-bit result |
| Bits.HasFlagAfterSetAndRemove | packages/compiler-core/src/utils/bits.ts:74-76 | a value or-ed with a 32-bit flag has it; after `removeFlag`, a non-zero flag is no longer there |
| Bits.GetMSbit | packages/compiler-core/src/utils/bits.ts:86-88 | 0 or 1, and 1 exactly when bit `(8*byte - 1) mod 32` is set |
| Bits.GetSMSbit | packages/compiler-core/src/utils/bits.ts:98-100 | 0 or 1, and 1 exactly when bit `(8*byte - 2) mod 32` is set |
| Bits.MSbitOfWidth | packages/compiler-core/src/utils/bits.ts:86-100 | for operand widths of 1 to 4 bytes, the two helpers read the sign bit and the bit below it |
| Bits.ReverseByteBits | packages/compiler-core/src/utils/bits.ts:109-122 | the result lies in 0..255, its bit `i` is bit `7 - i` of the input, and no higher bit is set |
| Bits.ReverseByteInvolution | packages/compiler-core/src/utils/bits.ts:109-122 | reversing twice yields the low byte of the input, hence the input itself for 0..255 |
| DefineEncoding.EncodeDefineToken | packages/compiler-x86-assembler/src/parser/compiler/types/BinaryDefinition.ts:39-97 | succeeds exactly for numbers, quotes, brackets, keywords, and floats whose size has an encoder (4, 8 or 10 bytes) |
| DefineEncoding.EncodeDefineTokenErrors | packages/compiler-x86-assembler/src/parser/compiler/types/BinaryDefinition.ts:43-93 | a float of another size fails with `INCORRECT_FLOAT_SIZE`; any other token type fails with `UNSUPPORTED_DEFINE_TOKEN` naming the token |
| DefineEncoding.EncodeNumber | packages/compiler-x86-assembler/src/parser/compiler/types/BinaryDefinition.ts:62-66 | a number gives `byteSize` known bytes whose little-endian value is the number modulo 256^byteSize |
| DefineEncoding.NumberBytesSplit | packages/compiler-x86-assembler/src/parser/compiler/types/BinaryDefinition.ts:62-66 | the number is its encoded value plus 256^byteSize times the dropped high part |
| DefineEncoding.NumberBytesRoundTrip | packages/compiler-x86-assembler/src/parser/compiler/types/BinaryDefinition.ts:62-66 | decoding the encoded bytes gives back the number modulo 256^byteSize |
| DefineEncoding.RoundUpBounds | packages/compiler-x86-assembler/src/parser/compiler/types/BinaryDefinition.ts:70 | `ceil(len / size) * size` is a multiple of `size`, at least `len`, less than `len + size`, and equal to `len` when `len` already is a multiple |
| DefineEncoding.EncodeQuote | packages/compiler-x86-assembler/src/parser/compiler/types/BinaryDefinition.ts:68-76 | a quote gives its character bytes followed by zeros, up to the next multiple of `byteSize` |
| DefineEncoding.EncodePlaceholder | packages/compiler-x86-assembler/src/parser/compiler/types/BinaryDefinition.ts:78-84 | a bracket or keyword gives `byteSize` unresolved slots |
| DefineEncoding.EncodeFloat | packages/compiler-x86-assembler/src/parser/compiler/types/BinaryDefinition.ts:55-59 | a float of a supported size gives the encoder's bytes in reverse order |
| DefineEncoding.CompileArgsOutcome | packages/compiler-x86-assembler/src/parser/compiler/types/BinaryDefinition.ts:156-171 | compiling succeeds exactly when every argument encodes; the binary is then the encodings concatenated in argument order, and otherwise the error is that of the first argument that does not encode |
| DefineEncoding.ScanHits | packages/compiler-x86-assembler/src/parser/compiler/types/BinaryDefinition.ts:131-148 | every collected offset starts an unresolved slot, and the offsets increase at least `byteSize` apart |
| DefineEncoding.ScanCoversNulls | packages/compiler-x86-assembler/src/parser/compiler/types/BinaryDefinition.ts:131-148 | every unresolved slot lies in the `byteSize` window of some collected offset |
| DefineEncoding.ScanSkipsKnown | packages/compiler-x86-assembler/src/parser/compiler/types/BinaryDefinition.ts:131-148 | the scan passes over known slots: from before a run of known slots it finds what it finds after the run |
| DefineEncoding.ScanOfCompiled | packages/compiler-x86-assembler/src/parser/compiler/types/BinaryDefinition.ts:131-148 | over a compiled binary, the collected offsets are exactly the starts of the bracket and keyword arguments' encodings |
| DefineEncoding.OwnerOfPlaceholder | packages/compiler-x86-assembler/src/parser/compiler/types/BinaryDefinition.ts:187-196 | the argument found for a placeholder offset is a bracket or keyword whose encoding starts at that offset |
| OffsetResolution.Patch | packages/compiler-x86-assembler/src/parser/compiler/types/BinaryDefinition.ts:203-205 | writing a value at an offset sets the `byteSize` slots there to the value's bytes and leaves every other slot alone |
| OffsetResolution.PassKeptMembers | packages/compiler-x86-assembler/src/parser/compiler/types/BinaryDefinition.ts:187-207 | after a pass, an offset is pending exactly when it was pending and its expression did not evaluate |
| OffsetResolution.PassKeptSpaced | packages/compiler-x86-assembler/src/parser/compiler/types/BinaryDefinition.ts:207 | the pending list never grows, and stays increasing and `byteSize` apart |
| OffsetResolution.PassBinaryInWindow | packages/compiler-x86-assembler/src/parser/compiler/types/BinaryDefinition.ts:198-205 | the window of an offset that evaluated holds the little-endian bytes of the value |
| OffsetResolution.PassBinaryOutside | packages/compiler-x86-assembler/src/parser/compiler/types/BinaryDefinition.ts:198-205 | slots outside the windows of resolved offsets are unchanged |
| OffsetResolution.PassOverUnknown | packages/compiler-x86-assembler/src/parser/compiler/types/BinaryDefinition.ts:187-208 | when no pending expression evaluates, the pass changes neither the binary nor the list |
| OffsetResolution.PassIdempotent | packages/compiler-x86-assembler/src/parser/compiler/types/BinaryDefinition.ts:180-211 | a second pass with the same labels changes nothing more |
| OffsetResolution.PendingIffPlaceholder | packages/compiler-x86-assembler/src/parser/compiler/types/BinaryDefinition.ts:119-121 | while the invariant holds, the pending list is non-empty exactly when the binary has an unresolved slot |
| OffsetResolution.CompiledShape | packages/compiler-x86-assembler/src/parser/compiler/types/BinaryDefinition.ts:156-171 | a freshly compiled definition satisfies the invariant: the pending offsets are the placeholder starts, and their windows are all unresolved |
| OffsetResolution.PlaceholderWindow | packages/compiler-x86-assembler/src/parser/compiler/types/BinaryDefinition.ts:78-84 | a placeholder's whole window lies inside the binary and is unresolved |
| OffsetResolution.PassKeepsShape | packages/compiler-x86-assembler/src/parser/compiler/types/BinaryDefinition.ts:187-208 | a resolution pass preserves the invariant |
| OffsetResolution.KeptAreStarts | packages/compiler-x86-assembler/src/parser/compiler/types/BinaryDefinition.ts:207 | every offset still pending is a placeholder start |
| OffsetResolution.KeptWindowsHold | packages/compiler-x86-assembler/src/parser/compiler/types/BinaryDefinition.ts:187-208 | the windows of the offsets still pending stay unresolved after a pass |
| OffsetResolution.KeptWindowsCover | packages/compiler-x86-assembler/src/parser/compiler/types/BinaryDefinition.ts:187-208 | after a pass, every unresolved slot lies in the window of a pending offset |
| OffsetResolution.PlaceholderStaysInKeptWindow | packages/compiler-x86-assembler/src/parser/compiler/types/BinaryDefinition.ts:187-208 | a slot that is still unresolved after a pass belonged to an offset that stays pending |
| OffsetResolution.ExpressionAt | packages/compiler-x86-assembler/src/parser/compiler/types/BinaryDefinition.ts:189-196 | the expression for a placeholder is the text of a bracket or keyword argument whose encoding starts at that offset |
| OffsetResolution.AsWrittenIndexMissesArgument | packages/compiler-x86-assembler/src/parser/compiler/types/BinaryDefinition.ts:189 | for `dw "ABC", foo, bar`, the index `offset / byteSize` picks `bar` for `foo`'s placeholder and runs past the arguments for `bar`'s |
| OffsetResolution.OwnerIsDivisionWhenUniform | packages/compiler-x86-assembler/src/parser/compiler/types/BinaryDefinition.ts:189 | when every argument encodes to exactly `byteSize` slots, `offset / byteSize` is the argument that owns the placeholder |
| Definitions.BinaryDefinition.constructor | packages/compiler-x86-assembler/src/parser/compiler/types/BinaryDefinition.ts:106-107 | a new definition has an empty binary and no pending offsets |
| Definitions.BinaryDefinition.HasUnresolvedDefinitions | packages/compiler-x86-assembler/src/parser/compiler/types/BinaryDefinition.ts:119-121 | holds exactly when the binary still has an unresolved slot |
| Definitions.BinaryDefinition.CollectUnresolvedOffsets | packages/compiler-x86-assembler/src/parser/compiler/types/BinaryDefinition.ts:131-148 | the loop returns the scan of the binary (whose meaning `ScanHits` and `ScanCoversNulls` state) and changes nothing |
| Definitions.BinaryDefinition.Compile | packages/compiler-x86-assembler/src/parser/compiler/types/BinaryDefinition.ts:156-171 | on success the binary is the concatenated encodings and the pending list is the placeholder starts; on failure it reports the first failing argument's error and changes nothing |
| Definitions.BinaryDefinition.TryResolveOffsets | packages/compiler-x86-assembler/src/parser/compiler/types/BinaryDefinition.ts:180-211 | the in-place loop produces the pass's binary and pending list, keeps the invariant, and reports success exactly when nothing stays pending, which is exactly when every pending expression evaluated |
| Definitions.BinaryDefinition.WriteSlots | packages/compiler-x86-assembler/src/parser/compiler/types/BinaryDefinition.ts:203-205 | the byte loop writes the value's bytes into the window and nothing else |
| Definitions.CompileFailureSticks | packages/compiler-x86-assembler/src/parser/compiler/types/BinaryDefinition.ts:160-166 | once an argument fails, compilation fails with that error whatever follows |
| Definitions.KeptEmptyIffAllKnown | packages/compiler-x86-assembler/src/parser/compiler/types/BinaryDefinition.ts:210 | the pending list is empty after a pass exactly when every pending expression evaluated |
| PreprocessorScopes.MapOfKeys | packages/compiler-x86-assembler/src/preprocessor/interpreter/PreprocessorInterpreter.ts:124-126 | a scope built from a list of entries binds exactly the names that have an entry |
| PreprocessorScopes.MapOfLastWins | packages/compiler-x86-assembler/src/preprocessor/interpreter/PreprocessorInterpreter.ts:124-126 | a name with several entries reads as its last one |
| PreprocessorScopes.LookupMeaning | packages/compiler-x86-assembler/src/preprocessor/interpreter/PreprocessorInterpreter.ts:294-308 | a variable reads from the innermost scope that binds it (only the current scope when asked); it is `null` exactly when no such scope does |
| PreprocessorScopes.SetVariableShadows | packages/compiler-x86-assembler/src/preprocessor/interpreter/PreprocessorInterpreter.ts:317-331 | setting fails exactly when the current scope already binds the name; otherwise only the current scope's variables change, the name reads as the new value, and every other name reads as before |
| PreprocessorScopes.LookupOthers | packages/compiler-x86-assembler/src/preprocessor/interpreter/PreprocessorInterpreter.ts:294-308 | lookups of names other than the one set are unaffected by setting a variable |
| PreprocessorScopes.GetCallablesSensitive | packages/compiler-x86-assembler/src/preprocessor/interpreter/PreprocessorInterpreter.ts:269-284 | a case-sensitive lookup finds the exact name first, then the lower-cased name in the case-insensitive table, and otherwise nothing |
| PreprocessorScopes.GetCallablesDoubled | packages/compiler-x86-assembler/src/preprocessor/interpreter/PreprocessorInterpreter.ts:269-284 | for every root and name: on a case-insensitive lookup, when the case-sensitive table holds the exact name and the case-insensitive table the lower-cased name, the result is the case-sensitive list twice |
| PreprocessorScopes.GetCallablesDoubles | packages/compiler-x86-assembler/src/preprocessor/interpreter/PreprocessorInterpreter.ts:276-280 | an example of the doubling: `A` defined case-sensitively and `a` case-insensitively; looking up `A` case-insensitively gives the `A` overload twice |
| PreprocessorScopes.Undef | packages/compiler-x86-assembler/src/preprocessor/interpreter/PreprocessorInterpreter.ts:210-216 | undefining deletes the name, as given, from the case-insensitive table, and from the case-sensitive one only when asked |
| PreprocessorScopes.AppendKey | packages/compiler-x86-assembler/src/preprocessor/interpreter/PreprocessorInterpreter.ts:250-256 | appending adds the macro at the end of the name's overload list and leaves the other names alone |
| PreprocessorScopes.DefineRule | packages/compiler-x86-assembler/src/preprocessor/interpreter/PreprocessorInterpreter.ts:225-259 | defining fails with `MACRO_ALREADY_EXISTS` exactly when an overload with the same argument count exists (except the single zero-argument redefinition) or a zero-argument macro meets existing overloads; on success the table gains the macro at the end of the overloads that stay under its storage key (all of them, unless the replaced definition sits under the name as given), a replaced definition's name leaves both tables, and every other key of either table is unchanged |
| PreprocessorScopes.DefineFresh | packages/compiler-x86-assembler/src/preprocessor/interpreter/PreprocessorInterpreter.ts:229-259 | a name with no definition accepts any macro, which becomes its only overload |
| PreprocessorScopes.DefineAppendsOverload | packages/compiler-x86-assembler/src/preprocessor/interpreter/PreprocessorInterpreter.ts:229-256 | a macro with a new argument count is appended after the existing overloads |
| PreprocessorScopes.DefineReplacesSingle | packages/compiler-x86-assembler/src/preprocessor/interpreter/PreprocessorInterpreter.ts:234-237 | a zero-argument macro redefining the single zero-argument macro of that name replaces it |
| PreprocessorScopes.MixedCaseRedefinitionAppends | packages/compiler-x86-assembler/src/preprocessor/interpreter/PreprocessorInterpreter.ts:213 | redefining a case-insensitive macro named with capitals keeps the old overload, since the delete uses the name as given |
| PreprocessorScopes.SelectOverloadFirst | packages/compiler-x86-assembler/src/preprocessor/interpreter/PreprocessorInterpreter.ts:464-466 | the chosen overload is the first whose argument count equals the call's, and there is none exactly when no overload has that count |
| PreprocessorExec.StepFrame | packages/compiler-x86-assembler/src/preprocessor/interpreter/PreprocessorInterpreter.ts:210-331 | one interpreter call that returns normally keeps the stack depth and every scope id, changes variables only in the current scope, and changes callables only in the root |
| PreprocessorExec.RunFrame | packages/compiler-x86-assembler/src/preprocessor/interpreter/PreprocessorInterpreter.ts:210-331 | the same holds for any sequence of calls that returns normally |
| PreprocessorExec.ScopedRestores | packages/compiler-x86-assembler/src/preprocessor/interpreter/PreprocessorInterpreter.ts:119-133 | a callback that returns normally leaves the scope stack as deep as before and every scope as before, except the root's callables |
| PreprocessorExec.ScopedTopHoldsVariables | packages/compiler-x86-assembler/src/preprocessor/interpreter/PreprocessorInterpreter.ts:124-128 | inside the callback the current scope binds exactly the supplied names, each to its last entry |
| PreprocessorExec.ScopedThrowKeepsScope | packages/compiler-x86-assembler/src/preprocessor/interpreter/PreprocessorInterpreter.ts:129-130 | a throwing callback leaves the stack deeper than before |
| PreprocessorExec.DefineInsideScopeReachesRoot | packages/compiler-x86-assembler/src/preprocessor/interpreter/PreprocessorInterpreter.ts:225-256 | a macro defined inside a scope is stored in the root and survives the scope's end |
| PreprocessorExec.StepIds | packages/compiler-x86-assembler/src/preprocessor/interpreter/PreprocessorInterpreter.ts:124-128 | every call keeps the scope ids increasing from the root up and below the next fresh id, leaves the second-pass flag alone, and only appends to the queue |
| PreprocessorExec.RunIds | packages/compiler-x86-assembler/src/preprocessor/interpreter/PreprocessorInterpreter.ts:124-128 | any sequence of calls keeps the ids increasing and fresh, leaves the second-pass flag alone, and only appends to the queue |
| PreprocessorExec.ExecTreePhases | packages/compiler-x86-assembler/src/preprocessor/interpreter/PreprocessorInterpreter.ts:162-180 | after a tree runs normally the deferred queue is empty, and the second-pass flag is up exactly when the first phase deferred a node |
| PreprocessorExec.DeferredRunAfterFirstPhase | packages/compiler-x86-assembler/src/preprocessor/interpreter/PreprocessorInterpreter.ts:170-180 | for a first phase made only of deferrals: the deferred nodes run after it, in order, with the second-pass flag up, and the queue is emptied |
| PreprocessorExec.StepDefers | packages/compiler-x86-assembler/src/preprocessor/interpreter/PreprocessorInterpreter.ts:106-108 | a call that returns normally appends to the queue exactly the nodes it defers, including those deferred inside an `enterScope` callback |
| PreprocessorExec.RunDefers | packages/compiler-x86-assembler/src/preprocessor/interpreter/PreprocessorInterpreter.ts:106-108 | calls that return normally append exactly the nodes they defer, in program order |
| PreprocessorExec.StepQueue | packages/compiler-x86-assembler/src/preprocessor/interpreter/PreprocessorInterpreter.ts:106-108 | what one call does, and what it appends to the queue, does not depend on what was queued before it |
| PreprocessorExec.RunQueue | packages/compiler-x86-assembler/src/preprocessor/interpreter/PreprocessorInterpreter.ts:106-108 | the same holds for any sequence of calls, whether or not one throws |
| PreprocessorExec.QueueIsAccumulator | packages/compiler-x86-assembler/src/preprocessor/interpreter/PreprocessorInterpreter.ts:165-168 | calls run on any queue give the outcome they give on an empty queue, with the old queue kept in front |
| PreprocessorExec.ExecTreeRunsDeferred | packages/compiler-x86-assembler/src/preprocessor/interpreter/PreprocessorInterpreter.ts:162-180 | for every tree whose first phase returns normally, the second phase runs exactly the nodes the first phase deferred, in program order, with the flag up; the queue is emptied when that phase returns normally too; without deferrals the first phase's outcome stands |
| PreprocessorExec.DefersQueue | packages/compiler-x86-assembler/src/preprocessor/interpreter/PreprocessorInterpreter.ts:106-108 | deferring nodes appends them to the queue in order and changes nothing else |
| MacroExpansion.Spliced | packages/compiler-x86-assembler/src/preprocessor/interpreter/PreprocessorInterpreter.ts:476-485 | a call splice keeps the tokens before the call, puts the expansion in the name's place, and never lengthens the list |
| MacroExpansion.ExpandNeverGrows | packages/compiler-x86-assembler/src/preprocessor/interpreter/PreprocessorInterpreter.ts:340-494 | substitution never makes the token list longer |
| MacroExpansion.CallNeedsMatchingArity | packages/compiler-x86-assembler/src/preprocessor/interpreter/PreprocessorInterpreter.ts:444-487 | a macro name is expanded only when an overload takes exactly the supplied argument count, and then by the first such overload; otherwise it stays |
| MacroExpansion.ExpandOnlySubstitutes | packages/compiler-x86-assembler/src/preprocessor/interpreter/PreprocessorInterpreter.ts:372-387 | without macro calls and `%` tokens, each keyword bound to a variable becomes the variable's text, everything else stays, and the list counts as changed exactly when something was substituted |
| MacroExpansion.ScopeLocalNotReported | packages/compiler-x86-assembler/src/preprocessor/interpreter/PreprocessorInterpreter.ts:390-398 | `%%loop` in scope 7 becomes `7_loop`, and the list is reported as unchanged |
| Preprocessor.PreprocessorInterpreter.constructor | packages/compiler-x86-assembler/src/preprocessor/interpreter/PreprocessorInterpreter.ts:80-86 | the stack is the configured root scope, or a new empty one, and the queue is empty |
| Preprocessor.PreprocessorInterpreter.AppendToSecondPassExec | packages/compiler-x86-assembler/src/preprocessor/interpreter/PreprocessorInterpreter.ts:106-108 | the node is appended to the second-pass queue and nothing else changes |
| Preprocessor.PreprocessorInterpreter.EnterScope | packages/compiler-x86-assembler/src/preprocessor/interpreter/PreprocessorInterpreter.ts:119-133 | the push, the callback and the pop reach the state and error the semantics prescribes, keeping the ids fresh |
| Preprocessor.PreprocessorInterpreter.ExecEffects | packages/compiler-x86-assembler/src/preprocessor/interpreter/PreprocessorInterpreter.ts:168 | a node's calls run in order up to the first throw, as the semantics prescribes |
| Preprocessor.PreprocessorInterpreter.ExecTree | packages/compiler-x86-assembler/src/preprocessor/interpreter/PreprocessorInterpreter.ts:162-180 | both phases of `execTree` reach the state and error the semantics prescribes |
| Preprocessor.PreprocessorInterpreter.ExecNodes | packages/compiler-x86-assembler/src/preprocessor/interpreter/PreprocessorInterpreter.ts:173-178 | the deferred nodes run in order up to the first throw |
| Preprocessor.PreprocessorInterpreter.UndefRuntimeCallable | packages/compiler-x86-assembler/src/preprocessor/interpreter/PreprocessorInterpreter.ts:210-216 | only the root scope's callable tables change, as `Undef` prescribes |
| Preprocessor.PreprocessorInterpreter.DefineRuntimeCallable | packages/compiler-x86-assembler/src/preprocessor/interpreter/PreprocessorInterpreter.ts:225-259 | the method reaches the state and error of `Define`, so `DefineRule` describes it |
| Preprocessor.PreprocessorInterpreter.GetVariable | packages/compiler-x86-assembler/src/preprocessor/interpreter/PreprocessorInterpreter.ts:294-308 | the downward loop returns the lookup that `LookupMeaning` characterises |
| Preprocessor.PreprocessorInterpreter.SetVariable | packages/compiler-x86-assembler/src/preprocessor/interpreter/PreprocessorInterpreter.ts:317-331 | the method reaches the state and error that `SetVariableShadows` characterises |
| Preprocessor.PreprocessorInterpreter.RemoveMacrosFromTokens | packages/compiler-x86-assembler/src/preprocessor/interpreter/PreprocessorInterpreter.ts:340-494 | the in-place loop returns the `[changed, tokens]` pair of the substitution pass |
| Preprocessor.PreprocessorInterpreter.Clear | packages/compiler-x86-assembler/src/preprocessor/interpreter/PreprocessorInterpreter.ts:543-547 | the stack becomes a single new empty root scope with a fresh id, and the second-pass fields stay |
| Times.FirstStop | packages/compiler-x86-assembler/src/parser/ast/critical/ASTTimes.ts:57-68 | the repeat-count expression ends at the first token that starts an instruction or ends the line |
| Times.Parse | packages/compiler-x86-assembler/src/parser/ast/critical/ASTTimes.ts:49-109 | the parse loop returns the node or error, and the token count, of the model's parse |
| Times.SplitLineDone | packages/compiler-x86-assembler/src/parser/ast/critical/ASTTimes.ts:57-68 | the token loop ends with a complete split of the line |
| Times.SplitAtFirstStop | packages/compiler-x86-assembler/src/parser/ast/critical/ASTTimes.ts:57-68 | the expression is the tokens before the first stop; the instruction runs from an opening stop to the end of the line; the line terminator is consumed |
| Times.NotTimesIsNull | packages/compiler-x86-assembler/src/parser/ast/critical/ASTTimes.ts:50-51 | `parse` returns `null` without consuming a token exactly for a keyword other than `times` |
| Times.ParseOutcome | packages/compiler-x86-assembler/src/parser/ast/critical/ASTTimes.ts:71-108 | no expression fails with `INCORRECT_TIMES_ARGS_COUNT`; no instruction fails with `MISSING_TIMES_REPEATED_INSTRUCTION`; otherwise the forked parse decides: its error is re-thrown, an empty tree fails with `UNABLE_PARSE_REPEATED_INSTRUCTION`, and a tree gives the node |
| Times.ParsedToString | packages/compiler-x86-assembler/src/parser/ast/critical/ASTTimes.ts:36-38 | a parsed node prints as `times ` followed by the expression tokens of the line |
| Times.TimesMinusOneDyoa | packages/compiler-x86-assembler/tests/errors.test.ts:36 | `times -1 dyoa` fails with `MISSING_TIMES_REPEATED_INSTRUCTION` after consuming its three tokens |

## Left out

- Float encoding: the IEEE-754 encoders are a parameter of the model. Only the size check and the byte reversal are modelled.
- `ASTDef` is not part of this model. `FLOAT_DEFINE_ENCODERS` is keyed by its `dd`, `dq` and `dt` names, which are taken to be the element widths 4, 8 and 10.
- `extractMultipleNumberBytes` and `extractBytesFromText` are not part of this model. Numbers are taken as their low `byteSize` bytes, little-endian. Text is one byte per character (its code modulo 256).
- Expression evaluation: `safeKeywordResultRPN` and the label resolver are one parameter from an expression's text to an optional integer.
- The `BinaryBlob` base class (the AST node and the source location) is not part of this model. The constructor stands for it.
- Definitions.BinaryDefinition.TryResolveOffsets: uses the corrected argument lookup of the finding below, not `offset / byteSize`.
- Definitions.BinaryDefinition.Compile: the source throws in the middle of its loop; this is modelled as an error result with the fields unchanged.
- Node execution and the `enterScope` callback: both are a list of interpreter calls. The value the callback returns is not modelled, and neither is the rest of the grammar or the AST visitors.
- Preprocessor.PreprocessorInterpreter.ExecTree: only the two phases (lines 165-180) are modelled. The tree walk that follows (lines 182-200) is not. That walk executes every `ASTPreprocessorSyntaxLine` node a third time (lines 188-189), which can change variables, callables and the deferred queue, or throw. It also builds the emitter text. So `ExecTree` and `ExecTreePhases` describe the state after the second phase, not the state after `execTree` returns. `exec(code)` and `evalExpression` are not modelled either.
- MacroExpansion.ExpandFrom: the `%[...]` and inline `NAME%[...]` expression branches (lines 349-366 and 399-439) and `evalTokensExpression` (lines 503-523) are not modelled. A `%`-prefixed token other than `%%` is left unchanged.
- MacroExpansion.ExpandFrom: `fetchRuntimeCallArgsList` and the recursive expansion of each argument are one parameter. So is the macro's `runtimeCall`, as a function from the callable and the argument texts to a string. In the source, `callable.runtimeCall(this, …)` (lines 468-474) receives the interpreter, so it can define or remove macros and set variables mid-pass, or throw. `Expand` reads one fixed scope stack and has no error result. So a macro or variable that a call defines is not visible to later tokens of the same pass, and a throw from a call is not modelled.
- Preprocessor.PreprocessorInterpreter.RemoveMacrosFromTokens: the `%%` rewrite writes into the caller's array when nothing was replaced before it. That aliasing is not modelled; only its effect on the `changed` flag is.
- Scope ids: `genUUID` is replaced by a counter. Ids are printed as decimal numbers.
- Variable values: they are text, numbers or flags, and `toString()` of a number is modelled for integers only. A variable stored as `null` is not modelled.
- Tokens: `Token.toString()` is taken to be the token's text. Source locations of tokens and errors are not modelled.
- Times.Parse: the forked parser's error list is represented by its first error. An empty error list is not modelled, and neither is a tree whose first node is falsy.
- `INCORRECT_TIMES_VALUE` is not modelled: it belongs to evaluating the repeat count at compile time, outside `parse`.
- PreprocessorScopes.GetCallablesSensitive: `R.toLower` (lines 252 and 276) is JavaScript's full Unicode `toLowerCase`. `Common.ToLower` lower-cases only ASCII letters, so macro names are assumed to be ASCII. A case-insensitive macro named `Ä` is stored under `ä` by the source but under `Ä` by the model. The `times` keyword test is unaffected, because no non-ASCII character lower-cases to one of its letters.
- PreprocessorScopes.DefineRule: the storage key of a case-insensitive macro is lower-cased for ASCII letters only, for the same reason.
- Preprocessor.PreprocessorInterpreter.DefineRuntimeCallable: the same ASCII-only lower-casing of the storage key.
- Bits: numbers are JavaScript integers, reduced to 32 bits with an explicit `ToInt32`. Fractional, `NaN` and infinite inputs are not modelled.

## Findings

| source | as written | input that shows it | evidently intended | confidence | as-written member | corrected member |
|---|---|---|---|---|---|---|
| packages/compiler-x86-assembler/src/parser/compiler/types/BinaryDefinition.ts:189 | the argument of a placeholder is `args[(offset / byteSize) \| 0]` | `dw "ABC", foo, bar`: the string takes 4 bytes, so the placeholders start at 4 and 6; offset 4 reads `bar`, and offset 6 reads past the arguments | the argument whose encoding starts at the offset, found by walking the encoded lengths (the division agrees only when every argument is `byteSize` wide) | high, not executed | OffsetResolution.AsWrittenIndexMissesArgument | OffsetResolution.ExpressionAt |
