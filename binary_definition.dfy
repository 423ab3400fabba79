/** The `BinaryDefinition` blob of one data definition: its byte slots and the offsets of the
    placeholders that still wait for a label. `compile` fills both; `tryResolveOffsets`
    patches the slots in place and shrinks the pending list. */
module Definitions {
  import opened Common
  import opened Tokens
  import opened DefineEncoding
  import opened OffsetResolution

  class BinaryDefinition {
    /** `ast.byteSize`, `ast.args` and the IEEE-754 encoders of the definition. */
    const byteSize: nat
    const args: seq<Token>
    const floatEncoder: FloatEncoder

    /** `_binary`: one slot per byte, `None` for a placeholder. */
    var binary: seq<Slot>
    /** `_unresolvedOffsets` */
    var unresolvedOffsets: seq<nat>

    /** The pending offsets are exactly the placeholder windows left in the binary. */
    ghost predicate Valid()
      reads this
    {
      byteSize > 0 && PendingShape(byteSize, args, floatEncoder, binary, unresolvedOffsets)
    }

    /** An empty blob for a definition with the given element size and arguments. */
    constructor(byteSize: nat, args: seq<Token>, floatEncoder: FloatEncoder)
      requires byteSize > 0
      ensures this.byteSize == byteSize && this.args == args && this.floatEncoder == floatEncoder
      ensures binary == [] && unresolvedOffsets == []
      ensures Valid()
    {
      this.byteSize := byteSize;
      this.args := args;
      this.floatEncoder := floatEncoder;
      binary := [];
      unresolvedOffsets := [];
    }

    /** `hasUnresolvedDefinitions()`: some offset is pending, which is the case exactly when
        the binary still holds a placeholder slot. */
    function HasUnresolvedDefinitions(): (r: bool)
      reads this
      requires Valid()
      ensures r <==> exists j :: 0 <= j < |binary| && binary[j] == None
    {
      PendingIffPlaceholder(byteSize, args, floatEncoder, binary, unresolvedOffsets);
      |unresolvedOffsets| > 0
    }

    /** `collectUnresolvedOffsets()`: the skipping scan of the binary for `null` slots. */
    method CollectUnresolvedOffsets() returns (offsets: seq<nat>)
      requires byteSize > 0
      ensures offsets == Scan(binary, byteSize, 0)
    {
      var b := binary;
      offsets := [];
      var i: nat := 0;
      while i < |b|
        invariant offsets + Scan(b, byteSize, i) == Scan(b, byteSize, 0)
        decreases |b| - i
      {
        if b[i] == None {
          ghost var tail := Scan(b, byteSize, i + byteSize);
          assert Scan(b, byteSize, i) == [i] + tail;
          assert offsets + [i] + tail == offsets + ([i] + tail);
          offsets := offsets + [i];
          i := i + byteSize;
        } else {
          i := i + 1;
        }
      }
    }

    /** `compile()`: encodes the arguments in order into a fresh binary and collects its
        placeholder offsets. The first argument that cannot be encoded raises its error before
        any field is assigned. */
    method Compile() returns (err: Option<DefineError>)
      requires Valid()
      modifies this
      ensures Valid()
      ensures err.None? ==> CompileArgs(byteSize, args, floatEncoder) == Success(binary)
      ensures err.None? ==> unresolvedOffsets == ArgPlaceholderStarts(byteSize, args, floatEncoder)
      ensures err.Some? ==> CompileArgs(byteSize, args, floatEncoder) == Failure(err.value)
      ensures err.Some? ==> binary == old(binary) && unresolvedOffsets == old(unresolvedOffsets)
    {
      var out: seq<Slot> := [];
      var k := 0;
      while k < |args|
        invariant 0 <= k <= |args|
        invariant CompileArgs(byteSize, args[..k], floatEncoder) == Success(out)
      {
        assert args[..k + 1][..k] == args[..k];
        match EncodeDefineToken(byteSize, args[k], floatEncoder)
        case Failure(e) =>
          CompileFailureSticks(byteSize, args, floatEncoder, k + 1);
          return Some(e);
        case Success(slots) =>
          out := out + slots;
          k := k + 1;
      }
      assert args[..k] == args;
      binary := out;
      unresolvedOffsets := CollectUnresolvedOffsets();
      CompileArgsOutcome(byteSize, args, floatEncoder);
      ScanOfCompiled(byteSize, args, floatEncoder);
      CompiledShape(byteSize, args, floatEncoder);
      return None;
    }

    /** `tryResolveOffsets(labelResolver)`: one pass over the pending offsets in order; each
        whose expression evaluates gets its slots overwritten and is spliced out, the others
        stay. Returns whether nothing is left pending. */
    method TryResolveOffsets(eval: Evaluator) returns (resolved: bool)
      requires Valid()
      modifies this
      ensures Valid()
      ensures binary == PassBinary(old(binary), byteSize, old(unresolvedOffsets), PlaceholderValues(byteSize, args, floatEncoder, eval))
      ensures unresolvedOffsets == PassKept(old(unresolvedOffsets), PlaceholderValues(byteSize, args, floatEncoder, eval))
      ensures resolved <==> unresolvedOffsets == []
      ensures resolved <==> forall k :: 0 <= k < |old(unresolvedOffsets)| ==> PlaceholderValues(byteSize, args, floatEncoder, eval)(old(unresolvedOffsets)[k]).Some?
    {
      ghost var b0, p0 := binary, unresolvedOffsets;
      var offsetIndex := 0;
      ghost var c := 0;
      while offsetIndex < |unresolvedOffsets|
        invariant 0 <= offsetIndex <= |unresolvedOffsets| && 0 <= c <= |p0|
        invariant unresolvedOffsets[offsetIndex..] == p0[c..]
        invariant PassProgress(byteSize, PlaceholderValues(byteSize, args, floatEncoder, eval), b0, p0, binary, unresolvedOffsets[..offsetIndex], unresolvedOffsets[offsetIndex..])
        decreases |unresolvedOffsets| - offsetIndex
      {
        offsetIndex := ResolveAt(eval, offsetIndex, b0, p0, c);
        c := c + 1;
      }
      assert unresolvedOffsets[..offsetIndex] == unresolvedOffsets;
      ProgressDone(byteSize, args, floatEncoder, PlaceholderValues(byteSize, args, floatEncoder, eval), b0, p0, binary, unresolvedOffsets);
      KeptEmptyIffAllKnown(p0, PlaceholderValues(byteSize, args, floatEncoder, eval));
      resolved := |unresolvedOffsets| == 0;
    }

    /** The body of the loop in `tryResolveOffsets` for the offset at `offsetIndex`: evaluate
        its expression; when it has a value, write the value's bytes over the slots and splice
        the offset out, otherwise step past it. Returns the next index. */
    method ResolveAt(eval: Evaluator, offsetIndex: nat, ghost b0: seq<Slot>, ghost p0: seq<nat>, ghost c: nat) returns (next: nat)
      requires byteSize > 0 && PendingShape(byteSize, args, floatEncoder, b0, p0)
      requires offsetIndex < |unresolvedOffsets| && c < |p0| && unresolvedOffsets[offsetIndex..] == p0[c..]
      requires PassProgress(byteSize, PlaceholderValues(byteSize, args, floatEncoder, eval), b0, p0, binary, unresolvedOffsets[..offsetIndex], unresolvedOffsets[offsetIndex..])
      modifies this
      ensures next <= |unresolvedOffsets| && |unresolvedOffsets| - next < old(|unresolvedOffsets|) - offsetIndex
      ensures unresolvedOffsets[next..] == p0[c + 1..]
      ensures PassProgress(byteSize, PlaceholderValues(byteSize, args, floatEncoder, eval), b0, p0, binary, unresolvedOffsets[..next], unresolvedOffsets[next..])
    {
      var offset := unresolvedOffsets[offsetIndex];
      assert offset == unresolvedOffsets[offsetIndex..][0] == p0[c];
      PlaceholderValueAt(byteSize, args, floatEncoder, eval, offset);
      var argIndex := OwnerArg(byteSize, args, floatEncoder, offset);
      ghost var value := PlaceholderValues(byteSize, args, floatEncoder, eval);
      assert eval(args[argIndex].text) == value(offset);
      match eval(args[argIndex].text)
      case None =>
        KeepAt(byteSize, value, b0, p0, binary, unresolvedOffsets, offsetIndex, c);
        next := offsetIndex + 1;
      case Some(v) =>
        SpliceAt(byteSize, value, b0, p0, binary, unresolvedOffsets, offsetIndex, c);
        WriteSlots(offset, NumberBytes(byteSize, v));
        unresolvedOffsets := unresolvedOffsets[..offsetIndex] + unresolvedOffsets[offsetIndex + 1..];
        next := offsetIndex;
    }

    /** The inner loop of `tryResolveOffsets`: `_binary[offset + i] = offsetBytes[i]`. */
    method WriteSlots(offset: nat, bytes: seq<u8>)
      requires offset + |bytes| <= |binary|
      modifies this
      ensures binary == Patch(old(binary), offset, bytes)
      ensures unresolvedOffsets == old(unresolvedOffsets)
    {
      ghost var b0 := binary;
      var i := 0;
      while i < |bytes|
        invariant 0 <= i <= |bytes| && |binary| == |b0|
        invariant unresolvedOffsets == old(unresolvedOffsets)
        invariant forall j :: 0 <= j < |binary| ==>
          binary[j] == if offset <= j < offset + i then Some(bytes[j - offset]) else b0[j]
      {
        binary := binary[offset + i := Some(bytes[i])];
        i := i + 1;
      }
      assert binary == Patch(b0, offset, bytes);
    }
  }

  /** The value `tryResolveOffsets` finds for the placeholder at each offset. */
  function PlaceholderValues(byteSize: nat, args: seq<Token>, floatEncoder: FloatEncoder, eval: Evaluator): nat -> Option<int>
    requires byteSize > 0
  {
    (o: nat) => PlaceholderValue(byteSize, args, floatEncoder, eval, o)
  }

  /** Once a prefix of the arguments fails to compile, so do all the arguments, with the
      same error: the first failure is the one reported. */
  lemma {:induction false} CompileFailureSticks(byteSize: nat, args: seq<Token>, floatEncoder: FloatEncoder, n: nat)
    requires byteSize > 0 && n <= |args| && CompileArgs(byteSize, args[..n], floatEncoder).Failure?
    ensures CompileArgs(byteSize, args, floatEncoder) == CompileArgs(byteSize, args[..n], floatEncoder)
    decreases |args| - n
  {
    if n < |args| {
      assert args[..n + 1][..n] == args[..n];
      CompileFailureSticks(byteSize, args, floatEncoder, n + 1);
    } else {
      assert args[..n] == args;
    }
  }

  /** The state of `tryResolveOffsets` part-way through its pass: the offsets `done` are kept
      so far, the offsets `todo` are still to visit, and finishing the pass from here gives
      the pass from the start. */
  ghost predicate PassProgress(byteSize: nat, value: nat -> Option<int>, b0: seq<Slot>, p0: seq<nat>,
                               binary: seq<Slot>, done: seq<nat>, todo: seq<nat>)
  {
    && |binary| == |b0|
    && done + PassKept(todo, value) == PassKept(p0, value)
    && WindowsInside(b0, byteSize, p0)
    && WindowsInside(binary, byteSize, todo)
    && PassBinary(binary, byteSize, todo, value) == PassBinary(b0, byteSize, p0, value)
  }

  /** The `null` case of the loop in `tryResolveOffsets`, at index `i` of the pending list:
      the index moves past the offset, which stays pending. */
  lemma KeepAt(byteSize: nat, value: nat -> Option<int>, b0: seq<Slot>, p0: seq<nat>,
               binary: seq<Slot>, pending: seq<nat>, i: nat, c: nat)
    requires i < |pending| && c < |p0| && pending[i..] == p0[c..]
    requires PassProgress(byteSize, value, b0, p0, binary, pending[..i], pending[i..])
    requires value(pending[i]).None?
    ensures pending[i + 1..] == p0[c + 1..]
    ensures PassProgress(byteSize, value, b0, p0, binary, pending[..i + 1], pending[i + 1..])
  {
    var done, offset, rest := pending[..i], pending[i], pending[i + 1..];
    assert pending[i..] == [offset] + rest;
    ProgressKeep(byteSize, value, b0, p0, binary, done, offset, rest);
    assert pending[..i + 1] == done + [offset];
  }

  /** The evaluated case of the loop in `tryResolveOffsets`, at index `i` of the pending list:
      the window is patched and the offset spliced out, and the index stays. */
  lemma SpliceAt(byteSize: nat, value: nat -> Option<int>, b0: seq<Slot>, p0: seq<nat>,
                 binary: seq<Slot>, pending: seq<nat>, i: nat, c: nat)
    requires i < |pending| && c < |p0| && pending[i..] == p0[c..]
    requires PassProgress(byteSize, value, b0, p0, binary, pending[..i], pending[i..])
    requires value(pending[i]).Some?
    ensures var bytes, spliced := NumberBytes(byteSize, value(pending[i]).value), pending[..i] + pending[i + 1..];
      && pending[i] + |bytes| <= |binary|
      && spliced[i..] == p0[c + 1..]
      && PassProgress(byteSize, value, b0, p0, Patch(binary, pending[i], bytes), spliced[..i], spliced[i..])
  {
    var done, offset, rest := pending[..i], pending[i], pending[i + 1..];
    assert pending[i..] == [offset] + rest;
    ProgressPatch(byteSize, value, b0, p0, binary, done, offset, rest);
    var spliced := done + rest;
    assert spliced[..i] == done && spliced[i..] == rest;
  }

  /** The `null` case of the loop body: the offset is skipped and stays pending. */
  lemma ProgressKeep(byteSize: nat, value: nat -> Option<int>, b0: seq<Slot>, p0: seq<nat>,
                     binary: seq<Slot>, done: seq<nat>, offset: nat, rest: seq<nat>)
    requires PassProgress(byteSize, value, b0, p0, binary, done, [offset] + rest)
    requires value(offset).None?
    ensures PassProgress(byteSize, value, b0, p0, binary, done + [offset], rest)
  {
    PassKeptStep(offset, rest, value);
    PassBinaryStep(binary, byteSize, offset, rest, value);
    SnocShift(done, offset, PassKept(rest, value));
  }

  /** Moving one offset from the front of the rest onto the end of the prefix. */
  lemma SnocShift(done: seq<nat>, offset: nat, tail: seq<nat>)
    ensures done + ([offset] + tail) == (done + [offset]) + tail
  {
  }

  /** The evaluated case of the loop body: the slots are overwritten and the offset spliced out. */
  lemma ProgressPatch(byteSize: nat, value: nat -> Option<int>, b0: seq<Slot>, p0: seq<nat>,
                      binary: seq<Slot>, done: seq<nat>, offset: nat, rest: seq<nat>)
    requires PassProgress(byteSize, value, b0, p0, binary, done, [offset] + rest)
    requires value(offset).Some?
    ensures offset + |NumberBytes(byteSize, value(offset).value)| <= |binary|
    ensures PassProgress(byteSize, value, b0, p0, Patch(binary, offset, NumberBytes(byteSize, value(offset).value)), done, rest)
  {
    PassKeptStep(offset, rest, value);
    PassBinaryStep(binary, byteSize, offset, rest, value);
    assert [] + PassKept(rest, value) == PassKept(rest, value);
  }

  /** At the end of the pass the fields are the pass's result, and the shape is kept. */
  lemma ProgressDone(byteSize: nat, args: seq<Token>, floatEncoder: FloatEncoder, value: nat -> Option<int>,
                     b0: seq<Slot>, p0: seq<nat>, binary: seq<Slot>, done: seq<nat>)
    requires byteSize > 0 && PendingShape(byteSize, args, floatEncoder, b0, p0)
    requires PassProgress(byteSize, value, b0, p0, binary, done, [])
    ensures binary == PassBinary(b0, byteSize, p0, value) && done == PassKept(p0, value)
    ensures PendingShape(byteSize, args, floatEncoder, binary, done)
  {
    assert done + [] == done;
    PassKeepsShape(byteSize, args, floatEncoder, b0, p0, value);
  }

  /** The expression `tryResolveOffsets` evaluates for a pending offset is the one whose value
      the pass uses. */
  lemma PlaceholderValueAt(byteSize: nat, args: seq<Token>, floatEncoder: FloatEncoder, eval: Evaluator,
                           offset: nat)
    requires byteSize > 0 && offset in ArgPlaceholderStarts(byteSize, args, floatEncoder)
    ensures OwnerArg(byteSize, args, floatEncoder, offset) < |args|
    ensures eval(args[OwnerArg(byteSize, args, floatEncoder, offset)].text) == PlaceholderValue(byteSize, args, floatEncoder, eval, offset)
  {
    OwnerOfPlaceholder(byteSize, args, floatEncoder, offset);
  }

  /** One step of a pass over the kept offsets: the first is kept exactly when it has no value. */
  lemma PassKeptStep(offset: nat, rest: seq<nat>, value: nat -> Option<int>)
    ensures PassKept([offset] + rest, value) == (if value(offset).None? then [offset] else []) + PassKept(rest, value)
  {
    assert ([offset] + rest)[1..] == rest;
  }

  /** One step of a pass over the binary: the first pending window is patched or left alone,
      and the rest of the pass starts from there. */
  lemma PassBinaryStep(binary: seq<Slot>, byteSize: nat, offset: nat, rest: seq<nat>, value: nat -> Option<int>)
    requires WindowsInside(binary, byteSize, [offset] + rest)
    ensures offset + byteSize <= |binary| && WindowsInside(binary, byteSize, rest)
    ensures value(offset).None? ==>
      PassBinary(binary, byteSize, [offset] + rest, value) == PassBinary(binary, byteSize, rest, value)
    ensures value(offset).Some? ==>
      var next := Patch(binary, offset, NumberBytes(byteSize, value(offset).value));
      WindowsInside(next, byteSize, rest)
      && PassBinary(binary, byteSize, [offset] + rest, value) == PassBinary(next, byteSize, rest, value)
  {
    assert ([offset] + rest)[1..] == rest;
    assert ([offset] + rest)[0] == offset;
    forall k | 0 <= k < |rest|
      ensures rest[k] + byteSize <= |binary|
    {
      assert rest[k] == ([offset] + rest)[k + 1];
    }
  }

  /** A pass leaves nothing pending exactly when every pending expression evaluates. */
  lemma KeptEmptyIffAllKnown(pending: seq<nat>, value: nat -> Option<int>)
    ensures PassKept(pending, value) == [] <==> forall k :: 0 <= k < |pending| ==> value(pending[k]).Some?
  {
    if PassKept(pending, value) != [] {
      PassKeptMembers(pending, value, PassKept(pending, value)[0]);
    }
    forall k | 0 <= k < |pending| && value(pending[k]).None?
      ensures PassKept(pending, value) != []
    {
      PassKeptMembers(pending, value, pending[k]);
    }
  }
}
