/** The second pass over a data definition (`tryResolveOffsets`): each pending placeholder
    offset whose expression now evaluates has its `byteSize` slots overwritten with the
    value's bytes and leaves the pending list; the others stay, in order. The pass is
    specified here on values; the `BinaryDefinition` class runs it in place. */
module OffsetResolution {
  import opened Common
  import opened Tokens
  import opened DefineEncoding

  /** The label resolver together with the RPN evaluator behind it (`safeKeywordResultRPN`):
      the value of an expression text, or nothing while it cannot be evaluated. */
  type Evaluator = string -> Option<int>

  /** Slots `offset .. offset + |bytes| - 1` overwritten with `bytes`, all others kept. */
  function Patch(binary: seq<Slot>, offset: nat, bytes: seq<u8>): (r: seq<Slot>)
    requires offset + |bytes| <= |binary|
    ensures |r| == |binary|
    ensures forall j :: 0 <= j < |binary| ==>
      r[j] == if offset <= j < offset + |bytes| then Some(bytes[j - offset]) else binary[j]
  {
    binary[..offset] + Known(bytes) + binary[offset + |bytes|..]
  }

  /** Every pending offset has its whole window inside the binary. */
  predicate WindowsInside(binary: seq<Slot>, byteSize: nat, pending: seq<nat>)
  {
    forall k :: 0 <= k < |pending| ==> pending[k] + byteSize <= |binary|
  }

  /** The binary one pass leaves: the pending offsets in order, each one whose value is
      known patched with the value's `byteSize` little-endian bytes. */
  function PassBinary(binary: seq<Slot>, byteSize: nat, pending: seq<nat>, value: nat -> Option<int>): (r: seq<Slot>)
    requires WindowsInside(binary, byteSize, pending)
    ensures |r| == |binary|
    decreases |pending|
  {
    if pending == [] then binary
    else
      var o := pending[0];
      var next := match value(o)
        case Some(v) => Patch(binary, o, NumberBytes(byteSize, v))
        case None => binary;
      PassBinary(next, byteSize, pending[1..], value)
  }

  /** The offsets one pass leaves pending: those whose value is not known, in order. */
  function PassKept(pending: seq<nat>, value: nat -> Option<int>): seq<nat>
  {
    if pending == [] then []
    else (if value(pending[0]).None? then [pending[0]] else []) + PassKept(pending[1..], value)
  }

  /** An offset stays pending exactly when it was pending and its value is not known. */
  lemma {:induction false} PassKeptMembers(pending: seq<nat>, value: nat -> Option<int>, x: nat)
    ensures x in PassKept(pending, value) <==> x in pending && value(x).None?
  {
    if pending != [] {
      PassKeptMembers(pending[1..], value, x);
      assert pending == [pending[0]] + pending[1..];
    }
  }

  /** The offsets left pending keep their order and spacing. */
  lemma {:induction false} PassKeptSpaced(pending: seq<nat>, byteSize: nat, value: nat -> Option<int>)
    requires Spaced(pending, byteSize)
    ensures Spaced(PassKept(pending, value), byteSize)
    ensures |PassKept(pending, value)| <= |pending|
  {
    if pending != [] {
      var rest := PassKept(pending[1..], value);
      PassKeptSpaced(pending[1..], byteSize, value);
      if value(pending[0]).None? {
        forall j | 0 <= j < |rest|
          ensures pending[0] + byteSize <= rest[j]
        {
          PassKeptMembers(pending[1..], value, rest[j]);
          var t :| 0 <= t < |pending[1..]| && pending[1..][t] == rest[j];
          assert pending[t + 1] == rest[j];
        }
      }
    }
  }

  /** Every slot in the window of an offset whose value is known ends up holding the value's
      bytes. */
  lemma {:induction false} PassBinaryInWindow(binary: seq<Slot>, byteSize: nat, pending: seq<nat>,
                                              value: nat -> Option<int>, k: nat, j: nat)
    requires WindowsInside(binary, byteSize, pending) && Spaced(pending, byteSize)
    requires k < |pending| && value(pending[k]).Some? && pending[k] <= j < pending[k] + byteSize
    ensures PassBinary(binary, byteSize, pending, value)[j]
         == Some(NumberBytes(byteSize, value(pending[k]).value)[j - pending[k]])
    decreases |pending|
  {
    var o := pending[0];
    var next := match value(o)
      case Some(v) => Patch(binary, o, NumberBytes(byteSize, v))
      case None => binary;
    assert WindowsInside(next, byteSize, pending[1..]);
    if k == 0 {
      PassBinaryOutside(next, byteSize, pending[1..], value, j);
    } else {
      PassBinaryInWindow(next, byteSize, pending[1..], value, k - 1, j);
    }
  }

  /** A slot outside every window whose value is known keeps its content. */
  lemma {:induction false} PassBinaryOutside(binary: seq<Slot>, byteSize: nat, pending: seq<nat>,
                                             value: nat -> Option<int>, j: nat)
    requires WindowsInside(binary, byteSize, pending) && j < |binary|
    requires forall k :: 0 <= k < |pending| && value(pending[k]).Some? ==> !(pending[k] <= j < pending[k] + byteSize)
    ensures PassBinary(binary, byteSize, pending, value)[j] == binary[j]
    decreases |pending|
  {
    if pending != [] {
      var o := pending[0];
      var next := match value(o)
        case Some(v) => Patch(binary, o, NumberBytes(byteSize, v))
        case None => binary;
      assert WindowsInside(next, byteSize, pending[1..]);
      assert next[j] == binary[j];
      forall k | 0 <= k < |pending[1..]| && value(pending[1..][k]).Some?
        ensures !(pending[1..][k] <= j < pending[1..][k] + byteSize)
      {
        assert pending[1..][k] == pending[k + 1];
      }
      PassBinaryOutside(next, byteSize, pending[1..], value, j);
    }
  }

  /** A pass over offsets none of whose values are known changes nothing. */
  lemma {:induction false} PassOverUnknown(binary: seq<Slot>, byteSize: nat, pending: seq<nat>, value: nat -> Option<int>)
    requires WindowsInside(binary, byteSize, pending)
    requires forall k :: 0 <= k < |pending| ==> value(pending[k]).None?
    ensures PassBinary(binary, byteSize, pending, value) == binary
    ensures PassKept(pending, value) == pending
    decreases |pending|
  {
    if pending != [] {
      assert value(pending[0]).None?;
      assert WindowsInside(binary, byteSize, pending[1..]);
      forall k | 0 <= k < |pending[1..]|
        ensures value(pending[1..][k]).None?
      {
        assert pending[1..][k] == pending[k + 1];
      }
      PassOverUnknown(binary, byteSize, pending[1..], value);
      assert pending == [pending[0]] + pending[1..];
    }
  }

  /** A second pass with the same values resolves nothing more: the binary and the pending
      list stay as the first pass left them. */
  lemma PassIdempotent(binary: seq<Slot>, byteSize: nat, pending: seq<nat>, value: nat -> Option<int>)
    requires WindowsInside(binary, byteSize, pending)
    ensures var b1, p1 := PassBinary(binary, byteSize, pending, value), PassKept(pending, value);
      && WindowsInside(b1, byteSize, p1)
      && PassBinary(b1, byteSize, p1, value) == b1
      && PassKept(p1, value) == p1
  {
    var b1, p1 := PassBinary(binary, byteSize, pending, value), PassKept(pending, value);
    forall k | 0 <= k < |p1|
      ensures p1[k] + byteSize <= |b1| && value(p1[k]).None?
    {
      PassKeptMembers(pending, value, p1[k]);
    }
    PassOverUnknown(b1, byteSize, p1, value);
  }

  /** What `hasUnresolvedDefinitions` and the slots of the binary agree on, and what the
      owner lookup needs: the pending offsets are starts of label and bracket arguments,
      their windows fit in the binary, are disjoint and still hold placeholders, and every
      placeholder slot lies in the window of a pending offset. */
  predicate PendingShape(byteSize: nat, args: seq<Token>, floatEncoder: FloatEncoder,
                         binary: seq<Slot>, pending: seq<nat>)
    requires byteSize > 0
  {
    && (forall k :: 0 <= k < |pending| ==> pending[k] in ArgPlaceholderStarts(byteSize, args, floatEncoder))
    && WindowsInside(binary, byteSize, pending)
    && Spaced(pending, byteSize)
    && (forall k, j :: 0 <= k < |pending| && pending[k] <= j < pending[k] + byteSize && j < |binary| ==> binary[j] == None)
    && (forall j :: 0 <= j < |binary| && binary[j] == None ==> InSomeWindow(pending, byteSize, j))
  }

  predicate InSomeWindow(pending: seq<nat>, byteSize: nat, j: nat)
  {
    exists k :: 0 <= k < |pending| && pending[k] <= j < pending[k] + byteSize
  }

  /** In that shape, offsets are pending exactly when the binary still holds a placeholder. */
  lemma PendingIffPlaceholder(byteSize: nat, args: seq<Token>, floatEncoder: FloatEncoder,
                              binary: seq<Slot>, pending: seq<nat>)
    requires byteSize > 0 && PendingShape(byteSize, args, floatEncoder, binary, pending)
    ensures |pending| > 0 <==> exists j :: 0 <= j < |binary| && binary[j] == None
  {
    if |pending| > 0 {
      assert binary[pending[0]] == None;
    }
  }

  /** A freshly compiled definition is in that shape, with the placeholder starts pending. */
  lemma CompiledShape(byteSize: nat, args: seq<Token>, floatEncoder: FloatEncoder)
    requires byteSize > 0
    requires forall k :: 0 <= k < |args| ==> Encodable(byteSize, args[k])
    ensures PendingShape(byteSize, args, floatEncoder, Concat(byteSize, args, floatEncoder),
                         ArgPlaceholderStarts(byteSize, args, floatEncoder))
  {
    var b := Concat(byteSize, args, floatEncoder);
    var starts := ArgPlaceholderStarts(byteSize, args, floatEncoder);
    ScanOfCompiled(byteSize, args, floatEncoder);
    ScanHits(b, byteSize, 0);
    forall k | 0 <= k < |starts|
      ensures starts[k] + byteSize <= |b|
      ensures forall j :: starts[k] <= j < starts[k] + byteSize ==> b[j] == None
    {
      PlaceholderWindow(byteSize, args, floatEncoder, starts[k]);
    }
    forall j | 0 <= j < |b| && b[j] == None
      ensures InSomeWindow(starts, byteSize, j)
    {
      ScanCoversNulls(b, byteSize, 0, j);
    }
  }

  /** The window of a placeholder start lies in the compiled binary and holds placeholders. */
  lemma PlaceholderWindow(byteSize: nat, args: seq<Token>, floatEncoder: FloatEncoder, o: nat)
    requires byteSize > 0 && o in ArgPlaceholderStarts(byteSize, args, floatEncoder)
    ensures var b := Concat(byteSize, args, floatEncoder);
      o + byteSize <= |b| && forall j :: o <= j < o + byteSize ==> b[j] == None
  {
    OwnerOfPlaceholder(byteSize, args, floatEncoder, o);
    var m := OwnerArg(byteSize, args, floatEncoder, o);
    var parts := Encodings(byteSize, args, floatEncoder);
    PartSpan(parts, m);
    EncodePlaceholder(byteSize, args[m], floatEncoder);
    var b := Concat(byteSize, args, floatEncoder);
    forall j | o <= j < o + byteSize
      ensures b[j] == None
    {
      assert b[j] == b[o..o + byteSize][j - o];
    }
  }

  /** A pass keeps that shape. */
  lemma PassKeepsShape(byteSize: nat, args: seq<Token>, floatEncoder: FloatEncoder,
                       binary: seq<Slot>, pending: seq<nat>, value: nat -> Option<int>)
    requires byteSize > 0 && PendingShape(byteSize, args, floatEncoder, binary, pending)
    ensures PendingShape(byteSize, args, floatEncoder, PassBinary(binary, byteSize, pending, value), PassKept(pending, value))
  {
    PassKeptSpaced(pending, byteSize, value);
    KeptAreStarts(byteSize, args, floatEncoder, binary, pending, value);
    KeptWindowsHold(byteSize, args, floatEncoder, binary, pending, value);
    KeptWindowsCover(byteSize, args, floatEncoder, binary, pending, value);
  }

  lemma KeptAreStarts(byteSize: nat, args: seq<Token>, floatEncoder: FloatEncoder,
                      binary: seq<Slot>, pending: seq<nat>, value: nat -> Option<int>)
    requires byteSize > 0 && PendingShape(byteSize, args, floatEncoder, binary, pending)
    ensures var p1 := PassKept(pending, value);
      forall k :: 0 <= k < |p1| ==> p1[k] in ArgPlaceholderStarts(byteSize, args, floatEncoder)
    ensures WindowsInside(PassBinary(binary, byteSize, pending, value), byteSize, PassKept(pending, value))
  {
    var p1 := PassKept(pending, value);
    forall k | 0 <= k < |p1|
      ensures p1[k] in ArgPlaceholderStarts(byteSize, args, floatEncoder)
      ensures p1[k] + byteSize <= |binary|
    {
      PassKeptMembers(pending, value, p1[k]);
    }
  }

  lemma KeptWindowsHold(byteSize: nat, args: seq<Token>, floatEncoder: FloatEncoder,
                        binary: seq<Slot>, pending: seq<nat>, value: nat -> Option<int>)
    requires byteSize > 0 && PendingShape(byteSize, args, floatEncoder, binary, pending)
    ensures var b1, p1 := PassBinary(binary, byteSize, pending, value), PassKept(pending, value);
      forall k, j :: 0 <= k < |p1| && p1[k] <= j < p1[k] + byteSize && j < |b1| ==> b1[j] == None
  {
    var b1, p1 := PassBinary(binary, byteSize, pending, value), PassKept(pending, value);
    forall k, j | 0 <= k < |p1| && p1[k] <= j < p1[k] + byteSize && j < |b1|
      ensures b1[j] == None
    {
      KeptWindowUntouched(binary, byteSize, pending, value, p1[k], j);
      PassKeptMembers(pending, value, p1[k]);
    }
  }

  lemma KeptWindowsCover(byteSize: nat, args: seq<Token>, floatEncoder: FloatEncoder,
                         binary: seq<Slot>, pending: seq<nat>, value: nat -> Option<int>)
    requires byteSize > 0 && PendingShape(byteSize, args, floatEncoder, binary, pending)
    ensures var b1, p1 := PassBinary(binary, byteSize, pending, value), PassKept(pending, value);
      forall j :: 0 <= j < |b1| && b1[j] == None ==> InSomeWindow(p1, byteSize, j)
  {
    var b1 := PassBinary(binary, byteSize, pending, value);
    forall j | 0 <= j < |b1| && b1[j] == None
      ensures InSomeWindow(PassKept(pending, value), byteSize, j)
    {
      PlaceholderStaysInKeptWindow(byteSize, args, floatEncoder, binary, pending, value, j);
    }
  }

  /** A slot in the window of an offset that stays pending is not touched by the pass. */
  lemma KeptWindowUntouched(binary: seq<Slot>, byteSize: nat, pending: seq<nat>, value: nat -> Option<int>, o: nat, j: nat)
    requires WindowsInside(binary, byteSize, pending) && Spaced(pending, byteSize)
    requires o in PassKept(pending, value) && o <= j < o + byteSize && j < |binary|
    ensures PassBinary(binary, byteSize, pending, value)[j] == binary[j]
  {
    PassKeptMembers(pending, value, o);
    var t :| 0 <= t < |pending| && pending[t] == o;
    forall k | 0 <= k < |pending| && value(pending[k]).Some?
      ensures !(pending[k] <= j < pending[k] + byteSize)
    {
      assert k != t;
    }
    PassBinaryOutside(binary, byteSize, pending, value, j);
  }

  lemma PlaceholderStaysInKeptWindow(byteSize: nat, args: seq<Token>, floatEncoder: FloatEncoder,
                                     binary: seq<Slot>, pending: seq<nat>, value: nat -> Option<int>, j: nat)
    requires byteSize > 0 && PendingShape(byteSize, args, floatEncoder, binary, pending)
    requires j < |binary| && PassBinary(binary, byteSize, pending, value)[j] == None
    ensures InSomeWindow(PassKept(pending, value), byteSize, j)
  {
    if k :| 0 <= k < |pending| && value(pending[k]).Some? && pending[k] <= j < pending[k] + byteSize {
      PassBinaryInWindow(binary, byteSize, pending, value, k, j);
    } else {
      PassBinaryOutside(binary, byteSize, pending, value, j);
      var k :| 0 <= k < |pending| && pending[k] <= j < pending[k] + byteSize;
      PassKeptMembers(pending, value, pending[k]);
      var t :| 0 <= t < |PassKept(pending, value)| && PassKept(pending, value)[t] == pending[k];
    }
  }

  /** The expression that fills the placeholder at `offset`: the text of the argument whose
      encoding starts there, found by walking the encoded lengths. */
  function ExpressionAt(byteSize: nat, args: seq<Token>, floatEncoder: FloatEncoder, offset: nat): (r: string)
    requires byteSize > 0 && offset in ArgPlaceholderStarts(byteSize, args, floatEncoder)
    ensures exists m :: 0 <= m < |args| && IsPlaceholderToken(args[m]) && ArgStart(byteSize, args, floatEncoder, m) == offset && r == args[m].text
  {
    OwnerOfPlaceholder(byteSize, args, floatEncoder, offset);
    args[OwnerArg(byteSize, args, floatEncoder, offset)].text
  }

  /** The value a pass gives the placeholder at `offset`; nothing for an offset that is not a
      placeholder start, which a pending list in `PendingShape` never holds. */
  function PlaceholderValue(byteSize: nat, args: seq<Token>, floatEncoder: FloatEncoder, eval: Evaluator, offset: nat): Option<int>
    requires byteSize > 0
  {
    if offset in ArgPlaceholderStarts(byteSize, args, floatEncoder) then eval(ExpressionAt(byteSize, args, floatEncoder, offset))
    else None
  }

  /** `(offset / byteSize) | 0`, the argument index `tryResolveOffsets` uses as written. */
  function ArgIndexAsWritten(offset: nat, byteSize: nat): nat
    requires byteSize > 0
  {
    offset / byteSize
  }

  /** `args[argIndex].text` as written: nothing where the index is past the last argument
      (reading `.text` of `undefined` throws a `TypeError` there). */
  function ExpressionAtAsWritten(byteSize: nat, args: seq<Token>, offset: nat): Option<string>
    requires byteSize > 0
  {
    var k := ArgIndexAsWritten(offset, byteSize);
    if k < |args| then Some(args[k].text) else None
  }

  /** `dw "ABC", foo, bar`: the string takes four bytes, so the placeholders of `foo` and `bar`
      start at 4 and 6. Dividing by the element size picks `bar` for offset 4 and runs past
      the arguments for offset 6; walking the encoded lengths picks `foo` and `bar`. */
  lemma AsWrittenIndexMissesArgument()
    ensures var args := [Token(Quote, NoKind, "ABC", 0), KeywordToken("foo"), KeywordToken("bar")];
      var fe: FloatEncoder := (n, t) => [];
      && ArgPlaceholderStarts(2, args, fe) == [4, 6]
      && ExpressionAtAsWritten(2, args, 4) == Some("bar")
      && ExpressionAt(2, args, fe, 4) == "foo"
      && ExpressionAtAsWritten(2, args, 6) == None
      && ExpressionAt(2, args, fe, 6) == "bar"
  {
    var args := [Token(Quote, NoKind, "ABC", 0), KeywordToken("foo"), KeywordToken("bar")];
    var fe: FloatEncoder := (n, t) => [];
    var parts := Encodings(2, args, fe);
    EncodeQuote(2, args[0], fe);
    EncodePlaceholder(2, args[1], fe);
    EncodePlaceholder(2, args[2], fe);
    assert |parts[0]| == 4 && |parts[1]| == 2 && |parts[2]| == 2;
    assert parts[..0] == [] && parts[..1] == [parts[0]];
    assert parts[..2] == [parts[0], parts[1]] && parts[..3] == parts;
    assert PartStart(parts, 1) == 4 by {
      assert Flatten(parts[..1]) == Flatten([]) + parts[0];
    }
    assert PartStart(parts, 2) == 6 by {
      assert Flatten(parts[..2]) == Flatten(parts[..1]) + parts[1];
    }
    assert PartStart(parts, 3) == 8 by {
      assert Flatten(parts[..3]) == Flatten(parts[..2]) + parts[2];
    }
    assert ArgPlaceholderStarts(2, args, fe) == [4, 6] by {
      assert PlaceholderStartsFrom(2, args, fe, 3) == [];
      assert PlaceholderStartsFrom(2, args, fe, 2) == [6];
      assert PlaceholderStartsFrom(2, args, fe, 1) == [4, 6];
      assert !IsPlaceholderToken(args[0]);
    }
    OwnerFinds(parts, 4, 0, 1);
    OwnerFinds(parts, 6, 0, 2);
  }

  /** When every argument takes exactly `byteSize` slots (numbers, labels, brackets and
      strings of at most `byteSize` characters), the walk and the division agree. */
  lemma OwnerIsDivisionWhenUniform(byteSize: nat, args: seq<Token>, floatEncoder: FloatEncoder, offset: nat)
    requires byteSize > 0
    requires forall k :: 0 <= k < |args| ==> |EncodedSlots(byteSize, args[k], floatEncoder)| == byteSize
    requires offset < |Concat(byteSize, args, floatEncoder)|
    ensures OwnerArg(byteSize, args, floatEncoder, offset) == ArgIndexAsWritten(offset, byteSize)
  {
    var parts := Encodings(byteSize, args, floatEncoder);
    forall k | 0 <= k <= |parts|
      ensures PartStart(parts, k) == k * byteSize
    {
      UniformStart(parts, byteSize, k);
    }
    PartStartBounds(parts, 0, |parts|);
    UniformOwner(parts, byteSize, offset, 0);
  }

  lemma {:induction false} UniformStart(parts: seq<seq<Slot>>, byteSize: nat, k: nat)
    requires k <= |parts| && forall i :: 0 <= i < |parts| ==> |parts[i]| == byteSize
    ensures PartStart(parts, k) == k * byteSize
  {
    if k > 0 {
      UniformStart(parts, byteSize, k - 1);
      assert parts[..k][..k - 1] == parts[..k - 1];
    }
  }

  lemma {:induction false} UniformOwner(parts: seq<seq<Slot>>, byteSize: nat, offset: nat, k: nat)
    requires byteSize > 0 && k <= |parts|
    requires forall i :: 0 <= i <= |parts| ==> PartStart(parts, i) == i * byteSize
    requires k * byteSize <= offset < |parts| * byteSize
    ensures OwnerPartFrom(parts, offset, k) == offset / byteSize
    decreases |parts| - k
  {
    assert PartStart(parts, k + 1) == (k + 1) * byteSize;
    if offset < (k + 1) * byteSize {
      DivModUnique(offset, byteSize, k, offset - k * byteSize);
    } else {
      UniformOwner(parts, byteSize, offset, k + 1);
    }
  }
}
