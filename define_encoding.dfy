/** Encoding of the arguments of a data definition (`db`, `dw`, `dd`, `dq`, `dt`) into byte
    slots, and the layout facts the offset resolver relies on: where each argument's bytes
    start and which slots are placeholders for not-yet-known labels. */
module DefineEncoding {
  import opened Common
  import opened Tokens

  /** One slot of a compiled definition: a byte, or `null` while its expression waits for a label. */
  type Slot = Option<u8>

  datatype DefineError =
    | UnsupportedDefineToken(token: string)
    | IncorrectFloatSize(number: string)

  /** The IEEE-754 encoder family (`toIEEE754Single`, `toIEEE754Double`, `toIEEE754Extended`),
      keyed by byte width and returning the most significant byte first. Floating point is not
      modelled: the encoder is a parameter. */
  type FloatEncoder = (nat, Token) -> seq<u8>

  /** `FLOAT_DEFINE_ENCODERS` has an entry for `dd`, `dq` and `dt`: widths 4, 8 and 10. */
  predicate HasFloatEncoder(byteSize: nat)
  {
    byteSize == 4 || byteSize == 8 || byteSize == 10
  }

  /** Tokens that stand for an expression to be resolved later: a label or a bracketed expression. */
  predicate IsPlaceholderToken(token: Token)
  {
    token.ttype == Bracket || token.ttype == Keyword
  }

  /** Tokens `encodeDefineToken` accepts at element size `byteSize`. */
  predicate Encodable(byteSize: nat, token: Token)
  {
    || token.ttype == Number
    || token.ttype == Quote
    || IsPlaceholderToken(token)
    || (token.ttype == FloatNumber && HasFloatEncoder(byteSize))
  }

  function Pow256(k: nat): (r: nat)
    ensures r > 0
  {
    if k == 0 then 1 else 256 * Pow256(k - 1)
  }

  /** `extractMultipleNumberBytes(byteSize, n)`: the low `byteSize` bytes of `n`, least
      significant first (two's complement for negative `n`); higher bytes are dropped. */
  function NumberBytes(byteSize: nat, n: int): (r: seq<u8>)
    ensures |r| == byteSize
  {
    if byteSize == 0 then [] else [n % 256] + NumberBytes(byteSize - 1, n / 256)
  }

  /** The number that little-endian bytes denote. */
  function LittleEndianValue(bytes: seq<u8>): nat
  {
    if bytes == [] then 0 else bytes[0] + 256 * LittleEndianValue(bytes[1..])
  }

  /** What the truncation to `byteSize` bytes drops: the number shifted right by `8 * byteSize`. */
  function HighPart(byteSize: nat, n: int): int
  {
    if byteSize == 0 then n else HighPart(byteSize - 1, n / 256)
  }

  lemma {:induction false} NumberBytesSplit(byteSize: nat, n: int)
    ensures 0 <= LittleEndianValue(NumberBytes(byteSize, n)) < Pow256(byteSize)
    ensures n == LittleEndianValue(NumberBytes(byteSize, n)) + Pow256(byteSize) * HighPart(byteSize, n)
  {
    if byteSize > 0 {
      var bytes := NumberBytes(byteSize, n);
      var rest, p, h := NumberBytes(byteSize - 1, n / 256), Pow256(byteSize - 1), HighPart(byteSize - 1, n / 256);
      NumberBytesSplit(byteSize - 1, n / 256);
      assert bytes[1..] == rest;
      assert n / 256 == LittleEndianValue(rest) + p * h;
      assert 256 * (p * h) == (256 * p) * h;
    }
  }

  /** Round trip of the number encoding: the bytes denote `n` modulo `256^byteSize`, which
      is what the truncation to `byteSize` bytes keeps of it. */
  lemma NumberBytesRoundTrip(byteSize: nat, n: int)
    ensures LittleEndianValue(NumberBytes(byteSize, n)) == n % Pow256(byteSize)
  {
    NumberBytesSplit(byteSize, n);
    DivModUnique(n, Pow256(byteSize), HighPart(byteSize, n), LittleEndianValue(NumberBytes(byteSize, n)));
  }

  /** `extractBytesFromText(1, text)`: one byte per character (its code modulo 256). */
  function TextBytes(text: string): (r: seq<u8>)
    ensures |r| == |text|
  {
    seq(|text|, k requires 0 <= k < |text| => (text[k] as int) % 256)
  }

  /** `Math.ceil(len / size) * size` */
  function RoundUpToMultiple(len: nat, size: nat): nat
    requires size > 0
  {
    ((len + size - 1) / size) * size
  }

  lemma RoundUpBounds(len: nat, size: nat)
    requires size > 0
    ensures RoundUpToMultiple(len, size) % size == 0
    ensures len <= RoundUpToMultiple(len, size) < len + size
    ensures len % size == 0 ==> RoundUpToMultiple(len, size) == len
  {
    var q := (len + size - 1) / size;
    var r := (len + size - 1) % size;
    assert len + size - 1 == q * size + r;
    DivModUnique(q * size, size, q, 0);
    if len % size == 0 {
      var q0 := len / size;
      assert len + size - 1 == q0 * size + (size - 1);
      DivModUnique(len + size - 1, size, q0, size - 1);
    }
  }

  function Known(bytes: seq<u8>): (r: seq<Slot>)
    ensures |r| == |bytes|
    ensures forall k :: 0 <= k < |bytes| ==> r[k] == Some(bytes[k])
  {
    seq(|bytes|, k requires 0 <= k < |bytes| => Some(bytes[k]))
  }

  /** `new Array(n).fill(null)` */
  function Placeholders(n: nat): (r: seq<Slot>)
    ensures |r| == n && forall k :: 0 <= k < n ==> r[k] == None
  {
    seq(n, _ => None)
  }

  /** `new Array(n).fill(0)` */
  function Zeros(n: nat): (r: seq<Slot>)
    ensures |r| == n && forall k :: 0 <= k < n ==> r[k] == Some(0)
  {
    seq(n, _ => Some(0))
  }

  function Reverse<T>(s: seq<T>): (r: seq<T>)
    ensures |r| == |s|
  {
    if s == [] then [] else Reverse(s[1..]) + [s[0]]
  }

  predicate AllKnown(s: seq<Slot>)
  {
    forall k :: 0 <= k < |s| ==> s[k].Some?
  }

  function KnownBytes(s: seq<Slot>): (r: seq<u8>)
    requires AllKnown(s)
    ensures |r| == |s|
  {
    seq(|s|, k requires 0 <= k < |s| => s[k].value)
  }

  /** `encodeDefineToken(byteSize, token)`: the slots one argument of a definition occupies,
      or the error it throws. */
  function EncodeDefineToken(byteSize: nat, token: Token, floatEncoder: FloatEncoder): (r: Result<seq<Slot>, DefineError>)
    requires byteSize > 0
    ensures r.Success? <==> Encodable(byteSize, token)
  {
    match token.ttype
    case FloatNumber =>
      if !HasFloatEncoder(byteSize) then Failure(IncorrectFloatSize(token.text))
      else Success(Known(Reverse(floatEncoder(byteSize, token))))
    case Number => Success(Known(NumberBytes(byteSize, token.number)))
    case Quote =>
      var binText := TextBytes(token.text);
      Success(Known(binText) + Zeros(RoundUpToMultiple(|binText|, byteSize) - |binText|))
    case Bracket => Success(Placeholders(byteSize))
    case Keyword => Success(Placeholders(byteSize))
    case _ => Failure(UnsupportedDefineToken(token.text))
  }

  /** The two errors: a float at a width without an IEEE-754 encoder, and any other token
      type that is neither a number, a string, a label nor a bracketed expression. */
  lemma EncodeDefineTokenErrors(byteSize: nat, token: Token, floatEncoder: FloatEncoder)
    requires byteSize > 0
    ensures token.ttype == FloatNumber && !HasFloatEncoder(byteSize) ==>
      EncodeDefineToken(byteSize, token, floatEncoder) == Failure(IncorrectFloatSize(token.text))
    ensures !Encodable(byteSize, token) && token.ttype != FloatNumber ==>
      EncodeDefineToken(byteSize, token, floatEncoder) == Failure(UnsupportedDefineToken(token.text))
  {
  }

  /** A number: exactly `byteSize` known bytes that denote it modulo 256^byteSize. */
  lemma EncodeNumber(byteSize: nat, token: Token, floatEncoder: FloatEncoder)
    requires byteSize > 0 && token.ttype == Number
    ensures var r := EncodeDefineToken(byteSize, token, floatEncoder).value;
      && |r| == byteSize && AllKnown(r)
      && LittleEndianValue(KnownBytes(r)) == token.number % Pow256(byteSize)
  {
    var bytes := NumberBytes(byteSize, token.number);
    NumberBytesRoundTrip(byteSize, token.number);
    assert KnownBytes(Known(bytes)) == bytes;
  }

  /** A string: one byte per character, then zeros up to the next multiple of `byteSize`. */
  lemma EncodeQuote(byteSize: nat, token: Token, floatEncoder: FloatEncoder)
    requires byteSize > 0 && token.ttype == Quote
    ensures var r := EncodeDefineToken(byteSize, token, floatEncoder).value;
      && |r| % byteSize == 0
      && |token.text| <= |r| < |token.text| + byteSize
      && (|token.text| % byteSize == 0 ==> |r| == |token.text|)
      && r[..|token.text|] == Known(TextBytes(token.text))
      && (forall k :: |token.text| <= k < |r| ==> r[k] == Some(0))
      && AllKnown(r)
  {
    var binText := TextBytes(token.text);
    RoundUpBounds(|binText|, byteSize);
    var r := EncodeDefineToken(byteSize, token, floatEncoder).value;
    assert r[..|token.text|] == Known(binText);
  }

  /** A label or bracketed expression: `byteSize` placeholders. */
  lemma EncodePlaceholder(byteSize: nat, token: Token, floatEncoder: FloatEncoder)
    requires byteSize > 0 && IsPlaceholderToken(token)
    ensures var r := EncodeDefineToken(byteSize, token, floatEncoder).value;
      |r| == byteSize && forall k :: 0 <= k < byteSize ==> r[k] == None
  {
  }

  /** A float of a supported width: the encoder's bytes, least significant first. */
  lemma EncodeFloat(byteSize: nat, token: Token, floatEncoder: FloatEncoder)
    requires byteSize > 0 && token.ttype == FloatNumber && HasFloatEncoder(byteSize)
    ensures EncodeDefineToken(byteSize, token, floatEncoder).value == Known(Reverse(floatEncoder(byteSize, token)))
  {
  }

  /** The slots of one argument, or nothing for an argument that does not encode. */
  function EncodedSlots(byteSize: nat, token: Token, floatEncoder: FloatEncoder): seq<Slot>
    requires byteSize > 0
  {
    match EncodeDefineToken(byteSize, token, floatEncoder)
    case Success(slots) => slots
    case Failure(_) => []
  }

  /** The per-argument encodings, in argument order. */
  function Encodings(byteSize: nat, args: seq<Token>, floatEncoder: FloatEncoder): (r: seq<seq<Slot>>)
    requires byteSize > 0
    ensures |r| == |args|
    ensures forall k :: 0 <= k < |args| ==> r[k] == EncodedSlots(byteSize, args[k], floatEncoder)
  {
    seq(|args|, k requires 0 <= k < |args| => EncodedSlots(byteSize, args[k], floatEncoder))
  }

  /** Slot runs laid end to end. */
  function Flatten(parts: seq<seq<Slot>>): seq<Slot>
  {
    if parts == [] then [] else Flatten(parts[..|parts| - 1]) + parts[|parts| - 1]
  }

  /** The per-argument encodings laid end to end, in argument order. */
  function Concat(byteSize: nat, args: seq<Token>, floatEncoder: FloatEncoder): seq<Slot>
    requires byteSize > 0
  {
    Flatten(Encodings(byteSize, args, floatEncoder))
  }

  lemma ConcatSnoc(byteSize: nat, args: seq<Token>, floatEncoder: FloatEncoder)
    requires byteSize > 0 && |args| > 0
    ensures Concat(byteSize, args, floatEncoder)
         == Concat(byteSize, args[..|args| - 1], floatEncoder) + EncodedSlots(byteSize, args[|args| - 1], floatEncoder)
  {
    var parts := Encodings(byteSize, args, floatEncoder);
    assert parts[..|parts| - 1] == Encodings(byteSize, args[..|args| - 1], floatEncoder);
  }

  /** What `compile` produces from the arguments of a definition: their concatenated
      encodings, or the error of the first argument that cannot be encoded. */
  function CompileArgs(byteSize: nat, args: seq<Token>, floatEncoder: FloatEncoder): Result<seq<Slot>, DefineError>
    requires byteSize > 0
  {
    if args == [] then Success([])
    else
      match CompileArgs(byteSize, args[..|args| - 1], floatEncoder)
      case Failure(e) => Failure(e)
      case Success(prefix) =>
        match EncodeDefineToken(byteSize, args[|args| - 1], floatEncoder)
        case Failure(e) => Failure(e)
        case Success(slots) => Success(prefix + slots)
  }

  /** `compile` succeeds exactly when every argument encodes, and then yields the
      concatenation of the encodings; otherwise it reports the first failing argument's error. */
  lemma {:induction false} CompileArgsOutcome(byteSize: nat, args: seq<Token>, floatEncoder: FloatEncoder)
    requires byteSize > 0
    ensures var r := CompileArgs(byteSize, args, floatEncoder);
      && (r.Success? <==> forall k :: 0 <= k < |args| ==> Encodable(byteSize, args[k]))
      && (r.Success? ==> r.value == Concat(byteSize, args, floatEncoder))
      && (r.Failure? ==> exists k :: FirstFailure(byteSize, args, floatEncoder, k, r.error))
  {
    if args != [] {
      var init := args[..|args| - 1];
      CompileArgsOutcome(byteSize, init, floatEncoder);
      match CompileArgs(byteSize, init, floatEncoder)
      case Failure(e) =>
        var k :| FirstFailure(byteSize, init, floatEncoder, k, e);
        FirstFailureExtends(byteSize, args, floatEncoder, k, e);
      case Success(prefix) =>
        match EncodeDefineToken(byteSize, args[|args| - 1], floatEncoder)
        case Failure(e) =>
          FirstFailureAtLast(byteSize, args, init, floatEncoder, e);
        case Success(slots) =>
          ConcatSnoc(byteSize, args, floatEncoder);
          AllEncodableSnoc(byteSize, args, init);
    }
  }

  lemma AllEncodableSnoc(byteSize: nat, args: seq<Token>, init: seq<Token>)
    requires |args| > 0 && init == args[..|args| - 1]
    requires forall j :: 0 <= j < |init| ==> Encodable(byteSize, init[j])
    requires Encodable(byteSize, args[|args| - 1])
    ensures forall j :: 0 <= j < |args| ==> Encodable(byteSize, args[j])
  {
    forall j | 0 <= j < |args| - 1
      ensures Encodable(byteSize, args[j])
    {
      assert args[j] == init[j];
    }
  }

  lemma FirstFailureExtends(byteSize: nat, args: seq<Token>, floatEncoder: FloatEncoder, k: int, e: DefineError)
    requires byteSize > 0 && |args| > 0
    requires FirstFailure(byteSize, args[..|args| - 1], floatEncoder, k, e)
    ensures FirstFailure(byteSize, args, floatEncoder, k, e)
    ensures !Encodable(byteSize, args[k])
  {
    assert args[k] == args[..|args| - 1][k];
  }

  lemma FirstFailureAtLast(byteSize: nat, args: seq<Token>, init: seq<Token>, floatEncoder: FloatEncoder, e: DefineError)
    requires byteSize > 0 && |args| > 0 && init == args[..|args| - 1]
    requires forall j :: 0 <= j < |init| ==> Encodable(byteSize, init[j])
    requires EncodeDefineToken(byteSize, args[|args| - 1], floatEncoder) == Failure(e)
    ensures FirstFailure(byteSize, args, floatEncoder, |args| - 1, e)
  {
    forall j | 0 <= j < |args| - 1
      ensures Encodable(byteSize, args[j])
    {
      assert args[j] == init[j];
    }
  }

  /** Argument `k` is the first that does not encode, and it fails with `error`. */
  predicate FirstFailure(byteSize: nat, args: seq<Token>, floatEncoder: FloatEncoder, k: int, error: DefineError)
    requires byteSize > 0
  {
    && 0 <= k < |args|
    && (forall j :: 0 <= j < k ==> Encodable(byteSize, args[j]))
    && EncodeDefineToken(byteSize, args[k], floatEncoder) == Failure(error)
  }

  /** Offset of the first slot of part `k` once the parts are laid end to end. */
  function PartStart(parts: seq<seq<Slot>>, k: nat): nat
    requires k <= |parts|
  {
    |Flatten(parts[..k])|
  }

  /** Laying out a prefix of the parts gives a prefix of the whole layout. */
  lemma {:induction false} FlattenPrefix(parts: seq<seq<Slot>>, j: nat)
    requires j <= |parts|
    ensures Flatten(parts[..j]) <= Flatten(parts)
  {
    if j < |parts| {
      var init := parts[..|parts| - 1];
      assert parts[..j] == init[..j];
      FlattenPrefix(init, j);
    } else {
      assert parts[..j] == parts;
    }
  }

  /** Part `k` sits between its start and the next part's start. */
  lemma PartSpan(parts: seq<seq<Slot>>, k: nat)
    requires k < |parts|
    ensures var b, s, e := Flatten(parts), PartStart(parts, k), PartStart(parts, k + 1);
      e == s + |parts[k]| && e <= |b| && b[s..e] == parts[k]
  {
    assert parts[..k + 1][..k] == parts[..k];
    FlattenPrefix(parts, k + 1);
  }

  /** Starts grow with the part index, and the start past the last part is the total length. */
  lemma PartStartBounds(parts: seq<seq<Slot>>, j: nat, k: nat)
    requires j <= k <= |parts|
    ensures PartStart(parts, j) <= PartStart(parts, k)
    ensures PartStart(parts, |parts|) == |Flatten(parts)|
  {
    assert parts[..k][..j] == parts[..j];
    FlattenPrefix(parts[..k], j);
    assert parts[..|parts|] == parts;
  }

  /** Offset of the first slot of argument `k` in the compiled definition. */
  function ArgStart(byteSize: nat, args: seq<Token>, floatEncoder: FloatEncoder, k: nat): nat
    requires byteSize > 0 && k <= |args|
  {
    PartStart(Encodings(byteSize, args, floatEncoder), k)
  }

  /** The scan of `collectUnresolvedOffsets`: from `from`, a `null` slot is recorded and the
      next `byteSize` slots are skipped; any other slot advances by one. */
  function Scan(binary: seq<Slot>, byteSize: nat, from: nat): seq<nat>
    requires byteSize > 0
    decreases |binary| - from
  {
    if from >= |binary| then []
    else if binary[from] == None then [from] + Scan(binary, byteSize, from + byteSize)
    else Scan(binary, byteSize, from + 1)
  }

  /** Every offset in `r` is a `null` slot of `binary` at or after `from`. */
  predicate HitsPlaceholders(r: seq<nat>, binary: seq<Slot>, from: nat)
  {
    forall j :: 0 <= j < |r| ==> from <= r[j] < |binary| && binary[r[j]] == None
  }

  /** The offsets increase with gaps of at least `byteSize`, so their windows are disjoint. */
  predicate Spaced(offsets: seq<nat>, byteSize: nat)
  {
    forall i, j :: 0 <= i < j < |offsets| ==> offsets[i] + byteSize <= offsets[j]
  }

  /** Every recorded offset is a `null` slot inside the binary, and the offsets increase
      with gaps of at least `byteSize`. */
  lemma {:induction false} ScanHits(binary: seq<Slot>, byteSize: nat, from: nat)
    requires byteSize > 0
    ensures HitsPlaceholders(Scan(binary, byteSize, from), binary, from)
    ensures Spaced(Scan(binary, byteSize, from), byteSize)
    decreases |binary| - from
  {
    if from < |binary| {
      if binary[from] == None {
        ScanHits(binary, byteSize, from + byteSize);
        var tail := Scan(binary, byteSize, from + byteSize);
        var r := [from] + tail;
        assert Scan(binary, byteSize, from) == r;
        forall j | 0 < j < |r|
          ensures from + byteSize <= r[j]
        {
          assert r[j] == tail[j - 1];
          assert from + byteSize <= tail[j - 1];
        }
      } else {
        ScanHits(binary, byteSize, from + 1);
        assert Scan(binary, byteSize, from) == Scan(binary, byteSize, from + 1);
      }
    }
  }

  /** Every `null` slot at or after `from` lies in the window `[o, o + byteSize)` of a
      recorded offset `o`: the skipping scan misses no placeholder. */
  lemma {:induction false} ScanCoversNulls(binary: seq<Slot>, byteSize: nat, from: nat, i: nat)
    requires byteSize > 0
    requires from <= i < |binary| && binary[i] == None
    ensures exists o :: o in Scan(binary, byteSize, from) && o <= i < o + byteSize
    decreases |binary| - from
  {
    if binary[from] == None {
      if i >= from + byteSize {
        ScanCoversNulls(binary, byteSize, from + byteSize, i);
        var o :| o in Scan(binary, byteSize, from + byteSize) && o <= i < o + byteSize;
        assert o in Scan(binary, byteSize, from);
      } else {
        assert from in Scan(binary, byteSize, from);
      }
    } else if i == from {
      assert false;
    } else {
      ScanCoversNulls(binary, byteSize, from + 1, i);
      var o :| o in Scan(binary, byteSize, from + 1) && o <= i < o + byteSize;
      assert o in Scan(binary, byteSize, from);
    }
  }

  /** A run of known bytes does not stop the scan. */
  lemma {:induction false} ScanSkipsKnown(binary: seq<Slot>, byteSize: nat, from: nat, n: nat)
    requires byteSize > 0 && from + n <= |binary|
    requires forall t :: from <= t < from + n ==> binary[t].Some?
    ensures Scan(binary, byteSize, from) == Scan(binary, byteSize, from + n)
    decreases n
  {
    if n > 0 {
      ScanSkipsKnown(binary, byteSize, from + 1, n - 1);
    }
  }

  /** The starts of the placeholder arguments from argument `k` on. */
  function PlaceholderStartsFrom(byteSize: nat, args: seq<Token>, floatEncoder: FloatEncoder, k: nat): seq<nat>
    requires byteSize > 0 && k <= |args|
    decreases |args| - k
  {
    if k == |args| then []
    else
      (if IsPlaceholderToken(args[k]) then [ArgStart(byteSize, args, floatEncoder, k)] else [])
      + PlaceholderStartsFrom(byteSize, args, floatEncoder, k + 1)
  }

  /** The offsets at which the placeholder arguments of a definition begin. */
  function ArgPlaceholderStarts(byteSize: nat, args: seq<Token>, floatEncoder: FloatEncoder): seq<nat>
    requires byteSize > 0
  {
    PlaceholderStartsFrom(byteSize, args, floatEncoder, 0)
  }

  /** What one argument contributes to the scan: a label or bracket yields `byteSize`
      placeholders, everything else only known bytes. */
  lemma EncodedSlotsShape(byteSize: nat, token: Token, floatEncoder: FloatEncoder)
    requires byteSize > 0 && Encodable(byteSize, token)
    ensures IsPlaceholderToken(token) ==>
      |EncodedSlots(byteSize, token, floatEncoder)| == byteSize && EncodedSlots(byteSize, token, floatEncoder)[0] == None
    ensures !IsPlaceholderToken(token) ==> AllKnown(EncodedSlots(byteSize, token, floatEncoder))
  {
    match token.ttype
    case Number => EncodeNumber(byteSize, token, floatEncoder);
    case Quote => EncodeQuote(byteSize, token, floatEncoder);
    case FloatNumber =>
    case _ => EncodePlaceholder(byteSize, token, floatEncoder);
  }

  lemma ScanOverKnown(binary: seq<Slot>, byteSize: nat, s: nat, slots: seq<Slot>)
    requires byteSize > 0 && s + |slots| <= |binary| && binary[s..s + |slots|] == slots && AllKnown(slots)
    ensures Scan(binary, byteSize, s) == Scan(binary, byteSize, s + |slots|)
  {
    forall t | s <= t < s + |slots|
      ensures binary[t].Some?
    {
      assert binary[t] == slots[t - s];
    }
    ScanSkipsKnown(binary, byteSize, s, |slots|);
  }

  /** The scan at the start of argument `k` records that start exactly when the argument is
      a placeholder, and then continues at the next argument's start. */
  lemma ScanAtArg(byteSize: nat, args: seq<Token>, floatEncoder: FloatEncoder, k: nat)
    requires byteSize > 0 && k < |args| && Encodable(byteSize, args[k])
    ensures var b := Concat(byteSize, args, floatEncoder);
      Scan(b, byteSize, ArgStart(byteSize, args, floatEncoder, k))
      == (if IsPlaceholderToken(args[k]) then [ArgStart(byteSize, args, floatEncoder, k)] else [])
         + Scan(b, byteSize, ArgStart(byteSize, args, floatEncoder, k + 1))
  {
    var parts := Encodings(byteSize, args, floatEncoder);
    PartSpan(parts, k);
    EncodedSlotsShape(byteSize, args[k], floatEncoder);
    ScanAtSpan(Flatten(parts), byteSize, PartStart(parts, k), PartStart(parts, k + 1), parts[k], IsPlaceholderToken(args[k]));
  }

  /** The scan over the window `[s, e)` holding `slots`: one hit at `s` for a run of
      `byteSize` placeholders, none for known bytes. */
  lemma ScanAtSpan(binary: seq<Slot>, byteSize: nat, s: nat, e: nat, slots: seq<Slot>, placeholder: bool)
    requires byteSize > 0 && e == s + |slots| <= |binary| && binary[s..e] == slots
    requires placeholder ==> |slots| == byteSize && slots[0] == None
    requires !placeholder ==> AllKnown(slots)
    ensures Scan(binary, byteSize, s) == (if placeholder then [s] else []) + Scan(binary, byteSize, e)
  {
    if placeholder {
      ScanAtPlaceholder(binary, byteSize, s, slots);
    } else {
      ScanOverKnown(binary, byteSize, s, slots);
    }
  }

  lemma ScanAtPlaceholder(binary: seq<Slot>, byteSize: nat, s: nat, slots: seq<Slot>)
    requires byteSize > 0 && s + |slots| <= |binary| && binary[s..s + |slots|] == slots
    requires |slots| == byteSize && slots[0] == None
    ensures Scan(binary, byteSize, s) == [s] + Scan(binary, byteSize, s + |slots|)
  {
    assert binary[s] == slots[0];
  }

  lemma {:induction false} ScanFromArg(byteSize: nat, args: seq<Token>, floatEncoder: FloatEncoder, k: nat)
    requires byteSize > 0 && k <= |args|
    requires forall j :: 0 <= j < |args| ==> Encodable(byteSize, args[j])
    ensures Scan(Concat(byteSize, args, floatEncoder), byteSize, ArgStart(byteSize, args, floatEncoder, k))
         == PlaceholderStartsFrom(byteSize, args, floatEncoder, k)
    decreases |args| - k
  {
    if k < |args| {
      ScanFromArg(byteSize, args, floatEncoder, k + 1);
      ScanAtArg(byteSize, args, floatEncoder, k);
    } else {
      PartStartBounds(Encodings(byteSize, args, floatEncoder), k, |args|);
    }
  }

  /** The offsets `collectUnresolvedOffsets` finds in a compiled definition are exactly the
      starts of its label and bracket arguments, in argument order. */
  lemma ScanOfCompiled(byteSize: nat, args: seq<Token>, floatEncoder: FloatEncoder)
    requires byteSize > 0
    requires forall j :: 0 <= j < |args| ==> Encodable(byteSize, args[j])
    ensures Scan(Concat(byteSize, args, floatEncoder), byteSize, 0) == ArgPlaceholderStarts(byteSize, args, floatEncoder)
  {
    ScanFromArg(byteSize, args, floatEncoder, 0);
  }

  /** The part whose slots contain `offset` (the first one whose span reaches past it), or
      `|parts|` when no part does. */
  function OwnerPartFrom(parts: seq<seq<Slot>>, offset: nat, k: nat): (r: nat)
    requires k <= |parts|
    ensures k <= r <= |parts|
    decreases |parts| - k
  {
    if k == |parts| then |parts|
    else if offset < PartStart(parts, k + 1) then k
    else OwnerPartFrom(parts, offset, k + 1)
  }

  /** The argument whose encoding holds slot `offset`, found by walking the encoded lengths. */
  function OwnerArg(byteSize: nat, args: seq<Token>, floatEncoder: FloatEncoder, offset: nat): nat
    requires byteSize > 0
  {
    OwnerPartFrom(Encodings(byteSize, args, floatEncoder), offset, 0)
  }

  lemma {:induction false} PlaceholderStartWitness(byteSize: nat, args: seq<Token>, floatEncoder: FloatEncoder, k: nat, o: nat)
    requires byteSize > 0 && k <= |args|
    requires o in PlaceholderStartsFrom(byteSize, args, floatEncoder, k)
    ensures exists m :: k <= m < |args| && IsPlaceholderToken(args[m]) && ArgStart(byteSize, args, floatEncoder, m) == o
    decreases |args| - k
  {
    if k < |args| && !(IsPlaceholderToken(args[k]) && ArgStart(byteSize, args, floatEncoder, k) == o) {
      PlaceholderStartWitness(byteSize, args, floatEncoder, k + 1, o);
    }
  }

  lemma {:induction false} OwnerFinds(parts: seq<seq<Slot>>, o: nat, k: nat, m: nat)
    requires k <= m < |parts| && |parts[m]| > 0 && PartStart(parts, m) == o
    ensures OwnerPartFrom(parts, o, k) == m
    decreases m - k
  {
    PartSpan(parts, m);
    if k < m {
      PartStartBounds(parts, k + 1, m);
      OwnerFinds(parts, o, k + 1, m);
    }
  }

  /** Every placeholder offset of a definition belongs to a label or bracket argument that
      starts exactly there: the argument whose expression fills it. */
  lemma OwnerOfPlaceholder(byteSize: nat, args: seq<Token>, floatEncoder: FloatEncoder, o: nat)
    requires byteSize > 0
    requires o in ArgPlaceholderStarts(byteSize, args, floatEncoder)
    ensures OwnerArg(byteSize, args, floatEncoder, o) < |args|
    ensures IsPlaceholderToken(args[OwnerArg(byteSize, args, floatEncoder, o)])
    ensures ArgStart(byteSize, args, floatEncoder, OwnerArg(byteSize, args, floatEncoder, o)) == o
  {
    PlaceholderStartWitness(byteSize, args, floatEncoder, 0, o);
    var m :| 0 <= m < |args| && IsPlaceholderToken(args[m]) && ArgStart(byteSize, args, floatEncoder, m) == o;
    EncodedSlotsShape(byteSize, args[m], floatEncoder);
    OwnerFinds(Encodings(byteSize, args, floatEncoder), o, 0, m);
  }
}
