/** Single-bit and flag helpers of the compiler core (`bits.ts`). JavaScript applies its
    bitwise operators to the 32-bit two's-complement image of a number (`ToInt32`) and
    returns a signed 32-bit result; shift counts are taken modulo 32 and `>>` is an
    arithmetic shift. Numbers are integers here; a bit of a negative integer is a bit of its
    two's-complement representation, which Euclidean `%` and `/` by 2 read directly. */
module Bits {
  import opened Common

  /** The results of JavaScript's bitwise operators. */
  type Int32 = x: int | -0x8000_0000 <= x < 0x8000_0000

  function Pow2(k: nat): (r: nat)
    ensures r > 0
  {
    if k == 0 then 1 else 2 * Pow2(k - 1)
  }

  lemma {:induction false} Pow2Add(a: nat, b: nat)
    ensures Pow2(a + b) == Pow2(a) * Pow2(b)
  {
    if a > 0 {
      Pow2Add(a - 1, b);
      assert Pow2(a + b) == 2 * Pow2(a - 1 + b);
      assert 2 * (Pow2(a - 1) * Pow2(b)) == (2 * Pow2(a - 1)) * Pow2(b);
    }
  }

  lemma Pow2Facts()
    ensures Pow2(0) == 1 && Pow2(1) == 2 && Pow2(2) == 4 && Pow2(3) == 8
    ensures Pow2(4) == 16 && Pow2(5) == 32 && Pow2(6) == 64 && Pow2(7) == 128 && Pow2(8) == 256
    ensures Pow2(31) == 0x8000_0000 && Pow2(32) == 0x1_0000_0000
  {
    assert Pow2(8) == 256 by {
      assert Pow2(4) == 16;
    }
    Pow2Add(8, 8);
    Pow2Add(16, 8);
    Pow2Add(24, 7);
    Pow2Add(24, 8);
  }

  lemma {:induction false} Pow2Mono(j: nat, k: nat)
    requires j <= k
    ensures Pow2(j) <= Pow2(k)
    decreases k
  {
    if j < k {
      Pow2Mono(j, k - 1);
    }
  }

  /** JavaScript's `ToInt32` on an integer: its residue modulo 2^32, read as two's complement. */
  function ToInt32(n: int): Int32
  {
    var u := n % 0x1_0000_0000;
    if u < 0x8000_0000 then u else u - 0x1_0000_0000
  }

  /** Bit `i` of `v` (bit 0 is the least significant): the parity of `v` after `i` halvings. */
  predicate Bit(v: int, i: nat)
    decreases i
  {
    if i == 0 then v % 2 == 1 else Bit(v / 2, i - 1)
  }

  lemma {:induction false} ZeroHasNoBits(i: nat)
    ensures !Bit(0, i)
  {
    if i > 0 {
      ZeroHasNoBits(i - 1);
    }
  }

  lemma {:induction false} MinusOneHasAllBits(i: nat)
    ensures Bit(-1, i)
  {
    if i > 0 {
      MinusOneHasAllBits(i - 1);
    }
  }

  /** Adding a multiple of 2^m leaves the bits below `m` alone. */
  lemma {:induction false} BitAddMultiple(n: int, c: int, m: nat, i: nat)
    requires i < m
    ensures Bit(n + Pow2(m) * c, i) <==> Bit(n, i)
    decreases i
  {
    var t := Pow2(m - 1) * c;
    assert Pow2(m) * c == 2 * t;
    if i > 0 {
      assert (n + 2 * t) / 2 == n / 2 + t;
      BitAddMultiple(n / 2, c, m - 1, i - 1);
    }
  }

  /** `ToInt32` keeps the low 32 bits. */
  lemma ToInt32Bit(n: int, i: nat)
    requires i < 32
    ensures Bit(ToInt32(n), i) <==> Bit(n, i)
  {
    Pow2Facts();
    var q := n / 0x1_0000_0000;
    if n % 0x1_0000_0000 < 0x8000_0000 {
      assert ToInt32(n) == n + Pow2(32) * -q;
      BitAddMultiple(n, -q, 32, i);
    } else {
      assert ToInt32(n) == n + Pow2(32) * (-q - 1);
      BitAddMultiple(n, -q - 1, 32, i);
    }
  }

  lemma {:induction false} BitOfPow2(k: nat, i: nat)
    ensures Bit(Pow2(k), i) <==> i == k
  {
    if i > 0 {
      if k == 0 {
        ZeroHasNoBits(i - 1);
      } else {
        BitOfPow2(k - 1, i - 1);
      }
    }
  }

  /** `2^n - 1` has exactly the bits below `n`. */
  lemma {:induction false} BitOfAllOnes(n: nat, i: nat)
    ensures Bit(Pow2(n) - 1, i) <==> i < n
  {
    if n == 0 {
      ZeroHasNoBits(i);
    } else if i > 0 {
      assert (Pow2(n) - 1) / 2 == Pow2(n - 1) - 1;
      BitOfAllOnes(n - 1, i - 1);
    }
  }

  lemma {:induction false} HighBitsClear(v: int, n: nat, i: nat)
    requires 0 <= v < Pow2(n) && n <= i
    ensures !Bit(v, i)
  {
    if n == 0 {
      ZeroHasNoBits(i);
    } else {
      HighBitsClear(v / 2, n - 1, i - 1);
    }
  }

  /** Two numbers below 2^n with the same low `n` bits are equal. */
  lemma {:induction false} BitsDetermine(a: int, b: int, n: nat)
    requires 0 <= a < Pow2(n) && 0 <= b < Pow2(n)
    requires forall i :: 0 <= i < n ==> (Bit(a, i) <==> Bit(b, i))
    ensures a == b
  {
    if n > 0 {
      forall i | 0 <= i < n - 1
        ensures Bit(a / 2, i) <==> Bit(b / 2, i)
      {
        assert Bit(a, i + 1) <==> Bit(b, i + 1);
      }
      BitsDetermine(a / 2, b / 2, n - 1);
      assert Bit(a, 0) <==> Bit(b, 0);
    }
  }

  /** A 32-bit result is determined by its 32 bits. */
  lemma Int32Determine(a: Int32, b: Int32)
    requires forall i :: 0 <= i < 32 ==> (Bit(a, i) <==> Bit(b, i))
    ensures a == b
  {
    Pow2Facts();
    var ua, ub := a % 0x1_0000_0000, b % 0x1_0000_0000;
    forall i | 0 <= i < 32
      ensures Bit(ua, i) <==> Bit(ub, i)
    {
      assert ua == a + Pow2(32) * -(a / 0x1_0000_0000);
      assert ub == b + Pow2(32) * -(b / 0x1_0000_0000);
      BitAddMultiple(a, -(a / 0x1_0000_0000), 32, i);
      BitAddMultiple(b, -(b / 0x1_0000_0000), 32, i);
    }
    BitsDetermine(ua, ub, 32);
  }

  /** A 32-bit result with no bit set is zero. */
  lemma NoBitsIsZero(x: Int32)
    requires forall i :: 0 <= i < 32 ==> !Bit(x, i)
    ensures x == 0
  {
    forall i | 0 <= i < 32
      ensures Bit(x, i) <==> Bit(0, i)
    {
      ZeroHasNoBits(i);
    }
    Int32Determine(x, 0);
  }

  /** A non-zero 32-bit result has a set bit. */
  lemma NonZeroHasBit(x: Int32) returns (i: nat)
    requires x != 0
    ensures i < 32 && Bit(x, i)
  {
    if forall k :: 0 <= k < 32 ==> !Bit(x, k) {
      NoBitsIsZero(x);
    }
    i :| 0 <= i < 32 && Bit(x, i);
  }

  lemma {:induction false} DivDivTwo(x: int, m: int)
    requires m > 0
    ensures x / (2 * m) == (x / 2) / m
  {
    var q1, r1 := x / 2, x % 2;
    var q2, r2 := q1 / m, q1 % m;
    assert x == (2 * m) * q2 + (2 * r2 + r1) by {
      assert q1 == m * q2 + r2;
      assert x == 2 * q1 + r1;
      assert 2 * (m * q2) == (2 * m) * q2;
    }
    DivModUnique(x, 2 * m, q2, 2 * r2 + r1);
  }

  /** Floor division by 2^k drops the low `k` bits. */
  lemma {:induction false} BitOfDivPow2(x: int, k: nat, i: nat)
    ensures Bit(x / Pow2(k), i) <==> Bit(x, i + k)
    decreases k
  {
    if k > 0 {
      DivDivTwo(x, Pow2(k - 1));
      BitOfDivPow2(x / 2, k - 1, i);
    }
  }

  datatype BitOp = OrOp | AndOp | XorOp

  predicate Apply(op: BitOp, x: bool, y: bool)
  {
    match op
    case OrOp => x || y
    case AndOp => x && y
    case XorOp => x != y
  }

  /** `op` applied bit by bit to the low `n` bits of `a` and `b`. */
  function Bitwise(op: BitOp, a: int, b: int, n: nat): (r: nat)
    ensures r < Pow2(n)
    decreases n
  {
    if n == 0 then 0
    else (if Apply(op, a % 2 == 1, b % 2 == 1) then 1 else 0) + 2 * Bitwise(op, a / 2, b / 2, n - 1)
  }

  lemma {:induction false} BitwiseBit(op: BitOp, a: int, b: int, n: nat, i: nat)
    ensures Bit(Bitwise(op, a, b, n), i) <==> i < n && Apply(op, Bit(a, i), Bit(b, i))
    decreases n
  {
    if n == 0 {
      ZeroHasNoBits(i);
    } else if i > 0 {
      assert Bitwise(op, a, b, n) / 2 == Bitwise(op, a / 2, b / 2, n - 1);
      BitwiseBit(op, a / 2, b / 2, n - 1, i - 1);
    }
  }

  /** `a | b` */
  function Or(a: int, b: int): Int32
  {
    ToInt32(Bitwise(OrOp, a, b, 32))
  }

  /** `a & b` */
  function And(a: int, b: int): Int32
  {
    ToInt32(Bitwise(AndOp, a, b, 32))
  }

  /** `a ^ b` */
  function Xor(a: int, b: int): Int32
  {
    ToInt32(Bitwise(XorOp, a, b, 32))
  }

  /** `~a`: every one of the 32 bits flipped, i.e. `a ^ -1`. */
  function Not(a: int): Int32
  {
    Xor(a, -1)
  }

  lemma OpBit(op: BitOp, a: int, b: int, i: nat)
    requires i < 32
    ensures Bit(ToInt32(Bitwise(op, a, b, 32)), i) <==> Apply(op, Bit(a, i), Bit(b, i))
  {
    ToInt32Bit(Bitwise(op, a, b, 32), i);
    BitwiseBit(op, a, b, 32, i);
  }

  lemma OrBit(a: int, b: int, i: nat)
    requires i < 32
    ensures Bit(Or(a, b), i) <==> Bit(a, i) || Bit(b, i)
  {
    OpBit(OrOp, a, b, i);
  }

  lemma AndBit(a: int, b: int, i: nat)
    requires i < 32
    ensures Bit(And(a, b), i) <==> Bit(a, i) && Bit(b, i)
  {
    OpBit(AndOp, a, b, i);
  }

  lemma XorBit(a: int, b: int, i: nat)
    requires i < 32
    ensures Bit(Xor(a, b), i) <==> Bit(a, i) != Bit(b, i)
  {
    OpBit(XorOp, a, b, i);
  }

  lemma NotBit(a: int, i: nat)
    requires i < 32
    ensures Bit(Not(a), i) <==> !Bit(a, i)
  {
    XorBit(a, -1, i);
    MinusOneHasAllBits(i);
  }

  /** The count a JavaScript shift uses: the low five bits of `ToInt32(n)`, i.e. `n` modulo 32. */
  function ShiftCount(n: int): (r: nat)
    ensures r < 32
  {
    n % 32
  }

  /** `1 << nth`: the word with only bit `nth mod 32` set (negative for bit 31). */
  function Mask(nth: int): Int32
  {
    ToInt32(Pow2(ShiftCount(nth)))
  }

  lemma MaskBit(nth: int, i: nat)
    requires i < 32
    ensures Bit(Mask(nth), i) <==> i == ShiftCount(nth)
  {
    ToInt32Bit(Pow2(ShiftCount(nth)), i);
    BitOfPow2(ShiftCount(nth), i);
  }

  /** `x >> n`: `ToInt32(x)` shifted right arithmetically, i.e. floor-divided by 2^(n mod 32). */
  function Shr(x: int, n: int): int
  {
    ToInt32(x) / Pow2(ShiftCount(n))
  }

  lemma ShrBit(x: int, n: int, i: nat)
    requires i + ShiftCount(n) < 32
    ensures Bit(Shr(x, n), i) <==> Bit(x, i + ShiftCount(n))
  {
    BitOfDivPow2(ToInt32(x), ShiftCount(n), i);
    ToInt32Bit(x, i + ShiftCount(n));
  }

  lemma OneBit(i: nat)
    ensures Bit(1, i) <==> i == 0
  {
    if i > 0 {
      ZeroHasNoBits(i - 1);
    }
  }

  /** `x & 1` is the lowest bit of `x` as a number. */
  lemma AndOne(x: int)
    ensures And(x, 1) == if Bit(x, 0) then 1 else 0
  {
    var c: Int32 := if Bit(x, 0) then 1 else 0;
    forall i | 0 <= i < 32
      ensures Bit(And(x, 1), i) <==> Bit(c, i)
    {
      AndBit(x, 1, i);
      OneBit(i);
      ZeroHasNoBits(i);
    }
    Int32Determine(And(x, 1), c);
  }

  /** `setBit(nth, value, num)`: `value` is the source's truthiness test. */
  function SetBit(nth: int, value: bool, num: int): Int32
  {
    if value then Or(num, Mask(nth)) else And(num, Not(Mask(nth)))
  }

  /** After `setBit`, bit `nth` reads as `value` and every other bit is that of `num`. */
  lemma SetBitAt(nth: int, value: bool, num: int, i: nat)
    requires i < 32
    ensures Bit(SetBit(nth, value, num), i) <==> if i == ShiftCount(nth) then value else Bit(num, i)
  {
    MaskBit(nth, i);
    if value {
      OrBit(num, Mask(nth), i);
    } else {
      NotBit(Mask(nth), i);
      AndBit(num, Not(Mask(nth)), i);
    }
  }

  /** `toggleBit(nth, value)` */
  function ToggleBit(nth: int, value: int): Int32
  {
    Xor(value, Mask(nth))
  }

  /** `toggleBit` flips bit `nth` and keeps every other bit. */
  lemma ToggleBitAt(nth: int, value: int, i: nat)
    requires i < 32
    ensures Bit(ToggleBit(nth, value), i) <==> if i == ShiftCount(nth) then !Bit(value, i) else Bit(value, i)
  {
    MaskBit(nth, i);
    XorBit(value, Mask(nth), i);
  }

  /** Toggling the same bit twice gives back the 32-bit value. */
  lemma ToggleBitInvolution(nth: int, value: int)
    ensures ToggleBit(nth, ToggleBit(nth, value)) == ToInt32(value)
  {
    forall i | 0 <= i < 32
      ensures Bit(ToggleBit(nth, ToggleBit(nth, value)), i) <==> Bit(ToInt32(value), i)
    {
      ToggleBitAt(nth, ToggleBit(nth, value), i);
      ToggleBitAt(nth, value, i);
      ToInt32Bit(value, i);
    }
    Int32Determine(ToggleBit(nth, ToggleBit(nth, value)), ToInt32(value));
  }

  /** `getBit(nth, value)`: 0 or 1, and 1 exactly when bit `nth` of `value` is set. */
  function GetBit(nth: int, value: int): (r: Int32)
    ensures r == 0 || r == 1
    ensures r == 1 <==> Bit(value, ShiftCount(nth))
  {
    AndOne(Shr(value, nth));
    ShrBit(value, nth, 0);
    And(Shr(value, nth), 1)
  }

  /** `isSetBit(nth, value)` */
  predicate IsSetBit(nth: int, value: int)
    ensures IsSetBit(nth, value) <==> Bit(value, ShiftCount(nth))
  {
    GetBit(nth, value) == 1
  }

  /** `removeFlag(flag, value)` */
  function RemoveFlag(flag: int, value: int): Int32
  {
    And(value, Not(flag))
  }

  /** `removeFlag` clears exactly the bits that are set in `flag`. */
  lemma RemoveFlagAt(flag: int, value: int, i: nat)
    requires i < 32
    ensures Bit(RemoveFlag(flag, value), i) <==> Bit(value, i) && !Bit(flag, i)
  {
    NotBit(flag, i);
    AndBit(value, Not(flag), i);
  }

  lemma RemoveFlagIdempotent(flag: int, value: int)
    ensures RemoveFlag(flag, RemoveFlag(flag, value)) == RemoveFlag(flag, value)
  {
    forall i | 0 <= i < 32
      ensures Bit(RemoveFlag(flag, RemoveFlag(flag, value)), i) <==> Bit(RemoveFlag(flag, value), i)
    {
      RemoveFlagAt(flag, RemoveFlag(flag, value), i);
      RemoveFlagAt(flag, value, i);
    }
    Int32Determine(RemoveFlag(flag, RemoveFlag(flag, value)), RemoveFlag(flag, value));
  }

  /** `hasFlag(flag, value)` */
  predicate HasFlag(flag: int, value: int)
  {
    And(value, flag) == flag
  }

  /** Every bit set in `flag` is set in `value`. */
  predicate Includes(flag: int, value: int)
  {
    forall i :: 0 <= i < 32 && Bit(flag, i) ==> Bit(value, i)
  }

  /** For a flag in the 32-bit range, `hasFlag` is bitwise inclusion, in both directions. */
  lemma HasFlagIsInclusion(flag: Int32, value: int)
    ensures HasFlag(flag, value) <==> Includes(flag, value)
  {
    if Includes(flag, value) {
      InclusionHasFlag(flag, value);
    }
    if HasFlag(flag, value) {
      HasFlagIncludes(flag, value);
    }
  }

  lemma HasFlagIncludes(flag: int, value: int)
    requires HasFlag(flag, value)
    ensures Includes(flag, value)
  {
    forall i | 0 <= i < 32 && Bit(flag, i)
      ensures Bit(value, i)
    {
      AndBit(value, flag, i);
    }
  }

  lemma InclusionHasFlag(flag: Int32, value: int)
    requires Includes(flag, value)
    ensures HasFlag(flag, value)
  {
    forall i | 0 <= i < 32
      ensures Bit(And(value, flag), i) <==> Bit(flag, i)
    {
      AndBit(value, flag, i);
    }
    Int32Determine(And(value, flag), flag);
  }

  /** A flag outside the 32-bit signed range (such as `0x80000000`) is never found, because
      `&` returns a signed 32-bit value that cannot equal it. */
  lemma HasFlagOutsideInt32(flag: int, value: int)
    requires !(-0x8000_0000 <= flag < 0x8000_0000)
    ensures !HasFlag(flag, value)
  {
  }

  /** Setting the bits of a flag makes `hasFlag` hold; removing them makes it fail unless the
      flag is zero. */
  lemma HasFlagAfterSetAndRemove(flag: Int32, value: int)
    ensures HasFlag(flag, Or(value, flag))
    ensures flag != 0 ==> !HasFlag(flag, RemoveFlag(flag, value))
  {
    forall i | 0 <= i < 32 && Bit(flag, i)
      ensures Bit(Or(value, flag), i)
    {
      OrBit(value, flag, i);
    }
    InclusionHasFlag(flag, Or(value, flag));
    if flag != 0 {
      var i := NonZeroHasBit(flag);
      RemoveFlagAt(flag, value, i);
      AndBit(RemoveFlag(flag, value), flag, i);
    }
  }

  /** `getMSbit(num, byte)`: bit `byte * 8 - 1` of `num` (its count taken modulo 32). */
  function GetMSbit(num: int, byte: int := 1): (r: Int32)
    ensures r == 0 || r == 1
    ensures r == 1 <==> Bit(num, ShiftCount(byte * 8 - 1))
  {
    AndOne(Shr(num, byte * 8 - 1));
    ShrBit(num, byte * 8 - 1, 0);
    And(Shr(num, byte * 8 - 1), 1)
  }

  /** `getSMSbit(num, byte)`: the bit below it, `byte * 8 - 2`. */
  function GetSMSbit(num: int, byte: int := 1): (r: Int32)
    ensures r == 0 || r == 1
    ensures r == 1 <==> Bit(num, ShiftCount((byte * 8 - 1) - 1))
  {
    AndOne(Shr(num, (byte * 8 - 1) - 1));
    ShrBit(num, (byte * 8 - 1) - 1, 0);
    And(Shr(num, (byte * 8 - 1) - 1), 1)
  }

  /** For operand widths of 1 to 4 bytes no count wraps: the sign bit and the bit below it
      of a `byte`-wide value (bits 7 and 6 for the default width 1). */
  lemma MSbitOfWidth(num: int, byte: int)
    requires 1 <= byte <= 4
    ensures GetMSbit(num, byte) == 1 <==> Bit(num, 8 * byte - 1)
    ensures GetSMSbit(num, byte) == 1 <==> Bit(num, 8 * byte - 2)
  {
    assert ShiftCount(byte * 8 - 1) == 8 * byte - 1;
    assert ShiftCount((byte * 8 - 1) - 1) == 8 * byte - 2;
  }

  /** One test of `reverseByte`: if bit `j` of `byte` is set, bit `7 - j` of the result is set. */
  function ReverseStep(acc: Int32, byte: int, j: nat): Int32
    requires j < 8
  {
    if And(byte, Pow2(j)) != 0 then Or(acc, Pow2(7 - j)) else acc
  }

  /** `reverseByte(byte)`: the eight tests for `0x01` .. `0x80`, in source order. */
  function ReverseByte(byte: int): Int32
  {
    var r1 := ReverseStep(0, byte, 0);
    var r2 := ReverseStep(r1, byte, 1);
    var r3 := ReverseStep(r2, byte, 2);
    var r4 := ReverseStep(r3, byte, 3);
    var r5 := ReverseStep(r4, byte, 4);
    var r6 := ReverseStep(r5, byte, 5);
    var r7 := ReverseStep(r6, byte, 6);
    ReverseStep(r7, byte, 7)
  }

  /** `acc` holds the mirror images of the low `m` bits of `byte` and nothing else. */
  predicate ReversedBelow(acc: Int32, byte: int, m: nat)
  {
    && 0 <= acc < 256
    && forall i :: 0 <= i < 32 ==> (Bit(acc, i) <==> 8 - m <= i < 8 && Bit(byte, 7 - i))
  }

  lemma TestBit(byte: int, j: nat)
    requires j < 31
    ensures And(byte, Pow2(j)) != 0 <==> Bit(byte, j)
  {
    Pow2Facts();
    Pow2Mono(j, 30);
    forall i | 0 <= i < 32
      ensures Bit(And(byte, Pow2(j)), i) <==> i == j && Bit(byte, j)
    {
      AndBit(byte, Pow2(j), i);
      BitOfPow2(j, i);
    }
    if !Bit(byte, j) {
      NoBitsIsZero(And(byte, Pow2(j)));
    }
    if Bit(byte, j) {
      ZeroHasNoBits(j);
    }
  }

  /** Or-ing two values below 2^n stays below 2^n. */
  lemma {:induction false} OrBelow(a: int, b: int, n: nat, m: nat)
    requires 0 <= a < Pow2(n) && 0 <= b < Pow2(n) && n <= m
    ensures Bitwise(OrOp, a, b, m) < Pow2(n)
  {
    if m > 0 {
      if n == 0 {
        OrBelow(a / 2, b / 2, 0, m - 1);
      } else {
        OrBelow(a / 2, b / 2, n - 1, m - 1);
      }
    }
  }

  lemma ReverseStepKeeps(acc: Int32, byte: int, j: nat)
    requires j < 8 && ReversedBelow(acc, byte, j)
    ensures ReversedBelow(ReverseStep(acc, byte, j), byte, j + 1)
  {
    TestBit(byte, j);
    if And(byte, Pow2(j)) != 0 {
      ReverseStepSets(acc, byte, j);
    } else {
      assert !Bit(acc, 7 - j);
    }
  }

  lemma ReverseStepSets(acc: Int32, byte: int, j: nat)
    requires j < 8 && ReversedBelow(acc, byte, j) && Bit(byte, j)
    ensures ReversedBelow(Or(acc, Pow2(7 - j)), byte, j + 1)
  {
    Pow2Byte();
    Pow2Mono(7 - j, 7);
    OrOfBytes(acc, Pow2(7 - j));
    var next := Or(acc, Pow2(7 - j));
    forall i | 0 <= i < 32
      ensures Bit(next, i) <==> 8 - (j + 1) <= i < 8 && Bit(byte, 7 - i)
    {
      ReverseStepSetsAt(acc, byte, j, i);
    }
  }

  lemma ReverseStepSetsAt(acc: Int32, byte: int, j: nat, i: nat)
    requires j < 8 && i < 32 && Bit(byte, j)
    requires Bit(acc, i) <==> 8 - j <= i < 8 && Bit(byte, 7 - i)
    ensures Bit(Or(acc, Pow2(7 - j)), i) <==> 8 - (j + 1) <= i < 8 && Bit(byte, 7 - i)
  {
    OrBit(acc, Pow2(7 - j), i);
    BitOfPow2(7 - j, i);
    MirrorBitSet(Or(acc, Pow2(7 - j)), acc, byte, j, i);
  }

  /** The bit-level step of `ReverseStepSets`, stated for any `o` whose bit `i` is that of
      `acc | 2^(7-j)`. */
  lemma MirrorBitSet(o: int, acc: int, byte: int, j: nat, i: nat)
    requires j < 8 && i < 32 && Bit(byte, j)
    requires Bit(acc, i) <==> 8 - j <= i < 8 && Bit(byte, 7 - i)
    requires Bit(o, i) <==> Bit(acc, i) || i == 7 - j
    ensures Bit(o, i) <==> 8 - (j + 1) <= i < 8 && Bit(byte, 7 - i)
  {
  }

  lemma Pow2Byte()
    ensures Pow2(8) == 256
  {
    assert Pow2(4) == 16;
  }

  /** On values below 2^31, `ToInt32` is the identity. */
  lemma ToInt32Small(x: int)
    requires 0 <= x < 0x8000_0000
    ensures ToInt32(x) == x
  {
  }

  lemma OrOfBytes(a: int, b: int)
    requires 0 <= a < 256 && 0 <= b < 256
    ensures 0 <= Or(a, b) < 256
  {
    OrBitwiseBelow(a, b);
    ToInt32Small(Bitwise(OrOp, a, b, 32));
  }

  lemma OrBitwiseBelow(a: int, b: int)
    requires 0 <= a < 256 && 0 <= b < 256
    ensures Bitwise(OrOp, a, b, 32) < 256
  {
    Pow2Byte();
    OrBelow(a, b, 8, 32);
  }

  /** `reverseByte` maps into 0..255 and output bit `i` is input bit `7 - i`. */
  lemma ReverseByteBits(byte: int)
    ensures 0 <= ReverseByte(byte) < 256
    ensures forall i :: 0 <= i < 8 ==> (Bit(ReverseByte(byte), i) <==> Bit(byte, 7 - i))
    ensures forall i :: 8 <= i < 32 ==> !Bit(ReverseByte(byte), i)
  {
    Pow2Facts();
    forall i | 0 <= i < 32
      ensures !Bit(0, i)
    {
      ZeroHasNoBits(i);
    }
    var r1 := ReverseStep(0, byte, 0);
    ReverseStepKeeps(0, byte, 0);
    var r2 := ReverseStep(r1, byte, 1);
    ReverseStepKeeps(r1, byte, 1);
    var r3 := ReverseStep(r2, byte, 2);
    ReverseStepKeeps(r2, byte, 2);
    var r4 := ReverseStep(r3, byte, 3);
    ReverseStepKeeps(r3, byte, 3);
    var r5 := ReverseStep(r4, byte, 4);
    ReverseStepKeeps(r4, byte, 4);
    var r6 := ReverseStep(r5, byte, 5);
    ReverseStepKeeps(r5, byte, 5);
    var r7 := ReverseStep(r6, byte, 6);
    ReverseStepKeeps(r6, byte, 6);
    ReverseStepKeeps(r7, byte, 7);
    assert ReverseByte(byte) == ReverseStep(r7, byte, 7);
  }

  /** Reversing twice keeps the low byte; on a byte value `reverseByte` is an involution. */
  lemma ReverseByteInvolution(byte: int)
    ensures ReverseByte(ReverseByte(byte)) == And(byte, 0xFF)
    ensures 0 <= byte < 256 ==> ReverseByte(ReverseByte(byte)) == byte
  {
    Pow2Facts();
    var once := ReverseByte(byte);
    var twice := ReverseByte(once);
    ReverseByteBits(byte);
    ReverseByteBits(once);
    forall i | 0 <= i < 32
      ensures Bit(twice, i) <==> Bit(And(byte, 0xFF), i)
    {
      AndBit(byte, 0xFF, i);
      BitOfAllOnes(8, i);
    }
    Int32Determine(twice, And(byte, 0xFF));
    if 0 <= byte < 256 {
      forall i | 0 <= i < 32
        ensures Bit(And(byte, 0xFF), i) <==> Bit(byte, i)
      {
        AndBit(byte, 0xFF, i);
        BitOfAllOnes(8, i);
        if i >= 8 {
          HighBitsClear(byte, 8, i);
        }
      }
      Int32Determine(And(byte, 0xFF), byte);
    }
  }
}
