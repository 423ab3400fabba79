/** Small shared vocabulary: optional values, results, bytes and the string helpers
    (lower-casing, joining) that the assembler uses through its utility libraries. */
module Common {

  /** `null`/`undefined` versus a present value. */
  datatype Option<+T> = None | Some(value: T)

  /** A value, or the error that the source would throw. */
  datatype Result<+T, +E> = Success(value: T) | Failure(error: E)

  /** One byte of machine code. */
  type u8 = x: int | 0 <= x < 256

  /** Lower-casing of one character; only ASCII letters change. */
  function LowerChar(c: char): char
  {
    if 'A' <= c <= 'Z' then (c as int + 32) as char else c
  }

  /** Lower-casing of a whole string, as `R.toLower` and `lowerText` do it for ASCII text. */
  function ToLower(s: string): string
  {
    if s == [] then [] else [LowerChar(s[0])] + ToLower(s[1..])
  }

  lemma {:induction false} ToLowerAt(s: string, k: nat)
    requires k < |s|
    ensures |ToLower(s)| == |s| && ToLower(s)[k] == LowerChar(s[k])
  {
    if k > 0 {
      ToLowerAt(s[1..], k - 1);
    } else if |s| > 1 {
      ToLowerAt(s[1..], 0);
    }
  }

  /** Lower-casing is idempotent: a lower-cased key is its own lower-cased form. */
  lemma {:induction false} ToLowerIdempotent(s: string)
    ensures ToLower(ToLower(s)) == ToLower(s)
  {
    if s != [] {
      ToLowerIdempotent(s[1..]);
    }
  }

  /** `texts.join(sep)`. */
  function JoinWith(sep: string, texts: seq<string>): string
  {
    if texts == [] then ""
    else if |texts| == 1 then texts[0]
    else texts[0] + sep + JoinWith(sep, texts[1..])
  }

  /** Decimal text of an integer, as JavaScript's `Number.prototype.toString` writes it. */
  function IntToString(n: int): string
  {
    if n < 0 then "-" + NatToString(-n) else NatToString(n)
  }

  function NatToString(n: nat): string
    decreases n
  {
    if n < 10 then [DigitChar(n)] else NatToString(n / 10) + [DigitChar(n % 10)]
  }

  function DigitChar(d: nat): char
    requires d < 10
  {
    ('0' as int + d) as char
  }

  lemma {:induction false} MulAtLeast(d: int, x: int)
    requires d > 0 && x >= 1
    ensures d * x >= d
    decreases x
  {
    if x > 1 {
      MulAtLeast(d, x - 1);
      assert d * x == d * (x - 1) + d;
    }
  }

  lemma MulSign(d: int, x: int)
    requires d > 0
    ensures x >= 1 ==> d * x >= d
    ensures x <= -1 ==> d * x <= -d
  {
    if x >= 1 {
      MulAtLeast(d, x);
    } else if x <= -1 {
      MulAtLeast(d, -x);
      assert d * x == -(d * -x);
    }
  }

  /** Quotient and remainder are the only pair with `n == d * q + r` and `0 <= r < d`. */
  lemma DivModUnique(n: int, d: int, q: int, r: int)
    requires d > 0 && n == d * q + r && 0 <= r < d
    ensures n / d == q && n % d == r
  {
    var q0, r0 := n / d, n % d;
    assert d * q0 + r0 == n;
    assert d * (q - q0) == r0 - r;
    MulSign(d, q - q0);
  }
}
