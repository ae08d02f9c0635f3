/**
 * JavaScript number operations used by the colour code: `Number.parseInt`,
 * `Math.round`, the `%` operator on numbers (it truncates toward zero, unlike
 * Dafny's Euclidean `%`), clamping with `Math.max`/`Math.min`, and
 * `Number.prototype.toString(16)`. Numbers are exact reals here: floating-point
 * rounding and NaN are not modelled, except that a failed parse is `None`.
 */
module JsNumber {
  import opened Wrappers
  import Text

  // ---------------------------------------------------------------- parsing

  /** `Number.parseInt(s)` (`radix16` false) or `Number.parseInt(s, 16)` (`radix16` true):
      leading whitespace skipped, an optional sign, a `0x`/`0X` prefix removed (and base 16
      chosen), then the longest run of digits of the base; `None` (NaN) when there is none. */
  function ParseInt(s: string, radix16: bool): (n: Option<int>)
  {
    var t := Text.TrimStart(s);
    var sign := if |t| > 0 && t[0] == '-' then -1 else 1;
    var u := if |t| > 0 && (t[0] == '-' || t[0] == '+') then t[1..] else t;
    if |u| >= 2 && u[0] == '0' && (u[1] == 'x' || u[1] == 'X') then
      var d := Text.HexPrefix(u[2..]);
      if d == "" then None else Some(sign * Text.HexValue(d))
    else if radix16 then
      var d := Text.HexPrefix(u);
      if d == "" then None else Some(sign * Text.HexValue(d))
    else
      var d := Text.DecimalPrefix(u);
      if d == "" then None else Some(sign * Text.DecimalValue(d))
  }

  /** `parseInt(d, 16)` of a string of hex digits (so no sign, no blank, no `0x`) is its value. */
  lemma ParseHexDigits(d: string)
    requires |d| >= 1 && Text.AllHex(d)
    ensures ParseInt(d, true) == Some(Text.HexValue(d))
  {
    assert !Text.IsJsWhitespace(d[0]);
    assert Text.TrimStart(d) == d;
    assert !(|d| >= 2 && d[1] == 'x');
    Text.HexPrefixOfHex(d);
  }

  /** `parseInt("0x" + d)` of hex digits `d` is their value. */
  lemma ParseHexLiteral(d: string)
    requires |d| >= 1 && Text.AllHex(d)
    ensures ParseInt("0x" + d, false) == Some(Text.HexValue(d))
  {
    var t := "0x" + d;
    assert t[0] == '0' && t[1] == 'x';
    assert !Text.IsJsWhitespace(t[0]);
    assert Text.TrimStart(t) == t;
    assert t[2..] == d;
    Text.HexPrefixOfHex(d);
    assert Text.HexPrefix(t[2..]) == d;
  }

  // ---------------------------------------------------------------- arithmetic

  function Abs(x: real): real
  {
    if x < 0.0 then -x else x
  }

  /** `Math.round`: the nearest integer, halves rounding up. */
  function Round(x: real): int
  {
    (x + 0.5).Floor
  }

  /** Rounding keeps a value between two integers between them. */
  lemma RoundWithin(x: real, lo: int, hi: int)
    requires lo as real <= x <= hi as real
    ensures lo <= Round(x) <= hi
  {
  }

  /** Truncation toward zero. */
  function Trunc(x: real): int
  {
    if x >= 0.0 then x.Floor else -((-x).Floor)
  }

  /** JavaScript's `x % y` on numbers: the remainder of truncating division, with the sign of `x`. */
  function Rem(x: real, y: real): real
    requires y != 0.0
  {
    x - y * (Trunc(x / y) as real)
  }

  /** For a non-negative `x` and positive `y`, `x % y` lies in `[0, y)`. */
  lemma RemRange(x: real, y: real)
    requires x >= 0.0 && y > 0.0
    ensures 0.0 <= Rem(x, y) < y
  {
    var q := x / y;
    assert q * y == x;
    FloorScaled(q, x, y);
    assert Trunc(q) == q.Floor;
  }

  /** With `q * y == x`, the whole part of `q` scales `y` to within `y` below `x`. */
  lemma FloorScaled(q: real, x: real, y: real)
    requires x >= 0.0 && y > 0.0 && q * y == x
    ensures q >= 0.0
    ensures y * (q.Floor as real) <= x < y * (q.Floor as real) + y
  {
    if q < 0.0 {
      MulStrict(q, 0.0, y);
      assert false;
    }
    var k := q.Floor as real;
    assert k <= q < k + 1.0;
    MulMono(k, q, y);
    MulStrict(q, k + 1.0, y);
    assert (k + 1.0) * y == k * y + 1.0 * y;
    assert 1.0 * y == y;
    assert k * y == y * k;
    assert x < y * k + y;
  }

  lemma MulMono(a: real, b: real, y: real)
    requires a <= b && y > 0.0
    ensures a * y <= b * y
  {
    assert b * y - a * y == (b - a) * y;
  }

  lemma MulStrict(a: real, b: real, y: real)
    requires a < b && y > 0.0
    ensures a * y < b * y
  {
    assert b * y - a * y == (b - a) * y;
  }

  lemma MulLeMono(a: real, b: real, y: real)
    requires a <= b && y >= 0.0
    ensures y * a <= y * b
  {
    assert y * b - y * a == y * (b - a);
  }

  lemma MulCancel(a: real, b: real, y: real)
    requires a * y == b * y && y != 0.0
    ensures a == b
  {
    assert (a - b) * y == 0.0;
  }

  lemma NegMul(a: real, y: real)
    ensures (-a) * y == -(a * y)
  {
  }

  /** A value already inside `(-y, y)` is its own remainder. */
  lemma RemSmall(x: real, y: real)
    requires y > 0.0 && -y < x < y
    ensures Rem(x, y) == x
  {
    var q := x / y;
    assert q * y == x;
    QuotientBelowOne(q, x, y);
    assert Trunc(q) == 0;
  }

  /** A factor that scales `y` to something strictly between `-y` and `y` is a proper fraction. */
  lemma QuotientBelowOne(q: real, x: real, y: real)
    requires y > 0.0 && -y < x < y && q * y == x
    ensures -1.0 < q < 1.0
  {
    if q >= 1.0 {
      MulMono(1.0, q, y);
      assert false;
    }
    if q <= -1.0 {
      MulMono(q, -1.0, y);
      assert false;
    }
  }

  /** Adding the modulus does not change the remainder of a non-negative number. */
  lemma RemPeriodic(x: real, y: real)
    requires x >= 0.0 && y > 0.0
    ensures Rem(x + y, y) == Rem(x, y)
  {
    var q := x / y;
    var q' := (x + y) / y;
    assert q * y == x && q' * y == x + y;
    assert (q + 1.0) * y == q * y + y;
    MulCancel(q', q + 1.0, y);
    assert (q + 1.0).Floor == q.Floor + 1;
  }

  /** `Math.min(a, b, c)` */
  function Min3(a: real, b: real, c: real): (m: real)
    ensures m <= a && m <= b && m <= c
    ensures m == a || m == b || m == c
  {
    if a <= b && a <= c then a else if b <= c then b else c
  }

  /** `Math.max(a, b, c)` */
  function Max3(a: real, b: real, c: real): (m: real)
    ensures m >= a && m >= b && m >= c
    ensures m == a || m == b || m == c
  {
    if a >= b && a >= c then a else if b >= c then b else c
  }

  /** `Math.max(lo, Math.min(hi, x))` */
  function Clamp(lo: real, hi: real, x: real): (r: real)
    requires lo <= hi
    ensures lo <= r <= hi
    ensures lo <= x <= hi ==> r == x
    ensures x < lo ==> r == lo
    ensures x > hi ==> r == hi
  {
    if x < lo then lo else if x > hi then hi else x
  }

  // ---------------------------------------------------------------- printing

  /** `n.toString(16)` for an integer: lower-case digits, a minus sign when negative. */
  function ToString16(n: int): string
  {
    if n < 0 then "-" + Text.NatToHex(-n) else Text.NatToHex(n)
  }
}
