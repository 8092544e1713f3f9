/**
 The parts of Java's semantics the schedulers depend on: exceptions as values,
 nullable references, truncating integer division (section 15.17.2 of the Java
 Language Specification), two's-complement wrap-around of `int` and `long`
 (section 4.2.2), and reference equality of boxed `Integer` values, which the
 boxing cache makes coincide with value equality only on -128..127 (section 5.1.7).
 */
module JavaSemantics {

  /** The exceptions the modelled code can raise. */
  datatype Exception = ArithmeticException | NegativeArraySizeException

  /** A call that either returns a value or throws. */
  datatype Result<+T> = Ok(value: T) | Thrown(error: Exception)

  /** A reference that may be `null`. */
  datatype Option<+T> = None | Some(value: T)

  function Abs(x: int): nat {
    if x < 0 then -x else x
  }

  /** Java's `/`: the quotient rounds toward zero, so the remainder it leaves
      is smaller than the divisor in magnitude and has the dividend's sign. */
  function Quot(a: int, b: int): (q: int)
    requires b != 0
    ensures Abs(a - q * b) < Abs(b)
    ensures a - q * b == 0 || (a - q * b < 0 <==> a < 0)
  {
    var ab := Abs(b);
    var q0 := Abs(a) / ab;
    var m := Abs(a) % ab;
    assert Abs(a) == q0 * ab + m && 0 <= m < ab;
    var q := if (a < 0) == (b < 0) then q0 else -q0;
    assert q * b == if a < 0 then -(q0 * ab) else q0 * ab;
    assert a - q * b == if a < 0 then -m else m;
    q
  }

  /** Java's `%`: what `/` leaves over, so `(a / b) * b + a % b == a`. */
  function Rem(a: int, b: int): (r: int)
    requires b != 0
    ensures Quot(a, b) * b + r == a
    ensures Abs(r) < Abs(b)
    ensures r == 0 || (r < 0 <==> a < 0)
  {
    a - Quot(a, b) * b
  }

  /** Multiplying by a non-negative number keeps the order. */
  lemma MulMonotone(a: int, b: int, n: int)
    requires a <= b && 0 <= n
    ensures a * n <= b * n
  {
    assert b * n - a * n == (b - a) * n;
  }

  /** On a non-negative dividend and a positive divisor, Java's `/` and `%`
      agree with the Euclidean ones. */
  lemma QuotRemNonNegative(a: int, b: int)
    requires a >= 0 && b > 0
    ensures Quot(a, b) == a / b && Rem(a, b) == a % b
  {
  }

  /** The two integer widths of the schedulers' arithmetic: `int`/`Integer` and `long`/`Long`. */
  datatype Width = Int32 | Int64

  function Modulus(w: Width): nat {
    match w
    case Int32 => 0x1_0000_0000
    case Int64 => 0x1_0000_0000_0000_0000
  }

  predicate InRange(x: int, w: Width) {
    -(Modulus(w) / 2) <= x < Modulus(w) / 2
  }

  /** Two's-complement wrap-around: the unique representable value congruent to `x`. */
  function Wrap(x: int, w: Width): (r: int)
    ensures InRange(r, w)
    ensures (x - r) % Modulus(w) == 0
    ensures InRange(x, w) ==> r == x
  {
    var m := Modulus(w);
    var r := (x + m / 2) % m - m / 2;
    assert x - r == m * ((x + m / 2) / m);
    r
  }

  /** Two representable values that are congruent are equal. */
  lemma WrapUnique(a: int, b: int, w: Width)
    requires InRange(a, w) && InRange(b, w)
    requires (a - b) % Modulus(w) == 0
    ensures a == b
  {
    var m := Modulus(w);
    var k := (a - b) / m;
    assert a - b == m * k;
  }

  /** Wrapping an intermediate result does not change the final wrapped sum:
      the identity behind Java's `sum += x` on a fixed-width accumulator. */
  lemma {:induction false} WrapAdd(x: int, y: int, w: Width)
    ensures Wrap(Wrap(x, w) + y, w) == Wrap(x + y, w)
  {
    var m := Modulus(w);
    var a := Wrap(Wrap(x, w) + y, w);
    var b := Wrap(x + y, w);
    var k1 := (x - Wrap(x, w)) / m;
    var k2 := (Wrap(x, w) + y - a) / m;
    var k3 := (x + y - b) / m;
    assert x - Wrap(x, w) == m * k1;
    assert Wrap(x, w) + y - a == m * k2;
    assert x + y - b == m * k3;
    assert a - b == m * (k3 - k1 - k2);
    assert (a - b) % m == 0;
    WrapUnique(a, b, w);
  }

  /** Mathematical sum of a sequence. */
  function Sum(s: seq<int>): int {
    if |s| == 0 then 0 else Sum(s[..|s| - 1]) + s[|s| - 1]
  }

  /** Value of a `w`-wide accumulator after adding the elements of `s` left to
      right, wrapping after every addition, as a Java summing loop does. */
  function WrappedSum(s: seq<int>, w: Width): int {
    if |s| == 0 then 0 else Wrap(WrappedSum(s[..|s| - 1], w) + s[|s| - 1], w)
  }

  /** Wrapping at every step is the same as wrapping the exact sum once. */
  lemma {:induction false} WrappedSumIsWrappedTotal(s: seq<int>, w: Width)
    ensures WrappedSum(s, w) == Wrap(Sum(s), w)
  {
    if |s| == 0 {
    } else {
      var init := s[..|s| - 1];
      WrappedSumIsWrappedTotal(init, w);
      WrapAdd(Sum(init), s[|s| - 1], w);
    }
  }

  /** `a == b` on two `Integer` references obtained by separate boxing
      conversions: the boxing cache hands out one shared object exactly for
      values in -128..127, and a fresh object otherwise. */
  predicate BoxedEquals(a: int, b: int): (same: bool)
    ensures same ==> a == b
    ensures -128 <= a <= 127 ==> (same <==> a == b)
    ensures !(-128 <= a <= 127) ==> !same
  {
    a == b && -128 <= a <= 127
  }
}
