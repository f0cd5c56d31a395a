/** The checked arithmetic core, written once for every width and
    signedness. Each operation returns its result with a flag that holds
    exactly when the true (unbounded) result is representable in the kind;
    when it does not hold the returned value is not the true result. */
module Checked {

  import opened FixedWidth
  import opened TruncDiv

  /** A value with its success flag, as in Go's `(value, ok)` returns. */
  datatype ValueOk<T> = ValueOk(value: T, ok: bool)

  /** Quotient, remainder and success flag of a checked division. */
  datatype DivRem<T> = DivRem(quo: T, rem: T, ok: bool)

  /** Wrap-around near the range: a value at most one modulus outside the
      range is brought back by adding or subtracting the modulus once. */
  lemma WrapNear(k: Kind, x: int)
    requires MinValue(k) - Modulus(k) <= x <= MaxValue(k) + Modulus(k)
    ensures x > MaxValue(k) ==> Wrap(k, x) == x - Modulus(k)
    ensures x < MinValue(k) ==> Wrap(k, x) == x + Modulus(k)
  {
    if x > MaxValue(k) {
      WrapAbove(k, x);
    } else if x < MinValue(k) {
      WrapBelow(k, x);
    }
  }

  /** Addition. The flag is decided on the wrapped sum `c` alone: for
      signed kinds the sum overflowed iff both operands have the same sign
      and `c` has the other one; for unsigned kinds iff `c` is below `a`. */
  function Add(k: Kind, a: int, b: int): (r: ValueOk<int>)
    requires InRange(k, a) && InRange(k, b)
    ensures InRange(k, r.value)
    ensures r.ok <==> InRange(k, a + b)
    ensures r.ok ==> r.value == a + b
    ensures !r.ok ==> r.value != a + b
    ensures !k.signed ==> r.value == (a + b) % Modulus(k)
  {
    var c := Wrap(k, a + b);
    WrapNear(k, a + b);
    var overflow :=
      if k.signed then (a < 0) == (b < 0) && (c < 0) != (a < 0)
      else c < a;
    ValueOk(c, !overflow)
  }

  /** Subtraction. Signed kinds: the difference overflowed iff the operands
      have different signs and the wrapped difference `c` has not the sign
      of `a`; the wrapped difference is returned either way. Unsigned kinds:
      a borrow (`a < b`) fails and returns 0. */
  function Sub(k: Kind, a: int, b: int): (r: ValueOk<int>)
    requires InRange(k, a) && InRange(k, b)
    ensures InRange(k, r.value)
    ensures r.ok <==> InRange(k, a - b)
    ensures r.ok ==> r.value == a - b
    ensures !r.ok ==> r.value != a - b
    ensures !k.signed ==> (r.ok <==> a >= b)
    ensures !k.signed && !r.ok ==> r.value == 0
  {
    if k.signed then
      var c := Wrap(k, a - b);
      WrapNear(k, a - b);
      var overflow := (a < 0) != (b < 0) && (c < 0) != (a < 0);
      ValueOk(c, !overflow)
    else if a < b then
      ValueOk(0, false)
    else
      ValueOk(a - b, true)
  }

  /** Multiplication, range-checked on the exact product; the wrapped
      product is returned either way. */
  function Mul(k: Kind, a: int, b: int): (r: ValueOk<int>)
    requires InRange(k, a) && InRange(k, b)
    ensures InRange(k, r.value)
    ensures r.ok <==> InRange(k, a * b)
    ensures r.ok ==> r.value == a * b
    ensures !r.ok ==> r.value != a * b
    ensures (a * b - r.value) % Modulus(k) == 0
    ensures !k.signed ==> r.value == (a * b) % Modulus(k)
  {
    ValueOk(Wrap(k, a * b), InRange(k, a * b))
  }

  /** Truncated division with remainder. It fails on a zero divisor and on
      the one signed division whose quotient is not representable, the
      minimum divided by -1; it returns (0, 0) when it fails. */
  function Quo(k: Kind, a: int, b: int): (r: DivRem<int>)
    requires InRange(k, a) && InRange(k, b)
    ensures r.ok <==> b != 0 && InRange(k, Quot(a, b))
    ensures r.ok ==> r.quo == Quot(a, b) && r.rem == Rem(a, b)
    ensures r.ok ==> InRange(k, r.quo) && InRange(k, r.rem)
    ensures r.ok ==> a == b * r.quo + r.rem
    ensures r.ok ==> Abs(r.rem) < Abs(b)
    ensures r.ok ==> r.rem == 0 || ((r.rem < 0) <==> (a < 0))
  {
    if b == 0 || (k.signed && a == MinValue(k) && b == -1) then
      DivRem(0, 0, false)
    else
      QuotientFits(k, a, b);
      Identity(a, b);
      DivRem(Quot(a, b), Rem(a, b), true)
  }

  /** Every quotient of two values of a kind is representable, except the
      signed minimum divided by -1. */
  lemma {:induction false} QuotientFits(k: Kind, a: int, b: int)
    requires InRange(k, a) && InRange(k, b) && b != 0
    ensures InRange(k, Quot(a, b)) <==> !(k.signed && a == MinValue(k) && b == -1)
  {
    var q := Quot(a, b);
    if k.signed && a == MinValue(k) && b == -1 {
      assert q == -a;
    } else if q > MaxValue(k) {
      assert k.signed && a == MinValue(k) && q == -a;
      assert Abs(b) == 1 by { WholeQuotient(Abs(a), Abs(b)); }
    }
  }

  /** A positive number divided by anything but 1 gets smaller. */
  lemma WholeQuotient(n: nat, d: nat)
    requires n > 0 && d > 0 && n / d == n
    ensures d == 1
  {
    assert n == d * n + n % d;
    DoubleAtLeast(d, n);
  }

  lemma DoubleAtLeast(d: nat, n: nat)
    ensures d >= 2 ==> d * n >= 2 * n
  {
    if d >= 2 {
      assert d * n == 2 * n + (d - 2) * n;
    }
  }

  /** At every unsigned width the largest value is reached exactly from
      one below it. */
  lemma AddUpToMax(k: Kind)
    requires !k.signed
    ensures Add(k, MaxValue(k) - 1, 1) == ValueOk(MaxValue(k), true)
    ensures Add(k, MaxValue(k), 1) == ValueOk(0, false)
  {
    var m := MaxValue(k);
    assert Wrap(k, m) == m;
    WrapNear(k, m + 1);
    assert Wrap(k, m + 1) == 0;
  }

  /** The signed division edge cases at every width of two bits or more:
      the minimum divided by -1 fails, the minimum divided by itself is 1
      remainder 0, and -1 divided by the minimum is 0 remainder -1. */
  lemma SignedDivisionEdges(k: Kind)
    requires k.signed && k.width >= 2
    ensures !Quo(k, MinValue(k), -1).ok
    ensures Quo(k, MinValue(k), MinValue(k)) == DivRem(1, 0, true)
    ensures Quo(k, -1, MinValue(k)) == DivRem(0, -1, true)
  {
  }
}
