/** Integer division as Go defines it for its integer types: the quotient is
    rounded toward zero and the remainder takes the sign of the dividend.
    Dafny's own `/` and `%` are Euclidean (the remainder is never negative),
    so the two agree only on non-negative operands. */
module TruncDiv {

  function Abs(x: int): (r: nat)
    ensures r == x || r == -x
  {
    if x < 0 then -x else x
  }

  /** Quotient of `a` by `b`, rounded toward zero. */
  function Quot(a: int, b: int): (q: int)
    requires b != 0
    ensures Abs(q) <= Abs(a)
    ensures q == 0 || ((q < 0) <==> ((a < 0) != (b < 0)))
  {
    var q0 := Abs(a) / Abs(b);
    assert q0 <= Abs(a) by { QuotientBound(Abs(a), Abs(b)); }
    if (a < 0) == (b < 0) then q0 else -q0
  }

  /** Remainder of `a` by `b`; it is zero or has the sign of `a`, and its
      magnitude is below that of `b`. */
  function Rem(a: int, b: int): (r: int)
    requires b != 0
    ensures Abs(r) < Abs(b)
    ensures r == 0 || ((r < 0) <==> (a < 0))
  {
    var r0 := Abs(a) % Abs(b);
    if a < 0 then -r0 else r0
  }

  lemma QuotientBound(n: nat, d: nat)
    requires d > 0
    ensures n / d <= n
  {
    var q, r := n / d, n % d;
    assert n == d * q + r;
    if q > n {
      assert d * q >= q by { MulMonotone(d, q); }
    }
  }

  lemma MulMonotone(d: nat, q: nat)
    requires d >= 1
    ensures d * q >= q
  {
    assert d * q == q + (d - 1) * q;
  }

  /** The division identity: quotient and remainder recompose the dividend. */
  lemma {:induction false} Identity(a: int, b: int)
    requires b != 0
    ensures a == b * Quot(a, b) + Rem(a, b)
    decreases (if a < 0 then 1 else 0) + (if b < 0 then 1 else 0)
  {
    if a < 0 {
      Identity(-a, b);
      assert Quot(-a, b) == -Quot(a, b) && Rem(-a, b) == -Rem(a, b);
      MulNeg(b, Quot(a, b));
    } else if b < 0 {
      Identity(a, -b);
      assert Quot(a, -b) == -Quot(a, b) && Rem(a, -b) == Rem(a, b);
      MulNeg(b, Quot(a, b));
    } else {
      assert a == b * (a / b) + a % b;
    }
  }

  lemma MulNeg(x: int, y: int)
    ensures (-x) * y == -(x * y) && x * -y == -(x * y)
  {
  }

  /** Euclidean division on naturals is determined by its identity and bound. */
  lemma EuclidUnique(n: nat, d: nat, q: int, r: int)
    requires d > 0 && 0 <= r < d && n == d * q + r
    ensures q == n / d && r == n % d
  {
    var q1, r1 := n / d, n % d;
    assert d * (q - q1) == r1 - r;
    SmallMultiple(d, q - q1);
  }

  /** The only multiple of `d` strictly between `-d` and `d` is zero. */
  lemma SmallMultiple(d: int, k: int)
    requires d > 0 && -d < d * k < d
    ensures k == 0
  {
    if k >= 1 {
      MulMonotone(k, d);
    }
  }

  /** Truncated division is the only division whose remainder is smaller
      than the divisor and zero or of the dividend's sign: any such pair
      is (Quot(a, b), Rem(a, b)). */
  lemma Unique(a: int, b: int, q: int, r: int)
    requires b != 0
    requires a == b * q + r
    requires Abs(r) < Abs(b)
    requires r == 0 || ((r < 0) <==> (a < 0))
    ensures q == Quot(a, b) && r == Rem(a, b)
  {
    var n, d := Abs(a), Abs(b);
    if a >= 0 && b > 0 {
      assert n == a && d == b && r >= 0;
      EuclidUnique(n, d, q, r);
    } else if a >= 0 {
      assert n == a && d == -b && r >= 0;
      assert b * q == d * -q;
      EuclidUnique(n, d, -q, r);
    } else if b > 0 {
      assert n == -a && d == b && r <= 0;
      assert -(b * q) == d * -q;
      EuclidUnique(n, d, -q, -r);
    } else {
      assert n == -a && d == -b && r <= 0;
      assert -(b * q) == d * q;
      EuclidUnique(n, d, q, -r);
    }
  }

  /** On non-negative operands truncated and Euclidean division agree. */
  lemma AgreesOnNaturals(a: int, b: int)
    requires a >= 0 && b > 0
    ensures Quot(a, b) == a / b && Rem(a, b) == a % b
  {
  }
}
