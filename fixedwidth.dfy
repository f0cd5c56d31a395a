/** Fixed-width integer kinds: a bit width and a signedness, the range of
    values they hold and the two's-complement wrap-around onto that range.
    Every operation of the library is written once against a `Kind` and
    instantiated for the widths 8, 16, 32 and 64. */
module FixedWidth {

  import TruncDiv

  type Width = w: nat | w >= 1 witness 8

  datatype Kind = Kind(width: Width, signed: bool)

  function Pow2(n: nat): (r: nat)
    ensures r >= 1
  {
    if n == 0 then 1 else 2 * Pow2(n - 1)
  }

  lemma {:induction false} Pow2Add(m: nat, n: nat)
    ensures Pow2(m + n) == Pow2(m) * Pow2(n)
  {
    if m > 0 {
      Pow2Add(m - 1, n);
    }
  }

  /** Number of distinct values of the kind, 2^W. */
  function Modulus(k: Kind): (m: nat)
    ensures m >= 2
  {
    Pow2(k.width)
  }

  /** -2^(W-1) when signed, 0 when unsigned. */
  function MinValue(k: Kind): (lo: int)
    ensures k.signed ==> lo < 0
    ensures !k.signed ==> lo == 0
  {
    if k.signed then -(Pow2(k.width - 1) as int) else 0
  }

  /** 2^(W-1) - 1 when signed, 2^W - 1 when unsigned. */
  function MaxValue(k: Kind): (hi: int)
    ensures hi >= 0
    ensures hi - MinValue(k) + 1 == Modulus(k)
    ensures k.signed ==> hi == -MinValue(k) - 1
  {
    if k.signed then Pow2(k.width - 1) - 1 else Pow2(k.width) - 1
  }

  predicate InRange(k: Kind, x: int) {
    MinValue(k) <= x <= MaxValue(k)
  }

  /** The value of the kind congruent to `x` modulo 2^W: what a machine
      register of that width holds after computing `x`. */
  function Wrap(k: Kind, x: int): (r: int)
    ensures InRange(k, r)
    ensures (x - r) % Modulus(k) == 0
    ensures InRange(k, x) ==> r == x
  {
    var m := Modulus(k);
    var y := x - MinValue(k);
    MultipleMod(m, y / m);
    assert InRange(k, x) ==> y % m == y by { SmallMod(y, m); }
    MinValue(k) + y % m
  }

  lemma SmallMod(y: int, m: int)
    requires m > 0
    ensures 0 <= y < m ==> y % m == y
  {
  }

  lemma MultipleMod(m: int, q: int)
    requires m > 0
    ensures (m * q) % m == 0
  {
    var n := m * q;
    var q1, r1 := n / m, n % m;
    assert m * (q - q1) == r1;
    TruncDiv.SmallMultiple(m, q - q1);
  }

  /** Wrapping a value one modulus above the range subtracts the modulus. */
  lemma WrapAbove(k: Kind, x: int)
    requires MaxValue(k) < x <= MaxValue(k) + Modulus(k)
    ensures Wrap(k, x) == x - Modulus(k)
  {
    var m := Modulus(k);
    var y := x - MinValue(k);
    assert m <= y < 2 * m;
    assert y % m == y - m by { ModShift(y - m, m); }
  }

  /** Wrapping a value one modulus below the range adds the modulus. */
  lemma WrapBelow(k: Kind, x: int)
    requires MinValue(k) - Modulus(k) <= x < MinValue(k)
    ensures Wrap(k, x) == x + Modulus(k)
  {
    var m := Modulus(k);
    var y := x - MinValue(k);
    assert -m <= y < 0;
    assert y % m == y + m by { ModShift(y + m, m); ModShiftDown(y + m, m); }
  }

  lemma ModShift(z: int, m: int)
    requires m > 0 && 0 <= z < m
    ensures (z + m) % m == z
  {
  }

  lemma ModShiftDown(z: int, m: int)
    requires m > 0 && 0 <= z < m
    ensures (z - m) % m == z
  {
  }
}
