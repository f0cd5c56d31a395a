/** The Go-facing surface of package `overflow`: the checked operations on
    Go's fixed-width integer types that return `(value, ok)` or
    `(quotient, remainder, ok)`, and the strict `...p` variants that stop
    with a fault instead of returning a failed result. Each one is the
    generic operation of module Checked at its kind. */
module Overflow {

  import opened FixedWidth
  import opened TruncDiv
  import opened Checked

  newtype Int8 = x: int | -0x80 <= x < 0x80
  newtype Uint8 = x: int | 0 <= x < 0x100
  newtype Uint16 = x: int | 0 <= x < 0x1_0000
  newtype Uint32 = x: int | 0 <= x < 0x1_0000_0000
  newtype Uint64 = x: int | 0 <= x < 0x1_0000_0000_0000_0000

  const I8 := Kind(8, true)
  const U8 := Kind(8, false)
  const U16 := Kind(16, false)
  const U32 := Kind(32, false)
  const U64 := Kind(64, false)

  /** The ranges and moduli of the kinds above agree with Go's
      math.MinInt8, math.MaxInt8 and math.MaxUintN. */
  lemma KindBounds()
    ensures MinValue(I8) == -0x80 && MaxValue(I8) == 0x7F
    ensures MaxValue(U8) == 0xFF && Modulus(U8) == 0x100
    ensures MaxValue(U16) == 0xFFFF && Modulus(U16) == 0x1_0000
    ensures MaxValue(U32) == 0xFFFF_FFFF && Modulus(U32) == 0x1_0000_0000
    ensures MaxValue(U64) == 0xFFFF_FFFF_FFFF_FFFF && Modulus(U64) == 0x1_0000_0000_0000_0000
  {
    assert Pow2(7) == 0x80 && Pow2(8) == 0x100;
    Pow2Add(8, 8);
    Pow2Add(16, 16);
    Pow2Add(32, 32);
  }

  // Signed 8-bit operations

  function Add8(a: Int8, b: Int8): (r: ValueOk<Int8>)
    ensures r.ok <==> -0x80 <= a as int + b as int <= 0x7F
    ensures r.ok ==> r.value as int == a as int + b as int
    ensures !r.ok ==> r.value as int != a as int + b as int
  {
    KindBounds();
    var c := Add(I8, a as int, b as int);
    ValueOk(c.value as Int8, c.ok)
  }

  function Sub8(a: Int8, b: Int8): (r: ValueOk<Int8>)
    ensures r.ok <==> -0x80 <= a as int - b as int <= 0x7F
    ensures r.ok ==> r.value as int == a as int - b as int
    ensures !r.ok ==> r.value as int != a as int - b as int
  {
    KindBounds();
    var c := Sub(I8, a as int, b as int);
    ValueOk(c.value as Int8, c.ok)
  }

  function Mul8(a: Int8, b: Int8): (r: ValueOk<Int8>)
    ensures r.ok <==> -0x80 <= a as int * b as int <= 0x7F
    ensures r.ok ==> r.value as int == a as int * b as int
    ensures !r.ok ==> r.value as int != a as int * b as int
  {
    KindBounds();
    var c := Mul(I8, a as int, b as int);
    ValueOk(c.value as Int8, c.ok)
  }

  /** Checked signed division: truncated quotient and remainder, failing
      exactly on a zero divisor and on MinInt8 / -1. */
  function Quo8(a: Int8, b: Int8): (r: DivRem<Int8>)
    ensures r.ok <==> b != 0 && !(a == -0x80 && b == -1)
    ensures r.ok ==> r.quo as int == Quot(a as int, b as int)
    ensures r.ok ==> a as int == b as int * r.quo as int + r.rem as int
    ensures r.ok ==> Abs(r.rem as int) < Abs(b as int)
    ensures r.ok ==> r.rem == 0 || ((r.rem < 0) <==> (a < 0))
  {
    KindBounds();
    assert b != 0 ==> (InRange(I8, Quot(a as int, b as int)) <==> !(a == -0x80 && b == -1)) by {
      if b != 0 { QuotientFits(I8, a as int, b as int); }
    }
    var d := Quo(I8, a as int, b as int);
    DivRem(d.quo as Int8, d.rem as Int8, d.ok)
  }

  /** Checked signed division as the exhaustive test sees it: a successful
      quotient is Go's `a / b`, and a failed, non-zero quotient is not. The
      test leaves the flag free on a zero quotient, so it also allows a
      failure on a valid division such as 0 / -5; the body is one rule the
      test allows, the one of Quo8. */
  function Quotient8(a: Int8, b: Int8): (r: DivRem<Int8>)
    ensures b != 0 && r.ok ==> r.quo as int == Quot(a as int, b as int)
    ensures b != 0 && !r.ok && r.quo != 0 ==> r.quo as int != Quot(a as int, b as int)
  {
    Quo8(a, b)
  }

  // Unsigned operations

  function UAdd8(a: Uint8, b: Uint8): (r: ValueOk<Uint8>)
    ensures r.ok <==> a as int + b as int <= 0xFF
    ensures r.value as int == (a as int + b as int) % 0x100
  {
    KindBounds();
    var c := Add(U8, a as int, b as int);
    ValueOk(c.value as Uint8, c.ok)
  }

  function USub8(a: Uint8, b: Uint8): (r: ValueOk<Uint8>)
    ensures r.ok <==> a >= b
    ensures r.ok ==> r.value as int == a as int - b as int
    ensures !r.ok ==> r.value == 0
  {
    KindBounds();
    var c := Sub(U8, a as int, b as int);
    ValueOk(c.value as Uint8, c.ok)
  }

  function UMul8(a: Uint8, b: Uint8): (r: ValueOk<Uint8>)
    ensures r.ok <==> a as int * b as int <= 0xFF
    ensures r.value as int == (a as int * b as int) % 0x100
  {
    KindBounds();
    var p := a as int * b as int;
    var c := Mul(U8, a as int, b as int);
    assert c.value == p % 0x100 && (c.ok <==> p <= 0xFF);
    ValueOk(c.value as Uint8, c.ok)
  }

  function UQuotient8(a: Uint8, b: Uint8): (r: DivRem<Uint8>)
    ensures r.ok <==> b != 0
    ensures r.ok ==> r.quo == a / b && r.rem == a % b
  {
    KindBounds();
    var x, y := a as int, b as int;
    var d := Quo(U8, x, y);
    assert d.ok ==> d.quo == x / y && d.rem == x % y by {
      if y != 0 { AgreesOnNaturals(x, y); }
    }
    DivRem(d.quo as Uint8, d.rem as Uint8, d.ok)
  }

  function UAdd16(a: Uint16, b: Uint16): (r: ValueOk<Uint16>)
    ensures r.ok <==> a as int + b as int <= 0xFFFF
    ensures r.value as int == (a as int + b as int) % 0x1_0000
  {
    KindBounds();
    var c := Add(U16, a as int, b as int);
    ValueOk(c.value as Uint16, c.ok)
  }

  function UAdd32(a: Uint32, b: Uint32): (r: ValueOk<Uint32>)
    ensures r.ok <==> a as int + b as int <= 0xFFFF_FFFF
    ensures r.value as int == (a as int + b as int) % 0x1_0000_0000
  {
    KindBounds();
    var c := Add(U32, a as int, b as int);
    ValueOk(c.value as Uint32, c.ok)
  }

  function UAdd64(a: Uint64, b: Uint64): (r: ValueOk<Uint64>)
    ensures r.ok <==> a as int + b as int <= 0xFFFF_FFFF_FFFF_FFFF
    ensures r.value as int == (a as int + b as int) % 0x1_0000_0000_0000_0000
  {
    KindBounds();
    var c := Add(U64, a as int, b as int);
    ValueOk(c.value as Uint64, c.ok)
  }

  // Strict variants: the checked result, or a fault naming the operation
  // and its operands where Go panics.

  datatype Fault = Fault(op: string, a: int, b: int)

  datatype Strict<T> = Value(value: T) | Panic(fault: Fault)

  function Div8p(a: Int8, b: Int8): (r: Strict<Int8>)
    ensures r.Panic? <==> !Quo8(a, b).ok
    ensures r.Panic? <==> b == 0 || (a == -0x80 && b == -1)
    ensures r.Value? ==> r.value as int == Quot(a as int, b as int)
  {
    var d := Quo8(a, b);
    if d.ok then Value(d.quo) else Panic(Fault("Div8p", a as int, b as int))
  }

  function UAdd8p(a: Uint8, b: Uint8): (r: Strict<Uint8>)
    ensures r.Panic? <==> !UAdd8(a, b).ok
    ensures r.Value? ==> r.value as int == a as int + b as int
  {
    var c := UAdd8(a, b);
    if c.ok then Value(c.value) else Panic(Fault("UAdd8p", a as int, b as int))
  }

  function USub8p(a: Uint8, b: Uint8): (r: Strict<Uint8>)
    ensures r.Panic? <==> !USub8(a, b).ok
    ensures r.Value? ==> r.value as int == a as int - b as int
  {
    var c := USub8(a, b);
    if c.ok then Value(c.value) else Panic(Fault("USub8p", a as int, b as int))
  }

  function UMul8p(a: Uint8, b: Uint8): (r: Strict<Uint8>)
    ensures r.Panic? <==> !UMul8(a, b).ok
    ensures r.Value? ==> r.value as int == a as int * b as int
  {
    var c := UMul8(a, b);
    if c.ok then Value(c.value) else Panic(Fault("UMul8p", a as int, b as int))
  }

  function UDiv8p(a: Uint8, b: Uint8): (r: Strict<Uint8>)
    ensures r.Panic? <==> !UQuotient8(a, b).ok
    ensures r.Value? ==> r.value == a / b
  {
    var d := UQuotient8(a, b);
    if d.ok then Value(d.quo) else Panic(Fault("UDiv8p", a as int, b as int))
  }
}
