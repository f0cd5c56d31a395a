/** The table-driven scenarios of the package's tests, stated as facts
    about the model: each table is a sequence of named cases and each
    lemma says that every case of its table passes the test's check. */
module Scenarios {

  import opened Checked
  import opened Overflow
  import opened TruncDiv

  /** A case of a table whose operation returns `(value, ok)`. */
  datatype ValueCase<T> = ValueCase(name: string, a: T, b: T, want: T, wantBool: bool)

  /** A case of a table whose operation returns `(quotient, remainder, ok)`. */
  datatype DivCase<T> = DivCase(name: string, a: T, b: T, wantQuot: T, wantRem: T, wantBool: bool)

  /** A case of a table of strict operations. */
  datatype PanicCase<T> = PanicCase(name: string, a: T, b: T, wantPanic: bool)

  /** The division check: the flag always, quotient and remainder only on success. */
  predicate DivPasses<T(==)>(got: DivRem<T>, t: DivCase<T>) {
    got.ok == t.wantBool && (got.ok ==> got.quo == t.wantQuot && got.rem == t.wantRem)
  }

  const QuoTests: seq<DivCase<Int8>> := [
    DivCase("simple division", 10, 3, 3, 1, true),
    DivCase("exact division", 12, 4, 3, 0, true),
    DivCase("zero dividend", 0, 5, 0, 0, true),
    DivCase("one divisor", 42, 1, 42, 0, true),
    DivCase("positive / positive", 7, 3, 2, 1, true),
    DivCase("positive / negative", 7, -3, -2, 1, true),
    DivCase("negative / positive", -7, 3, -2, -1, true),
    DivCase("negative / negative", -7, -3, 2, -1, true),
    DivCase("max value / 1", 127, 1, 127, 0, true),
    DivCase("min value / 1", -128, 1, -128, 0, true),
    DivCase("max value / 2", 127, 2, 63, 1, true),
    DivCase("min value / 2", -128, 2, -64, 0, true),
    DivCase("min value / -1", -128, -1, 0, 0, false),
    DivCase("min value / min value", -128, -128, 1, 0, true),
    DivCase("-1 / min value", -1, -128, 0, -1, true),
    DivCase("division by zero", 42, 0, 0, 0, false),
    DivCase("zero division by zero", 0, 0, 0, 0, false),
    DivCase("max value with remainder", 127, 3, 42, 1, true),
    DivCase("min value with remainder", -128, 3, -42, -2, true)
  ]

  lemma QuoTable()
    ensures forall i :: 0 <= i < |QuoTests| ==> DivPasses(Quo8(QuoTests[i].a, QuoTests[i].b), QuoTests[i])
  {
    forall i | 0 <= i < |QuoTests|
      ensures DivPasses(Quo8(QuoTests[i].a, QuoTests[i].b), QuoTests[i])
    {
      QuoCase(QuoTests[i]);
    }
  }

  /** A Quo8 case passes when its expectations are those of truncated
      division failing only on a zero divisor and on MinInt8 / -1. */
  lemma QuoCase(t: DivCase<Int8>)
    requires t.wantBool == (t.b != 0 && !(t.a == -0x80 && t.b == -1))
    requires t.wantBool ==> t.wantQuot as int == Quot(t.a as int, t.b as int)
    requires t.wantBool ==> t.wantRem as int == Rem(t.a as int, t.b as int)
    ensures DivPasses(Quo8(t.a, t.b), t)
  {
  }

  const Div8pTests: seq<PanicCase<Int8>> := [
    PanicCase("normal division", 10, 2, false),
    PanicCase("division by zero", 42, 0, true),
    PanicCase("min value by -1", -128, -1, true),
    PanicCase("valid negative division", -128, 2, false)
  ]

  lemma Div8pTable()
    ensures forall i :: 0 <= i < |Div8pTests| ==>
      Div8p(Div8pTests[i].a, Div8pTests[i].b).Panic? == Div8pTests[i].wantPanic
  {
  }

  const UAddTests: seq<ValueCase<Uint8>> := [
    ValueCase("zero addition", 0, 0, 0, true),
    ValueCase("simple addition", 1, 2, 3, true),
    ValueCase("max value", 255, 0, 255, true),
    ValueCase("overflow", 255, 1, 0, false),
    ValueCase("near overflow", 254, 1, 255, true),
    ValueCase("half values", 127, 127, 254, true),
    ValueCase("overflow large", 200, 100, 44, false)
  ]

  lemma UnsignedAddTable()
    ensures forall i :: 0 <= i < |UAddTests| ==>
      UAdd8(UAddTests[i].a, UAddTests[i].b) == ValueOk(UAddTests[i].want, UAddTests[i].wantBool)
  {
  }

  const USubTests: seq<ValueCase<Uint8>> := [
    ValueCase("zero subtraction", 0, 0, 0, true),
    ValueCase("simple subtraction", 3, 2, 1, true),
    ValueCase("max value", 255, 1, 254, true),
    ValueCase("underflow", 0, 1, 0, false),
    ValueCase("near underflow", 1, 1, 0, true),
    ValueCase("equal values", 128, 128, 0, true),
    ValueCase("max minus max", 255, 255, 0, true)
  ]

  lemma UnsignedSubTable()
    ensures forall i :: 0 <= i < |USubTests| ==>
      USub8(USubTests[i].a, USubTests[i].b) == ValueOk(USubTests[i].want, USubTests[i].wantBool)
  {
  }

  const UMulTests: seq<ValueCase<Uint8>> := [
    ValueCase("zero multiplication", 0, 5, 0, true),
    ValueCase("simple multiplication", 2, 3, 6, true),
    ValueCase("max value", 255, 1, 255, true),
    ValueCase("overflow", 255, 2, 254, false),
    ValueCase("near overflow", 127, 2, 254, true),
    ValueCase("small values 1", 10, 10, 100, true),
    ValueCase("small values 2", 15, 16, 240, true),
    ValueCase("overflow large", 16, 16, 0, false),
    ValueCase("max * max", 255, 255, 1, false),
    ValueCase("half max", 128, 2, 0, false)
  ]

  lemma UnsignedMulTable()
    ensures forall i :: 0 <= i < |UMulTests| ==>
      UMul8(UMulTests[i].a, UMulTests[i].b) == ValueOk(UMulTests[i].want, UMulTests[i].wantBool)
  {
  }

  const UDivTests: seq<DivCase<Uint8>> := [
    DivCase("simple division", 10, 2, 5, 0, true),
    DivCase("division with remainder", 10, 3, 3, 1, true),
    DivCase("divide by zero", 10, 0, 0, 0, false),
    DivCase("max value", 255, 2, 127, 1, true),
    DivCase("divide by one", 127, 1, 127, 0, true),
    DivCase("zero dividend", 0, 5, 0, 0, true),
    DivCase("equal values", 128, 128, 1, 0, true)
  ]

  lemma UnsignedDivTable()
    ensures forall i :: 0 <= i < |UDivTests| ==>
      DivPasses(UQuotient8(UDivTests[i].a, UDivTests[i].b), UDivTests[i])
  {
  }

  lemma UnsignedPanicTable()
    ensures UAdd8p(255, 1).Panic?
    ensures USub8p(0, 1).Panic?
    ensures UMul8p(255, 2).Panic?
    ensures UDiv8p(10, 0).Panic?
    ensures UAdd8p(1, 1).Value?
  {
  }

  lemma HigherBitOperations()
    ensures UAdd16(0xFFFE, 1) == ValueOk(0xFFFF, true)
    ensures UAdd32(0xFFFF_FFFE, 1) == ValueOk(0xFFFF_FFFF, true)
    ensures UAdd64(0xFFFF_FFFF_FFFF_FFFE, 1) == ValueOk(0xFFFF_FFFF_FFFF_FFFF, true)
  {
  }
}
