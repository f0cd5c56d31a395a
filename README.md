# Checked fixed-width integer arithmetic (gnolang/overflow)

A Dafny model of the Go package `overflow`: addition, subtraction,
multiplication and truncated division on fixed-width integers, where every
operation returns its result together with a flag `ok` that holds exactly
when the true mathematical result fits the width. The package's
implementation file is not part of this model. The model is built from what
the package's test file, `overflow_test.go`, asserts of it.

The model has four layers:

- `TruncDiv` (truncdiv.dfy): Go's integer division. The quotient rounds
  toward zero and the remainder takes the dividend's sign. Dafny's own `/`
  and `%` are Euclidean, so `Quot` and `Rem` are built from them on absolute
  values. Lemmas prove the division identity and that truncated division is
  the only division with these properties.
- `FixedWidth` (fixedwidth.dfy): a `Kind` is a bit width and a signedness.
  It has a range, `[-2^(W-1), 2^(W-1)-1]` when signed and `[0, 2^W-1]` when
  unsigned, and a two's-complement wrap-around `Wrap` onto that range.
- `Checked` (checked.dfy): the operations, each written once for every
  kind. Signed `Add` and `Sub` and unsigned `Add` compute their flag from
  the wrapped result with sign rules. Signed: a sum overflows iff both
  operands have the same sign and the wrapped sum has the other sign, and a
  difference overflows iff the operands' signs differ and the wrapped
  difference does not have the sign of the first operand. Unsigned: a sum
  overflows iff the wrapped sum is below an operand. Unsigned `Sub` fails
  iff `a < b`. Each flag is proved equal to "the exact result is in
  range". `Quo` detects the two failing
  divisions explicitly: a zero divisor, and the signed minimum divided by
  -1. It is proved that these are exactly the divisions whose quotient is
  not representable.
- `Overflow` (overflow.dfy): the Go-facing functions the tests call, on
  newtypes for Go's `int8`, `uint8`, `uint16`, `uint32` and `uint64`. The
  strict `...p` variants return `Value(v)`, or `Panic(fault)` where Go
  panics. `Scenarios` (scenarios.dfy) restates the test tables as named
  cases that every row of the model passes.

The values returned on failure follow the tests, and the wrap-around
convention where the tests fix nothing:

- Unsigned addition and multiplication return the result modulo 2^W.
- Unsigned subtraction returns 0 on a borrow.
- Signed addition, subtraction and multiplication return the wrapped
  result. Their contracts promise only that it differs from the true result.
- A failed division returns (0, 0). Its contract promises nothing about it.

## Model

| member | source | states |
|---|---|---|
| `TruncDiv.Quot` | overflow_test.go:76-91 | the quotient Go's `a64 / b64` computes: no larger in magnitude than the dividend, and negative only when the operands' signs differ |
| `TruncDiv.Rem` | overflow_test.go:156-166 | the remainder is smaller in magnitude than the divisor, and is zero or has the dividend's sign |
| `TruncDiv.Identity` | overflow_test.go:149-154 | dividend == divisor * quotient + remainder |
| `TruncDiv.Unique` | overflow_test.go:149-166 | any quotient and remainder that satisfy the identity, the magnitude bound and the sign rule are `Quot` and `Rem`, so the test's relation checks fix the results uniquely |
| `TruncDiv.AgreesOnNaturals` | overflow_test.go:308-314 | on non-negative operands truncated division equals ordinary (floor) division and modulus |
| `FixedWidth.Pow2Add` | overflow_test.go:384-407 | 2^(m+n) == 2^m * 2^n, used to obtain the 16-, 32- and 64-bit bounds |
| `FixedWidth.Wrap` | overflow_test.go:211-214 | the wrapped value is in range, congruent to its argument modulo 2^W, and equal to it when the argument is already in range (300 wraps to 44 at 8 bits) |
| `Overflow.KindBounds` | overflow_test.go:15-17 | the kinds' ranges are Go's: MinInt8 = -128, MaxInt8 = 127, MaxUint8/16/32/64 = 2^W - 1 |
| `Checked.Add` | overflow_test.go:26-41 | the sign-rule flag holds iff the exact sum is in range; on success the value is the sum, on failure it differs from it; unsigned values are the sum mod 2^W |
| `Checked.Sub` | overflow_test.go:43-57 | the flag holds iff the exact difference is in range; on success the value is the difference, on failure it differs; unsigned: ok iff a >= b, and the value is 0 on a borrow |
| `Checked.Mul` | overflow_test.go:59-74 | the flag holds iff the exact product is in range; the value is congruent to the product mod 2^W, equals it on success and differs from it on failure; unsigned values are the product mod 2^W |
| `Checked.Quo` | overflow_test.go:97-170 | the flag holds iff the divisor is non-zero and the truncated quotient is representable; on success quotient and remainder are Go's, both in range, recompose the dividend, and the remainder is smaller than the divisor with the dividend's sign |
| `Checked.QuotientFits` | overflow_test.go:121-123 | for a non-zero divisor, the quotient is unrepresentable exactly when a signed minimum is divided by -1 |
| `Checked.AddUpToMax` | overflow_test.go:384-407 | at every unsigned width, (Max-1) + 1 = (Max, true) and Max + 1 = (0, false) |
| `Checked.SignedDivisionEdges` | overflow_test.go:121-123 | at every signed width of 2 bits or more, Min / -1 fails, Min / Min = (1, 0, true) and -1 / Min = (0, -1, true) |
| `Overflow.Add8` | overflow_test.go:26-41 | against the 64-bit sum: ok iff -128 <= a+b <= 127; on success the result equals a+b, on failure it differs from a+b |
| `Overflow.Sub8` | overflow_test.go:43-57 | against the 64-bit difference: ok iff it is in [-128, 127]; on success the result equals it, on failure it differs |
| `Overflow.Mul8` | overflow_test.go:59-74 | against the 64-bit product: ok iff it is in [-128, 127]; on success the result equals it, on failure it differs |
| `Overflow.Quo8` | overflow_test.go:97-170 | fails exactly on b = 0 (0/0 included) and on MinInt8 / -1; on success the quotient is Go's a / b, a == b*q + r, \|r\| < \|b\| and r is zero or has a's sign |
| `Overflow.Quotient8` | overflow_test.go:76-91 | for b != 0, a successful quotient is Go's a / b, and a failed non-zero quotient is not |
| `Overflow.UAdd8` | overflow_test.go:200-230 | ok iff a+b <= 255; the value is (a+b) mod 256 in every case |
| `Overflow.USub8` | overflow_test.go:232-262 | ok iff a >= b; the value is a-b on success and 0 on a borrow |
| `Overflow.UMul8` | overflow_test.go:264-297 | ok iff a*b <= 255; the value is (a*b) mod 256 in every case |
| `Overflow.UQuotient8` | overflow_test.go:299-336 | fails only when b = 0; otherwise the quotient is a div b and the remainder a mod b |
| `Overflow.UAdd16` | overflow_test.go:385-391 | ok iff a+b <= MaxUint16; the value is (a+b) mod 2^16 |
| `Overflow.UAdd32` | overflow_test.go:393-399 | ok iff a+b <= MaxUint32; the value is (a+b) mod 2^32 |
| `Overflow.UAdd64` | overflow_test.go:401-407 | ok iff a+b <= MaxUint64; the value is (a+b) mod 2^64 |
| `Overflow.Div8p` | overflow_test.go:173-198 | faults exactly when Quo8 is not ok, that is on b = 0 or MinInt8 / -1; otherwise returns Go's a / b |
| `Overflow.UAdd8p` | overflow_test.go:344-368 | faults exactly when UAdd8 is not ok; otherwise returns the exact sum |
| `Overflow.USub8p` | overflow_test.go:349-352 | faults exactly when USub8 is not ok; otherwise returns the exact difference |
| `Overflow.UMul8p` | overflow_test.go:354-357 | faults exactly when UMul8 is not ok; otherwise returns the exact product |
| `Overflow.UDiv8p` | overflow_test.go:359-362 | faults exactly when UQuotient8 is not ok, that is on b = 0; otherwise returns a div b |
| `Scenarios.QuoTable` | overflow_test.go:105-129 | every row of the Quo8 table passes: the status always matches, and quotient and remainder match when ok |
| `Scenarios.Div8pTable` | overflow_test.go:180-183 | Div8p faults on 42/0 and -128/-1 and not on 10/2 or -128/2 |
| `Scenarios.UnsignedAddTable` | overflow_test.go:208-214 | every UAdd8 row matches in value and flag, including 255+1 = (0, false) and 200+100 = (44, false) |
| `Scenarios.UnsignedSubTable` | overflow_test.go:240-246 | every USub8 row matches, including 0-1 = (0, false) |
| `Scenarios.UnsignedMulTable` | overflow_test.go:272-281 | every UMul8 row matches, including 16*16 = (0, false) and 255*255 = (1, false) |
| `Scenarios.UnsignedDivTable` | overflow_test.go:308-314 | every UQuotient8 row matches: the status always, quotient and remainder when ok |
| `Scenarios.UnsignedPanicTable` | overflow_test.go:344-368 | UAdd8p(255, 1), USub8p(0, 1), UMul8p(255, 2) and UDiv8p(10, 0) fault; UAdd8p(1, 1) does not |
| `Scenarios.HigherBitOperations` | overflow_test.go:384-407 | UAddW(MaxUintW - 1, 1) = (MaxUintW, true) for W = 16, 32 and 64 |

## Left out

- The implementation file of the package is not part of this model. Every contract comes from what the tests check, and the sign rules of `Add` and `Sub` are the usual two's-complement overflow tests.
- Go's panic and recover are not modelled. A strict variant returns `Panic(Fault(op, a, b))` where Go panics. The fault records the operation's name and its operands. Go's panic message text is not modelled.
- The test harness is not modelled: `t.Errorf`, `t.Fail`, `t.Fatal`, the error counter and the early stop after ten errors. The exhaustive loops over all int8 pairs become the universally quantified contracts of `Add8`, `Sub8`, `Mul8` and `Quotient8`.
- Quotient8: its contract states only what the exhaustive test checks of it (overflow_test.go:76-91). The test skips failed results whose quotient is 0 (overflow_test.go:87), so it also allows `!ok` with a zero quotient on a valid division such as 0 / -5. The model computes Quotient8 by Quo8's rule, which is one implementation the test allows, and does not represent that other behaviour.
- Add8, Sub8, Mul8: these return the wrapped result on failure. Their contracts promise only that this value differs from the true result.
- A failed division returns (0, 0). The tests do not check this value, so no contract promises it.
- `Mul` decides its flag by range-checking the exact product. How the implementation detects multiplication overflow at 64 bits, where Go has no wider type, is not modelled.
- The generic core covers every width and signedness. Go-facing functions exist only for the operations the tests call. The library's other instantiations (such as `Add16`, `Mul64` and the other strict variants) are the generic operations at other kinds, and they have no Go-facing functions here.
- The test exempts divisors equal to MinInt8 from the check |r| < |b| (overflow_test.go:156-157). The only reason is that Go's `abs8(-128)` overflows. The model proves |r| < |b| for every non-zero divisor, MinInt8 included.
