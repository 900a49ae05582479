/** Java primitive values the data-frame core works with: UTF-16 code units,
    strings of them, 32- and 64-bit integers, and the decimal rendering that
    `Integer.toString` / `Long.toString` produce. */
module JavaLang {

  /** A Java `char`: one UTF-16 code unit. */
  type JChar = c: int | 0 <= c < 0x1_0000

  /** A Java `String`: a sequence of UTF-16 code units. */
  type JString = seq<JChar>

  type Int32 = x: int | -0x8000_0000 <= x < 0x8000_0000
  /** `Integer.MAX_VALUE`, where a cast of a too large `double` to `int` saturates. */
  const IntMax: int := 0x7fff_ffff
  type Int64 = x: int | -0x8000_0000_0000_0000 <= x < 0x8000_0000_0000_0000

  /** The byte type of `DataOutputStream`. */
  type Byte = b: int | 0 <= b < 0x100

  const Tab: JChar := 9
  const Minus: JChar := 45
  const Zero: JChar := 48

  /** "null", as `String.valueOf((Object) null)` renders it. */
  const NullText: JString := [110, 117, 108, 108]
  const TrueText: JString := [116, 114, 117, 101]
  const FalseText: JString := [102, 97, 108, 115, 101]

  predicate IsDigit(c: JChar) {
    Zero <= c < Zero + 10
  }

  /** Decimal digits of a non-negative number, most significant first. */
  function Digits(n: nat): (r: JString)
    ensures |r| >= 1
    ensures forall i :: 0 <= i < |r| ==> IsDigit(r[i])
    ensures n < 10 <==> |r| == 1
  {
    if n < 10 then [Zero + n] else Digits(n / 10) + [Zero + n % 10]
  }

  /** The value a string of decimal digits denotes. */
  function DigitsValue(s: JString): nat
    requires forall i :: 0 <= i < |s| ==> IsDigit(s[i])
  {
    if s == [] then 0
    else
      var last := s[|s| - 1];
      assert IsDigit(last);
      DigitsValue(s[..|s| - 1]) * 10 + (last - Zero)
  }

  lemma {:induction false} DigitsRoundTrip(n: nat)
    ensures DigitsValue(Digits(n)) == n
  {
    if n >= 10 {
      DigitsRoundTrip(n / 10);
      var d := Digits(n / 10);
      assert (d + [Zero + n % 10])[..|d|] == d;
    }
  }

  /** `Integer.toString` / `Long.toString`: an optional minus sign, then the digits. */
  function DecimalText(x: int): (r: JString)
    ensures Tab !in r
    ensures |r| > 0
    ensures x < 0 <==> r[0] == Minus
  {
    if x < 0 then [Minus] + Digits(-x) else Digits(x)
  }

  /** `Long.intValue()`: keeps the low 32 bits, read as two's complement. */
  function IntValueOfLong(x: Int64): (r: Int32)
    ensures (r - x) % 0x1_0000_0000 == 0
    ensures -0x8000_0000 <= x < 0x8000_0000 ==> r == x
  {
    (x + 0x8000_0000) % 0x1_0000_0000 - 0x8000_0000
  }
}
