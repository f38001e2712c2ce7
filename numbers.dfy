/**
 * Integer text as Rust's standard library reads and writes it:
 * `from_str_radix` / `str::parse` for unsigned and signed integer types of a
 * given width, and the digit strings that `to_string` (`{}`) and `{:X}`
 * produce.
 */
module Numbers {
  import opened Wrappers
  import opened Text

  const PLUS: byte := 43
  const MINUS: byte := 45

  function Pow2(n: nat): (r: nat)
    ensures r >= 1
  {
    if n == 0 then 1 else 2 * Pow2(n - 1)
  }

  /** `char::to_digit(radix)`: the value of an ASCII digit or letter, if below `radix`. */
  function Digit(c: byte, radix: nat): (r: Option<nat>)
    requires 2 <= radix <= 36
    ensures r.Some? ==> r.value < radix
  {
    var d := if 48 <= c <= 57 then c as int - 48
             else if 97 <= c <= 122 then c as int - 97 + 10
             else if 65 <= c <= 90 then c as int - 65 + 10
             else 36;
    if d < radix then Some(d) else None
  }

  /** The digit that stands for `d`: `0`-`9`, then upper-case `A`-`Z`. */
  function DigitChar(d: nat): (c: byte)
    requires d < 36
    ensures forall radix :: 2 <= radix && d < radix <= 36 ==> Digit(c, radix) == Some(d)
    ensures c != PLUS && c != MINUS
  {
    if d < 10 then (48 + d) as byte else (65 + d - 10) as byte
  }

  /** The value of a string made only of digits of `radix`; `None` if any byte is not one. */
  function DigitsValue(d: Bytes, radix: nat): (r: Option<nat>)
    requires 2 <= radix <= 36
    decreases |d|
  {
    if |d| == 0 then Some(0)
    else match DigitsValue(d[..|d| - 1], radix)
      case None => None
      case Some(v) =>
        match Digit(d[|d| - 1], radix)
        case None => None
        case Some(x) => Some(v * radix + x)
  }

  /**
   * `uN::from_str_radix(s, radix)` for an unsigned type of `bits` bits: an
   * optional `+`, then at least one digit; `None` for the empty string, a
   * lone sign, a byte that is not a digit, and a value that does not fit.
   */
  function ParseUnsigned(s: Bytes, radix: nat, bits: nat): (r: Option<nat>)
    requires 2 <= radix <= 36
    ensures r.Some? ==> r.value < Pow2(bits)
    ensures |s| == 0 ==> r.None?
  {
    if |s| == 0 then None
    else if (s[0] == PLUS || s[0] == MINUS) && |s| == 1 then None
    else
      var digits := if s[0] == PLUS then s[1..] else s;
      match DigitsValue(digits, radix)
      case None => None
      case Some(v) => if v < Pow2(bits) then Some(v) else None
  }

  /** `iN::from_str_radix(s, radix)` for a signed type of `bits` bits: as above, and `-` negates. */
  function ParseSigned(s: Bytes, radix: nat, bits: nat): (r: Option<int>)
    requires 2 <= radix <= 36 && bits > 0
    ensures r.Some? ==> -(Pow2(bits - 1) as int) <= r.value < Pow2(bits - 1)
    ensures |s| == 0 ==> r.None?
  {
    if |s| == 0 then None
    else if (s[0] == PLUS || s[0] == MINUS) && |s| == 1 then None
    else
      var digits := if s[0] == PLUS || s[0] == MINUS then s[1..] else s;
      match DigitsValue(digits, radix)
      case None => None
      case Some(v) =>
        var x: int := if s[0] == MINUS then -(v as int) else v;
        if -(Pow2(bits - 1) as int) <= x < Pow2(bits - 1) then Some(x) else None
  }

  /** The digits of `n` in `radix`, most significant first, without leading zeros. */
  function RadixText(n: nat, radix: nat): (r: Bytes)
    requires 2 <= radix <= 36
    ensures |r| > 0 && r[0] != PLUS && r[0] != MINUS
    ensures |r| == 1 || r[0] != DigitChar(0)
    decreases n
  {
    if n < radix then [DigitChar(n)]
    else RadixText(n / radix, radix) + [DigitChar(n % radix)]
  }

  /** `usize::to_string`. */
  function DecimalText(n: nat): Bytes {
    RadixText(n, 10)
  }

  /** `format!("{:X}", n)`. */
  function HexText(n: nat): Bytes {
    RadixText(n, 16)
  }

  /** One byte as two hexadecimal digits (`format!("{:02X}", b)`). */
  function HexPair(b: byte): Bytes {
    [DigitChar(b as nat / 16), DigitChar(b as nat % 16)]
  }

  lemma {:induction false} DigitsOfRadixText(n: nat, radix: nat)
    requires 2 <= radix <= 36
    ensures DigitsValue(RadixText(n, radix), radix) == Some(n)
    decreases n
  {
    if n < radix {
      DigitsValueSnoc([], DigitChar(n), radix, 0, n);
      assert [] + [DigitChar(n)] == RadixText(n, radix);
    } else {
      var q, m := n / radix, n % radix;
      DivMod(n, radix);
      DigitsOfRadixText(q, radix);
      RadixTextStep(n, radix);
      DigitsValueSnoc(RadixText(q, radix), DigitChar(m), radix, q, m);
    }
  }

  lemma RadixTextStep(n: nat, radix: nat)
    requires 2 <= radix <= 36 && radix <= n
    ensures RadixText(n, radix) == RadixText(n / radix, radix) + [DigitChar(n % radix)]
  {
  }

  lemma DigitsValueSnoc(p: Bytes, c: byte, radix: nat, v: nat, x: nat)
    requires 2 <= radix <= 36
    requires DigitsValue(p, radix) == Some(v) && Digit(c, radix) == Some(x)
    ensures DigitsValue(p + [c], radix) == Some(v * radix + x)
  {
    assert (p + [c])[..|p|] == p;
  }

  lemma DivMod(n: nat, radix: nat)
    requires radix > 1
    ensures (n / radix) * radix + n % radix == n
    ensures n % radix < radix
    ensures n >= radix ==> n / radix < n
  {
    var q, m := n / radix, n % radix;
    assert n == q * radix + m && 0 <= m < radix;
    if n >= radix {
      var t: nat := radix - 2;
      var qt: nat := q * t;
      assert q * radix == q * 2 + qt;
    }
  }

  /** Whatever `RadixText` writes, `from_str_radix` reads back, as long as it fits the type. */
  lemma RadixTextRoundTrip(n: nat, radix: nat, bits: nat)
    requires 2 <= radix <= 36
    requires n < Pow2(bits)
    ensures ParseUnsigned(RadixText(n, radix), radix, bits) == Some(n)
  {
    var r := RadixText(n, radix);
    DigitsOfRadixText(n, radix);
    assert DigitsValue(r, radix) == Some(n);
  }

  /** `str::parse::<usize>` reads back what `usize::to_string` writes. */
  lemma DecimalRoundTrip(n: nat)
    requires n < Pow2(64)
    ensures ParseUnsigned(DecimalText(n), 10, 64) == Some(n)
  {
    RadixTextRoundTrip(n, 10, 64);
  }

  /** `u8::from_str_radix(_, 16)` reads back a byte written as two hexadecimal digits. */
  lemma HexPairRoundTrip(b: byte)
    ensures ParseUnsigned(HexPair(b), 16, 8) == Some(b as nat)
  {
    var t := HexPair(b);
    var hi, lo := b as nat / 16, b as nat % 16;
    assert t[..1][..0] == [];
    assert t[..1] == [t[0]];
    assert Digit(t[0], 16) == Some(hi);
    assert Digit(t[1], 16) == Some(lo);
    assert DigitsValue(t[..1], 16) == Some(hi);
    assert DigitsValue(t, 16) == Some(hi * 16 + lo);
    assert Pow2(8) == 256 by {
      assert Pow2(4) == 16;
    }
  }

  /** `i64::to_string`: a `-` before the magnitude of a negative number. */
  function SignedDecimalText(n: int): Bytes {
    if n < 0 then [MINUS] + DecimalText(-n) else DecimalText(n)
  }

  /** `str::parse::<i64>` (radix 10) reads back what `i64::to_string` writes. */
  lemma SignedRoundTrip(n: int)
    requires -(Pow2(63) as int) <= n < Pow2(63)
    ensures ParseSigned(SignedDecimalText(n), 10, 64) == Some(n)
  {
    var bound := Pow2(63);
    if n < 0 {
      var m: nat := -n;
      assert SignedDecimalText(n) == [MINUS] + DecimalText(m);
      NegativeRoundTrip(m, bound);
    } else {
      assert SignedDecimalText(n) == DecimalText(n);
      NonNegativeRoundTrip(n, bound);
    }
  }

  lemma NonNegativeRoundTrip(n: nat, bound: nat)
    requires n < bound && bound == Pow2(63)
    ensures ParseSigned(DecimalText(n), 10, 64) == Some(n as int)
  {
    DigitsOfRadixText(n, 10);
  }

  lemma NegativeRoundTrip(m: nat, bound: nat)
    requires 0 < m <= bound && bound == Pow2(63)
    ensures ParseSigned([MINUS] + DecimalText(m), 10, 64) == Some(-(m as int))
  {
    var s := [MINUS] + DecimalText(m);
    DigitsOfRadixText(m, 10);
    assert s[1..] == DecimalText(m);
    assert DigitsValue(s[1..], 10) == Some(m);
  }

  lemma {:induction false} Pow2Add(a: nat, b: nat)
    ensures Pow2(a + b) == Pow2(a) * Pow2(b)
    decreases a
  {
    if a > 0 {
      Pow2Add(a - 1, b);
    }
  }

  /** The bounds of the 32-bit and 64-bit unsigned types. */
  lemma Pow2Widths()
    ensures Pow2(8) == 0x100 && Pow2(32) == 0x1_0000_0000 && Pow2(64) == 0x1_0000_0000_0000_0000
  {
    assert Pow2(4) == 16;
    Pow2Add(4, 4);
    Pow2Add(8, 8);
    Pow2Add(16, 16);
    Pow2Add(32, 32);
  }

  /** Every byte `RadixText` writes is a digit or an upper-case letter. */
  lemma {:induction false} RadixTextDigits(n: nat, radix: nat)
    requires 2 <= radix <= 36
    ensures forall i :: 0 <= i < |RadixText(n, radix)| ==>
      48 <= RadixText(n, radix)[i] <= 57 || 65 <= RadixText(n, radix)[i] <= 90
    decreases n
  {
    if n >= radix {
      var p := RadixText(n / radix, radix);
      DivMod(n, radix);
      RadixTextStep(n, radix);
      RadixTextDigits(n / radix, radix);
      var c := DigitChar(n % radix);
      assert 48 <= c <= 57 || 65 <= c <= 90;
      assert RadixText(n, radix) == p + [c];
    }
  }
}
