/**
 * The pieces of the Kotlin and Java standard libraries that the provider
 * identifier is built from: the fixed-width integer types, the unsigned
 * reading of a byte used by `%x`, digit rendering in a radix (`Int.toString()`
 * and `%x`), the zero padding of the `0` flag in `%02x`, `joinToString`, `take`
 * and `toByteArray` on ASCII text.
 */
module KotlinStd {
  import opened Wrappers

  /** Kotlin's `Byte`: a signed 8-bit integer. */
  newtype Byte = b: int | -128 <= b < 128

  /** Kotlin's `Int`: a signed 32-bit integer. */
  newtype Int32 = x: int | -0x8000_0000 <= x < 0x8000_0000

  /** Kotlin's `Long`: a signed 64-bit integer. */
  newtype Int64 = x: int | -0x8000_0000_0000_0000 <= x < 0x8000_0000_0000_0000

  /**
   * The value that Java's `%x` conversion formats for a `Byte` argument:
   * a negative byte is read as itself plus 2^8.
   */
  function Unsigned(b: Byte): (u: nat)
    ensures u < 256
    ensures u == b as int || u == b as int + 256
  {
    if b < 0 then b as int + 256 else b as int
  }

  /** `Int.toByte()` on a value in 0..255: the byte whose unsigned reading it is. */
  function ToByte(u: nat): (b: Byte)
    requires u < 256
    ensures Unsigned(b) == u
  {
    if u < 128 then u as Byte else (u - 256) as Byte
  }

  // ---------------------------------------------------------------------------
  // Digits
  // ---------------------------------------------------------------------------

  /** The lowercase hexadecimal alphabet `0-9a-f`, which contains the decimal digits. */
  predicate IsLowerHexDigit(c: char) {
    ('0' <= c <= '9') || ('a' <= c <= 'f')
  }

  predicate IsDecimalDigit(c: char) {
    '0' <= c <= '9'
  }

  /** The character for digit `d`, lowercase as `Character.forDigit` gives it. */
  function DigitChar(d: nat): (c: char)
    requires d < 16
    ensures IsLowerHexDigit(c)
    ensures d < 10 <==> IsDecimalDigit(c)
  {
    if d < 10 then ('0' as int + d) as char else ('a' as int + d - 10) as char
  }

  /** The digit a character stands for; the inverse of `DigitChar`. */
  function DigitValue(c: char): (d: nat)
    requires IsLowerHexDigit(c)
    ensures d < 16 && DigitChar(d) == c
  {
    if c <= '9' then c as int - '0' as int else c as int - 'a' as int + 10
  }

  lemma DigitCharInjective(d: nat, e: nat)
    requires d < 16 && e < 16
    ensures DigitChar(d) == DigitChar(e) <==> d == e
  {
  }

  /**
   * The digits of `n` in the given radix, most significant first, without
   * leading zeros ("0" for zero): what `Int.toString(radix)` and the `%x`
   * conversion produce for a non-negative value.
   */
  function NumeralDigits(n: nat, radix: nat): string
    requires 2 <= radix <= 16
    decreases n
  {
    if n < radix then [DigitChar(n)]
    else NumeralDigits(n / radix, radix) + [DigitChar(n % radix)]
  }

  /** The number a string of digits denotes in the given radix (the reading back). */
  function NumeralValue(s: string, radix: nat): nat
    requires forall i :: 0 <= i < |s| ==> IsLowerHexDigit(s[i])
    decreases |s|
  {
    if s == [] then 0
    else NumeralValue(s[..|s| - 1], radix) * radix + DigitValue(s[|s| - 1])
  }

  function Pow(base: nat, k: nat): nat {
    if k == 0 then 1 else base * Pow(base, k - 1)
  }

  /** Every digit of `NumeralDigits` is below the radix, and there is no leading zero. */
  lemma {:induction false} NumeralDigitsWellFormed(n: nat, radix: nat)
    requires 2 <= radix <= 16
    ensures var s := NumeralDigits(n, radix);
      && |s| >= 1
      && (forall i :: 0 <= i < |s| ==> IsLowerHexDigit(s[i]) && DigitValue(s[i]) < radix)
      && (s[0] == '0' ==> n == 0)
    decreases n
  {
    if n >= radix {
      var q, r := DivMod(n, radix);
      NumeralDigitsWellFormed(q, radix);
      AppendDigitWellFormed(NumeralDigits(q, radix), r, radix);
    }
  }

  /** Division by the radix, with the facts about it stated once. */
  lemma DivMod(n: nat, radix: nat) returns (q: nat, r: nat)
    requires 2 <= radix <= n
    ensures q == n / radix && r == n % radix
    ensures 1 <= q < n && r < radix && q * radix + r == n
  {
    q, r := n / radix, n % radix;
  }

  lemma AppendDigitWellFormed(a: string, r: nat, radix: nat)
    requires r < radix <= 16
    requires |a| >= 1 && a[0] != '0'
    requires forall i :: 0 <= i < |a| ==> IsLowerHexDigit(a[i]) && DigitValue(a[i]) < radix
    ensures var s := a + [DigitChar(r)];
      && (forall i :: 0 <= i < |s| ==> IsLowerHexDigit(s[i]) && DigitValue(s[i]) < radix)
      && s[0] != '0'
  {
  }

  lemma NumeralValueSnoc(a: string, c: char, radix: nat)
    requires forall i :: 0 <= i < |a| ==> IsLowerHexDigit(a[i])
    requires IsLowerHexDigit(c)
    ensures NumeralValue(a + [c], radix) == NumeralValue(a, radix) * radix + DigitValue(c)
  {
    assert (a + [c])[..|a|] == a;
  }

  /** `NumeralDigits` reads back as the number it renders. */
  lemma {:induction false} NumeralDigitsValue(n: nat, radix: nat)
    requires 2 <= radix <= 16
    ensures forall i :: 0 <= i < |NumeralDigits(n, radix)| ==> IsLowerHexDigit(NumeralDigits(n, radix)[i])
    ensures NumeralValue(NumeralDigits(n, radix), radix) == n
    decreases n
  {
    NumeralDigitsWellFormed(n, radix);
    if n < radix {
      NumeralValueSnoc([], DigitChar(n), radix);
      assert [] + [DigitChar(n)] == NumeralDigits(n, radix);
    } else {
      var q, r := DivMod(n, radix);
      NumeralDigitsWellFormed(q, radix);
      NumeralDigitsValue(q, radix);
      NumeralValueSnoc(NumeralDigits(q, radix), DigitChar(r), radix);
    }
  }

  /** A number below radix^k has at most k digits. */
  lemma {:induction false} NumeralDigitsLength(n: nat, radix: nat, k: nat)
    requires 2 <= radix <= 16 && k >= 1
    requires n < Pow(radix, k)
    ensures |NumeralDigits(n, radix)| <= k
    decreases k
  {
    if n >= radix {
      var q := n / radix;
      assert k >= 2;
      assert q < Pow(radix, k - 1) by {
        var p := Pow(radix, k - 1);
        if q >= p {
          MulMonotone(p, q, radix);
        }
      }
      NumeralDigitsLength(q, radix, k - 1);
    }
  }

  lemma MulMonotone(p: nat, q: nat, r: nat)
    requires p <= q
    ensures p * r <= q * r
  {
  }

  /**
   * Left padding up to a minimum width, as Java's Formatter applies it for the
   * `0` flag with a width (`%02x`): `pad` repeated in front up to `width` characters.
   */
  function PadStart(s: string, width: nat, pad: char): (r: string)
    ensures |r| == if |s| < width then width else |s|
    ensures r[|r| - |s|..] == s
    ensures forall i :: 0 <= i < |r| - |s| ==> r[i] == pad
  {
    if |s| >= width then s else seq(width - |s|, _ => pad) + s
  }

  /**
   * Java's `"%0<width>x".format(n)` for a non-negative value: the lowercase
   * hex digits of `n`, zero-padded on the left to at least `width` characters.
   * For a `Byte` argument the formatter is given `Unsigned(b)`.
   */
  function FormatHex(n: nat, width: nat): string {
    PadStart(NumeralDigits(n, 16), width, '0')
  }

  // ---------------------------------------------------------------------------
  // Int.toString()
  // ---------------------------------------------------------------------------

  /** `"$x"` for a Kotlin `Int`: a minus sign for negative values, then the decimal digits of |x|. */
  function DecimalText(x: Int32): string {
    if x < 0 then "-" + NumeralDigits(-(x as int), 10) else NumeralDigits(x as int, 10)
  }

  predicate IsDecimalDigits(s: string) {
    |s| > 0 && forall i :: 0 <= i < |s| ==> IsDecimalDigit(s[i])
  }

  /** The integer a decimal text denotes: an optional '-' followed by at least one digit. */
  function ParseDecimal(s: string): Option<int> {
    if |s| > 0 && s[0] == '-' && IsDecimalDigits(s[1..]) then var v: int := NumeralValue(s[1..], 10); Some(-v)
    else if IsDecimalDigits(s) then Some(NumeralValue(s, 10))
    else None
  }

  /**
   * The decimal text of an `Int` is an optional '-' followed by 1 to 10
   * digits with no leading zero, it starts with '-' exactly for negative
   * values, and it reads back as the value.
   */
  lemma DecimalTextCorrect(x: Int32)
    ensures var t := DecimalText(x);
      var digits := if x < 0 then t[1..] else t;
      && 1 <= |digits| <= 10
      && |t| == |digits| + (if x < 0 then 1 else 0)
      && IsDecimalDigits(digits)
      && (digits[0] == '0' ==> x == 0)
      && (|digits| > 1 ==> digits[0] != '0')
      && (t[0] == '-' <==> x < 0)
      && ParseDecimal(t) == Some(x as int)
  {
    var m: nat := if x < 0 then -(x as int) else x as int;
    var d := NumeralDigits(m, 10);
    NumeralDigitsWellFormed(m, 10);
    NumeralDigitsValue(m, 10);
    assert Pow(10, 10) == 10_000_000_000;
    NumeralDigitsLength(m, 10, 10);
    if m == 0 {
      assert d == [DigitChar(0)];
    }
    forall i | 0 <= i < |d| ensures IsDecimalDigit(d[i]) {
      assert DigitChar(DigitValue(d[i])) == d[i];
    }
    if x < 0 {
      assert DecimalText(x)[1..] == d;
    } else {
      assert IsDecimalDigit(d[0]);
    }
  }

  // ---------------------------------------------------------------------------
  // Collections
  // ---------------------------------------------------------------------------

  /**
   * `items.joinToString(separator) { transform(it) }`: each item transformed,
   * in order, with the separator between neighbours and nowhere else.
   */
  function JoinToString<T>(items: seq<T>, separator: string, transform: T -> string): string
    decreases |items|
  {
    if |items| == 0 then ""
    else if |items| == 1 then transform(items[0])
    else transform(items[0]) + separator + JoinToString(items[1..], separator, transform)
  }

  /** Joining two non-empty runs of items puts a single separator between their joins. */
  lemma {:induction false} JoinToStringAppend<T>(a: seq<T>, b: seq<T>, separator: string, transform: T -> string)
    requires |a| > 0 && |b| > 0
    ensures JoinToString(a + b, separator, transform)
         == JoinToString(a, separator, transform) + separator + JoinToString(b, separator, transform)
    decreases |a|
  {
    assert (a + b)[0] == a[0];
    assert (a + b)[1..] == a[1..] + b;
    if |a| > 1 {
      JoinToStringAppend(a[1..], b, separator, transform);
    }
  }

  /** `s.take(n)`: the first `n` characters, or all of `s` when it is shorter. */
  function Take(s: string, n: nat): (r: string)
    ensures |r| == if n < |s| then n else |s|
    ensures r <= s
  {
    if n < |s| then s[..n] else s
  }

  /** `s.toByteArray()` (UTF-8) on a string whose characters are all ASCII: one byte per character, its code. */
  function AsciiBytes(s: string): (r: seq<Byte>)
    requires forall i :: 0 <= i < |s| ==> s[i] as int < 128
    ensures |r| == |s|
    ensures forall i :: 0 <= i < |s| ==> r[i] as int == s[i] as int
  {
    seq(|s|, i requires 0 <= i < |s| => s[i] as int as Byte)
  }
}
