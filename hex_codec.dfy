/**
 * The private `ByteArray.toHexString()` of `ProviderData`: every byte
 * formatted with `"%02x"` and the pieces joined with an empty separator;
 * and `FromHex`, the decoder that reads such a string back, which shows the
 * encoding loses nothing.
 */
module HexCodec {
  import opened Wrappers
  import opened KotlinStd

  /**
   * The rendering of one byte by `"%02x".format(b)`: the digit of the high
   * nibble of the unsigned value, then the digit of the low nibble
   * (`HexBytePercent02x` shows this is what the formatter produces).
   */
  function HexByte(b: Byte): string {
    [DigitChar(Unsigned(b) / 16), DigitChar(Unsigned(b) % 16)]
  }

  /**
   * `"%02x"` pads to at least two characters; since the unsigned value of a
   * byte is below 256 it always has one or two hex digits, so the padded
   * result is exactly the two nibble digits.
   */
  lemma HexBytePercent02x(b: Byte)
    ensures FormatHex(Unsigned(b), 2) == HexByte(b)
  {
    var u := Unsigned(b);
    if u < 16 {
      assert NumeralDigits(u, 16) == [DigitChar(u)];
      assert PadStart(['0', DigitChar(u)], 2, '0') == ['0', DigitChar(u)];
    } else {
      assert NumeralDigits(u / 16, 16) == [DigitChar(u / 16)];
      assert NumeralDigits(u, 16) == [DigitChar(u / 16), DigitChar(u % 16)];
    }
  }

  /** `bytes.toHexString()`, i.e. `bytes.joinToString("") { "%02x".format(it) }`. */
  function ToHex(bytes: seq<Byte>): string {
    JoinToString(bytes, "", HexByte)
  }

  /** Sample renderings: a negative byte is formatted as its value plus 256. */
  lemma HexByteExamples()
    ensures HexByte(0) == "00" && HexByte(10) == "0a" && HexByte(127) == "7f"
    ensures HexByte(-1) == "ff" && HexByte(-128) == "80" && HexByte(-16) == "f0"
  {
  }

  /** Each character of a byte's rendering is in `0-9a-f`, and the two digits read back as the unsigned byte. */
  lemma HexByteDigits(b: Byte)
    ensures |HexByte(b)| == 2
    ensures IsLowerHexDigit(HexByte(b)[0]) && IsLowerHexDigit(HexByte(b)[1])
    ensures DigitValue(HexByte(b)[0]) * 16 + DigitValue(HexByte(b)[1]) == Unsigned(b)
  {
  }

  /** With an empty separator the encoding distributes over concatenation. */
  lemma ToHexAppend(a: seq<Byte>, b: seq<Byte>)
    ensures ToHex(a + b) == ToHex(a) + ToHex(b)
  {
    if a == [] {
      assert a + b == b;
    } else if b == [] {
      assert a + b == a;
    } else {
      JoinToStringAppend(a, b, "", HexByte);
    }
  }

  lemma ToHexEmpty()
    ensures ToHex([]) == ""
  {
  }

  lemma ToHexSingle(b: Byte)
    ensures ToHex([b]) == HexByte(b)
  {
  }

  /** n bytes encode to exactly 2n characters. */
  lemma {:induction false} ToHexLength(bytes: seq<Byte>)
    ensures |ToHex(bytes)| == 2 * |bytes|
    decreases |bytes|
  {
    if bytes != [] {
      assert bytes == [bytes[0]] + bytes[1..];
      ToHexAppend([bytes[0]], bytes[1..]);
      ToHexLength(bytes[1..]);
    }
  }

  /** Byte i is rendered at characters 2i and 2i+1: its high nibble, then its low nibble. */
  lemma ToHexAt(bytes: seq<Byte>, i: nat)
    requires i < |bytes|
    ensures |ToHex(bytes)| == 2 * |bytes|
    ensures ToHex(bytes)[2 * i] == DigitChar(Unsigned(bytes[i]) / 16)
    ensures ToHex(bytes)[2 * i + 1] == DigitChar(Unsigned(bytes[i]) % 16)
  {
    var front, rest := bytes[..i], bytes[i + 1..];
    assert bytes == front + ([bytes[i]] + rest);
    ToHexAppend(front, [bytes[i]] + rest);
    ToHexAppend([bytes[i]], rest);
    ToHexLength(front);
    ToHexLength(bytes);
  }

  /** Every character of the encoding is a lowercase hex digit. */
  lemma ToHexAlphabet(bytes: seq<Byte>)
    ensures forall j :: 0 <= j < |ToHex(bytes)| ==> IsLowerHexDigit(ToHex(bytes)[j])
  {
    ToHexLength(bytes);
    forall j | 0 <= j < |ToHex(bytes)| ensures IsLowerHexDigit(ToHex(bytes)[j]) {
      ToHexAt(bytes, j / 2);
    }
  }

  /** Keeping 2k characters keeps the encoding of the first k bytes. */
  lemma ToHexTakeEven(bytes: seq<Byte>, k: nat)
    requires k <= |bytes|
    ensures Take(ToHex(bytes), 2 * k) == ToHex(bytes[..k])
  {
    assert bytes == bytes[..k] + bytes[k..];
    ToHexAppend(bytes[..k], bytes[k..]);
    ToHexLength(bytes[..k]);
    ToHexLength(bytes);
  }

  /** Keeping 2k+1 characters keeps the first k bytes and the high nibble of byte k. */
  lemma ToHexTakeOdd(bytes: seq<Byte>, k: nat)
    requires k < |bytes|
    ensures Take(ToHex(bytes), 2 * k + 1) == ToHex(bytes[..k]) + [DigitChar(Unsigned(bytes[k]) / 16)]
  {
    assert bytes[..k + 1] == bytes[..k] + [bytes[k]];
    ToHexAppend(bytes[..k], [bytes[k]]);
    ToHexTakeEven(bytes, k + 1);
    ToHexLength(bytes[..k]);
  }

  // ---------------------------------------------------------------------------
  // Decoding
  // ---------------------------------------------------------------------------

  /**
   * Reads a lowercase hex string two digits at a time, high nibble first;
   * `None` for an odd length or a character outside `0-9a-f`.
   */
  function FromHex(s: string): Option<seq<Byte>>
    decreases |s|
  {
    if |s| == 0 then Some([])
    else if |s| == 1 || !IsLowerHexDigit(s[0]) || !IsLowerHexDigit(s[1]) then None
    else match FromHex(s[2..])
      case None => None
      case Some(rest) => Some([ToByte(DigitValue(s[0]) * 16 + DigitValue(s[1]))] + rest)
  }

  /** Decoding an encoding gives back the bytes. */
  lemma {:induction false} FromHexToHex(bytes: seq<Byte>)
    ensures FromHex(ToHex(bytes)) == Some(bytes)
    decreases |bytes|
  {
    if bytes != [] {
      var b := bytes[0];
      assert bytes == [b] + bytes[1..];
      ToHexAppend([b], bytes[1..]);
      HexByteDigits(b);
      var s := ToHex(bytes);
      assert s[2..] == ToHex(bytes[1..]);
      FromHexToHex(bytes[1..]);
      assert ToByte(Unsigned(b)) == b;
    }
  }

  /** Whatever decodes, decodes from the encoding of its result: the two are inverse. */
  lemma {:induction false} ToHexFromHex(s: string, bytes: seq<Byte>)
    requires FromHex(s) == Some(bytes)
    ensures ToHex(bytes) == s
    decreases |s|
  {
    if |s| > 0 {
      var rest := FromHex(s[2..]).value;
      ToHexFromHex(s[2..], rest);
      var b := ToByte(DigitValue(s[0]) * 16 + DigitValue(s[1]));
      assert bytes == [b] + rest;
      ToHexAppend([b], rest);
      assert HexByte(b) == s[..2];
      assert s == s[..2] + s[2..];
    }
  }

  /** Exactly the even-length strings over `0-9a-f` decode. */
  lemma {:induction false} FromHexDefined(s: string)
    ensures FromHex(s).Some? <==> |s| % 2 == 0 && forall j :: 0 <= j < |s| ==> IsLowerHexDigit(s[j])
    decreases |s|
  {
    if |s| >= 2 {
      FromHexDefined(s[2..]);
      assert forall j :: 2 <= j < |s| ==> s[j] == s[2..][j - 2];
    }
  }

  /** Distinct byte sequences have distinct encodings. */
  lemma ToHexInjective(a: seq<Byte>, b: seq<Byte>)
    ensures ToHex(a) == ToHex(b) <==> a == b
  {
    if ToHex(a) == ToHex(b) {
      FromHexToHex(a);
      FromHexToHex(b);
    }
  }
}
