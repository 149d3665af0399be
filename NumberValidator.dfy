/**
 * The page's NumberValidator: validators for binary, decimal, hexadecimal and dotted-quad text
 * against a bit width, and conversions between the three radixes with fixed-width,
 * left-zero-padded, upper-case output.
 */
module NumberValidator {
  import opened Wrappers
  import opened TextUtil
  import opened Numerals

  /** Why a text was refused: one constructor per message the validators return. */
  datatype Error =
    | Required                  // the field is empty
    | OnlyBinary                // a character other than 0 and 1
    | TooManyBits(bits: nat)    // more binary digits than the width
    | OnlyDigits                // a character other than 0-9
    | AboveMaximum(max: nat)    // the value exceeds 2^bits - 1
    | OnlyHex                   // nothing hexadecimal left after stripping
    | TooManyDigits(max: nat)   // more hexadecimal digits than ceil(bits / 4)
    | IpRequired                // the address field is empty
    | IpFormat                  // not four dot-separated groups of one to three digits
    | OctetOutOfRange           // a group above 255

  /** The { valid, value } / { valid: false, message } objects the validators return. */
  datatype Validation<T> = Valid(value: T) | Invalid(error: Error)

  /** Math.pow(2, bits) - 1: the largest value of the width. */
  function MaxValue(bits: nat): nat
  {
    Pow(2, bits) - 1
  }

  /** Math.ceil(bits / 4): the number of hexadecimal digits of the width. */
  function HexWidth(bits: nat): (w: nat)
    ensures 4 * w >= bits && 4 * w < bits + 4
  {
    (bits + 3) / 4
  }

  /** validateBinary: non-empty, only 0 and 1, at most bits digits; the text itself is the value. */
  function ValidateBinary(input: string, bits: nat): (r: Validation<string>)
    ensures r.Valid? <==> input != [] && AllDigits(input, 2) && |input| <= bits
    ensures r.Valid? ==> r.value == input
    ensures r == Invalid(Required) <==> input == []
    ensures r == Invalid(OnlyBinary) <==> input != [] && !AllDigits(input, 2)
    ensures r == Invalid(TooManyBits(bits)) <==> input != [] && AllDigits(input, 2) && |input| > bits
  {
    if input == [] then Invalid(Required)
    else if !AllDigits(input, 2) then Invalid(OnlyBinary)
    else if |input| > bits then Invalid(TooManyBits(bits))
    else Valid(input)
  }

  /** validateDecimal: non-empty, only 0-9, value at most 2^bits - 1; the value is the number read. */
  function ValidateDecimal(input: string, bits: nat): (r: Validation<nat>)
    ensures r.Valid? <==> input != [] && AllDigits(input, 10) && ValueOf(input, 10) <= MaxValue(bits)
    ensures r.Valid? ==> r.value == ValueOf(input, 10) && r.value < Pow(2, bits)
    ensures r == Invalid(Required) <==> input == []
    ensures r == Invalid(OnlyDigits) <==> input != [] && !AllDigits(input, 10)
    ensures r == Invalid(AboveMaximum(MaxValue(bits))) <==>
      input != [] && AllDigits(input, 10) && ValueOf(input, 10) > MaxValue(bits)
  {
    if input == [] then Invalid(Required)
    else if !AllDigits(input, 10) then Invalid(OnlyDigits)
    else
      var num := ParseInt(input, 10);
      ParseIntDigits(input, 10);
      if num.value > MaxValue(bits) then Invalid(AboveMaximum(MaxValue(bits)))
      else Valid(num.value)
  }

  /**
   * validateHexadecimal: strips every non-hexadecimal character, refuses an empty result and more
   * than ceil(bits / 4) digits, and returns the stripped digits upper-cased. Only the digit count is
   * bounded, not the value.
   */
  function ValidateHexadecimal(input: string, bits: nat): (r: Validation<string>)
    ensures r.Valid? <==> input != [] && CleanHex(input) != [] && |CleanHex(input)| <= HexWidth(bits)
    ensures r.Valid? ==> r.value == Upper(CleanHex(input))
    ensures r.Valid? ==> AllDigits(r.value, 16) && NoLowerCase(r.value) && |r.value| <= HexWidth(bits)
    ensures r.Valid? ==> ParseInt(r.value, 16) == ParseInt(CleanHex(input), 16)
    ensures r == Invalid(Required) <==> input == []
    ensures r == Invalid(OnlyHex) <==> input != [] && CleanHex(input) == []
    ensures r == Invalid(TooManyDigits(HexWidth(bits))) <==> input != [] && |CleanHex(input)| > HexWidth(bits)
  {
    if input == [] then Invalid(Required)
    else
      var clean := CleanHex(input);
      if clean == [] then Invalid(OnlyHex)
      else if |clean| > HexWidth(bits) then Invalid(TooManyDigits(HexWidth(bits)))
      else
        UpperHex(clean);
        ParseIntDigits(clean, 16);
        ParseIntDigits(Upper(clean), 16);
        Valid(Upper(clean))
  }

  /** Upper-casing hexadecimal digits keeps them digits and keeps their value. */
  lemma UpperHex(s: string)
    requires AllDigits(s, 16)
    ensures AllDigits(Upper(s), 16) && NoLowerCase(Upper(s))
    ensures ValueOf(Upper(s), 16) == ValueOf(s, 16)
  {
    var u := Upper(s);
    forall i | 0 <= i < |s|
      ensures DigitValue(u[i]) == DigitValue(s[i]) && !('a' <= u[i] <= 'z')
    {
      UpperCharDigit(s[i]);
    }
    ValueOfSameDigits(u, s, 16);
  }

  lemma UpperCharDigit(c: char)
    requires IsDigit(c, 16)
    ensures DigitValue(UpperChar(c)) == DigitValue(c) && !('a' <= UpperChar(c) <= 'z')
  {
  }

  /** A dot-separated group the address pattern accepts: one to three decimal digits. */
  predicate IsOctetText(p: string)
  {
    1 <= |p| <= 3 && AllDigits(p, 10)
  }

  /** The text has the shape d.d.d.d with one to three digits in each group. */
  predicate IsDottedQuad(s: string)
  {
    var parts := Split(s, '.');
    |parts| == 4 && forall k :: 0 <= k < 4 ==> IsOctetText(parts[k])
  }

  /** The four numbers of a dotted quad, in address order. */
  function Octets(s: string): (r: seq<nat>)
    requires IsDottedQuad(s)
    ensures |r| == 4
  {
    var parts := Split(s, '.');
    seq(4, k requires 0 <= k < 4 => ValueOf(parts[k], 10))
  }

  /** validateIP: non-empty, dotted-quad shape, every group at most 255; the text is the value. */
  function ValidateIP(input: string): (r: Validation<string>)
    ensures r.Valid? <==> input != [] && IsDottedQuad(input) && forall k :: 0 <= k < 4 ==> Octets(input)[k] <= 255
    ensures r.Valid? ==> r.value == input
    ensures r == Invalid(IpRequired) <==> input == []
    ensures r == Invalid(IpFormat) <==> input != [] && !IsDottedQuad(input)
    ensures r == Invalid(OctetOutOfRange) <==>
      input != [] && IsDottedQuad(input) && exists k :: 0 <= k < 4 && Octets(input)[k] > 255
  {
    if input == [] then Invalid(IpRequired)
    else if !IsDottedQuad(input) then Invalid(IpFormat)
    else if exists k :: 0 <= k < 4 && Octets(input)[k] > 255 then Invalid(OctetOutOfRange)
    else Valid(input)
  }

  /** Four groups of at most three digits, each at most 255, joined with dots form a valid address. */
  lemma IpFromOctets(parts: seq<string>)
    requires |parts| == 4
    requires forall k :: 0 <= k < 4 ==> 1 <= |parts[k]| <= 3 && AllDigits(parts[k], 10) && ValueOf(parts[k], 10) <= 255
    ensures ValidateIP(Join(parts, '.')) == Valid(Join(parts, '.'))
    ensures Octets(Join(parts, '.')) == [ValueOf(parts[0], 10), ValueOf(parts[1], 10), ValueOf(parts[2], 10), ValueOf(parts[3], 10)]
  {
    forall k | 0 <= k < 4 ensures '.' !in parts[k] {
      assert forall i :: 0 <= i < |parts[k]| ==> parts[k][i] != '.' by {
        assert !IsDigit('.', 10);
      }
    }
    SplitJoin(parts, '.');
  }

  /** Conversely, a valid address is such a join of its four groups. */
  lemma IpIsJoinOfOctets(s: string)
    requires ValidateIP(s).Valid?
    ensures var parts := Split(s, '.');
      |parts| == 4 && s == Join(parts, '.') &&
      forall k :: 0 <= k < 4 ==> IsOctetText(parts[k]) && ValueOf(parts[k], 10) <= 255
  {
    JoinSplit(s, '.');
    var parts := Split(s, '.');
    assert forall k :: 0 <= k < 4 ==> Octets(s)[k] == ValueOf(parts[k], 10);
  }

  /** decToBin: the binary digits of dec, left-padded with zeros to bits characters. */
  function DecToBin(dec: nat, bits: nat): (r: string)
    ensures AllDigits(r, 2) && r != []
    ensures |r| >= bits
  {
    var digits := ToDigits(dec, 2);
    LeadingZeros(if |digits| >= bits then 0 else bits - |digits|, digits, 2);
    PadStart(digits, bits, '0')
  }

  /** decToHex: the upper-case hexadecimal digits of dec, left-padded with zeros to ceil(bits / 4). */
  function DecToHex(dec: nat, bits: nat): (r: string)
    ensures AllDigits(r, 16) && NoLowerCase(r) && r != []
    ensures |r| >= HexWidth(bits)
  {
    var digits := ToDigits(dec, 16);
    var w := HexWidth(bits);
    LeadingZeros(if |digits| >= w then 0 else w - |digits|, digits, 16);
    PadStart(digits, w, '0')
  }

  /** parseInt reads back the value decToBin wrote, whatever the padding. */
  lemma DecToBinReadsBack(dec: nat, bits: nat)
    ensures ParseInt(DecToBin(dec, bits), 2) == Some(dec)
  {
    ParseIntPadded(dec, 2, bits);
  }

  /** parseInt reads back the value decToHex wrote, whatever the padding. */
  lemma DecToHexReadsBack(dec: nat, bits: nat)
    ensures ParseInt(DecToHex(dec, bits), 16) == Some(dec)
  {
    ParseIntPadded(dec, 16, HexWidth(bits));
  }

  /** A value of the width needs no more than bits binary digits, so padding makes exactly bits. */
  lemma DecToBinWidth(dec: nat, bits: nat)
    requires 1 <= bits && dec <= MaxValue(bits)
    ensures |DecToBin(dec, bits)| == bits
  {
    ToDigitsLength(dec, 2, bits);
  }

  /** A value of the width needs no more than ceil(bits / 4) hexadecimal digits. */
  lemma DecToHexWidth(dec: nat, bits: nat)
    requires 1 <= bits && dec <= MaxValue(bits)
    ensures |DecToHex(dec, bits)| == HexWidth(bits)
  {
    PowSixteen(HexWidth(bits));
    PowMonotone(2, bits, 4 * HexWidth(bits));
    ToDigitsLength(dec, 16, HexWidth(bits));
  }

  /** binToDec: parseInt(bin, 2). */
  function BinToDec(bin: string): (r: Option<nat>)
    ensures bin != [] && AllDigits(bin, 2) ==> r == Some(ValueOf(bin, 2))
  {
    ParseIntDigitsIf(bin, 2);
    ParseInt(bin, 2)
  }

  /** hexToDec: parseInt(hex, 16). */
  function HexToDec(hex: string): (r: Option<nat>)
    ensures hex != [] && AllDigits(hex, 16) ==> r == Some(ValueOf(hex, 16))
  {
    ParseIntDigitsIf(hex, 16);
    ParseInt(hex, 16)
  }

  lemma ParseIntDigitsIf(s: string, base: nat)
    ensures s != [] && AllDigits(s, base) ==> ParseInt(s, base) == Some(ValueOf(s, base))
  {
    if s != [] && AllDigits(s, base) { ParseIntDigits(s, base); }
  }

  /** binToHex: through decimal; None where the binary text reads as NaN. */
  function BinToHex(bin: string, bits: nat): Option<string>
  {
    match BinToDec(bin)
    case Some(dec) => Some(DecToHex(dec, bits))
    case None => None
  }

  /** hexToBin: through decimal; None where the hexadecimal text reads as NaN. */
  function HexToBin(hex: string, bits: nat): Option<string>
  {
    match HexToDec(hex)
    case Some(dec) => Some(DecToBin(dec, bits))
    case None => None
  }

  /** Conversions agree whichever radix they pass through, for every value. */
  lemma CrossConversions(v: nat, bits: nat)
    ensures BinToDec(DecToBin(v, bits)) == Some(v) && HexToDec(DecToHex(v, bits)) == Some(v)
    ensures BinToHex(DecToBin(v, bits), bits) == Some(DecToHex(v, bits))
    ensures HexToBin(DecToHex(v, bits), bits) == Some(DecToBin(v, bits))
    ensures HexToBin(BinToHex(DecToBin(v, bits), bits).value, bits) == Some(DecToBin(v, bits))
  {
    DecToBinReadsBack(v, bits);
    DecToHexReadsBack(v, bits);
  }

  /** What the conversions write into a sibling field validates again, with the same value. */
  lemma BinaryOutputValidates(v: nat, bits: nat)
    requires 1 <= bits && v <= MaxValue(bits)
    ensures ValidateBinary(DecToBin(v, bits), bits) == Valid(DecToBin(v, bits))
    ensures BinToDec(DecToBin(v, bits)) == Some(v)
  {
    DecToBinReadsBack(v, bits);
    DecToBinWidth(v, bits);
  }

  lemma HexOutputValidates(v: nat, bits: nat)
    requires 1 <= bits && v <= MaxValue(bits)
    ensures ValidateHexadecimal(DecToHex(v, bits), bits) == Valid(DecToHex(v, bits))
    ensures HexToDec(DecToHex(v, bits)) == Some(v)
  {
    var h := DecToHex(v, bits);
    DecToHexReadsBack(v, bits);
    DecToHexWidth(v, bits);
    assert CleanHex(h) == h;
    UpperIdentity(h);
  }

  lemma DecimalOutputValidates(v: nat, bits: nat)
    requires v <= MaxValue(bits)
    ensures ValidateDecimal(ToDigits(v, 10), bits) == Valid(v)
  {
  }

  /** Leading zeros are allowed in decimal input and do not change the value read. */
  lemma DecimalLeadingZeros(k: nat, v: nat, bits: nat)
    requires v <= MaxValue(bits)
    ensures ValidateDecimal(Repeat('0', k) + ToDigits(v, 10), bits) == Valid(v)
  {
    LeadingZeros(k, ToDigits(v, 10), 10);
  }

  /** The value of an accepted hexadecimal text fits in ceil(bits / 4) digits, and no more. */
  lemma HexAcceptedBound(input: string, bits: nat)
    requires ValidateHexadecimal(input, bits).Valid?
    ensures ValueOf(CleanHex(input), 16) < Pow(16, HexWidth(bits))
  {
    var c := CleanHex(input);
    ValueOfBound(c, 16);
    PowMonotone(16, |c|, HexWidth(bits));
  }

  /**
   * As written, a width that is not a multiple of four admits values above 2^bits - 1:
   * "F" is accepted for the 3-bit flags field although 15 > 7.
   */
  lemma HexAcceptsAboveWidth()
    ensures ValidateHexadecimal("F", 3) == Valid("F")
    ensures HexToDec("F") == Some(15) && 15 > MaxValue(3)
    ensures DecToBin(15, 3) == "1111"
  {
    assert CleanHex("F") == "F";
    assert Upper("F") == "F";
    assert HexWidth(3) == 1;
    assert ValueOf("F", 16) == 15 by {
      assert "F"[..0] == [];
    }
    ParseIntDigits("F", 16);
    assert Pow(2, 3) == 8;
    FifteenInBinary();
  }

  /** decToBin(15, 3) overflows the three-character field: "1111". */
  lemma FifteenInBinary()
    ensures DecToBin(15, 3) == "1111"
  {
    assert ToDigits(15, 2) == ToDigits(7, 2) + ['1'];
    assert ToDigits(7, 2) == ToDigits(3, 2) + ['1'];
    assert ToDigits(3, 2) == ToDigits(1, 2) + ['1'];
  }

  /**
   * The hexadecimal validator with the width bound the binary and decimal validators have: a
   * value above 2^bits - 1 is refused.
   */
  function ValidateHexadecimalInRange(input: string, bits: nat): (r: Validation<string>)
    ensures r.Valid? <==> ValidateHexadecimal(input, bits).Valid? && ValueOf(CleanHex(input), 16) <= MaxValue(bits)
    ensures r.Valid? ==> r == ValidateHexadecimal(input, bits)
    ensures r.Valid? ==> HexToDec(r.value) == Some(ValueOf(CleanHex(input), 16))
    ensures r == Invalid(AboveMaximum(MaxValue(bits))) <==>
      ValidateHexadecimal(input, bits).Valid? && ValueOf(CleanHex(input), 16) > MaxValue(bits)
    ensures !ValidateHexadecimal(input, bits).Valid? ==> r == ValidateHexadecimal(input, bits)
  {
    match ValidateHexadecimal(input, bits)
    case Invalid(e) => Invalid(e)
    case Valid(h) =>
      var v := ValueOf(CleanHex(input), 16);
      ParseIntDigits(CleanHex(input), 16);
      if v > MaxValue(bits) then Invalid(AboveMaximum(MaxValue(bits))) else Valid(h)
  }

  /** An accepted text reads back within the width, so decToBin gives exactly bits digits. */
  lemma InRangeHexFitsWidth(input: string, bits: nat)
    requires 1 <= bits && ValidateHexadecimalInRange(input, bits).Valid?
    ensures |HexToBin(ValidateHexadecimalInRange(input, bits).value, bits).value| == bits
  {
    DecToBinWidth(ValueOf(CleanHex(input), 16), bits);
  }

  /** For widths that are whole hexadecimal digits (8 and 16 bits) the two validators agree. */
  lemma InRangeAgreesOnNibbleWidths(input: string, bits: nat)
    requires bits % 4 == 0
    ensures ValidateHexadecimalInRange(input, bits) == ValidateHexadecimal(input, bits)
  {
    if ValidateHexadecimal(input, bits).Valid? {
      HexAcceptedBound(input, bits);
      PowSixteen(HexWidth(bits));
      assert 4 * HexWidth(bits) == bits;
    }
  }
}
