/**
 * buildIPHeader: the IPv4 header of section 3.1 of RFC 791 as a list of two-digit upper-case
 * hexadecimal byte texts. Version and IHL share the first byte, TOS is the second, total length,
 * identification, flags with fragment offset and checksum are 16-bit big-endian words, TTL and
 * protocol one byte each, then the source and destination address octets, the whole pairs of
 * the options text and "00" padding up to ihl * 4 bytes. The checksum is copied, not computed.
 */
module Header {
  import opened Wrappers
  import opened TextUtil
  import opened Numerals
  import opened NumberValidator
  import opened Options

  type U3 = x: nat | x < 8
  type U8 = x: nat | x < 256
  type U13 = x: nat | x < 8192
  type U16 = x: nat | x < 65536

  /** The header fields the page reads from its inputs, each of its validated width. */
  datatype Fields = Fields(
    tos: U8, identification: U16, flags: U3, fragment: U13, ttl: U8, protocol: U8, checksum: U16,
    srcIp: string, dstIp: string, options: string)

  /** n.toString(16).padStart(2, '0').toUpperCase(): the same text as decToHex for 8 bits. */
  function HexByte(n: nat): string
  {
    DecToHex(n, 8)
  }

  /**
   * A 16-bit field: n.toString(16).padStart(4, '0').toUpperCase() cut into substring(0, 2) and
   * substring(2, 4).
   */
  function HexWord(n: nat): (r: seq<string>)
    ensures |r| == 2
  {
    var s := DecToHex(n, 16);
    [s[..2], s[2..4]]
  }

  /** (version << 4) | ihl with version 4. */
  function FirstByte(ihl: Ihl): nat
  {
    (((4 as bv8) << 4) | (ihl as bv8)) as nat
  }

  /**
   * The value of (flags << 13) | fragment: the two operands occupy disjoint bits, so the OR is the
   * sum (ShiftOrIsSum).
   */
  function FlagsFragment(flags: U3, fragment: U13): nat
  {
    flags * 8192 + fragment
  }

  /** On 16-bit words, shifting a 3-bit value past 13 bits and OR-ing in a 13-bit value adds them. */
  lemma ShiftOrIsSum(flags: bv16, fragment: bv16)
    requires flags < 8 && fragment < 8192
    ensures (flags << 13) | fragment == flags * 8192 + fragment
    ensures ((flags << 13) | fragment) >> 13 == flags && ((flags << 13) | fragment) & 0x1FFF == fragment
  {
  }

  /**
   * With JavaScript's 32-bit shift and OR, a flags value of 15 (what the hexadecimal validator
   * lets through for the 3-bit field) gives a word of five hexadecimal digits, of which substring
   * keeps "1E" and "00"; and a fragment offset of 8192 or more shares bits with the flags, so the
   * OR is no longer their sum.
   */
  lemma WideFlagsCorruptWord()
    ensures ((15 as bv32) << 13) | 0 == 0x1E000
    ensures ((1 as bv32) << 13) | 8192 == 8192 && 1 * 8192 + 8192 != 8192
    ensures HexWord(0x1E000) == ["1E", "00"]
  {
    assert ToDigits(1, 16) == "1";
    assert ToDigits(0x1E, 16) == ToDigits(1, 16) + ['E'] == "1E";
    assert ToDigits(0x1E0, 16) == ToDigits(0x1E, 16) + ['0'] == "1E0";
    assert ToDigits(0x1E00, 16) == ToDigits(0x1E0, 16) + ['0'] == "1E00";
    assert ToDigits(0x1E000, 16) == ToDigits(0x1E00, 16) + ['0'] == "1E000";
    assert HexWidth(16) == 4;
    var word := DecToHex(0x1E000, 16);
    assert word == PadStart("1E000", 4, '0') == "1E000";
    assert word[..2] == "1E" && word[2..4] == "00";
  }

  /** parseInt(octet).toString(16).padStart(2, '0').toUpperCase(); NaN prints as "NAN". */
  function IpOctetHex(octet: string): string
  {
    match ParseInt(octet, 10)
    case Some(n) => HexByte(n)
    case None => "NAN"
  }

  /** ipToHex: one entry per dot-separated group of the address text. */
  function IpToHex(ip: string): (r: seq<string>)
    ensures |r| == |Split(ip, '.')|
  {
    var parts := Split(ip, '.');
    seq(|parts|, k requires 0 <= k < |parts| => IpOctetHex(parts[k]))
  }

  function Min(a: int, b: int): int
  {
    if a <= b then a else b
  }

  /** The first k whole digit pairs of the cleaned options, each upper-cased. */
  function OptionPairs(clean: string, k: nat): (r: seq<string>)
    requires 2 * k <= |clean|
    ensures |r| == k
  {
    if k == 0 then [] else OptionPairs(clean, k - 1) + [Upper(clean[2 * k - 2..2 * k])]
  }

  /** optionsArray before padding: every whole pair of the cleaned options; an odd last digit is dropped. */
  function OptionBytes(text: string): (r: seq<string>)
    ensures |r| == |CleanHex(text)| / 2
  {
    var clean := CleanHex(text);
    OptionPairs(clean, |clean| / 2)
  }

  /** n entries of "00". */
  function Padding(n: nat): (r: seq<string>)
    ensures |r| == n && forall k :: 0 <= k < n ==> r[k] == "00"
  {
    seq(n, _ => "00")
  }

  /** paddingBytes = ihl * 4 - (20 + options); a negative count pads nothing. */
  function PaddingCount(ihl: Ihl, optionCount: nat): nat
  {
    if ihl * 4 - (20 + optionCount) > 0 then ihl * 4 - (20 + optionCount) else 0
  }

  /** firstWord: the twelve entries of the fields before the addresses. */
  function FieldWords(f: Fields, ihl: Ihl, totalLength: nat): (r: seq<string>)
    ensures |r| == 12
  {
    [HexByte(FirstByte(ihl)), HexByte(f.tos)] + HexWord(totalLength) + HexWord(f.identification) +
    HexWord(FlagsFragment(f.flags, f.fragment)) + [HexByte(f.ttl)] + [HexByte(f.protocol)] +
    HexWord(f.checksum)
  }

  /** The words before the options: the twelve field entries, then both addresses. */
  function FixedPart(f: Fields, ihl: Ihl, totalLength: nat): seq<string>
  {
    FieldWords(f, ihl, totalLength) + IpToHex(f.srcIp) + IpToHex(f.dstIp)
  }

  /** The header byte list buildIPHeader returns. */
  function HeaderLayout(f: Fields, ihl: Ihl, totalLength: nat): seq<string>
  {
    var options := OptionBytes(f.options);
    FixedPart(f, ihl, totalLength) + options + Padding(PaddingCount(ihl, |options|))
  }

  /**
   * buildIPHeader: the fixed words and both addresses, then one entry per whole pair of option
   * digits, then "00" entries until the header has ihl * 4 bytes.
   */
  method BuildIPHeader(f: Fields, ihl: Ihl, totalLength: nat) returns (header: seq<string>)
    ensures header == HeaderLayout(f, ihl, totalLength)
  {
    // firstWord with its pushes, then srcIP and dstIP
    var fixedWords := FixedPart(f, ihl, totalLength);
    var optionsArray := CollectOptionBytes(f.options);
    optionsArray := PadOptions(ihl, optionsArray);
    LayoutParts(f, ihl, totalLength);
    header := fixedWords + optionsArray;
  }

  /**
   * The options loop of buildIPHeader: the cleaned text is walked two digits at a time and every
   * whole pair is pushed upper-cased; a lone last digit is dropped.
   */
  method CollectOptionBytes(options: string) returns (optionsArray: seq<string>)
    ensures optionsArray == OptionBytes(options)
  {
    optionsArray := [];
    var cleanHex := CleanHex(options);
    if options != [] {
      var i := 0;
      while i < |cleanHex|
        invariant 2 * |optionsArray| == i <= |cleanHex| || 2 * |optionsArray| + 2 == i == |cleanHex| + 1
        invariant optionsArray == OptionPairs(cleanHex, |optionsArray|)
      {
        var byte := cleanHex[i..Min(i + 2, |cleanHex|)];
        PairStep(cleanHex, i, optionsArray);
        if |byte| == 2 {
          optionsArray := optionsArray + [Upper(byte)];
        }
        i := i + 2;
      }
    }
    WholePairs(|cleanHex|, |optionsArray|);
  }

  /** The padding loop of buildIPHeader: "00" is pushed until the header reaches ihl * 4 bytes. */
  method PadOptions(ihl: Ihl, options: seq<string>) returns (optionsArray: seq<string>)
    ensures optionsArray == options + Padding(PaddingCount(ihl, |options|))
  {
    optionsArray := options;
    var totalHeaderBytes := ihl * 4;
    var currentBytes := 20 + |optionsArray|;
    var paddingBytes := totalHeaderBytes - currentBytes;
    var i := 0;
    while i < paddingBytes
      invariant 0 <= i <= PaddingCount(ihl, |options|)
      invariant optionsArray == options + Padding(i)
    {
      optionsArray := optionsArray + ["00"];
      PaddingStep(i);
      i := i + 1;
    }
  }

  lemma LayoutParts(f: Fields, ihl: Ihl, totalLength: nat)
    ensures var options := OptionBytes(f.options);
      HeaderLayout(f, ihl, totalLength) ==
      FixedPart(f, ihl, totalLength) + (options + Padding(PaddingCount(ihl, |options|)))
  {
  }

  /** One turn of the pair loop: a whole pair is appended upper-cased, a lone last digit is skipped. */
  lemma PairStep(clean: string, i: nat, pairs: seq<string>)
    requires i < |clean| && 2 * |pairs| == i && pairs == OptionPairs(clean, |pairs|)
    ensures var byte := clean[i..Min(i + 2, |clean|)];
      (|byte| == 2 ==> pairs + [Upper(byte)] == OptionPairs(clean, |pairs| + 1)) &&
      (|byte| != 2 ==> i + 1 == |clean|)
  {
  }

  lemma WholePairs(n: nat, k: nat)
    requires 2 * k == n || 2 * k + 1 == n
    ensures k == n / 2
  {
  }

  lemma PaddingStep(n: nat)
    ensures Padding(n + 1) == Padding(n) + ["00"]
  {
  }

  /** A value of one byte is written as exactly two digits that read back as the value. */
  lemma HexByteReadsBack(n: U8)
    ensures |HexByte(n)| == 2 && ParseInt(HexByte(n), 16) == Some(n)
  {
    assert Pow(2, 8) == 256;
    DecToHexWidth(n, 8);
    DecToHexReadsBack(n, 8);
  }

  /** Below 0x10000 a word is split big-endian: the high byte first, then the low byte. */
  lemma HexWordSplitsBytes(n: U16)
    ensures var w := HexWord(n);
      |w[0]| == 2 && |w[1]| == 2 &&
      ParseInt(w[0], 16) == Some(n / 256) && ParseInt(w[1], 16) == Some(n % 256)
  {
    FourDigitWord(n);
    HalvesOfFourDigits(DecToHex(n, 16));
  }

  /** A 16-bit value takes exactly four hexadecimal digits. */
  lemma FourDigitWord(n: U16)
    ensures |DecToHex(n, 16)| == 4 && ValueOf(DecToHex(n, 16), 16) == n
  {
    PowSixteen(4);
    DecToHexWidth(n, 16);
    DecToHexReadsBack(n, 16);
    ParseIntDigits(DecToHex(n, 16), 16);
  }

  /** The first two of four digits read as the value divided by 256, the last two as the remainder. */
  lemma HalvesOfFourDigits(s: string)
    requires |s| == 4 && AllDigits(s, 16)
    ensures ParseInt(s[..2], 16) == Some(ValueOf(s, 16) / 256)
    ensures ParseInt(s[2..4], 16) == Some(ValueOf(s, 16) % 256)
  {
    var hi, lo := s[..2], s[2..4];
    assert s == hi + lo;
    ValueOfAppend(hi, lo, 16);
    ValueOfBound(lo, 16);
    assert Pow(16, 2) == 256;
    DivModUnique(ValueOf(hi, 16), ValueOf(lo, 16), ValueOf(s, 16));
    ParseIntDigits(hi, 16);
    ParseIntDigits(lo, 16);
  }

  lemma DivModUnique(q: nat, r: nat, n: nat)
    requires r < 256 && q * 256 + r == n
    ensures q == n / 256 && r == n % 256
  {
  }

  /**
   * A total length of 0x10000 or more no longer fits the four digits: substring(2, 4) drops the
   * last one, so 0x10000 is written exactly as 0x1000 is.
   */
  lemma HexWordDropsHighDigits()
    ensures HexWord(0x10000) == HexWord(0x1000) == ["10", "00"]
  {
    PowersOfSixteen();
    var short, long := DecToHex(0x1000, 16), DecToHex(0x10000, 16);
    assert HexWidth(16) == 4;
    assert short == PadStart("1000", 4, '0') == "1000";
    assert long == PadStart("10000", 4, '0') == "10000";
    assert short[..2] == long[..2] == "10";
    assert short[2..4] == long[2..4] == "00";
  }

  lemma PowersOfSixteen()
    ensures ToDigits(0x1000, 16) == "1000" && ToDigits(0x10000, 16) == "10000"
  {
    assert ToDigits(1, 16) == "1";
    assert ToDigits(0x10, 16) == ToDigits(1, 16) + ['0'] == "10";
    assert ToDigits(0x100, 16) == ToDigits(0x10, 16) + ['0'] == "100";
    assert ToDigits(0x1000, 16) == ToDigits(0x100, 16) + ['0'] == "1000";
    assert ToDigits(0x10000, 16) == ToDigits(0x1000, 16) + ['0'] == "10000";
  }

  /** The first byte carries version 4 in its high nibble and the header length in its low one. */
  lemma FirstByteNibbles(ihl: Ihl)
    ensures FirstByte(ihl) == 64 + ihl
    ensures FirstByte(ihl) / 16 == 4 && FirstByte(ihl) % 16 == ihl
  {
  }

  /** Flags take the top three bits of the word and the fragment offset the low thirteen. */
  lemma FlagsFragmentPacks(flags: U3, fragment: U13)
    ensures FlagsFragment(flags, fragment) < 65536
    ensures FlagsFragment(flags, fragment) / 8192 == flags && FlagsFragment(flags, fragment) % 8192 == fragment
  {
  }

  /** Every option entry is the upper-cased pair at the same place in the cleaned text. */
  lemma {:induction false} OptionPairsAreSlices(clean: string, k: nat)
    requires 2 * k <= |clean|
    ensures forall j :: 0 <= j < k ==> OptionPairs(clean, k)[j] == Upper(clean)[2 * j..2 * j + 2]
  {
    if k > 0 {
      OptionPairsAreSlices(clean, k - 1);
      UpperSlice(clean, 2 * k - 2, 2 * k);
    }
  }

  /** The option bytes are the normalised options text cut into pairs, an odd last digit dropped. */
  lemma OptionBytesNormalized(text: string)
    ensures var n := NormalizeOptions(text);
      |OptionBytes(text)| == |n| / 2 &&
      forall j :: 0 <= j < |OptionBytes(text)| ==> OptionBytes(text)[j] == n[2 * j..2 * j + 2]
  {
    var clean := CleanHex(text);
    OptionPairsAreSlices(clean, |clean| / 2);
  }

  /** Every option byte is two digits reading back as the value of that pair of the text. */
  lemma OptionBytesRead(text: string)
    ensures forall j :: 0 <= j < |OptionBytes(text)| ==>
      |OptionBytes(text)[j]| == 2 &&
      ParseInt(OptionBytes(text)[j], 16) == Some(ValueOf(NormalizeOptions(text)[2 * j..2 * j + 2], 16))
  {
    OptionBytesNormalized(text);
    var n := NormalizeOptions(text);
    forall j | 0 <= j < |OptionBytes(text)|
      ensures ParseInt(n[2 * j..2 * j + 2], 16) == Some(ValueOf(n[2 * j..2 * j + 2], 16))
    {
      ParseIntDigits(n[2 * j..2 * j + 2], 16);
    }
  }

  /** A valid address gives four two-digit bytes, one per octet, in address order. */
  lemma IpToHexValid(ip: string)
    requires ValidateIP(ip).Valid?
    ensures ReadsAs(IpToHex(ip), Octets(ip))
    ensures forall k :: 0 <= k < |IpToHex(ip)| ==> |IpToHex(ip)[k]| == 2
  {
    var parts := Split(ip, '.');
    forall k | 0 <= k < 4
      ensures |IpToHex(ip)[k]| == 2 && ParseInt(IpToHex(ip)[k], 16) == Some(Octets(ip)[k])
    {
      ParseIntDigits(parts[k], 10);
      HexByteReadsBack(Octets(ip)[k]);
    }
  }

  /** The fixed part is 20 entries when both addresses are valid. */
  lemma FixedPartLength(f: Fields, ihl: Ihl, totalLength: nat)
    requires ValidateIP(f.srcIp).Valid? && ValidateIP(f.dstIp).Valid?
    ensures |FixedPart(f, ihl, totalLength)| == FixedHeaderBytes
  {
  }

  /**
   * With valid addresses and options that fit (the check calculateDatagram makes first), the header
   * is exactly ihl * 4 entries: the fixed 20, the option bytes and the padding.
   */
  lemma HeaderLength(f: Fields, ihl: Ihl, totalLength: nat)
    requires ValidateIP(f.srcIp).Valid? && ValidateIP(f.dstIp).Valid?
    requires !OptionsOverflow(ihl, f.options)
    ensures |HeaderLayout(f, ihl, totalLength)| == HeaderBytes(ihl)
    ensures HeaderLayout(f, ihl, totalLength)[FixedHeaderBytes..] ==
      OptionBytes(f.options) + Padding(HeaderBytes(ihl) - FixedHeaderBytes - |OptionBytes(f.options)|)
  {
    OverflowIffTooManyDigits(ihl, f.options);
    FixedPartLength(f, ihl, totalLength);
    var fixed := FixedPart(f, ihl, totalLength);
    var rest := OptionBytes(f.options) + Padding(PaddingCount(ihl, |OptionBytes(f.options)|));
    LayoutParts(f, ihl, totalLength);
    assert (fixed + rest)[|fixed|..] == rest;
  }

  /**
   * Without that check, options longer than the header length allows are all kept and no padding is
   * added: the header outgrows ihl * 4 bytes while its first byte still says ihl.
   */
  lemma OverflowOutgrowsHeader(f: Fields, ihl: Ihl, totalLength: nat)
    requires ValidateIP(f.srcIp).Valid? && ValidateIP(f.dstIp).Valid?
    requires |CleanHex(f.options)| >= 2 * OptionsBudget(ihl) + 2
    ensures |HeaderLayout(f, ihl, totalLength)| > HeaderBytes(ihl)
  {
    FixedPartLength(f, ihl, totalLength);
  }

  /** The entries of h, read as hexadecimal, are the numbers bs. */
  ghost predicate ReadsAs(h: seq<string>, bs: seq<nat>)
  {
    |h| == |bs| && forall k :: 0 <= k < |h| ==> ParseInt(h[k], 16) == Some(bs[k])
  }

  lemma ReadsAsAppend(h1: seq<string>, b1: seq<nat>, h2: seq<string>, b2: seq<nat>)
    requires ReadsAs(h1, b1) && ReadsAs(h2, b2)
    ensures ReadsAs(h1 + h2, b1 + b2)
  {
    forall k | 0 <= k < |h1 + h2| ensures ParseInt((h1 + h2)[k], 16) == Some((b1 + b2)[k]) {
      if k >= |h1| {
        assert (h1 + h2)[k] == h2[k - |h1|] && (b1 + b2)[k] == b2[k - |b1|];
      }
    }
  }

  /** The numbers the header entries stand for, or None when an entry is not hexadecimal. */
  function ReadBytes(h: seq<string>): (r: Option<seq<nat>>)
    ensures r.Some? <==> forall k :: 0 <= k < |h| ==> ParseInt(h[k], 16).Some?
  {
    if forall k :: 0 <= k < |h| ==> ParseInt(h[k], 16).Some? then
      Some(seq(|h|, k requires 0 <= k < |h| => ParseInt(h[k], 16).value))
    else
      None
  }

  lemma ReadsAsRead(h: seq<string>, bs: seq<nat>)
    requires ReadsAs(h, bs)
    ensures ReadBytes(h) == Some(bs)
  {
    assert forall k :: 0 <= k < |h| ==> ParseInt(h[k], 16).Some?;
    assert ReadBytes(h).value == bs;
  }

  /** The fixed header fields as a receiver reads them, following section 3.1 of RFC 791. */
  datatype Decoded = Decoded(
    version: nat, ihl: nat, tos: nat, totalLength: nat, identification: nat, flags: nat,
    fragment: nat, ttl: nat, protocol: nat, checksum: nat, src: seq<nat>, dst: seq<nat>)

  /** Reads the first 20 bytes as the fixed header: nibbles, big-endian words, the 3/13 bit split. */
  function DecodeFixed(bs: seq<nat>): (d: Decoded)
    requires |bs| >= 20
    ensures |d.src| == 4 && |d.dst| == 4
  {
    var word := (i: nat) requires i + 1 < |bs| => bs[i] * 256 + bs[i + 1];
    Decoded(
      bs[0] / 16, bs[0] % 16, bs[1], word(2), word(4), word(6) / 8192, word(6) % 8192,
      bs[8], bs[9], word(10), bs[12..16], bs[16..20])
  }

  /** A header text list read back: None when it is too short or one of its first 20 entries is not hexadecimal. */
  function DecodeHeader(h: seq<string>): (r: Option<Decoded>)
    ensures r.Some? ==> |h| >= 20
  {
    if |h| < 20 then None
    else match ReadBytes(h[..20])
      case Some(bs) => Some(DecodeFixed(bs))
      case None => None
  }

  /** The numbers the twelve field entries are written from: single bytes, and words high byte first. */
  function FieldValues(f: Fields, ihl: Ihl, totalLength: nat): (r: seq<nat>)
    ensures |r| == 12
  {
    var ff := FlagsFragment(f.flags, f.fragment);
    [FirstByte(ihl), f.tos] + [totalLength / 256, totalLength % 256] +
    [f.identification / 256, f.identification % 256] + [ff / 256, ff % 256] +
    [f.ttl] + [f.protocol] + [f.checksum / 256, f.checksum % 256]
  }

  /** The numbers the fixed part is written from: the field bytes, then both addresses. */
  function FixedBytes(f: Fields, ihl: Ihl, totalLength: nat): seq<nat>
    requires ValidateIP(f.srcIp).Valid? && ValidateIP(f.dstIp).Valid?
  {
    FieldValues(f, ihl, totalLength) + Octets(f.srcIp) + Octets(f.dstIp)
  }

  /** One more byte field, written as two digits, reads back as its value. */
  lemma ByteReads(h: seq<string>, b: seq<nat>, n: U8)
    requires ReadsAs(h, b)
    ensures ReadsAs(h + [HexByte(n)], b + [n])
  {
    HexByteReadsBack(n);
    ReadsAsAppend(h, b, [HexByte(n)], [n]);
  }

  /** One more 16-bit field, written as two bytes, reads back as its high and low byte. */
  lemma WordReads(h: seq<string>, b: seq<nat>, n: U16)
    requires ReadsAs(h, b)
    ensures ReadsAs(h + HexWord(n), b + [n / 256, n % 256])
  {
    HexWordSplitsBytes(n);
    ReadsAsAppend(h, b, HexWord(n), [n / 256, n % 256]);
  }

  lemma TwoBytesRead(x: U8, y: U8)
    ensures ReadsAs([HexByte(x), HexByte(y)], [x, y])
  {
    HexByteReadsBack(x);
    HexByteReadsBack(y);
  }

  /** The first byte, the type of service and the total length read back as their bytes. */
  lemma LeadingBytesRead(ihl: Ihl, tos: U8, totalLength: U16) returns (h: seq<string>, b: seq<nat>)
    ensures h == [HexByte(FirstByte(ihl)), HexByte(tos)] + HexWord(totalLength)
    ensures b == [FirstByte(ihl), tos] + [totalLength / 256, totalLength % 256]
    ensures ReadsAs(h, b)
  {
    FirstByteNibbles(ihl);
    TwoBytesRead(FirstByte(ihl), tos);
    WordReads([HexByte(FirstByte(ihl)), HexByte(tos)], [FirstByte(ihl), tos], totalLength);
    h, b := [HexByte(FirstByte(ihl)), HexByte(tos)] + HexWord(totalLength),
      [FirstByte(ihl), tos] + [totalLength / 256, totalLength % 256];
  }

  /** The twelve field entries read back as the twelve field bytes. */
  lemma FieldWordsRead(f: Fields, ihl: Ihl, totalLength: U16)
    ensures ReadsAs(FieldWords(f, ihl, totalLength), FieldValues(f, ihl, totalLength))
  {
    var ff := FlagsFragment(f.flags, f.fragment);
    FlagsFragmentPacks(f.flags, f.fragment);
    var h, b := LeadingBytesRead(ihl, f.tos, totalLength);
    WordReads(h, b, f.identification);
    h, b := h + HexWord(f.identification), b + [f.identification / 256, f.identification % 256];
    WordReads(h, b, ff);
    h, b := h + HexWord(ff), b + [ff / 256, ff % 256];
    ByteReads(h, b, f.ttl);
    ByteReads(h + [HexByte(f.ttl)], b + [f.ttl], f.protocol);
    h, b := h + [HexByte(f.ttl)] + [HexByte(f.protocol)], b + [f.ttl] + [f.protocol];
    WordReads(h, b, f.checksum);
  }

  /** Every fixed entry reads back as the number it was written from. */
  lemma FixedPartReads(f: Fields, ihl: Ihl, totalLength: U16)
    requires ValidateIP(f.srcIp).Valid? && ValidateIP(f.dstIp).Valid?
    ensures ReadsAs(FixedPart(f, ihl, totalLength), FixedBytes(f, ihl, totalLength))
  {
    var h, b := FieldWords(f, ihl, totalLength), FieldValues(f, ihl, totalLength);
    FieldWordsRead(f, ihl, totalLength);
    IpToHexValid(f.srcIp);
    ReadsAsAppend(h, b, IpToHex(f.srcIp), Octets(f.srcIp));
    IpToHexValid(f.dstIp);
    ReadsAsAppend(h + IpToHex(f.srcIp), b + Octets(f.srcIp), IpToHex(f.dstIp), Octets(f.dstIp));
  }

  /** Reading the written numbers as the fixed header gives back every field. */
  lemma DecodeFixedBytes(f: Fields, ihl: Ihl, totalLength: U16)
    requires ValidateIP(f.srcIp).Valid? && ValidateIP(f.dstIp).Valid?
    ensures DecodeFixed(FixedBytes(f, ihl, totalLength)) == Decoded(
      4, ihl, f.tos, totalLength, f.identification, f.flags, f.fragment, f.ttl, f.protocol, f.checksum,
      Octets(f.srcIp), Octets(f.dstIp))
  {
    FirstByteNibbles(ihl);
    FlagsFragmentPacks(f.flags, f.fragment);
    var b := FixedBytes(f, ihl, totalLength);
    assert b[12..16] == Octets(f.srcIp) && b[16..20] == Octets(f.dstIp);
  }

  /**
   * The header buildIPHeader writes, read back as section 3.1 of RFC 791 lays it out, gives version 4,
   * the chosen IHL and every field it was built from, as long as the total length fits its 16 bits
   * and both addresses are valid.
   */
  lemma HeaderRoundTrip(f: Fields, ihl: Ihl, totalLength: U16)
    requires ValidateIP(f.srcIp).Valid? && ValidateIP(f.dstIp).Valid?
    ensures DecodeHeader(HeaderLayout(f, ihl, totalLength)) == Some(Decoded(
      4, ihl, f.tos, totalLength, f.identification, f.flags, f.fragment, f.ttl, f.protocol, f.checksum,
      Octets(f.srcIp), Octets(f.dstIp)))
  {
    var h := HeaderLayout(f, ihl, totalLength);
    var fixed := FixedPart(f, ihl, totalLength);
    FixedPartLength(f, ihl, totalLength);
    LayoutParts(f, ihl, totalLength);
    assert h[..20] == fixed;
    FixedPartReads(f, ihl, totalLength);
    ReadsAsRead(fixed, FixedBytes(f, ihl, totalLength));
    DecodeFixedBytes(f, ihl, totalLength);
  }
}
