/**
 * Header length, options room and total length. The header length (IHL) is chosen from a select
 * of 5 to 15 32-bit words; the first 20 bytes are the fixed header and the rest is room for
 * options, entered as hexadecimal text in which every two digits are one byte.
 */
module Options {
  import opened Wrappers
  import opened TextUtil
  import opened Numerals
  import opened NumberValidator
  import opened FieldSync

  /** The values the header-length select offers: 5 to 15 words. */
  type Ihl = x: int | 5 <= x <= 15 witness 5

  /** The fixed part of every IPv4 header, in bytes. */
  const FixedHeaderBytes: nat := 20

  /** parseInt(ihl_select.value || 5): an unselected header length counts as 5 words. */
  function IhlOrDefault(selected: Option<Ihl>): Ihl
  {
    match selected
    case Some(ihl) => ihl
    case None => 5
  }

  /** ihl * 4: the header length in bytes. */
  function HeaderBytes(ihl: Ihl): nat
  {
    ihl * 4
  }

  /** maxOptionsBytes: the header bytes left after the fixed 20, none for the minimal header. */
  function OptionsBudget(ihl: Ihl): (b: nat)
    ensures FixedHeaderBytes + b == HeaderBytes(ihl)
    ensures b % 4 == 0 && b <= 40
    ensures b == 0 <==> ihl == 5
  {
    ihl * 4 - 20
  }

  /**
   * optionsBytes: the cleaned hexadecimal digits counted two to a byte. The division is
   * JavaScript's, so an odd digit count gives half a byte.
   */
  function UsedOptionBytes(text: string): (r: real)
    ensures r >= 0.0
    ensures 2.0 * r == |CleanHex(text)| as real
  {
    var clean := CleanHex(text);
    if clean != [] then |clean| as real / 2.0 else 0.0
  }

  /** The options take more bytes than the header length leaves for them. */
  predicate OptionsOverflow(ihl: Ihl, text: string)
  {
    UsedOptionBytes(text) > OptionsBudget(ihl) as real
  }

  /** The options overflow exactly when more than two digits per available byte remain after cleaning. */
  lemma OverflowIffTooManyDigits(ihl: Ihl, text: string)
    ensures OptionsOverflow(ihl, text) <==> |CleanHex(text)| > 2 * OptionsBudget(ihl)
  {
    HalfExceeds(UsedOptionBytes(text), |CleanHex(text)|, OptionsBudget(ihl));
  }

  lemma HalfExceeds(r: real, n: nat, b: nat)
    requires 2.0 * r == n as real
    ensures r > b as real <==> n > 2 * b
  {
    assert (2 * b) as real == 2.0 * (b as real);
  }

  /**
   * The options text after each keystroke: every non-hexadecimal character removed and the rest
   * upper-cased.
   */
  function NormalizeOptions(text: string): (r: string)
    ensures AllDigits(r, 16) && NoLowerCase(r)
    ensures |r| == |CleanHex(text)|
    ensures ValueOf(r, 16) == ValueOf(CleanHex(text), 16)
  {
    UpperHex(CleanHex(text));
    Upper(CleanHex(text))
  }

  /** Normalising twice is normalising once, and it keeps the number of option bytes. */
  lemma NormalizeIdempotent(text: string)
    ensures NormalizeOptions(NormalizeOptions(text)) == NormalizeOptions(text)
    ensures UsedOptionBytes(NormalizeOptions(text)) == UsedOptionBytes(text)
  {
    var n := NormalizeOptions(text);
    assert CleanHex(n) == n;
    UpperIdentity(n);
  }

  /**
   * The blur handler: when the cleaned options hold more than 2 * budget digits they are cut to
   * that many and upper-cased; otherwise the text is left exactly as typed.
   */
  function BlurOptions(selected: Option<Ihl>, text: string): (r: string)
    ensures var ihl := IhlOrDefault(selected);
      !OptionsOverflow(ihl, r) &&
      (r == text <==> !OptionsOverflow(ihl, text)) &&
      (r != text ==> r <= NormalizeOptions(text) && |r| == 2 * OptionsBudget(ihl))
  {
    var ihl := IhlOrDefault(selected);
    var maxHexChars := 2 * OptionsBudget(ihl);
    var clean := CleanHex(text);
    OverflowIffTooManyDigits(ihl, text);
    if |clean| > maxHexChars then
      BlurTruncates(clean, maxHexChars);
      OverflowIffTooManyDigits(ihl, Upper(clean[..maxHexChars]));
      Upper(clean[..maxHexChars])
    else
      text
  }

  /** Cutting the cleaned digits to m and upper-casing gives the first m normalised digits. */
  lemma BlurTruncates(clean: string, m: nat)
    requires AllDigits(clean, 16) && m < |clean|
    ensures var r := Upper(clean[..m]);
      CleanHex(r) == r && |r| == m && r <= Upper(clean)
  {
    var r := Upper(clean[..m]);
    UpperHex(clean[..m]);
    UpperSlice(clean, 0, m);
    assert clean[0..m] == clean[..m];
  }

  /** A second blur changes nothing: the text left by the first one already fits. */
  lemma BlurIdempotent(selected: Option<Ihl>, text: string)
    ensures BlurOptions(selected, BlurOptions(selected, text)) == BlurOptions(selected, text)
  {
    var r := BlurOptions(selected, text);
    OverflowIffTooManyDigits(IhlOrDefault(selected), r);
  }

  /** What updateOptionsInfo shows: the room, the bytes used and whether the warning is on. */
  datatype OptionsInfo = OptionsInfo(ihl: Ihl, maxBytes: nat, usedBytes: real, warning: bool)

  function UpdateOptionsInfo(selected: Option<Ihl>, text: string): (info: OptionsInfo)
    ensures selected.Some? ==> info.ihl == selected.value
    ensures selected.None? ==> info.ihl == 5
    ensures info.maxBytes + FixedHeaderBytes == HeaderBytes(info.ihl)
    ensures info.warning <==> |CleanHex(text)| > 2 * info.maxBytes
    ensures 2.0 * info.usedBytes == |CleanHex(text)| as real
  {
    var ihl := IhlOrDefault(selected);
    OverflowIffTooManyDigits(ihl, text);
    OptionsInfo(ihl, OptionsBudget(ihl), UsedOptionBytes(text), OptionsOverflow(ihl, text))
  }

  /** totalLength: the header length in bytes plus the payload, whatever options were typed. */
  function TotalLength(ihl: Ihl, dataBytes: nat): (r: nat)
    ensures r == FixedHeaderBytes + OptionsBudget(ihl) + dataBytes
    ensures 20 + dataBytes <= r <= 60 + dataBytes
  {
    HeaderBytes(ihl) + dataBytes
  }

  /**
   * updateTotalLengthPreview: the total length of the selected header and the payload is shown in
   * every member of the total-length group that is not read-only, as a 16-bit field.
   */
  method UpdateTotalLengthPreview(selected: Option<Ihl>, dataBytes: nat, totalGroup: FieldGroup)
    returns (totalLength: nat)
    modifies totalGroup
    ensures totalLength == TotalLength(IhlOrDefault(selected), dataBytes)
    ensures totalGroup.Current() == GroupUpdate(old(totalGroup.Current()), totalGroup.ReadOnly(), totalLength, 16)
  {
    var ihl := IhlOrDefault(selected);
    var headerBytes := HeaderBytes(ihl);
    totalLength := headerBytes + dataBytes;
    totalGroup.UpdateFieldGroup(totalLength, 16);
  }
}
