/**
 * Field-group synchronisation. Every numeric header field is shown three times, as decimal, binary
 * and hexadecimal text. When one of them is edited and validates, updateRelatedFields normalises the
 * value through decimal and rewrites the other two, skipping read-only members; updateFieldGroup
 * writes all three editable members from one decimal value.
 */
module FieldSync {
  import opened Wrappers
  import opened Numerals
  import opened NumberValidator

  /** The data-type of an input: one of the three members of a group, or an address field. */
  datatype Kind = Dec | Bin | Hex | Ip

  /** validation.value: a number from the decimal validator, text from the others. */
  datatype Value = Number(n: nat) | Text(s: string)

  /** JavaScript truthiness of a validated value: the number 0 and the empty string are falsy. */
  predicate Truthy(v: Value)
  {
    match v
    case Number(n) => n != 0
    case Text(s) => s != []
  }

  /** The kind of value each validator hands over for its kind of input. */
  predicate FromValidator(source: Kind, v: Value)
  {
    match source
    case Dec => v.Number?
    case Bin => v.Text? && AllDigits(v.s, 2)
    case Hex => v.Text? && AllDigits(v.s, 16)
    case Ip => v.Text?
  }

  /** Every accepted input hands over a value of the kind its validator promises. */
  lemma ValidatorsHandOverTheirKind(input: string, bits: nat)
    ensures ValidateDecimal(input, bits).Valid? ==> FromValidator(Dec, Number(ValidateDecimal(input, bits).value))
    ensures ValidateBinary(input, bits).Valid? ==> FromValidator(Bin, Text(ValidateBinary(input, bits).value))
    ensures ValidateHexadecimal(input, bits).Valid? ==> FromValidator(Hex, Text(ValidateHexadecimal(input, bits).value))
    ensures ValidateIP(input).Valid? ==> FromValidator(Ip, Text(ValidateIP(input).value))
  {
  }

  /** handleInputChange's switch: the validator of the member's kind, its value wrapped as a Value. */
  function ValidateMember(k: Kind, input: string, bits: nat): (r: Validation<Value>)
    ensures r.Valid? ==> FromValidator(k, r.value) && input != []
    ensures r == Invalid(Required) <==> input == [] && k != Ip
    ensures r == Invalid(IpRequired) <==> input == [] && k == Ip
  {
    ValidatorsHandOverTheirKind(input, bits);
    match k
    case Dec => (match ValidateDecimal(input, bits) case Valid(n) => Valid(Number(n)) case Invalid(e) => Invalid(e))
    case Bin => (match ValidateBinary(input, bits) case Valid(b) => Valid(Text(b)) case Invalid(e) => Invalid(e))
    case Hex => (match ValidateHexadecimal(input, bits) case Valid(h) => Valid(Text(h)) case Invalid(e) => Invalid(e))
    case Ip => (match ValidateIP(input) case Valid(a) => Valid(Text(a)) case Invalid(e) => Invalid(e))
  }

  /** The radix in which a member's text is read. */
  function Radix(k: Kind): nat
    requires k != Ip
  {
    match k
    case Dec => 10
    case Bin => 2
    case Hex => 16
  }

  /** decValue: the validated value read as a number; an address has none (the switch's default). */
  function DecimalOf(source: Kind, v: Value): (r: Option<nat>)
    requires FromValidator(source, v) && Truthy(v)
    ensures r.None? <==> source == Ip
    ensures source != Ip && source != Dec ==> ParseInt(v.s, Radix(source)) == r
  {
    match source
    case Dec => Some(v.n)
    case Bin => BinToDec(v.s)
    case Hex => HexToDec(v.s)
    case Ip => None
  }

  /** The three texts of a group. */
  datatype Texts = Texts(dec: string, bin: string, hex: string)

  /** The readOnly flags of the three members of a group. */
  datatype Locks = Locks(dec: bool, bin: bool, hex: bool)

  const NoLocks := Locks(false, false, false)

  function Get(t: Texts, k: Kind): string
    requires k != Ip
  {
    match k
    case Dec => t.dec
    case Bin => t.bin
    case Hex => t.hex
  }

  function Locked(l: Locks, k: Kind): bool
    requires k != Ip
  {
    match k
    case Dec => l.dec
    case Bin => l.bin
    case Hex => l.hex
  }

  /** What member k shows for the decimal value d: toString(), decToBin or decToHex. */
  function Render(k: Kind, d: nat, bits: nat): string
    requires k != Ip
  {
    match k
    case Dec => ToDigits(d, 10)
    case Bin => DecToBin(d, bits)
    case Hex => DecToHex(d, bits)
  }

  /** Whatever member shows d, reading its text in its own radix gives d back. */
  lemma RenderReadsBack(k: Kind, d: nat, bits: nat)
    requires k != Ip
    ensures ParseInt(Render(k, d, bits), Radix(k)) == Some(d)
  {
    match k
    case Dec => ParseIntDigits(ToDigits(d, 10), 10);
    case Bin => DecToBinReadsBack(d, bits);
    case Hex => DecToHexReadsBack(d, bits);
  }

  /** Rendering in all three radixes at once, as an unlocked group update does. */
  lemma RenderAllReadBack(d: nat, bits: nat)
    ensures Consistent(Texts(Render(Dec, d, bits), Render(Bin, d, bits), Render(Hex, d, bits)), d)
  {
    RenderReadsBack(Dec, d, bits);
    RenderReadsBack(Bin, d, bits);
    RenderReadsBack(Hex, d, bits);
  }

  /** All three texts read as d, each in its own radix. */
  predicate Consistent(t: Texts, d: nat)
  {
    ParseInt(t.dec, 10) == Some(d) && ParseInt(t.bin, 2) == Some(d) && ParseInt(t.hex, 16) == Some(d)
  }

  /** Binary and hexadecimal texts have the canonical widths of the field. */
  predicate CanonicalWidths(t: Texts, bits: nat)
  {
    |t.bin| == bits && |t.hex| == HexWidth(bits)
  }

  /**
   * The texts after updateRelatedFields: nothing changes for a falsy value or an address;
   * otherwise every member other than the source that is not read-only shows the value read
   * from the source.
   */
  function RelatedUpdate(t: Texts, locks: Locks, source: Kind, v: Value, bits: nat): Texts
    requires FromValidator(source, v)
  {
    if !Truthy(v) || source == Ip then t
    else
      var d := DecimalOf(source, v).value;
      Texts(
        if source != Dec && !locks.dec then Render(Dec, d, bits) else t.dec,
        if source != Bin && !locks.bin then Render(Bin, d, bits) else t.bin,
        if source != Hex && !locks.hex then Render(Hex, d, bits) else t.hex)
  }

  /** The texts after updateFieldGroup: every member that is not read-only shows d. */
  function GroupUpdate(t: Texts, locks: Locks, d: nat, bits: nat): Texts
  {
    Texts(
      if locks.dec then t.dec else Render(Dec, d, bits),
      if locks.bin then t.bin else Render(Bin, d, bits),
      if locks.hex then t.hex else Render(Hex, d, bits))
  }

  /** The source member and every read-only member keep their text; an address changes nothing. */
  lemma RelatedUpdateFrame(t: Texts, locks: Locks, source: Kind, v: Value, bits: nat, k: Kind)
    requires FromValidator(source, v) && k != Ip
    requires k == source || Locked(locks, k) || source == Ip || !Truthy(v)
    ensures Get(RelatedUpdate(t, locks, source, v, bits), k) == Get(t, k)
  {
  }

  /** Every other editable member is rewritten, and reads back as the source's value. */
  lemma RelatedUpdateWrites(t: Texts, locks: Locks, source: Kind, v: Value, bits: nat, k: Kind)
    requires FromValidator(source, v) && Truthy(v) && source != Ip
    requires k != Ip && k != source && !Locked(locks, k)
    ensures var r := Get(RelatedUpdate(t, locks, source, v, bits), k);
      r == Render(k, DecimalOf(source, v).value, bits) &&
      ParseInt(r, Radix(k)) == DecimalOf(source, v)
  {
    RenderReadsBack(k, DecimalOf(source, v).value, bits);
  }

  /**
   * With no read-only member, an edit whose own text reads as a non-zero d leaves the whole group
   * reading as d, and the rewritten siblings at their canonical widths when d fits the field.
   */
  lemma RelatedUpdateConsistent(t: Texts, source: Kind, v: Value, bits: nat)
    requires FromValidator(source, v) && Truthy(v) && source != Ip
    requires ParseInt(Get(t, source), Radix(source)) == DecimalOf(source, v)
    ensures Consistent(RelatedUpdate(t, NoLocks, source, v, bits), DecimalOf(source, v).value)
    ensures var d := DecimalOf(source, v).value; var r := RelatedUpdate(t, NoLocks, source, v, bits);
      1 <= bits && d <= MaxValue(bits) ==>
        (source != Bin ==> |r.bin| == bits) && (source != Hex ==> |r.hex| == HexWidth(bits))
  {
    var d := DecimalOf(source, v).value;
    var r := RelatedUpdate(t, NoLocks, source, v, bits);
    RenderAllReadBack(d, bits);
    if 1 <= bits && d <= MaxValue(bits) {
      DecToBinWidth(d, bits);
      DecToHexWidth(d, bits);
    }
    match source {
      case Dec => assert r == Texts(t.dec, Render(Bin, d, bits), Render(Hex, d, bits));
      case Bin => assert r == Texts(Render(Dec, d, bits), t.bin, Render(Hex, d, bits));
      case Hex => assert r == Texts(Render(Dec, d, bits), Render(Bin, d, bits), t.hex);
    }
  }

  /** updateFieldGroup leaves every read-only member alone. */
  lemma GroupUpdateKeepsLocked(t: Texts, locks: Locks, d: nat, bits: nat, k: Kind)
    requires k != Ip && Locked(locks, k)
    ensures Get(GroupUpdate(t, locks, d, bits), k) == Get(t, k)
  {
  }

  /** updateFieldGroup makes an unlocked group read as d, at the canonical widths when d fits. */
  lemma GroupUpdateConsistent(t: Texts, d: nat, bits: nat)
    ensures Consistent(GroupUpdate(t, NoLocks, d, bits), d)
    ensures 1 <= bits && d <= MaxValue(bits) ==> CanonicalWidths(GroupUpdate(t, NoLocks, d, bits), bits)
  {
    RenderAllReadBack(d, bits);
    if 1 <= bits && d <= MaxValue(bits) {
      DecToBinWidth(d, bits);
      DecToHexWidth(d, bits);
    }
  }

  /** The value each validator hands over when it re-reads what a group update wrote in member k. */
  function Revalidated(k: Kind, d: nat, bits: nat): Value
    requires k != Ip
  {
    match k
    case Dec => Number(d)
    case Bin => Text(DecToBin(d, bits))
    case Hex => Text(DecToHex(d, bits))
  }

  /**
   * Re-validating what a group update wrote in member k, for a non-zero value of the width: the
   * member's validator accepts the text and hands over d again.
   */
  lemma RevalidatedReadsBack(k: Kind, d: nat, bits: nat)
    requires k != Ip && 1 <= d && 1 <= bits && d <= MaxValue(bits)
    ensures ValidateMember(k, Render(k, d, bits), bits) == Valid(Revalidated(k, d, bits))
    ensures FromValidator(k, Revalidated(k, d, bits)) && Truthy(Revalidated(k, d, bits))
    ensures DecimalOf(k, Revalidated(k, d, bits)) == Some(d)
  {
    match k {
      case Dec => DecimalOutputValidates(d, bits);
      case Bin => BinaryOutputValidates(d, bits);
      case Hex => HexOutputValidates(d, bits);
    }
  }

  /**
   * A synchronised group is a fixed point: re-validating any non-zero member (as the blur
   * handler does) and propagating it rewrites the siblings with the texts they already show.
   */
  lemma SyncedGroupIsStable(t: Texts, d: nat, bits: nat, k: Kind)
    requires k != Ip && 1 <= d && 1 <= bits && d <= MaxValue(bits)
    ensures var synced := GroupUpdate(t, NoLocks, d, bits);
      ValidateMember(k, Get(synced, k), bits) == Valid(Revalidated(k, d, bits))
    ensures FromValidator(k, Revalidated(k, d, bits))
    ensures var synced := GroupUpdate(t, NoLocks, d, bits);
      RelatedUpdate(synced, NoLocks, k, Revalidated(k, d, bits), bits) == synced
  {
    RevalidatedReadsBack(k, d, bits);
  }

  /**
   * As written, the early return on a falsy value also fires for a validated decimal 0: typing "0"
   * into the decimal member of a group that showed 5 leaves the binary and hexadecimal members at 5.
   */
  lemma ZeroEditLeavesSiblingsStale()
    ensures ValidateDecimal("0", 8) == Valid(0)
    ensures var edited := Texts("0", "00000101", "05");
      RelatedUpdate(edited, NoLocks, Dec, Number(0), 8) == edited &&
      !Consistent(RelatedUpdate(edited, NoLocks, Dec, Number(0), 8), 0)
  {
    var edited := Texts("0", "00000101", "05");
    assert ParseInt("05", 16) == Some(5) by {
      ParseIntDigits("05", 16);
      assert "05"[..1] == "0";
    }
  }

  /** updateRelatedFields returning early only for an empty value, so that 0 is propagated too. */
  function CorrectedRelatedUpdate(t: Texts, locks: Locks, source: Kind, v: Value, bits: nat): Texts
    requires FromValidator(source, v)
  {
    if v == Text([]) || source == Ip then t
    else
      var d := match v case Number(n) => n case Text(s) => ParseInt(s, Radix(source)).value;
      Texts(
        if source != Dec && !locks.dec then Render(Dec, d, bits) else t.dec,
        if source != Bin && !locks.bin then Render(Bin, d, bits) else t.bin,
        if source != Hex && !locks.hex then Render(Hex, d, bits) else t.hex)
  }

  /** The correction differs from the code only on a decimal 0. */
  lemma CorrectedAgreesExceptZero(t: Texts, locks: Locks, source: Kind, v: Value, bits: nat)
    requires FromValidator(source, v) && v != Number(0)
    ensures CorrectedRelatedUpdate(t, locks, source, v, bits) == RelatedUpdate(t, locks, source, v, bits)
  {
  }

  /** With the correction, every edit of an unlocked group whose own text reads as d, 0 included, leaves it consistent. */
  lemma CorrectedUpdateConsistent(t: Texts, source: Kind, v: Value, bits: nat, d: nat)
    requires FromValidator(source, v) && source != Ip && v != Text([])
    requires d == (match v case Number(n) => n case Text(s) => ParseInt(s, Radix(source)).value)
    requires ParseInt(Get(t, source), Radix(source)) == Some(d)
    ensures Consistent(CorrectedRelatedUpdate(t, NoLocks, source, v, bits), d)
  {
    var r := CorrectedRelatedUpdate(t, NoLocks, source, v, bits);
    RenderAllReadBack(d, bits);
    match source {
      case Dec => assert r == Texts(t.dec, Render(Bin, d, bits), Render(Hex, d, bits));
      case Bin => assert r == Texts(Render(Dec, d, bits), t.bin, Render(Hex, d, bits));
      case Hex => assert r == Texts(Render(Dec, d, bits), Render(Bin, d, bits), t.hex);
    }
  }

  /** One header field's three inputs, with their readOnly attributes. */
  class FieldGroup {
    var dec: string
    var bin: string
    var hex: string
    const decReadOnly: bool
    const binReadOnly: bool
    const hexReadOnly: bool

    function Current(): Texts
      reads this
    {
      Texts(dec, bin, hex)
    }

    function ReadOnly(): Locks
    {
      Locks(decReadOnly, binReadOnly, hexReadOnly)
    }

    constructor (dec: string, bin: string, hex: string, decReadOnly: bool, binReadOnly: bool, hexReadOnly: bool)
      ensures Current() == Texts(dec, bin, hex)
      ensures ReadOnly() == Locks(decReadOnly, binReadOnly, hexReadOnly)
    {
      this.dec, this.bin, this.hex := dec, bin, hex;
      this.decReadOnly, this.binReadOnly, this.hexReadOnly := decReadOnly, binReadOnly, hexReadOnly;
    }

    /** updateRelatedFields: the source member was edited and validated to value. */
    method UpdateRelatedFields(source: Kind, value: Value, bits: nat)
      requires FromValidator(source, value)
      modifies this
      ensures Current() == RelatedUpdate(old(Current()), ReadOnly(), source, value, bits)
    {
      if !Truthy(value) {
        return;
      }
      var decValue: nat;
      match source {
        case Dec => decValue := value.n;
        case Bin => decValue := BinToDec(value.s).value;
        case Hex => decValue := HexToDec(value.s).value;
        case Ip => return;
      }
      assert Some(decValue) == DecimalOf(source, value);
      ghost var expected := RelatedUpdate(Current(), ReadOnly(), source, value, bits);
      if source != Bin && !binReadOnly {
        bin := DecToBin(decValue, bits);
      }
      assert bin == expected.bin;
      if source != Hex && !hexReadOnly {
        hex := DecToHex(decValue, bits);
      }
      assert hex == expected.hex;
      if source != Dec && !decReadOnly {
        dec := ToDigits(decValue, 10);
      }
      assert dec == expected.dec;
    }

    /** updateFieldGroup: show decValue in every member that is not read-only. */
    method UpdateFieldGroup(decValue: nat, bits: nat)
      modifies this
      ensures Current() == GroupUpdate(old(Current()), ReadOnly(), decValue, bits)
    {
      if !decReadOnly {
        dec := ToDigits(decValue, 10);
      }
      if !binReadOnly {
        bin := DecToBin(decValue, bits);
      }
      if !hexReadOnly {
        hex := DecToHex(decValue, bits);
      }
    }
  }
}
