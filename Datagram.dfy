/**
 * calculateDatagram: the "calculate" button. It refuses to run without a header length, marks every
 * empty required field and stops on the first, refuses options that do not fit the header length,
 * and otherwise writes the total length into its field group, builds the header, turns the payload
 * bytes into hexadecimal text and hands everything to the result view.
 */
module Datagram {
  import opened Wrappers
  import opened Numerals
  import opened NumberValidator
  import opened FieldSync
  import opened Options
  import opened Header

  /** The ids of calculateDatagram's requiredFields. */
  datatype FieldId = Tos | Identification | Flags | Fragment | Ttl | Protocol | Checksum | SrcIp | DstIp

  /** requiredFields, in the order they are checked. */
  const RequiredFields: seq<FieldId> := [Tos, Identification, Flags, Fragment, Ttl, Protocol, Checksum, SrcIp, DstIp]

  /**
   * What the page holds when the button is pressed: the selected header length, the decimal text of
   * each numeric field, both address texts, the options text and the payload as the bytes
   * TextEncoder gives for it.
   */
  datatype Form = Form(
    ihl: Option<Ihl>, tos: string, identification: string, flags: string, fragment: string,
    ttl: string, protocol: string, checksum: string, srcIp: string, dstIp: string,
    options: string, data: seq<U8>)

  /** document.getElementById(fieldId).value */
  function Text(form: Form, id: FieldId): string
  {
    match id
    case Tos => form.tos
    case Identification => form.identification
    case Flags => form.flags
    case Fragment => form.fragment
    case Ttl => form.ttl
    case Protocol => form.protocol
    case Checksum => form.checksum
    case SrcIp => form.srcIp
    case DstIp => form.dstIp
  }

  /** The bit width each numeric field is validated against; the addresses have none. */
  function Width(id: FieldId): nat
  {
    match id
    case Tos => 8
    case Identification => 16
    case Flags => 3
    case Fragment => 13
    case Ttl => 8
    case Protocol => 8
    case Checksum => 16
    case SrcIp => 0
    case DstIp => 0
  }

  predicate IsAddress(id: FieldId)
  {
    id == SrcIp || id == DstIp
  }

  /** The text is empty or decimal digits worth less than limit. */
  predicate DecimalFits(text: string, limit: nat)
  {
    text == [] || (AllDigits(text, 10) && ValueOf(text, 10) < limit)
  }

  /**
   * What the input handlers leave behind: every numeric field is either empty or a decimal text
   * within its width (DecimalFitsIsValidated).
   */
  predicate NumericTextsValid(form: Form)
  {
    DecimalFits(form.tos, 256) && DecimalFits(form.identification, 65536) &&
    DecimalFits(form.flags, 8) && DecimalFits(form.fragment, 8192) &&
    DecimalFits(form.ttl, 256) && DecimalFits(form.protocol, 256) && DecimalFits(form.checksum, 65536)
  }

  /** A numeric field fits exactly when it is empty or its decimal validator accepts it. */
  lemma DecimalFitsIsValidated(text: string, id: FieldId)
    requires !IsAddress(id)
    ensures DecimalFits(text, Limit(id)) <==> text == [] || ValidateDecimal(text, Width(id)).Valid?
  {
    LimitIsPow(id);
  }

  /** The first id of ids whose field is empty, as the forEach loop records it in firstInvalidField. */
  function FirstMissing(form: Form, ids: seq<FieldId>): (r: Option<FieldId>)
  {
    if ids == [] then None
    else
      match FirstMissing(form, ids[..|ids| - 1])
      case Some(first) => Some(first)
      case None => if Text(form, ids[|ids| - 1]) == [] then Some(ids[|ids| - 1]) else None
  }

  /** The ids of ids whose field gets the "required" error. */
  function Marked(form: Form, ids: seq<FieldId>): (r: set<FieldId>)
  {
    if ids == [] then {}
    else
      Marked(form, ids[..|ids| - 1]) + (if Text(form, ids[|ids| - 1]) == [] then {ids[|ids| - 1]} else {})
  }

  /** Marked is exactly the set of empty fields among ids. */
  lemma {:induction false} MarkedAreEmpty(form: Form, ids: seq<FieldId>)
    ensures Marked(form, ids) == set id | id in ids && Text(form, id) == []
  {
    if ids != [] {
      var init := ids[..|ids| - 1];
      MarkedAreEmpty(form, init);
      assert ids == init + [ids[|ids| - 1]];
    }
  }

  /**
   * FirstMissing finds an empty field exactly when there is one, and the one it finds comes before
   * every other empty field.
   */
  lemma {:induction false} FirstMissingIsFirst(form: Form, ids: seq<FieldId>)
    ensures FirstMissing(form, ids).None? <==> forall k :: 0 <= k < |ids| ==> Text(form, ids[k]) != []
    ensures FirstMissing(form, ids).Some? ==>
      exists j :: (0 <= j < |ids| && ids[j] == FirstMissing(form, ids).value &&
        Text(form, ids[j]) == [] && forall k :: 0 <= k < j ==> Text(form, ids[k]) != [])
  {
    if ids != [] {
      var init := ids[..|ids| - 1];
      FirstMissingIsFirst(form, init);
      assert forall k :: 0 <= k < |init| ==> init[k] == ids[k];
      if FirstMissing(form, init).Some? {
        var j :| 0 <= j < |init| && init[j] == FirstMissing(form, init).value &&
          Text(form, init[j]) == [] && forall k :: 0 <= k < j ==> Text(form, init[k]) != [];
        assert ids[j] == FirstMissing(form, ids).value;
      } else if Text(form, ids[|ids| - 1]) == [] {
        assert ids[|ids| - 1] == FirstMissing(form, ids).value;
      }
    }
  }

  /** All required fields are filled. */
  predicate Filled(form: Form)
  {
    form.tos != [] && form.identification != [] && form.flags != [] && form.fragment != [] &&
    form.ttl != [] && form.protocol != [] && form.checksum != [] && form.srcIp != [] && form.dstIp != []
  }

  /** Filled is the check of every required field. */
  lemma FilledIsRequired(form: Form)
    ensures Filled(form) <==> forall k :: 0 <= k < |RequiredFields| ==> Text(form, RequiredFields[k]) != []
  {
    if forall k :: 0 <= k < |RequiredFields| ==> Text(form, RequiredFields[k]) != [] {
      assert Text(form, RequiredFields[0]) != [] && Text(form, RequiredFields[1]) != [] &&
        Text(form, RequiredFields[2]) != [] && Text(form, RequiredFields[3]) != [] &&
        Text(form, RequiredFields[4]) != [] && Text(form, RequiredFields[5]) != [] &&
        Text(form, RequiredFields[6]) != [] && Text(form, RequiredFields[7]) != [] &&
        Text(form, RequiredFields[8]) != [];
    }
  }

  /** 2^Width(id): one more than the largest value the field accepts. */
  function Limit(id: FieldId): nat
  {
    match id
    case Tos => 256
    case Identification => 65536
    case Flags => 8
    case Fragment => 8192
    case Ttl => 256
    case Protocol => 256
    case Checksum => 65536
    case SrcIp => 1
    case DstIp => 1
  }

  lemma LimitIsPow(id: FieldId)
    ensures Limit(id) == Pow(2, Width(id))
  {
    assert Pow(2, 3) == 8;
    assert Pow(2, 8) == 256;
    assert Pow(2, 13) == 8192;
    assert Pow(2, 16) == 65536;
  }

  /** parseInt of a non-empty numeric field that fits: its whole text read in base 10. */
  function DecimalNumber(text: string, limit: nat): (n: nat)
    requires text != [] && DecimalFits(text, limit)
    ensures n < limit && n == ValueOf(text, 10)
  {
    ParseIntDigits(text, 10);
    ParseInt(text, 10).value
  }

  /** Where id stands in requiredFields. */
  function RequiredFieldIndex(id: FieldId): (k: nat)
    ensures k < |RequiredFields| && RequiredFields[k] == id
  {
    match id
    case Tos => 0
    case Identification => 1
    case Flags => 2
    case Fragment => 3
    case Ttl => 4
    case Protocol => 5
    case Checksum => 6
    case SrcIp => 7
    case DstIp => 8
  }

  /** The fields buildIPHeader reads with parseInt from a filled, validated form. */
  function FieldsOf(form: Form): (f: Fields)
    requires NumericTextsValid(form) && Filled(form)
    ensures f.srcIp == form.srcIp && f.dstIp == form.dstIp && f.options == form.options
  {
    var tos, identification := DecimalNumber(form.tos, 256), DecimalNumber(form.identification, 65536);
    var flags, fragment := DecimalNumber(form.flags, 8), DecimalNumber(form.fragment, 8192);
    var ttl, protocol := DecimalNumber(form.ttl, 256), DecimalNumber(form.protocol, 256);
    var checksum := DecimalNumber(form.checksum, 65536);
    Fields(tos, identification, flags, fragment, ttl, protocol, checksum, form.srcIp, form.dstIp, form.options)
  }

  /** textToHex: every payload byte as two upper-case hexadecimal digits. */
  function TextToHex(data: seq<U8>): (r: seq<string>)
    ensures |r| == |data|
  {
    seq(|data|, k requires 0 <= k < |data| => HexByte(data[k]))
  }

  /** Every payload entry is two digits reading back as its byte. */
  lemma TextToHexReads(data: seq<U8>)
    ensures ReadsAs(TextToHex(data), data)
    ensures forall k :: 0 <= k < |data| ==> |TextToHex(data)[k]| == 2
  {
    forall k | 0 <= k < |data| ensures |TextToHex(data)[k]| == 2 && ParseInt(TextToHex(data)[k], 16) == Some(data[k] as nat) {
      HexByteReadsBack(data[k]);
    }
  }

  /** What pressing the button leads to. */
  datatype Outcome =
    | NoIhl                                        // alert: select the header length
    | Missing(first: FieldId, marked: set<FieldId>) // alert: fill the fields marked in red; first gets focus
    | Overflow(used: real, max: nat)                // alert: the options exceed the space
    | Built(header: seq<string>, data: seq<string>, totalLength: nat, headerBytes: nat, dataBytes: nat, optionsBytes: real)

  /**
   * The checks calculateDatagram makes before building: the header length, the empty required
   * fields and the options room. They look only at emptiness and at the options digits, never at a
   * number, so they are defined for every form. None means the form goes on to be built.
   */
  function Refusal(form: Form): (r: Option<Outcome>)
    ensures r.Some? ==> !r.value.Built?
    ensures r.None? ==> form.ihl.Some? && Filled(form) && !OptionsOverflow(form.ihl.value, form.options)
  {
    FirstMissingIsFirst(form, RequiredFields);
    FilledIsRequired(form);
    if form.ihl.None? then Some(NoIhl)
    else
      match FirstMissing(form, RequiredFields)
      case Some(first) => Some(Missing(first, Marked(form, RequiredFields)))
      case None =>
        var ihl := form.ihl.value;
        if OptionsOverflow(ihl, form.options) then
          Some(Overflow(UsedOptionBytes(form.options), OptionsBudget(ihl)))
        else None
  }

  /**
   * The outcome calculateDatagram reaches on a form: a refusal, or the built datagram. Only the
   * building reads the numeric fields, so only a form that is not refused needs them in width.
   */
  function DatagramOutcome(form: Form): (o: Outcome)
    requires Refusal(form).Some? || NumericTextsValid(form)
    ensures Refusal(form).Some? ==> o == Refusal(form).value
    ensures Refusal(form).None? ==> o.Built?
  {
    match Refusal(form)
    case Some(refused) => refused
    case None =>
      var ihl := form.ihl.value;
      var total := TotalLength(ihl, |form.data|);
      Built(HeaderLayout(FieldsOf(form), ihl, total), TextToHex(form.data), total, HeaderBytes(ihl),
        |form.data|, UsedOptionBytes(form.options))
  }

  /**
   * calculateDatagram. The total-length group is written only when the header is built, with the
   * total length as a 16-bit field.
   */
  method CalculateDatagram(form: Form, totalGroup: FieldGroup) returns (o: Outcome)
    requires Refusal(form).Some? || NumericTextsValid(form)
    modifies totalGroup
    ensures o == DatagramOutcome(form)
    ensures o.Built? ==> totalGroup.Current() == GroupUpdate(old(totalGroup.Current()), totalGroup.ReadOnly(), o.totalLength, 16)
    ensures !o.Built? ==> totalGroup.Current() == old(totalGroup.Current())
  {
    if form.ihl.None? {
      return NoIhl;
    }

    var allValid := true;
    var firstInvalidField: Option<FieldId> := None;
    var marked: set<FieldId> := {};
    var i := 0;
    while i < |RequiredFields|
      invariant 0 <= i <= |RequiredFields|
      invariant firstInvalidField == FirstMissing(form, RequiredFields[..i])
      invariant marked == Marked(form, RequiredFields[..i])
      invariant allValid <==> firstInvalidField.None?
    {
      var fieldId := RequiredFields[i];
      assert RequiredFields[..i + 1][..i] == RequiredFields[..i];
      if Text(form, fieldId) == [] {
        marked := marked + {fieldId};
        allValid := false;
        if firstInvalidField.None? {
          firstInvalidField := Some(fieldId);
        }
      }
      i := i + 1;
    }
    assert RequiredFields[..i] == RequiredFields;
    FirstMissingIsFirst(form, RequiredFields);
    FilledIsRequired(form);
    if !allValid {
      return Missing(firstInvalidField.value, marked);
    }

    var ihl := form.ihl.value;
    var totalHeaderBytes := (ihl as int) * 4;
    var maxOptionsBytes := totalHeaderBytes - 20;
    var cleanOptionsHex := CleanHex(form.options);
    var optionsBytes := if cleanOptionsHex != [] then |cleanOptionsHex| as real / 2.0 else 0.0;
    assert FirstMissing(form, RequiredFields) == None;
    assert optionsBytes == UsedOptionBytes(form.options) && maxOptionsBytes == OptionsBudget(ihl);
    if optionsBytes > maxOptionsBytes as real {
      assert OptionsOverflow(ihl, form.options);
      return Overflow(optionsBytes, maxOptionsBytes);
    }
    assert !OptionsOverflow(ihl, form.options);

    var headerBytes := (ihl as int) * 4;
    var dataBytes := |form.data|;
    var totalLength := headerBytes + dataBytes;
    assert totalLength == TotalLength(ihl, |form.data|) && headerBytes == HeaderBytes(ihl);
    UpdateTotalLengthFields(totalLength, totalGroup);
    assert Refusal(form).None?;
    var header := BuildIPHeader(FieldsOf(form), ihl, totalLength);
    var dataHex := TextToHex(form.data);
    o := Built(header, dataHex, totalLength, headerBytes, dataBytes, optionsBytes);
  }

  /** updateTotalLengthFields: the calculated total length goes into the total-length group as a 16-bit field. */
  method UpdateTotalLengthFields(totalLength: nat, totalGroup: FieldGroup)
    modifies totalGroup
    ensures totalGroup.Current() == GroupUpdate(old(totalGroup.Current()), totalGroup.ReadOnly(), totalLength, 16)
  {
    totalGroup.UpdateFieldGroup(totalLength, 16);
  }

  /**
   * Without a header length nothing else is looked at; with one, the button stops on empty fields
   * exactly when one of the nine required fields is empty, names the first of them, and marks all of
   * them.
   */
  lemma MissingIffEmptyField(form: Form)
    ensures Refusal(form) == Some(NoIhl) <==> form.ihl.None?
    ensures (Refusal(form).Some? && Refusal(form).value.Missing?) <==> form.ihl.Some? && !Filled(form)
    ensures Refusal(form).Some? && Refusal(form).value.Missing? ==>
      var o := Refusal(form).value;
      Text(form, o.first) == [] &&
      (forall k :: 0 <= k < RequiredFieldIndex(o.first) ==> Text(form, RequiredFields[k]) != []) &&
      o.marked == set id | id in RequiredFields && Text(form, id) == []
  {
    FirstMissingIsFirst(form, RequiredFields);
    FilledIsRequired(form);
    MarkedAreEmpty(form, RequiredFields);
    var r := Refusal(form);
    if r.Some? && r.value.Missing? {
      var o := r.value;
      var j :| 0 <= j < |RequiredFields| && RequiredFields[j] == o.first &&
        Text(form, RequiredFields[j]) == [] && forall k :: 0 <= k < j ==> Text(form, RequiredFields[k]) != [];
      assert j == RequiredFieldIndex(o.first);
    }
  }

  /** Once the form is complete, the options are refused exactly when they hold more digits than the room allows. */
  lemma OverflowIffOptionsTooLong(form: Form)
    requires form.ihl.Some? && Filled(form)
    ensures (Refusal(form).Some? && Refusal(form).value.Overflow?) <==>
      |CleanHex(form.options)| > 2 * OptionsBudget(form.ihl.value)
    ensures Refusal(form).None? <==> |CleanHex(form.options)| <= 2 * OptionsBudget(form.ihl.value)
    ensures NumericTextsValid(form) ==>
      (DatagramOutcome(form).Built? <==> |CleanHex(form.options)| <= 2 * OptionsBudget(form.ihl.value))
  {
    FirstMissingIsFirst(form, RequiredFields);
    FilledIsRequired(form);
    OverflowIffTooManyDigits(form.ihl.value, form.options);
  }

  /**
   * A complete form whose options fit is built: the header of its fields at the total length of the
   * chosen IHL and the payload, whatever the options, and the options used fit the room.
   */
  lemma BuiltDatagram(form: Form)
    requires NumericTextsValid(form) && form.ihl.Some? && Filled(form)
    requires !OptionsOverflow(form.ihl.value, form.options)
    ensures var ihl := form.ihl.value; var total := TotalLength(ihl, |form.data|);
      DatagramOutcome(form) == Built(HeaderLayout(FieldsOf(form), ihl, total), TextToHex(form.data),
        total, HeaderBytes(ihl), |form.data|, UsedOptionBytes(form.options)) &&
      UsedOptionBytes(form.options) <= OptionsBudget(ihl) as real
  {
    FirstMissingIsFirst(form, RequiredFields);
    FilledIsRequired(form);
    assert FirstMissing(form, RequiredFields) == None;
  }

  /**
   * With valid addresses the built header is exactly ihl * 4 entries, and with a total length that
   * fits 16 bits it reads back as version 4, the chosen IHL, the total length and the number parseInt
   * reads from every numeric field of the form.
   */
  lemma BuiltHeaderReadsBack(form: Form)
    requires NumericTextsValid(form) && form.ihl.Some? && Filled(form)
    requires !OptionsOverflow(form.ihl.value, form.options)
    requires ValidateIP(form.srcIp).Valid? && ValidateIP(form.dstIp).Valid?
    ensures var ihl := form.ihl.value; var total := TotalLength(ihl, |form.data|);
      var header := HeaderLayout(FieldsOf(form), ihl, total);
      |header| == HeaderBytes(ihl) &&
      (total < 65536 ==> DecodeHeader(header) == Some(Decoded(
        4, ihl, ValueOf(form.tos, 10), total, ValueOf(form.identification, 10), ValueOf(form.flags, 10),
        ValueOf(form.fragment, 10), ValueOf(form.ttl, 10), ValueOf(form.protocol, 10), ValueOf(form.checksum, 10),
        Octets(form.srcIp), Octets(form.dstIp))))
  {
    var ihl := form.ihl.value;
    var total := TotalLength(ihl, |form.data|);
    HeaderLength(FieldsOf(form), ihl, total);
    if total < 65536 {
      HeaderRoundTrip(FieldsOf(form), ihl, total);
    }
  }
}
