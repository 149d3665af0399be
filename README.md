# IPv4 header builder: a verified model

This project models the computing core of a web page that builds an IPv4 header. The header
follows the layout of section 3.1 of RFC 791. The page's whole logic is in `script.js`.

The model covers four parts of it:

- **NumberValidator** (`NumberValidator.dfy`, on top of `Numerals.dfy` and `TextUtil.dfy`). It
  holds the validators for binary, decimal, hexadecimal and dotted-quad text against a bit width,
  and the conversions between radix 2, 10 and 16. `parseInt` is the value of the longest leading
  run of digits, and `None` stands for `NaN`. `toString(radix).toUpperCase()`, `padStart`,
  `split` and `join` are modelled with their JavaScript meaning.
- **Field-group synchronisation** (`FieldSync.dfy`). Every numeric field is shown as decimal,
  binary and hexadecimal text. The class `FieldGroup` holds the three texts and their read-only
  flags. `UpdateRelatedFields` and `UpdateFieldGroup` rewrite the texts in place. Each is proved
  against a function on values (`RelatedUpdate`, `GroupUpdate`). The lemmas about those functions
  state what is written, what is never written, and that the group then reads back as one value.
- **Length and options arithmetic** (`Options.dfy`). It covers the options budget `ihl * 4 - 20`,
  the option bytes used (the cleaned digit count divided by two, as a JavaScript number), the
  overflow test, normalisation while typing, truncation on blur, the total length and its preview.
- **Header assembly and output** (`Header.dfy`, `Datagram.dfy`, `Format.dfy`).
  - `BuildIPHeader` and its two loops produce the list of two-digit hexadecimal byte texts.
  - `CalculateDatagram` runs the checks made before building and the `forEach` over the required
    fields. It then writes the total length into its field group.
  - `FormatHex` renders a byte list as text.
  - The header is read back with a decoder that follows RFC 791 (`DecodeHeader`). The header
    built from valid input decodes to version 4, the chosen IHL and every field value
    (`HeaderRoundTrip`, `BuiltHeaderReadsBack`).

The page reads field values from the DOM. The model takes them as parameters instead:

- a `Form` of texts, with the payload as the byte sequence `TextEncoder` gives for it;
- a `Fields` record of numbers of their widths, with the address and options texts.

The checksum is copied from its field, never computed, in the page and in the model.

Three behaviours of the code shape the model:

- The header length is never range-checked. `calculateDatagram` only checks that a value is
  selected (script.js:432-436), and the value comes from a select offering 5 to 15
  (`Options.Ihl`).
- A non-empty text with nothing hexadecimal in it fails the pattern test after stripping, so it
  gets the "hexadecimal only" error (`OnlyHex`, script.js:34), not the "required" one.
- The options used are the cleaned digit count divided by two as a JavaScript number
  (script.js:240-241), so one odd digit already overflows an empty budget. The odd digit is
  dropped only when the bytes are written.

The header splits the total length into two bytes with `substring`. That is right only below
0x10000, and the code never checks it. `Header.HexWordDropsHighDigits` shows that 0x10000 is
written as 0x1000 is. The round-trip lemmas therefore require a total length below 65536.

## Model

| member | source | states |
|---|---|---|
| Numerals.ToDigits | script.js:63 | `toString(radix)`: the digits are in the radix, have no lower case and no leading zero, and their value is n |
| Numerals.DigitPrefix | script.js:15 | the longest leading run of digits: a prefix of the text, followed by a non-digit or the end |
| Numerals.ParseInt | script.js:74 | `parseInt` gives NaN exactly when the text is empty or does not start with a digit of the radix |
| Numerals.ParseIntDigits | script.js:15 | `parseInt` of a non-empty digit string is the value of all its digits |
| Numerals.ParseIntPadded | script.js:61-71 | `parseInt` reads back n from its digits after any number of leading zeros |
| Numerals.CleanHex | script.js:25 | stripping non-hexadecimal characters leaves only hexadecimal digits and changes nothing in hexadecimal text |
| Numerals.CleanHexAppend | script.js:25 | stripping works piece by piece: the digits kept from a + b are those kept from a followed by those kept from b |
| Numerals.CleanHexChar | script.js:25 | a single character is kept exactly when it is a hexadecimal digit |
| Numerals.CleanHexKeepsOrder | script.js:25 | "1G2" is stripped to "12" |
| TextUtil.PadStart | script.js:70 | `padStart` never truncates; the result has length max(length, width) and begins with pad characters |
| TextUtil.PadStartSuffix | script.js:70 | the original text follows the pad characters whole |
| TextUtil.Upper | script.js:68 | `toUpperCase` keeps the length and maps every character to its upper-case form |
| TextUtil.UpperIdentity | script.js:39 | upper-casing text without lower-case letters changes nothing |
| TextUtil.UpperSlice | script.js:128 | upper-casing a substring is the same substring of the upper-cased text |
| TextUtil.Split | script.js:595 | `split` gives at least one piece and no piece contains the separator |
| TextUtil.JoinSplit | script.js:595 | joining the pieces of a split gives back the text |
| TextUtil.SplitJoin | script.js:595 | splitting a join of separator-free pieces gives back the pieces |
| NumberValidator.HexWidth | script.js:36 | `Math.ceil(bits / 4)`: the least digit count w with 4w >= bits |
| NumberValidator.ValidateBinary | script.js:3-8 | accepts exactly the non-empty 0/1 strings of at most bits digits and returns them unchanged; empty, non-binary and too many digits are each exactly one error |
| NumberValidator.ValidateDecimal | script.js:10-19 | accepts exactly the non-empty digit strings of value at most 2^bits - 1 and returns that value; empty, non-digit and above the maximum are each exactly one error |
| NumberValidator.ValidateHexadecimal | script.js:21-40 | strips non-hex characters; accepts exactly when something is left and it has at most ceil(bits/4) digits; returns it upper-cased with the same value; empty, nothing hexadecimal and too many digits are each exactly one error |
| NumberValidator.UpperHex | script.js:39 | upper-casing hexadecimal digits keeps them digits and keeps their value |
| NumberValidator.Octets | script.js:50-55 | a dotted quad has exactly four numbers |
| NumberValidator.ValidateIP | script.js:42-58 | accepts exactly the non-empty dotted quads of 1-3 digit groups each at most 255 and returns the text; empty, bad shape and a group above 255 are each exactly one error |
| NumberValidator.IpFromOctets | script.js:45-57 | four groups of one to three digits, each at most 255, joined by dots are accepted, and their octets are the groups' values |
| NumberValidator.IpIsJoinOfOctets | script.js:45-57 | conversely, an accepted address is the dot-join of four such groups |
| NumberValidator.DecToBin | script.js:61-64 | `decToBin` gives non-empty binary digits, at least bits of them |
| NumberValidator.DecToHex | script.js:66-71 | `decToHex` gives non-empty upper-case hexadecimal digits, at least ceil(bits/4) of them |
| NumberValidator.DecToBinReadsBack | script.js:73-75 | `binToDec(decToBin(v, bits)) == v` for every v |
| NumberValidator.DecToHexReadsBack | script.js:82-84 | `hexToDec(decToHex(v, bits)) == v` for every v |
| NumberValidator.DecToBinWidth | script.js:61-64 | for v < 2^bits, `decToBin` has exactly bits digits |
| NumberValidator.DecToHexWidth | script.js:66-71 | for v < 2^bits, `decToHex` has exactly ceil(bits/4) digits |
| NumberValidator.BinToDec | script.js:73-75 | `parseInt(bin, 2)` of binary digits is their value |
| NumberValidator.HexToDec | script.js:82-84 | `parseInt(hex, 16)` of hexadecimal digits is their value |
| NumberValidator.CrossConversions | script.js:77-89 | `binToHex` and `hexToBin` agree with going through decimal, and converting back and forth gives the same text |
| NumberValidator.BinaryOutputValidates | script.js:61-64 | what `decToBin` writes for a value of the width validates again as binary with the same value |
| NumberValidator.HexOutputValidates | script.js:66-71 | what `decToHex` writes for a value of the width validates again as hexadecimal with the same value |
| NumberValidator.DecimalOutputValidates | script.js:10-19 | the decimal text of a value of the width validates to that value |
| NumberValidator.DecimalLeadingZeros | script.js:10-19 | decimal input with leading zeros validates to the same value |
| NumberValidator.HexAcceptedBound | script.js:36-37 | an accepted hexadecimal text is below 16^ceil(bits/4) |
| NumberValidator.HexAcceptsAboveWidth | script.js:36-37 | as written, "F" is accepted for 3 bits, reads as 15 > 7, and `decToBin(15, 3)` is "1111" |
| NumberValidator.FifteenInBinary | script.js:61-64 | `decToBin(15, 3)` is the four-character "1111" |
| NumberValidator.ValidateHexadecimalInRange | script.js:36-37 | corrected validator: accepts exactly what the code accepts with value at most 2^bits - 1, refuses the rest of those as above the maximum, and keeps the code's other errors |
| NumberValidator.InRangeHexFitsWidth | script.js:36-37 | with the correction, the binary form of an accepted text has exactly bits digits |
| NumberValidator.InRangeAgreesOnNibbleWidths | script.js:36-37 | for widths that are multiples of four the code and the correction agree |
| FieldSync.ValidatorsHandOverTheirKind | script.js:310-312 | each validator hands `updateRelatedFields` a number (decimal) or digits of its radix (binary, hexadecimal) |
| FieldSync.DecimalOf | script.js:341-353 | the value read through decimal; none exactly for an address source; binary and hexadecimal are `parseInt` in their radix |
| FieldSync.RenderReadsBack | script.js:360-368 | the text written into any member reads back, in that member's radix, as the decimal value |
| FieldSync.RenderAllReadBack | script.js:377-379 | writing one value into all three members leaves them all reading as it |
| FieldSync.RelatedUpdateFrame | script.js:360-368 | the source member, read-only members, address sources and falsy values are never written |
| FieldSync.RelatedUpdateWrites | script.js:360-368 | every other editable member is written with the source's value in its own radix |
| FieldSync.RelatedUpdateConsistent | script.js:331-369 | with no read-only member, the group ends up reading as the source's value, with the rewritten siblings at their canonical widths |
| FieldSync.GroupUpdateKeepsLocked | script.js:376-379 | `updateFieldGroup` leaves every read-only member alone |
| FieldSync.GroupUpdateConsistent | script.js:371-380 | `updateFieldGroup` makes an unlocked group read as the value, at canonical widths for values of the width |
| FieldSync.ValidateMember | script.js:295-308 | the validator of the member's kind: what it accepts is non-empty and of the kind that validator hands over; an empty text gets the "required" error of its kind |
| FieldSync.RevalidatedReadsBack | script.js:295-328 | for a non-zero value of the width, the member's own validator accepts what a group update wrote there and hands over a value that reads as the same number |
| FieldSync.SyncedGroupIsStable | script.js:295-369 | in a group synchronised to a non-zero value of the width, the validator accepts any member, and propagating what it hands over rewrites nothing new |
| FieldSync.ZeroEditLeavesSiblingsStale | script.js:336 | as written, a validated decimal 0 returns early: a group showing 5 keeps "00000101" and "05" beside "0" |
| FieldSync.CorrectedAgreesExceptZero | script.js:336 | the corrected update differs from the code only on a decimal 0 |
| FieldSync.CorrectedUpdateConsistent | script.js:336 | with the correction, every edit, 0 included, leaves an unlocked group consistent |
| FieldSync.FieldGroup.UpdateRelatedFields | script.js:331-369 | in place: the new texts are `RelatedUpdate` of the old ones, the read-only flags and the source |
| FieldSync.FieldGroup.UpdateFieldGroup | script.js:371-380 | in place: the new texts are `GroupUpdate` of the old ones, the read-only flags and the value |
| Options.OptionsBudget | script.js:235-237 | the options room is the header length minus the fixed 20 bytes, a multiple of 4 of at most 40, and 0 exactly for IHL 5 |
| Options.UsedOptionBytes | script.js:240-241 | the bytes used are half the cleaned digit count, as a real number |
| Options.OverflowIffTooManyDigits | script.js:251 | the options overflow exactly when the cleaned text has more than 2 * room digits |
| Options.NormalizeOptions | script.js:106 | typing leaves only upper-case hexadecimal digits, as many as were cleaned and with the same value |
| Options.NormalizeIdempotent | script.js:106 | normalising twice is normalising once and keeps the bytes used |
| Options.BlurOptions | script.js:120-131 | after blur the options never overflow; the text is unchanged exactly when it did not overflow; otherwise it is a prefix of the normalised text of exactly 2 * room digits |
| Options.BlurTruncates | script.js:128 | cutting the cleaned digits and upper-casing them gives a prefix of the normalised digits |
| Options.BlurIdempotent | script.js:120-131 | a second blur changes nothing |
| Options.UpdateOptionsInfo | script.js:229-262 | the header length is the selected one, or 5 when none is selected; the room shown plus 20 is that header length; the warning is on exactly when the cleaned digits exceed 2 * room |
| Options.TotalLength | script.js:179-189 | total length is 20 + room + payload bytes, between 20 and 60 more than the payload, whatever the options |
| Options.UpdateTotalLengthPreview | script.js:173-199 | the preview's total length is the header length plus the payload, written into the group's editable members as a 16-bit field |
| Header.ShiftOrIsSum | script.js:544 | on 16-bit words `(flags << 13) \| fragment` is flags * 8192 + fragment, and shifting and masking recover both |
| Header.FirstByteNibbles | script.js:523-526 | `(4 << 4) \| ihl` has 4 in the high nibble and the IHL in the low one |
| Header.FlagsFragmentPacks | script.js:541-546 | the packed word fits 16 bits; its top 3 bits are the flags and its low 13 the fragment offset |
| Header.HexByteReadsBack | script.js:528-529 | a one-byte value is written as exactly two digits that read back as the value |
| Header.HexWordSplitsBytes | script.js:533-534 | a 16-bit value is written as two two-digit entries, high byte first |
| Header.FourDigitWord | script.js:533 | a 16-bit value pads to exactly four digits of its value |
| Header.HalvesOfFourDigits | script.js:534 | of four digits, `substring(0, 2)` reads as the value divided by 256 and `substring(2, 4)` as the remainder |
| Header.HexWordDropsHighDigits | script.js:533-534 | as written, 0x10000 is split into the same entries as 0x1000 |
| Header.WideFlagsCorruptWord | script.js:541-546 | with the 32-bit shift and OR, flags 15 give the word 0x1E000, written as "1E", "00"; a fragment of 8192 overlaps the flag bits, so the OR is not the sum |
| Header.IpToHex | script.js:594-598 | `ipToHex` gives one entry per dot-separated group |
| Header.IpToHexValid | script.js:594-598 | a valid address gives four two-digit entries reading back as its octets in order |
| Header.OptionPairs | script.js:571-576 | after k turns of the pair loop there are k entries |
| Header.OptionBytes | script.js:566-577 | the option entries number half the cleaned digits, rounded down |
| Header.OptionPairsAreSlices | script.js:571-576 | entry j is the upper-cased pair of digits 2j and 2j+1 |
| Header.OptionBytesNormalized | script.js:566-577 | the option entries are the normalised options text cut into pairs, an odd last digit dropped |
| Header.OptionBytesRead | script.js:566-577 | every option entry is two digits reading back as the value of its pair |
| Header.Padding | script.js:584-586 | the padding is n entries of "00" |
| Header.PairStep | script.js:571-576 | one turn of the pair loop appends the next whole pair, or is the last turn on a lone digit |
| Header.CollectOptionBytes | script.js:566-577 | the options loop produces exactly the option entries, in order |
| Header.PadOptions | script.js:580-586 | the padding loop appends "00" until ihl * 4 bytes, and nothing when already there or beyond |
| Header.FieldWords | script.js:522-559 | the field entries before the addresses are twelve |
| Header.LayoutParts | script.js:589 | the header is the fixed part followed by the padded options |
| Header.BuildIPHeader | script.js:518-592 | the header is the field entries, both addresses, the option entries and the padding, in that order |
| Header.FixedPartLength | script.js:522-563 | with valid addresses the part before the options is 20 entries |
| Header.HeaderLength | script.js:579-591 | with valid addresses and options that fit, the header is exactly ihl * 4 entries: 20 fixed, the options, then padding |
| Header.OverflowOutgrowsHeader | script.js:580-586 | without the overflow check, options at least one whole byte over the room make the header longer than ihl * 4 bytes |
| Header.FieldWordsRead | script.js:522-559 | the twelve field entries read back as the first byte, TOS, the words high byte first, TTL and protocol |
| Header.FixedPartReads | script.js:522-563 | all 20 fixed entries read back as the bytes they were written from |
| Header.DecodeFixedBytes | script.js:522-563 | reading those bytes as the RFC 791 fixed header gives every field back |
| Header.HeaderRoundTrip | script.js:518-592 | the built header decodes to version 4, the chosen IHL and every field, for total lengths below 65536 and valid addresses |
| Datagram.DecimalFitsIsValidated | script.js:10-19 | a numeric field fits its width exactly when it is empty or its decimal validator accepts it |
| Datagram.LimitIsPow | script.js:383-389 | each field's limit is 2 to the power of its width (8, 16, 3, 13, 8, 8, 16 bits) |
| Datagram.MarkedAreEmpty | script.js:449-459 | the fields marked in the loop are exactly the empty required fields |
| Datagram.FirstMissingIsFirst | script.js:449-459 | the loop finds an empty field exactly when there is one, and the one it records comes before every other empty field |
| Datagram.FilledIsRequired | script.js:440-444 | the form is complete exactly when all nine required fields are non-empty |
| Datagram.RequiredFieldIndex | script.js:440-444 | every required id has its place in the list |
| Datagram.DecimalNumber | script.js:524 | `parseInt` of a filled numeric field is the value of its digits, below the field's limit |
| Datagram.FieldsOf | script.js:562-566 | the header is built from the form's own address and options texts |
| Datagram.TextToHex | script.js:600-606 | `textToHex` gives one entry per payload byte |
| Datagram.TextToHexReads | script.js:600-606 | every payload entry is two digits reading back as its byte |
| Datagram.Refusal | script.js:430-486 | the checks before building: a refusal is never a built datagram, and a form not refused has an IHL, every required field filled and options that fit |
| Datagram.DatagramOutcome | script.js:430-504 | the outcome is the refusal when there is one, and a built datagram otherwise |
| Datagram.CalculateDatagram | script.js:430-504 | the outcome is `DatagramOutcome` of the form; the total-length group is written as a 16-bit field only when the header is built |
| Datagram.UpdateTotalLengthFields | script.js:507-516 | the total length goes into the group's editable members as a 16-bit field |
| Datagram.MissingIffEmptyField | script.js:430-465 | for every form: without an IHL nothing else happens; with one, the run stops exactly when a required field is empty, names the first, and marks all empty ones |
| Datagram.OverflowIffOptionsTooLong | script.js:472-486 | for every complete form: the run is refused exactly when the options hold more than 2 * room digits, and otherwise goes on to be built |
| Datagram.BuiltDatagram | script.js:488-503 | a complete form whose options fit is built with the total length ihl * 4 + payload, the header lengths and the options used |
| Datagram.BuiltHeaderReadsBack | script.js:488-497 | the built header is ihl * 4 entries and decodes to the form's numbers, IHL and addresses when the total length fits 16 bits |
| Format.TrimStart | script.js:646 | leading white space is removed and what is left starts with a non-space |
| Format.TrimEnd | script.js:646 | trailing white space is removed; what is left is a prefix ending with a non-space |
| Format.TrimEdges | script.js:646 | `trim` leaves no white space at either end and removes only white space around a middle slice |
| Format.TrimKeeps | script.js:646 | text with non-space ends is left unchanged by `trim` |
| Format.TrimEndDrops | script.js:646 | trailing white space added to a text does not change its trimmed end |
| Format.Token | script.js:640 | every entry prints as at least two characters |
| Format.TokenOfByte | script.js:640 | a two-digit upper-case entry prints unchanged |
| Format.Separator | script.js:641-644 | every entry is followed by white space: a space, and a line break after every eighth |
| Format.RawStep | script.js:638-645 | each turn appends the entry's token and its separator |
| Format.FormatHex | script.js:636-647 | the loop builds the raw text, which is then trimmed |
| Format.FormatEmpty | script.js:636-647 | an empty list gives the empty text |
| Format.FormatDropsLastSeparator | script.js:636-647 | with entries free of white space, the output is every token with its separator, except that the last separator is trimmed |
| Format.RawStartsWithToken | script.js:637-645 | the raw text of a non-empty list is non-empty and starts with the first character of the first token |
| Format.RawLineBreaks | script.js:643-644 | n entries give exactly n / 8 line breaks |
| Format.SeparatorCounts | script.js:644 | the separator after entry n - 1 has a line break exactly when n completes a group of eight |

## Findings

| source | as written | input that shows it | evidently intended | confidence | as-written member | corrected member |
|---|---|---|---|---|---|---|
| script.js:336 | the early return on a falsy value also fires for the validated decimal 0 | typing "0" in the decimal member of a group that shows 5 leaves binary "00000101" and hexadecimal "05" | only an empty value stops the update, so 0 reaches the siblings | not executed | FieldSync.ZeroEditLeavesSiblingsStale | FieldSync.CorrectedUpdateConsistent |
| script.js:36-37 | the hexadecimal validator bounds only the digit count, so widths that are not multiples of four admit larger values | "F" in the 3-bit flags field is accepted as 15, and its binary form is "1111" | reject values above 2^bits - 1, as the binary and decimal validators do | not executed | NumberValidator.HexAcceptsAboveWidth | NumberValidator.InRangeHexFitsWidth |

`FieldGroup.UpdateRelatedFields` and `ValidateHexadecimal` still model the code as written. The
corrected definitions are `FieldSync.CorrectedRelatedUpdate` and
`NumberValidator.ValidateHexadecimalInRange`. The lemmas in the table prove the intended
property of each.

## Left out

- DOM and event wiring is not modelled: listeners, keypress filters, `showError`, `showSuccess`, `clearErrorMessages`, colours, `innerHTML`, `alert`, `focus`, `displayResults`, `resetForm` and `setDefaultValues`. The model keeps only the values these compute or display.
- `handleInputChange` and `validateField` (script.js:286-329) only dispatch to a validator and display the result. The model takes the validated value as the input of `UpdateRelatedFields`, and `FieldSync.ValidatorsHandOverTheirKind` states what each validator hands over.
- The `setTimeout` write-back in `validateHexadecimal` (script.js:28-31) is an asynchronous DOM write and is not modelled; only the returned result is.
- `TextEncoder` is a library call. The payload is given as its UTF-8 byte sequence (`Form.data`).
- `generateRandom` is not modelled because it uses `Math.random`; its width table is cited only for the field widths.
- `generateBreakdown`, `updateDataInfo` and `updateIHLFields` only produce display text and display fields, so they are not modelled.
- No checksum is computed, because the page computes none.
- `parseInt` is modelled without leading white space, signs or a `0x` prefix. The texts it reads here are digit strings or address groups.
- `toUpperCase` is modelled on ASCII letters only. Every text it is applied to here is hexadecimal digits or entries built from them.
- `Math.pow`, `Math.ceil` and the division in the options count are exact integers and rationals, not floating point. All values involved are small.
- Datagram.CalculateDatagram: for a form that passes the checks before building (`Datagram.Refusal`), requires every numeric field to be empty or decimal within its width. Refused forms need nothing. The page does not re-check this at build time, and its input handlers do not guarantee it: through the hexadecimal member, "F" puts 15 into the 3-bit flags and "FFFF" puts 65535 into the 13-bit fragment offset (script.js:36-37, 349, 367). Such out-of-width values, and rejected text left in a field, would be printed with more digits or as "NAN"; the model does not cover these forms.
- Datagram.DatagramOutcome: requires the same of forms that are not refused, for the same reason.
- FieldSync.FieldGroup.UpdateFieldGroup: writes the decimal text of the value, where the page writes the `decValue` it was given (script.js:377). The two agree for numbers and for canonical decimal strings, which the total-length callers and the random generator pass. The TOS and protocol presets pass their option text as it is (script.js:135-149). The model assumes that text is the canonical decimal of its value; the presets' option list is not part of `script.js`.
- Header.FlagsFragment: computes the packed word as flags * 8192 + fragment, not with JavaScript's 32-bit shift and OR. `Header.ShiftOrIsSum` proves the two equal for flags below 8 and fragment offsets below 8192. The hexadecimal validator accepts larger values for both fields (the second finding). For those the code writes corrupted bytes 6 and 7: `Header.WideFlagsCorruptWord` exhibits flags 15 and an overlapping fragment. The header built from such values is not modelled.
- TextUtil.PadStart: its own contract gives the length and the pad characters. That the text follows them whole is the lemma `TextUtil.PadStartSuffix`, kept out of the function's contract so that proofs using `padStart` stay small.
- Numerals.CleanHex: its own contract gives only digits, no growth and no change to hexadecimal text. That the digits are kept in order and nothing else is stated by `Numerals.CleanHexAppend` with `Numerals.CleanHexChar`, which together fix the result for every text.
- Header.BuildIPHeader: the pushes into `firstWord` are modelled as one value (`FieldWords`). The two option loops are the methods `CollectOptionBytes` and `PadOptions`.
- Header.HeaderRoundTrip: requires a total length below 65536. Above it the code writes the wrong bytes (`Header.HexWordDropsHighDigits`).
- Options.Ihl: the header length is a value from 5 to 15, the options of the select. Other values cannot be chosen on the page.
