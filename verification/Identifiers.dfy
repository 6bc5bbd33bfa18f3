/**
 Canonical version 4 UUIDs and the broker payload of a dispatch: `src/textify/identifiers.py`,
 `JobDispatch` in `src/textify/jobs/types.py`, and the byte masks of the job tables.
 */
module Identifiers {
  import opened Options
  import opened JobTypes

  // ---------------------------------------------------------------- digits

  predicate AreDigits(digits: seq<nat>) { forall d | d in digits :: d < 16 }

  function Power(n: nat): nat { if n == 0 then 1 else 16 * Power(n - 1) }

  function ValueOf(digits: seq<nat>): nat {
    if digits == [] then 0 else 16 * ValueOf(digits[..|digits| - 1]) + digits[|digits| - 1]
  }

  function DigitsOf(value: nat, n: nat): (digits: seq<nat>)
    ensures |digits| == n && AreDigits(digits)
  {
    if n == 0 then [] else DigitsOf(value / 16, n - 1) + [value % 16]
  }

  lemma {:induction false} ValueOfDigits(value: nat, n: nat)
    requires value < Power(n)
    ensures ValueOf(DigitsOf(value, n)) == value
  {
    if n > 0 {
      ValueOfDigits(value / 16, n - 1);
      assert DigitsOf(value, n)[..n - 1] == DigitsOf(value / 16, n - 1);
    }
  }

  lemma {:induction false} DigitsOfValue(digits: seq<nat>)
    requires AreDigits(digits)
    ensures DigitsOf(ValueOf(digits), |digits|) == digits && ValueOf(digits) < Power(|digits|)
  {
    if digits != [] {
      var rest, last := digits[..|digits| - 1], digits[|digits| - 1];
      assert last in digits && forall d | d in rest :: d in digits;
      DigitsOfValue(rest);
      assert ValueOf(digits) / 16 == ValueOf(rest) && ValueOf(digits) % 16 == last;
    }
  }

  /** `value >> bits`. */
  function ShiftRight(value: nat, bits: nat): nat {
    if bits == 0 then value else ShiftRight(value / 2, bits - 1)
  }

  lemma {:induction false} ShiftAdds(value: nat, a: nat, b: nat)
    ensures ShiftRight(value, a + b) == ShiftRight(ShiftRight(value, a), b)
    decreases a
  {
    if a > 0 {
      ShiftAdds(value / 2, a - 1, b);
    }
  }

  lemma SmallShifts(value: nat)
    ensures ShiftRight(value, 2) == value / 4
    ensures ShiftRight(value, 3) == value / 8
    ensures ShiftRight(value, 4) == value / 16
  {
    assert forall v: nat :: ShiftRight(v, 1) == ShiftRight(v / 2, 0) == v / 2;
    assert forall v: nat :: ShiftRight(v, 2) == ShiftRight(v / 2, 1) == v / 2 / 2;
    assert ShiftRight(value, 3) == ShiftRight(value / 2, 2);
    assert ShiftRight(value, 4) == ShiftRight(value / 2, 3) && ShiftRight(value / 2, 3) == ShiftRight(value / 2 / 2, 2);
  }

  lemma {:induction false} ShiftDropsDigits(digits: seq<nat>, n: nat)
    requires AreDigits(digits) && n <= |digits|
    ensures ShiftRight(ValueOf(digits), 4 * n) == ValueOf(digits[..|digits| - n])
    decreases n
  {
    if n == 0 {
      assert digits[..|digits|] == digits;
    } else {
      var rest, last := digits[..|digits| - 1], digits[|digits| - 1];
      assert last in digits && forall d | d in rest :: d in digits;
      SmallShifts(ValueOf(digits));
      assert ValueOf(digits) / 16 == ValueOf(rest);
      ShiftAdds(ValueOf(digits), 4, 4 * (n - 1));
      ShiftDropsDigits(rest, n - 1);
      assert rest[..|rest| - (n - 1)] == digits[..|digits| - n];
    }
  }

  // ---------------------------------------------------------------- version 4

  const UUID_DIGITS := 32

  predicate IsUuid(value: Uuid) { value < Power(UUID_DIGITS) }

  /** `UUID.variant == RFC_4122`: bit 63 is set and bit 62 is clear. */
  predicate HasRfcVariant(value: Uuid) {
    ShiftRight(value, 63) % 2 == 1 && ShiftRight(value, 62) % 2 == 0
  }

  /** `UUID.version == 4`, which Python defines for the RFC variant only. */
  predicate IsVersion4(value: Uuid) {
    IsUuid(value) && HasRfcVariant(value) && ShiftRight(value, 76) % 16 == 4
  }

  /** `get_byte(uuid_send(value), index)`. */
  function ByteOf(value: Uuid, index: nat): nat
    requires index < 16
  {
    ShiftRight(value, 8 * (15 - index)) % 256
  }

  /** `byte & mask` for a mask of the upper 8 - n bits. */
  function UpperBits(byte: nat, unit: nat): nat
    requires unit > 0
  {
    byte / unit * unit
  }

  /** The CHECK constraints on UUID columns: `byte 6 & 240 = 64 AND byte 8 & 192 = 128`. */
  predicate MasksHold(value: Uuid) {
    UpperBits(ByteOf(value, 6), 16) == 64 && UpperBits(ByteOf(value, 8), 64) == 128
  }

  lemma LastDigits(value: Uuid, digits: seq<nat>, n: nat)
    requires AreDigits(digits) && |digits| == UUID_DIGITS && value == ValueOf(digits) && n < UUID_DIGITS
    ensures ShiftRight(value, 4 * n) == ValueOf(digits[..UUID_DIGITS - n])
    ensures ShiftRight(value, 4 * n) % 16 == digits[UUID_DIGITS - 1 - n]
    ensures n + 1 < UUID_DIGITS ==>
      ShiftRight(value, 4 * n) % 256 == 16 * digits[UUID_DIGITS - 2 - n] + digits[UUID_DIGITS - 1 - n]
  {
    hide ShiftRight;
    ShiftDropsDigits(digits, n);
    var front := digits[..UUID_DIGITS - n];
    assert front[|front| - 1] in digits;
    if n + 1 < UUID_DIGITS {
      var more := front[..|front| - 1];
      assert more[|more| - 1] == digits[UUID_DIGITS - 2 - n] && more[|more| - 1] in digits;
    }
  }

  lemma NibbleBits(value: nat, nibble: nat)
    requires nibble == value % 16
    ensures value / 8 % 2 == 1 && value / 4 % 2 == 0 <==> 8 <= nibble < 12
  {
    var rest := value / 16;
    assert value == 16 * rest + nibble;
    assert value / 8 == 2 * rest + nibble / 8;
    assert value / 4 == 4 * rest + nibble / 4;
  }

  lemma VersionDigits(value: Uuid, digits: seq<nat>)
    requires AreDigits(digits) && |digits| == UUID_DIGITS && value == ValueOf(digits)
    ensures ShiftRight(value, 76) % 16 == digits[12]
    ensures HasRfcVariant(value) <==> 8 <= digits[16] < 12
  {
    hide ValueOf;
    LastDigits(value, digits, 19);
    LastDigits(value, digits, 15);
    ShiftAdds(value, 60, 3);
    ShiftAdds(value, 60, 2);
    SmallShifts(ShiftRight(value, 60));
    NibbleBits(ShiftRight(value, 60), digits[16]);
    hide ShiftRight;
  }

  lemma MaskDigits(value: Uuid, digits: seq<nat>)
    requires AreDigits(digits) && |digits| == UUID_DIGITS && value == ValueOf(digits)
    ensures MasksHold(value) <==> digits[12] == 4 && 8 <= digits[16] < 12
  {
    hide ShiftRight;
    hide ValueOf;
    LastDigits(value, digits, 18);
    LastDigits(value, digits, 14);
    assert digits[12] in digits && digits[13] in digits && digits[16] in digits && digits[17] in digits;
  }

  /** The digits that carry version and variant: the 13th is 4 and the 17th is 8, 9, a or b. */
  lemma Version4Digits(value: Uuid, digits: seq<nat>)
    requires AreDigits(digits) && |digits| == UUID_DIGITS && value == ValueOf(digits)
    ensures IsVersion4(value) <==> digits[12] == 4 && 8 <= digits[16] < 12
    ensures MasksHold(value) <==> digits[12] == 4 && 8 <= digits[16] < 12
  {
    hide ShiftRight;
    hide ValueOf;
    hide Power;
    DigitsOfValue(digits);
    VersionDigits(value, digits);
    MaskDigits(value, digits);
  }

  /** The database accepts exactly the UUIDs that the application calls version 4. */
  lemma MasksAreVersion4(value: Uuid)
    requires IsUuid(value)
    ensures MasksHold(value) <==> IsVersion4(value)
  {
    ValueOfDigits(value, UUID_DIGITS);
    Version4Digits(value, DigitsOf(value, UUID_DIGITS));
  }

  // ---------------------------------------------------------------- text

  const HEX_DIGITS := "0123456789abcdef"

  /** Lowercase hexadecimal digits. */
  function HexText(digits: seq<nat>): (text: string)
    requires AreDigits(digits)
    ensures |text| == |digits|
    ensures forall i | 0 <= i < |digits| :: digits[i] in digits && text[i] == HEX_DIGITS[digits[i]]
  {
    if digits == [] then []
    else
      assert digits[0] in digits && forall d | d in digits[1..] :: d in digits;
      [HEX_DIGITS[digits[0]]] + HexText(digits[1..])
  }

  function Hyphenated(hex: string): string
    requires |hex| == UUID_DIGITS
  {
    hex[..8] + "-" + hex[8..12] + "-" + hex[12..16] + "-" + hex[16..20] + "-" + hex[20..]
  }

  /** `str(uuid)`. */
  function Print(value: Uuid): string
    requires IsUuid(value)
  {
    Hyphenated(HexText(DigitsOf(value, UUID_DIGITS)))
  }

  predicate IsHexDigit(c: char) { '0' <= c <= '9' || 'a' <= c <= 'f' || 'A' <= c <= 'F' }

  function DigitValue(c: char): (d: nat)
    requires IsHexDigit(c)
    ensures d < 16
  {
    if c <= '9' then c as int - '0' as int
    else if c <= 'F' then c as int - 'A' as int + 10
    else c as int - 'a' as int + 10
  }

  predicate IsHex(text: string) { forall i | 0 <= i < |text| :: IsHexDigit(text[i]) }

  function DigitValues(text: string): (digits: seq<nat>)
    requires IsHex(text)
    ensures |digits| == |text| && AreDigits(digits)
    ensures forall i | 0 <= i < |text| :: digits[i] == DigitValue(text[i])
  {
    if text == "" then [] else [DigitValue(text[0])] + DigitValues(text[1..])
  }

  function WithoutPrefixes(text: string, prefix: string): string
    requires prefix != ""
    decreases |text|
  {
    if |text| < |prefix| then text
    else if prefix <= text then WithoutPrefixes(text[|prefix|..], prefix)
    else [text[0]] + WithoutPrefixes(text[1..], prefix)
  }

  function WithoutBraces(text: string): string {
    if text != "" && (text[0] == '{' || text[0] == '}') then WithoutBraces(text[1..])
    else if text != "" && (text[|text| - 1] == '{' || text[|text| - 1] == '}') then WithoutBraces(text[..|text| - 1])
    else text
  }

  function WithoutHyphens(text: string): string {
    if text == "" then ""
    else if text[0] == '-' then WithoutHyphens(text[1..])
    else [text[0]] + WithoutHyphens(text[1..])
  }

  /**
   `int(text, 16)` for the texts that are not plain digits, where Python also takes signs, spaces,
   underscores and a 0x prefix; None is ValueError. The theorems hold whatever it does there.
   */
  type LenientInt = string -> Option<int>

  /** `UUID(text).int`; None is ValueError. */
  function Parse(lenient: LenientInt, text: string): Option<Uuid> {
    var hex := WithoutHyphens(WithoutBraces(WithoutPrefixes(WithoutPrefixes(text, "urn:"), "uuid:")));
    if |hex| != UUID_DIGITS then None
    else if IsHex(hex) then Some(ValueOf(DigitValues(hex)))
    else match lenient(hex)
      case None => None
      case Some(value) => if 0 <= value < Power(UUID_DIGITS) then Some(value) else None
  }

  /** `parse_canonical_uuid4`; None is ValueError. */
  function ParseCanonicalUuid4(lenient: LenientInt, text: string): Option<Uuid> {
    match Parse(lenient, text)
    case None => None
    case Some(value) => if IsUuid(value) && IsVersion4(value) && Print(value) == text then Some(value) else None
  }

  // ---------------------------------------------------------------- parsing what was printed

  lemma {:induction false} PrefixNotThere(text: string, prefix: string)
    requires prefix != "" && prefix[0] == 'u' && forall i | 0 <= i < |text| :: text[i] != 'u'
    ensures WithoutPrefixes(text, prefix) == text
  {
    if |text| >= |prefix| {
      assert text[0] != prefix[0];
      PrefixNotThere(text[1..], prefix);
    }
  }

  /** Printed text has nothing that the parser takes away before it counts digits, except hyphens. */
  lemma NothingStripped(text: string)
    requires forall i | 0 <= i < |text| :: text[i] == '-' || IsHexDigit(text[i])
    ensures WithoutBraces(WithoutPrefixes(WithoutPrefixes(text, "urn:"), "uuid:")) == text
  {
    forall i | 0 <= i < |text| ensures text[i] != 'u' && text[i] != '{' && text[i] != '}' {
    }
    hide IsHexDigit;
    PrefixNotThere(text, "urn:");
    PrefixNotThere(text, "uuid:");
    hide WithoutPrefixes;
    if text != "" {
      assert text[0] != '{' && text[|text| - 1] != '}';
    }
  }

  lemma {:induction false} HyphensNotThere(text: string)
    requires forall i | 0 <= i < |text| :: text[i] != '-'
    ensures WithoutHyphens(text) == text
  {
    if text != "" {
      HyphensNotThere(text[1..]);
    }
  }

  lemma {:induction false} HyphensRemoved(a: string, b: string)
    ensures WithoutHyphens(a + "-" + b) == WithoutHyphens(a) + WithoutHyphens(b)
  {
    if a == "" {
      assert ("" + "-" + b)[1..] == b;
    } else {
      assert (a + "-" + b)[1..] == a[1..] + "-" + b;
      HyphensRemoved(a[1..], b);
    }
  }

  lemma HyphenatedIsHex(hex: string)
    requires |hex| == UUID_DIGITS && IsHex(hex)
    ensures var text := Hyphenated(hex); forall i | 0 <= i < |text| :: text[i] == '-' || IsHexDigit(text[i])
  {
    hide IsHexDigit;
  }

  lemma HyphenatedHasHex(hex: string)
    requires |hex| == UUID_DIGITS && IsHex(hex)
    ensures WithoutHyphens(Hyphenated(hex)) == hex
  {
    var a, b, c, d, e := hex[..8], hex[8..12], hex[12..16], hex[16..20], hex[20..];
    HyphensNotThere(a);
    HyphensNotThere(b);
    HyphensNotThere(c);
    HyphensNotThere(d);
    HyphensNotThere(e);
    hide WithoutHyphens;
    HyphensRemoved(a + "-" + b + "-" + c + "-" + d, e);
    HyphensRemoved(a + "-" + b + "-" + c, d);
    HyphensRemoved(a + "-" + b, c);
    HyphensRemoved(a, b);
    assert a + b + c + d + e == hex;
  }

  lemma HexTextIsHex(digits: seq<nat>)
    requires AreDigits(digits)
    ensures IsHex(HexText(digits))
    ensures DigitValues(HexText(digits)) == digits
  {
    var text := HexText(digits);
    forall i | 0 <= i < |digits| ensures IsHexDigit(text[i]) && DigitValue(text[i]) == digits[i] {
      HexDigitValue(digits[i]);
    }
  }

  lemma HexDigitValue(d: nat)
    requires d < 16
    ensures IsHexDigit(HEX_DIGITS[d]) && DigitValue(HEX_DIGITS[d]) == d && !('A' <= HEX_DIGITS[d] <= 'F')
  {
    if d < 10 {
      assert HEX_DIGITS[d] == ['0', '1', '2', '3', '4', '5', '6', '7', '8', '9'][d];
    } else {
      assert HEX_DIGITS[d] == ['a', 'b', 'c', 'd', 'e', 'f'][d - 10];
    }
  }

  /** Parsing a printed UUID gives it back. */
  lemma ParsePrint(lenient: LenientInt, value: Uuid)
    requires IsUuid(value)
    ensures Parse(lenient, Print(value)) == Some(value)
  {
    var digits := DigitsOf(value, UUID_DIGITS);
    var text := Print(value);
    HexTextIsHex(digits);
    HyphenatedHasHex(HexText(digits));
    HyphenatedIsHex(HexText(digits));
    NothingStripped(text);
    hide WithoutBraces;
    hide WithoutPrefixes;
    hide WithoutHyphens;
    hide Hyphenated;
    ValueOfDigits(value, UUID_DIGITS);
  }

  /** A text is accepted, as one UUID, exactly if it is the print of a version 4 UUID. */
  lemma AcceptedIff(lenient: LenientInt, text: string, value: Uuid)
    ensures ParseCanonicalUuid4(lenient, text) == Some(value) <==> IsVersion4(value) && Print(value) == text
  {
    if IsVersion4(value) && Print(value) == text {
      ParsePrint(lenient, value);
    }
  }

  predicate IsLowerHexDigit(c: char) { '0' <= c <= '9' || 'a' <= c <= 'f' }

  function Unhyphenated(text: string): string
    requires |text| == 36
  {
    text[..8] + text[9..13] + text[14..18] + text[19..23] + text[24..]
  }

  /** The written form of a canonical version 4 UUID, character by character. */
  predicate IsCanonicalForm(text: string) {
    && |text| == 36
    && text[8] == '-' && text[13] == '-' && text[18] == '-' && text[23] == '-'
    && (forall i | 0 <= i < 36 && i != 8 && i != 13 && i != 18 && i != 23 :: IsLowerHexDigit(text[i]))
    && text[14] == '4' && (text[19] == '8' || text[19] == '9' || text[19] == 'a' || text[19] == 'b')
  }

  /** Where the digits of a UUID stand in its text. */
  function PositionOf(i: nat): nat {
    if i < 8 then i else if i < 12 then i + 1 else if i < 16 then i + 2 else if i < 20 then i + 3 else i + 4
  }

  lemma HyphenatedAt(hex: string)
    requires |hex| == UUID_DIGITS
    ensures var text := Hyphenated(hex);
      && |text| == 36 && text[8] == '-' && text[13] == '-' && text[18] == '-' && text[23] == '-'
      && (forall i | 0 <= i < UUID_DIGITS :: text[PositionOf(i)] == hex[i])
  {
  }

  lemma UnhyphenatedAt(text: string)
    requires |text| == 36
    ensures |Unhyphenated(text)| == UUID_DIGITS
    ensures forall i | 0 <= i < UUID_DIGITS :: Unhyphenated(text)[i] == text[PositionOf(i)]
  {
  }

  /** Every position of the text is a hyphen's or a digit's. */
  lemma PositionsCover(k: nat) returns (i: nat)
    requires k < 36 && k != 8 && k != 13 && k != 18 && k != 23
    ensures i < UUID_DIGITS && PositionOf(i) == k
  {
    i := if k < 8 then k else if k < 13 then k - 1 else if k < 18 then k - 2 else if k < 23 then k - 3 else k - 4;
  }

  lemma SameText(a: string, b: string)
    requires |a| == 36 && |b| == 36
    requires a[8] == b[8] && a[13] == b[13] && a[18] == b[18] && a[23] == b[23]
    requires forall i | 0 <= i < UUID_DIGITS :: a[PositionOf(i)] == b[PositionOf(i)]
    ensures a == b
  {
    forall k | 0 <= k < 36 ensures a[k] == b[k] {
      if k != 8 && k != 13 && k != 18 && k != 23 {
        var i := PositionsCover(k);
      }
    }
  }

  lemma LowerHexText(hex: string)
    requires forall i | 0 <= i < |hex| :: IsLowerHexDigit(hex[i])
    ensures IsHex(hex) && HexText(DigitValues(hex)) == hex
  {
    var digits := DigitValues(hex);
    forall i | 0 <= i < |hex| ensures HexText(digits)[i] == hex[i] {
      LowerDigit(hex[i]);
    }
  }

  lemma LowerDigit(c: char)
    requires IsLowerHexDigit(c)
    ensures IsHexDigit(c) && HEX_DIGITS[DigitValue(c)] == c
  {
    var d := DigitValue(c);
    if c <= '9' {
      assert HEX_DIGITS[d] == ['0', '1', '2', '3', '4', '5', '6', '7', '8', '9'][d];
    } else {
      assert HEX_DIGITS[d] == ['a', 'b', 'c', 'd', 'e', 'f'][d - 10];
    }
  }

  /** A text is accepted exactly if it has the canonical form. */
  lemma AcceptedFormIff(lenient: LenientInt, text: string)
    ensures ParseCanonicalUuid4(lenient, text).Some? <==> IsCanonicalForm(text)
  {
    hide Parse;
    if ParseCanonicalUuid4(lenient, text).Some? {
      PrintHasForm(ParseCanonicalUuid4(lenient, text).value);
    }
    if IsCanonicalForm(text) {
      var value := FormIsPrint(text);
      AcceptedIff(lenient, text, value);
    }
  }

  lemma HyphenatedHasForm(hex: string)
    requires |hex| == UUID_DIGITS && forall i | 0 <= i < UUID_DIGITS :: IsLowerHexDigit(hex[i])
    requires hex[12] == '4' && (hex[16] == '8' || hex[16] == '9' || hex[16] == 'a' || hex[16] == 'b')
    ensures IsCanonicalForm(Hyphenated(hex))
  {
    hide IsLowerHexDigit;
    var text := Hyphenated(hex);
    HyphenatedAt(hex);
    hide Hyphenated;
    assert text[PositionOf(12)] == hex[12] && text[PositionOf(16)] == hex[16];
    forall k | 0 <= k < 36 && k != 8 && k != 13 && k != 18 && k != 23 ensures IsLowerHexDigit(text[k]) {
      var i := PositionsCover(k);
    }
  }

  lemma Version4Text(digits: seq<nat>)
    requires AreDigits(digits) && |digits| == UUID_DIGITS && digits[12] == 4 && 8 <= digits[16] < 12
    ensures IsCanonicalForm(Hyphenated(HexText(digits)))
  {
    hide Hyphenated;
    hide IsCanonicalForm;
    var hex := HexText(digits);
    forall i | 0 <= i < UUID_DIGITS ensures IsLowerHexDigit(hex[i]) {
      HexDigitValue(digits[i]);
    }
    hide IsLowerHexDigit;
    VariantDigit(digits[16]);
    HyphenatedHasForm(hex);
  }

  lemma VariantDigit(d: nat)
    requires 8 <= d < 12
    ensures HEX_DIGITS[4] == '4'
    ensures HEX_DIGITS[d] == '8' || HEX_DIGITS[d] == '9' || HEX_DIGITS[d] == 'a' || HEX_DIGITS[d] == 'b'
  {
    assert HEX_DIGITS[8] == '8' && HEX_DIGITS[9] == '9' && HEX_DIGITS[10] == 'a' && HEX_DIGITS[11] == 'b';
  }

  lemma PrintHasForm(value: Uuid)
    requires IsVersion4(value)
    ensures IsCanonicalForm(Print(value))
  {
    hide Power;
    hide DigitsOf;
    hide ValueOf;
    hide ShiftRight;
    hide Hyphenated;
    hide IsCanonicalForm;
    hide HexText;
    ValueOfDigits(value, UUID_DIGITS);
    Version4Digits(value, DigitsOf(value, UUID_DIGITS));
    Version4Text(DigitsOf(value, UUID_DIGITS));
  }

  lemma FormIsPrint(text: string) returns (value: Uuid)
    requires IsCanonicalForm(text)
    ensures IsVersion4(value) && Print(value) == text
  {
    hide Power;
    hide DigitsOf;
    hide ValueOf;
    hide ShiftRight;
    var hex := Unhyphenated(text);
    UnhyphenatedAt(text);
    hide Unhyphenated;
    forall i | 0 <= i < UUID_DIGITS ensures IsLowerHexDigit(hex[i]) {
      assert hex[i] == text[PositionOf(i)];
    }
    LowerHexText(hex);
    var digits := DigitValues(hex);
    value := ValueOf(digits);
    DigitsOfValue(digits);
    Version4Digits(value, digits);
    assert hex[12] == text[PositionOf(12)] && hex[16] == text[PositionOf(16)];
    HyphenatedAt(hex);
    hide Hyphenated;
    SameText(text, Hyphenated(hex));
  }

  // ---------------------------------------------------------------- dispatch payloads

  datatype Json = JsonBool(value: bool) | JsonInt(number: int) | JsonString(text: string) | JsonOther

  const INTERNAL_JOB_ID := "internal_job_id"
  const EXECUTION_ATTEMPT_TOKEN := "execution_attempt_token"

  /** `to_payload`. */
  function ToPayload(dispatch: JobDispatch): map<string, Json>
    requires IsUuid(dispatch.executionAttemptToken)
  {
    map[INTERNAL_JOB_ID := JsonInt(dispatch.internalJobId),
        EXECUTION_ATTEMPT_TOKEN := JsonString(Print(dispatch.executionAttemptToken))]
  }

  /** `from_payload`; a payload that is not an object is None. */
  function FromPayload(lenient: LenientInt, payload: Option<map<string, Json>>): Option<JobDispatch> {
    if payload.None? || payload.value.Keys != {INTERNAL_JOB_ID, EXECUTION_ATTEMPT_TOKEN} then None
    else
      var id, token := payload.value[INTERNAL_JOB_ID], payload.value[EXECUTION_ATTEMPT_TOKEN];
      if !id.JsonInt? || id.number <= 0 || !token.JsonString? then None
      else match ParseCanonicalUuid4(lenient, token.text)
        case None => None
        case Some(value) => Some(JobDispatch(id.number, value))
  }

  predicate IsDeliverable(dispatch: JobDispatch) {
    dispatch.internalJobId > 0 && IsVersion4(dispatch.executionAttemptToken)
  }

  /**
   `to_payload` and `from_payload` are mutual inverses between the dispatches with a positive id and
   a version 4 token and the payloads that are accepted; everything else is refused.
   */
  lemma PayloadRoundTrip(lenient: LenientInt, payload: map<string, Json>, dispatch: JobDispatch)
    ensures FromPayload(lenient, Some(payload)) == Some(dispatch) <==>
      (IsDeliverable(dispatch) && payload == ToPayload(dispatch))
  {
    hide Print;
    hide Parse;
    hide IsVersion4;
    if payload.Keys == {INTERNAL_JOB_ID, EXECUTION_ATTEMPT_TOKEN} && payload[EXECUTION_ATTEMPT_TOKEN].JsonString? {
      AcceptedIff(lenient, payload[EXECUTION_ATTEMPT_TOKEN].text, dispatch.executionAttemptToken);
    }
    if FromPayload(lenient, Some(payload)) == Some(dispatch) {
      assert payload == ToPayload(dispatch);
    }
  }
}
