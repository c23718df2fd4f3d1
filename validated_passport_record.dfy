/** Field validation of a passport record: the year ranges, the eye-colour
    table, the hair-colour, height and passport-id formats, and the order in
    which the checks run. */
module ValidatedPassportRecords {
  import opened Wrappers
  import opened Decimal
  import opened Scanning
  import opened PassportRecordAttributeKeys
  import opened PassportRecords

  datatype ValidatedPassportRecordEyeColor = Amber | Blue | Brown | Gray | Green | Hazel | Other

  /** A height with its unit; the measurement is the exact decimal value of
      its text. */
  datatype ValidatedPassportRecordHeight = Centimeters(measurement: real) | Inches(measurement: real)

  datatype ValidatedPassportRecord = ValidatedPassportRecord(
    birthYear: nat,
    countryId: Option<string>,
    expirationYear: nat,
    eyeColor: ValidatedPassportRecordEyeColor,
    hairColor: string,
    height: ValidatedPassportRecordHeight,
    issueYear: nat,
    passportId: string)

  datatype ValidationError =
    | MissingAttribute(key: PassportRecordAttributeKey)
    | InvalidNumber(text: string)
    | InvalidYear(key: PassportRecordAttributeKey, year: nat)
    | InvalidEyeColor(text: string)
    | InvalidHairColor(text: string)
    | InvalidHeight(text: string)
    | InvalidCentimeters(measurement: real)
    | InvalidInches(measurement: real)
    | InvalidPassportId(text: string)

  /** The largest `u32`. */
  const U32Max: nat := 0xffff_ffff

  /** The digits of a `u32` text once an optional leading `'+'` is dropped. */
  function UnsignedDigits(text: string): string {
    if |text| > 0 && text[0] == '+' then text[1..] else text
  }

  /** Rust's `u32` parse: an optional `'+'`, then one or more ASCII digits
      whose value fits in 32 bits. */
  function ParseU32(text: string): (r: Option<nat>)
    ensures r.Some? ==> r.value <= U32Max
  {
    var digits := UnsignedDigits(text);
    if |digits| > 0 && AllDigits(digits) && DigitsValue(digits) <= U32Max then Some(DigitsValue(digits))
    else None
  }

  /** Every `u32` parses back from its decimal text, with or without a sign. */
  lemma ParseU32RoundTrip(n: nat)
    requires n <= U32Max
    ensures ParseU32(NatToDigits(n)) == Some(n)
    ensures ParseU32("+" + NatToDigits(n)) == Some(n)
  {
    assert ("+" + NatToDigits(n))[1..] == NatToDigits(n);
  }

  /** Empty, signed-negative and oversized texts are not numbers. */
  lemma ParseU32Rejects(empty: string, negative: string, plus: string)
    requires empty == "" && negative == "-1" && plus == "+"
    ensures ParseU32(empty) == None && ParseU32(negative) == None && ParseU32(plus) == None
  {
  }

  /** The value stored for `key`, or the error that it is missing. */
  function Require(record: PassportRecord, key: PassportRecordAttributeKey): (r: Result<string, ValidationError>)
    ensures r.Success? <==> key in record.attributes
    ensures r.Success? ==> r.value == record.attributes[key]
    ensures r.Failure? ==> r.error == MissingAttribute(key)
  {
    match ValueOf(record, key)
    case None => Failure(MissingAttribute(key))
    case Some(text) => Success(text)
  }

  /** A year attribute: present, a `u32`, and in the half-open range
      `[low, high)`. */
  function Year(record: PassportRecord, key: PassportRecordAttributeKey, low: nat, high: nat)
    : (r: Result<nat, ValidationError>)
    ensures r.Success? ==> low <= r.value < high
    ensures r.Success? <==>
      && key in record.attributes
      && ParseU32(record.attributes[key]).Some?
      && low <= ParseU32(record.attributes[key]).value < high
  {
    var text :- Require(record, key);
    match ParseU32(text)
    case None => Failure(InvalidNumber(text))
    case Some(year) => if low <= year < high then Success(year) else Failure(InvalidYear(key, year))
  }

  /** The code a record writes for `color`. */
  function EyeColorCode(color: ValidatedPassportRecordEyeColor): string {
    match color
    case Amber => "amb"
    case Blue => "blu"
    case Brown => "brn"
    case Gray => "gry"
    case Green => "grn"
    case Hazel => "hzl"
    case Other => "oth"
  }

  function EyeColorFromString(text: string): (r: Result<ValidatedPassportRecordEyeColor, ValidationError>)
    ensures r.Success? ==> EyeColorCode(r.value) == text
    ensures r.Failure? ==> r.error == InvalidEyeColor(text)
  {
    match text
    case "amb" => Success(Amber)
    case "blu" => Success(Blue)
    case "brn" => Success(Brown)
    case "gry" => Success(Gray)
    case "grn" => Success(Green)
    case "hzl" => Success(Hazel)
    case "oth" => Success(Other)
    case _ => Failure(InvalidEyeColor(text))
  }

  /** Exactly the seven codes are eye colours, each its own. */
  lemma EyeColorFromStringIsCode(text: string, color: ValidatedPassportRecordEyeColor)
    ensures EyeColorFromString(text) == Success(color) <==> text == EyeColorCode(color)
  {
  }

  lemma EyeColorFromStringRejects(text: string)
    ensures EyeColorFromString(text).Failure? <==> forall color :: text != EyeColorCode(color)
  {
    if EyeColorFromString(text).Success? {
      EyeColorFromStringIsCode(text, EyeColorFromString(text).value);
    }
  }

  predicate IsLowerHexDigit(c: char) {
    IsDigit(c) || 'a' <= c <= 'f'
  }

  /** The hair-colour pattern `^#[0-9a-f]{6}$`. */
  predicate IsHairColor(text: string): (r: bool)
    ensures r <==>
      |text| == 7 && text[0] == '#' && forall i :: 1 <= i < 7 ==> '0' <= text[i] <= '9' || 'a' <= text[i] <= 'f'
  {
    |text| == 7 && text[0] == '#' && AllSatisfy(text[1..], IsLowerHexDigit)
  }

  /** The passport-id pattern `^\d{9}$`. */
  predicate IsPassportId(text: string): (r: bool)
    ensures r <==> |text| == 9 && forall i :: 0 <= i < 9 ==> '0' <= text[i] <= '9'
  {
    |text| == 9 && AllDigits(text)
  }

  /** The puzzle's hair-colour and passport-id examples: a `#` and six lower
      hex digits; exactly nine digits, leading zeros included. */
  lemma HairColorAndPassportIdExamples(hcl: string, badHex: string, noHash: string, pid: string, longPid: string)
    requires hcl == "#123abc" && badHex == "#123abz" && noHash == "123abc"
    requires pid == "000000001" && longPid == "0123456789"
    ensures IsHairColor(hcl) && !IsHairColor(badHex) && !IsHairColor(noHash)
    ensures IsPassportId(pid) && !IsPassportId(longPid)
  {
    assert badHex[6] == 'z';
  }

  /** The value of a measurement of the shape `\d*\.?\d+`, or `None` for any
      other text. */
  function Measurement(text: string): (r: Option<real>)
    ensures r.Some? ==> r.value >= 0.0
  {
    var (whole, rest) := Cut(text, IsDigit);
    if |rest| == 0 then
      if |whole| == 0 then None else Some(DigitsValue(whole) as real)
    else if rest[0] != '.' || |rest| == 1 || !AllDigits(rest[1..]) then None
    else Some(DecimalValue(whole, rest[1..]))
  }

  /** The exact value of `whole.fraction`. */
  function DecimalValue(whole: string, fraction: string): (r: real)
    requires AllDigits(whole) && AllDigits(fraction)
    ensures r >= 0.0
  {
    DigitsValue(whole) as real + FractionValue(fraction)
  }

  /** The value of the digits after a decimal point, read one tenth at a
      time. */
  function FractionValue(fraction: string): (r: real)
    requires AllDigits(fraction)
    ensures 0.0 <= r
    decreases |fraction|
  {
    if |fraction| == 0 then 0.0
    else ((fraction[0] as int - '0' as int) as real + FractionValue(fraction[1..])) / 10.0
  }

  /** Each digit after the point is worth a tenth of the one before it. */
  lemma FractionValueExample(fraction: string)
    requires fraction == "25"
    ensures FractionValue(fraction) == 0.25
  {
    assert fraction[1..] == "5" && fraction[1..][1..] == "";
    assert FractionValue(fraction[1..]) == 0.5;
  }

  /** A whole number of units reads as itself. */
  lemma MeasurementOfDigits(n: nat)
    ensures Measurement(NatToDigits(n)) == Some(n as real)
  {
    CutOf(NatToDigits(n), [], IsDigit);
    assert NatToDigits(n) + [] == NatToDigits(n);
  }

  /** A measurement with a fractional part reads as the exact decimal. */
  lemma MeasurementOfDecimal(whole: string, fraction: string)
    requires AllDigits(whole) && AllDigits(fraction) && |fraction| > 0
    ensures Measurement(whole + "." + fraction) == Some(DecimalValue(whole, fraction))
  {
    var rest := "." + fraction;
    assert whole + "." + fraction == whole + rest;
    CutOf(whole, rest, IsDigit);
    assert rest[0] == '.' && rest[1..] == fraction && |rest| - 1 == |fraction|;
    assert AllDigits(rest[1..]);
  }

  /** The height pattern `^(\d*\.?\d+)(cm|in)$`, then the range for the unit:
      `[150, 194)` centimetres or `[59, 77)` inches. */
  function HeightFromString(text: string): (r: Result<ValidatedPassportRecordHeight, ValidationError>)
    ensures r.Success? ==> match r.value
      case Centimeters(m) => 150.0 <= m < 194.0 && |text| > 2 && text[|text| - 2..] == "cm"
      case Inches(m) => 59.0 <= m < 77.0 && |text| > 2 && text[|text| - 2..] == "in"
  {
    if |text| < 2 then Failure(InvalidHeight(text))
    else
      var unit := text[|text| - 2..];
      match Measurement(text[..|text| - 2])
      case None => Failure(InvalidHeight(text))
      case Some(m) =>
        if unit == "cm" then
          if 150.0 <= m < 194.0 then Success(Centimeters(m)) else Failure(InvalidCentimeters(m))
        else if unit == "in" then
          if 59.0 <= m < 77.0 then Success(Inches(m)) else Failure(InvalidInches(m))
        else Failure(InvalidHeight(text))
  }

  /** A whole number of centimetres or inches is accepted exactly within its
      unit's range. */
  lemma HeightFromStringWhole(n: nat)
    ensures HeightFromString(NatToDigits(n) + "cm") ==
      if 150 <= n < 194 then Success(Centimeters(n as real)) else Failure(InvalidCentimeters(n as real))
    ensures HeightFromString(NatToDigits(n) + "in") ==
      if 59 <= n < 77 then Success(Inches(n as real)) else Failure(InvalidInches(n as real))
  {
    MeasurementOfDigits(n);
    var digits := NatToDigits(n);
    assert (digits + "cm")[..|digits|] == digits && (digits + "cm")[|digits|..] == "cm";
    assert (digits + "in")[..|digits|] == digits && (digits + "in")[|digits|..] == "in";
  }

  /** The heights of the puzzle's examples. */
  lemma HeightFromStringExamples(a: string, b: string, c: string, d: string)
    requires a == "60in" && b == "190cm" && c == "190in" && d == "190"
    ensures HeightFromString(a) == Success(Inches(60.0))
    ensures HeightFromString(b) == Success(Centimeters(190.0))
    ensures HeightFromString(c) == Failure(InvalidInches(190.0))
    ensures HeightFromString(d).Failure?
  {
    assert NatToDigits(6) == "6";
    assert NatToDigits(60) == "60";
    assert NatToDigits(1) == "1";
    assert NatToDigits(19) == "19";
    assert NatToDigits(190) == "190";
    HeightFromStringWhole(60);
    HeightFromStringWhole(190);
    assert a == NatToDigits(60) + "in";
    assert b == NatToDigits(190) + "cm";
    assert c == NatToDigits(190) + "in";
  }

  /** The checks in the order they run. */
  const CheckOrder: seq<PassportRecordAttributeKey> :=
    [BirthYear, ExpirationYear, EyeColor, HairColor, Height, IssueYear, PassportId]

  /** The error of the check for `key` on its own, if it fails. */
  function FieldError(record: PassportRecord, key: PassportRecordAttributeKey): Option<ValidationError> {
    match key
    case BirthYear => ErrorOf(Year(record, BirthYear, 1920, 2003))
    case ExpirationYear => ErrorOf(Year(record, ExpirationYear, 2020, 2031))
    case EyeColor => ErrorOf(EyeColorOf(record))
    case HairColor => ErrorOf(HairColorOf(record))
    case Height => ErrorOf(HeightOf(record))
    case IssueYear => ErrorOf(Year(record, IssueYear, 2010, 2021))
    case PassportId => ErrorOf(PassportIdOf(record))
    case CountryId => None
  }

  function ErrorOf<T>(r: Result<T, ValidationError>): Option<ValidationError> {
    match r
    case Success(_) => None
    case Failure(e) => Some(e)
  }

  /** The eye colour, present and in the table. */
  function EyeColorOf(record: PassportRecord): Result<ValidatedPassportRecordEyeColor, ValidationError> {
    var text :- Require(record, EyeColor);
    EyeColorFromString(text)
  }

  /** The hair colour, present and matching its pattern. */
  function HairColorOf(record: PassportRecord): Result<string, ValidationError> {
    var text :- Require(record, HairColor);
    if IsHairColor(text) then Success(text) else Failure(InvalidHairColor(text))
  }

  /** The height, present, well formed and in range for its unit. */
  function HeightOf(record: PassportRecord): Result<ValidatedPassportRecordHeight, ValidationError> {
    var text :- Require(record, Height);
    HeightFromString(text)
  }

  /** The passport id, present and matching its pattern. */
  function PassportIdOf(record: PassportRecord): Result<string, ValidationError> {
    var text :- Require(record, PassportId);
    if IsPassportId(text) then Success(text) else Failure(InvalidPassportId(text))
  }

  /** Runs the field checks in the source's order; a record that passes
      them has years in range and well-formed hair colour and passport id,
      taken from the record's own values. */
  function FromPassportRecord(record: PassportRecord): (r: Result<ValidatedPassportRecord, ValidationError>)
    ensures r.Success? ==>
      && 1920 <= r.value.birthYear < 2003
      && 2020 <= r.value.expirationYear < 2031
      && 2010 <= r.value.issueYear < 2021
      && HairColor in record.attributes && r.value.hairColor == record.attributes[HairColor]
      && PassportId in record.attributes && r.value.passportId == record.attributes[PassportId]
      && IsHairColor(r.value.hairColor) && IsPassportId(r.value.passportId)
  {
    var birthYear :- Year(record, BirthYear, 1920, 2003);
    var countryId := ValueOf(record, CountryId);
    var expirationYear :- Year(record, ExpirationYear, 2020, 2031);
    var eyeColor :- EyeColorOf(record);
    var hairColor :- HairColorOf(record);
    var height :- HeightOf(record);
    var issueYear :- Year(record, IssueYear, 2010, 2021);
    var passportId :- PassportIdOf(record);
    Success(ValidatedPassportRecord(
      birthYear, countryId, expirationYear, eyeColor, hairColor, height, issueYear, passportId))
  }

  /** The error of each check on its own, in the order the checks run. */
  function FieldErrors(record: PassportRecord): (errors: seq<Option<ValidationError>>)
    ensures |errors| == |CheckOrder|
  {
    seq(|CheckOrder|, n requires 0 <= n < |CheckOrder| => FieldError(record, CheckOrder[n]))
  }

  /** The checks run in order and the first that fails gives the error; the
      country id is never checked. */
  lemma FromPassportRecordFirstError(record: PassportRecord)
    ensures FieldError(record, CountryId) == None
    ensures FromPassportRecord(record).Success? <==>
      forall n :: 0 <= n < |CheckOrder| ==> FieldErrors(record)[n].None?
    ensures FromPassportRecord(record).Failure? ==> exists n ::
      && 0 <= n < |CheckOrder|
      && FieldErrors(record)[n] == Some(FromPassportRecord(record).error)
      && forall m :: 0 <= m < n ==> FieldErrors(record)[m].None?
  {
    Stages(record);
    FirstFailure(FieldErrors(record), FromPassportRecord(record));
  }

  /** Each check's failure, with all earlier checks passing, is the outcome. */
  lemma Stages(record: PassportRecord)
    ensures var errors := FieldErrors(record);
      && (forall n :: 0 <= n < |errors| && errors[n].Some? && (forall m :: 0 <= m < n ==> errors[m].None?) ==>
            FromPassportRecord(record) == Failure(errors[n].value))
      && ((forall n :: 0 <= n < |errors| ==> errors[n].None?) ==> FromPassportRecord(record).Success?)
  {
    var errors := FieldErrors(record);
    assert errors[0] == FieldError(record, BirthYear);
    assert errors[1] == FieldError(record, ExpirationYear);
    assert errors[2] == FieldError(record, EyeColor);
    assert errors[3] == FieldError(record, HairColor);
    assert errors[4] == FieldError(record, Height);
    assert errors[5] == FieldError(record, IssueYear);
    assert errors[6] == FieldError(record, PassportId);
    BirthYearStage(record);
    ExpirationYearStage(record);
    EyeColorStage(record);
    HairColorStage(record);
    HeightStage(record);
    IssueYearStage(record);
    PassportIdStage(record);
    AllStagesPass(record);
  }

  /** The error of a chain of checks is the error of its first failing check. */
  lemma FirstFailure<T>(errors: seq<Option<ValidationError>>, r: Result<T, ValidationError>)
    requires forall n :: 0 <= n < |errors| && errors[n].Some? && (forall m :: 0 <= m < n ==> errors[m].None?) ==>
      r == Failure(errors[n].value)
    requires (forall n :: 0 <= n < |errors| ==> errors[n].None?) ==> r.Success?
    ensures r.Success? <==> forall n :: 0 <= n < |errors| ==> errors[n].None?
    ensures r.Failure? ==> exists n ::
      && 0 <= n < |errors| && errors[n] == Some(r.error)
      && forall m :: 0 <= m < n ==> errors[m].None?
  {
    if exists n :: 0 <= n < |errors| && errors[n].Some? {
      var n := FirstSome(errors);
    }
  }

  /** The index of the first `Some` in `errors`. */
  lemma FirstSome(errors: seq<Option<ValidationError>>) returns (n: nat)
    requires exists n :: 0 <= n < |errors| && errors[n].Some?
    ensures n < |errors| && errors[n].Some? && forall m :: 0 <= m < n ==> errors[m].None?
    decreases |errors|
  {
    if errors[0].Some? {
      n := 0;
    } else {
      var k :| 0 <= k < |errors| && errors[k].Some?;
      assert errors[1..][k - 1].Some?;
      n := FirstSome(errors[1..]);
      n := n + 1;
    }
  }

  lemma BirthYearStage(record: PassportRecord)
    ensures FieldError(record, BirthYear).Some? ==>
      FromPassportRecord(record) == Failure(FieldError(record, BirthYear).value)
  {
  }

  lemma ExpirationYearStage(record: PassportRecord)
    ensures FieldError(record, BirthYear) == None && FieldError(record, ExpirationYear).Some? ==>
      FromPassportRecord(record) == Failure(FieldError(record, ExpirationYear).value)
  {
  }

  lemma EyeColorStage(record: PassportRecord)
    ensures FieldError(record, BirthYear) == None && FieldError(record, ExpirationYear) == None && FieldError(record, EyeColor).Some? ==>
      FromPassportRecord(record) == Failure(FieldError(record, EyeColor).value)
  {
  }

  lemma HairColorStage(record: PassportRecord)
    ensures FieldError(record, BirthYear) == None && FieldError(record, ExpirationYear) == None && FieldError(record, EyeColor) == None && FieldError(record, HairColor).Some? ==>
      FromPassportRecord(record) == Failure(FieldError(record, HairColor).value)
  {
  }

  lemma HeightStage(record: PassportRecord)
    ensures FieldError(record, BirthYear) == None && FieldError(record, ExpirationYear) == None && FieldError(record, EyeColor) == None && FieldError(record, HairColor) == None && FieldError(record, Height).Some? ==>
      FromPassportRecord(record) == Failure(FieldError(record, Height).value)
  {
  }

  lemma IssueYearStage(record: PassportRecord)
    ensures FieldError(record, BirthYear) == None && FieldError(record, ExpirationYear) == None && FieldError(record, EyeColor) == None && FieldError(record, HairColor) == None && FieldError(record, Height) == None && FieldError(record, IssueYear).Some? ==>
      FromPassportRecord(record) == Failure(FieldError(record, IssueYear).value)
  {
  }

  lemma PassportIdStage(record: PassportRecord)
    ensures FieldError(record, BirthYear) == None && FieldError(record, ExpirationYear) == None && FieldError(record, EyeColor) == None && FieldError(record, HairColor) == None && FieldError(record, Height) == None && FieldError(record, IssueYear) == None && FieldError(record, PassportId).Some? ==>
      FromPassportRecord(record) == Failure(FieldError(record, PassportId).value)
  {
    if FieldError(record, PassportId).Some? {
      assert PassportIdOf(record).Failure?;
    }
  }

  lemma AllStagesPass(record: PassportRecord)
    ensures FieldError(record, BirthYear) == None && FieldError(record, ExpirationYear) == None && FieldError(record, EyeColor) == None && FieldError(record, HairColor) == None && FieldError(record, Height) == None && FieldError(record, IssueYear) == None && FieldError(record, PassportId) == None ==>
      FromPassportRecord(record).Success?
  {
  }

  /** On success the stored fields are the attribute values, read as their
      types. */
  lemma FromPassportRecordFields(record: PassportRecord)
    requires FromPassportRecord(record).Success?
    ensures var v := FromPassportRecord(record).value;
      && RequiredKeys <= record.attributes.Keys
      && ParseU32(record.attributes[BirthYear]) == Some(v.birthYear) && 1920 <= v.birthYear <= 2002
      && ParseU32(record.attributes[ExpirationYear]) == Some(v.expirationYear) && 2020 <= v.expirationYear <= 2030
      && ParseU32(record.attributes[IssueYear]) == Some(v.issueYear) && 2010 <= v.issueYear <= 2020
      && record.attributes[EyeColor] == EyeColorCode(v.eyeColor)
      && v.hairColor == record.attributes[HairColor] && IsHairColor(v.hairColor)
      && HeightFromString(record.attributes[Height]) == Success(v.height)
      && v.passportId == record.attributes[PassportId] && IsPassportId(v.passportId)
      && v.countryId == ValueOf(record, CountryId)
  {
    var v := FromPassportRecord(record).value;
    EyeColorFromStringIsCode(record.attributes[EyeColor], v.eyeColor);
  }

  /** A record that validates is complete. */
  lemma ValidatedIsComplete(record: PassportRecord)
    requires FromPassportRecord(record).Success?
    ensures IsComplete(record)
  {
    FromPassportRecordFields(record);
  }
}
