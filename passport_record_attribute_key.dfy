/** The eight attribute labels of a passport record and their three-letter
    codes. */
module PassportRecordAttributeKeys {
  import opened Wrappers

  datatype PassportRecordAttributeKey =
    | BirthYear
    | CountryId
    | ExpirationYear
    | EyeColor
    | HairColor
    | Height
    | IssueYear
    | PassportId

  datatype KeyError = InvalidAttributeKey(text: string)

  /** Every key. */
  const AllKeys: set<PassportRecordAttributeKey> :=
    {BirthYear, CountryId, ExpirationYear, EyeColor, HairColor, Height, IssueYear, PassportId}

  /** The code a record writes for `key`. */
  function Code(key: PassportRecordAttributeKey): string {
    match key
    case BirthYear => "byr"
    case CountryId => "cid"
    case ExpirationYear => "eyr"
    case EyeColor => "ecl"
    case HairColor => "hcl"
    case Height => "hgt"
    case IssueYear => "iyr"
    case PassportId => "pid"
  }

  /** Reads a code; matching is exact and case-sensitive. */
  function FromString(text: string): (r: Result<PassportRecordAttributeKey, KeyError>)
    ensures r.Failure? ==> r.error == InvalidAttributeKey(text)
  {
    match text
    case "byr" => Success(BirthYear)
    case "cid" => Success(CountryId)
    case "eyr" => Success(ExpirationYear)
    case "ecl" => Success(EyeColor)
    case "hcl" => Success(HairColor)
    case "hgt" => Success(Height)
    case "iyr" => Success(IssueYear)
    case "pid" => Success(PassportId)
    case _ => Failure(InvalidAttributeKey(text))
  }

  /** Each key's code reads back as that key. */
  lemma FromStringOfCode(key: PassportRecordAttributeKey)
    ensures FromString(Code(key)) == Success(key)
  {
  }

  /** A string is read as a key exactly when it is that key's code, so the
      mapping is injective and accepts nothing else. */
  lemma FromStringIsCode(text: string, key: PassportRecordAttributeKey)
    ensures FromString(text) == Success(key) <==> text == Code(key)
  {
  }

  /** Strings that are no key's code are rejected. */
  lemma FromStringRejects(text: string)
    ensures FromString(text).Failure? <==> forall key :: text != Code(key)
  {
    if FromString(text).Success? {
      FromStringIsCode(text, FromString(text).value);
    }
  }

  /** Distinct keys have distinct codes. */
  lemma CodeInjective(a: PassportRecordAttributeKey, b: PassportRecordAttributeKey)
    ensures Code(a) == Code(b) ==> a == b
  {
  }

  /** Case and surrounding spaces matter. */
  lemma FromStringExactExamples(upper: string, padded: string)
    requires upper == "BYR" && padded == "byr "
    ensures FromString(upper) == Failure(InvalidAttributeKey(upper))
    ensures FromString(padded) == Failure(InvalidAttributeKey(padded))
  {
  }

  /** Every set of keys lies among the eight keys. */
  lemma KeysBounded(keys: set<PassportRecordAttributeKey>)
    ensures keys <= AllKeys && |keys| <= 8
  {
    forall key | key in keys
      ensures key in AllKeys
    {
      match key
      case BirthYear =>
      case CountryId =>
      case ExpirationYear =>
      case EyeColor =>
      case HairColor =>
      case Height =>
      case IssueYear =>
      case PassportId =>
    }
    assert |AllKeys| == 8;
    SubsetCardinality(keys, AllKeys);
  }

  lemma SubsetCardinality<T>(a: set<T>, b: set<T>)
    requires a <= b
    ensures |a| <= |b|
    ensures |a| == |b| ==> a == b
  {
    if a != b {
      var x :| x in b && x !in a;
      SubsetCardinality(a, b - {x});
    }
  }
}
