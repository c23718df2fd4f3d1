/** A passport record: the attribute values of one passport, keyed by
    attribute. */
module PassportRecords {
  import opened Wrappers
  import opened PassportRecordAttributeKeys

  datatype PassportRecord = PassportRecord(attributes: map<PassportRecordAttributeKey, string>)

  /** One `key:value` attribute of a record's text, as the attribute pattern
      `([a-z]+):(#?[a-zA-Z0-9]+)` captures it: the key text and the value. */
  type AttributeText = (string, string)

  /** The last index of `attributes` whose key text reads as `key`. */
  function LastIndex(attributes: seq<AttributeText>, key: PassportRecordAttributeKey): (r: Option<nat>)
    ensures r.Some? ==>
      && r.value < |attributes| && PassportRecordAttributeKeys.FromString(attributes[r.value].0) == Success(key)
      && forall j :: r.value < j < |attributes| ==>
           PassportRecordAttributeKeys.FromString(attributes[j].0) != Success(key)
    ensures r.None? ==>
      forall j :: 0 <= j < |attributes| ==> PassportRecordAttributeKeys.FromString(attributes[j].0) != Success(key)
    decreases |attributes|
  {
    var n := |attributes|;
    if n == 0 then None
    else if PassportRecordAttributeKeys.FromString(attributes[n - 1].0) == Success(key) then Some(n - 1)
    else LastIndex(attributes[..n - 1], key)
  }

  /** The value the last attribute with `key` gives, if any. */
  function LastValue(attributes: seq<AttributeText>, key: PassportRecordAttributeKey): Option<string> {
    match LastIndex(attributes, key)
    case None => None
    case Some(i) => Some(attributes[i].1)
  }

  /** The value stored for `key`. */
  function ValueOf(record: PassportRecord, key: PassportRecordAttributeKey): (r: Option<string>)
    ensures r.Some? <==> key in record.attributes
    ensures r.Some? ==> r.value == record.attributes[key]
  {
    if key in record.attributes then Some(record.attributes[key]) else None
  }

  /** Builds the record from its attributes in order: an unknown key fails
      the whole record with the first such key, and when a key repeats, its
      last value wins. */
  method FromString(attributes: seq<AttributeText>) returns (r: Result<PassportRecord, KeyError>)
    ensures r.Failure? <==>
      exists i :: 0 <= i < |attributes| && PassportRecordAttributeKeys.FromString(attributes[i].0).Failure?
    ensures r.Failure? ==> exists i ::
      && 0 <= i < |attributes|
      && r.error == InvalidAttributeKey(attributes[i].0)
      && PassportRecordAttributeKeys.FromString(attributes[i].0).Failure?
      && forall j :: 0 <= j < i ==> PassportRecordAttributeKeys.FromString(attributes[j].0).Success?
    ensures r.Success? ==> forall key :: ValueOf(r.value, key) == LastValue(attributes, key)
  {
    var stored: map<PassportRecordAttributeKey, string> := map[];
    for i := 0 to |attributes|
      invariant forall j :: 0 <= j < i ==> PassportRecordAttributeKeys.FromString(attributes[j].0).Success?
      invariant forall key :: ValueOf(PassportRecord(stored), key) == LastValue(attributes[..i], key)
    {
      var parsed := PassportRecordAttributeKeys.FromString(attributes[i].0);
      if parsed.Failure? {
        return Failure(parsed.error);
      }
      var previous := stored;
      stored := stored[parsed.value := attributes[i].1];
      forall key
        ensures ValueOf(PassportRecord(stored), key) == LastValue(attributes[..i + 1], key)
      {
        assert ValueOf(PassportRecord(previous), key) == LastValue(attributes[..i], key);
        assert attributes[..i + 1][..i] == attributes[..i];
        assert attributes[..i + 1][i] == attributes[i];
      }
    }
    assert attributes[..|attributes|] == attributes;
    return Success(PassportRecord(stored));
  }

  /** The keys a complete record must have: all but the country id. */
  const RequiredKeys: set<PassportRecordAttributeKey> := AllKeys - {CountryId}

  /** The record has every attribute, or every one but the country id: the
      count test means that every required key is present. */
  predicate IsComplete(record: PassportRecord): (r: bool)
    ensures r <==> RequiredKeys <= record.attributes.Keys
  {
    IsCompleteIffRequiredKeys(record.attributes.Keys);
    assert |record.attributes.Keys| == |record.attributes|;
    |record.attributes| == 8 || (|record.attributes| == 7 && CountryId !in record.attributes)
  }

  /** Eight keys, or seven without the country id, are exactly the key sets
      holding every required key. */
  lemma IsCompleteIffRequiredKeys(keys: set<PassportRecordAttributeKey>)
    ensures (|keys| == 8 || (|keys| == 7 && CountryId !in keys)) <==> RequiredKeys <= keys
  {
    KeysBounded(keys);
    assert |RequiredKeys| == 7;
    if |keys| == 8 || (|keys| == 7 && CountryId !in keys) {
      if |keys| == 8 {
        SubsetCardinality(keys, AllKeys);
      } else {
        assert keys <= RequiredKeys;
        SubsetCardinality(keys, RequiredKeys);
      }
    } else if RequiredKeys <= keys {
      if CountryId in keys {
        assert AllKeys <= keys;
        SubsetCardinality(AllKeys, keys);
      } else {
        SubsetCardinality(RequiredKeys, keys);
      }
    }
  }

  /** Completeness depends on which keys are present, not on their values. */
  lemma IsCompleteOnlyKeys(a: PassportRecord, b: PassportRecord)
    requires a.attributes.Keys == b.attributes.Keys
    ensures IsComplete(a) == IsComplete(b)
  {
  }

  /** A record never holds more than the eight keys. */
  lemma AttributeCount(record: PassportRecord)
    ensures |record.attributes| <= 8
  {
    KeysBounded(record.attributes.Keys);
  }
}
