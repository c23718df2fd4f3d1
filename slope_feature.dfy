/** What can stand on one square of the slope. */
module SlopeFeatures {
  import opened Wrappers

  datatype SlopeFeature = Nothing | Tree

  datatype FeatureError = UnrecognizedCharacter(c: char)

  function FromChar(c: char): (r: Result<SlopeFeature, FeatureError>)
    ensures r.Success? <==> c == '#' || c == '.'
    ensures r.Success? ==> ToChar(r.value) == c
    ensures r.Failure? ==> r.error == UnrecognizedCharacter(c)
  {
    match c
    case '#' => Success(Tree)
    case '.' => Success(Nothing)
    case _ => Failure(UnrecognizedCharacter(c))
  }

  /** The character a map draws for `feature`. */
  function ToChar(feature: SlopeFeature): char {
    match feature
    case Tree => '#'
    case Nothing => '.'
  }

  /** `'#'` is a tree and `'.'` is open ground; no other character is a
      feature, and the two features come from different characters. */
  lemma FromCharIsToChar(c: char, feature: SlopeFeature)
    ensures FromChar(c) == Success(feature) <==> c == ToChar(feature)
  {
  }

  lemma FromCharRejects(c: char)
    ensures FromChar(c).Failure? <==> c != '#' && c != '.'
  {
  }
}
