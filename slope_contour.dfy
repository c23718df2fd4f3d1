/** One row of the slope map: its features from left to right. */
module SlopeContours {
  import opened Wrappers
  import opened SlopeFeatures

  datatype SlopeContour = SlopeContour(features: seq<SlopeFeature>)

  /** The feature of each character of `text`, in order. */
  function CharFeatures(text: string): seq<Result<SlopeFeature, FeatureError>> {
    seq(|text|, i requires 0 <= i < |text| => SlopeFeatures.FromChar(text[i]))
  }

  /** Reads a row; one unrecognised character fails the whole row. */
  function FromText(text: string): (r: Result<SlopeContour, FeatureError>)
    ensures r.Success? ==> |r.value.features| == |text|
  {
    var features :- Collect(CharFeatures(text));
    Success(SlopeContour(features))
  }

  /** How many squares wide the row is: the width of the row as drawn. */
  function Breadth(contour: SlopeContour): (r: int)
    ensures r >= 0 && r == |Render(contour)|
  {
    |contour.features|
  }

  /** The feature at `index`; an index outside the row, negative ones
      included, has none. */
  function FeatureAt(contour: SlopeContour, index: int): (r: Option<SlopeFeature>)
    ensures r.Some? <==> 0 <= index < Breadth(contour)
  {
    if 0 <= index < |contour.features| then Some(contour.features[index]) else None
  }

  /** A row reads exactly when every character is `'#'` or `'.'`; its breadth
      is the text's length and the feature at each index is the reading of
      the character there. Otherwise the first bad character is the error. */
  lemma FromTextFeatures(text: string)
    ensures FromText(text).Success? <==> forall i :: 0 <= i < |text| ==> text[i] in "#."
    ensures FromText(text).Success? ==>
      && Breadth(FromText(text).value) == |text|
      && forall i :: 0 <= i < |text| ==>
           FeatureAt(FromText(text).value, i) == Some(SlopeFeatures.FromChar(text[i]).value)
    ensures FromText(text).Failure? ==> exists i ::
      && 0 <= i < |text| && FromText(text).error == UnrecognizedCharacter(text[i])
      && text[i] !in "#."
      && forall j :: 0 <= j < i ==> text[j] in "#."
  {
    var results := CharFeatures(text);
    var r := Collect(results);
    forall i | 0 <= i < |text|
      ensures results[i].Success? <==> text[i] in "#."
    {
      FromCharRejects(text[i]);
    }
    if r.Failure? {
      var k :| 0 <= k < |results| && results[k] == Failure(r.error)
        && forall j :: 0 <= j < k ==> results[j].Success?;
      assert FromText(text).error == UnrecognizedCharacter(text[k]);
    }
  }

  /** The row as a map draws it. */
  function Render(contour: SlopeContour): (text: string)
    ensures |text| == |contour.features|
  {
    seq(|contour.features|, i requires 0 <= i < |contour.features| => ToChar(contour.features[i]))
  }

  /** Drawing a row and reading it back gives the row. */
  lemma FromTextOfRender(contour: SlopeContour)
    ensures FromText(Render(contour)) == Success(contour)
  {
    var text := Render(contour);
    var results := CharFeatures(text);
    forall i | 0 <= i < |text|
      ensures results[i] == Success(contour.features[i])
    {
      FromCharIsToChar(text[i], contour.features[i]);
    }
    assert Collect(results).value == contour.features;
  }

  /** Reading a row and drawing it gives the text back. */
  lemma RenderOfFromText(text: string)
    requires FromText(text).Success?
    ensures Render(FromText(text).value) == text
  {
    FromTextFeatures(text);
    var contour := FromText(text).value;
    forall i | 0 <= i < |text|
      ensures Render(contour)[i] == text[i]
    {
      FromCharIsToChar(text[i], contour.features[i]);
    }
  }

  /** An empty text is a row of breadth 0. */
  lemma FromTextEmpty(text: string)
    requires text == ""
    ensures FromText(text) == Success(SlopeContour([])) && Breadth(FromText(text).value) == 0
  {
  }
}
