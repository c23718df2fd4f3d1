/** The slope map: one contour per line of the map file, top row first. */
module SlopeAtlases {
  import opened Wrappers
  import opened TextLines
  import opened SlopeFeatures
  import opened SlopeContours

  datatype SlopeAtlas = SlopeAtlas(contours: seq<SlopeContour>)

  /** The contour of each line of `contents`, in order. */
  function LineContours(contents: string): seq<Result<SlopeContour, FeatureError>> {
    var lines := Lines(contents);
    seq(|lines|, k requires 0 <= k < |lines| => SlopeContours.FromText(lines[k]))
  }

  /** Reads the map; one bad line fails the whole map. */
  function FromFile(contents: string): (r: Result<SlopeAtlas, FeatureError>)
    ensures r.Success? ==> Height(r.value) == |Lines(contents)|
  {
    var contours :- Collect(LineContours(contents));
    Success(SlopeAtlas(contours))
  }

  /** How many rows the map has: the number of lines of the map as drawn. */
  function Height(atlas: SlopeAtlas): (r: int)
    ensures r >= 0 && r == |Lines(Render(atlas))|
  {
    RenderLines(atlas);
    |atlas.contours|
  }

  /** A map reads exactly when every line does; it has one contour per line,
      read from that line, and otherwise fails with the error of its first
      bad line. */
  lemma FromFileContours(contents: string)
    ensures var lines := Lines(contents);
      var r := FromFile(contents);
      && (r.Success? <==> forall k :: 0 <= k < |lines| ==> SlopeContours.FromText(lines[k]).Success?)
      && (r.Success? ==>
            && Height(r.value) == |lines|
            && forall k :: 0 <= k < |lines| ==> r.value.contours[k] == SlopeContours.FromText(lines[k]).value)
      && (r.Failure? ==> exists k ::
            && 0 <= k < |lines| && SlopeContours.FromText(lines[k]) == Failure(r.error)
            && forall j :: 0 <= j < k ==> SlopeContours.FromText(lines[j]).Success?)
  {
    var lines := Lines(contents);
    var results := LineContours(contents);
    assert |results| == |lines|;
    assert forall k :: 0 <= k < |lines| ==> results[k] == SlopeContours.FromText(lines[k]);
    var c := Collect(results);
    if c.Failure? {
      var k :| 0 <= k < |results| && results[k] == Failure(c.error)
        && forall j :: 0 <= j < k ==> results[j].Success?;
      assert FromFile(contents) == Failure(c.error);
      assert 0 <= k < |lines| && SlopeContours.FromText(lines[k]) == Failure(FromFile(contents).error)
        && forall j :: 0 <= j < k ==> SlopeContours.FromText(lines[j]).Success?;
    }
  }

  /** The height is the number of line endings, plus one for a last line
      without one; an empty file has height 0. */
  lemma FromFileHeight(contents: string)
    requires FromFile(contents).Success?
    ensures Height(FromFile(contents).value) ==
      NewlineCount(contents) + if |contents| > 0 && contents[|contents| - 1] != '\n' then 1 else 0
  {
    LinesCount(contents);
  }

  /** The map as a file draws it: each row followed by a line ending. */
  function Render(atlas: SlopeAtlas): string {
    Terminated(seq(|atlas.contours|, k requires 0 <= k < |atlas.contours| => SlopeContours.Render(atlas.contours[k])))
  }

  /** The lines of a drawn map are its drawn rows. */
  lemma RenderLines(atlas: SlopeAtlas)
    ensures Lines(Render(atlas)) ==
      seq(|atlas.contours|, k requires 0 <= k < |atlas.contours| => SlopeContours.Render(atlas.contours[k]))
  {
    var rows := seq(|atlas.contours|, k requires 0 <= k < |atlas.contours| => SlopeContours.Render(atlas.contours[k]));
    forall k | 0 <= k < |rows|
      ensures IsLine(rows[k])
    {
      var row := rows[k];
      forall i | 0 <= i < |row|
        ensures row[i] in "#."
      {
      }
    }
    LinesOfTerminated(rows);
  }

  /** Drawing a map and reading it back gives the map. */
  lemma FromFileOfRender(atlas: SlopeAtlas)
    ensures FromFile(Render(atlas)) == Success(atlas)
  {
    RenderLines(atlas);
    var results := LineContours(Render(atlas));
    forall k | 0 <= k < |results|
      ensures results[k] == Success(atlas.contours[k])
    {
      FromTextOfRender(atlas.contours[k]);
    }
    assert Collect(results).value == atlas.contours;
  }

  /** A `"\r\n"` line ending is read like `"\n"`. */
  lemma FromFileCarriageReturn(contour: SlopeContour, rest: string)
    requires FromFile(rest).Success?
    ensures FromFile(SlopeContours.Render(contour) + "\r\n" + rest) ==
      Success(SlopeAtlas([contour] + FromFile(rest).value.contours))
  {
    var row := SlopeContours.Render(contour);
    assert forall i :: 0 <= i < |row| ==> row[i] in "#.";
    LinesCarriageReturn(row, rest);
    FromTextOfRender(contour);
    var results := LineContours(row + "\r\n" + rest);
    var tail := LineContours(rest);
    assert |results| == 1 + |tail|;
    assert results[0] == Success(contour);
    assert forall k :: 0 <= k < |tail| ==> results[k + 1] == tail[k];
    assert results[1..] == tail;
    assert Collect(tail) == Success(FromFile(rest).value.contours);
  }

  /** An empty file is a map of height 0. */
  lemma FromFileEmpty(contents: string)
    requires contents == ""
    ensures FromFile(contents) == Success(SlopeAtlas([]))
  {
  }
}
