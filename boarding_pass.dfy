/** Decoding of boarding-pass seat strings: seven row characters (`F`/`B`)
    bisect the rows `[0, 128)`, the characters after them (`L`/`R`) bisect the
    columns `[0, 8)`. */
module BoardingPasses {
  import opened Wrappers
  import opened BinarySpaces
  import opened Scanning

  datatype BoardingPass = BoardingPass(
    seatBinarySpaceString: string,
    seatColumn: int,
    seatId: int,
    seatRow: int)

  datatype DecodeError =
    | InvalidSeatString(text: string)
    | InvalidRowChar(c: char)
    | InvalidColumnChar(c: char)
    | RowSpace(spaceError: SpaceError)
    | ColumnSpace(spaceError: SpaceError)

  /** Every character of `text` is `lower` or `upper`. */
  predicate AllIn(text: string, lower: char, upper: char) {
    AllSatisfy(text, c => c == lower || c == upper)
  }

  /** Maps `lower` to `Lower` and `upper` to `Upper`, character by character; the
      first other character fails the whole list. */
  function Directives(text: string, lower: char, upper: char): (r: Result<seq<BinarySpacePartition>, char>)
    requires lower != upper
    ensures r.Success? <==> AllIn(text, lower, upper)
    ensures r.Success? ==>
      && |r.value| == |text|
      && forall i :: 0 <= i < |text| ==> (r.value[i] == Upper <==> text[i] == upper)
    ensures r.Failure? ==>
      exists i :: 0 <= i < |text| && text[i] == r.error && text[i] != lower && text[i] != upper
        && AllIn(text[..i], lower, upper)
    decreases |text|
  {
    if |text| == 0 then Success([])
    else if text[0] != lower && text[0] != upper then
      assert AllIn(text[..0], lower, upper);
      Failure(text[0])
    else
      match Directives(text[1..], lower, upper)
      case Failure(c) =>
        ghost var i :| 0 <= i < |text[1..]| && text[1..][i] == c && c != lower && c != upper
          && AllIn(text[1..][..i], lower, upper);
        assert text[..i + 1] == [text[0]] + text[1..][..i];
        Failure(c)
      case Success(rest) => Success([if text[0] == lower then Lower else Upper] + rest)
  }

  /** The row table of the source: `F` is `Lower`, `B` is `Upper`. */
  function ListFromRowString(text: string): (r: Result<seq<BinarySpacePartition>, DecodeError>)
    ensures r.Success? <==> AllIn(text, 'F', 'B')
    ensures r.Success? ==>
      |r.value| == |text| && forall i :: 0 <= i < |text| ==> (r.value[i] == Upper <==> text[i] == 'B')
    ensures r.Failure? ==> exists i ::
      && 0 <= i < |text| && r.error == InvalidRowChar(text[i])
      && text[i] != 'F' && text[i] != 'B' && AllIn(text[..i], 'F', 'B')
  {
    Directives(text, 'F', 'B').MapFailure(c => InvalidRowChar(c))
  }

  /** The column table of the source: `L` is `Lower`, `R` is `Upper`. */
  function ListFromColumnString(text: string): (r: Result<seq<BinarySpacePartition>, DecodeError>)
    ensures r.Success? <==> AllIn(text, 'L', 'R')
    ensures r.Success? ==>
      |r.value| == |text| && forall i :: 0 <= i < |text| ==> (r.value[i] == Upper <==> text[i] == 'R')
    ensures r.Failure? ==> exists i ::
      && 0 <= i < |text| && r.error == InvalidColumnChar(text[i])
      && text[i] != 'L' && text[i] != 'R' && AllIn(text[..i], 'L', 'R')
  {
    Directives(text, 'L', 'R').MapFailure(c => InvalidColumnChar(c))
  }

  /** Combines a row and a column into one id; for a column in `[0, 8)` the
      id gives them back as its quotient and remainder by 8. */
  function CalculateSeatId(seatRow: int, seatColumn: int): (r: int)
    ensures 0 <= seatColumn < 8 ==> r / 8 == seatRow && r % 8 == seatColumn
  {
    seatRow * 8 + seatColumn
  }

  /** Decodes a seat string: the row stage is parsed and evaluated before the
      column stage, and the first failure is the result. */
  function FromSeatString(text: string): (r: Result<BoardingPass, DecodeError>)
    ensures |text| < 8 ==> r == Failure(InvalidSeatString(text))
  {
    if |text| < 8 then Failure(InvalidSeatString(text))
    else
      var rowPartitions :- ListFromRowString(text[..7]);
      var rowSpace :- New(NewBinarySpaceArgs(0, 128)).MapFailure(e => RowSpace(e));
      var seatRow :- Evaluate(Partitioned(rowSpace, rowPartitions)).MapFailure(e => RowSpace(e));
      var columnPartitions :- ListFromColumnString(text[7..]);
      var columnSpace :- New(NewBinarySpaceArgs(0, 8)).MapFailure(e => ColumnSpace(e));
      var seatColumn :- Evaluate(Partitioned(columnSpace, columnPartitions)).MapFailure(e => ColumnSpace(e));
      Success(BoardingPass(text, seatColumn, CalculateSeatId(seatRow, seatColumn), seatRow))
  }

  /** A seat string: seven row characters, then at least three column characters. */
  predicate IsSeatString(text: string) {
    |text| >= 10 && AllIn(text[..7], 'F', 'B') && AllIn(text[7..], 'L', 'R')
  }

  lemma RowSpaceIsPowerOfTwo()
    ensures New(NewBinarySpaceArgs(0, 128)) == Success(BinarySpace(Pow2(7), 0))
    ensures New(NewBinarySpaceArgs(0, 8)) == Success(BinarySpace(Pow2(3), 0))
  {
    assert Pow2(3) == 8;
    assert Pow2(7) == 128;
  }

  /** Decoding succeeds exactly on seat strings, and then reads the row and the
      column as binary numbers (`B` = `R` = 1, most significant first); column
      characters past the third are ignored. */
  lemma {:induction false} FromSeatStringDecodesBinary(text: string)
    ensures FromSeatString(text).Success? <==> IsSeatString(text)
    ensures IsSeatString(text) ==>
      var row := Directives(text[..7], 'F', 'B').value;
      var column := Directives(text[7..], 'L', 'R').value;
      && FromSeatString(text).value.seatRow == BinaryValue(row)
      && FromSeatString(text).value.seatColumn == BinaryValue(column[..3])
      && FromSeatString(text).value.seatId == BinaryValue(row + column[..3])
  {
    RowSpaceIsPowerOfTwo();
    if |text| >= 8 {
      var rowResult := Directives(text[..7], 'F', 'B');
      if rowResult.Success? {
        var row := rowResult.value;
        PartitionedPowerOfTwo(0, 7, row);
        assert row[..7] == row;
        var columnResult := Directives(text[7..], 'L', 'R');
        if columnResult.Success? {
          var column := columnResult.value;
          if |column| >= 3 {
            PartitionedPowerOfTwo(0, 3, column);
            BinaryValueAppend(row, column[..3]);
          } else {
            PartitionedPowerOfTwoShort(0, 3, column);
          }
        }
      }
    }
  }

  /** On success the row lies in `[0, 128)`, the column in `[0, 8)`, and the seat
      id is `row * 8 + column`, so it lies in `[0, 1024)`. */
  lemma FromSeatStringBounds(text: string)
    requires FromSeatString(text).Success?
    ensures var pass := FromSeatString(text).value;
      && pass.seatBinarySpaceString == text
      && 0 <= pass.seatRow < 128
      && 0 <= pass.seatColumn < 8
      && pass.seatId == pass.seatRow * 8 + pass.seatColumn
      && 0 <= pass.seatId < 1024
  {
    var rowPartitions := Directives(text[..7], 'F', 'B').value;
    var columnPartitions := Directives(text[7..], 'L', 'R').value;
    assert Partitioned(BinarySpace(128, 0), rowPartitions).Inside(BinarySpace(128, 0));
    assert Partitioned(BinarySpace(8, 0), columnPartitions).Inside(BinarySpace(8, 0));
  }

  /** Too short a string, or a bad row character, fails before any column
      character is looked at. */
  lemma FromSeatStringRowFirst(text: string)
    ensures |text| < 8 ==> FromSeatString(text) == Failure(InvalidSeatString(text))
    ensures |text| >= 8 && !AllIn(text[..7], 'F', 'B') ==>
      FromSeatString(text).Failure? && FromSeatString(text).error.InvalidRowChar?
  {
  }

  /** With a good row, a bad column character fails the column stage; fewer than
      three column characters leave the column space uncollapsed. */
  lemma FromSeatStringColumnErrors(text: string)
    requires |text| >= 8 && AllIn(text[..7], 'F', 'B')
    ensures !AllIn(text[7..], 'L', 'R') ==>
      FromSeatString(text).Failure? && FromSeatString(text).error.InvalidColumnChar?
    ensures AllIn(text[7..], 'L', 'R') && |text| < 10 ==>
      FromSeatString(text) == Failure(ColumnSpace(RangeNotCollapsed(Pow2(10 - |text|))))
  {
    RowSpaceIsPowerOfTwo();
    var row := Directives(text[..7], 'F', 'B').value;
    assert ListFromRowString(text[..7]) == Success(row);
    PartitionedPowerOfTwo(0, 7, row);
    assert row[..7] == row;
    assert Evaluate(Partitioned(BinarySpace(Pow2(7), 0), row)) == Success(BinaryValue(row));
    var columnResult := ListFromColumnString(text[7..]);
    if columnResult.Failure? {
      assert FromSeatString(text) == Failure(columnResult.error);
    } else if |text| < 10 {
      var column := columnResult.value;
      PartitionedPowerOfTwoShort(0, 3, column);
      assert Evaluate(Partitioned(BinarySpace(Pow2(3), 0), column)).Failure?;
    }
  }

  lemma ExampleRowValue(row: seq<BinarySpacePartition>)
    requires row == [Lower, Upper, Lower, Upper, Upper, Lower, Lower]
    ensures BinaryValue(row) == 44
  {
    assert Pow2(2) == 4 && Pow2(3) == 8 && Pow2(5) == 32;
    assert BinaryValue(row[6..]) == 0;
    assert row[5..][1..] == row[6..] && BinaryValue(row[5..]) == 0;
    assert row[4..][1..] == row[5..] && BinaryValue(row[4..]) == 4;
    assert row[3..][1..] == row[4..] && BinaryValue(row[3..]) == 12;
    assert row[2..][1..] == row[3..] && BinaryValue(row[2..]) == 12;
    assert row[1..][1..] == row[2..] && BinaryValue(row[1..]) == 44;
  }

  lemma ExampleColumnValue(column: seq<BinarySpacePartition>)
    requires column == [Upper, Lower, Upper]
    ensures BinaryValue(column) == 5
  {
    assert Pow2(2) == 4;
    assert BinaryValue(column[2..]) == 1;
    assert column[1..][1..] == column[2..] && BinaryValue(column[1..]) == 1;
  }

  /** The row and column halves of the worked example. */
  lemma ExampleDirectives(text: string)
    requires text == "FBFBBFFRLR"
    ensures Directives(text[..7], 'F', 'B') == Success([Lower, Upper, Lower, Upper, Upper, Lower, Lower])
    ensures Directives(text[7..], 'L', 'R') == Success([Upper, Lower, Upper])
  {
    var rowText, columnText := text[..7], text[7..];
    assert rowText == "FBFBBFF" && columnText == "RLR";
    assert AllIn(rowText, 'F', 'B') && AllIn(columnText, 'L', 'R');
    var row := Directives(rowText, 'F', 'B').value;
    var column := Directives(columnText, 'L', 'R').value;
    assert |row| == 7 && |column| == 3;
    assert row == [Lower, Upper, Lower, Upper, Upper, Lower, Lower];
    assert column == [Upper, Lower, Upper];
  }

  /** A ten-character seat string with the given row and column partitions
      decodes to their binary values, the seat id being `row * 8 + column`. */
  lemma FromSeatStringOfHalves(text: string, row: seq<BinarySpacePartition>, column: seq<BinarySpacePartition>)
    requires |text| == 10
    requires Directives(text[..7], 'F', 'B') == Success(row) && Directives(text[7..], 'L', 'R') == Success(column)
    ensures FromSeatString(text) == Success(BoardingPass(text, BinaryValue(column), BinaryValue(row) * 8 + BinaryValue(column), BinaryValue(row)))
  {
    FromTenCharSeatString(text);
    BinaryValueAppend(row, column);
    assert Pow2(3) == 8;
  }

  /** The worked example: row 44, column 5, seat id 357. */
  lemma FromSeatStringExample(text: string)
    requires text == "FBFBBFFRLR"
    ensures FromSeatString(text) == Success(BoardingPass(text, 5, 357, 44))
  {
    var row := [Lower, Upper, Lower, Upper, Upper, Lower, Lower];
    var column := [Upper, Lower, Upper];
    ExampleDirectives(text);
    FromSeatStringOfHalves(text, row, column);
    ExampleRowValue(row);
    ExampleColumnValue(column);
  }

  lemma FromSeatStringRejectsExamples()
    ensures FromSeatString("XBFBBFFRLR") == Failure(InvalidRowChar('X'))
    ensures FromSeatString("FBFBB") == Failure(InvalidSeatString("FBFBB"))
  {
    assert "XBFBBFFRLR"[..7] == "XBFBBFF";
  }

  /** Writes partitions back as characters: `Lower` as `lower`, `Upper` as `upper`. */
  function DirectiveString(partitions: seq<BinarySpacePartition>, lower: char, upper: char): (r: string)
    ensures |r| == |partitions|
    ensures forall i :: 0 <= i < |r| ==> r[i] == if partitions[i] == Upper then upper else lower
  {
    seq(|partitions|, i requires 0 <= i < |partitions| => if partitions[i] == Upper then upper else lower)
  }

  /** The character table is a bijection between partition lists and strings
      over its two characters. */
  lemma DirectivesRoundTrip(partitions: seq<BinarySpacePartition>, text: string, lower: char, upper: char)
    requires lower != upper
    ensures Directives(DirectiveString(partitions, lower, upper), lower, upper) == Success(partitions)
    ensures AllIn(text, lower, upper) ==> DirectiveString(Directives(text, lower, upper).value, lower, upper) == text
  {
    var r := Directives(DirectiveString(partitions, lower, upper), lower, upper);
    assert r.Success?;
    assert forall i :: 0 <= i < |partitions| ==> r.value[i] == partitions[i];
    assert r.value == partitions;
  }

  /** The canonical ten-character seat string of a seat id. */
  function SeatString(seatId: nat): (r: string)
    requires seatId < 1024
  {
    assert Pow2(10) == 1024;
    var partitions := BinaryPartitions(seatId, 10);
    DirectiveString(partitions[..7], 'F', 'B') + DirectiveString(partitions[7..], 'L', 'R')
  }

  /** The row and column halves of a seat string are the row and column
      partitions of the id's ten-bit binary form. */
  lemma SeatStringHalves(seatId: nat) returns (row: seq<BinarySpacePartition>, column: seq<BinarySpacePartition>)
    requires seatId < 1024
    ensures |column| == 3 && BinaryValue(row + column) == seatId
    ensures var text := SeatString(seatId);
      && |text| == 10 && IsSeatString(text)
      && Directives(text[..7], 'F', 'B') == Success(row)
      && Directives(text[7..], 'L', 'R') == Success(column)
  {
    assert Pow2(10) == 1024;
    var partitions := BinaryPartitions(seatId, 10);
    row, column := partitions[..7], partitions[7..];
    assert row + column == partitions;
    var text := SeatString(seatId);
    assert text[..7] == DirectiveString(row, 'F', 'B') && text[7..] == DirectiveString(column, 'L', 'R');
    DirectivesRoundTrip(row, text, 'F', 'B');
    DirectivesRoundTrip(column, text, 'L', 'R');
  }

  /** A ten-character seat string decodes to its row and column read as
      binary numbers, and its seat id to all ten characters read as one. */
  lemma FromTenCharSeatString(text: string)
    requires |text| == 10 && IsSeatString(text)
    ensures Directives(text[..7], 'F', 'B').Success? && Directives(text[7..], 'L', 'R').Success?
    ensures var row := Directives(text[..7], 'F', 'B').value;
      var column := Directives(text[7..], 'L', 'R').value;
      && |row| == 7 && |column| == 3
      && FromSeatString(text) == Success(BoardingPass(text, BinaryValue(column), BinaryValue(row + column), BinaryValue(row)))
  {
    FromSeatStringDecodesBinary(text);
    FromSeatStringBounds(text);
    var column := Directives(text[7..], 'L', 'R').value;
    assert column[..3] == column;
  }

  /** Every seat id in `[0, 1024)` is decoded from its seat string, with row
      `seatId / 8` and column `seatId % 8`: no id is missing. */
  lemma SeatStringDecodes(seatId: nat)
    requires seatId < 1024
    ensures var text := SeatString(seatId);
      |text| == 10 && IsSeatString(text)
      && FromSeatString(text) == Success(BoardingPass(text, seatId % 8, seatId, seatId / 8))
  {
    var row, column := SeatStringHalves(seatId);
    FromTenCharSeatString(SeatString(seatId));
    RowAndColumnOfId(row, column, seatId);
  }

  /** Ten partitions read as `seatId` read as `seatId / 8` in their first
      seven and as `seatId % 8` in their last three. */
  lemma RowAndColumnOfId(row: seq<BinarySpacePartition>, column: seq<BinarySpacePartition>, seatId: int)
    requires |column| == 3 && BinaryValue(row + column) == seatId
    ensures BinaryValue(row) == seatId / 8 && BinaryValue(column) == seatId % 8
  {
    BinaryValueAppend(row, column);
    BinaryValueBound(column);
    assert Pow2(3) == 8;
    assert CalculateSeatId(BinaryValue(row), BinaryValue(column)) == seatId;
  }

  /** The seat string of the id that seven row and three column partitions
      read as spells those partitions out. */
  lemma SeatStringOfPartitions(row: seq<BinarySpacePartition>, column: seq<BinarySpacePartition>)
    requires |row| == 7 && |column| == 3
    ensures BinaryValue(row + column) < 1024
    ensures SeatString(BinaryValue(row + column)) == DirectiveString(row, 'F', 'B') + DirectiveString(column, 'L', 'R')
  {
    var partitions := row + column;
    BinaryPartitionsOfValue(partitions);
    assert |partitions| == 10;
    var seatId := BinaryValue(partitions);
    assert BinaryPartitions(seatId, 10) == partitions;
    assert partitions[..7] == row && partitions[7..] == column;
  }

  /** A ten-character seat string is the seat string of the id it decodes to:
      no two seat strings share an id. */
  lemma SeatStringOfDecode(text: string)
    requires |text| == 10 && IsSeatString(text)
    ensures FromSeatString(text).Success?
    ensures var seatId := FromSeatString(text).value.seatId;
      0 <= seatId < 1024 && SeatString(seatId) == text
  {
    FromTenCharSeatString(text);
    var row := Directives(text[..7], 'F', 'B').value;
    var column := Directives(text[7..], 'L', 'R').value;
    SeatStringOfPartitions(row, column);
    DirectivesRoundTrip(row, text[..7], 'F', 'B');
    DirectivesRoundTrip(column, text[7..], 'L', 'R');
    assert text == text[..7] + text[7..];
  }
}
