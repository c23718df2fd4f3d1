/** The corporate password database: one entry per line, of the form
    `min-max letter: password`, checked by one of two rules. */
module PasswordDatabases {
  import opened Wrappers
  import opened TextLines
  import opened Decimal
  import opened Scanning

  datatype PasswordValidationStrategy = LetterRepetitionRange | LetterPositions

  datatype PasswordValidationMetadata = PasswordValidationMetadata(letter: char, parameters: (int, int))

  datatype PasswordDatabaseEntry = PasswordDatabaseEntry(
    password: string,
    validationMetadata: PasswordValidationMetadata)

  datatype PasswordDatabase = PasswordDatabase(entries: seq<PasswordDatabaseEntry>)

  datatype ParseError =
    | MalformedEntry(text: string)
    | ParameterOverflow(text: string)

  /** The largest `i64`, the type the two parameters are parsed into. */
  const I64Max: nat := 0x7fff_ffff_ffff_ffff

  /** Number of times `letter` occurs in `password`. */
  function Repetitions(password: string, letter: char): nat
    decreases |password|
  {
    if |password| == 0 then 0
    else (if password[0] == letter then 1 else 0) + Repetitions(password[1..], letter)
  }

  /** The count agrees with the multiplicity of `letter` in the password. */
  lemma {:induction false} RepetitionsIsMultiplicity(password: string, letter: char)
    ensures Repetitions(password, letter) == multiset(password)[letter]
    decreases |password|
  {
    if |password| > 0 {
      RepetitionsIsMultiplicity(password[1..], letter);
      assert password == [password[0]] + password[1..];
    }
  }

  /** Whether the 1-based `position` of `password` holds `letter`. Position 0
      wraps to a huge index in the source and never matches. */
  function DoesLetterMatch(letter: char, password: string, position: int): (r: bool)
    ensures (position < 1 || position > |password|) ==> !r
    ensures r ==> letter in password
  {
    var index := position - 1;
    if 0 <= index < |password| then password[index] == letter else false
  }

  /** Whether the entry's password obeys its rule under `strategy`. An
      inverted range admits no password, and neither do equal positions. */
  function IsValid(entry: PasswordDatabaseEntry, strategy: PasswordValidationStrategy): (r: bool)
    ensures var (first, second) := entry.validationMetadata.parameters;
      strategy == LetterRepetitionRange && first > second ==> !r
    ensures var (first, second) := entry.validationMetadata.parameters;
      strategy == LetterPositions && first == second ==> !r
  {
    var letter := entry.validationMetadata.letter;
    var (first, second) := entry.validationMetadata.parameters;
    match strategy
    case LetterRepetitionRange =>
      var repetitions := Repetitions(entry.password, letter);
      repetitions >= first && repetitions <= second
    case LetterPositions =>
      var firstMatches := DoesLetterMatch(letter, entry.password, first);
      var secondMatches := DoesLetterMatch(letter, entry.password, second);
      (firstMatches || secondMatches) && !(firstMatches && secondMatches)
  }

  /** Repetition rule: the letter occurs between the two parameters times,
      both bounds inclusive. */
  lemma IsValidRepetitionRange(entry: PasswordDatabaseEntry)
    ensures var letter := entry.validationMetadata.letter;
      var (low, high) := entry.validationMetadata.parameters;
      IsValid(entry, LetterRepetitionRange) <==> low <= multiset(entry.password)[letter] <= high
  {
    RepetitionsIsMultiplicity(entry.password, entry.validationMetadata.letter);
  }

  /** Indices of `password` holding `letter` at one of the two 1-based positions. */
  ghost function PositionHits(password: string, letter: char, first: int, second: int): set<int> {
    set i | 0 <= i < |password| && password[i] == letter && (i + 1 == first || i + 1 == second)
  }

  /** Positions rule: the positions are distinct and exactly one of them lies
      inside the password and holds the letter; equal positions are never valid. */
  lemma IsValidLetterPositions(entry: PasswordDatabaseEntry)
    ensures var (first, second) := entry.validationMetadata.parameters;
      var hits := PositionHits(entry.password, entry.validationMetadata.letter, first, second);
      && (IsValid(entry, LetterPositions) <==> first != second && |hits| == 1)
      && (first == second ==> !IsValid(entry, LetterPositions))
  {
    var letter := entry.validationMetadata.letter;
    var password := entry.password;
    var (first, second) := entry.validationMetadata.parameters;
    var hits := PositionHits(password, letter, first, second);
    var m1, m2 := DoesLetterMatch(letter, password, first), DoesLetterMatch(letter, password, second);
    if m1 && m2 {
      assert first - 1 in hits && second - 1 in hits;
      if first != second {
        assert hits == {first - 1, second - 1};
      } else {
        assert hits == {first - 1};
      }
    } else if m1 {
      assert hits == {first - 1};
    } else if m2 {
      assert hits == {second - 1};
    } else {
      assert hits == {};
    }
  }

  predicate IsWhitespace(c: char) {
    // The Unicode White_Space property, which the regex class `\s` matches.
    || '\U{9}' <= c <= '\U{D}' || c == '\U{20}' || c == '\U{85}' || c == '\U{A0}'
    || c == '\U{1680}' || '\U{2000}' <= c <= '\U{200A}' || c == '\U{2028}' || c == '\U{2029}'
    || c == '\U{202F}' || c == '\U{205F}' || c == '\U{3000}'
  }

  predicate IsLowercase(c: char) {
    'a' <= c <= 'z'
  }

  /** The text of one entry, cut at the regex groups
      `^(\d+)-(\d+)\s+([a-z]):\s+([a-z]+)$`. */
  datatype EntryFields = EntryFields(
    first: string, second: string, gap: string, letter: char, gap2: string, password: string)

  predicate WellFormed(f: EntryFields) {
    && |f.first| > 0 && AllDigits(f.first)
    && |f.second| > 0 && AllDigits(f.second)
    && |f.gap| > 0 && AllSatisfy(f.gap, IsWhitespace)
    && IsLowercase(f.letter)
    && |f.gap2| > 0 && AllSatisfy(f.gap2, IsWhitespace)
    && |f.password| > 0 && AllSatisfy(f.password, IsLowercase)
  }

  function Render(f: EntryFields): string {
    f.first + ("-" + (f.second + (f.gap + ([f.letter, ':'] + (f.gap2 + f.password)))))
  }

  /** Matches one entry line against the pattern. */
  function SplitEntry(text: string): (r: Option<EntryFields>)
    ensures r.Some? ==> WellFormed(r.value) && Render(r.value) == text
  {
    var (first, rest1) := Cut(text, IsDigit);
    if |first| == 0 || |rest1| == 0 || rest1[0] != '-' then None
    else
      assert rest1 == "-" + rest1[1..];
      var (second, rest2) := Cut(rest1[1..], IsDigit);
      var (gap, rest3) := Cut(rest2, IsWhitespace);
      if |second| == 0 || |gap| == 0 || |rest3| < 2 || !IsLowercase(rest3[0]) || rest3[1] != ':' then None
      else
        assert rest3 == [rest3[0], ':'] + rest3[2..];
        var (gap2, password) := Cut(rest3[2..], IsWhitespace);
        if |gap2| == 0 || |password| == 0 || !AllSatisfy(password, IsLowercase) then None
        else Some(EntryFields(first, second, gap, rest3[0], gap2, password))
  }

  /** Every text of the pattern's shape splits back into its own fields. */
  lemma SplitEntryComplete(f: EntryFields)
    requires WellFormed(f)
    ensures SplitEntry(Render(f)) == Some(f)
  {
    var rest3 := [f.letter, ':'] + (f.gap2 + f.password);
    var rest2 := f.gap + rest3;
    var rest1 := "-" + (f.second + rest2);
    assert Render(f) == f.first + rest1;
    CutOf(f.first, rest1, IsDigit);
    assert rest1[1..] == f.second + rest2;
    CutOf(f.second, rest2, IsDigit);
    CutOf(f.gap, rest3, IsWhitespace);
    assert rest3[2..] == f.gap2 + f.password;
    CutOf(f.gap2, f.password, IsWhitespace);
  }

  /** Parses one entry; the parameters are kept in textual order. */
  function FromText(text: string): (r: Result<PasswordDatabaseEntry, ParseError>)
    ensures r.Success? ==>
      && IsLowercase(r.value.validationMetadata.letter)
      && |r.value.password| > 0 && AllSatisfy(r.value.password, IsLowercase)
      && 0 <= r.value.validationMetadata.parameters.0 <= I64Max
      && 0 <= r.value.validationMetadata.parameters.1 <= I64Max
    ensures r.Failure? ==> r.error == MalformedEntry(text) || r.error == ParameterOverflow(text)
  {
    match SplitEntry(text)
    case None => Failure(MalformedEntry(text))
    case Some(f) =>
      var first, second := DigitsValue(f.first), DigitsValue(f.second);
      if first > I64Max || second > I64Max then Failure(ParameterOverflow(text))
      else Success(PasswordDatabaseEntry(f.password, PasswordValidationMetadata(f.letter, (first, second))))
  }

  /** An entry parses exactly when its text has the pattern's shape and both
      numbers fit an `i64`; the fields come from the matching parts. */
  lemma FromTextMatchesPattern(f: EntryFields)
    requires WellFormed(f)
    ensures var first, second := DigitsValue(f.first), DigitsValue(f.second);
      FromText(Render(f)) ==
        if first > I64Max || second > I64Max then Failure(ParameterOverflow(Render(f)))
        else Success(PasswordDatabaseEntry(f.password, PasswordValidationMetadata(f.letter, (first, second))))
  {
    SplitEntryComplete(f);
  }

  /** Every parsed entry came from text of the pattern's shape. */
  lemma FromTextSound(text: string)
    requires FromText(text).Success?
    ensures exists f ::
      && WellFormed(f) && Render(f) == text
      && FromText(text).value == PasswordDatabaseEntry(f.password,
           PasswordValidationMetadata(f.letter, (DigitsValue(f.first), DigitsValue(f.second))))
  {
    var f := SplitEntry(text).value;
    assert WellFormed(f) && Render(f) == text;
  }

  /** An entry written out in the file's layout, with single spaces. */
  function Format(entry: PasswordDatabaseEntry): string
    requires var (first, second) := entry.validationMetadata.parameters; first >= 0 && second >= 0
  {
    var (first, second) := entry.validationMetadata.parameters;
    Render(EntryFields(NatToDigits(first), NatToDigits(second), " ",
      entry.validationMetadata.letter, " ", entry.password))
  }

  /** An entry whose parameters fit an `i64` and whose letter and password are
      lower case parses back from its written form. */
  lemma FromTextRoundTrip(entry: PasswordDatabaseEntry)
    requires var (first, second) := entry.validationMetadata.parameters;
      0 <= first <= I64Max && 0 <= second <= I64Max
    requires IsLowercase(entry.validationMetadata.letter)
    requires |entry.password| > 0 && AllSatisfy(entry.password, IsLowercase)
    ensures FromText(Format(entry)) == Success(entry)
  {
    var (first, second) := entry.validationMetadata.parameters;
    var f := EntryFields(NatToDigits(first), NatToDigits(second), " ", entry.validationMetadata.letter, " ", entry.password);
    assert WellFormed(f);
    FromTextMatchesPattern(f);
  }

  /** An entry of the puzzle's example parses into its parts. */
  lemma FromTextExample(text: string)
    requires text == "2-9 c: ccccccccc"
    ensures FromText(text) == Success(PasswordDatabaseEntry("ccccccccc", PasswordValidationMetadata('c', (2, 9))))
  {
    var f := EntryFields("2", "9", " ", 'c', " ", "ccccccccc");
    assert Render(f) == text;
    assert DigitsValue("2") == 2 by {
      assert "2"[..0] == [];
    }
    assert DigitsValue("9") == 9 by {
      assert "9"[..0] == [];
    }
    FromTextMatchesPattern(f);
  }

  /** The example's three entries: the first is valid under both rules, the
      second under neither, the third only under the repetition rule. */
  lemma IsValidExamples(a: PasswordDatabaseEntry, b: PasswordDatabaseEntry, c: PasswordDatabaseEntry)
    requires a == PasswordDatabaseEntry("abcde", PasswordValidationMetadata('a', (1, 3)))
    requires b == PasswordDatabaseEntry("cdefg", PasswordValidationMetadata('b', (1, 3)))
    requires c == PasswordDatabaseEntry("ccccccccc", PasswordValidationMetadata('c', (2, 9)))
    ensures IsValid(a, LetterRepetitionRange) && IsValid(a, LetterPositions)
    ensures !IsValid(b, LetterRepetitionRange) && !IsValid(b, LetterPositions)
    ensures IsValid(c, LetterRepetitionRange) && !IsValid(c, LetterPositions)
  {
    assert a.password[1..] == "bcde";
    RepetitionsAbsent("bcde", 'a');
    assert Repetitions(a.password, 'a') == 1;
    assert DoesLetterMatch('a', a.password, 1) && !DoesLetterMatch('a', a.password, 3);
    RepetitionsAbsent(b.password, 'b');
    assert !DoesLetterMatch('b', b.password, 1) && !DoesLetterMatch('b', b.password, 3);
    RepetitionsUniform(c.password, 'c');
    assert DoesLetterMatch('c', c.password, 2) && DoesLetterMatch('c', c.password, 9);
  }

  lemma RepetitionsAbsent(password: string, letter: char)
    requires letter !in password
    ensures Repetitions(password, letter) == 0
    decreases |password|
  {
    if |password| > 0 {
      RepetitionsAbsent(password[1..], letter);
    }
  }

  lemma RepetitionsUniform(password: string, letter: char)
    requires forall i :: 0 <= i < |password| ==> password[i] == letter
    ensures Repetitions(password, letter) == |password|
    decreases |password|
  {
    if |password| > 0 {
      RepetitionsUniform(password[1..], letter);
    }
  }

  /** One entry per line of the file, in order. */
  function FromFile(contents: string): (r: Result<PasswordDatabase, ParseError>)
    ensures r.Success? ==> |r.value.entries| == |Lines(contents)|
  {
    var entries :- Collect(LineEntries(contents));
    Success(PasswordDatabase(entries))
  }

  /** The entry read from each line of `contents`, in order. */
  function LineEntries(contents: string): seq<Result<PasswordDatabaseEntry, ParseError>> {
    var lines := Lines(contents);
    seq(|lines|, k requires 0 <= k < |lines| => FromText(lines[k]))
  }

  /** The database has one entry per line of the file, in order, or fails with
      the error of its first bad line. */
  lemma FromFileEntries(contents: string)
    ensures var lines := Lines(contents);
      var r := FromFile(contents);
      && (r.Success? <==> forall k :: 0 <= k < |lines| ==> FromText(lines[k]).Success?)
      && (r.Success? ==>
            && |r.value.entries| == |lines|
            && forall k :: 0 <= k < |lines| ==> r.value.entries[k] == FromText(lines[k]).value)
      && (r.Failure? ==> exists k ::
            && 0 <= k < |lines| && FromText(lines[k]) == Failure(r.error)
            && forall j :: 0 <= j < k ==> FromText(lines[j]).Success?)
  {
    var lines := Lines(contents);
    var results := LineEntries(contents);
    assert |results| == |lines|;
    assert forall k :: 0 <= k < |lines| ==> results[k] == FromText(lines[k]);
    if FromFile(contents).Failure? {
      var e := FromFile(contents).error;
      assert Collect(results) == Failure(e);
      FirstBadLine(lines, results, e);
      var k :| 0 <= k < |lines| && FromText(lines[k]) == Failure(e)
        && forall j :: 0 <= j < k ==> FromText(lines[j]).Success?;
      assert FromText(Lines(contents)[k]) == Failure(FromFile(contents).error);
    }
  }

  /** The error of a failed `Collect` over the lines' entries is that of a
      line whose predecessors all read. */
  lemma FirstBadLine(lines: seq<string>, results: seq<Result<PasswordDatabaseEntry, ParseError>>, e: ParseError)
    requires |results| == |lines| && forall i :: 0 <= i < |lines| ==> results[i] == FromText(lines[i])
    requires Collect(results) == Failure(e)
    ensures exists k ::
      && 0 <= k < |lines| && FromText(lines[k]) == Failure(e)
      && forall j :: 0 <= j < k ==> FromText(lines[j]).Success?
  {
    var k :| 0 <= k < |results| && results[k] == Failure(e)
      && forall j :: 0 <= j < k ==> results[j].Success?;
    assert FromText(lines[k]) == Failure(e);
  }
}
