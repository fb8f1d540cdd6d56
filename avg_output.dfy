/**
 * What the AVG adapter reads from the text that `avgscan` and `avgupdate`
 * print: the engine version, whether an update is available, how an update
 * went, and the scan report taken from fixed line positions.
 *
 * Each parser is a function of the captured stdout; a Python exception that
 * escapes the adapter is a `Failure`.
 */
module AvgOutput {
  import opened Wrappers
  import opened PyStr

  const EngineName := "AVG"
  const VersionMarker := "version"
  const VersionFailed := "Error: version failed to execute."
  const UpToDate := "You are currently up-to-date"
  const UpdateSucceeded := "Update was successfully completed."
  const UpdateFailed := "Error: update failed to execute."
  const NotInstalledMessage := "AVG Engine is not installed."
  /** What the adapter reports as the definitions date, whatever the scanner printed. */
  const DefinitionsPlaceholder := "Problem"

  /** The Python exceptions that can escape the adapter's parsing. */
  datatype PyError =
    | IndexError      // a line, a token or a ':'-separated field that is not there
    | DateParseError  // `dateutil.parser.parse` rejected the definitions date

  datatype Metadata = Metadata(engine: string, definitions: string)

  /**
   * The dictionary the adapter returns next to the name 'AVG': a scan report,
   * or an error alone (which has no `infected` entry at all).
   */
  datatype AvgTag =
    | Report(av: string, infected: bool, infectedString: string, metadata: Metadata)
    | EngineError(error: string)

  // ------------------------------------------------ searching output lines

  /** Some line contains `phrase`. */
  ghost predicate SomeLineContains(lines: seq<string>, phrase: string) {
    exists k :: 0 <= k < |lines| && Contains(lines[k], phrase)
  }

  /** Index of the first line that contains `phrase`, if there is one. */
  function FirstMatch(lines: seq<string>, phrase: string): (r: Option<nat>)
    ensures r.Some? ==> r.value < |lines| && Contains(lines[r.value], phrase)
    ensures r.Some? ==> forall j :: 0 <= j < r.value ==> !Contains(lines[j], phrase)
    ensures r.None? <==> forall j :: 0 <= j < |lines| ==> !Contains(lines[j], phrase)
  {
    if lines == [] then None
    else if Contains(lines[0], phrase) then Some(0)
    else
      match FirstMatch(lines[1..], phrase)
      case None => None
      case Some(k) => Some(k + 1)
  }

  /** The adapter's `for result in results: if phrase in result: ...` search. */
  method FindFirstMatch(lines: seq<string>, phrase: string) returns (r: Option<nat>)
    ensures r == FirstMatch(lines, phrase)
  {
    var i := 0;
    while i < |lines|
      invariant 0 <= i <= |lines|
      invariant forall j :: 0 <= j < i ==> !Contains(lines[j], phrase)
    {
      if Contains(lines[i], phrase) {
        return Some(i);
      }
      i := i + 1;
    }
    return None;
  }

  /**
   * Dropping the empty lines first changes nothing about whether a non-empty
   * phrase is found.
   */
  lemma FirstMatchNonEmpty(lines: seq<string>, phrase: string)
    requires phrase != []
    ensures FirstMatch(NonEmpty(lines), phrase).None? <==> !SomeLineContains(lines, phrase)
  {
    var kept := NonEmpty(lines);
    if SomeLineContains(lines, phrase) {
      var k :| 0 <= k < |lines| && Contains(lines[k], phrase);
      ContainsLength(lines[k], phrase);
      assert lines[k] in kept;
      var j :| 0 <= j < |kept| && kept[j] == lines[k];
    } else {
      forall j | 0 <= j < |kept| ensures !Contains(kept[j], phrase) {
        assert kept[j] in lines;
      }
    }
  }

  /** The non-empty lines of process output read with `splitlines()`. */
  function OutputLines(stdout: string): (r: seq<string>)
    ensures forall k :: 0 <= k < |r| ==> r[k] != [] && '\n' !in r[k] && '\r' !in r[k]
  {
    var lines := SplitLines(stdout);
    var r := NonEmpty(lines);
    assert forall k :: 0 <= k < |r| ==> r[k] in lines;
    r
  }

  /** The text after the first ':' of `s`. */
  function AfterColon(s: string): string
    requires ':' in s
  {
    s[IndexOf(s, {':'}) + 1..]
  }

  // ---------------------------------------------------------------- version

  /**
   * The `version` property: the first line mentioning "version" holds the
   * version between its first and second ':'.
   */
  function ParseVersion(stdout: string): (r: Result<string, PyError>)
    ensures r.Failure? ==> r.error == IndexError
  {
    var lines := OutputLines(stdout);
    match FirstMatch(lines, VersionMarker)
    case None => Success(VersionFailed)
    case Some(i) =>
      var fields := Split(lines[i], ':');
      if |fields| < 2 then Failure(IndexError) else Success(Strip(fields[1]))
  }

  /**
   * The fixed error text comes back exactly when no line mentions "version":
   * a version read from a line can never be mistaken for it, because it holds
   * no ':' and the error text does.
   */
  lemma VersionFailedIff(stdout: string)
    ensures ParseVersion(stdout) == Success(VersionFailed)
            <==> !SomeLineContains(SplitLines(stdout), VersionMarker)
  {
    FirstMatchNonEmpty(SplitLines(stdout), VersionMarker);
    var lines := OutputLines(stdout);
    var m := FirstMatch(lines, VersionMarker);
    if m.Some? {
      SecondFieldIsNotVersionFailed(lines[m.value]);
    }
  }

  /** A field cut out at ':' never equals the fixed error text, which holds a ':'. */
  lemma SecondFieldIsNotVersionFailed(line: string)
    ensures |Split(line, ':')| >= 2 ==> Strip(Split(line, ':')[1]) != VersionFailed
  {
    var fields := Split(line, ':');
    if |fields| >= 2 {
      StripKeeps(fields[1], ':');
      assert VersionFailed[5] == ':';
    }
  }

  /**
   * When a line mentions "version", the first such line decides: without a
   * ':' it raises an index error, otherwise the version is the stripped text
   * between its first and second ':' (or its end).
   */
  lemma VersionFromFirstMatch(stdout: string)
    requires SomeLineContains(SplitLines(stdout), VersionMarker)
    ensures var lines := OutputLines(stdout);
            var m := FirstMatch(lines, VersionMarker);
            && m.Some?
            && (':' !in lines[m.value] <==> ParseVersion(stdout) == Failure(IndexError))
            && (':' in lines[m.value] ==>
                  var rest := AfterColon(lines[m.value]);
                  ParseVersion(stdout) == Success(Strip(rest[..IndexOf(rest, {':'})])))
  {
    FirstMatchNonEmpty(SplitLines(stdout), VersionMarker);
    var lines := OutputLines(stdout);
    var m := FirstMatch(lines, VersionMarker);
    if ':' in lines[m.value] {
      SplitSecondField(lines[m.value], ':');
    }
  }

  // ---------------------------------------------------------------- updates

  /** `update_available`: an update is due unless the checker says up-to-date. */
  function ParseUpdateAvailable(checkOut: string): bool {
    FirstMatch(OutputLines(checkOut), UpToDate).None?
  }

  /** No update is available exactly when some output line says up-to-date. */
  lemma UpdateAvailableIff(checkOut: string)
    ensures !ParseUpdateAvailable(checkOut) <==> SomeLineContains(SplitLines(checkOut), UpToDate)
  {
    FirstMatchNonEmpty(SplitLines(checkOut), UpToDate);
  }

  /**
   * `update_definitions`: the outcome from the checker's output and, when an
   * update was run, the updater's output.
   */
  function ParseUpdateOutcome(checkOut: string, updateOut: string): (r: string)
    ensures r == UpToDate || r == UpdateSucceeded || r == UpdateFailed
  {
    if ParseUpdateAvailable(checkOut) then
      if FirstMatch(OutputLines(updateOut), UpdateSucceeded).Some? then UpdateSucceeded
      else UpdateFailed
    else UpToDate
  }

  /**
   * Each of the three outcomes has exactly one cause: up-to-date when the
   * checker says so, success when the updater reports it, failure otherwise.
   */
  lemma UpdateOutcomeCases(checkOut: string, updateOut: string)
    ensures var r := ParseUpdateOutcome(checkOut, updateOut);
            && (r == UpToDate <==> SomeLineContains(SplitLines(checkOut), UpToDate))
            && (r == UpdateSucceeded <==>
                  !SomeLineContains(SplitLines(checkOut), UpToDate)
                  && SomeLineContains(SplitLines(updateOut), UpdateSucceeded))
            && (r == UpdateFailed <==>
                  !SomeLineContains(SplitLines(checkOut), UpToDate)
                  && !SomeLineContains(SplitLines(updateOut), UpdateSucceeded))
  {
    UpdateAvailableIff(checkOut);
    FirstMatchNonEmpty(SplitLines(updateOut), UpdateSucceeded);
    assert UpToDate != UpdateSucceeded && UpToDate != UpdateFailed && UpdateSucceeded != UpdateFailed by {
      assert UpToDate[0] != UpdateSucceeded[0] && UpToDate[0] != UpdateFailed[0];
      assert UpdateSucceeded[0] != UpdateFailed[0];
    }
  }

  /** When no update is available, the updater's output plays no part. */
  lemma UpToDateIgnoresUpdater(checkOut: string, updateOut: string, otherOut: string)
    requires !ParseUpdateAvailable(checkOut)
    ensures ParseUpdateOutcome(checkOut, updateOut) == ParseUpdateOutcome(checkOut, otherOut) == UpToDate
  {
  }

  // ----------------------------------------------------------- scan report

  /** `format_output` reads the non-empty lines of `output.split('\n')`. */
  function ReportLines(output: string): (r: seq<string>)
    ensures forall k :: 0 <= k < |r| ==> r[k] != [] && '\n' !in r[k]
  {
    var pieces := Split(output, '\n');
    var r := NonEmpty(pieces);
    assert forall k :: 0 <= k < |r| ==> r[k] in pieces;
    r
  }

  /**
   * The report has every line and field `format_output` reads: 12 non-empty
   * lines, a ':' on lines 2 and 3, and a token on line 6.
   */
  predicate WellShaped(lines: seq<string>) {
    |lines| >= 12 && ':' in lines[2] && ':' in lines[3] && !AllSpace(lines[6])
  }

  /** The text handed to the date parser: line 3 after its first ':', stripped. */
  function DateText(lines: seq<string>): string
    requires WellShaped(lines)
  {
    Strip(AfterColon(lines[3]))
  }

  /**
   * `format_output`: reads the report from the non-empty lines of the
   * scanner's output.
   * `dateParses` tells whether `dateutil.parser.parse` accepts a text.
   */
  function FormatOutput(output: string, dateParses: string -> bool): (r: Result<AvgTag, PyError>)
    ensures r.Success? ==> r.value.Report? && r.value.av == EngineName
    ensures r.Success? ==> r.value.metadata.definitions == DefinitionsPlaceholder
  {
    ReadReport(ReportLines(output), dateParses)
  }

  /**
   * The body of `format_output` after the lines are cut: the infection flag
   * from line 11, the infection name from line 6, the engine version from
   * line 2 and the definitions date from line 3 (parsed, then dropped for a
   * fixed placeholder).
   */
  function ReadReport(lines: seq<string>, dateParses: string -> bool): Result<AvgTag, PyError> {
    if |lines| < 12 then Failure(IndexError)
    else
      var infected := Contains(Strip(lines[11]), "1");
      var words := Words(lines[6]);
      if |words| == 0 then Failure(IndexError)
      else
        var infectedString := Strip(words[|words| - 1]);
        var enginePart := SplitOnce(lines[2], ':');
        if |enginePart| < 2 then Failure(IndexError)
        else
          var engine := Strip(enginePart[1]);
          var datePart := SplitOnce(lines[3], ':');
          if |datePart| < 2 then Failure(IndexError)
          else if !dateParses(Strip(datePart[1])) then Failure(DateParseError)
          else Success(Report(EngineName, infected, infectedString, Metadata(engine, DefinitionsPlaceholder)))
  }

  /**
   * `format_output` returns a report exactly when the lines are well shaped
   * and the date parses; it raises an index error exactly when they are not
   * well shaped; and it never returns a partial report.
   */
  lemma ReadReportOutcome(lines: seq<string>, dateParses: string -> bool)
    ensures var r := ReadReport(lines, dateParses);
            && (r == Failure(IndexError) <==> !WellShaped(lines))
            && (r == Failure(DateParseError) <==> WellShaped(lines) && !dateParses(DateText(lines)))
            && (r.Success? <==> WellShaped(lines) && dateParses(DateText(lines)))
            && (r.Success? ==> r.value.Report?)
  {
    if |lines| >= 12 {
      WordsEmptyIff(lines[6]);
    }
  }

  /**
   * The fields of a report: named 'AVG'; infected exactly when line 11 holds
   * a '1' anywhere; the infection name is the last whitespace-free run of line
   * 6; the engine is all of line 2 after its first ':' (later ':' kept),
   * stripped; the definitions are always the placeholder.
   */
  lemma ReadReportFields(lines: seq<string>, dateParses: string -> bool)
    requires ReadReport(lines, dateParses).Success?
    ensures var t := ReadReport(lines, dateParses).value;
            && t.Report?
            && t.av == EngineName
            && (t.infected <==> '1' in lines[11])
            && t.infectedString != [] && NoSpace(t.infectedString)
            && LastRun(t.infectedString, TrimEnd(lines[6]))
            && t.metadata.engine == Strip(AfterColon(lines[2]))
            && t.metadata.definitions == DefinitionsPlaceholder
  {
    ReportInfected(lines, dateParses);
    InfectedFlag(lines[11]);
    ReportInfectedString(lines, dateParses);
    LastToken(lines[6]);
    ReportEngine(lines, dateParses);
  }

  /** The last token of a line is a whitespace-free run that `strip()` leaves alone. */
  lemma LastToken(line: string)
    requires Words(line) != []
    ensures var w := Words(line)[|Words(line)| - 1];
            && w != [] && NoSpace(w) && Strip(w) == w
            && LastRun(w, TrimEnd(line))
  {
    WordsEmptyIff(line);
    WordsAreTokens(line);
    LastWord(line);
    StripNoSpace(Words(line)[|Words(line)| - 1]);
  }

  /** The fixed fields of a report and its infection flag, `'1' in` line 11 stripped. */
  lemma ReportInfected(lines: seq<string>, dateParses: string -> bool)
    requires ReadReport(lines, dateParses).Success?
    ensures var t := ReadReport(lines, dateParses).value;
            && t.Report? && t.av == EngineName && t.metadata.definitions == DefinitionsPlaceholder
            && |lines| >= 12 && t.infected == Contains(Strip(lines[11]), "1")
  {
  }

  /** The infection name of a report is the last token of line 6, stripped. */
  lemma ReportInfectedString(lines: seq<string>, dateParses: string -> bool)
    requires ReadReport(lines, dateParses).Success?
    ensures var t := ReadReport(lines, dateParses).value;
            && |lines| >= 12 && Words(lines[6]) != []
            && t.infectedString == Strip(Words(lines[6])[|Words(lines[6])| - 1])
  {
    assert |lines| >= 12;
    var words := Words(lines[6]);
    assert |words| != 0;
  }

  /** The engine of a report is line 2 after its first ':', stripped. */
  lemma ReportEngine(lines: seq<string>, dateParses: string -> bool)
    requires ReadReport(lines, dateParses).Success?
    ensures var t := ReadReport(lines, dateParses).value;
            && |lines| >= 12 && ':' in lines[2]
            && t.metadata.engine == Strip(AfterColon(lines[2]))
  {
    assert SplitOnce(lines[2], ':')[1] == AfterColon(lines[2]);
  }

  /** `'1' in line.strip()` holds exactly when the line holds a '1'. */
  lemma InfectedFlag(line: string)
    ensures Contains(Strip(line), "1") <==> '1' in line
  {
    var st := Strip(line);
    assert "1" == ['1'];
    assert Contains(st, ['1']) <==> '1' in st by {
      ContainsChar(st, '1');
    }
    assert '1' in st <==> '1' in line by {
      StripKeeps(line, '1');
    }
  }
}
