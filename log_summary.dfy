/**
 * The per-line logic of `summarise_log_file` (python_examples/file_io.py):
 * the lines of a log reduce to the number of non-blank lines, the number of
 * lines mentioning ERROR in any letter case, and the distinct warning
 * messages.
 *
 * Choices the docstring leaves open, made here:
 *  - a blank line is one that is empty after `strip()`;
 *  - "containing the word ERROR" is a substring test on the lower-cased
 *    line (`"error" in line.lower()`), so "ERRORS" and "error:" count too;
 *  - the `WARNING:` marker is matched case-sensitively anywhere in the
 *    line, and the message is the text after its first occurrence, stripped;
 *  - duplicate messages collapse to the first occurrence, keeping the order
 *    in which messages first appear;
 *  - a line may count as an error and give a warning at the same time.
 */
module LogSummary {
  import opened Wrappers
  import opened Text

  /** `{'line_count': ..., 'error_count': ..., 'warnings': [...]}` */
  datatype Summary = Summary(lineCount: nat, errorCount: nat, warnings: seq<string>)

  const ErrorWord: string := "ERROR"
  const WarningMarker: string := "WARNING:"

  /** `"error" in line.lower()`: the lower-cased line holds "error" somewhere. */
  predicate IsError(line: string): (b: bool)
    ensures b <==> exists i: nat :: OccursAt(Lower(line), "error", i)
  {
    assert Lower(ErrorWord) == "error";
    ContainsIgnoringCase(line, ErrorWord)
  }

  predicate HasWarning(line: string) {
    Contains(line, WarningMarker)
  }

  /** The text after the first `WARNING:` of the line, stripped. */
  function WarningMessage(line: string): (m: string)
    requires HasWarning(line)
    ensures IsStripped(m) && |m| + |WarningMarker| <= |line|
  {
    var i := Find(line, WarningMarker).value;
    StripSpec(line[i + |WarningMarker|..]);
    Strip(line[i + |WarningMarker|..])
  }

  /** `line_count`: the non-blank lines. */
  function LineCount(lines: seq<string>): nat {
    |NonBlank(lines)|
  }

  /** `error_count`: the lines that mention ERROR in any letter case. */
  function ErrorCount(lines: seq<string>): nat {
    if lines == [] then 0 else (if IsError(lines[0]) then 1 else 0) + ErrorCount(lines[1..])
  }

  /** The warning message of every line that has one, in line order, duplicates kept. */
  function Messages(lines: seq<string>): (ms: seq<string>)
    ensures |ms| <= |lines|
  {
    if lines == [] then []
    else if HasWarning(lines[0]) then [WarningMessage(lines[0])] + Messages(lines[1..])
    else Messages(lines[1..])
  }

  /**
   * The messages with every repetition after the first dropped, as
   * `if m not in seen: seen.append(m)` builds them: each message exactly once.
   */
  function Unique(ms: seq<string>): (r: seq<string>)
    ensures Distinct(r)
    ensures forall m :: m in r <==> m in ms
    ensures |r| <= |ms|
  {
    if ms == [] then []
    else
      var seen := Unique(ms[..|ms| - 1]);
      var m := ms[|ms| - 1];
      assert ms == ms[..|ms| - 1] + [m];
      if m in seen then seen
      else
        DistinctSnoc(seen, m);
        seen + [m]
  }

  /** The summary of the lines of a log. */
  function Summarise(lines: seq<string>): (r: Summary)
    ensures r.errorCount <= r.lineCount <= |lines|
    ensures Distinct(r.warnings) && |r.warnings| <= |lines|
    ensures forall m :: m in r.warnings <==> m in Messages(lines)
  {
    ErrorsWithinLines(lines);
    Summary(LineCount(lines), ErrorCount(lines), Unique(Messages(lines)))
  }

  /** `summarise_log_file` on the text of the file, once read. */
  function SummariseText(content: string): (r: Summary)
    ensures r.errorCount <= r.lineCount <= |Lines(content)|
    ensures Distinct(r.warnings)
  {
    Summarise(Lines(content))
  }

  /** The text of lines without line breaks joined by "\n" summarises as those lines. */
  lemma SummariseJoined(lines: seq<string>)
    requires |lines| >= 1 && forall k | 0 <= k < |lines| :: NoneIn(lines[k], LineBreaks)
    ensures SummariseText(Join(lines, '\n')) == Summarise(lines)
  {
    SplitJoin(lines, '\n', LineBreaks);
  }

  /** A line that mentions ERROR is not blank, since the word itself is not whitespace. */
  lemma ErrorLineNotBlank(line: string)
    requires IsError(line)
    ensures !IsBlank(line)
  {
    var lower := Lower(line);
    assert Lower(ErrorWord) == "error";
    var i: nat :| OccursAt(lower, "error", i);
    assert lower[i] == lower[i..i + 5][0] == 'e';
    assert !IsSpace(line[i]);
  }

  /** Counting errors never exceeds counting non-blank lines. */
  lemma {:induction false} ErrorsWithinLines(lines: seq<string>)
    ensures ErrorCount(lines) <= LineCount(lines) <= |lines|
  {
    if lines != [] {
      ErrorsWithinLines(lines[1..]);
      if IsError(lines[0]) {
        ErrorLineNotBlank(lines[0]);
      }
    }
  }

  lemma {:induction false} ErrorCountAppend(a: seq<string>, b: seq<string>)
    ensures ErrorCount(a + b) == ErrorCount(a) + ErrorCount(b)
  {
    if a == [] {
      assert a + b == b;
    } else {
      assert (a + b)[0] == a[0] && (a + b)[1..] == a[1..] + b;
      ErrorCountAppend(a[1..], b);
    }
  }

  lemma {:induction false} MessagesAppend(a: seq<string>, b: seq<string>)
    ensures Messages(a + b) == Messages(a) + Messages(b)
  {
    if a == [] {
      assert a + b == b;
    } else {
      assert (a + b)[0] == a[0] && (a + b)[1..] == a[1..] + b;
      MessagesAppend(a[1..], b);
    }
  }

  /**
   * Summarising a log in two parts: the counts add up and the warnings are
   * those of both parts, each once.
   */
  lemma SummariseAppend(a: seq<string>, b: seq<string>)
    ensures Summarise(a + b).lineCount == Summarise(a).lineCount + Summarise(b).lineCount
    ensures Summarise(a + b).errorCount == Summarise(a).errorCount + Summarise(b).errorCount
    ensures forall m :: m in Summarise(a + b).warnings <==> m in Summarise(a).warnings || m in Summarise(b).warnings
  {
    NonBlankAppend(a, b);
    ErrorCountAppend(a, b);
    MessagesAppend(a, b);
  }

  /**
   * Each warning is the message of some line with the marker, and the
   * message of each such line is a warning.
   */
  lemma WarningsFromLines(lines: seq<string>, m: string)
    ensures m in Summarise(lines).warnings <==> exists k | 0 <= k < |lines| :: HasWarning(lines[k]) && WarningMessage(lines[k]) == m
  {
    MessagesFrom(lines, m);
  }

  lemma MessagesFrom(lines: seq<string>, m: string)
    ensures m in Messages(lines) <==> exists k | 0 <= k < |lines| :: HasWarning(lines[k]) && WarningMessage(lines[k]) == m
  {
    if m in Messages(lines) {
      var k := MessageSource(lines, m);
    }
    if exists k | 0 <= k < |lines| :: HasWarning(lines[k]) && WarningMessage(lines[k]) == m {
      var k :| 0 <= k < |lines| && HasWarning(lines[k]) && WarningMessage(lines[k]) == m;
      MessageOfLine(lines, k);
    }
  }

  /** A message comes from some line. */
  lemma {:induction false} MessageSource(lines: seq<string>, m: string) returns (k: nat)
    requires m in Messages(lines)
    ensures k < |lines| && HasWarning(lines[k]) && WarningMessage(lines[k]) == m
  {
    if HasWarning(lines[0]) && WarningMessage(lines[0]) == m {
      k := 0;
    } else {
      var j := MessageSource(lines[1..], m);
      k := j + 1;
      assert lines[k] == lines[1..][j];
    }
  }

  /** The message of each line with the marker is among the messages. */
  lemma {:induction false} MessageOfLine(lines: seq<string>, k: nat)
    requires k < |lines| && HasWarning(lines[k])
    ensures WarningMessage(lines[k]) in Messages(lines)
  {
    if k > 0 {
      assert lines[1..][k - 1] == lines[k];
      MessageOfLine(lines[1..], k - 1);
    }
  }

  /** The log of the test `test_summarise_log_file`. */
  const TestLog: seq<string> := [
    "INFO: Service started",
    "WARNING: Disk space low",
    "ERROR: Connection failed",
    "WARNING: Disk space low",
    "",
    "error: unexpected end"
  ]

  /** No "error" in any case without two consecutive letters r. */
  lemma NoErrorWithoutDoubleR(line: string)
    requires forall i | 0 <= i < |line| - 1 :: LowerChar(line[i]) != 'r' || LowerChar(line[i + 1]) != 'r'
    ensures !IsError(line)
  {
    var lower := Lower(line);
    assert Lower(ErrorWord) == "error";
    forall i: nat ensures !OccursAt(lower, "error", i) {
      if i + 5 <= |lower| {
        assert lower[i..i + 5][1] != 'r' || lower[i..i + 5][2] != 'r' by {
          assert lower[i..i + 5][1] == LowerChar(line[i + 1]) && lower[i..i + 5][2] == LowerChar(line[i + 2]);
        }
      }
    }
  }

  /** A line beginning with "error" in any case is an error line. */
  lemma ErrorAtStart(line: string)
    requires |line| >= 5 && Lower(line[..5]) == "error"
    ensures IsError(line)
  {
    var lower := Lower(line);
    assert Lower(ErrorWord) == "error";
    assert lower[..5] == Lower(line[..5]);
    assert OccursAt(lower, "error", 0);
  }

  /** A line without the letter W cannot hold the marker. */
  lemma NoMarker(line: string)
    requires 'W' !in line
    ensures !HasWarning(line)
  {
    forall i: nat ensures !OccursAt(line, WarningMarker, i) {
      if i + |WarningMarker| <= |line| {
        assert line[i..i + |WarningMarker|][0] != 'W' by {
          assert line[i..i + |WarningMarker|][0] == line[i] && line[i] in line;
        }
      }
    }
  }

  lemma InfoLine(line: string)
    requires line == "INFO: Service started"
    ensures !IsBlank(line) && !IsError(line) && !HasWarning(line)
  {
    assert line[0] == 'I' && !IsSpace('I');
    NoErrorWithoutDoubleR(line);
    NoMarker(line);
  }

  lemma WarningLine(line: string)
    requires line == "WARNING: Disk space low"
    ensures !IsBlank(line) && !IsError(line)
    ensures HasWarning(line) && WarningMessage(line) == "Disk space low"
  {
    WarningLineNotError(line);
    WarningLineMessage(line);
  }

  lemma WarningLineNotError(line: string)
    requires line == "WARNING: Disk space low"
    ensures !IsBlank(line) && !IsError(line)
  {
    assert line[0] == 'W' && !IsSpace('W');
    NoErrorWithoutDoubleR(line);
  }

  lemma WarningLineMessage(line: string)
    requires line == "WARNING: Disk space low"
    ensures HasWarning(line) && WarningMessage(line) == "Disk space low"
  {
    MarkerAtStart(line);
    assert line[8..] == " " + "Disk space low" + "";
    assert AllSpace(" ") && IsStripped("Disk space low");
    StripUnique(" ", "Disk space low", "");
  }

  /**
   * The message of a warning line is the text after the first `WARNING:`
   * with the whitespace around it stripped: a line made of a prefix holding
   * no marker, the marker, whitespace, a stripped core and whitespace has
   * that core as its message.
   */
  lemma WarningMessageOf(p: string, left: string, core: string, right: string, line: string)
    requires line == p + WarningMarker + left + core + right
    requires forall i: nat | i < |p| :: !OccursAt(line, WarningMarker, i)
    requires AllSpace(left) && AllSpace(right) && IsStripped(core)
    ensures HasWarning(line) && WarningMessage(line) == core
  {
    var n := |p| + |WarningMarker|;
    assert line[|p|..n] == WarningMarker;
    assert OccursAt(line, WarningMarker, |p|);
    assert Find(line, WarningMarker) == Some(|p|);
    assert line[n..] == left + core + right;
    StripUnique(left, core, right);
  }

  /** A line that begins with the marker has its first occurrence at 0. */
  lemma MarkerAtStart(line: string)
    requires |line| >= |WarningMarker| && line[..|WarningMarker|] == WarningMarker
    ensures HasWarning(line) && Find(line, WarningMarker) == Some(0)
  {
    assert OccursAt(line, WarningMarker, 0);
  }

  /** A line that starts with "error" in any letter case and has no W is an error line without a warning. */
  lemma ErrorLine(line: string)
    requires |line| >= 5 && Lower(line[..5]) == "error" && 'W' !in line
    ensures !IsBlank(line) && IsError(line) && !HasWarning(line)
  {
    ErrorAtStart(line);
    ErrorLineNotBlank(line);
    NoMarker(line);
  }

  /** The two error lines of the test log, one in capitals and one in lower case. */
  lemma TestLogErrors(upper: string, lower: string)
    requires upper == "ERROR: Connection failed" && lower == "error: unexpected end"
    ensures !IsBlank(upper) && IsError(upper) && !HasWarning(upper)
    ensures !IsBlank(lower) && IsError(lower) && !HasWarning(lower)
  {
    assert Lower(upper[..5]) == "error" by { assert upper[..5] == "ERROR"; }
    ErrorLine(upper);
    assert Lower(lower[..5]) == "error" by { assert lower[..5] == "error"; }
    ErrorLine(lower);
  }

  lemma EmptyLine()
    ensures IsBlank("") && !IsError("") && !HasWarning("")
  {
    NoErrorWithoutDoubleR("");
    NoMarker("");
  }

  /** The per-line facts of the test log, combined. */
  lemma TestLogLines(log: seq<string>)
    requires log == TestLog
    ensures NonBlank(log) == [log[0], log[1], log[2], log[3], log[5]]
    ensures ErrorCount(log) == 2
    ensures Messages(log) == ["Disk space low", "Disk space low"]
  {
    var m := "Disk space low";
    assert log[0] == "INFO: Service started" && log[1] == "WARNING: Disk space low" && log[2] == "ERROR: Connection failed";
    assert log[3] == "WARNING: Disk space low" && log[4] == "" && log[5] == "error: unexpected end";
    InfoLine(log[0]);
    WarningLine(log[1]);
    TestLogErrors(log[2], log[5]);
    WarningLine(log[3]);
    EmptyLine();
    SixLines(log, m);
  }

  /** The shape of the test log: which lines are blank, errors or warnings. */
  lemma SixLines(log: seq<string>, m: string)
    requires |log| == 6
    requires !IsBlank(log[0]) && !IsError(log[0]) && !HasWarning(log[0])
    requires !IsBlank(log[1]) && !IsError(log[1]) && HasWarning(log[1]) && WarningMessage(log[1]) == m
    requires !IsBlank(log[2]) && IsError(log[2]) && !HasWarning(log[2])
    requires !IsBlank(log[3]) && !IsError(log[3]) && HasWarning(log[3]) && WarningMessage(log[3]) == m
    requires IsBlank(log[4]) && !IsError(log[4]) && !HasWarning(log[4])
    requires !IsBlank(log[5]) && IsError(log[5]) && !HasWarning(log[5])
    ensures NonBlank(log) == [log[0], log[1], log[2], log[3], log[5]]
    ensures ErrorCount(log) == 2
    ensures Messages(log) == [m, m]
  {
    SixBlank(log);
    SixErrors(log);
    SixWarnings(log, m);
  }

  lemma SixBlank(log: seq<string>)
    requires |log| == 6
    requires !IsBlank(log[0]) && !IsBlank(log[1]) && !IsBlank(log[2]) && !IsBlank(log[3]) && IsBlank(log[4]) && !IsBlank(log[5])
    ensures NonBlank(log) == [log[0], log[1], log[2], log[3], log[5]]
  {
    var t5, t4, t3, t2, t1 := log[5..], log[4..], log[3..], log[2..], log[1..];
    assert t5[1..] == [] && t4[1..] == t5 && t3[1..] == t4 && t2[1..] == t3 && t1[1..] == t2 && log[1..] == t1;
    assert t5[0] == log[5] && t4[0] == log[4] && t3[0] == log[3] && t2[0] == log[2] && t1[0] == log[1];
    assert NonBlank(t5) == [log[5]];
    assert NonBlank(t4) == [log[5]];
    assert NonBlank(t3) == [log[3], log[5]];
    assert NonBlank(t2) == [log[2], log[3], log[5]];
    assert NonBlank(t1) == [log[1], log[2], log[3], log[5]];
  }

  lemma SixErrors(log: seq<string>)
    requires |log| == 6
    requires !IsError(log[0]) && !IsError(log[1]) && IsError(log[2]) && !IsError(log[3]) && !IsError(log[4]) && IsError(log[5])
    ensures ErrorCount(log) == 2
  {
    var t5, t4, t3, t2, t1 := log[5..], log[4..], log[3..], log[2..], log[1..];
    assert t5[1..] == [] && t4[1..] == t5 && t3[1..] == t4 && t2[1..] == t3 && t1[1..] == t2 && log[1..] == t1;
    assert t5[0] == log[5] && t4[0] == log[4] && t3[0] == log[3] && t2[0] == log[2] && t1[0] == log[1];
    assert ErrorCount(t5) == 1;
    assert ErrorCount(t4) == 1;
    assert ErrorCount(t3) == 1;
    assert ErrorCount(t2) == 2;
    assert ErrorCount(t1) == 2;
  }

  lemma SixWarnings(log: seq<string>, m: string)
    requires |log| == 6
    requires !HasWarning(log[0]) && !HasWarning(log[2]) && !HasWarning(log[4]) && !HasWarning(log[5])
    requires HasWarning(log[1]) && WarningMessage(log[1]) == m
    requires HasWarning(log[3]) && WarningMessage(log[3]) == m
    ensures Messages(log) == [m, m]
  {
    var s5 := log[5..];
    var s4 := log[4..];
    var s3 := log[3..];
    var s2 := log[2..];
    var s1 := log[1..];
    assert s5 == [log[5]] && s4 == [log[4]] + s5 && s3 == [log[3]] + s4;
    assert s2 == [log[2]] + s3 && s1 == [log[1]] + s2 && log == [log[0]] + s1;
    MessagesCons(log[5], []);
    assert Messages([log[5]]) == [] by { assert [log[5]] + [] == [log[5]]; }
    MessagesCons(log[4], s5);
    MessagesCons(log[3], s4);
    MessagesCons(log[2], s3);
    MessagesCons(log[1], s2);
    MessagesCons(log[0], s1);
  }

  lemma MessagesCons(line: string, rest: seq<string>)
    ensures Messages([line] + rest) == (if HasWarning(line) then [WarningMessage(line)] else []) + Messages(rest)
  {
    assert ([line] + rest)[1..] == rest;
  }

  /** Joining the test lines with newlines and splitting the text again gives the lines back. */
  lemma TestLogText(log: seq<string>)
    requires log == TestLog
    ensures Lines(Join(log, '\n')) == log
  {
    PrintableLine(log[0]);
    PrintableLine(log[1]);
    PrintableLine(log[2]);
    PrintableLine(log[3]);
    PrintableLine(log[4]);
    PrintableLine(log[5]);
    SixLinesText(log);
  }

  lemma PrintableLine(line: string)
    requires line in TestLog
    ensures NoneIn(line, LineBreaks)
  {
    PrintableHasNoBreaks(line);
  }

  lemma SixLinesText(log: seq<string>)
    requires |log| == 6 && forall k | 0 <= k < 6 :: NoneIn(log[k], LineBreaks)
    ensures Lines(Join(log, '\n')) == log
  {
    SplitJoin(log, '\n', LineBreaks);
  }

  lemma UniqueTwice(m: string)
    ensures Unique([m, m]) == [m]
  {
    var ms := [m, m];
    assert ms[..1] == [m] && ms[..1][..0] == [];
  }

  /**
   * The expectations of `test_summarise_log_file` on the text the test
   * writes: five non-blank lines, two errors ("ERROR:" and "error:"), and
   * the duplicated warning once.
   */
  lemma TestSummary()
    ensures SummariseText(Join(TestLog, '\n')) == Summary(5, 2, ["Disk space low"])
  {
    TestLogText(TestLog);
    TestLogLines(TestLog);
    UniqueTwice("Disk space low");
  }
}
