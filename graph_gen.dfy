/**
 * The log reader of the plotting script: `parse_log_file` turns the lines of
 * one benchmark log into a labelled series of times, and the driver collects
 * one series per command-line file. A log file is given as its lines, or as
 * `None` when opening it raises FileNotFoundError. The seconds-to-milliseconds
 * float step and the plots are not modelled: a time is the exact numeral the
 * line holds.
 */
module GraphGen {
  import opened Wrappers
  import opened Text
  import opened LogPattern
  import opened Decimals
  import opened Scan

  /** One plotted series: its label (`name`) and the times in file order. */
  datatype LogSeries = LogSeries(name: string, times: seq<Decimal>)

  /** `parse_log_file`'s result: None, a series, or the uncaught ValueError of `float`. */
  datatype ParseOutcome = NoSeries | Series(series: LogSeries) | BadNumber(token: string)

  /** `"total" in line.lower()`. */
  predicate MentionsTotal(line: string)
  {
    Contains(Lower(line), "total")
  }

  /** The token a line contributes: the group of the leftmost match, unless the line mentions "total". */
  function Qualify(line: string): Option<string>
  {
    match Search(line)
    case None => None
    case Some(h) => if MentionsTotal(line) then None else Some(h.group)
  }

  /** One line's contribution to the loop: nothing, a time, or a ValueError. */
  function LineVerdict(line: string): Verdict<Decimal>
  {
    match Qualify(line)
    case None => Skip
    case Some(t) =>
      match ParseDecimal(t)
      case None => Raise(t)
      case Some(d) => Keep(d)
  }

  /** The display label: base name, every ".txt" deleted, '_' turned into ' ', title case. */
  function Label(path: string): string
  {
    Title(ReplaceAll(ReplaceAll(Basename(path), ".txt", ""), "_", " "))
  }

  /** What `parse_log_file` returns for a file with the given lines (or a missing file). */
  function ParsedLog(path: string, file: Option<seq<string>>): ParseOutcome
  {
    match file
    case None => NoSeries
    case Some(lines) =>
      match Collect(lines, LineVerdict)
      case Raised(t) => BadNumber(t)
      case Kept(ts) => if ts == [] then NoSeries else Series(LogSeries(Label(path), ts))
  }

  /** `parse_log_file`: scan the lines in order, appending one time per qualifying line. */
  method ParseLogFile(path: string, file: Option<seq<string>>) returns (r: ParseOutcome)
    ensures r == ParsedLog(path, file)
  {
    if file.None? {
      return NoSeries;
    }
    var lines := file.value;
    var times: seq<Decimal> := [];
    for i := 0 to |lines|
      invariant Collect(lines[..i], LineVerdict) == Kept(times)
    {
      var line := lines[i];
      ghost var upto := lines[..i + 1];
      assert upto[..i] == lines[..i] && upto[i] == line;
      var m := Search(line);
      if m.Some? && !MentionsTotal(line) {
        var number := ParseDecimal(m.value.group);
        assert Qualify(line) == Some(m.value.group);
        if number.None? {
          assert LineVerdict(line) == Raise(m.value.group);
          CollectLast(upto, LineVerdict, times);
          RaisedPrefix(lines, LineVerdict, i + 1, m.value.group);
          return BadNumber(m.value.group);
        }
        assert LineVerdict(line) == Keep(number.value);
        CollectLast(upto, LineVerdict, times);
        times := times + [number.value];
      } else {
        assert LineVerdict(line) == Skip;
        CollectLast(upto, LineVerdict, times);
      }
    }
    assert lines[..|lines|] == lines;
    if times == [] {
      return NoSeries;
    }
    return Series(LogSeries(Label(path), times));
  }

  // ---------------------------------------------------------------------------
  // Which lines count

  /**
   * A line yields token `t` exactly when it does not mention "total" and the
   * leftmost match of the pattern captures `t`.
   */
  lemma QualifyIff(line: string, t: string)
    ensures Qualify(line) == Some(t) <==>
              !MentionsTotal(line)
              && exists i, a, b, c :: PatternAt(line, i, a, b, c) && t == line[a..b] && NoPatternBefore(line, i)
  {
    SearchIff(line, t);
  }

  /** A line holding "total" in any mix of letter cases yields nothing, whatever else it holds. */
  lemma TotalInAnyCase(line: string, i: nat)
    requires i + 5 <= |line| && Lower(line[i..i + 5]) == "total"
    ensures Qualify(line) == None
  {
    assert Lower(line)[i..i + 5] == Lower(line[i..i + 5]);
    assert OccursAt(Lower(line), "total", i);
  }

  // ---------------------------------------------------------------------------
  // What parse_log_file returns

  /**
   * A series comes back exactly when no qualifying token is malformed and at
   * least one line qualifies; its times are the qualifying lines' numerals, one
   * per line, in file order, and its label is `Label(path)`.
   */
  lemma SeriesIff(path: string, lines: seq<string>, ts: seq<Decimal>)
    ensures ParsedLog(path, Some(lines)) == Series(LogSeries(Label(path), ts)) <==>
              ts != [] && exists idx :: Picks(lines, LineVerdict, idx, ts)
  {
    var c := Collect(lines, LineVerdict);
    KeptIff(lines, LineVerdict, ts);
    if ParsedLog(path, Some(lines)) == Series(LogSeries(Label(path), ts)) {
      assert c == Kept(ts);
    }
  }

  /** A file that exists yields None exactly when none of its lines qualifies. */
  lemma NoSeriesIff(path: string, lines: seq<string>)
    ensures ParsedLog(path, Some(lines)) == NoSeries <==> forall k :: 0 <= k < |lines| ==> Qualify(lines[k]) == None
  {
    KeptNothingIff(lines, LineVerdict);
    if forall k :: 0 <= k < |lines| ==> Qualify(lines[k]) == None {
      assert forall k :: 0 <= k < |lines| ==> LineVerdict(lines[k]) == Skip;
    }
    if ParsedLog(path, Some(lines)) == NoSeries {
      forall k | 0 <= k < |lines| ensures Qualify(lines[k]) == None {
        assert LineVerdict(lines[k]) == Skip;
      }
    }
  }

  /**
   * A malformed token (such as "1.2.3" or ".") is not recovered: the result is
   * the ValueError of the first qualifying line whose token `float` rejects.
   */
  lemma BadNumberIff(path: string, lines: seq<string>, t: string)
    ensures ParsedLog(path, Some(lines)) == BadNumber(t) <==>
              exists k :: 0 <= k < |lines| && Qualify(lines[k]) == Some(t) && ParseDecimal(t) == None
                && forall j :: 0 <= j < k ==> !LineVerdict(lines[j]).Raise?
  {
    RaisedIff(lines, LineVerdict, t);
    if exists k :: 0 <= k < |lines| && Qualify(lines[k]) == Some(t) && ParseDecimal(t) == None
         && forall j :: 0 <= j < k ==> !LineVerdict(lines[j]).Raise? {
      var k :| 0 <= k < |lines| && Qualify(lines[k]) == Some(t) && ParseDecimal(t) == None
                && forall j :: 0 <= j < k ==> !LineVerdict(lines[j]).Raise?;
      assert LineVerdict(lines[k]) == Raise(t);
    }
  }

  // ---------------------------------------------------------------------------
  // The label

  /** The label never holds '_'. */
  lemma LabelHasNoUnderscore(path: string)
    ensures '_' !in Label(path)
  {
    var s := ReplaceAll(Basename(path), ".txt", "");
    var u := ReplaceAll(s, "_", " ");
    ReplaceCharAt(s, '_', ' ');
    assert '_' !in u;
    TitleKeepsAbsent(u, '_');
  }

  /**
   * For a log `dir/stem.txt` whose stem holds no ".txt", the label is the stem
   * with '_' turned into ' ', in title case.
   */
  lemma LabelOfLogFile(dir: string, stem: string)
    requires '/' !in stem && !Contains(stem, ".txt")
    ensures Label(dir + "/" + stem + ".txt") == Title(ReplaceAll(stem, "_", " "))
  {
    BaseOfLogFile(dir, stem);
    TrimTxt(stem);
  }

  lemma BaseOfLogFile(dir: string, stem: string)
    requires '/' !in stem
    ensures Basename(dir + "/" + stem + ".txt") == stem + ".txt"
  {
    assert dir + "/" + stem + ".txt" == dir + "/" + (stem + ".txt");
    BasenameAfterSlash(dir, stem + ".txt");
  }

  /** Deleting ".txt" from `stem + ".txt"` gives back a stem without ".txt". */
  lemma TrimTxt(stem: string)
    requires !Contains(stem, ".txt")
    ensures ReplaceAll(stem + ".txt", ".txt", "") == stem
  {
    assert ".txt"[1..] == "txt";
    ReplaceAllSplit(stem, ".txt", "", "");
    assert stem + ".txt" + "" == stem + ".txt";
    assert stem + "" + "" == stem;
  }

  /** The log of the trio run, `logs/trio_trio.txt`, gets the label "Trio Trio". */
  lemma TrioLogLabel(dir: string, stem: string)
    requires dir == "logs" && stem == "trio_trio"
    ensures Label(dir + "/" + stem + ".txt") == "Trio Trio"
  {
    FirstCharAbsent(stem, ".txt");
    LabelOfLogFile(dir, stem);
    var u := ReplaceAll(stem, "_", " ");
    TrioSpaced(stem);
    TrioTitled(u);
  }

  lemma TrioSpaced(stem: string)
    requires stem == "trio_trio"
    ensures ReplaceAll(stem, "_", " ") == "trio trio"
  {
    ReplaceCharAt(stem, '_', ' ');
  }

  lemma TrioTitled(u: string)
    requires u == "trio trio"
    ensures Title(u) == "Trio Trio"
  {
    forall k | 0 <= k < |u| ensures Title(u)[k] == "Trio Trio"[k] {
      TitleAt(u, k);
    }
  }

  /** Every ".txt" is deleted, not only a final one: "a.txt.b.txt" becomes "a.b". */
  lemma LabelDeletesEveryTxt()
    ensures ReplaceAll("a.txt.b.txt", ".txt", "") == "a.b"
  {
    TxtTwice("a", ".b", ".txt");
    assert "a" + ".txt" + ".b" + ".txt" == "a.txt.b.txt";
  }

  lemma TxtTwice(x: string, y: string, pat: string)
    requires x == "a" && y == ".b" && pat == ".txt"
    ensures ReplaceAll(x + pat + y + pat, pat, "") == x + y
  {
    FirstCharAbsent(x, pat);
    assert !Contains(y, pat);
    ReplaceAllSplit(y, pat, "", "");
    assert y + pat + "" == y + pat;
    ReplaceAllSplit(x, pat, "", y + pat);
    assert x + pat + y + pat == x + pat + (y + pat);
  }

  /** The log line "done within 3 seconds" contributes the time "3". */
  lemma WithinLineQualifies()
    ensures Qualify("done within 3 seconds") == Some("3")
  {
    WithinQualifies("done within 3 seconds");
  }

  lemma WithinQualifies(s: string)
    requires s == "done within 3 seconds"
    ensures Qualify(s) == Some("3")
  {
    WithinLine(s);
    NoTotalInWithin(s);
  }

  lemma NoTotalInWithin(s: string)
    requires s == "done within 3 seconds"
    ensures !MentionsTotal(s)
  {
    NoCapitalsInWithin(s);
    LowerWithoutCapitals(s);
    NoTotalWordInWithin(s);
  }

  lemma NoCapitalsInWithin(s: string)
    requires s == "done within 3 seconds"
    ensures forall k :: 0 <= k < |s| ==> !IsUpper(s[k])
  {
  }

  lemma NoTotalWordInWithin(s: string)
    requires s == "done within 3 seconds"
    ensures !Contains(s, "total")
  {
    forall i | 0 <= i <= |s| ensures !OccursAt(s, "total", i) {
      if i + 5 <= |s| {
        assert s[i..i + 5][0] == s[i] && s[i..i + 5][1] == s[i + 1];
        assert s[i] != 't' || s[i + 1] != 'o';
      }
    }
  }

  // ---------------------------------------------------------------------------
  // The driver

  /** How the plotting script ends before plotting. */
  datatype DriverOutcome = Exit(status: int) | Plot(data: seq<LogSeries>) | Crash(token: string)

  function Lookup(logs: map<string, seq<string>>, f: string): Option<seq<string>>
  {
    if f in logs then Some(logs[f]) else None
  }

  /** One command-line file's contribution: skipped when it gave no data. */
  function FileVerdict(logs: map<string, seq<string>>, f: string): Verdict<LogSeries>
  {
    match ParsedLog(f, Lookup(logs, f))
    case NoSeries => Skip
    case Series(s) => Keep(s)
    case BadNumber(t) => Raise(t)
  }

  function FileVerdicts(logs: map<string, seq<string>>): string -> Verdict<LogSeries>
  {
    f => FileVerdict(logs, f)
  }

  /**
   * The `__main__` block before plotting: argparse demands one file at least
   * (status 2), the series are kept in command-line order, and no series at
   * all means status 1.
   */
  function Driver(args: seq<string>, logs: map<string, seq<string>>): DriverOutcome
  {
    if args == [] then Exit(2)
    else
      match Collect(args, FileVerdicts(logs))
      case Raised(t) => Crash(t)
      case Kept(all) => if all == [] then Exit(1) else Plot(all)
  }

  method RunGraphGen(args: seq<string>, logs: map<string, seq<string>>) returns (r: DriverOutcome)
    ensures r == Driver(args, logs)
  {
    if args == [] {
      return Exit(2);
    }
    var allData: seq<LogSeries> := [];
    for i := 0 to |args|
      invariant Collect(args[..i], FileVerdicts(logs)) == Kept(allData)
    {
      var f := args[i];
      assert args[..i + 1][..i] == args[..i];
      var data := ParseLogFile(f, Lookup(logs, f));
      if data.BadNumber? {
        RaisedPrefix(args, FileVerdicts(logs), i + 1, data.token);
        return Crash(data.token);
      }
      if data.Series? {
        allData := allData + [data.series];
      }
    }
    assert args[..|args|] == args;
    if allData == [] {
      return Exit(1);
    }
    return Plot(allData);
  }

  /** The plotted series are those of the files that gave data, in command-line order. */
  lemma DriverPlotIff(args: seq<string>, logs: map<string, seq<string>>, all: seq<LogSeries>)
    ensures Driver(args, logs) == Plot(all) <==>
              args != [] && all != [] && exists idx :: Picks(args, FileVerdicts(logs), idx, all)
  {
    KeptIff(args, FileVerdicts(logs), all);
  }

  /**
   * The script reaches `sys.exit(1)` ("No data found") exactly when files were
   * given and every one of them is missing or yields no data.
   */
  lemma DriverExitIff(args: seq<string>, logs: map<string, seq<string>>)
    ensures Driver(args, logs) == Exit(1) <==>
              args != [] && forall k :: 0 <= k < |args| ==> ParsedLog(args[k], Lookup(logs, args[k])) == NoSeries
  {
    var g := FileVerdicts(logs);
    KeptNothingIff(args, g);
    assert forall k :: 0 <= k < |args| ==> (g(args[k]) == Skip <==> ParsedLog(args[k], Lookup(logs, args[k])) == NoSeries);
  }
}
