# File-I/O benchmark harness: artifact lifecycle and log parsing, in Dafny

This project models the two sequential parts of an asyncio / trio / curio I/O benchmark.

**The benchmark scripts** are `io_bench/trio_trio.py`, `io_bench/asyncio_aiofiles.py` and `io_bench/curio_curio.py`.
- The directory `test_files` is a class `IoBench.Directory`. It has two fields: whether the directory exists, and the set of file names in it.
- One trial (each script's `main`) lists the directory and reads every listed file. Then it writes `name + "_out"` for every listed name.
- Every trial lists the directory again, so it also reads the outputs of earlier trials and writes `_out_out` chains. The workload therefore grows: trial `k` (counting from 0) lists `n * (k + 1)` files when the `n` base files have no "_out" names.
- Trio checks that the directory exists and runs 20 trials. Its cleanup removes every listed name ending in "_out".
- Asyncio (20 trials) and curio (10 trials) do not check that the directory exists. Their cleanup removes `f + "_out"` for every listed `f`, if that name exists at the time.
- The two cleanup rules differ on an orphan `x_out` whose `x` is absent: trio removes it, asyncio and curio keep it.
- From base names without "_out", both rules restore the original listing after any number of trials.
- The value-level specification (`Artifacts`) states all of this over `set<string>`. The imperative scripts (`IoBench`, `TrioTrio`, `AsyncioAiofiles`, `CurioCurio`) are proved to follow it.

**The plotting script's log reader** is `io_bench/graph_gen.py`.
- `parse_log_file` scans the log lines in order. It keeps the group of the leftmost match of `in\s+([\d\.]+)\s+seconds` from every line that does not contain "total" in any letter case.
- It returns None when the file is missing or when no line qualifies.
- It labels the series with the base name, with every ".txt" deleted, `_` replaced by a space, and the result in title case.
- The driver keeps the series of the files that gave data, in command-line order. It exits with status 1 when no file gave data.
- The regular expression is written out as a matcher (`LogPattern.MatchAt`), checked against a declarative reading of the pattern (`LogPattern.PatternAt`).
- The captured token is kept as an exact numeral (`Decimals.Decimal`), not as a float.

Behaviour worth knowing when reading the model:
- An empty directory is not an error. Only trio checks that the directory exists; every trial then runs over nothing.
- No script counts removals. The trio cleanup removes every "_out" name, orphans included.
- The asyncio script's comment says the loop runs 10 times, but the code runs it 20 times.

## Model

| member | source | states |
|---|---|---|
| Artifacts.OutNameInjective | io_bench/trio_trio.py:37 | two listed names with the same write target `p + "_out"` are the same name |
| Artifacts.ChainInjective | io_bench/trio_trio.py:37 | over base names without "_out", `b + "_out"*j` determines both `b` and `j` |
| Artifacts.TrialOnlyAdds | io_bench/trio_trio.py:27-37 | a trial removes no name, and every name it adds is `f + "_out"` for a listed `f` |
| Artifacts.ChainListed | io_bench/trio_trio.py:51-53 | after `k` trials, every chain of at most `k` "_out" suffixes over a base name is listed |
| Artifacts.ListedIsChain | io_bench/trio_trio.py:51-53 | after `k` trials, every listed name is a base name followed by at most `k` "_out" suffixes |
| Artifacts.TrialsShape | io_bench/trio_trio.py:22-53 | after `k` trials from base `B`, the listing is exactly `{b + "_out"*j : b in B, 0 <= j <= k}` |
| Artifacts.TrialsSize | io_bench/trio_trio.py:22-37 | from `n` base names without "_out", the listing after `k` trials has `n * (k + 1)` names: the workload grows every trial |
| Artifacts.SuffixCleanedExactly | io_bench/trio_trio.py:67-70 | the suffix cleanup keeps a name exactly when it was listed and does not end in "_out" |
| Artifacts.SuffixCleanupIdempotent | io_bench/trio_trio.py:67-70 | a second suffix cleanup removes nothing |
| Artifacts.SuffixCleanupRestores | io_bench/trio_trio.py:49-70 | from a base without "_out" names, any number of trials and then the suffix cleanup give back the base |
| Artifacts.PairedRemovesExactly | io_bench/asyncio_aiofiles.py:60-63 | the paired cleanup removes exactly the listed names `f + "_out"` whose `f` is listed, and each removed name ends in "_out" |
| Artifacts.PairedKeepsOrphan | io_bench/curio_curio.py:50-53 | an orphan `x + "_out"` whose `x` is not listed survives the paired cleanup |
| Artifacts.PairedCleanupLeavesNoPair | io_bench/asyncio_aiofiles.py:60-63 | after the paired cleanup, no `f` is listed together with `f + "_out"` |
| Artifacts.PairedCleanupIdempotent | io_bench/curio_curio.py:50-53 | a second paired cleanup finds nothing to remove and leaves the listing unchanged |
| Artifacts.PairedCleanupRestores | io_bench/asyncio_aiofiles.py:39-63 | from a base without "_out" names, any number of trials and then the paired cleanup give back the base, chains included |
| Artifacts.CleanupRulesDifferOnOrphans | io_bench/trio_trio.py:67-70 | on the listing `{"a_out"}` the suffix rule leaves nothing and the paired rule leaves `{"a_out"}` |
| IoBench.Directory.ListDir | io_bench/asyncio_aiofiles.py:25 | `os.listdir` returns every entry exactly once, in an order the model does not fix |
| IoBench.Directory.Exists | io_bench/asyncio_aiofiles.py:62 | `os.path.exists` holds exactly for a name in the existing directory |
| IoBench.Directory.Write | io_bench/asyncio_aiofiles.py:16-19 | writing a file adds its name and changes nothing else |
| IoBench.Directory.Remove | io_bench/asyncio_aiofiles.py:63 | removing an existing file deletes its name and changes nothing else |
| IoBench.FileIoTrial | io_bench/trio_trio.py:19-41 | the trial works on a listing of the directory (every entry once) and leaves the listing `AfterTrial` of the one at its start; that every read finds its file is the `Read` precondition, discharged inside the body |
| IoBench.SuffixCleanup | io_bench/trio_trio.py:66-70 | removing each listed name that ends in "_out" leaves `SuffixCleaned` of the listing |
| IoBench.PairedCleanup | io_bench/asyncio_aiofiles.py:58-63 | testing existence on the live directory while walking the snapshot, in any listing order, leaves `PairedCleaned` of the snapshot |
| TrioTrio.Run | io_bench/trio_trio.py:43-70 | a missing directory means exit status 1 with nothing changed; otherwise 20 trials in order give one value each, and the suffix cleanup follows (restoring a base without "_out" names) |
| AsyncioAiofiles.Run | io_bench/asyncio_aiofiles.py:39-63 | a missing directory ends the run with status 1 at the first listing; otherwise 20 trials in order give one value each, and the paired cleanup follows (restoring a base without "_out" names) |
| CurioCurio.Run | io_bench/curio_curio.py:35-53 | a missing directory ends the run with status 1 at the first listing; otherwise 10 trials in order give one value each, and the paired cleanup follows (restoring a base without "_out" names) |
| Text.LowerChar | io_bench/graph_gen.py:17 | a capital becomes the small letter that upper-cases back to it; every other character is kept |
| Text.UpperChar | io_bench/graph_gen.py:26 | a small letter becomes the capital at the same place in the alphabet; every other character is kept |
| Text.Lower | io_bench/graph_gen.py:17 | `line.lower()` keeps the length and lower-cases each character in place |
| Text.ReplaceAllAbsent | io_bench/graph_gen.py:26 | `str.replace` leaves a string without the pattern unchanged |
| Text.ReplaceAllSplit | io_bench/graph_gen.py:26 | `str.replace` replaces every occurrence and carries on scanning after each one |
| Text.ReplaceCharAt | io_bench/graph_gen.py:26 | replacing "_" by " " maps the string character by character, keeping its length |
| Text.TitleAt | io_bench/graph_gen.py:26 | `str.title`: a letter after a letter becomes lower case, any other letter upper case, and the length is kept |
| Text.TitleIdempotent | io_bench/graph_gen.py:26 | title-casing a title-cased string changes nothing |
| Text.TitleKeepsNonLetters | io_bench/graph_gen.py:26 | title case keeps every non-letter where it was and introduces none |
| Text.Basename | io_bench/graph_gen.py:26 | the base name is the longest suffix of the path without '/' |
| Text.BasenameAfterSlash | io_bench/graph_gen.py:26 | the base name of `dir/name` is `name` |
| LogPattern.RunEnd | io_bench/graph_gen.py:11 | a greedy `\s+` or `[\d\.]+` stops at the first character outside its class |
| LogPattern.MatchAtIff | io_bench/graph_gen.py:11 | the matcher reports group `t` at position `i` exactly when the pattern matches there with group `t`; the group is unique |
| LogPattern.SearchFrom | io_bench/graph_gen.py:16 | the search returns the first position where the matcher succeeds, or nothing when it succeeds nowhere |
| LogPattern.SearchIff | io_bench/graph_gen.py:11-16 | `re.search` captures `t` exactly when the pattern matches with group `t` at some position and at no earlier one |
| LogPattern.SearchNoneIff | io_bench/graph_gen.py:16 | `re.search` returns None exactly when the pattern matches nowhere |
| LogPattern.NoWordBoundary | io_bench/graph_gen.py:11-16 | the search over "done within 3 seconds" finds its match at the "in" that ends "within" and captures "3" |
| Decimals.ParseDecimal | io_bench/graph_gen.py:18 | an accepted token is a well-formed numeral that renders back to the token |
| Decimals.ParseRender | io_bench/graph_gen.py:18 | a well-formed numeral, written out and read back, is itself |
| Decimals.ParseDecimalAccepts | io_bench/graph_gen.py:18 | on the digit/point runs the pattern captures, `float` accepts a token exactly when it has at most one point and at least one digit |
| Decimals.MalformedTokens | io_bench/graph_gen.py:13-21 | "1.2.3" and "." are rejected (ValueError), and "0.25" is read as 0.25 |
| Scan.KeptIff | io_bench/graph_gen.py:15-18 | the loop completes with `vs` exactly when `vs` are the values of the kept items, one per item, in order, and every other item is skipped |
| Scan.KeptNothingIff | io_bench/graph_gen.py:23-24 | the loop keeps nothing exactly when every item is skipped |
| Scan.RaisedIff | io_bench/graph_gen.py:13-21 | the loop stops with an exception exactly when an item raises it and no earlier item raises |
| Scan.RaisedPrefix | io_bench/graph_gen.py:15-18 | once the loop has raised, the later items are never examined |
| GraphGen.ParseLogFile | io_bench/graph_gen.py:8-27 | the line loop returns `ParsedLog`: None for a missing file or no qualifying line, the ValueError of a malformed token, or the labelled series |
| GraphGen.QualifyIff | io_bench/graph_gen.py:15-17 | a line yields `t` exactly when it does not mention "total" and the leftmost match captures `t` |
| GraphGen.WithinLineQualifies | io_bench/graph_gen.py:15-18 | the line "done within 3 seconds" contributes the time "3" |
| GraphGen.TotalInAnyCase | io_bench/graph_gen.py:17 | a line holding "total" in any letter case yields nothing |
| GraphGen.SeriesIff | io_bench/graph_gen.py:15-27 | a series is returned exactly when no token is malformed and some line qualifies; it holds one time per qualifying line, in file order |
| GraphGen.NoSeriesIff | io_bench/graph_gen.py:23-24 | an existing file yields None exactly when none of its lines qualifies |
| GraphGen.BadNumberIff | io_bench/graph_gen.py:13-21 | a malformed token is not recovered: the result is the ValueError of the first qualifying line whose token `float` rejects |
| GraphGen.LabelHasNoUnderscore | io_bench/graph_gen.py:26 | the label never contains "_" |
| GraphGen.LabelOfLogFile | io_bench/graph_gen.py:26 | the label of `dir/stem.txt` is `stem` with "_" turned into " ", in title case |
| GraphGen.TrioLogLabel | io_bench/graph_gen.py:26 | `logs/trio_trio.txt` is labelled "Trio Trio" |
| GraphGen.LabelDeletesEveryTxt | io_bench/graph_gen.py:26 | every ".txt" is deleted, not only a final one: "a.txt.b.txt" becomes "a.b" |
| GraphGen.RunGraphGen | io_bench/graph_gen.py:90-102 | the driver loop returns `Driver`: status 2 without files, the ValueError of a malformed log, status 1 without data, or the series to plot |
| GraphGen.DriverPlotIff | io_bench/graph_gen.py:94-98 | the plotted series are those of the files that gave data, one per such file, in command-line order |
| GraphGen.DriverExitIff | io_bench/graph_gen.py:100-102 | the script reaches `sys.exit(1)` ("No data found") exactly when files were given and each is missing or yields no data; a malformed token ends it through the uncaught ValueError instead (`Crash`) |

## Left out

- Concurrency: `asyncio.gather`, trio nurseries and curio task groups. The reads of a trial run one after another, then the writes, all over one listing snapshot. This is what the awaited groups amount to for the set of names.
- Timing and statistics: `time.perf_counter` and the float mean, population standard deviation, min, max and total. The value of trial `i` is a parameter `clock(i)`. Only the length and the order of the series are modelled.
- File contents, `os.path.join` and the data written ("Test data"). A path inside the directory is its file name, and the directory holds only regular files.
- I/O errors other than a missing file or directory, such as permission errors or a listed file vanishing between listing and reading.
- The seconds-to-milliseconds step `float(...) * 1000`. A time is kept as the exact numeral of the log line, because the step is float arithmetic.
- Printing, the error message of a missing log file, and the three matplotlib plot functions.
- `io_bench/dummy_file_generator.py`: fixture generation. Its `file_{i}.txt` names are the reason the restoration properties assume a base without "_out" names (`Artifacts.NoOutNames`).
- The `web_bench` and `network_bench` scripts: HTTP clients, concurrency and float latency.
- LogPattern.SearchIff: `\d` is modelled as the ASCII digits only. Python also matches other Unicode decimal digits there, and `float` accepts those too.
- Text.Lower: only ASCII letters are lower-cased. This does not change the "total" test, because no other character lower-cases to one of its letters.
- Text.TitleAt: title case is modelled for ASCII letters. Other characters are kept and count as uncased.
- Text.Basename: paths are '/'-separated (POSIX `os.path.basename`).
