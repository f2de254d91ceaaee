# Directory inventory scanner — Dafny model

This project models the core of a small command-line tool written in Go
(`main.go`). The tool walks a directory tree and drops every path that
contains one of a fixed list of names. It sorts the remaining file paths and
hashes each file's content with MD5, rendered as lowercase hex. It then groups
the sorted paths by parent directory into a report of `{date, count, result:
[{path, quantity, files: [{file, hash}]}]}`. The report is written to a file
named after the report's date.

The modules follow the program's functions:

- `Text`: the string primitives the program uses.
  - `strings.Contains` as `Contains`.
  - `strings.Replace` as `ReplaceAll`. For one-character patterns it is proved equal to the position-by-position `ReplaceChar`.
  - The letter/digit filter of `remove_spec_char` as `RemoveSpecChar`.
  - `sort.Strings` as `SortStrings`, an insertion sort. It is shown to be the
    only sorted arrangement of its input.
- `Collector`: `exclude_file` and its built-in list, and `search_all_files`.
  - The directory walk is given as the sequence of callback invocations it
    makes (`WalkEntry`).
  - The caller's path accumulator is a parameter.
- `Hashing`: `generate_md5`.
  - Reading the file and the MD5 function are parameters.
  - `hex.EncodeToString` is modelled, and its inverse is proved.
- `Report`:
  - `current_date_time` applied to given clock fields.
  - The report file name that `save_result` derives from the date.
  - A parser that inverts the date text, used to prove the file name injective.
- `Grouper`: `compute_results` exactly as written.
  - It is modelled as a loop of `Step`s over the three loop variables `t_path`,
    `r` and `c`.
  - The loop is proved equal to a closed-form description (`RefState`). That
    description says which paths are "changes", what each sealed group holds,
    and what the final append adds.
  - `get_filename` and `get_path` (`filepath.Base`/`filepath.Dir`) are the
    abstract fields `base` and `dir` of `Host`. `Host` also carries the file
    reader and MD5.
- `CorrectedGrouper`: the grouping the program evidently intends.
  - Every path is recorded under its own directory.
  - Every group's quantity is its true size.
  - Empty input yields no group.
- `Scan`: the single-root branch of `main`, collecting and then grouping.
  - It is given once with `compute_results` as written, starting from the
    program's initial record and report.
  - It is given once with the corrected grouping.

## Model

| member | source | states |
|---|---|---|
| Text.Contains | main.go:72 | true exactly when the pattern occurs at some position of the path; the empty pattern occurs everywhere |
| Collector.ExcludedBy | main.go:70-77 | a path is excluded if and only if some entry of the list is a substring of it; an empty list excludes nothing |
| Collector.GitignoreEntryRedundant | main.go:32-40 | the `.gitignore` entry never changes a verdict, because every path containing it also contains `.git` |
| Collector.Collect | main.go:82-91 | the callback fails exactly when the walk reports an error. The paths appended are exactly those of the non-directory visits before the first error that are not dropped. They appear in visit order, one per visit, so a path visited twice appears twice |
| Collector.SearchAllFiles | main.go:80-94 | the result is sorted. As a multiset it is the accumulator plus one copy per non-excluded file visited before the first error. The error is returned exactly when the walk reported one. A path is present if and only if it was already accumulated or is such a file |
| Collector.FreshSearchKeepsOnlyFiles | main.go:84-89 | from an empty accumulator, every collected path is a visited file and contains none of the seven excluded names |
| Collector.OnlyExcludedYieldsNothing | main.go:87-92 | a walk that visits only directories and excluded files yields no paths and no error |
| Text.SortStrings | main.go:92 | the result is in ascending lexicographic order and is a permutation of the input |
| Text.SortedUnique | main.go:92 | two sorted permutations of the same strings are equal, so the sorted order does not depend on the sorting algorithm |
| Text.SortIdempotent | main.go:92 | sorting an already sorted list leaves it unchanged |
| Hashing.GenerateMd5 | main.go:97-108 | the error is reported exactly when the file cannot be read, and then the text is empty. Otherwise the text is 32 hex characters that decode to the MD5 sum of the content read |
| Hashing.HexRoundTrip | main.go:107 | decoding the hex rendering of any byte string gives back those bytes |
| Hashing.HexDecodeThenEncode | main.go:107 | every text that decodes is the rendering of what it decodes to, so the rendering is a bijection onto even-length lowercase hex |
| Hashing.SameContentSameDigest | main.go:97-108 | two paths with the same readable content get the same, non-empty digest; the path itself plays no part |
| Text.RemoveSpecChar | main.go:111-118 | the result is a subsequence of the input and every character in it is kept. Each kept character occurs as often as in the input; every other character is gone |
| Text.RemoveSpecCharIdempotent | main.go:111-118 | filtering a filtered string changes nothing |
| Text.KeepAllUnchanged | main.go:111-118 | a string made only of letters and digits passes through unchanged |
| Report.FormatDateTime | main.go:121-124 | the date text starts with the year's `%d` text and has exactly fifteen characters after it. Their layout is stated by Report.FormatLayout, and Report.ParseFormatDateTime shows the text determines the fields |
| Report.FormatLayout | main.go:123 | the year, the two-digit month, day, hour, minute and second, and the `-`, ` `, `:` separators sit at fixed offsets from the end of the date text |
| Report.ParseIntToDecimal | main.go:123 | reading back the `%d` text of any integer, negative ones included, gives the integer |
| Report.ParseFormatDateTime | main.go:123 | parsing the date text gives back the clock fields, so the date text loses no information |
| Report.FormatChars | main.go:123 | the date text holds only digits, `-`, one space and colons |
| Text.ReplaceAll | main.go:169-170 | `strings.Replace` with limit -1. When pattern and replacement have equal length, as for both replacements here, the text keeps its length |
| Text.ReplaceAllAbsent | main.go:169-170 | a text in which the non-empty pattern never occurs passes through unchanged |
| Text.ReplaceAllOneChar | main.go:169-170 | with a one-character pattern and replacement, the left-to-right replacement changes exactly the positions holding that character, each to the replacement, and leaves all others alone |
| Report.ReportFileName | main.go:169-171 | the name is `report_`, then the date with each space turned into `_` and each colon into `.`, then `.json`. The name contains no space and no colon |
| Report.ReportFileNameOfDate | main.go:169-171 | for a date text the name reads `report_Y-MM-DD_hh.mm.ss.json` |
| Report.ReportFileNameInjective | main.go:167-172 | two different clock readings never produce the same report file name |
| Grouper.ComputeResults | main.go:137-164 | the report gains one group per directory change plus one. Each sealed group holds the entries since the previous change, under the directory just left. The returned record is the open group, which the final append repeats. Only non-change paths are counted, and the date is untouched |
| Grouper.RunMatchesRef | main.go:141-162 | the loop's state after any prefix of the paths equals the closed-form state built from the change positions |
| Grouper.StepKeepsRef | main.go:148-154 | a path that is not a directory change joins the open group and is counted |
| Grouper.StepSealsRef | main.go:155-161 | a directory change seals the open group with its true size under the old directory. The changing path is not recorded, and the new open group is empty |
| Grouper.SealStep | main.go:155-161 | the same sealing step for any given list of earlier change positions |
| Grouper.RunTPath | main.go:148-161 | after the loop, `t_path` is the directory of the last path, or empty when there were no paths |
| Grouper.RunKeepsCallerGroups | main.go:159-163 | the groups already in the caller's report are never modified |
| Grouper.KeptCount | main.go:150-158 | the recorded paths are all paths except the directory changes |
| Grouper.JoinKept | main.go:148-154 | a non-change path adds exactly its own entry to the recorded ones |
| Grouper.SealKept | main.go:155-160 | a directory change adds nothing to the recorded paths |
| Grouper.ComputeResultsRecordsKept | main.go:148-163 | after the caller's own files, the new groups' files are the entries of exactly the non-change paths, in input order. The count grows by exactly the number of entries recorded |
| Grouper.ComputeResultsQuantities | main.go:155-163 | each group sealed at a change has quantity equal to its number of files. The final group repeats the last sealed group's directory and quantity, or the caller's when nothing was sealed |
| Grouper.EmptyInputAppendsGroup | main.go:163 | with no paths, the caller's record is still appended as a group |
| Grouper.DirectoryChangeDropsFile | main.go:155-163 | for `a/x.txt`, `a/y.txt`, `b/z.txt` the report is the `a` group plus a group that claims two files under `a` but holds none. `z.txt` is in no group and the count is 2 |
| CorrectedGrouper.GroupByDirectory | main.go:137-164 | all files in input order, each under its own directory. Every group is non-empty and its quantity is its size, and neighbouring groups differ in directory. There is no group exactly when there are no paths |
| CorrectedGrouper.DistinctDirsOneGroupEach | main.go:148-161 | when no two neighbouring paths share a directory, there is one group per path |
| CorrectedGrouper.GroupReport | main.go:137-164 | a report from fresh state. Its groups hold exactly the entries of the paths, its count equals the number of entries, and it has no group for no paths |
| Scan.ScanRoot | main.go:226-232 | the program's single-root run. A walk error aborts with no report. Otherwise the report holds the entries of exactly the non-change paths and counts exactly those. It has one group per directory change plus one |
| Scan.ScanRootCorrected | main.go:226-232 | the same run with the corrected grouping. A walk error aborts with no report. Otherwise the report covers exactly the sorted, non-excluded files, each under its own directory, and counts them all |
| Scan.NoChangeKeepsAll | main.go:148-154 | when no path changes directory, every path is recorded |
| Scan.NoChangeSameFiles | main.go:137-164 | without directory changes, the run as written and the corrected run record the same files and count. The run as written reports them in one group whose path and quantity are still the initial empty path and zero |

## Left out

- Reading files, directory walking and MD5 are parameters, not models. This covers `os.Open`, `io.Copy`, the `crypto/md5` compression function and `filepath.Walk`'s traversal order.
  - Only what the program does with their results is modelled.
  - The walk is the sequence of callback invocations it makes.
- `filepath.Base` and `filepath.Dir` are the abstract functions `Host.base` and `Host.dir`. Path cleaning rules are not modelled.
- JSON encoding, `os.Create`, writing to standard output and `log` calls are output effects with no influence on the computed values, so they are omitted. This covers `save_result` and `task`.
- Command-line flags, `init`, `help` and `os.Exit` belong to the CLI layer.
  - The `-exclude` flag is parsed but never read by the program, so it has no model.
  - Only the fixed list is applied.
- `time.Now` is a parameter: the clock fields are given to `Report.FormatDateTime`.
- The loop over several roots in `main` (lines 211-225) is not modelled. `Scan.ScanRoot` and `Scan.ScanRootCorrected` model one root scanned from fresh state. `Grouper.ComputeResults` takes the caller's carried-over record and report as parameters.
- Text.RemoveSpecChar: Unicode `IsLetter`/`IsDigit` is the abstract predicate `keep`. The Unicode tables are not modelled.
- Text.SortStrings: compares strings as sequences of characters, while Go compares bytes. For valid UTF-8 the byte order agrees with code point order, so the result is the same.
- Paths that are not valid UTF-8 are not modelled. Go paths are arbitrary byte strings, but a Dafny `string` is a sequence of characters. This affects `Text.Contains`, `Text.SortStrings` and `Text.ReplaceAll` alike.
- Report.FormatDateTime: requires the ranges a `time.Time` guarantees for month, day, hour, minute and second. It does not check the day against the length of the month.
- Text.Contains: the model scans start positions left to right. Go's faster search algorithm is not modelled, only its result.

## Findings

The program's own code shows what a group is meant to be.

- The loop files each path under the open group while the path's directory stays `t_path`.
- It seals the group when the directory changes.
- It sets `Quantity` to `len(r.Files)` when sealing (main.go:158).
- It increments `c.Count` once per recorded file (main.go:150, 153).

So each run of neighbouring paths that share a directory is evidently meant to be:

- one group;
- under its own directory;
- with every one of its files;
- with a quantity equal to its size.

The count is meant to be the number of files. This is one group per run, not per
directory: `a/b.txt`, `a/b/c.txt`, `a/c.txt` is sorted, yet `a` occurs in two runs.
A group with an empty path, no files and quantity zero describes no directory at
all. `compute_results` departs from this in three ways.

| source | as written | input that shows it | evidently intended | confidence | as-written member | corrected member |
|---|---|---|---|---|---|---|
| main.go:155-160 | the path that triggers a directory change seals the open group but is itself neither added to a group nor counted | `a/x.txt`, `a/y.txt`, `b/z.txt`: `z.txt` appears nowhere and the count is 2 | the path opens the new group and is counted | high (not executed) | Grouper.DirectoryChangeDropsFile | CorrectedGrouper.GroupByDirectory |
| main.go:163 | the final append reuses `r` without setting its path and quantity, which are still those of the group sealed last | the same input: the last group is `a` with quantity 2 and no files | the last group carries its own directory and size | high (not executed) | Grouper.ComputeResultsQuantities | CorrectedGrouper.GroupByDirectory |
| main.go:163 | a group is appended even when there are no paths | no paths: the report holds one group, the caller's empty record | no group for no paths | medium (not executed) | Grouper.EmptyInputAppendsGroup | CorrectedGrouper.GroupReport |
