/** One root scanned end to end, the `-dir` branch of `main`: collect and
    sort the paths, stop with no report on a walk error, otherwise group them
    into the report. The program's own run starts from its initial record
    (no files) and report (the date, no groups, count zero). */
module Scan {
  import opened Wrappers
  import opened Text
  import opened Collector
  import opened Grouper
  import opened CorrectedGrouper

  /** The record `r` as `init` leaves it. */
  const InitialRecord: Result := Result("", 0, [])

  /** The program's single-root run with `compute_results` as written: the
      report records only the non-change paths, counts exactly those, and
      holds one group per directory change plus one. */
  function ScanRoot(h: Host, walk: seq<WalkEntry>, date: string): (res: Option<Results>)
    ensures res.None? <==> exists i :: 0 <= i < |walk| && walk[i].WalkError?
    ensures res.Some? ==>
              var ps := SearchAllFiles([], walk).paths;
              && res.value.date == date
              && Flatten(res.value.result) == Entries(h, Kept(h, ps))
              && res.value.count == |Kept(h, ps)| == |ps| - |Changes(h, ps)|
              && |res.value.result| == |Changes(h, ps)| + 1
  {
    var w := SearchAllFiles([], walk);
    if w.failed then
      None
    else
      var out := ComputeResults(h, w.paths, InitialRecord, Results(date, 0, []));
      ComputeResultsRecordsKept(h, w.paths, InitialRecord, Results(date, 0, []));
      KeptCount(h, w.paths);
      assert out.1.result[0..] == out.1.result;
      Some(out.1)
  }

  /** The same run with the corrected grouping: a walk error aborts the root
      with no report; otherwise the report covers exactly the sorted,
      non-excluded files, each under its own directory, and counts them all. */
  function ScanRootCorrected(h: Host, walk: seq<WalkEntry>, date: string): (res: Option<Results>)
    ensures res.None? <==> exists i :: 0 <= i < |walk| && walk[i].WalkError?
    ensures res.Some? ==>
              var ps := SearchAllFiles([], walk).paths;
              && Sorted(ps)
              && (forall x :: x in ps ==> !ExcludeFile(x))
              && res.value.date == date
              && res.value.count == |ps|
              && Flatten(res.value.result) == Entries(h, ps)
              && DirsOf(res.value.result) == Dirs(h, ps)
              && WellFormed(res.value.result)
  {
    var w := SearchAllFiles([], walk);
    if w.failed then None else Some(GroupReport(h, w.paths, date))
  }

  /** Without directory changes the run as written records the same files
      and count as the corrected one; it differs only in the group's path
      and quantity, which stay those of the initial record. */
  lemma {:induction false} NoChangeSameFiles(h: Host, walk: seq<WalkEntry>, date: string)
    requires Changes(h, SearchAllFiles([], walk).paths) == []
    ensures ScanRoot(h, walk, date).Some? <==> ScanRootCorrected(h, walk, date).Some?
    ensures ScanRoot(h, walk, date).Some? ==>
              && Flatten(ScanRoot(h, walk, date).value.result) == Flatten(ScanRootCorrected(h, walk, date).value.result)
              && ScanRoot(h, walk, date).value.count == ScanRootCorrected(h, walk, date).value.count
              && ScanRoot(h, walk, date).value.result == [Result("", 0, Entries(h, SearchAllFiles([], walk).paths))]
  {
    var ps := SearchAllFiles([], walk).paths;
    NoChangeKeepsAll(h, ps);
    if ScanRoot(h, walk, date).Some? {
      var out := ComputeResults(h, ps, InitialRecord, Results(date, 0, []));
      assert ps[Start([], 0)..] == ps;
      assert out.0 == Result("", 0, Entries(h, ps));
    }
  }

  /** With no directory changes every path is recorded. */
  lemma {:induction false} NoChangeKeepsAll(h: Host, ps: seq<string>)
    requires Changes(h, ps) == []
    ensures Kept(h, ps) == ps
    decreases |ps|
  {
    if |ps| > 0 {
      var n := |ps| - 1;
      var p := ps[..n];
      var cs := Changes(h, p);
      assert Changes(h, ps) == cs + (if IsChange(h, ps, n) then [n] else []);
      assert |cs| == 0 && !IsChange(h, ps, n);
      NoChangeKeepsAll(h, p);
      SealFreeSnoc(h, ps);
    }
  }

  /** A non-change path after a fully recorded prefix is recorded too. */
  lemma {:induction false} SealFreeSnoc(h: Host, ps: seq<string>)
    requires |ps| > 0 && !IsChange(h, ps, |ps| - 1) && Kept(h, ps[..|ps| - 1]) == ps[..|ps| - 1]
    ensures Kept(h, ps) == ps
  {
    var n := |ps| - 1;
    assert Kept(h, ps) == ps[..n] + [ps[n]];
  }
}
