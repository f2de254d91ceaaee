/** The grouping `compute_results` evidently intends: every path is recorded,
    a group is sealed with its true size when the next path lies in another
    directory (or at the end), so each run of neighbouring paths that share a
    directory becomes one group; no group is produced for an empty path list,
    and each report starts from empty state. */
module CorrectedGrouper {
  import opened Grouper

  /** `n` copies of `d`. */
  function Repeat(d: string, n: nat): seq<string> {
    seq(n, i => d)
  }

  /** The directory each recorded file is filed under, group after group. */
  function DirsOf(gs: seq<Result>): seq<string>
    decreases |gs|
  {
    if |gs| == 0 then [] else DirsOf(gs[..|gs| - 1]) + Repeat(gs[|gs| - 1].path, |gs[|gs| - 1].files|)
  }

  lemma {:induction false} DirsOfSnoc(gs: seq<Result>, g: Result)
    ensures DirsOf(gs + [g]) == DirsOf(gs) + Repeat(g.path, |g.files|)
  {
    assert (gs + [g])[..|gs|] == gs;
  }

  /** The directory of each path, position by position. */
  function Dirs(h: Host, ps: seq<string>): seq<string> {
    seq(|ps|, i requires 0 <= i < |ps| => h.dir(ps[i]))
  }

  lemma {:induction false} DirsLast(h: Host, ps: seq<string>)
    requires |ps| > 0
    ensures Dirs(h, ps) == Dirs(h, ps[..|ps| - 1]) + [h.dir(ps[|ps| - 1])]
  {
  }

  lemma {:induction false} EntriesLast(h: Host, ps: seq<string>)
    requires |ps| > 0
    ensures Entries(h, ps) == Entries(h, ps[..|ps| - 1]) + [EntryOf(h, ps[|ps| - 1])]
  {
  }

  /** Every group is non-empty and records its true size, and neighbouring
      groups have different directories. */
  ghost predicate WellFormed(gs: seq<Result>) {
    && (forall k :: 0 <= k < |gs| ==> gs[k].quantity == |gs[k].files| > 0)
    && (forall k, l :: 0 <= k < l < |gs| && l == k + 1 ==> gs[k].path != gs[l].path)
  }

  /** A new group holding only the last path's entry extends the files and
      directories of the groups before it by that path's. */
  lemma {:induction false} OpenContents(h: Host, ps: seq<string>, gs: seq<Result>, g: Result)
    requires |ps| > 0
    requires Flatten(gs) == Entries(h, ps[..|ps| - 1])
    requires DirsOf(gs) == Dirs(h, ps[..|ps| - 1])
    requires g.path == h.dir(ps[|ps| - 1]) && g.files == [EntryOf(h, ps[|ps| - 1])]
    ensures Flatten(gs + [g]) == Entries(h, ps)
    ensures DirsOf(gs + [g]) == Dirs(h, ps)
  {
    FlattenSnoc(gs, g);
    DirsOfSnoc(gs, g);
    EntriesLast(h, ps);
    DirsLast(h, ps);
  }

  /** Replacing the last group by one with an extra file extends the files
      by that file. */
  lemma {:induction false} GrowFlatten(gs: seq<Result>, g': Result, e: File)
    requires |gs| > 0 && g'.files == gs[|gs| - 1].files + [e]
    ensures Flatten(gs[..|gs| - 1] + [g']) == Flatten(gs) + [e]
  {
    var m := |gs| - 1;
    assert gs == gs[..m] + [gs[m]];
    FlattenSnoc(gs[..m], g');
    FlattenSnoc(gs[..m], gs[m]);
  }

  /** Replacing the last group by one of the same directory with an extra
      file extends the directories by that directory. */
  lemma {:induction false} GrowDirs(gs: seq<Result>, g': Result)
    requires |gs| > 0 && g'.path == gs[|gs| - 1].path && |g'.files| == |gs[|gs| - 1].files| + 1
    ensures DirsOf(gs[..|gs| - 1] + [g']) == DirsOf(gs) + [g'.path]
  {
    var m := |gs| - 1;
    assert gs == gs[..m] + [gs[m]];
    DirsOfSnoc(gs[..m], g');
    DirsOfSnoc(gs[..m], gs[m]);
    assert Repeat(g'.path, |g'.files|) == Repeat(g'.path, |gs[m].files|) + [g'.path];
  }

  /** The last path's entry added to the last group, whose directory it has,
      extends the files and directories by that path's. */
  lemma {:induction false} JoinContents(h: Host, ps: seq<string>, gs: seq<Result>, g': Result)
    requires |ps| > 0 && |gs| > 0
    requires Flatten(gs) == Entries(h, ps[..|ps| - 1])
    requires DirsOf(gs) == Dirs(h, ps[..|ps| - 1])
    requires gs[|gs| - 1].path == h.dir(ps[|ps| - 1])
    requires g'.path == gs[|gs| - 1].path && g'.files == gs[|gs| - 1].files + [EntryOf(h, ps[|ps| - 1])]
    ensures Flatten(gs[..|gs| - 1] + [g']) == Entries(h, ps)
    ensures DirsOf(gs[..|gs| - 1] + [g']) == Dirs(h, ps)
  {
    var n := |ps| - 1;
    GrowFlatten(gs, g', EntryOf(h, ps[n]));
    GrowDirs(gs, g');
    EntriesLast(h, ps);
    DirsLast(h, ps);
  }

  /** A non-empty group of a new directory keeps the groups well formed. */
  lemma {:induction false} OpenWellFormed(gs: seq<Result>, g: Result)
    requires WellFormed(gs)
    requires g.quantity == |g.files| > 0
    requires |gs| > 0 ==> gs[|gs| - 1].path != g.path
    ensures WellFormed(gs + [g])
  {
    var gs' := gs + [g];
    forall k, l | 0 <= k < l < |gs'| && l == k + 1
      ensures gs'[k].path != gs'[l].path
    {
      if l < |gs| {
        assert gs'[k] == gs[k] && gs'[l] == gs[l];
      }
    }
  }

  /** Growing the last group by one file and one unit of quantity keeps the
      groups well formed. */
  lemma {:induction false} JoinWellFormed(gs: seq<Result>, g': Result)
    requires WellFormed(gs) && |gs| > 0
    requires g'.path == gs[|gs| - 1].path
    requires g'.quantity == gs[|gs| - 1].quantity + 1 && |g'.files| == |gs[|gs| - 1].files| + 1
    ensures WellFormed(gs[..|gs| - 1] + [g'])
  {
    var m := |gs| - 1;
    var gs' := gs[..m] + [g'];
    forall k, l | 0 <= k < l < |gs'| && l == k + 1
      ensures gs'[k].path != gs'[l].path
    {
      assert gs'[k].path == gs[k].path && gs'[l].path == gs[l].path;
    }
  }

  /** Grouping of a sorted path list: a path whose directory is the open
      group's joins it; any other path opens a new group. */
  function GroupByDirectory(h: Host, ps: seq<string>): (gs: seq<Result>)
    ensures Flatten(gs) == Entries(h, ps)
    ensures DirsOf(gs) == Dirs(h, ps)
    ensures WellFormed(gs)
    ensures |gs| == 0 <==> |ps| == 0
    ensures |gs| > 0 ==> gs[|gs| - 1].path == h.dir(ps[|ps| - 1])
    decreases |ps|
  {
    if |ps| == 0 then
      []
    else
      var n := |ps| - 1;
      var gs := GroupByDirectory(h, ps[..n]);
      var d := h.dir(ps[n]);
      if |gs| > 0 && gs[|gs| - 1].path == d then
        var last := gs[|gs| - 1];
        var g' := Result(last.path, last.quantity + 1, last.files + [EntryOf(h, ps[n])]);
        JoinContents(h, ps, gs, g');
        JoinWellFormed(gs, g');
        gs[..|gs| - 1] + [g']
      else
        var g := Result(d, 1, [EntryOf(h, ps[n])]);
        OpenContents(h, ps, gs, g);
        OpenWellFormed(gs, g);
        gs + [g]
  }

  /** Paths whose neighbours all lie in other directories get one group each. */
  lemma {:induction false} DistinctDirsOneGroupEach(h: Host, ps: seq<string>)
    requires forall i, j :: 0 <= i < j < |ps| && j == i + 1 ==> h.dir(ps[i]) != h.dir(ps[j])
    ensures |GroupByDirectory(h, ps)| == |ps|
    decreases |ps|
  {
    if |ps| > 0 {
      var n := |ps| - 1;
      DistinctDirsOneGroupEach(h, ps[..n]);
      var gs := GroupByDirectory(h, ps[..n]);
      if |gs| > 0 {
        assert gs[|gs| - 1].path == h.dir(ps[..n][n - 1]) == h.dir(ps[n - 1]);
      }
    }
  }

  /** The corrected `compute_results` for one root: fresh state, the groups
      of the paths, and a count of every recorded file. */
  function GroupReport(h: Host, ps: seq<string>, date: string): (rs: Results)
    ensures rs.date == date
    ensures Flatten(rs.result) == Entries(h, ps)
    ensures rs.count == |Flatten(rs.result)| == |ps|
    ensures WellFormed(rs.result)
    ensures |rs.result| == 0 <==> |ps| == 0
  {
    Results(date, |ps|, GroupByDirectory(h, ps))
  }
}
