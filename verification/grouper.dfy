/** The directory grouper, `compute_results`, modelled as the program has it,
    together with a closed-form description of its output. The grouping the
    program evidently intends is in `CorrectedGrouper`.

    The program keeps its state in three variables: the directory of the open
    group (`t_path`, empty at the start), the open group record `r`, and the
    report `c`. Each path is processed by one `Step`; at the end the open group
    is appended once more. */
module Grouper {
  import opened Wrappers
  import opened Hashing

  /** One file of a group: base name and hex digest (`File`). */
  datatype File = File(file: string, hash: string)

  /** One group record (`Result`): directory, recorded quantity and files. */
  datatype Result = Result(path: string, quantity: int, files: seq<File>)

  /** The report of one root (`Results`): date, file count and groups. */
  datatype Results = Results(date: string, count: int, result: seq<Result>)

  /** The collaborators the grouper calls and this model does not define:
      `filepath.Dir`, `filepath.Base`, reading a file's content, and MD5. */
  datatype Host = Host(
    dir: string -> string,
    base: string -> string,
    read: string -> Option<seq<byte>>,
    md5: seq<byte> -> Md5Sum)

  /** The entry recorded for a path; the hash is empty when reading failed. */
  function EntryOf(h: Host, path: string): File {
    File(h.base(path), GenerateMd5(h.read, h.md5, path).hex)
  }

  /** The entries of a sequence of paths, position by position. */
  function Entries(h: Host, ps: seq<string>): seq<File> {
    seq(|ps|, i requires 0 <= i < |ps| => EntryOf(h, ps[i]))
  }

  // ---------------------------------------------------------------------------
  // The loop as written
  // ---------------------------------------------------------------------------

  /** The loop variables of `compute_results`. */
  datatype State = State(tPath: string, r: Result, c: Results)

  /** One iteration of the loop. The first path, or any path while `t_path` is
      still empty, opens the group; a path of the open directory joins it; a
      path of another directory seals the open group and is itself neither
      recorded nor counted. */
  function Step(h: Host, st: State, path: string): State {
    var filename := h.base(path);
    var dir := h.dir(path);
    var hash := GenerateMd5(h.read, h.md5, path).hex;
    if st.tPath == "" then
      State(dir, st.r.(files := st.r.files + [File(filename, hash)]), st.c.(count := st.c.count + 1))
    else if dir == st.tPath then
      State(st.tPath, st.r.(files := st.r.files + [File(filename, hash)]), st.c.(count := st.c.count + 1))
    else
      var sealed := st.r.(path := st.tPath, quantity := |st.r.files|);
      State(dir, sealed.(files := []), st.c.(result := st.c.result + [sealed]))
  }

  /** The loop run over `ps`, one `Step` per path in order. */
  function Run(h: Host, st: State, ps: seq<string>): State
    decreases |ps|
  {
    if |ps| == 0 then st else Step(h, Run(h, st, ps[..|ps| - 1]), ps[|ps| - 1])
  }

  // ---------------------------------------------------------------------------
  // Closed-form description
  // ---------------------------------------------------------------------------

  /** Position `i` is a directory change: some earlier path set a non-empty
      open directory and this path lies elsewhere. */
  predicate IsChange(h: Host, ps: seq<string>, i: int)
    requires 0 <= i < |ps|
  {
    i > 0 && h.dir(ps[i - 1]) != "" && h.dir(ps[i]) != h.dir(ps[i - 1])
  }

  /** Strictly increasing positions, each inside `1 .. n-1`. */
  predicate ValidCuts(cs: seq<nat>, n: nat) {
    && (forall k :: 0 <= k < |cs| ==> 0 < cs[k] < n)
    && (forall k, l :: 0 <= k < l < |cs| ==> cs[k] < cs[l])
  }

  /** The directory-change positions of `ps`, in increasing order. */
  function Changes(h: Host, ps: seq<string>): (cs: seq<nat>)
    ensures ValidCuts(cs, |ps|)
    ensures forall k :: 0 <= k < |cs| ==> IsChange(h, ps, cs[k])
    ensures forall i :: 0 <= i < |ps| && IsChange(h, ps, i) ==> i in cs
    decreases |ps|
  {
    if |ps| == 0 then
      []
    else
      var n := |ps| - 1;
      var cs := Changes(h, ps[..n]);
      assert forall i :: 0 <= i < n ==> (IsChange(h, ps[..n], i) <==> IsChange(h, ps, i));
      cs + (if IsChange(h, ps, n) then [n] else [])
  }

  /** First position of group `j`: just after the `j`-th change. */
  function Start(cs: seq<nat>, j: nat): nat
    requires j <= |cs|
  {
    if j == 0 then 0 else cs[j - 1] + 1
  }

  /** Group `j` as it is sealed at the `j`-th change: the entries since the
      previous change (the caller's files before the first), under the
      directory of the path just before the change, with its true size. */
  function SealedRef(h: Host, ps: seq<string>, cs: seq<nat>, r0: Result, j: nat): Result
    requires ValidCuts(cs, |ps|) && j < |cs|
  {
    var files := (if j == 0 then r0.files else []) + Entries(h, ps[Start(cs, j)..cs[j]]);
    Result(h.dir(ps[cs[j] - 1]), |files|, files)
  }

  /** The group still open after the last change: the entries after it, but
      the directory and quantity of the group sealed last (the caller's own
      when nothing was sealed). */
  function OpenRef(h: Host, ps: seq<string>, cs: seq<nat>, r0: Result): Result
    requires ValidCuts(cs, |ps|)
  {
    var m := |cs|;
    var files := (if m == 0 then r0.files else []) + Entries(h, ps[Start(cs, m)..]);
    if m == 0 then r0.(files := files)
    else
      var last := SealedRef(h, ps, cs, r0, m - 1);
      Result(last.path, last.quantity, files)
  }

  /** The sealed groups, in order. */
  function SealedRefs(h: Host, ps: seq<string>, cs: seq<nat>, r0: Result): seq<Result>
    requires ValidCuts(cs, |ps|)
  {
    seq(|cs|, j requires 0 <= j < |cs| => SealedRef(h, ps, cs, r0, j))
  }

  /** The loop state after `ps`, computed position by position. */
  function RefState(h: Host, ps: seq<string>, r0: Result, c0: Results): State {
    var cs := Changes(h, ps);
    State(
      if |ps| == 0 then "" else h.dir(ps[|ps| - 1]),
      OpenRef(h, ps, cs, r0),
      c0.(count := c0.count + |ps| - |cs|, result := c0.result + SealedRefs(h, ps, cs, r0)))
  }

  lemma {:induction false} EntriesSnoc(h: Host, ps: seq<string>, a: nat)
    requires a < |ps|
    ensures Entries(h, ps[a..]) == Entries(h, ps[a..|ps| - 1]) + [EntryOf(h, ps[|ps| - 1])]
  {
  }

  /** Extending the paths by one leaves the earlier sealed groups alone. */
  lemma {:induction false} SealedRefsExtend(h: Host, ps: seq<string>, cs: seq<nat>, cs': seq<nat>, r0: Result)
    requires |ps| > 0
    requires ValidCuts(cs, |ps| - 1) && ValidCuts(cs', |ps|)
    requires cs' == cs || cs' == cs + [|ps| - 1]
    ensures forall j :: 0 <= j < |cs| ==>
              SealedRef(h, ps, cs', r0, j) == SealedRef(h, ps[..|ps| - 1], cs, r0, j)
  {
    var p := ps[..|ps| - 1];
    forall j | 0 <= j < |cs|
      ensures SealedRef(h, ps, cs', r0, j) == SealedRef(h, p, cs, r0, j)
    {
      assert cs'[j] == cs[j];
      assert Start(cs', j) == Start(cs, j);
      assert ps[Start(cs, j)..cs[j]] == p[Start(cs, j)..cs[j]];
      assert ps[cs[j] - 1] == p[cs[j] - 1];
    }
  }

  /** Outside a change the open group gains the path's entry. */
  lemma {:induction false} OpenKeep(h: Host, ps: seq<string>, cs: seq<nat>, r0: Result)
    requires |ps| > 0 && ValidCuts(cs, |ps| - 1)
    ensures ValidCuts(cs, |ps|)
    ensures var o := OpenRef(h, ps[..|ps| - 1], cs, r0);
      OpenRef(h, ps, cs, r0) == o.(files := o.files + [EntryOf(h, ps[|ps| - 1])])
  {
    var n := |ps| - 1;
    var p := ps[..n];
    var m := |cs|;
    var a := Start(cs, m);
    EntriesSnoc(h, ps, a);
    assert ps[a..n] == p[a..];
    if m > 0 {
      SealedRefsExtend(h, ps, cs, cs, r0);
    }
  }

  /** Extending the paths by a non-change leaves the sealed groups alone. */
  lemma {:induction false} SealedRefsKeep(h: Host, ps: seq<string>, cs: seq<nat>, r0: Result)
    requires |ps| > 0 && ValidCuts(cs, |ps| - 1)
    ensures ValidCuts(cs, |ps|)
    ensures SealedRefs(h, ps, cs, r0) == SealedRefs(h, ps[..|ps| - 1], cs, r0)
  {
    SealedRefsExtend(h, ps, cs, cs, r0);
  }

  /** At a change, the group sealed is the open one, under the directory of
      the path before the change and with its true size. */
  lemma {:induction false} SealAtChange(h: Host, ps: seq<string>, cs: seq<nat>, r0: Result)
    requires |ps| > 1 && ValidCuts(cs, |ps| - 1)
    ensures ValidCuts(cs + [|ps| - 1], |ps|)
    ensures var o := OpenRef(h, ps[..|ps| - 1], cs, r0);
      SealedRef(h, ps, cs + [|ps| - 1], r0, |cs|) == o.(path := h.dir(ps[|ps| - 2]), quantity := |o.files|)
  {
    var n := |ps| - 1;
    var p := ps[..n];
    var m := |cs|;
    var cs' := cs + [n];
    assert ValidCuts(cs', |ps|);
    assert ps[Start(cs, m)..n] == p[Start(cs, m)..];
    assert Start(cs', m) == Start(cs, m);
  }

  /** At a change, the sealed groups gain exactly that group. */
  lemma {:induction false} SealedRefsSeal(h: Host, ps: seq<string>, cs: seq<nat>, r0: Result)
    requires |ps| > 1 && ValidCuts(cs, |ps| - 1)
    ensures ValidCuts(cs + [|ps| - 1], |ps|)
    ensures SealedRefs(h, ps, cs + [|ps| - 1], r0)
         == SealedRefs(h, ps[..|ps| - 1], cs, r0) + [SealedRef(h, ps, cs + [|ps| - 1], r0, |cs|)]
  {
    var cs' := cs + [|ps| - 1];
    assert ValidCuts(cs', |ps|);
    SealedRefsExtend(h, ps, cs, cs', r0);
  }

  /** After a change the open group is empty but keeps the sealed group's
      directory and quantity. */
  lemma {:induction false} OpenAfterSeal(h: Host, ps: seq<string>, cs: seq<nat>, r0: Result)
    requires |ps| > 1 && ValidCuts(cs, |ps| - 1)
    ensures ValidCuts(cs + [|ps| - 1], |ps|)
    ensures var s := SealedRef(h, ps, cs + [|ps| - 1], r0, |cs|);
      OpenRef(h, ps, cs + [|ps| - 1], r0) == s.(files := [])
  {
    var n := |ps| - 1;
    var cs' := cs + [n];
    assert ValidCuts(cs', |ps|);
    assert Start(cs', |cs| + 1) == n + 1;
    assert Entries(h, ps[n + 1..]) == [];
  }

  /** A path that is not a change joins the open group and is counted. */
  lemma {:induction false} StepKeepsRef(h: Host, ps: seq<string>, r0: Result, c0: Results)
    requires |ps| > 0 && !IsChange(h, ps, |ps| - 1)
    ensures Step(h, RefState(h, ps[..|ps| - 1], r0, c0), ps[|ps| - 1]) == RefState(h, ps, r0, c0)
  {
    var n := |ps| - 1;
    var p := ps[..n];
    var cs := Changes(h, p);
    assert Changes(h, ps) == cs;
    OpenKeep(h, ps, cs, r0);
    SealedRefsKeep(h, ps, cs, r0);
  }

  /** A change, for given earlier changes `cs`: the step seals the open
      group and opens an empty one under the new directory. */
  lemma {:induction false} SealStep(h: Host, ps: seq<string>, cs: seq<nat>, r0: Result, c0: Results)
    requires |ps| > 1 && ValidCuts(cs, |ps| - 1)
    requires h.dir(ps[|ps| - 2]) != "" && h.dir(ps[|ps| - 1]) != h.dir(ps[|ps| - 2])
    ensures ValidCuts(cs + [|ps| - 1], |ps|)
    ensures var n := |ps| - 1; var p := ps[..n]; var c := c0.(count := c0.count + n - |cs|);
      Step(h, State(h.dir(ps[n - 1]), OpenRef(h, p, cs, r0), c.(result := c0.result + SealedRefs(h, p, cs, r0))), ps[n])
        == State(h.dir(ps[n]), OpenRef(h, ps, cs + [n], r0), c.(result := c0.result + SealedRefs(h, ps, cs + [n], r0)))
  {
    var n := |ps| - 1;
    SealAtChange(h, ps, cs, r0);
    SealedRefsSeal(h, ps, cs, r0);
    OpenAfterSeal(h, ps, cs, r0);
  }

  /** A change seals the open group and opens an empty one. */
  lemma {:induction false} StepSealsRef(h: Host, ps: seq<string>, r0: Result, c0: Results)
    requires |ps| > 1 && IsChange(h, ps, |ps| - 1)
    ensures Step(h, RefState(h, ps[..|ps| - 1], r0, c0), ps[|ps| - 1]) == RefState(h, ps, r0, c0)
  {
    var n := |ps| - 1;
    var p := ps[..n];
    var cs := Changes(h, p);
    assert Changes(h, ps) == cs + [n];
    assert p[n - 1] == ps[n - 1];
    SealStep(h, ps, cs, r0, c0);
  }

  /** The loop computes exactly the closed-form state. */
  lemma {:induction false} RunMatchesRef(h: Host, ps: seq<string>, r0: Result, c0: Results)
    ensures Run(h, State("", r0, c0), ps) == RefState(h, ps, r0, c0)
    decreases |ps|
  {
    if |ps| == 0 {
      assert Entries(h, ps[0..]) == [];
      assert r0.files + [] == r0.files;
      assert c0.result + [] == c0.result;
    } else {
      var n := |ps| - 1;
      RunMatchesRef(h, ps[..n], r0, c0);
      var st := RefState(h, ps[..n], r0, c0);
      if st.tPath == "" || h.dir(ps[n]) == st.tPath {
        StepKeepsRef(h, ps, r0, c0);
      } else {
        StepSealsRef(h, ps, r0, c0);
      }
    }
  }

  /** `compute_results`: the loop from an empty `t_path` over the caller's
      group record `r0` and report `c0`, then the final append. Returns the
      caller's record and report as they are afterwards.

      The report gains one group per directory change plus one; each sealed
      group holds the entries since the previous change under the directory
      just left; the final group repeats the stale directory and quantity of
      the group sealed last; only non-change paths are counted. */
  function ComputeResults(h: Host, ps: seq<string>, r0: Result, c0: Results): (out: (Result, Results))
    ensures var cs := Changes(h, ps);
      && out.0 == OpenRef(h, ps, cs, r0)
      && out.1.result == c0.result + SealedRefs(h, ps, cs, r0) + [out.0]
      && |out.1.result| == |c0.result| + |cs| + 1
      && out.1.count == c0.count + |ps| - |cs|
      && out.1.date == c0.date
  {
    var st := Run(h, State("", r0, c0), ps);
    RunMatchesRef(h, ps, r0, c0);
    (st.r, st.c.(result := st.c.result + [st.r]))
  }

  /** After the loop, `t_path` is the directory of the last path. */
  lemma {:induction false} RunTPath(h: Host, ps: seq<string>, r0: Result, c0: Results)
    ensures Run(h, State("", r0, c0), ps).tPath == if |ps| == 0 then "" else h.dir(ps[|ps| - 1])
  {
    RunMatchesRef(h, ps, r0, c0);
  }

  // ---------------------------------------------------------------------------
  // Consequences for the caller
  // ---------------------------------------------------------------------------

  /** The files of a sequence of groups, group after group. */
  function Flatten(gs: seq<Result>): seq<File>
    decreases |gs|
  {
    if |gs| == 0 then [] else Flatten(gs[..|gs| - 1]) + gs[|gs| - 1].files
  }

  lemma {:induction false} FlattenSnoc(gs: seq<Result>, g: Result)
    ensures Flatten(gs + [g]) == Flatten(gs) + g.files
  {
    assert (gs + [g])[..|gs|] == gs;
  }

  /** The paths the loop records, in input order: all but the changes. */
  function Kept(h: Host, ps: seq<string>): (ks: seq<string>)
    ensures |ks| <= |ps|
    decreases |ps|
  {
    if |ps| == 0 then
      []
    else
      var n := |ps| - 1;
      Kept(h, ps[..n]) + (if IsChange(h, ps, n) then [] else [ps[n]])
  }

  /** Exactly the changes are left out of the recorded paths. */
  lemma {:induction false} KeptCount(h: Host, ps: seq<string>)
    ensures |Kept(h, ps)| == |ps| - |Changes(h, ps)|
    decreases |ps|
  {
    if |ps| > 0 {
      KeptCount(h, ps[..|ps| - 1]);
    }
  }

  /** A non-change path adds its entry to the recorded ones. */
  lemma {:induction false} JoinKept(h: Host, ps: seq<string>)
    requires |ps| > 0 && !IsChange(h, ps, |ps| - 1)
    ensures Entries(h, Kept(h, ps)) == Entries(h, Kept(h, ps[..|ps| - 1])) + [EntryOf(h, ps[|ps| - 1])]
    ensures |Kept(h, ps)| == |Kept(h, ps[..|ps| - 1])| + 1
  {
  }

  /** A change adds nothing to the recorded paths. */
  lemma {:induction false} SealKept(h: Host, ps: seq<string>)
    requires |ps| > 0 && IsChange(h, ps, |ps| - 1)
    ensures Kept(h, ps) == Kept(h, ps[..|ps| - 1])
  {
  }

  /** The loop never touches the groups the caller's report already had. */
  lemma {:induction false} RunKeepsCallerGroups(h: Host, ps: seq<string>, r0: Result, c0: Results)
    ensures var st := Run(h, State("", r0, c0), ps);
      |c0.result| <= |st.c.result| && st.c.result[..|c0.result|] == c0.result
  {
    RunMatchesRef(h, ps, r0, c0);
    var cs := Changes(h, ps);
    assert (c0.result + SealedRefs(h, ps, cs, r0))[..|c0.result|] == c0.result;
  }

  /** Loop invariant of `compute_results`: the files sealed after position
      `b` followed by the open group's files are `files0 + es`, and the count
      is `count`. */
  predicate Recorded(st: State, b: nat, files0: seq<File>, es: seq<File>, count: int) {
    b <= |st.c.result| && Flatten(st.c.result[b..]) + st.r.files == files0 + es && st.c.count == count
  }

  lemma {:induction false} StepJoinRecords(h: Host, st: State, x: string, b: nat, files0: seq<File>, es: seq<File>, count: int)
    requires Recorded(st, b, files0, es, count)
    requires st.tPath == "" || h.dir(x) == st.tPath
    ensures Recorded(Step(h, st, x), b, files0, es + [EntryOf(h, x)], count + 1)
  {
    var e := EntryOf(h, x);
    var st' := Step(h, st, x);
    assert st'.c.result == st.c.result && st'.r.files == st.r.files + [e];
    assert Flatten(st.c.result[b..]) + (st.r.files + [e]) == (files0 + es) + [e];
  }

  lemma {:induction false} StepSealRecords(h: Host, st: State, x: string, b: nat, files0: seq<File>, es: seq<File>, count: int)
    requires Recorded(st, b, files0, es, count)
    requires st.tPath != "" && h.dir(x) != st.tPath
    ensures Recorded(Step(h, st, x), b, files0, es, count)
  {
    var sealed := st.r.(path := st.tPath, quantity := |st.r.files|);
    var st' := Step(h, st, x);
    assert st'.c.result == st.c.result + [sealed];
    assert st'.c.result[b..] == st.c.result[b..] + [sealed];
    FlattenSnoc(st.c.result[b..], sealed);
  }

  /** The loop records the entries of exactly the non-change paths, in input
      order, and counts each of them once. */
  lemma {:induction false} RunRecordsKept(h: Host, ps: seq<string>, r0: Result, c0: Results)
    ensures Recorded(Run(h, State("", r0, c0), ps), |c0.result|, r0.files, Entries(h, Kept(h, ps)), c0.count + |Kept(h, ps)|)
    decreases |ps|
  {
    if |ps| == 0 {
      assert c0.result[|c0.result|..] == [];
    } else {
      var n := |ps| - 1;
      var p := ps[..n];
      RunRecordsKept(h, p, r0, c0);
      RunTPath(h, p, r0, c0);
      var prev := Run(h, State("", r0, c0), p);
      var es := Entries(h, Kept(h, p));
      if prev.tPath == "" || h.dir(ps[n]) == prev.tPath {
        assert n > 0 ==> ps[n - 1] == p[n - 1];
        JoinKept(h, ps);
        StepJoinRecords(h, prev, ps[n], |c0.result|, r0.files, es, c0.count + |Kept(h, p)|);
      } else {
        assert ps[n - 1] == p[n - 1];
        SealKept(h, ps);
        StepSealRecords(h, prev, ps[n], |c0.result|, r0.files, es, c0.count + |Kept(h, p)|);
      }
    }
  }

  /** `compute_results` records the entries of exactly the non-change paths,
      in input order and after the caller's own files, and counts each of
      them once: the count grows by the number of entries appended. */
  lemma {:induction false} ComputeResultsRecordsKept(h: Host, ps: seq<string>, r0: Result, c0: Results)
    ensures var out := ComputeResults(h, ps, r0, c0);
      && Flatten(out.1.result[|c0.result|..]) == r0.files + Entries(h, Kept(h, ps))
      && out.1.count - c0.count == |Kept(h, ps)| == |Flatten(out.1.result[|c0.result|..])| - |r0.files|
  {
    var st := Run(h, State("", r0, c0), ps);
    RunRecordsKept(h, ps, r0, c0);
    var out := ComputeResults(h, ps, r0, c0);
    var b := |c0.result|;
    assert out.1.result == st.c.result + [st.r];
    assert out.1.result[b..] == st.c.result[b..] + [st.r];
    FlattenSnoc(st.c.result[b..], st.r);
  }

  /** Each sealed reference group records its true size; the open one
      carries the directory and quantity of the last sealed group, or the
      caller's when nothing was sealed. */
  lemma {:induction false} RefQuantities(h: Host, ps: seq<string>, cs: seq<nat>, r0: Result)
    requires ValidCuts(cs, |ps|)
    ensures var gs := SealedRefs(h, ps, cs, r0);
      var open := OpenRef(h, ps, cs, r0);
      && (forall j :: 0 <= j < |gs| ==> gs[j].quantity == |gs[j].files|)
      && (|gs| == 0 ==> open.path == r0.path && open.quantity == r0.quantity)
      && (|gs| > 0 ==> open.path == gs[|gs| - 1].path && open.quantity == gs[|gs| - 1].quantity)
  {
  }

  /** The quantity facts of a report made of the caller's groups, sealed
      groups and one final group. */
  lemma {:induction false} AppendedQuantities(pre: seq<Result>, gs: seq<Result>, open: Result, r0: Result)
    requires forall j :: 0 <= j < |gs| ==> gs[j].quantity == |gs[j].files|
    requires |gs| == 0 ==> open.path == r0.path && open.quantity == r0.quantity
    requires |gs| > 0 ==> open.path == gs[|gs| - 1].path && open.quantity == gs[|gs| - 1].quantity
    ensures var rs := pre + gs + [open];
      && (forall k :: |pre| <= k < |rs| - 1 ==> rs[k].quantity == |rs[k].files|)
      && (|rs| - 1 == |pre| ==> rs[|rs| - 1].path == r0.path && rs[|rs| - 1].quantity == r0.quantity)
      && (|rs| - 1 > |pre| ==>
            rs[|rs| - 1].path == rs[|rs| - 2].path && rs[|rs| - 1].quantity == rs[|rs| - 2].quantity)
  {
    var rs := pre + gs + [open];
    forall k | |pre| <= k < |rs| - 1
      ensures rs[k].quantity == |rs[k].files|
    {
      assert rs[k] == gs[k - |pre|];
    }
  }

  /** Every group sealed at a directory change records its true size; the
      group appended after the loop repeats the directory and quantity of the
      last sealed group, or the caller's when nothing was sealed. */
  lemma {:induction false} ComputeResultsQuantities(h: Host, ps: seq<string>, r0: Result, c0: Results)
    ensures var out := ComputeResults(h, ps, r0, c0);
      var rs := out.1.result;
      && (forall k :: |c0.result| <= k < |rs| - 1 ==> rs[k].quantity == |rs[k].files|)
      && (|rs| - 1 == |c0.result| ==> rs[|rs| - 1].path == r0.path && rs[|rs| - 1].quantity == r0.quantity)
      && (|rs| - 1 > |c0.result| ==>
            rs[|rs| - 1].path == rs[|rs| - 2].path && rs[|rs| - 1].quantity == rs[|rs| - 2].quantity)
  {
    var cs := Changes(h, ps);
    RefQuantities(h, ps, cs, r0);
    AppendedQuantities(c0.result, SealedRefs(h, ps, cs, r0), OpenRef(h, ps, cs, r0), r0);
  }

  /** Even an empty path list appends one group: the caller's record as is. */
  lemma {:induction false} EmptyInputAppendsGroup(h: Host, r0: Result, c0: Results)
    ensures ComputeResults(h, [], r0, c0) == (r0, c0.(result := c0.result + [r0]))
  {
    assert Entries(h, []) == [];
    assert r0.files + [] == r0.files;
  }

  // ---------------------------------------------------------------------------
  // A concrete run
  // ---------------------------------------------------------------------------

  const NoSum: Md5Sum := [0, 0, 0, 0, 0, 0, 0, 0, 0, 0, 0, 0, 0, 0, 0, 0]

  /** A host that agrees with `filepath.Dir` and `filepath.Base` on the paths
      `a/x.txt`, `a/y.txt` and `b/z.txt`, and cannot read any file. */
  function ExampleHost(): Host {
    Host(
      p => if |p| > 0 && p[0] == 'b' then "b" else "a",
      p => if |p| >= 2 then p[2..] else p,
      p => None,
      bs => NoSum)
  }

  /** The loop over the two files in `a` records both under an empty
      directory, since the caller's record starts empty. */
  lemma {:induction false} ExampleFirstTwo()
    ensures Run(ExampleHost(), State("", Result("", 0, []), Results("", 0, [])), ["a/x.txt", "a/y.txt"])
         == State("a", Result("", 0, [File("x.txt", ""), File("y.txt", "")]), Results("", 2, []))
  {
    var h := ExampleHost();
    var ps := ["a/x.txt", "a/y.txt"];
    var st0 := State("", Result("", 0, []), Results("", 0, []));
    assert ps[..1] == ["a/x.txt"] && ps[..1][..0] == [];
    assert h.dir(ps[0]) == "a" && h.dir(ps[1]) == "a";
    assert EntryOf(h, ps[0]) == File("x.txt", "") && EntryOf(h, ps[1]) == File("y.txt", "");
    assert Run(h, st0, ps[..1][..0]) == st0;
    assert Run(h, st0, ps[..1]) == State("a", Result("", 0, [File("x.txt", "")]), Results("", 1, []));
  }

  /** The loop over all three paths: `b/z.txt` seals the `a` group and is
      itself dropped. */
  lemma {:induction false} ExampleRun()
    ensures Run(ExampleHost(), State("", Result("", 0, []), Results("", 0, [])), ["a/x.txt", "a/y.txt", "b/z.txt"])
         == State("b", Result("a", 2, []), Results("", 2, [Result("a", 2, [File("x.txt", ""), File("y.txt", "")])]))
  {
    var h := ExampleHost();
    var ps := ["a/x.txt", "a/y.txt", "b/z.txt"];
    var st0 := State("", Result("", 0, []), Results("", 0, []));
    ExampleFirstTwo();
    assert ps[..2] == ["a/x.txt", "a/y.txt"];
    assert h.dir(ps[2]) == "b";
    assert Run(h, st0, ps) == Step(h, Run(h, st0, ps[..2]), ps[2]);
  }

  /** Two files in `a` and one in `b`: the report holds the `a` group and a
      second group that repeats `a`'s directory and quantity with no files;
      `z.txt` is in no group and the count is two, not three. */
  lemma {:induction false} DirectoryChangeDropsFile()
    ensures var out := ComputeResults(ExampleHost(), ["a/x.txt", "a/y.txt", "b/z.txt"], Result("", 0, []), Results("", 0, []));
      && out.1.result == [Result("a", 2, [File("x.txt", ""), File("y.txt", "")]), Result("a", 2, [])]
      && out.1.count == 2
      && out.1.result[1].quantity != |out.1.result[1].files|
  {
    ExampleRun();
  }
}
