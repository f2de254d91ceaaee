/** The path collector: `exclude_file` and `search_all_files`.
    The directory walk itself (`filepath.Walk`) is replaced by the sequence of
    entries it would report, in the order it reports them. */
module Collector {
  import opened Text

  /** The built-in exclusion list; a path is dropped when any of these occurs
      anywhere in it. */
  const ExcludedNames: seq<string> :=
    [".DS_Store", ".git", ".gitignore", ".idea", ".vscode", "##Attributes.ini", ".log"]

  /** True as soon as one entry of `names`, tried in order, occurs in `file`. */
  function ExcludedBy(names: seq<string>, file: string): (r: bool)
    ensures r <==> exists k :: 0 <= k < |names| && Contains(file, names[k])
    ensures |names| == 0 ==> !r
    decreases |names|
  {
    if |names| == 0 then
      false
    else if Contains(file, names[0]) then
      true
    else
      var r := ExcludedBy(names[1..], file);
      assert forall k :: 1 <= k < |names| ==> names[k] == names[1..][k - 1];
      r
  }

  /** `exclude_file`: the built-in list applied to one path. */
  predicate ExcludeFile(file: string) {
    ExcludedBy(ExcludedNames, file)
  }

  /** The `.gitignore` entry of the list never changes the verdict: every path
      containing it also contains `.git`. */
  lemma {:induction false} GitignoreEntryRedundant(file: string)
    ensures ExcludeFile(file) <==> ExcludedBy([".DS_Store", ".git", ".idea", ".vscode", "##Attributes.ini", ".log"], file)
  {
    var names := [".DS_Store", ".git", ".idea", ".vscode", "##Attributes.ini", ".log"];
    if Contains(file, ".gitignore") {
      var i :| OccursAt(file, ".gitignore", i);
      assert file[i..i + 4] == file[i..i + 10][..4] == ".git";
      assert OccursAt(file, ".git", i);
      assert Contains(file, names[1]);
    }
    assert forall k :: 0 <= k < |names| ==> names[k] in ExcludedNames;
    assert ExcludedNames[0] == names[0] && ExcludedNames[1] == names[1];
    assert ExcludedNames[3] == names[2] && ExcludedNames[4] == names[3];
    assert ExcludedNames[5] == names[4] && ExcludedNames[6] == names[5];
  }

  /** One callback invocation of the walk: a visited entry with its
      is-directory flag, or an error reported for a path (missing root,
      unreadable directory). */
  datatype WalkEntry = Visit(path: string, isDir: bool) | WalkError(path: string)

  /** Index of the first error entry, or the length when there is none. */
  function FirstError(walk: seq<WalkEntry>): (n: nat)
    ensures n <= |walk|
    ensures forall i :: 0 <= i < n ==> walk[i].Visit?
    ensures n < |walk| ==> walk[n].WalkError?
    decreases |walk|
  {
    if |walk| == 0 || walk[0].WalkError? then 0 else 1 + FirstError(walk[1..])
  }

  /** What the walk callback leaves behind: the paths it appended, in visit
      order, and whether the walk stopped on an error. */
  datatype Walked = Walked(paths: seq<string>, failed: bool)

  /** A visit of a non-directory whose path the exclusion test `drop` keeps. */
  predicate Picks(drop: string -> bool, e: WalkEntry) {
    e.Visit? && !e.isDir && !drop(e.path)
  }

  /** The paths of the kept file visits among `es`, one per visit, in visit
      order (built from the last entry back). */
  function VisitedFiles(drop: string -> bool, es: seq<WalkEntry>): seq<string>
    decreases |es|
  {
    if |es| == 0 then []
    else VisitedFiles(drop, es[..|es| - 1]) + (if Picks(drop, es[|es| - 1]) then [es[|es| - 1].path] else [])
  }

  /** `VisitedFiles` read from the first entry on. */
  lemma {:induction false} VisitedFilesCons(drop: string -> bool, e: WalkEntry, es: seq<WalkEntry>)
    ensures VisitedFiles(drop, [e] + es) == (if Picks(drop, e) then [e.path] else []) + VisitedFiles(drop, es)
    decreases |es|
  {
    var all := [e] + es;
    if |es| == 0 {
      assert all[..0] == [];
    } else {
      var n := |es| - 1;
      VisitedFilesCons(drop, e, es[..n]);
      assert all[..|all| - 1] == [e] + es[..n];
      assert all[|all| - 1] == es[n];
    }
  }

  /** Before the first error, a walk that starts with a visit contributes
      that visit's path, if kept, ahead of the rest. */
  lemma {:induction false} VisitedFilesStep(drop: string -> bool, walk: seq<WalkEntry>)
    requires |walk| > 0 && walk[0].Visit?
    ensures VisitedFiles(drop, walk[..FirstError(walk)])
         == (if Picks(drop, walk[0]) then [walk[0].path] else []) + VisitedFiles(drop, walk[1..][..FirstError(walk[1..])])
  {
    assert walk[..FirstError(walk)] == [walk[0]] + walk[1..][..FirstError(walk[1..])];
    VisitedFilesCons(drop, walk[0], walk[1..][..FirstError(walk[1..])]);
  }

  /** The callback of `search_all_files`: an error stops the walk; otherwise a
      non-directory path is appended unless the exclusion test `drop` holds
      for it. The result is exactly the kept file visits before the first
      error, in visit order, each appended once. */
  function Collect(drop: string -> bool, walk: seq<WalkEntry>): (w: Walked)
    ensures w.failed <==> FirstError(walk) < |walk|
    ensures w.paths == VisitedFiles(drop, walk[..FirstError(walk)])
    ensures forall x :: x in w.paths <==>
              exists i :: 0 <= i < FirstError(walk) && walk[i] == Visit(x, false) && !drop(x)
    ensures |w.paths| <= FirstError(walk)
    decreases |walk|
  {
    if |walk| == 0 then
      Walked([], false)
    else
      match walk[0]
      case WalkError(_) =>
        assert walk[..0] == [];
        Walked([], true)
      case Visit(p, d) =>
        var rest := Collect(drop, walk[1..]);
        assert forall i :: 1 <= i < |walk| ==> walk[i] == walk[1..][i - 1];
        VisitedFilesStep(drop, walk);
        if !d && !drop(p) then Walked([p] + rest.paths, rest.failed) else rest
  }

  /** The walk stops early exactly when it reports some error. */
  lemma {:induction false} ErrorBeforeEnd(walk: seq<WalkEntry>)
    ensures FirstError(walk) < |walk| <==> exists i :: 0 <= i < |walk| && walk[i].WalkError?
  {
  }

  /** A rearrangement of `a + b` holds exactly the elements of `a` and `b`. */
  lemma {:induction false} SameMembers(r: seq<string>, a: seq<string>, b: seq<string>)
    requires multiset(r) == multiset(a + b)
    ensures forall x :: x in r <==> x in a || x in b
  {
    assert forall x :: x in r <==> x in multiset(r);
    assert forall x :: x in multiset(a + b) <==> x in a || x in b;
  }

  /** `search_all_files`: the walk's paths appended to the accumulator `acc`
      (the caller's `Paths` value), then the whole list sorted. The error flag
      is returned alongside; the list is sorted even when the walk failed. */
  function SearchAllFiles(acc: seq<string>, walk: seq<WalkEntry>): (w: Walked)
    ensures Sorted(w.paths)
    ensures multiset(w.paths) == multiset(acc) + multiset(VisitedFiles(ExcludeFile, walk[..FirstError(walk)]))
    ensures w.failed <==> exists i :: 0 <= i < |walk| && walk[i].WalkError?
    ensures forall x :: x in w.paths <==>
              x in acc || exists i :: 0 <= i < FirstError(walk) && walk[i] == Visit(x, false) && !ExcludeFile(x)
  {
    var c := Collect(ExcludeFile, walk);
    var sorted := SortStrings(acc + c.paths);
    ErrorBeforeEnd(walk);
    SameMembers(sorted, acc, c.paths);
    Walked(sorted, c.failed)
  }

  /** With a fresh accumulator, every collected path was visited as a file
      before any error and contains none of the excluded names. */
  lemma {:induction false} FreshSearchKeepsOnlyFiles(walk: seq<WalkEntry>, x: string)
    requires x in SearchAllFiles([], walk).paths
    ensures !ExcludeFile(x)
    ensures forall k :: 0 <= k < |ExcludedNames| ==> !Contains(x, ExcludedNames[k])
    ensures exists i :: 0 <= i < |walk| && walk[i] == Visit(x, false)
  {
  }

  /** A walk that reports only directories and excluded files yields no paths. */
  lemma {:induction false} OnlyExcludedYieldsNothing(walk: seq<WalkEntry>)
    requires forall i :: 0 <= i < |walk| ==> walk[i].Visit? && (walk[i].isDir || ExcludeFile(walk[i].path))
    ensures SearchAllFiles([], walk) == Walked([], false)
  {
    var w := SearchAllFiles([], walk);
    assert forall i :: 0 <= i < |w.paths| ==> w.paths[i] in w.paths;
  }
}
