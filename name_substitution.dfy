/**
 * The driver around the substitution engine: which files of a source tree
 * are candidates, what each per-file step reports back, how the two phases
 * (`.grd`/`.grdp` string files, then `.xtb` translation files) are chained,
 * and the one argument check that is not argparse's own.
 *
 * Walking the file system, reading and writing files, the worker pool and
 * the backup tarball are not part of this model: the directory listing and
 * the per-file outcomes are inputs.
 */
module NameSubstitution {
  import opened Wrappers
  import opened Text
  import opened Grit

  // ------------------------------------------------------------------ arguments

  /** The parsed command line, after argparse's own mutual-exclusion checks. */
  datatype Args = Args(sub: bool, unsub: bool, backupPath: Option<string>, dryRun: bool)

  /** `parse_args`' own check: undoing a substitution needs the backup tarball. */
  function CheckArgs(a: Args): (r: Result<Args, string>)
    ensures r.Failure? <==> a.unsub && a.backupPath.None?
    ensures r.Success? ==> r.value == a
  {
    if a.unsub && a.backupPath.None? then Failure("backup_path is missing, but unsub was specified")
    else Success(a)
  }

  // ------------------------------------------------------------------ candidate files

  /** Directory names that exclude every directory whose path contains one of them. */
  const IgnoreDirs: seq<string> := [".pc", "chromeos", "remoting", "ash", "android", "ios", "testdata"]

  /** A directory, as its `Path.parts`: the components of the walked path, the tree's own first. */
  type Dir = seq<string>

  /** `out in root.parents`: `dir` lies strictly below `tree/out`. */
  predicate BelowOut(tree: Dir, dir: Dir) {
    var out := tree + ["out"];
    |out| < |dir| && dir[..|out|] == out
  }

  /** `dir_name in root.parts` for some ignored name: the tree's own components count too. */
  predicate IgnoredDir(dir: Dir) {
    exists j :: 0 <= j < |IgnoreDirs| && IgnoreDirs[j] in dir
  }

  /** `filename.split('.')[-1].lower()`. */
  function Extension(filename: string): string {
    Lower(LastField(filename, '.'))
  }

  /** The decision `get_substitutable_files` makes for one file of one walked directory. */
  predicate Selected(tree: Dir, dir: Dir, filename: string, exts: seq<string>) {
    && !BelowOut(tree, dir)
    && !IgnoredDir(dir)
    && !StartsWith(filename, ".")
    && Extension(filename) in exts
  }

  /** One step of `os.walk`: a directory and the names of the files in it. */
  datatype WalkEntry = WalkEntry(dir: Dir, files: seq<string>)

  /** A candidate file: its directory and its name. */
  datatype FilePath = FilePath(dir: Dir, name: string)

  /** The selected files of one directory, in listing order. */
  function SelectedIn(tree: Dir, e: WalkEntry, exts: seq<string>, n: nat): seq<FilePath>
    requires n <= |e.files|
  {
    if n == 0 then []
    else
      var prior := SelectedIn(tree, e, exts, n - 1);
      if Selected(tree, e.dir, e.files[n - 1], exts) then prior + [FilePath(e.dir, e.files[n - 1])] else prior
  }

  /** The selected files of the walk, directory by directory, in walk order. */
  function SelectedFiles(tree: Dir, walk: seq<WalkEntry>, exts: seq<string>): seq<FilePath>
    decreases |walk|
  {
    if walk == [] then []
    else
      var e := walk[|walk| - 1];
      SelectedFiles(tree, walk[..|walk| - 1], exts) + SelectedIn(tree, e, exts, |e.files|)
  }

  /**
   * `get_substitutable_files` over a given walk: skip directories below
   * `tree/out` and directories with an ignored component, then keep the
   * files that are not hidden and whose extension is wanted.
   */
  method SubstitutableFiles(tree: Dir, walk: seq<WalkEntry>, exts: seq<string>) returns (files: seq<FilePath>)
    ensures files == SelectedFiles(tree, walk, exts)
  {
    var out := tree + ["out"];
    files := [];
    for w := 0 to |walk|
      invariant files == SelectedFiles(tree, walk[..w], exts)
    {
      assert walk[..w + 1][..w] == walk[..w];
      var root := walk[w].dir;
      if |out| < |root| && root[..|out|] == out {
        assert SelectedIn(tree, walk[w], exts, |walk[w].files|) == [] by {
          SkippedDirSelectsNothing(tree, walk[w], exts, |walk[w].files|);
        }
        continue;
      }
      var shouldIgnore := false;
      var k := 0;
      while k < |IgnoreDirs| && !shouldIgnore
        invariant 0 <= k <= |IgnoreDirs|
        invariant shouldIgnore <==> exists j :: 0 <= j < k && IgnoreDirs[j] in root
        invariant shouldIgnore ==> k > 0
      {
        if IgnoreDirs[k] in root {
          shouldIgnore := true;
        }
        k := k + 1;
      }
      assert shouldIgnore <==> IgnoredDir(root);
      if shouldIgnore {
        SkippedDirSelectsNothing(tree, walk[w], exts, |walk[w].files|);
        continue;
      }
      ghost var before := files;
      for f := 0 to |walk[w].files|
        invariant files == before + SelectedIn(tree, walk[w], exts, f)
      {
        var filename := walk[w].files[f];
        if StartsWith(filename, ".") {
          continue;
        }
        var ext := Lower(LastField(filename, '.'));
        if ext !in exts {
          continue;
        }
        files := files + [FilePath(root, filename)];
      }
    }
    assert walk[..|walk|] == walk;
  }

  lemma {:induction false} SkippedDirSelectsNothing(tree: Dir, e: WalkEntry, exts: seq<string>, n: nat)
    requires n <= |e.files|
    requires BelowOut(tree, e.dir) || IgnoredDir(e.dir)
    ensures SelectedIn(tree, e, exts, n) == []
  {
    if n > 0 {
      SkippedDirSelectsNothing(tree, e, exts, n - 1);
    }
  }

  /** A file of the walk is a candidate exactly when the per-file decision keeps it. */
  lemma {:induction false} SelectedFilesMembers(tree: Dir, walk: seq<WalkEntry>, exts: seq<string>, p: FilePath)
    ensures p in SelectedFiles(tree, walk, exts) <==>
            Selected(tree, p.dir, p.name, exts)
            && exists w :: 0 <= w < |walk| && walk[w].dir == p.dir && p.name in walk[w].files
    decreases |walk|
  {
    if walk != [] {
      var init := walk[..|walk| - 1];
      var e := walk[|walk| - 1];
      SelectedFilesMembers(tree, init, exts, p);
      SelectedInMembers(tree, e, exts, |e.files|, p);
      if exists w :: 0 <= w < |init| && init[w].dir == p.dir && p.name in init[w].files {
        var w :| 0 <= w < |init| && init[w].dir == p.dir && p.name in init[w].files;
        assert walk[w] == init[w];
      }
      if exists w :: 0 <= w < |walk| && walk[w].dir == p.dir && p.name in walk[w].files {
        var w :| 0 <= w < |walk| && walk[w].dir == p.dir && p.name in walk[w].files;
        if w < |init| {
          assert init[w] == walk[w];
        } else {
          var f :| 0 <= f < |e.files| && e.files[f] == p.name;
        }
      }
    }
  }

  lemma {:induction false} SelectedInMembers(tree: Dir, e: WalkEntry, exts: seq<string>, n: nat, p: FilePath)
    requires n <= |e.files|
    ensures p in SelectedIn(tree, e, exts, n) <==>
            p.dir == e.dir && Selected(tree, p.dir, p.name, exts) && p.name in e.files[..n]
  {
    if n > 0 {
      SelectedInMembers(tree, e, exts, n - 1, p);
      assert e.files[..n] == e.files[..n - 1] + [e.files[n - 1]];
    }
  }

  /** The extension is the lower-cased text after the last dot. */
  lemma ExtensionAfterDot(stem: string, ext: string)
    requires '.' !in ext
    ensures Extension(stem + "." + ext) == Lower(ext)
  {
    LastFieldAfter(stem, ext, '.');
    SplitOnWithout(ext, '.');
  }

  /** A name without a dot is its own extension: a file named `grd` is a candidate for `grd`. */
  lemma ExtensionWithoutDot(name: string)
    requires '.' !in name
    ensures Extension(name) == Lower(name)
  {
    SplitOnWithout(name, '.');
  }

  /**
   * Only directories strictly below `tree/out` are skipped: the files
   * directly in `tree/out` stay candidates, those one level further down do not.
   */
  lemma OutDirItselfNotSkipped(tree: Dir, sub: string)
    ensures !BelowOut(tree, tree + ["out"])
    ensures BelowOut(tree, tree + ["out", sub])
  {
    assert (tree + ["out", sub])[..|tree| + 1] == tree + ["out"];
  }

  /** An ignored name among the tree's own components excludes the whole tree. */
  lemma IgnoredAboveTree(tree: Dir, rel: seq<string>, name: string, exts: seq<string>)
    requires IgnoredDir(tree)
    ensures !Selected(tree, tree + rel, name, exts)
  {
    var j :| 0 <= j < |IgnoreDirs| && IgnoreDirs[j] in tree;
    var i :| 0 <= i < |tree| && tree[i] == IgnoreDirs[j];
    assert (tree + rel)[i] == IgnoreDirs[j];
  }

  // ------------------------------------------------------------------ per-file outcomes

  /** A backup entry: the file's path relative to the tree and its original content. */
  type Backup = (string, string)

  /** What `substitute_grit_file` returns for a modified file. */
  type GrdResult = (Option<Backup>, map<string, string>)

  /** What one per-file step returns, and what it writes back to the file (`None`: nothing). */
  datatype FileStep<R> = FileStep(result: Option<R>, written: Option<string>)

  /**
   * `substitute_grit_file` for a file with the given relative name, content
   * and parsed tree; `serialise` turns the rewritten tree back into text.
   * `None` where `replace_grit_tree` raises.
   */
  function SubstituteGritFile(arcname: string, text: string, root: Elem, genId: (string, string) -> string,
                              serialise: Elem -> string, saveOriginal: bool, dryRun: bool): (r: Option<FileStep<GrdResult>>)
    ensures r.None? <==> GritTreeOutcome(root, genId).None?
    ensures r.Some? ==> (r.value.result.Some? <==> GritTreeOutcome(root, genId).value.1 != map[])
    ensures r.Some? && r.value.result.Some? ==>
              && r.value.result.value.1 == GritTreeOutcome(root, genId).value.1
              && (r.value.result.value.0.Some? <==> saveOriginal)
              && (saveOriginal ==> r.value.result.value.0.value == (arcname, text))
    ensures r.Some? ==> (r.value.written.Some? <==> r.value.result.Some? && !dryRun)
  {
    match GritTreeOutcome(root, genId)
    case None => None
    case Some((tree, fpMap)) =>
      if fpMap == map[] then Some(FileStep(None, None))
      else
        var written := if dryRun then None else Some(serialise(tree));
        Some(FileStep(Some((if saveOriginal then Some((arcname, text)) else None, fpMap)), written))
  }

  /**
   * `substitute_xtb_file`, given what the translation rewriter returned for
   * the file (`None` for Python's `None`). The result is a one-element tuple
   * holding the optional backup.
   */
  function SubstituteXtbFile(arcname: string, text: string, replaced: Option<string>,
                             saveOriginal: bool, dryRun: bool): (r: FileStep<Option<Backup>>)
    ensures r.result.None? <==> !Truthy(replaced)
    ensures r.result.Some? ==> (r.result.value.Some? <==> saveOriginal)
    ensures r.result.Some? && saveOriginal ==> r.result.value.value == (arcname, text)
    ensures r.written.Some? <==> Truthy(replaced) && !dryRun
    ensures r.written.Some? ==> r.written == replaced
  {
    if !Truthy(replaced) then FileStep(None, None)
    else FileStep(Some(if saveOriginal then Some((arcname, text)) else None), if dryRun then None else replaced)
  }

  // ------------------------------------------------------------------ the two phases

  /** An entry of `modified_files`: a string-file result or a translation-file result. */
  datatype Modified = GrdModified(grd: GrdResult) | XtbModified(xtb: Option<Backup>)

  /** `[r for r in results if r is not None]` over string-file results. */
  function PresentGrd(results: seq<Option<GrdResult>>): (ms: seq<Modified>)
    ensures forall i :: 0 <= i < |ms| ==> ms[i].GrdModified?
    decreases |results|
  {
    if results == [] then []
    else
      var prior := PresentGrd(results[..|results| - 1]);
      match results[|results| - 1]
      case None => prior
      case Some(g) => prior + [GrdModified(g)]
  }

  /** `[r for r in results if r is not None]` over translation-file results. */
  function PresentXtb(results: seq<Option<Option<Backup>>>): (ms: seq<Modified>)
    ensures forall i :: 0 <= i < |ms| ==> ms[i].XtbModified?
    decreases |results|
  {
    if results == [] then []
    else
      var prior := PresentXtb(results[..|results| - 1]);
      match results[|results| - 1]
      case None => prior
      case Some(x) => prior + [XtbModified(x)]
  }

  /** The string-file results of `modified_files`, as the `Option`s `merge_fp_maps` receives. */
  function AsResults(ms: seq<Modified>): (rs: seq<Option<GrdResult>>)
    requires forall i :: 0 <= i < |ms| ==> ms[i].GrdModified?
    ensures |rs| == |ms|
  {
    seq(|ms|, i requires 0 <= i < |ms| => Some(ms[i].grd))
  }

  /** Some string-file step raised: `None` is `substitute_grit_file` raising. */
  predicate SomeStepRaised(steps: seq<Option<FileStep<GrdResult>>>) {
    exists i :: 0 <= i < |steps| && steps[i].None?
  }

  /** The values the string-file steps returned, when none of them raised. */
  function StepResults(steps: seq<Option<FileStep<GrdResult>>>): (rs: seq<Option<GrdResult>>)
    requires !SomeStepRaised(steps)
    ensures |rs| == |steps|
  {
    seq(|steps|, i requires 0 <= i < |steps| => steps[i].value.result)
  }

  /**
   * `do_substitution` once the per-file work is done: `grdSteps` are the
   * string-file steps in candidate order (`None` where the step raised), and
   * `xtbPhase` gives the translation-file outcomes for the fingerprint map
   * handed to that phase. A raising step is re-raised when the list of
   * modified files reaches it, so the run stops before the merge, the
   * translation phase and the backup: the result is then `None`.
   */
  method DoSubstitution(grdSteps: seq<Option<FileStep<GrdResult>>>,
                        xtbPhase: map<string, string> -> seq<Option<Option<Backup>>>)
    returns (r: Option<(seq<Modified>, map<string, string>)>)
    ensures r.None? <==> SomeStepRaised(grdSteps)
    ensures r.Some? ==> r.value.1 == MergedMaps(StepResults(grdSteps))
    ensures r.Some? ==> r.value.0 == PresentGrd(StepResults(grdSteps)) + PresentXtb(xtbPhase(r.value.1))
  {
    var modified := [];
    for i := 0 to |grdSteps|
      invariant !SomeStepRaised(grdSteps[..i])
      invariant modified == PresentGrd(StepResults(grdSteps[..i]))
    {
      if grdSteps[i].None? {
        r := None;
        return;
      }
      assert StepResults(grdSteps[..i + 1])[..i] == StepResults(grdSteps[..i]);
      var result := grdSteps[i].value.result;
      if result.Some? {
        modified := modified + [GrdModified(result.value)];
      }
    }
    assert grdSteps[..|grdSteps|] == grdSteps;
    var results := StepResults(grdSteps);
    var fpMap := MergeFpMaps(AsResults(modified));
    MergedMapsOfPresent(results);
    var xtbResults := xtbPhase(fpMap);
    ghost var grdPart := modified;
    for i := 0 to |xtbResults|
      invariant modified == grdPart + PresentXtb(xtbResults[..i])
    {
      assert xtbResults[..i + 1][..i] == xtbResults[..i];
      if xtbResults[i].Some? {
        modified := modified + [XtbModified(xtbResults[i].value)];
      }
    }
    assert xtbResults[..|xtbResults|] == xtbResults;
    r := Some((modified, fpMap));
  }

  /** Dropping the `None` results first does not change the merged map. */
  lemma {:induction false} MergedMapsOfPresent(results: seq<Option<GrdResult>>)
    ensures MergedMaps(AsResults(PresentGrd(results))) == MergedMaps(results)
    decreases |results|
  {
    if results != [] {
      var init := results[..|results| - 1];
      MergedMapsOfPresent(init);
      var p := PresentGrd(init);
      match results[|results| - 1]
      case None =>
      case Some(g) =>
        var q := AsResults(p + [GrdModified(g)]);
        assert q[..|q| - 1] == AsResults(p);
    }
  }

  /** The indices of the present results, in increasing order. */
  function PresentIndices<R>(results: seq<Option<R>>): seq<nat>
    decreases |results|
  {
    if results == [] then []
    else
      var n := |results| - 1;
      PresentIndices(results[..n]) + if results[n].Some? then [n] else []
  }

  /**
   * Entry `j` of `modified_files` is the present result at the `j`-th present
   * index; those indices increase and include every present result, so each
   * present result is kept exactly once, in order.
   */
  lemma {:induction false} PresentGrdInOrder(results: seq<Option<GrdResult>>)
    ensures var idx := PresentIndices(results);
      && |idx| == |PresentGrd(results)|
      && (forall j :: 0 <= j < |idx| ==>
            idx[j] < |results| && results[idx[j]].Some? && PresentGrd(results)[j] == GrdModified(results[idx[j]].value))
      && (forall j, k :: 0 <= j < k < |idx| ==> idx[j] < idx[k])
      && (forall i :: 0 <= i < |results| && results[i].Some? ==> i in idx)
    decreases |results|
  {
    if results != [] {
      var n := |results| - 1;
      var init := results[..n];
      PresentGrdInOrder(init);
      var pre := PresentIndices(init);
      assert forall j :: 0 <= j < |pre| ==> pre[j] < n && results[pre[j]] == init[pre[j]];
    }
  }

  /** `modified_files` gets one entry per present string-file result; `PresentGrdInOrder` says which, and in what order. */
  lemma {:induction false} PresentGrdCount(results: seq<Option<GrdResult>>)
    ensures |PresentGrd(results)| == |set i | 0 <= i < |results| && results[i].Some?|
    decreases |results|
  {
    if results != [] {
      var n := |results| - 1;
      var init := results[..n];
      PresentGrdCount(init);
      var before := set i | 0 <= i < n && init[i].Some?;
      var after := set i | 0 <= i < |results| && results[i].Some?;
      assert before == set i | 0 <= i < n && results[i].Some?;
      if results[n].Some? {
        assert after == before + {n};
      } else {
        assert after == before;
      }
    }
  }
}
