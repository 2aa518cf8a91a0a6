/**
 * replace_resources.py: read a list of files to copy into the Chromium
 * tree, line by line, and copy one file per line until a line is refused.
 */
module ReplaceResources {
  import opened Wrappers
  import opened Text
  import opened ResourceLines

  /** One file to copy from `source` to `dest`. */
  datatype Copy = Copy(source: Path, dest: Path)

  /** What one line asks for: exactly two tokens, the file under `resourceDir` and where it goes under `chromiumDir`. */
  function ParseLine(line: string, resourceDir: string, chromiumDir: string): (a: LineAction<Copy>)
    ensures a.Skip? <==> Skipped(line)
    ensures a.Reject? <==> !Skipped(line) && |Tokens(line)| != 2
    ensures a.Reject? ==> a.fault == WrongTokenCount
  {
    if Skipped(line) then Skip
    else
      var ts := Tokens(line);
      if |ts| != 2 then Reject(WrongTokenCount)
      else Act(Copy(Under(resourceDir, ts[0]), Under(chromiumDir, ts[1])))
  }

  /**
   * The run over the whole list: the copies of the lines before the first
   * refused one, in order, and that line's error.
   */
  function Copied(lines: seq<string>, resourceDir: string, chromiumDir: string): Run<Copy>
    decreases |lines|
  {
    if lines == [] then Run([], None)
    else
      var n := |lines| - 1;
      var r := Copied(lines[..n], resourceDir, chromiumDir);
      if r.error.Some? then r
      else
        match ParseLine(lines[n], resourceDir, chromiumDir)
        case Skip => r
        case Act(c) => Run(r.done + [c], None)
        case Reject(f) => Run(r.done, Some(ErrorOf(f, n + 1)))
  }

  /** `copy_resources`: copy one file per line, in order, and stop at the first refused line. */
  method CopyResources(lines: seq<string>, resourceDir: string, chromiumDir: string)
    returns (copies: seq<Copy>, error: Option<ListError>)
    ensures Run(copies, error) == Copied(lines, resourceDir, chromiumDir)
  {
    copies := [];
    error := None;
    for i := 0 to |lines|
      invariant Copied(lines[..i], resourceDir, chromiumDir) == Run(copies, None)
    {
      CopiedStep(lines, resourceDir, chromiumDir, i);
      match ParseLine(lines[i], resourceDir, chromiumDir)
      case Skip =>
      case Act(c) =>
        copies := copies + [c];
      case Reject(f) =>
        error := Some(ErrorOf(f, i + 1));
        CopiedStaysStopped(lines, resourceDir, chromiumDir, i + 1);
        return;
    }
    assert lines[..|lines|] == lines;
  }

  lemma CopiedStep(lines: seq<string>, resourceDir: string, chromiumDir: string, i: nat)
    requires i < |lines|
    ensures Copied(lines[..i + 1], resourceDir, chromiumDir) ==
      var r := Copied(lines[..i], resourceDir, chromiumDir);
      if r.error.Some? then r
      else
        match ParseLine(lines[i], resourceDir, chromiumDir)
        case Skip => r
        case Act(c) => Run(r.done + [c], None)
        case Reject(f) => Run(r.done, Some(ErrorOf(f, i + 1)))
  {
    assert lines[..i + 1][..i] == lines[..i];
  }

  /** Once a line is refused, the lines after it are never read. */
  lemma {:induction false} CopiedStaysStopped(lines: seq<string>, resourceDir: string, chromiumDir: string, m: nat)
    requires m <= |lines| && Copied(lines[..m], resourceDir, chromiumDir).error.Some?
    ensures Copied(lines, resourceDir, chromiumDir) == Copied(lines[..m], resourceDir, chromiumDir)
    decreases |lines| - m
  {
    if m < |lines| {
      CopiedStep(lines, resourceDir, chromiumDir, m);
      CopiedStaysStopped(lines, resourceDir, chromiumDir, m + 1);
    } else {
      assert lines[..m] == lines;
    }
  }

  /** Every copy reads from the resources directory and writes into the Chromium tree. */
  lemma {:induction false} CopiedIntoTree(lines: seq<string>, resourceDir: string, chromiumDir: string)
    ensures forall c :: c in Copied(lines, resourceDir, chromiumDir).done ==>
              c.source.dir == resourceDir && c.dest.dir == chromiumDir
    decreases |lines|
  {
    if lines != [] {
      var n := |lines| - 1;
      CopiedIntoTree(lines[..n], resourceDir, chromiumDir);
    }
  }

  /** The only error a list can raise is an invalid line. */
  lemma {:induction false} CopiedErrorIsLine(lines: seq<string>, resourceDir: string, chromiumDir: string)
    ensures Copied(lines, resourceDir, chromiumDir).error.Some? ==>
              Copied(lines, resourceDir, chromiumDir).error.value.InvalidLine?
    decreases |lines|
  {
    if lines != [] {
      var n := |lines| - 1;
      CopiedErrorIsLine(lines[..n], resourceDir, chromiumDir);
    }
  }

  // ------------------------------------------------------------------ reference

  /** The copies of every line that asks for one, in list order, refused lines or not. */
  function Copies(lines: seq<string>, resourceDir: string, chromiumDir: string): seq<Copy>
    decreases |lines|
  {
    if lines == [] then []
    else Items(ParseLine(lines[0], resourceDir, chromiumDir)) + Copies(lines[1..], resourceDir, chromiumDir)
  }

  lemma {:induction false} CopiesSnoc(lines: seq<string>, line: string, resourceDir: string, chromiumDir: string)
    ensures Copies(lines + [line], resourceDir, chromiumDir) ==
            Copies(lines, resourceDir, chromiumDir) + Items(ParseLine(line, resourceDir, chromiumDir))
    decreases |lines|
  {
    if lines == [] {
      assert [] + [line] == [line];
    } else {
      assert (lines + [line])[1..] == lines[1..] + [line];
      CopiesSnoc(lines[1..], line, resourceDir, chromiumDir);
      Assoc(Items(ParseLine(lines[0], resourceDir, chromiumDir)), Copies(lines[1..], resourceDir, chromiumDir),
            Items(ParseLine(line, resourceDir, chromiumDir)));
    }
  }

  lemma CopiedSnoc(pre: seq<string>, line: string, resourceDir: string, chromiumDir: string)
    requires Copied(pre, resourceDir, chromiumDir).error.None?
    ensures Copied(pre + [line], resourceDir, chromiumDir) ==
      var done := Copied(pre, resourceDir, chromiumDir).done;
      match ParseLine(line, resourceDir, chromiumDir)
      case Skip => Run(done, None)
      case Act(c) => Run(done + [c], None)
      case Reject(f) => Run(done, Some(ErrorOf(f, |pre| + 1)))
  {
    assert (pre + [line])[..|pre|] == pre;
  }

  /** A list without a refused line yields the copy of every line that asks for one. */
  lemma {:induction false} CopiedClean(lines: seq<string>, resourceDir: string, chromiumDir: string)
    requires forall k :: 0 <= k < |lines| ==> !ParseLine(lines[k], resourceDir, chromiumDir).Reject?
    ensures Copied(lines, resourceDir, chromiumDir) == Run(Copies(lines, resourceDir, chromiumDir), None)
    decreases |lines|
  {
    if lines != [] {
      var n := |lines| - 1;
      var pre := lines[..n];
      assert forall k :: 0 <= k < n ==> pre[k] == lines[k];
      CopiedClean(pre, resourceDir, chromiumDir);
      FrontAndLast(lines);
      CopiedSnoc(pre, lines[n], resourceDir, chromiumDir);
      CopiesSnoc(pre, lines[n], resourceDir, chromiumDir);
    }
  }

  /**
   * A list whose first refused line is line `k + 1` yields the copies of the
   * lines before it, all made before the error, and an error naming line `k + 1`.
   */
  lemma CopiedStopsAt(lines: seq<string>, resourceDir: string, chromiumDir: string, k: nat)
    requires k < |lines| && ParseLine(lines[k], resourceDir, chromiumDir).Reject?
    requires forall i :: 0 <= i < k ==> !ParseLine(lines[i], resourceDir, chromiumDir).Reject?
    ensures Copied(lines, resourceDir, chromiumDir) == Run(Copies(lines[..k], resourceDir, chromiumDir), Some(InvalidLine(k + 1)))
  {
    assert forall i :: 0 <= i < k ==> lines[..k][i] == lines[i];
    CopiedClean(lines[..k], resourceDir, chromiumDir);
    CopiedStep(lines, resourceDir, chromiumDir, k);
    CopiedStaysStopped(lines, resourceDir, chromiumDir, k + 1);
  }

  // ------------------------------------------------------------------ single lines

  /** `source dest` asks for `resourceDir/source` to be copied to `chromiumDir/dest`. */
  lemma TwoTokenLine(source: string, dest: string, resourceDir: string, chromiumDir: string)
    requires source != [] && NoSpace(source) && source[0] != '#'
    requires dest != [] && NoSpace(dest)
    ensures ParseLine(source + " " + dest, resourceDir, chromiumDir) == Act(Copy(Under(resourceDir, source), Under(chromiumDir, dest)))
  {
    var ws := [source, dest];
    assert Join(ws, " ") == source + " " + dest;
    TokensOfJoin(ws);
  }
}
