/**
 * generate_resources.py: read a list of images to scale, line by line, and
 * produce one output image per line until a line is refused.
 */
module GenerateResources {
  import opened Wrappers
  import opened Text
  import opened ResourceLines

  /** One image to write: `input` scaled to fit `size` by `size` (left at its own size without one), saved as `output`. */
  datatype Job = Job(input: Path, size: Option<int>, output: Path)

  /**
   * What one line asks for, `dir` being the resources directory: two tokens
   * name the input and the output, three put a size between them.
   */
  function ParseLine(line: string, dir: string): (a: LineAction<Job>)
    ensures a.Skip? <==> Skipped(line)
    ensures a == Reject(WrongTokenCount) <==> !Skipped(line) && |Tokens(line)| != 2 && |Tokens(line)| != 3
    ensures a.Act? ==> |Tokens(line)| == 2 || |Tokens(line)| == 3
    ensures a.Act? ==>
              && a.item.input == Under(dir, Tokens(line)[0])
              && a.item.output == Under(dir, Tokens(line)[|Tokens(line)| - 1])
              && (a.item.size.None? <==> |Tokens(line)| == 2)
  {
    if Skipped(line) then Skip
    else
      var ts := Tokens(line);
      if |ts| == 2 then Act(Job(Under(dir, ts[0]), None, Under(dir, ts[1])))
      else if |ts| == 3 then
        match ParseInt(ts[1])
        case Some(n) => Act(Job(Under(dir, ts[0]), Some(n), Under(dir, ts[2])))
        case None => Reject(NotAnInteger(ts[1]))
      else Reject(WrongTokenCount)
  }

  /** The size shown once an image is written: `undefined`, or `{s}x{s}`. */
  function SizeLabel(size: Option<int>): string {
    match size
    case None => "undefined"
    case Some(s) => IntToString(s) + "x" + IntToString(s)
  }

  /**
   * The run over the whole list: the jobs of the lines before the first
   * refused one, in order, and that line's error.
   */
  function Generated(lines: seq<string>, dir: string): Run<Job>
    decreases |lines|
  {
    if lines == [] then Run([], None)
    else
      var n := |lines| - 1;
      var r := Generated(lines[..n], dir);
      if r.error.Some? then r
      else
        match ParseLine(lines[n], dir)
        case Skip => r
        case Act(j) => Run(r.done + [j], None)
        case Reject(f) => Run(r.done, Some(ErrorOf(f, n + 1)))
  }

  /** `generate_resources`: scale one image per line, in order, and stop at the first refused line. */
  method GenerateResources(lines: seq<string>, dir: string) returns (made: seq<Job>, error: Option<ListError>)
    ensures Run(made, error) == Generated(lines, dir)
  {
    made := [];
    error := None;
    for i := 0 to |lines|
      invariant Generated(lines[..i], dir) == Run(made, None)
    {
      GeneratedStep(lines, dir, i);
      match ParseLine(lines[i], dir)
      case Skip =>
      case Act(j) =>
        made := made + [j];
      case Reject(f) =>
        error := Some(ErrorOf(f, i + 1));
        GeneratedStaysStopped(lines, dir, i + 1);
        return;
    }
    assert lines[..|lines|] == lines;
  }

  lemma GeneratedStep(lines: seq<string>, dir: string, i: nat)
    requires i < |lines|
    ensures Generated(lines[..i + 1], dir) ==
      var r := Generated(lines[..i], dir);
      if r.error.Some? then r
      else
        match ParseLine(lines[i], dir)
        case Skip => r
        case Act(j) => Run(r.done + [j], None)
        case Reject(f) => Run(r.done, Some(ErrorOf(f, i + 1)))
  {
    assert lines[..i + 1][..i] == lines[..i];
  }

  /** Once a line is refused, the lines after it are never read. */
  lemma {:induction false} GeneratedStaysStopped(lines: seq<string>, dir: string, m: nat)
    requires m <= |lines| && Generated(lines[..m], dir).error.Some?
    ensures Generated(lines, dir) == Generated(lines[..m], dir)
    decreases |lines| - m
  {
    if m < |lines| {
      GeneratedStep(lines, dir, m);
      GeneratedStaysStopped(lines, dir, m + 1);
    } else {
      assert lines[..m] == lines;
    }
  }

  /** Every image is read from and written to the resources directory. */
  lemma {:induction false} GeneratedUnderDir(lines: seq<string>, dir: string)
    ensures forall j :: j in Generated(lines, dir).done ==> j.input.dir == dir && j.output.dir == dir
    decreases |lines|
  {
    if lines != [] {
      var n := |lines| - 1;
      GeneratedUnderDir(lines[..n], dir);
    }
  }

  // ------------------------------------------------------------------ reference

  /** The jobs of every line that asks for one, in list order, refused lines or not. */
  function Jobs(lines: seq<string>, dir: string): seq<Job>
    decreases |lines|
  {
    if lines == [] then [] else Items(ParseLine(lines[0], dir)) + Jobs(lines[1..], dir)
  }

  lemma {:induction false} JobsSnoc(lines: seq<string>, line: string, dir: string)
    ensures Jobs(lines + [line], dir) == Jobs(lines, dir) + Items(ParseLine(line, dir))
    decreases |lines|
  {
    if lines == [] {
      assert [] + [line] == [line];
    } else {
      assert (lines + [line])[1..] == lines[1..] + [line];
      JobsSnoc(lines[1..], line, dir);
      Assoc(Items(ParseLine(lines[0], dir)), Jobs(lines[1..], dir), Items(ParseLine(line, dir)));
    }
  }

  /** A list without a refused line yields the job of every line that asks for one. */
  lemma {:induction false} GeneratedClean(lines: seq<string>, dir: string)
    requires forall k :: 0 <= k < |lines| ==> !ParseLine(lines[k], dir).Reject?
    ensures Generated(lines, dir) == Run(Jobs(lines, dir), None)
    decreases |lines|
  {
    if lines != [] {
      var n := |lines| - 1;
      var pre := lines[..n];
      assert forall k :: 0 <= k < n ==> pre[k] == lines[k];
      GeneratedClean(pre, dir);
      FrontAndLast(lines);
      GeneratedSnoc(pre, lines[n], dir);
      JobsSnoc(pre, lines[n], dir);
    }
  }

  lemma GeneratedSnoc(pre: seq<string>, line: string, dir: string)
    requires Generated(pre, dir).error.None?
    ensures Generated(pre + [line], dir) ==
      var done := Generated(pre, dir).done;
      match ParseLine(line, dir)
      case Skip => Run(done, None)
      case Act(j) => Run(done + [j], None)
      case Reject(f) => Run(done, Some(ErrorOf(f, |pre| + 1)))
  {
    assert (pre + [line])[..|pre|] == pre;
  }

  /**
   * A list whose first refused line is line `k + 1` yields the jobs of the
   * lines before it, all of them made before the error, and that line's error.
   */
  lemma GeneratedStopsAt(lines: seq<string>, dir: string, k: nat)
    requires k < |lines| && ParseLine(lines[k], dir).Reject?
    requires forall i :: 0 <= i < k ==> !ParseLine(lines[i], dir).Reject?
    ensures Generated(lines, dir) == Run(Jobs(lines[..k], dir), Some(ErrorOf(ParseLine(lines[k], dir).fault, k + 1)))
  {
    assert forall i :: 0 <= i < k ==> lines[..k][i] == lines[i];
    GeneratedClean(lines[..k], dir);
    GeneratedStep(lines, dir, k);
    GeneratedStaysStopped(lines, dir, k + 1);
  }

  // ------------------------------------------------------------------ single lines

  /** `input output` asks for `input` copied at its own size to `output`. */
  lemma TwoTokenLine(input: string, output: string, dir: string)
    requires input != [] && NoSpace(input) && input[0] != '#'
    requires output != [] && NoSpace(output)
    ensures ParseLine(input + " " + output, dir) == Act(Job(Under(dir, input), None, Under(dir, output)))
  {
    var ws := [input, output];
    assert Join(ws, " ") == input + " " + output;
    TokensOfJoin(ws);
  }

  /** `input size output` asks for `input` scaled to `size` and saved to `output`. */
  lemma ThreeTokenLine(input: string, size: int, output: string, dir: string)
    requires input != [] && NoSpace(input) && input[0] != '#'
    requires output != [] && NoSpace(output)
    ensures ParseLine(input + " " + IntToString(size) + " " + output, dir) == Act(Job(Under(dir, input), Some(size), Under(dir, output)))
  {
    var s := IntToString(size);
    var ws := [input, s, output];
    assert NoSpace(s) by {
      forall k | 0 <= k < |s| ensures !IsSpace(s[k]) {
        assert IsDigit(s[k]) || s[k] == '-';
      }
    }
    assert Join(ws[1..], " ") == s + " " + output;
    assert Join(ws, " ") == input + " " + (s + " " + output);
    Assoc(input + " ", s + " ", output);
    Assoc(input + " ", s, " ");
    TokensOfJoin(ws);
    ParseIntOfIntToString(size);
  }

  /** A line with one token, or with more than three, is refused as invalid, naming its number. */
  lemma WrongCountRefused(lines: seq<string>, dir: string, k: nat)
    requires k < |lines| && !Skipped(lines[k])
    requires |Tokens(lines[k])| != 2 && |Tokens(lines[k])| != 3
    requires forall i :: 0 <= i < k ==> !ParseLine(lines[i], dir).Reject?
    ensures Generated(lines, dir).error == Some(InvalidLine(k + 1))
  {
    GeneratedStopsAt(lines, dir, k);
  }

  /** The size label gives the size back: both sides of the `x` read as it. */
  lemma SizeLabelReadsBack(size: int)
    ensures SplitOn(SizeLabel(Some(size)), 'x') == [IntToString(size), IntToString(size)]
    ensures ParseInt(IntToString(size)) == Some(size)
    ensures SizeLabel(Some(size)) != SizeLabel(None)
  {
    var s := IntToString(size);
    assert 'x' !in s by {
      forall k | 0 <= k < |s| ensures s[k] != 'x' {
        assert IsDigit(s[k]) || s[k] == '-';
      }
    }
    assert Join([s, s], "x") == s + "x" + s;
    SplitOnOfJoin([s, s], 'x');
    ParseIntOfIntToString(size);
    assert 'x' in SizeLabel(Some(size)) by {
      assert SizeLabel(Some(size))[|s|] == 'x';
    }
    assert 'x' !in "undefined";
  }
}
