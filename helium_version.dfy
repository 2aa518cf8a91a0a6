/**
 * Helium's version number: each part is read from the first dotted field
 * of a file in the source tree, the minor part counts Chromium major
 * versions since 136, and the parts are either printed joined with dots or
 * appended as `NAME=value` lines to Chromium's VERSION file, which must not
 * already carry them.
 *
 * File contents are inputs; opening, reading and appending to files, the
 * command line and `print` are not part of this model.
 */
module HeliumVersion {
  import opened Wrappers
  import opened Text

  /** The Chromium major version that Helium's minor version counts from. */
  const ChromeVersionBase: int := 136

  const Major: string := "HELIUM_MAJOR"
  const Minor: string := "HELIUM_MINOR"
  const Patch: string := "HELIUM_PATCH"
  const Platform: string := "HELIUM_PLATFORM"

  // ------------------------------------------------------------------ reading one part

  /** `file.readline()`: the text up to and including the first newline, or all of it. */
  function ReadLine(s: string): string
    decreases |s|
  {
    if s == [] then []
    else if s[0] == '\n' then "\n"
    else [s[0]] + ReadLine(s[1..])
  }

  /** The line read is a prefix with no newline before its last character, and it ends at a newline unless it is all of `s`. */
  lemma {:induction false} ReadLineSpec(s: string)
    ensures var r := ReadLine(s);
      && |r| <= |s| && r == s[..|r|]
      && (forall k :: 0 <= k < |r| - 1 ==> r[k] != '\n')
      && (|r| == |s| || (r != [] && r[|r| - 1] == '\n'))
    decreases |s|
  {
    if s != [] && s[0] != '\n' {
      ReadLineSpec(s[1..]);
      var r := ReadLine(s);
      assert forall k :: 1 <= k < |r| ==> r[k] == ReadLine(s[1..])[k - 1];
    }
  }

  /** `get_version_part`: `int()` of the stripped text before the first `.` of the first line; `None` where `int()` raises. */
  function VersionPart(content: string): Option<int> {
    ParseInt(Strip(FirstField(ReadLine(content), '.')))
  }

  lemma {:induction false} ReadLineOfPrefix(a: string, rest: string)
    requires '\n' !in a
    ensures ReadLine(a + rest) == a + ReadLine(rest)
    decreases |a|
  {
    if a != [] {
      assert (a + rest)[0] == a[0];
      assert (a + rest)[1..] == a[1..] + rest;
      ReadLineOfPrefix(a[1..], rest);
    } else {
      assert a + rest == rest;
    }
  }

  lemma IntToStringPlain(n: int)
    ensures '\n' !in IntToString(n) && '.' !in IntToString(n)
    ensures !IsSpace(IntToString(n)[0]) && !IsSpace(IntToString(n)[|IntToString(n)| - 1])
  {
    var s := IntToString(n);
    assert '\n' !in s && '.' !in s by {
      forall k | 0 <= k < |s| ensures s[k] != '\n' && s[k] != '.' {
        assert IsDigit(s[k]) || s[k] == '-';
      }
    }
    assert IsDigit(s[0]) || s[0] == '-';
    assert IsDigit(s[|s| - 1]) || s[|s| - 1] == '-';
  }

  /** A file starting with a dotted version yields its first number: `137.0.7151.68` gives 137. */
  lemma VersionPartOfDotted(n: int, rest: string)
    ensures VersionPart(IntToString(n) + "." + rest) == Some(n)
  {
    var w := IntToString(n);
    IntToStringPlain(n);
    assert w + "." + rest == w + ("." + rest);
    ReadLineOfPrefix(w, "." + rest);
    assert ReadLine("." + rest) == "." + ReadLine(rest) by {
      assert ("." + rest)[1..] == rest;
    }
    assert w + ("." + ReadLine(rest)) == w + ("." + ReadLine(rest));
    SplitOnPrefix(w, "." + ReadLine(rest), '.');
    assert SplitOn("." + ReadLine(rest), '.')[0] == "" by {
      assert ("." + ReadLine(rest))[1..] == ReadLine(rest);
    }
    assert w + "" == w;
    StripOfTrimmed(w);
    ParseIntOfIntToString(n);
  }

  /** A file whose first line is a bare number yields it; the newline is stripped: `42\n` gives 42. */
  lemma VersionPartOfLine(n: int, rest: string)
    ensures VersionPart(IntToString(n) + "\n" + rest) == Some(n)
  {
    var w := IntToString(n);
    IntToStringPlain(n);
    assert w + "\n" + rest == w + ("\n" + rest);
    ReadLineOfPrefix(w, "\n" + rest);
    assert ReadLine(w + ("\n" + rest)) == w + "\n";
    assert '.' !in w + "\n";
    SplitOnWithout(w + "\n", '.');
    assert IsSpace("\n"[0]);
    LStripSpaces([], w + "\n");
    assert [] + (w + "\n") == w + "\n";
    RStripSpaces(w, "\n");
    ParseIntOfIntToString(n);
  }

  // ------------------------------------------------------------------ the parts

  /** The three version files of the Helium tree, by content. */
  datatype VersionFiles = VersionFiles(version: string, chromiumVersion: string, revision: string)

  /** One entry of `version_paths`: a part's name and the content of its file. */
  datatype Source = Source(name: string, content: string)

  /** One entry of `version_parts`: a part's name and its decimal value. */
  datatype Part = Part(name: string, value: string)

  /** `version_paths` in insertion order; the platform part comes last and only when a platform tree is given. */
  function Sources(files: VersionFiles, platformRevision: Option<string>): (ss: seq<Source>)
    ensures |ss| == if platformRevision.Some? then 4 else 3
  {
    [Source(Major, files.version), Source(Minor, files.chromiumVersion), Source(Patch, files.revision)]
    + (if platformRevision.Some? then [Source(Platform, platformRevision.value)] else [])
  }

  /** The amount added to a part: only the minor part is shifted. */
  function Delta(name: string): int {
    if name != Minor then 0 else -ChromeVersionBase
  }

  /** The number each source's file yields, in source order. */
  function Parsed(ss: seq<Source>): (vs: seq<Option<int>>)
    ensures |vs| == |ss|
  {
    seq(|ss|, i requires 0 <= i < |ss| => VersionPart(ss[i].content))
  }

  /** The part named `name` for the number `v` read from its file: shifted by the name's delta and printed. */
  function PartOf(name: string, v: int): Part {
    Part(name, IntToString(v + Delta(name)))
  }

  /** The parts for the given names and parsed numbers, in order; `None` once a number is missing. */
  function Assemble(names: seq<string>, vals: seq<Option<int>>): Option<seq<Part>>
    requires |names| == |vals|
    decreases |names|
  {
    if names == [] then Some([])
    else
      var n := |names| - 1;
      match (Assemble(names[..n], vals[..n]), vals[n])
      case (Some(ps), Some(v)) => Some(ps + [PartOf(names[n], v)])
      case _ => None
  }

  function Names(ss: seq<Source>): (ns: seq<string>)
    ensures |ns| == |ss|
  {
    seq(|ss|, i requires 0 <= i < |ss| => ss[i].name)
  }

  /** The parts in source order; `None` where a file does not parse. */
  function PartsOf(ss: seq<Source>): Option<seq<Part>> {
    Assemble(Names(ss), Parsed(ss))
  }

  /** `get_version_parts`: read each part's file in order and shift the minor part. */
  method GetVersionParts(files: VersionFiles, platformRevision: Option<string>) returns (r: Option<seq<Part>>)
    ensures r == PartsOf(Sources(files, platformRevision))
  {
    r := ReadParts(Sources(files, platformRevision));
  }

  /** The loop of `get_version_parts` over `version_paths`. */
  method ReadParts(sources: seq<Source>) returns (r: Option<seq<Part>>)
    ensures r == PartsOf(sources)
  {
    ghost var names := Names(sources);
    ghost var vals := Parsed(sources);
    var parts: seq<Part> := [];
    for i := 0 to |sources|
      invariant Assemble(names[..i], vals[..i]) == Some(parts)
    {
      var name := sources[i].name;
      var v := VersionPart(sources[i].content);
      assert v == vals[i] && name == names[i];
      if v.None? {
        AssembleFailsAt(names, vals, i);
        return None;
      }
      AssembleExtends(names, vals, i, parts, v.value);
      parts := parts + [PartOf(name, v.value)];
    }
    assert names[..|names|] == names && vals[..|vals|] == vals;
    r := Some(parts);
  }

  lemma AssembleExtends(names: seq<string>, vals: seq<Option<int>>, i: nat, parts: seq<Part>, v: int)
    requires |names| == |vals| && i < |names|
    requires Assemble(names[..i], vals[..i]) == Some(parts) && vals[i] == Some(v)
    ensures Assemble(names[..i + 1], vals[..i + 1]) == Some(parts + [PartOf(names[i], v)])
  {
    AssembleStep(names, vals, i);
  }

  lemma AssembleFailsAt(names: seq<string>, vals: seq<Option<int>>, i: nat)
    requires |names| == |vals| && i < |names| && vals[i].None?
    ensures Assemble(names, vals).None?
  {
    AssembleStep(names, vals, i);
    AssembleStaysNone(names, vals, i + 1);
  }

  lemma AssembleStep(names: seq<string>, vals: seq<Option<int>>, i: nat)
    requires |names| == |vals| && i < |names|
    ensures Assemble(names[..i + 1], vals[..i + 1]) ==
      match (Assemble(names[..i], vals[..i]), vals[i])
      case (Some(ps), Some(v)) => Some(ps + [PartOf(names[i], v)])
      case _ => None
  {
    assert names[..i + 1][..i] == names[..i];
    assert vals[..i + 1][..i] == vals[..i];
  }

  lemma {:induction false} AssembleStaysNone(names: seq<string>, vals: seq<Option<int>>, i: nat)
    requires |names| == |vals| && i <= |names| && Assemble(names[..i], vals[..i]).None?
    ensures Assemble(names, vals).None?
    decreases |names| - i
  {
    if i < |names| {
      AssembleStep(names, vals, i);
      AssembleStaysNone(names, vals, i + 1);
    } else {
      assert names[..i] == names && vals[..i] == vals;
    }
  }

  /**
   * The parts exist exactly when every number is there; then there is one
   * part per name, in the same order, whose value is the number plus the
   * part's delta.
   */
  lemma AssembleSpec(names: seq<string>, vals: seq<Option<int>>)
    requires |names| == |vals|
    ensures Assemble(names, vals).Some? <==> forall i :: 0 <= i < |vals| ==> vals[i].Some?
    ensures Assemble(names, vals).Some? ==>
              && |Assemble(names, vals).value| == |names|
              && forall i :: 0 <= i < |names| ==>
                   Assemble(names, vals).value[i] == PartOf(names[i], vals[i].value)
  {
    AssembleDefined(names, vals);
    if Assemble(names, vals).Some? {
      AssembleValues(names, vals);
    }
  }

  lemma {:induction false} AssembleDefined(names: seq<string>, vals: seq<Option<int>>)
    requires |names| == |vals|
    ensures Assemble(names, vals).Some? <==> forall i :: 0 <= i < |vals| ==> vals[i].Some?
    decreases |names|
  {
    if names != [] {
      var n := |names| - 1;
      AssembleDefined(names[..n], vals[..n]);
      assert forall i :: 0 <= i < n ==> vals[..n][i] == vals[i];
    }
  }

  lemma {:induction false} AssembleValues(names: seq<string>, vals: seq<Option<int>>)
    requires |names| == |vals| && Assemble(names, vals).Some?
    requires forall i :: 0 <= i < |vals| ==> vals[i].Some?
    ensures |Assemble(names, vals).value| == |names|
    ensures forall i :: 0 <= i < |names| ==>
              Assemble(names, vals).value[i] == PartOf(names[i], vals[i].value)
    decreases |names|
  {
    if names != [] {
      var n := |names| - 1;
      assert forall i :: 0 <= i < n ==> names[..n][i] == names[i] && vals[..n][i] == vals[i];
      AssembleValues(names[..n], vals[..n]);
      var ps := Assemble(names[..n], vals[..n]).value;
      var qs := Assemble(names, vals).value;
      assert qs == ps + [PartOf(names[n], vals[n].value)];
      SnocParts(names, vals, ps, qs);
    }
  }

  lemma SnocParts(names: seq<string>, vals: seq<Option<int>>, ps: seq<Part>, qs: seq<Part>)
    requires |names| == |vals| > 0 && |ps| == |names| - 1
    requires forall i :: 0 <= i < |vals| ==> vals[i].Some?
    requires forall i :: 0 <= i < |ps| ==> ps[i] == PartOf(names[i], vals[i].value)
    requires qs == ps + [PartOf(names[|ps|], vals[|ps|].value)]
    ensures |qs| == |names|
    ensures forall i :: 0 <= i < |names| ==> qs[i] == PartOf(names[i], vals[i].value)
  {
  }

  /**
   * `get_version_parts` succeeds exactly when every file parses; then the
   * parts carry the source names in order, each valued at the file's number
   * plus the part's delta.
   */
  lemma PartsOfSpec(ss: seq<Source>)
    ensures PartsOf(ss).Some? <==> forall i :: 0 <= i < |ss| ==> Parsed(ss)[i].Some?
    ensures PartsOf(ss).Some? ==>
              && |PartsOf(ss).value| == |ss|
              && forall i :: 0 <= i < |ss| ==>
                   PartsOf(ss).value[i] == PartOf(ss[i].name, Parsed(ss)[i].value)
  {
    AssembleSpec(Names(ss), Parsed(ss));
  }

  /**
   * The minor part is the Chromium major version minus 136, and the other
   * parts are taken as they are: Chromium 137 gives minor 1.
   */
  lemma VersionPartsOfDotted(major: int, chromium: int, patch: int, rest1: string, rest2: string, rest3: string)
    ensures var r := PartsOf(Sources(VersionFiles(IntToString(major) + "." + rest1, IntToString(chromium) + "." + rest2,
                                                  IntToString(patch) + "." + rest3), None));
      && r.Some? && |r.value| == 3
      && r.value[0] == Part(Major, IntToString(major))
      && r.value[1] == Part(Minor, IntToString(chromium - 136))
      && r.value[2] == Part(Patch, IntToString(patch))
  {
    VersionPartOfDotted(major, rest1);
    VersionPartOfDotted(chromium, rest2);
    VersionPartOfDotted(patch, rest3);
    PartsOfThreeFiles(IntToString(major) + "." + rest1, IntToString(chromium) + "." + rest2,
                      IntToString(patch) + "." + rest3, major, chromium, patch);
  }

  /** Without a platform tree the parts are major, minor and patch, in that order, and only minor is shifted. */
  lemma PartsOfThreeFiles(version: string, chromiumVersion: string, revision: string, a: int, b: int, c: int)
    requires VersionPart(version) == Some(a)
    requires VersionPart(chromiumVersion) == Some(b)
    requires VersionPart(revision) == Some(c)
    ensures var r := PartsOf(Sources(VersionFiles(version, chromiumVersion, revision), None));
      && r.Some? && |r.value| == 3
      && r.value[0] == Part(Major, IntToString(a))
      && r.value[1] == Part(Minor, IntToString(b - 136))
      && r.value[2] == Part(Patch, IntToString(c))
  {
    var ss := Sources(VersionFiles(version, chromiumVersion, revision), None);
    ThreeSources(version, chromiumVersion, revision);
    PartsOfSpec(ss);
    PartValues(a, b, c);
  }

  lemma ThreeSources(version: string, chromiumVersion: string, revision: string)
    ensures var ss := Sources(VersionFiles(version, chromiumVersion, revision), None);
      && |ss| == 3
      && ss[0] == Source(Major, version)
      && ss[1] == Source(Minor, chromiumVersion)
      && ss[2] == Source(Patch, revision)
  {
  }

  lemma PartValues(a: int, b: int, c: int)
    ensures PartOf(Major, a) == Part(Major, IntToString(a))
    ensures PartOf(Minor, b) == Part(Minor, IntToString(b - 136))
    ensures PartOf(Patch, c) == Part(Patch, IntToString(c))
  {
    DeltaOfParts();
  }

  /** Only the minor part is shifted. */
  lemma DeltaOfParts()
    ensures Delta(Major) == 0 && Delta(Minor) == -136 && Delta(Patch) == 0 && Delta(Platform) == 0
  {
    assert Major[8] != Minor[8];
    assert Patch[8] != Minor[8];
    assert Platform[8] != Minor[8];
  }

  // ------------------------------------------------------------------ printing

  function Values(ps: seq<Part>): (vs: seq<string>)
    ensures |vs| == |ps|
  {
    seq(|ps|, i requires 0 <= i < |ps| => ps[i].value)
  }

  /** `'.'.join(version_parts.values())`. */
  function PrintedVersion(ps: seq<Part>): string {
    Join(Values(ps), ".")
  }

  /** The printed version splits back on `.` into the numbers of the parts, in key order. */
  lemma PrintedVersionParses(names: seq<string>, vals: seq<Option<int>>, ps: seq<Part>)
    requires |names| == |vals| && names != [] && Assemble(names, vals) == Some(ps)
    ensures |SplitOn(PrintedVersion(ps), '.')| == |names|
    ensures forall i, v :: 0 <= i < |names| && vals[i] == Some(v) ==>
              ParseInt(SplitOn(PrintedVersion(ps), '.')[i]) == Some(v + Delta(names[i]))
  {
    AssembleSpec(names, vals);
    var vs := Values(ps);
    forall i | 0 <= i < |vs| ensures '.' !in vs[i] {
      IntToStringPlain(vals[i].value + Delta(names[i]));
    }
    SplitOnOfJoin(vs, '.');
    forall i | 0 <= i < |names|
      ensures ParseInt(SplitOn(PrintedVersion(ps), '.')[i]) == Some(vals[i].value + Delta(names[i]))
    {
      ParseIntOfIntToString(vals[i].value + Delta(names[i]));
    }
  }

  // ------------------------------------------------------------------ appending

  /** `append_version`: one line `NAME=value`. */
  function VersionLine(p: Part): string {
    p.name + "=" + p.value + "\n"
  }

  /** All the lines, in key order. */
  function VersionLines(ps: seq<Part>): string
    decreases |ps|
  {
    if ps == [] then "" else VersionLine(ps[0]) + VersionLines(ps[1..])
  }

  /** `check_existing_version`: a VERSION file already mentioning HELIUM is refused. */
  function CheckExistingVersion(content: string): (r: Result<(), string>)
    ensures r.Failure? <==> Contains(content, "HELIUM")
  {
    if Contains(content, "HELIUM") then Failure("file already contains helium versioning") else Success(())
  }

  /**
   * The append branch of the script: refuse a VERSION file that already
   * mentions HELIUM, otherwise append one line per part, in order.
   */
  method AppendVersions(existing: string, ps: seq<Part>) returns (r: Result<string, string>)
    ensures Contains(existing, "HELIUM") <==> r.Failure?
    ensures r.Success? ==> r.value == existing + VersionLines(ps)
  {
    var check := CheckExistingVersion(existing);
    if check.Failure? {
      return Failure(check.error);
    }
    var content := existing;
    for i := 0 to |ps|
      invariant content == existing + VersionLines(ps[..i])
    {
      VersionLinesSnoc(ps[..i], ps[i]);
      assert ps[..i + 1] == ps[..i] + [ps[i]];
      content := content + (ps[i].name + "=" + ps[i].value + "\n");
    }
    assert ps[..|ps|] == ps;
    r := Success(content);
  }

  lemma {:induction false} VersionLinesSnoc(ps: seq<Part>, p: Part)
    ensures VersionLines(ps + [p]) == VersionLines(ps) + VersionLine(p)
    decreases |ps|
  {
    if ps == [] {
      assert [] + [p] == [p];
    } else {
      assert (ps + [p])[1..] == ps[1..] + [p];
      VersionLinesSnoc(ps[1..], p);
    }
  }

  /** The lines of the appended text, without their newlines. */
  function LineTexts(ps: seq<Part>): (ls: seq<string>)
    ensures |ls| == |ps|
  {
    seq(|ps|, i requires 0 <= i < |ps| => ps[i].name + "=" + ps[i].value)
  }

  /** The appended text is exactly one `NAME=value` line per part, in order, each ended by a newline. */
  lemma {:induction false} VersionLinesSplit(ps: seq<Part>)
    requires forall i :: 0 <= i < |ps| ==> '\n' !in ps[i].name && '\n' !in ps[i].value
    ensures SplitOn(VersionLines(ps), '\n') == LineTexts(ps) + [""]
    decreases |ps|
  {
    if ps != [] {
      VersionLinesSplit(ps[1..]);
      SplitOnLine(ps[0], VersionLines(ps[1..]));
      assert LineTexts(ps) == [LineTexts(ps)[0]] + LineTexts(ps[1..]);
    }
  }

  lemma SplitOnLine(p: Part, rest: string)
    requires '\n' !in p.name && '\n' !in p.value
    ensures SplitOn(VersionLine(p) + rest, '\n') == [p.name + "=" + p.value] + SplitOn(rest, '\n')
  {
    var l := p.name + "=" + p.value;
    assert VersionLine(p) + rest == l + ("\n" + rest);
    SplitOnPrefix(l, "\n" + rest, '\n');
    assert ("\n" + rest)[1..] == rest;
    assert l + "" == l;
  }

  /** After a successful append the file mentions HELIUM, so running the script again is refused. */
  lemma AppendedIsVersioned(existing: string, ps: seq<Part>)
    requires ps != [] && StartsWith(ps[0].name, "HELIUM")
    ensures Contains(existing + VersionLines(ps), "HELIUM")
  {
    var lines := VersionLines(ps);
    assert lines[..6] == "HELIUM" by {
      assert lines[..|ps[0].name|] == ps[0].name;
    }
    assert Contains(lines, "HELIUM");
    ContainsInSuffix(existing, lines, "HELIUM");
  }

  // ------------------------------------------------------------------ the script

  /** What the script does: print the version, or give the new content of the VERSION file. */
  datatype Outcome = Printed(line: string) | Appended(content: string) | Error(message: string)

  /**
   * `main` once the files are read: the parts are computed first, so a
   * file that does not parse fails before the VERSION file is checked.
   */
  function RunVersion(files: VersionFiles, platformRevision: Option<string>, versionFile: string, shouldPrint: bool): (o: Outcome)
    ensures PartsOf(Sources(files, platformRevision)).None? ==> o.Error?
    ensures PartsOf(Sources(files, platformRevision)).Some? && shouldPrint ==>
              o == Printed(PrintedVersion(PartsOf(Sources(files, platformRevision)).value))
    ensures PartsOf(Sources(files, platformRevision)).Some? && !shouldPrint ==>
              (o.Error? <==> Contains(versionFile, "HELIUM"))
    ensures o.Appended? ==> o.content == versionFile + VersionLines(PartsOf(Sources(files, platformRevision)).value)
  {
    match PartsOf(Sources(files, platformRevision))
    case None => Error("invalid literal for int()")
    case Some(ps) =>
      if shouldPrint then Printed(PrintedVersion(ps))
      else match CheckExistingVersion(versionFile)
        case Failure(e) => Error(e)
        case Success(_) => Appended(versionFile + VersionLines(ps))
  }
}
