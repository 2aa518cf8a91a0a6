/**
 * What the two resource-list scripts (generate_resources.py and
 * replace_resources.py) share: how a line of a list is read, what a bad
 * line raises, and how a file name is placed under a directory.
 */
module ResourceLines {
  import opened Wrappers
  import opened Text

  /** A file name placed under a directory (`dir / name` or `os.path.join(dir, name)`), kept symbolic. */
  datatype Path = Under(dir: string, name: string)

  /** Why a line that is not skipped is refused. */
  datatype Fault = WrongTokenCount | NotAnInteger(token: string)

  /**
   * The `ValueError` that ends a run: the token-count check names the line
   * (counted from 1), while `int()` names only the token it could not read.
   */
  datatype ListError = InvalidLine(lineNumber: nat) | InvalidLiteral(token: string)

  /** What one line of a list asks for. */
  datatype LineAction<J> = Skip | Act(item: J) | Reject(fault: Fault)

  /** A run over a list: what was done, in list order, and the error that stopped it, if any. */
  datatype Run<J> = Run(done: seq<J>, error: Option<ListError>)

  function ErrorOf(f: Fault, lineNumber: nat): (e: ListError)
    ensures f == WrongTokenCount <==> e == InvalidLine(lineNumber)
    ensures f.NotAnInteger? ==> e == InvalidLiteral(f.token)
  {
    match f
    case WrongTokenCount => InvalidLine(lineNumber)
    case NotAnInteger(t) => InvalidLiteral(t)
  }

  /** The item a line contributes: one when it asks for something, none otherwise. */
  function Items<J>(a: LineAction<J>): (r: seq<J>)
    ensures |r| <= 1 && (r != [] <==> a.Act?)
  {
    if a.Act? then [a.item] else []
  }

  /** A line that the list readers pass over: blank once stripped, or a comment. */
  predicate Skipped(line: string) {
    var s := Strip(line);
    s == [] || s[0] == '#'
  }

  /** `line.strip().split()`. */
  function Tokens(line: string): seq<string> {
    Words(Strip(line))
  }

  /** A line that is not skipped has a first token, and it does not start a comment. */
  lemma ContentLineTokens(line: string)
    requires !Skipped(line)
    ensures |Tokens(line)| >= 1 && Tokens(line)[0][0] != '#'
  {
    var s := Strip(line);
    assert LStrip(s) == s;
    var w := TakeWord(s);
    assert w != [] && w[0] == s[0];
  }

  /** A comment after any indentation is skipped. */
  lemma IndentedCommentSkipped(indent: string, rest: string)
    requires forall k :: 0 <= k < |indent| ==> IsSpace(indent[k])
    ensures Skipped(indent + "#" + rest)
  {
    var c := "#" + rest;
    assert indent + "#" + rest == indent + c;
    LStripOfSpaces(indent, c);
    assert LStrip(c) == c;
    var r := RStrip(c);
    RStripIsPrefix(c);
    RStripDropsSpaces(c);
    assert !IsSpace(c[0]);
    assert r != [] && r[0] == '#';
  }

  /** Tokens written out with single spaces are read back as they were. */
  lemma TokensOfJoin(ws: seq<string>)
    requires |ws| >= 1 && forall i :: 0 <= i < |ws| ==> ws[i] != [] && NoSpace(ws[i])
    ensures Tokens(Join(ws, " ")) == ws
  {
    var s := Join(ws, " ");
    JoinEnds(ws, " ");
    var last := ws[|ws| - 1];
    assert !IsSpace(s[0]) && !IsSpace(s[|s| - 1]) by {
      assert !IsSpace(ws[0][0]) && !IsSpace(last[|last| - 1]);
    }
    StripOfTrimmed(s);
    WordsOfJoin(ws);
  }
}
