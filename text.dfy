/**
 * The handful of Python string operations the scripts rely on: whitespace
 * stripping and splitting, `str.split(sep)` / `sep.join`, substring tests,
 * case mapping, `int()` on a decimal field and `str()` of an integer.
 */
module Text {
  import opened Wrappers

  /** Python's `str.isspace()`: every character `strip()` and `split()` treat as whitespace. */
  predicate IsSpace(c: char) {
    || c == ' '
    || '\t' <= c <= '\r'
    || '\U{1C}' <= c <= '\U{1F}'
    || c == '\U{85}' || c == '\U{A0}' || c == '\U{1680}'
    || '\U{2000}' <= c <= '\U{200A}'
    || c == '\U{2028}' || c == '\U{2029}' || c == '\U{202F}' || c == '\U{205F}' || c == '\U{3000}'
  }

  /** The regular-expression class `\w`, restricted to ASCII: letters, digits and `_`. */
  predicate IsWordChar(c: char) {
    'a' <= c <= 'z' || 'A' <= c <= 'Z' || '0' <= c <= '9' || c == '_'
  }

  predicate IsDigit(c: char) {
    '0' <= c <= '9'
  }

  predicate StartsWith(s: string, p: string) {
    |p| <= |s| && s[..|p|] == p
  }

  predicate EndsWith(s: string, p: string) {
    |p| <= |s| && s[|s| - |p|..] == p
  }

  /** Python's `p in s` for two strings. */
  predicate Contains(s: string, p: string)
    decreases |s|
  {
    StartsWith(s, p) || (s != [] && Contains(s[1..], p))
  }

  lemma {:induction false} ContainsInSuffix(a: string, b: string, p: string)
    requires Contains(b, p)
    ensures Contains(a + b, p)
    decreases |a|
  {
    if a != [] {
      assert (a + b)[1..] == a[1..] + b;
      ContainsInSuffix(a[1..], b, p);
    } else {
      assert a + b == b;
    }
  }

  lemma {:induction false} ContainsInPrefix(a: string, b: string, p: string)
    requires Contains(a, p)
    ensures Contains(a + b, p)
    decreases |a|
  {
    if StartsWith(a, p) {
      assert (a + b)[..|p|] == a[..|p|];
    } else {
      assert (a + b)[1..] == a[1..] + b;
      ContainsInPrefix(a[1..], b, p);
    }
  }

  /** Concatenation regrouped; stated once so that proofs need not rediscover it. */
  lemma Assoc<T>(a: seq<T>, b: seq<T>, c: seq<T>)
    ensures a + (b + c) == a + b + c
  {
  }

  /** A non-empty sequence is its front followed by its last element. */
  lemma FrontAndLast<T>(s: seq<T>)
    requires s != []
    ensures s[..|s| - 1] + [s[|s| - 1]] == s
  {
  }

  lemma Assoc3(a: string, b: string, c: string, d: string)
    ensures a + b + (c + d) == a + b + c + d
  {
  }

  // ---------------------------------------------------------------- case

  /** ASCII approximation of `str.upper()` on one character. */
  function UpperChar(c: char): char {
    if 'a' <= c <= 'z' then (c as int - 32) as char else c
  }

  /** ASCII approximation of `str.lower()` on one character. */
  function LowerChar(c: char): char {
    if 'A' <= c <= 'Z' then (c as int + 32) as char else c
  }

  function Upper(s: string): (r: string)
    ensures |r| == |s|
  {
    seq(|s|, k requires 0 <= k < |s| => UpperChar(s[k]))
  }

  function Lower(s: string): (r: string)
    ensures |r| == |s|
  {
    seq(|s|, k requires 0 <= k < |s| => LowerChar(s[k]))
  }

  // ---------------------------------------------------------------- strip

  /** Python's `str.lstrip()`: the suffix of `s` left after dropping leading whitespace. */
  function LStrip(s: string): (r: string)
    ensures |r| <= |s|
    ensures r == [] || !IsSpace(r[0])
    decreases |s|
  {
    if s != [] && IsSpace(s[0]) then LStrip(s[1..]) else s
  }

  /** `lstrip()` keeps a suffix. */
  lemma {:induction false} LStripIsSuffix(s: string)
    ensures LStrip(s) == s[|s| - |LStrip(s)|..]
    decreases |s|
  {
    if s != [] && IsSpace(s[0]) {
      LStripIsSuffix(s[1..]);
    }
  }

  /** Everything `lstrip()` drops is whitespace. */
  lemma {:induction false} LStripDropsSpaces(s: string)
    ensures forall k :: 0 <= k < |s| - |LStrip(s)| ==> IsSpace(s[k])
    decreases |s|
  {
    if s != [] && IsSpace(s[0]) {
      LStripDropsSpaces(s[1..]);
      assert forall k :: 1 <= k < |s| - |LStrip(s)| ==> s[k] == s[1..][k - 1];
    }
  }

  /** Python's `str.rstrip()`: the prefix of `s` left after dropping trailing whitespace. */
  function RStrip(s: string): (r: string)
    ensures |r| <= |s|
    ensures r == [] || !IsSpace(r[|r| - 1])
    decreases |s|
  {
    if s != [] && IsSpace(s[|s| - 1]) then RStrip(s[..|s| - 1]) else s
  }

  /** `rstrip()` keeps a prefix. */
  lemma {:induction false} RStripIsPrefix(s: string)
    ensures RStrip(s) == s[..|RStrip(s)|]
    decreases |s|
  {
    if s != [] && IsSpace(s[|s| - 1]) {
      RStripIsPrefix(s[..|s| - 1]);
    }
  }

  /** Everything `rstrip()` drops is whitespace. */
  lemma {:induction false} RStripDropsSpaces(s: string)
    ensures forall k :: |RStrip(s)| <= k < |s| ==> IsSpace(s[k])
    decreases |s|
  {
    if s != [] && IsSpace(s[|s| - 1]) {
      RStripDropsSpaces(s[..|s| - 1]);
    }
  }

  /** `r` is the slice of `s` at offset `i` and everything of `s` outside it is whitespace. */
  ghost predicate TrimmedAt(s: string, i: int, r: string) {
    && 0 <= i && i + |r| <= |s|
    && r == s[i..i + |r|]
    && (forall k :: 0 <= k < i ==> IsSpace(s[k]))
    && (forall k :: i + |r| <= k < |s| ==> IsSpace(s[k]))
  }

  /** Python's `str.strip()`. */
  function Strip(s: string): (r: string)
    ensures r == [] || (!IsSpace(r[0]) && !IsSpace(r[|r| - 1]))
  {
    RStripIsPrefix(LStrip(s));
    RStrip(LStrip(s))
  }

  /** What `strip()` removes is whitespace at the two ends, and nothing else. */
  lemma StripTrims(s: string)
    ensures exists i :: TrimmedAt(s, i, Strip(s))
  {
    var l := LStrip(s);
    var i := |s| - |l|;
    var r := RStrip(l);
    LStripIsSuffix(s);
    RStripIsPrefix(l);
    LStripDropsSpaces(s);
    RStripDropsSpaces(l);
    assert s[i..i + |r|] == l[..|r|];
    assert forall k :: i + |r| <= k < |s| ==> s[k] == l[k - i];
    assert TrimmedAt(s, i, Strip(s));
  }

  lemma StripOfTrimmed(s: string)
    requires s == [] || (!IsSpace(s[0]) && !IsSpace(s[|s| - 1]))
    ensures Strip(s) == s
  {
  }

  lemma {:induction false} LStripSpaces(pre: string, t: string)
    requires forall k :: 0 <= k < |pre| ==> IsSpace(pre[k])
    requires t != [] && !IsSpace(t[0])
    ensures LStrip(pre + t) == t
    decreases |pre|
  {
    if pre != [] {
      assert (pre + t)[1..] == pre[1..] + t;
      LStripSpaces(pre[1..], t);
    } else {
      assert pre + t == t;
    }
  }

  lemma {:induction false} RStripSpaces(t: string, post: string)
    requires forall k :: 0 <= k < |post| ==> IsSpace(post[k])
    requires t != [] && !IsSpace(t[|t| - 1])
    ensures RStrip(t + post) == t
    decreases |post|
  {
    if post != [] {
      assert (t + post)[..|t + post| - 1] == t + post[..|post| - 1];
      RStripSpaces(t, post[..|post| - 1]);
    } else {
      assert t + post == t;
    }
  }

  lemma {:induction false} LStripOfSpaces(sp: string, t: string)
    requires forall k :: 0 <= k < |sp| ==> IsSpace(sp[k])
    ensures LStrip(sp + t) == LStrip(t)
    decreases |sp|
  {
    if sp != [] {
      assert (sp + t)[1..] == sp[1..] + t;
      LStripOfSpaces(sp[1..], t);
    } else {
      assert sp + t == t;
    }
  }

  // ---------------------------------------------------------------- split()

  predicate NoSpace(w: string) {
    forall k :: 0 <= k < |w| ==> !IsSpace(w[k])
  }

  /** The longest prefix of `s` that holds no whitespace. */
  function TakeWord(s: string): (w: string)
    ensures |w| <= |s| && w == s[..|w|] && NoSpace(w)
    ensures |w| == |s| || IsSpace(s[|w|])
    decreases |s|
  {
    if s == [] || IsSpace(s[0]) then [] else [s[0]] + TakeWord(s[1..])
  }

  /** Python's `s.split()` without a separator: the maximal runs of non-whitespace, in order. */
  function Words(s: string): (ws: seq<string>)
    ensures forall i :: 0 <= i < |ws| ==> ws[i] != [] && NoSpace(ws[i])
    decreases |s|
  {
    var t := LStrip(s);
    if t == [] then []
    else
      var w := TakeWord(t);
      assert w != [] by { assert !IsSpace(t[0]); }
      var ws := Words(t[|w|..]);
      [w] + ws
  }

  /** Python's `sep.join(parts)`. */
  function Join(parts: seq<string>, sep: string): string
    decreases |parts|
  {
    if parts == [] then ""
    else if |parts| == 1 then parts[0]
    else parts[0] + sep + Join(parts[1..], sep)
  }

  lemma {:induction false} TakeWordOf(w: string, rest: string)
    requires NoSpace(w)
    requires rest == [] || IsSpace(rest[0])
    ensures TakeWord(w + rest) == w
    decreases |w|
  {
    if w == [] {
      assert w + rest == rest;
    } else {
      assert (w + rest)[1..] == w[1..] + rest;
      TakeWordOf(w[1..], rest);
    }
  }

  lemma WordsOfSpaced(rest: string)
    ensures Words(" " + rest) == Words(rest)
  {
    assert (" " + rest)[1..] == rest;
    assert LStrip(" " + rest) == LStrip(rest);
  }

  lemma WordsOfWord(w: string, rest: string)
    requires w != [] && NoSpace(w)
    requires rest == [] || IsSpace(rest[0])
    ensures Words(w + rest) == [w] + Words(rest)
  {
    var s := w + rest;
    assert LStrip(s) == s;
    TakeWordOf(w, rest);
    assert s[|w|..] == rest;
    if rest != [] {
      assert LStrip(rest) == LStrip(rest[1..]);
    }
  }

  /** Joining words with single spaces and splitting again gives the words back. */
  lemma {:induction false} WordsOfJoin(ws: seq<string>)
    requires forall i :: 0 <= i < |ws| ==> ws[i] != [] && NoSpace(ws[i])
    ensures Words(Join(ws, " ")) == ws
    decreases |ws|
  {
    if |ws| == 1 {
      WordsOfWord(ws[0], []);
      assert ws[0] + [] == ws[0];
    } else if |ws| >= 2 {
      var tail := ws[1..];
      var rest := Join(tail, " ");
      assert Join(ws, " ") == ws[0] + (" " + rest);
      WordsOfWord(ws[0], " " + rest);
      WordsOfSpaced(rest);
      assert forall i :: 0 <= i < |tail| ==> tail[i] == ws[i + 1];
      WordsOfJoin(tail);
      assert ws == [ws[0]] + tail;
    }
  }

  /** A string joined from non-empty pieces begins with the first piece's first character and ends with the last piece's last one. */
  lemma {:induction false} JoinEnds(parts: seq<string>, sep: string)
    requires |parts| >= 1 && forall i :: 0 <= i < |parts| ==> parts[i] != []
    ensures var s := Join(parts, sep); var last := parts[|parts| - 1];
      |s| > 0 && s[0] == parts[0][0] && s[|s| - 1] == last[|last| - 1]
    decreases |parts|
  {
    if |parts| >= 2 {
      JoinEnds(parts[1..], sep);
    }
  }

  // ---------------------------------------------------------------- split(sep)

  /** Python's `s.split(c)`: the pieces between occurrences of `c`, empty pieces kept. */
  function SplitOn(s: string, c: char): (parts: seq<string>)
    ensures |parts| >= 1
    ensures forall i :: 0 <= i < |parts| ==> c !in parts[i]
    decreases |s|
  {
    if s == [] then [""]
    else
      var rest := SplitOn(s[1..], c);
      if s[0] == c then [""] + rest
      else [[s[0]] + rest[0]] + rest[1..]
  }

  /** Splitting on `c` and joining with `c` restores the string. */
  lemma {:induction false} JoinOfSplitOn(s: string, c: char)
    ensures Join(SplitOn(s, c), [c]) == s
    decreases |s|
  {
    if s != [] {
      var rest := SplitOn(s[1..], c);
      JoinOfSplitOn(s[1..], c);
      if s[0] != c && |rest| >= 2 {
        assert rest == [rest[0]] + rest[1..];
      }
    }
  }

  lemma {:induction false} SplitOnPrefix(w: string, rest: string, c: char)
    requires c !in w
    ensures SplitOn(w + rest, c) == [w + SplitOn(rest, c)[0]] + SplitOn(rest, c)[1..]
    decreases |w|
  {
    if w == [] {
      var parts := SplitOn(rest, c);
      assert w + rest == rest;
      assert w + parts[0] == parts[0];
      assert parts == [parts[0]] + parts[1..];
    } else {
      assert (w + rest)[1..] == w[1..] + rest;
      SplitOnPrefix(w[1..], rest, c);
      assert [w[0]] + (w[1..] + SplitOn(rest, c)[0]) == w + SplitOn(rest, c)[0];
    }
  }

  /** Joining pieces free of `c` with `c` and splitting on `c` gives the pieces back. */
  lemma {:induction false} SplitOnOfJoin(parts: seq<string>, c: char)
    requires |parts| >= 1
    requires forall i :: 0 <= i < |parts| ==> c !in parts[i]
    ensures SplitOn(Join(parts, [c]), c) == parts
    decreases |parts|
  {
    if |parts| == 1 {
      SplitOnPrefix(parts[0], [], c);
      assert parts[0] + [] == parts[0];
    } else {
      var rest := Join(parts[1..], [c]);
      assert Join(parts, [c]) == parts[0] + ([c] + rest);
      SplitOnPrefix(parts[0], [c] + rest, c);
      assert ([c] + rest)[1..] == rest;
      SplitOnOfJoin(parts[1..], c);
      assert parts[0] + "" == parts[0];
      assert parts == [parts[0]] + parts[1..];
    }
  }

  /** `s.split(c)[0]`: the text before the first `c`, or all of `s`. */
  function FirstField(s: string, c: char): string {
    SplitOn(s, c)[0]
  }

  /** `s.split(c)[-1]`: the text after the last `c`, or all of `s`. */
  function LastField(s: string, c: char): string {
    var parts := SplitOn(s, c);
    parts[|parts| - 1]
  }

  lemma {:induction false} SplitOnWithout(s: string, c: char)
    requires c !in s
    ensures SplitOn(s, c) == [s]
  {
    SplitOnPrefix(s, [], c);
    assert s + [] == s;
  }

  /** `s.split(c)[-1]` only looks past the last separator. */
  lemma {:induction false} LastFieldAfter(a: string, b: string, c: char)
    ensures LastField(a + [c] + b, c) == LastField(b, c)
    decreases |a|
  {
    if a == [] {
      assert a + [c] + b == [c] + b;
      assert ([c] + b)[1..] == b;
    } else {
      assert (a + [c] + b)[1..] == a[1..] + [c] + b;
      assert c in a[1..] + [c] + b by { assert (a[1..] + [c] + b)[|a| - 1] == c; }
      SplitOnSeveral(a[1..] + [c] + b, c);
      LastFieldAfter(a[1..], b, c);
    }
  }

  /** A string holding the separator splits into at least two pieces. */
  lemma {:induction false} SplitOnSeveral(s: string, c: char)
    requires c in s
    ensures |SplitOn(s, c)| >= 2
    decreases |s|
  {
    if s[0] != c {
      assert c in s[1..] by {
        var k :| 0 <= k < |s| && s[k] == c;
        assert s[1..][k - 1] == c;
      }
      SplitOnSeveral(s[1..], c);
    }
  }

  // ---------------------------------------------------------------- integers

  predicate AllDigits(s: string) {
    forall k :: 0 <= k < |s| ==> IsDigit(s[k])
  }

  function DigitsValue(s: string): nat
    requires AllDigits(s)
    decreases |s|
  {
    if s == [] then 0 else 10 * DigitsValue(s[..|s| - 1]) + (s[|s| - 1] as int - '0' as int)
  }

  function ParseNat(s: string): Option<nat> {
    if s != [] && AllDigits(s) then Some(DigitsValue(s)) else None
  }

  /** Python's `int()` on an already stripped field: an optional sign, then decimal digits. */
  function ParseInt(s: string): Option<int> {
    if s != [] && (s[0] == '-' || s[0] == '+') then
      match ParseNat(s[1..])
      case Some(n) =>
        var v: int := if s[0] == '-' then -(n as int) else n;
        Some(v)
      case None => None
    else
      match ParseNat(s)
      case Some(n) => Some(n)
      case None => None
  }

  function DigitChar(d: nat): (c: char)
    requires d < 10
    ensures IsDigit(c)
  {
    ('0' as int + d) as char
  }

  function NatToString(n: nat): (r: string)
    ensures r != [] && AllDigits(r)
    decreases n
  {
    if n < 10 then [DigitChar(n)] else NatToString(n / 10) + [DigitChar(n % 10)]
  }

  /** Python's `str()` of an integer. */
  function IntToString(n: int): (r: string)
    ensures r != [] && forall k :: 0 <= k < |r| ==> IsDigit(r[k]) || r[k] == '-'
  {
    if n < 0 then "-" + NatToString(-n) else NatToString(n)
  }

  lemma {:induction false} NatToStringValue(n: nat)
    ensures DigitsValue(NatToString(n)) == n
    decreases n
  {
    if n >= 10 {
      var s := NatToString(n);
      NatToStringValue(n / 10);
      assert s[..|s| - 1] == NatToString(n / 10);
    }
  }

  /** `int(str(n)) == n`: formatting an integer and parsing it back is the identity. */
  lemma ParseIntOfIntToString(n: int)
    ensures ParseInt(IntToString(n)) == Some(n)
  {
    if n < 0 {
      NatToStringValue(-n);
      assert IntToString(n)[1..] == NatToString(-n);
    } else {
      NatToStringValue(n);
    }
  }
}
