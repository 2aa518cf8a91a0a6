/**
 * The brand-substitution rule list of name_substitution_utils.py and the
 * function that runs it over a string.
 *
 * Each regular expression is a fixed pattern, so each rule is modelled by a
 * hand-written matcher: `MatchRule(r, t)` says whether rule `r` matches at the
 * start of `t` and, if so, how many characters it consumes and what it writes
 * instead. `Sub(r, t)` is Python's `re.sub`: scanning from the left, at each
 * position either the rule matches (emit the replacement, skip the match) or
 * one character is copied. No rule can match the empty string, so there is no
 * empty-match case to model.
 */
module SubstitutionRules {
  import opened Wrappers
  import opened Text

  /** The seven rules, named by what they do. */
  datatype Rule =
    | TagRootProgram    // tag a word that stands before " Root Program"
    | TagWebStore       // tag a word before " Web Store" / " Webstore", normalising to " Web Store"
    | TagRemoteDesktop  // tag a word before " Remote Desktop"
    | TagChromiumLink   // tag the first "Chromium" inside a BEGIN/END_LINK_CHROMIUM pair on one line
    | Rebrand           // "[Google ]Chrome" / "[Google ]Chromium" not followed by \w becomes "Helium"
    | UntagBrand        // drop the tag right after a (Google) Chrome/Chromium
    | Untag             // drop every remaining tag

  /** The rule list, in the order `replace_text` applies it. */
  const Rules: seq<Rule> := [TagRootProgram, TagWebStore, TagRemoteDesktop, TagChromiumLink, Rebrand, UntagBrand, Untag]

  /** The guard marker appended to a protected word. */
  const Tag: string := "_unreplace"
  const NewBrand: string := "Helium"
  const BeginLink: string := "\"BEGIN_LINK_CHROMIUM\""
  const EndLink: string := "<ph name=\"END_LINK_CHROMIUM\""

  /** A match at the start of the scanned text: `len` characters replaced by `text`. */
  datatype Hit = Hit(len: nat, text: string)

  predicate NotWordAt(t: string, k: nat) {
    k >= |t| || !IsWordChar(t[k])
  }

  /** Length of the run of word characters at the start of `t` (what a greedy `\w+` takes). */
  function WordRun(t: string): (n: nat)
    ensures n <= |t|
    ensures forall k :: 0 <= k < n ==> IsWordChar(t[k])
    ensures NotWordAt(t, n)
    decreases |t|
  {
    if t != [] && IsWordChar(t[0]) then 1 + WordRun(t[1..]) else 0
  }

  predicate IsTagRule(r: Rule) {
    r.TagRootProgram? || r.TagWebStore? || r.TagRemoteDesktop?
  }

  /** The protected phrase a tag rule looks for, in the spelling it writes back. */
  function Phrase(r: Rule): string
    requires IsTagRule(r)
  {
    match r
    case TagRootProgram => " Root Program"
    case TagWebStore => " Web Store"
    case TagRemoteDesktop => " Remote Desktop"
  }

  /** The other spelling a tag rule accepts (only the Web Store rule has one). */
  function AltPhrase(r: Rule): string
    requires IsTagRule(r)
  {
    if r.TagWebStore? then " Webstore" else Phrase(r)
  }

  /**
   * Rules 1-3: a non-empty run of word characters followed by `phrase` or
   * by `alt` (tried in that order). Every phrase starts with a space, which
   * is not a word character, so the longest run is the only split a
   * backtracking `\w+` could use (see `WordRunIsOnlySplit`). The match is
   * rewritten to the run, the tag and `canonical`.
   */
  function TagWordBefore(t: string, phrase: string, alt: string, canonical: string): Option<Hit> {
    var n := WordRun(t);
    if 1 <= n && StartsWith(t[n..], phrase) then Some(Hit(n + |phrase|, t[..n] + Tag + canonical))
    else if 1 <= n && StartsWith(t[n..], alt) then Some(Hit(n + |alt|, t[..n] + Tag + canonical))
    else None
  }

  /**
   * The first occurrence of `p` at or after `from` that is reached before a
   * line break: what a lazy `.*?p` finds (`.` does not match a newline).
   */
  function FindOnLine(t: string, from: nat, p: string): (j: Option<nat>)
    requires from <= |t| && p != []
    ensures j.Some? ==> from <= j.value && j.value + |p| <= |t| && StartsWith(t[j.value..], p)
    ensures j.Some? ==> forall k :: from <= k < j.value ==> t[k] != '\n'
    ensures j.Some? ==> forall k {:trigger StartsWith(t[k..], p)} :: from <= k < j.value ==> !StartsWith(t[k..], p)
    ensures j.None? ==> forall k {:trigger StartsWith(t[k..], p)} :: from <= k < |t| && StartsWith(t[k..], p) ==> '\n' in t[from..k]
    decreases |t| - from
  {
    if |t| - from < |p| then None
    else if StartsWith(t[from..], p) then Some(from)
    else if t[from] == '\n' then
      assert forall k :: from < k < |t| ==> t[from..k][0] == '\n';
      None
    else
      var r := FindOnLine(t, from + 1, p);
      assert forall k :: from + 1 <= k < |t| ==> t[from + 1..k] == t[from..k][1..];
      r
  }

  /**
   * Rule 4. The lazy groups take the first "Chromium" after the opening
   * marker and then the first closing marker after it, both on the same
   * line. If no closing marker follows the first "Chromium" on its line,
   * none follows a later one either, so backtracking finds nothing else.
   */
  function LinkMatch(t: string): Option<Hit> {
    if !StartsWith(t, BeginLink) then None
    else
      match FindOnLine(t, |BeginLink|, "Chromium")
      case None => None
      case Some(j) => LinkClose(t, j)
  }

  /** The rest of rule 4 once its "Chromium" is found at `j`: the first closing marker after it on the same line. */
  function LinkClose(t: string, j: nat): Option<Hit>
    requires j + 8 <= |t|
  {
    match FindOnLine(t, j + 8, EndLink)
    case None => None
    case Some(m) => Some(Hit(m + |EndLink|, t[..j + 8] + Tag + t[j + 8..m + |EndLink|]))
  }

  /** "Chrome" or "Chromium" at the start of `t`, not followed by a word character: its length. */
  function BrandLen(t: string): Option<nat> {
    if StartsWith(t, "Chrome") && NotWordAt(t, 6) then Some(6)
    else if StartsWith(t, "Chromium") && NotWordAt(t, 8) then Some(8)
    else None
  }

  /** Rule 5: the optional "Google " is tried first, then the bare brand. */
  function RebrandMatch(t: string): Option<Hit> {
    if StartsWith(t, "Google ") && BrandLen(t[7..]).Some? then Some(Hit(7 + BrandLen(t[7..]).value, NewBrand))
    else
      match BrandLen(t)
      case Some(n) => Some(Hit(n, NewBrand))
      case None => None
  }

  /** "Chrome" or "Chromium" at the start of `t`, directly followed by the tag: the brand's length. */
  function TaggedBrandLen(t: string): Option<nat> {
    if StartsWith(t, "Chrome" + Tag) then Some(6)
    else if StartsWith(t, "Chromium" + Tag) then Some(8)
    else None
  }

  /** Rule 6: keep the (Google) brand, drop the tag after it. */
  function UntagBrandMatch(t: string): Option<Hit> {
    if StartsWith(t, "Google ") && TaggedBrandLen(t[7..]).Some? then
      var n := 7 + TaggedBrandLen(t[7..]).value;
      Some(Hit(n + |Tag|, t[..n]))
    else
      match TaggedBrandLen(t)
      case Some(n) => Some(Hit(n + |Tag|, t[..n]))
      case None => None
  }

  /** Whether rule `r` matches at the start of `t`, and with what effect. */
  function MatchRule(r: Rule, t: string): (m: Option<Hit>)
    ensures m.Some? ==> 1 <= m.value.len <= |t|
  {
    match r
    case TagRootProgram => TagWordBefore(t, Phrase(r), AltPhrase(r), Phrase(r))
    case TagWebStore => TagWordBefore(t, Phrase(r), AltPhrase(r), Phrase(r))
    case TagRemoteDesktop => TagWordBefore(t, Phrase(r), AltPhrase(r), Phrase(r))
    case TagChromiumLink => LinkMatch(t)
    case Rebrand => RebrandMatch(t)
    case UntagBrand => UntagBrandMatch(t)
    case Untag => if StartsWith(t, Tag) then Some(Hit(|Tag|, "")) else None
  }

  /** `re.sub(rule, replacement, t)`: leftmost, non-overlapping, replace-all. */
  function Sub(r: Rule, t: string): string
    decreases |t|
  {
    if t == [] then []
    else
      match MatchRule(r, t)
      case Some(h) => h.text + Sub(r, t[h.len..])
      case None => [t[0]] + Sub(r, t[1..])
  }

  /** The rules applied one after the other, each to the previous one's output. */
  function ApplyRules(rules: seq<Rule>, s: string): string
    decreases |rules|
  {
    if rules == [] then s else ApplyRules(rules[1..], Sub(rules[0], s))
  }

  /** What `replace_text` returns for `s`. */
  function Replaced(s: string): string {
    ApplyRules(Rules, s)
  }

  /** `replace_text`: run the rule list over the text, in order. */
  method ReplaceText(text: string) returns (r: string)
    ensures r == ApplyRules(Rules, text)
  {
    r := text;
    for i := 0 to |Rules|
      invariant ApplyRules(Rules[i..], r) == ApplyRules(Rules, text)
    {
      assert Rules[i..][1..] == Rules[i + 1..];
      r := Sub(Rules[i], r);
    }
    assert Rules[|Rules|..] == [];
  }

  // ------------------------------------------------------------------ general facts about Sub

  /** A character every match of the rule contains; a text without it is left alone. */
  function KeyChar(r: Rule): char {
    match r
    case TagRootProgram => 'P'
    case TagWebStore => 'W'
    case TagRemoteDesktop => 'D'
    case TagChromiumLink => '"'
    case Rebrand => 'C'
    case UntagBrand => '_'
    case Untag => '_'
  }

  lemma InPrefix(t: string, p: string, c: char)
    requires StartsWith(t, p) && c in p
    ensures c in t
  {
    var i :| 0 <= i < |p| && p[i] == c;
    assert t[i] == c;
  }

  lemma TagMatchHasKeyChar(r: Rule, t: string)
    requires IsTagRule(r) && MatchRule(r, t).Some?
    ensures KeyChar(r) in t
  {
    var n := WordRun(t);
    if StartsWith(t[n..], Phrase(r)) {
      InPrefix(t[n..], Phrase(r), KeyChar(r));
    } else {
      InPrefix(t[n..], AltPhrase(r), KeyChar(r));
    }
    assert KeyChar(r) in t[n..];
  }

  lemma MatchHasKeyChar(r: Rule, t: string)
    requires MatchRule(r, t).Some?
    ensures KeyChar(r) in t
  {
    match r
    case TagRootProgram => TagMatchHasKeyChar(r, t);
    case TagWebStore => TagMatchHasKeyChar(r, t);
    case TagRemoteDesktop => TagMatchHasKeyChar(r, t);
    case TagChromiumLink =>
      InPrefix(t, BeginLink, '"');
    case Rebrand =>
      if StartsWith(t, "Google ") && BrandLen(t[7..]).Some? {
        if StartsWith(t[7..], "Chrome") {
          InPrefix(t[7..], "Chrome", 'C');
        } else {
          InPrefix(t[7..], "Chromium", 'C');
        }
        assert 'C' in t[7..];
      } else if StartsWith(t, "Chrome") {
        InPrefix(t, "Chrome", 'C');
      } else {
        InPrefix(t, "Chromium", 'C');
      }
    case UntagBrand =>
      if StartsWith(t, "Google ") && TaggedBrandLen(t[7..]).Some? {
        if StartsWith(t[7..], "Chrome" + Tag) {
          InPrefix(t[7..], "Chrome" + Tag, '_');
        } else {
          InPrefix(t[7..], "Chromium" + Tag, '_');
        }
        assert '_' in t[7..];
      } else if StartsWith(t, "Chrome" + Tag) {
        InPrefix(t, "Chrome" + Tag, '_');
      } else {
        InPrefix(t, "Chromium" + Tag, '_');
      }
    case Untag =>
      InPrefix(t, Tag, '_');
  }

  lemma NoMatchWithoutKeyChar(r: Rule, t: string)
    requires KeyChar(r) !in t
    ensures MatchRule(r, t).None?
  {
    if MatchRule(r, t).Some? {
      MatchHasKeyChar(r, t);
    }
  }

  /** A rule leaves alone every text that lacks its key character. */
  lemma {:induction false} SubWithoutKeyChar(r: Rule, t: string)
    requires KeyChar(r) !in t
    ensures Sub(r, t) == t
    decreases |t|
  {
    if t != [] {
      NoMatchWithoutKeyChar(r, t);
      SubStep(r, t);
      assert KeyChar(r) !in t[1..];
      SubWithoutKeyChar(r, t[1..]);
      assert t == [t[0]] + t[1..];
    }
  }

  /** Where no match starts inside `a`, `a` is copied and the scan resumes at `b`. */
  lemma {:induction false} SubCopies(r: Rule, a: string, b: string)
    requires forall k :: 0 <= k < |a| ==> MatchRule(r, a[k..] + b).None?
    ensures Sub(r, a + b) == a + Sub(r, b)
    decreases |a|
  {
    if a == [] {
      assert a + b == b && a + Sub(r, b) == Sub(r, b);
    } else {
      SubCopiesStep(r, a, b);
      SubCopies(r, a[1..], b);
      Assoc([a[0]], a[1..], Sub(r, b));
      assert [a[0]] + a[1..] == a;
    }
  }

  lemma SubCopiesStep(r: Rule, a: string, b: string)
    requires a != [] && forall k :: 0 <= k < |a| ==> MatchRule(r, a[k..] + b).None?
    ensures Sub(r, a + b) == [a[0]] + Sub(r, a[1..] + b)
    ensures forall k :: 0 <= k < |a[1..]| ==> MatchRule(r, a[1..][k..] + b).None?
  {
    assert a[0..] == a;
    SubStep(r, a + b);
    assert (a + b)[1..] == a[1..] + b;
    forall k | 0 <= k < |a[1..]| ensures MatchRule(r, a[1..][k..] + b).None? {
      assert a[1..][k..] == a[k + 1..];
    }
  }

  /** Where rule `r` does not match, `re.sub` copies one character and moves on. */
  lemma SubStep(r: Rule, t: string)
    requires t != [] && MatchRule(r, t).None?
    ensures Sub(r, t) == [t[0]] + Sub(r, t[1..])
  {
  }

  /** A match at the start of `a + b` covering exactly `a` emits its replacement and resumes at `b`. */
  lemma SubHit(r: Rule, a: string, b: string, out: string)
    requires MatchRule(r, a + b) == Some(Hit(|a|, out))
    ensures Sub(r, a + b) == out + Sub(r, b)
  {
    assert (a + b)[|a|..] == b;
  }

  /** Rule output is a substitution of text for text: concatenation of the pieces it emits. */
  lemma SubEmpty(r: Rule)
    ensures Sub(r, "") == ""
  {
  }

  // ------------------------------------------------------------------ the greedy word run

  /**
   * A run of word characters that is directly followed by a non-word
   * character is the longest run: the only way `(\w+)` followed by a phrase
   * starting with a space can match.
   */
  lemma WordRunIsOnlySplit(t: string, k: nat)
    requires 1 <= k < |t|
    requires forall i :: 0 <= i < k ==> IsWordChar(t[i])
    requires !IsWordChar(t[k])
    ensures WordRun(t) == k
  {
  }

  lemma {:induction false} WordRunOfWord(w: string, rest: string)
    requires forall i :: 0 <= i < |w| ==> IsWordChar(w[i])
    requires NotWordAt(rest, 0)
    ensures WordRun(w + rest) == |w|
    decreases |w|
  {
    if w != [] {
      assert (w + rest)[1..] == w[1..] + rest;
      WordRunOfWord(w[1..], rest);
    } else {
      assert w + rest == rest;
    }
  }

  // ------------------------------------------------------------------ where a match can start

  /** The characters a match of rule `r` can begin with. */
  predicate CanStart(r: Rule, c: char) {
    match r
    case TagRootProgram => IsWordChar(c)
    case TagWebStore => IsWordChar(c)
    case TagRemoteDesktop => IsWordChar(c)
    case TagChromiumLink => c == '"'
    case Rebrand => c == 'C' || c == 'G'
    case UntagBrand => c == 'C' || c == 'G'
    case Untag => c == '_'
  }

  lemma MatchStart(r: Rule, t: string)
    requires MatchRule(r, t).Some?
    ensures CanStart(r, t[0])
  {
    match r
    case TagRootProgram =>
    case TagWebStore =>
    case TagRemoteDesktop =>
    case TagChromiumLink => assert t[..|BeginLink|][0] == t[0];
    case Rebrand =>
      if StartsWith(t, "Google ") { assert t[..7][0] == t[0]; }
      else if StartsWith(t, "Chrome") { assert t[..6][0] == t[0]; }
      else { assert t[..8][0] == t[0]; }
    case UntagBrand =>
      if StartsWith(t, "Google ") { assert t[..7][0] == t[0]; }
      else if StartsWith(t, "Chrome" + Tag) { assert t[..16][0] == t[0]; }
      else { assert t[..18][0] == t[0]; }
    case Untag => assert t[..|Tag|][0] == t[0];
  }

  lemma NoMatchWithoutStart(r: Rule, t: string)
    requires t != [] && !CanStart(r, t[0])
    ensures MatchRule(r, t).None?
  {
    if MatchRule(r, t).Some? {
      MatchStart(r, t);
    }
  }

  /** A stretch of characters none of which can start a match is copied unchanged. */
  lemma SubCopiesInert(r: Rule, a: string, b: string)
    requires forall i :: 0 <= i < |a| ==> !CanStart(r, a[i])
    ensures Sub(r, a + b) == a + Sub(r, b)
  {
    forall k | 0 <= k < |a| ensures MatchRule(r, a[k..] + b).None? {
      assert (a[k..] + b)[0] == a[k];
      NoMatchWithoutStart(r, a[k..] + b);
    }
    SubCopies(r, a, b);
  }

  // ------------------------------------------------------------------ rules 1-3

  /** A tag rule tags a word that stands directly before one of its phrases. */
  lemma TagsWordBefore(r: Rule, w: string, p: string, rest: string)
    requires IsTagRule(r) && (p == Phrase(r) || p == AltPhrase(r))
    requires w != [] && forall i :: 0 <= i < |w| ==> IsWordChar(w[i])
    ensures Sub(r, w + p + rest) == w + Tag + Phrase(r) + Sub(r, rest)
  {
    if p != Phrase(r) {
      assert (p + rest)[4] != Phrase(r)[4];
    }
    TagWordBeforeHit(w, p, rest, Phrase(r), AltPhrase(r));
    assert MatchRule(r, w + p + rest) == TagWordBefore(w + p + rest, Phrase(r), AltPhrase(r), Phrase(r));
    SubHit(r, w + p, rest, w + Tag + Phrase(r));
  }

  lemma TagWordBeforeHit(w: string, p: string, rest: string, phrase: string, alt: string)
    requires p == phrase || (p == alt && !StartsWith(p + rest, phrase))
    requires p != [] && p[0] == ' '
    requires w != [] && forall i :: 0 <= i < |w| ==> IsWordChar(w[i])
    ensures TagWordBefore(w + p + rest, phrase, alt, phrase) == Some(Hit(|w + p|, w + Tag + phrase))
  {
    var t := w + (p + rest);
    assert w + p + rest == t;
    assert (p + rest)[0] == ' ';
    WordRunOfWord(w, p + rest);
    assert t[|w|..] == p + rest;
    assert t[..|w|] == w;
    assert (p + rest)[..|p|] == p;
  }

  /** A word that is not followed by a tag rule's phrase is left alone by that rule. */
  lemma TagSkipsWord(r: Rule, u: string, rest: string)
    requires IsTagRule(r)
    requires forall i :: 0 <= i < |u| ==> IsWordChar(u[i])
    requires NotWordAt(rest, 0)
    requires !StartsWith(rest, Phrase(r)) && !StartsWith(rest, AltPhrase(r))
    ensures Sub(r, u + rest) == u + Sub(r, rest)
  {
    forall k | 0 <= k < |u| ensures MatchRule(r, u[k..] + rest).None? {
      WordRunOfWord(u[k..], rest);
      assert (u[k..] + rest)[|u| - k..] == rest;
    }
    SubCopies(r, u, rest);
  }

  // ------------------------------------------------------------------ rule 4

  /** The converse of `FindOnLine`'s contract: the first occurrence on the line is found. */
  lemma {:induction false} FindOnLineAt(t: string, from: nat, j: nat, p: string)
    requires p != [] && from <= j && j + |p| <= |t| && StartsWith(t[j..], p)
    requires forall k :: from <= k < j ==> t[k] != '\n' && !StartsWith(t[k..], p)
    ensures FindOnLine(t, from, p) == Some(j)
    decreases j - from
  {
    if from < j {
      FindOnLineAt(t, from + 1, j, p);
    }
  }

  /** No occurrence of `p` starts inside `x`, even one running on past its end. */
  predicate NoneStartsIn(x: string, p: string) {
    forall k :: 0 <= k < |x| ==> !StartsWith((x + p)[k..], p)
  }

  /**
   * Rule 4 tags the first "Chromium" after the opening marker when the
   * closing marker follows on the same line: `x` holds no earlier
   * "Chromium" and `y` no earlier closing marker, so nothing else can be
   * the lazy groups' choice.
   */
  lemma LinkTagsChromium(x: string, y: string, rest: string)
    requires '\n' !in x && NoneStartsIn(x, "Chromium")
    requires '\n' !in y && NoneStartsIn(y, EndLink)
    ensures Sub(TagChromiumLink, BeginLink + x + "Chromium" + y + EndLink + rest)
         == BeginLink + x + "Chromium" + Tag + y + EndLink + Sub(TagChromiumLink, rest)
  {
    var a := BeginLink + x + "Chromium" + y + EndLink;
    var h := BeginLink + x + "Chromium" + Tag + y + EndLink;
    LinkMatchOf(x, y, rest);
    assert MatchRule(TagChromiumLink, a + rest) == Some(Hit(|a|, h));
    SubHit(TagChromiumLink, a, rest, h);
  }

  /**
   * A "Chrome" before the "Chromium" and an HTML tag before the closing
   * marker do not stop rule 4: only an earlier "Chromium" or closing
   * marker would.
   */
  lemma LinkTagsAfterChrome(rest: string)
    ensures Sub(TagChromiumLink, BeginLink + "Chrome " + "Chromium" + " <b>" + EndLink + rest)
         == BeginLink + "Chrome " + "Chromium" + Tag + " <b>" + EndLink + Sub(TagChromiumLink, rest)
  {
    ChromeHoldsNoChromium();
    TagHoldsNoEndLink();
    LinkTagsChromium("Chrome ", " <b>", rest);
  }

  lemma ChromeHoldsNoChromium()
    ensures NoneStartsIn("Chrome ", "Chromium")
  {
    var u := "Chrome " + "Chromium";
    forall k | 0 <= k < 7 ensures !StartsWith(u[k..], "Chromium") {
      if k == 0 { assert u[k..][5] == 'e'; } else { assert u[k..][0] != 'C'; }
    }
  }

  lemma TagHoldsNoEndLink()
    ensures NoneStartsIn(" <b>", EndLink)
  {
    var u := " <b>" + EndLink;
    forall k | 0 <= k < 4 ensures !StartsWith(u[k..], EndLink) {
      if k == 1 { assert u[k..][1] == 'b'; } else { assert u[k..][0] != '<'; }
    }
  }

  lemma LinkMatchOf(x: string, y: string, rest: string)
    requires '\n' !in x && NoneStartsIn(x, "Chromium")
    requires '\n' !in y && NoneStartsIn(y, EndLink)
    ensures LinkMatch(BeginLink + x + "Chromium" + y + EndLink + rest)
         == Some(Hit(|BeginLink + x + "Chromium" + y + EndLink|, BeginLink + x + "Chromium" + Tag + y + EndLink))
  {
    var t := BeginLink + x + "Chromium" + y + EndLink + rest;
    Pieces(BeginLink, x, "Chromium", y, EndLink, rest);
    LinkMatchPieces(t, x, y, rest);
    Assoc3(BeginLink + x + "Chromium", Tag, y, EndLink);
  }

  lemma LinkMatchPieces(t: string, x: string, y: string, rest: string)
    requires '\n' !in x && NoneStartsIn(x, "Chromium")
    requires '\n' !in y && NoneStartsIn(y, EndLink)
    requires |BeginLink| <= |t| && t[..|BeginLink|] == BeginLink
    requires t[|BeginLink|..] == x + "Chromium" + (y + EndLink + rest)
    requires t[|BeginLink| + |x| + 8..] == y + EndLink + rest
    ensures var j := |BeginLink| + |x|;
      var m := j + 8 + |y|;
      m + |EndLink| <= |t| && LinkMatch(t) == Some(Hit(m + |EndLink|, t[..j + 8] + Tag + t[j + 8..m + |EndLink|]))
  {
    var j := |BeginLink| + |x|;
    LinkPieceLengths();
    FindsFirst(t, |BeginLink|, x, "Chromium", y + EndLink + rest);
    LinkOpens(t, j);
    LinkClosesOver(t, j, y, rest);
  }

  /** The closing placeholder after `y` ends the match. */
  lemma LinkClosesOver(t: string, j: nat, y: string, rest: string)
    requires '\n' !in y && NoneStartsIn(y, EndLink)
    requires j + 8 <= |t| && t[j + 8..] == y + EndLink + rest
    ensures var m := j + 8 + |y|;
      m + |EndLink| <= |t| && LinkClose(t, j) == Some(Hit(m + |EndLink|, t[..j + 8] + Tag + t[j + 8..m + |EndLink|]))
  {
    LinkPieceLengths();
    FindsFirst(t, j + 8, y, EndLink, rest);
    LinkCloses(t, j, j + 8 + |y|);
  }

  lemma LinkPieceLengths()
    ensures |"Chromium"| == 8 && EndLink != []
  {
  }

  /** Where and what the pieces of `a + x + c + y + e + rest` are. */
  lemma Pieces(a: string, x: string, c: string, y: string, e: string, rest: string)
    ensures var t := a + x + c + y + e + rest;
      && t[..|a|] == a
      && t[|a|..] == x + c + (y + e + rest)
      && t[|a| + |x| + |c|..] == y + e + rest
      && t[..|a| + |x| + |c|] == a + x + c
      && t[|a| + |x| + |c|..|a| + |x| + |c| + |y| + |e|] == y + e
  {
    var t := a + x + c + y + e + rest;
    var u := a + x + c;
    Assoc(u, y, e);
    Assoc(u, y + e, rest);
    assert t == u + (y + e + rest);
    assert t[|u|..] == y + e + rest;
    assert t[..|u|] == u;
  }

  /**
   * The first occurrence of `p` at or after `from` is the one after `x`
   * when `x` has no line break and no occurrence of `p` starts inside it.
   */
  lemma FindsFirst(t: string, from: nat, x: string, p: string, after: string)
    requires p != [] && '\n' !in x && NoneStartsIn(x, p)
    requires from <= |t| && t[from..] == x + p + after
    ensures FindOnLine(t, from, p) == Some(from + |x|)
    ensures from + |x| + |p| <= |t|
  {
    var j := from + |x|;
    assert t[j..][..|p|] == p by {
      assert t[j..] == (x + p + after)[|x|..];
    }
    forall k | from <= k < j ensures t[k] != '\n' && !StartsWith(t[k..], p) {
      var i := k - from;
      assert t[k] == (x + p + after)[i] == x[i];
      assert x[i] in x;
      assert t[k..] == (x + p)[i..] + after;
      StartsWithLonger((x + p)[i..], after, p);
    }
    FindOnLineAt(t, from, j, p);
  }

  /** Whether `a + b` starts with `p` depends on `a` alone when `a` is at least as long as `p`. */
  lemma StartsWithLonger(a: string, b: string, p: string)
    requires |p| <= |a|
    ensures StartsWith(a + b, p) <==> StartsWith(a, p)
  {
    assert (a + b)[..|p|] == a[..|p|];
  }

  lemma LinkOpens(t: string, j: nat)
    requires StartsWith(t, BeginLink)
    requires FindOnLine(t, |BeginLink|, "Chromium") == Some(j)
    ensures j + 8 <= |t| && LinkMatch(t) == LinkClose(t, j)
  {
  }

  lemma LinkCloses(t: string, j: nat, m: nat)
    requires j + 8 <= |t| && FindOnLine(t, j + 8, EndLink) == Some(m)
    ensures LinkClose(t, j) == Some(Hit(m + |EndLink|, t[..j + 8] + Tag + t[j + 8..m + |EndLink|]))
  {
  }

  // ------------------------------------------------------------------ rule 5

  const Brands: set<string> := {"Chrome", "Chromium", "Google Chrome", "Google Chromium"}

  lemma BrandLenOf(b: string, rest: string)
    requires b == "Chrome" || b == "Chromium"
    requires NotWordAt(rest, 0)
    ensures BrandLen(b + rest) == Some(|b|)
  {
    var t := b + rest;
    assert t[..|b|] == b;
    if b == "Chromium" {
      assert t[5] == 'i';
    }
    if rest != [] {
      assert t[|b|] == rest[0];
    }
  }

  /** Every brand name that is not followed by a word character becomes "Helium". */
  lemma RebrandReplacesBrand(b: string, rest: string)
    requires b in Brands
    requires NotWordAt(rest, 0)
    ensures Sub(Rebrand, b + rest) == NewBrand + Sub(Rebrand, rest)
  {
    if b == "Chrome" || b == "Chromium" {
      RebrandMatchShort(b, rest);
    } else {
      var brand := b[7..];
      assert b == "Google " + brand;
      RebrandMatchGoogle(brand, rest);
    }
    SubHit(Rebrand, b, rest, NewBrand);
  }

  lemma RebrandMatchShort(b: string, rest: string)
    requires b == "Chrome" || b == "Chromium"
    requires NotWordAt(rest, 0)
    ensures MatchRule(Rebrand, b + rest) == Some(Hit(|b|, NewBrand))
  {
    var t := b + rest;
    BrandLenOf(b, rest);
    assert t[0] == 'C';
    assert !StartsWith(t, "Google ") by {
      if |t| >= 7 { assert t[..7][0] == 'C'; }
    }
  }

  lemma RebrandMatchGoogle(brand: string, rest: string)
    requires brand == "Chrome" || brand == "Chromium"
    requires NotWordAt(rest, 0)
    ensures MatchRule(Rebrand, "Google " + brand + rest) == Some(Hit(7 + |brand|, NewBrand))
  {
    var t := "Google " + brand + rest;
    BrandLenOf(brand, rest);
    assert t[..7] == "Google ";
    assert t[7..] == brand + rest;
  }

  /** Every character of the tag is a word character, and none is "C" or "G". */
  lemma TagChars()
    ensures forall i :: 0 <= i < |Tag| ==> IsWordChar(Tag[i]) && Tag[i] != 'C' && Tag[i] != 'G'
  {
    forall i | 0 <= i < |Tag| ensures IsWordChar(Tag[i]) && Tag[i] != 'C' && Tag[i] != 'G' {
      assert Tag[i] in Tag;
    }
  }

  /**
   * Rule 5 cannot match where the sixth and eighth characters after the
   * scan position are word characters: "Google " needs a space there, and
   * both brands must end before a non-word character.
   */
  lemma RebrandNeedsBoundary(v: string)
    requires |v| > 8 && IsWordChar(v[6]) && IsWordChar(v[8])
    ensures MatchRule(Rebrand, v).None?
  {
    assert !StartsWith(v, "Google ") by {
      assert v[..7][6] == v[6];
    }
  }

  /** "Chrome" or "Chromium" that runs on into a longer word is not a brand name. */
  lemma RebrandKeepsLongerWord(b: string, rest: string)
    requires b == "Chrome" || b == "Chromium"
    requires !NotWordAt(rest, 0)
    ensures MatchRule(Rebrand, b + rest).None?
  {
    var t := b + rest;
    assert !StartsWith(t, "Google ") by {
      assert t[0] == 'C';
      assert |t| >= 7 ==> t[..7][0] == 'C';
    }
    if b == "Chromium" {
      assert t[8] == rest[0];
      assert !StartsWith(t, "Chrome") by {
        assert t[..6][5] == 'i';
      }
    } else {
      assert t[6] == rest[0];
      assert !StartsWith(t, "Chromium") by {
        assert |t| >= 8 ==> t[..8][5] == 'e';
      }
    }
  }

  /**
   * A word carrying the tag is never rebranded, wherever the scan enters it:
   * a brand inside it runs on into a word character, and a suffix of the tag
   * cannot begin with "C" or "G".
   */
  lemma RebrandSkipsTagged(w: string, rest: string)
    requires forall i :: 0 <= i < |w| ==> IsWordChar(w[i])
    ensures Sub(Rebrand, w + Tag + rest) == w + Tag + Sub(Rebrand, rest)
  {
    var u := w + Tag;
    TagChars();
    forall k | 0 <= k < |u| ensures MatchRule(Rebrand, u[k..] + rest).None? {
      var v := u[k..] + rest;
      if k >= |w| {
        assert v[0] == Tag[k - |w|];
        NoMatchWithoutStart(Rebrand, v);
      } else {
        assert v[6] == u[k + 6] && v[8] == u[k + 8];
        RebrandNeedsBoundary(v);
      }
    }
    SubCopies(Rebrand, u, rest);
    assert u + rest == w + Tag + rest;
  }

  /** Replacing a brand never introduces a character that was not there and is not in "Helium". */
  lemma {:induction false} RebrandAddsNoChar(c: char, t: string)
    requires c !in t && c !in NewBrand
    ensures c !in Sub(Rebrand, t)
    decreases |t|
  {
    if t != [] {
      match MatchRule(Rebrand, t)
      case Some(h) =>
        assert h.text == NewBrand;
        RebrandAddsNoChar(c, t[h.len..]);
      case None =>
        RebrandAddsNoChar(c, t[1..]);
    }
  }

  // ------------------------------------------------------------------ rules 6-7

  /** A tagged word starts with "brand + tag" exactly when the word is the brand. */
  lemma TaggedBrandAt(w: string, b: string, rest: string)
    requires forall i :: 0 <= i < |w| ==> IsWordChar(w[i])
    requires '_' !in w
    requires b == "Chrome" || b == "Chromium"
    ensures StartsWith(w + Tag + rest, b + Tag) <==> w == b
  {
    var v := w + Tag + rest;
    var p := b + Tag;
    if w == b {
      assert v[..|p|] == p;
    } else if |w| < |b| {
      assert v[|w|] == '_';
      assert p[|w|] == b[|w|];
      assert b[|w|] in b;
      assert |p| <= |v| ==> v[..|p|][|w|] == '_';
    } else if |w| > |b| {
      assert v[|b|] == w[|b|];
      assert w[|b|] in w;
      assert |p| <= |v| ==> v[..|p|][|b|] == w[|b|];
    } else {
      assert v[..|b|] == w;
      assert |p| <= |v| ==> v[..|p|][..|b|] == w;
    }
  }

  /** Rule 6 matches at the start of a tagged word exactly when the word is a brand. */
  lemma UntagBrandInTaggedWord(w: string, rest: string)
    requires w != [] && forall i :: 0 <= i < |w| ==> IsWordChar(w[i])
    requires '_' !in w
    ensures MatchRule(UntagBrand, w + Tag + rest).Some? <==> w == "Chrome" || w == "Chromium"
    ensures w == "Chrome" || w == "Chromium" ==> MatchRule(UntagBrand, w + Tag + rest) == Some(Hit(|w| + |Tag|, w))
  {
    var v := w + Tag + rest;
    TagChars();
    assert !StartsWith(v, "Google ") by {
      if 6 < |w| { assert v[6] == w[6]; } else { assert v[6] == Tag[6 - |w|]; }
      assert |v| >= 7 ==> v[..7][6] == v[6];
    }
    TaggedBrandAt(w, "Chrome", rest);
    TaggedBrandAt(w, "Chromium", rest);
    assert v[..|w|] == w;
  }

  /** Whether `w` ends with one of the two brand spellings. */
  predicate EndsWithBrand(w: string) {
    EndsWith(w, "Chrome") || EndsWith(w, "Chromium")
  }

  lemma EndsWithBrandTail(w: string)
    requires w != [] && w != "Chrome" && w != "Chromium"
    ensures EndsWithBrand(w) == EndsWithBrand(w[1..])
  {
    var t := w[1..];
    if |w| > 6 {
      assert w[|w| - 6..] == t[|t| - 6..];
    } else if |w| == 6 {
      assert w[|w| - 6..] == w;
    }
    if |w| > 8 {
      assert w[|w| - 8..] == t[|t| - 8..];
    } else if |w| == 8 {
      assert w[|w| - 8..] == w;
      assert EndsWith(t, "Chrome") ==> t[1..] == "Chrome";
      assert EndsWith(t, "Chrome") ==> w[2] == 'C';
    }
  }

  /**
   * Rule 6 over a tagged word: the tag goes when the word ends with a brand
   * and stays otherwise.
   */
  lemma {:induction false} UntagBrandOverTagged(w: string, rest: string)
    requires forall i :: 0 <= i < |w| ==> IsWordChar(w[i])
    requires '_' !in w
    ensures Sub(UntagBrand, w + Tag + rest)
         == w + ((if EndsWithBrand(w) then [] else Tag) + Sub(UntagBrand, rest))
    decreases |w|
  {
    if w == [] {
      UntagBrandOnTag(rest);
      assert w + Tag + rest == Tag + rest;
      assert w + (Tag + Sub(UntagBrand, rest)) == Tag + Sub(UntagBrand, rest);
    } else if w == "Chrome" || w == "Chromium" {
      UntagBrandOnBrand(w, rest);
      assert [] + Sub(UntagBrand, rest) == Sub(UntagBrand, rest);
    } else {
      UntagBrandOverTagged(w[1..], rest);
      UntagBrandCopiesFirst(w, rest);
      EndsWithBrandTail(w);
      ConsConcat(w, Sub(UntagBrand, w + Tag + rest), Sub(UntagBrand, w[1..] + Tag + rest),
                 (if EndsWithBrand(w) then [] else Tag) + Sub(UntagBrand, rest));
    }
  }

  lemma UntagBrandOnTag(rest: string)
    ensures Sub(UntagBrand, Tag + rest) == Tag + Sub(UntagBrand, rest)
  {
    TagChars();
    SubCopiesInert(UntagBrand, Tag, rest);
  }

  lemma UntagBrandOnBrand(w: string, rest: string)
    requires w == "Chrome" || w == "Chromium"
    ensures EndsWithBrand(w)
    ensures Sub(UntagBrand, w + Tag + rest) == w + Sub(UntagBrand, rest)
  {
    UntagBrandInTaggedWord(w, rest);
    SubHit(UntagBrand, w + Tag, rest, w);
    assert w[|w| - |w|..] == w;
  }

  /** Outside a brand, rule 6 copies the first character of a tagged word. */
  lemma UntagBrandCopiesFirst(w: string, rest: string)
    requires w != [] && w != "Chrome" && w != "Chromium"
    requires forall i :: 0 <= i < |w| ==> IsWordChar(w[i])
    requires '_' !in w
    ensures Sub(UntagBrand, w + Tag + rest) == [w[0]] + Sub(UntagBrand, w[1..] + Tag + rest)
  {
    var t := w + Tag + rest;
    UntagBrandInTaggedWord(w, rest);
    SubStep(UntagBrand, t);
    assert t[1..] == w[1..] + Tag + rest;
  }

  lemma ConsConcat(w: string, a: string, b: string, c: string)
    requires w != [] && a == [w[0]] + b
    ensures b == w[1..] + c ==> a == w + c
  {
    assert w == [w[0]] + w[1..];
  }

  lemma UntagLeavesPlain(w: string, rest: string)
    requires '_' !in w && '_' !in rest
    ensures Sub(Untag, w + rest) == w + rest
  {
    assert '_' !in w + rest;
    SubWithoutKeyChar(Untag, w + rest);
  }

  /** Rule 7 deletes the tag after a word that has no underscore. */
  lemma UntagOverTagged(w: string, rest: string)
    requires '_' !in w
    ensures Sub(Untag, w + Tag + rest) == w + Sub(Untag, rest)
  {
    SubCopiesInert(Untag, w, Tag + rest);
    UntagMatchesTag(rest);
    SubHit(Untag, Tag, rest, "");
    Assoc(w, Tag, rest);
  }

  lemma UntagMatchesTag(rest: string)
    ensures MatchRule(Untag, Tag + rest) == Some(Hit(|Tag|, ""))
  {
    assert (Tag + rest)[..|Tag|] == Tag;
  }

  /**
   * Rules 6 and 7 together give back a tagged word as it was, tag removed,
   * whether or not it ends with a brand.
   */
  lemma UntagRestores(w: string, rest: string)
    requires forall i :: 0 <= i < |w| ==> IsWordChar(w[i])
    requires '_' !in w && '_' !in rest
    ensures Sub(Untag, Sub(UntagBrand, w + Tag + rest)) == w + rest
  {
    if EndsWithBrand(w) {
      UntagRestoresBrand(w, rest);
    } else {
      UntagRestoresOther(w, rest);
    }
  }

  lemma UntagRestoresBrand(w: string, rest: string)
    requires forall i :: 0 <= i < |w| ==> IsWordChar(w[i])
    requires '_' !in w && '_' !in rest
    requires EndsWithBrand(w)
    ensures Sub(Untag, Sub(UntagBrand, w + Tag + rest)) == w + rest
  {
    var mid := Sub(UntagBrand, w + Tag + rest);
    UntagBrandOnPlainRest(w, rest);
    UntagLeavesPlain(w, rest);
    assert mid == w + rest;
  }

  lemma UntagRestoresOther(w: string, rest: string)
    requires forall i :: 0 <= i < |w| ==> IsWordChar(w[i])
    requires '_' !in w && '_' !in rest
    requires !EndsWithBrand(w)
    ensures Sub(Untag, Sub(UntagBrand, w + Tag + rest)) == w + rest
  {
    var mid := Sub(UntagBrand, w + Tag + rest);
    UntagBrandOnPlainRest(w, rest);
    assert mid == w + Tag + rest;
    UntagOverTagged(w, rest);
    SubWithoutKeyChar(Untag, rest);
  }

  /** Rule 6 over a tagged word followed by text without underscores. */
  lemma UntagBrandOnPlainRest(w: string, rest: string)
    requires forall i :: 0 <= i < |w| ==> IsWordChar(w[i])
    requires '_' !in w && '_' !in rest
    ensures EndsWithBrand(w) ==> Sub(UntagBrand, w + Tag + rest) == w + rest
    ensures !EndsWithBrand(w) ==> Sub(UntagBrand, w + Tag + rest) == w + Tag + rest
  {
    UntagBrandOverTagged(w, rest);
    SubWithoutKeyChar(UntagBrand, rest);
    if EndsWithBrand(w) {
      assert [] + rest == rest;
    } else {
      Assoc(w, Tag, rest);
    }
  }
}
