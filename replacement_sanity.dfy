/**
 * What the rule pipeline of name_substitution_utils.py does to whole
 * strings: the protected-phrase guarantee for any word, and the
 * before/after pairs that name_substitution.py checks at start-up.
 */
module ReplacementSanity {
  import opened Text
  import opened SubstitutionRules

  /** One step of `replace_text`'s loop: rule `i` turns `s` into `t`. */
  lemma Stage(i: nat, s: string, t: string)
    requires i < |Rules| && Sub(Rules[i], s) == t
    ensures ApplyRules(Rules[i..], s) == ApplyRules(Rules[i + 1..], t)
  {
    assert Rules[i..][1..] == Rules[i + 1..];
  }

  /** A step whose rule cannot match anywhere in `s`. */
  lemma StageKeeps(i: nat, s: string)
    requires i < |Rules| && KeyChar(Rules[i]) !in s
    ensures ApplyRules(Rules[i..], s) == ApplyRules(Rules[i + 1..], s)
  {
    SubWithoutKeyChar(Rules[i], s);
    Stage(i, s, s);
  }

  lemma StagesStartAndEnd(s: string)
    ensures Replaced(s) == ApplyRules(Rules[0..], s)
    ensures ApplyRules(Rules[|Rules|..], s) == s
  {
    assert Rules[0..] == Rules;
    assert Rules[|Rules|..] == [];
  }

  predicate AllWordChars(w: string) {
    forall i :: 0 <= i < |w| ==> IsWordChar(w[i])
  }

  lemma TaggedWordChars(w: string)
    requires AllWordChars(w)
    ensures AllWordChars(w + Tag)
  {
    TagChars();
  }

  /** Rules whose key characters are all absent from `s` leave it alone, however many run in a row. */
  lemma {:induction false} KeepsPrefix(rules: seq<Rule>, n: nat, s: string)
    requires n <= |rules|
    requires forall i :: 0 <= i < n ==> KeyChar(rules[i]) !in s
    ensures ApplyRules(rules, s) == ApplyRules(rules[n..], s)
  {
    if n > 0 {
      SubWithoutKeyChar(rules[0], s);
      KeepsPrefix(rules[1..], n - 1, s);
      assert rules[1..][n - 1..] == rules[n..];
    }
  }

  /** A text containing none of the characters a rule needs passes every rule unchanged. */
  lemma ReplacedWithoutKeyChars(s: string)
    requires forall r :: KeyChar(r) !in s
    ensures Replaced(s) == s
  {
    KeepsPrefix(Rules, |Rules|, s);
    assert Rules[|Rules|..] == [];
  }

  /** Without "P", "W", "D" or a double quote, rules 1-4 find nothing to tag. */
  lemma TagRulesIdle(s: string)
    requires 'P' !in s && 'W' !in s && 'D' !in s && '"' !in s
    ensures Replaced(s) == ApplyRules(Rules[4..], s)
  {
    assert forall i :: 0 <= i < 4 ==> KeyChar(Rules[i]) in "PWD\"";
    KeepsPrefix(Rules, 4, s);
  }

  /** A string without the key characters of rules 1-3 and without '_'. */
  predicate Plain(s: string) {
    'P' !in s && 'W' !in s && 'D' !in s && '"' !in s && '_' !in s
  }

  /**
   * Without "P", "W", "D", a double quote or an underscore no word can be
   * tagged, so only the main rule has any effect.
   */
  lemma ReplacedPlain(s: string)
    requires Plain(s)
    ensures Replaced(s) == Sub(Rebrand, s)
  {
    TagRulesIdle(s);
    var t := Sub(Rebrand, s);
    Stage(4, s, t);
    RebrandAddsNoChar('_', s);
    StageKeeps(5, t);
    StageKeeps(6, t);
    StagesStartAndEnd(t);
  }

  // ------------------------------------------------------------------ protected phrases

  /** A tag rule whose phrase does not follow a word leaves the word and the phrase alone. */
  lemma TagRuleSkips(r: Rule, u: string, q: string)
    requires IsTagRule(r) && AllWordChars(u)
    requires |q| > 3 && q[0] == ' ' && q[3] != Phrase(r)[3]
    requires KeyChar(r) !in q
    ensures Sub(r, u + q) == u + q
  {
    assert !StartsWith(q, Phrase(r)) by {
      assert |Phrase(r)| <= |q| ==> q[..|Phrase(r)|][3] == q[3];
    }
    assert !StartsWith(q, AltPhrase(r)) by {
      assert |AltPhrase(r)| <= |q| ==> q[..|AltPhrase(r)|][3] == q[3];
    }
    TagSkipsWord(r, u, q);
    SubWithoutKeyChar(r, q);
  }

  /** A tag rule tags a word standing directly before its phrase, which ends the string. */
  lemma TagRuleTags(r: Rule, w: string, p: string)
    requires IsTagRule(r) && (p == Phrase(r) || p == AltPhrase(r))
    requires w != [] && AllWordChars(w)
    ensures Sub(r, w + p) == w + Tag + Phrase(r)
  {
    TagsWordBefore(r, w, p, "");
    assert w + p + "" == w + p;
    assert w + Tag + Phrase(r) + "" == w + Tag + Phrase(r);
  }

  /** The canonical phrases contain nothing that rules 4-7 react to. */
  predicate QuietPhrase(q: string) {
    q != [] && q[0] == ' ' && '"' !in q && 'C' !in q && 'G' !in q && '_' !in q
  }

  /** Rules 4-7 turn a tagged word followed by a quiet phrase back into the word and the phrase. */
  lemma LaterRulesRestore(w: string, q: string)
    requires AllWordChars(w) && '_' !in w
    requires QuietPhrase(q)
    ensures ApplyRules(Rules[3..], w + Tag + q) == w + q
  {
    var u := w + Tag + q;
    LinkAndRebrandIdle(w, q);
    var v := Sub(UntagBrand, u);
    Stage(5, u, v);
    UntagRestores(w, q);
    Stage(6, v, w + q);
    StagesStartAndEnd(w + q);
  }

  /** Rules 4 and 5 leave a tagged word followed by a quiet phrase alone. */
  lemma LinkAndRebrandIdle(w: string, q: string)
    requires AllWordChars(w) && '_' !in w
    requires QuietPhrase(q)
    ensures ApplyRules(Rules[3..], w + Tag + q) == ApplyRules(Rules[5..], w + Tag + q)
  {
    var u := w + Tag + q;
    TagChars();
    assert '"' !in u by {
      assert forall i :: 0 <= i < |w| ==> w[i] != '"';
      assert '"' !in Tag;
    }
    StageKeeps(3, u);
    RebrandSkipsTagged(w, q);
    SubWithoutKeyChar(Rebrand, q);
    Stage(4, u, u);
  }

  /** A tag rule (one of rules 1-3) tags a word standing directly before its phrase, which ends the string. */
  lemma StageTags(i: nat, w: string, p: string)
    requires i < 3 && (p == Phrase(Rules[i]) || p == AltPhrase(Rules[i]))
    requires w != [] && AllWordChars(w)
    ensures ApplyRules(Rules[i..], w + p) == ApplyRules(Rules[i + 1..], w + Tag + Phrase(Rules[i]))
  {
    TagRuleTags(Rules[i], w, p);
    Stage(i, w + p, w + Tag + Phrase(Rules[i]));
  }

  /** A tag rule leaves a word alone that is followed by another phrase. */
  lemma StageSkips(i: nat, u: string, q: string)
    requires i < 3 && AllWordChars(u)
    requires |q| > 3 && q[0] == ' ' && q[3] != Phrase(Rules[i])[3]
    requires KeyChar(Rules[i]) !in q
    ensures ApplyRules(Rules[i..], u + q) == ApplyRules(Rules[i + 1..], u + q)
  {
    TagRuleSkips(Rules[i], u, q);
    Stage(i, u + q, u + q);
  }

  /** The spelling the Web Store rule writes back; the other phrases are kept as they are. */
  function CanonicalPhrase(p: string): string {
    if p == " Webstore" then " Web Store" else p
  }

  /**
   * Any word without an underscore that directly precedes a protected
   * phrase survives `replace_text`, even a brand name, and " Webstore" is
   * normalised to " Web Store".
   */
  lemma ProtectedPhraseKept(w: string, p: string)
    requires w != [] && AllWordChars(w) && '_' !in w
    requires p in {" Root Program", " Web Store", " Webstore", " Remote Desktop"}
    ensures Replaced(w + p) == w + CanonicalPhrase(p)
  {
    if p == " Root Program" {
      RootProgramKept(w);
    } else if p == " Remote Desktop" {
      RemoteDesktopKept(w);
    } else {
      WebStoreKept(w, p);
    }
  }

  /** The canonical phrases are quiet. */
  lemma PhrasesQuiet()
    ensures QuietPhrase(" Root Program") && QuietPhrase(" Web Store") && QuietPhrase(" Remote Desktop")
  {
    assert QuietPhrase(" Root Program");
    assert QuietPhrase(" Web Store");
    assert QuietPhrase(" Remote Desktop");
  }

  /** Each phrase lacks the key characters of the other two tag rules and differs from their phrases at index 3. */
  lemma PhrasesApart()
    ensures KeyChar(Rules[1]) !in Phrase(Rules[0]) && Phrase(Rules[0])[3] != Phrase(Rules[1])[3]
    ensures KeyChar(Rules[2]) !in Phrase(Rules[0]) && Phrase(Rules[0])[3] != Phrase(Rules[2])[3]
    ensures KeyChar(Rules[0]) !in Phrase(Rules[1]) && Phrase(Rules[1])[3] != Phrase(Rules[0])[3]
    ensures KeyChar(Rules[0]) !in AltPhrase(Rules[1]) && AltPhrase(Rules[1])[3] != Phrase(Rules[0])[3]
    ensures KeyChar(Rules[2]) !in Phrase(Rules[1]) && Phrase(Rules[1])[3] != Phrase(Rules[2])[3]
    ensures KeyChar(Rules[0]) !in Phrase(Rules[2]) && Phrase(Rules[2])[3] != Phrase(Rules[0])[3]
    ensures KeyChar(Rules[1]) !in Phrase(Rules[2]) && Phrase(Rules[2])[3] != Phrase(Rules[1])[3]
  {
  }

  lemma RootProgramKept(w: string)
    requires w != [] && AllWordChars(w) && '_' !in w
    ensures Replaced(w + " Root Program") == w + " Root Program"
  {
    var p := " Root Program";
    StagesStartAndEnd(w + p);
    RootProgramTagged(w);
    PhrasesQuiet();
    LaterRulesRestore(w, p);
  }

  lemma RootProgramTagged(w: string)
    requires w != [] && AllWordChars(w)
    ensures ApplyRules(Rules[0..], w + " Root Program") == ApplyRules(Rules[3..], w + Tag + " Root Program")
  {
    var p := " Root Program";
    PhrasesApart();
    TaggedWordChars(w);
    StageTags(0, w, p);
    StageSkips(1, w + Tag, p);
    StageSkips(2, w + Tag, p);
  }

  lemma RemoteDesktopKept(w: string)
    requires w != [] && AllWordChars(w) && '_' !in w
    ensures Replaced(w + " Remote Desktop") == w + " Remote Desktop"
  {
    var p := " Remote Desktop";
    StagesStartAndEnd(w + p);
    RemoteDesktopTagged(w);
    PhrasesQuiet();
    LaterRulesRestore(w, p);
  }

  lemma RemoteDesktopTagged(w: string)
    requires w != [] && AllWordChars(w)
    ensures ApplyRules(Rules[0..], w + " Remote Desktop") == ApplyRules(Rules[3..], w + Tag + " Remote Desktop")
  {
    var p := " Remote Desktop";
    PhrasesApart();
    StageSkips(0, w, p);
    StageSkips(1, w, p);
    StageTags(2, w, p);
  }

  lemma WebStoreKept(w: string, p: string)
    requires w != [] && AllWordChars(w) && '_' !in w
    requires p == " Web Store" || p == " Webstore"
    ensures Replaced(w + p) == w + " Web Store"
  {
    var q := " Web Store";
    StagesStartAndEnd(w + p);
    WebStoreTagged(w, p);
    PhrasesQuiet();
    LaterRulesRestore(w, q);
  }

  lemma WebStoreTagged(w: string, p: string)
    requires w != [] && AllWordChars(w)
    requires p == " Web Store" || p == " Webstore"
    ensures ApplyRules(Rules[0..], w + p) == ApplyRules(Rules[3..], w + Tag + " Web Store")
  {
    var q := " Web Store";
    PhrasesApart();
    TaggedWordChars(w);
    StageSkips(0, w, p);
    StageTags(1, w, p);
    StageSkips(2, w + Tag, q);
  }

  // ------------------------------------------------------------------ the start-up fixtures

  lemma BrandIsWord(b: string)
    requires b == "Chrome" || b == "Chromium"
    ensures AllWordChars(b) && '_' !in b
  {
    forall i | 0 <= i < |b| ensures IsWordChar(b[i]) {
      assert b[i] in b;
    }
  }

  /** "Chrome Root Program" is kept. */
  lemma RootProgramFixture()
    ensures Replaced("Chrome" + " Root Program") == "Chrome" + " Root Program"
  {
    BrandIsWord("Chrome");
    RootProgramKept("Chrome");
  }

  /** "Chrome Web Store" is kept. */
  lemma ChromeWebStoreFixture()
    ensures Replaced("Chrome" + " Web Store") == "Chrome" + " Web Store"
  {
    BrandIsWord("Chrome");
    WebStoreKept("Chrome", " Web Store");
  }

  /** "Chromium Web Store" is kept. */
  lemma ChromiumWebStoreFixture()
    ensures Replaced("Chromium" + " Web Store") == "Chromium" + " Web Store"
  {
    BrandIsWord("Chromium");
    WebStoreKept("Chromium", " Web Store");
  }

  /** "Chrome Remote Desktop" is kept. */
  lemma RemoteDesktopFixture()
    ensures Replaced("Chrome" + " Remote Desktop") == "Chrome" + " Remote Desktop"
  {
    BrandIsWord("Chrome");
    RemoteDesktopKept("Chrome");
  }

  /** The Web Store rule also accepts " Webstore" and writes " Web Store" back. */
  lemma WebstoreNormalised()
    ensures Replaced("Chrome" + " Webstore") == "Chrome" + " Web Store"
  {
    BrandIsWord("Chrome");
    WebStoreKept("Chrome", " Webstore");
  }

  /** A brand name on its own, with or without "Google ", becomes "Helium". */
  lemma BrandAlone(b: string)
    requires b in Brands && 'D' !in b && 'P' !in b && 'W' !in b
    ensures Replaced(b) == NewBrand
  {
    assert '"' !in b && '_' !in b;
    ReplacedPlain(b);
    RebrandReplacesBrand(b, "");
    assert b + "" == b;
  }

  lemma GoogleChromeFixture()
    ensures Replaced("Google Chrome") == "Helium"
  {
    BrandAlone("Google Chrome");
  }

  lemma ChromeFixture()
    ensures Replaced("Chrome") == "Helium"
  {
    BrandAlone("Chrome");
  }

  lemma ChromiumFixture()
    ensures Replaced("Chromium") == "Helium"
  {
    BrandAlone("Chromium");
  }

  /** Rule 5 copies a character that cannot begin a brand name. */
  lemma RebrandCopies(c: char, rest: string)
    requires c != 'C' && c != 'G'
    ensures Sub(Rebrand, [c] + rest) == [c] + Sub(Rebrand, rest)
  {
    SubCopiesInert(Rebrand, [c], rest);
  }

  /** Spaces around a brand are kept. */
  lemma SpacedFixture()
    ensures Replaced(" " + "Chrome" + "  ") == " " + "Helium" + "  "
  {
    var s := " " + "Chrome" + "  ";
    assert 'P' !in s && 'W' !in s && 'D' !in s && '"' !in s && '_' !in s;
    ReplacedPlain(s);
    SpacedRebrand();
  }

  lemma SpacedRebrand()
    ensures Sub(Rebrand, " " + "Chrome" + "  ") == " " + "Helium" + "  "
  {
    assert " " + "Chrome" + "  " == [' '] + ("Chrome" + "  ");
    RebrandCopies(' ', "Chrome" + "  ");
    RebrandReplacesBrand("Chrome", "  ");
    SubWithoutKeyChar(Rebrand, "  ");
  }

  /** `n` copies of the new brand. */
  function NewBrands(n: nat): (hs: seq<string>)
    ensures |hs| == n
  {
    if n == 0 then [] else [NewBrand] + NewBrands(n - 1)
  }

  /**
   * Brand names separated by single spaces are each replaced on their own:
   * "Google Chrome" becomes one "Helium", not "Google Helium".
   */
  lemma {:induction false} RebrandSpacedBrands(bs: seq<string>)
    requires forall i :: 0 <= i < |bs| ==> bs[i] in Brands
    ensures Sub(Rebrand, Join(bs, " ")) == Join(NewBrands(|bs|), " ")
    decreases |bs|
  {
    if |bs| == 1 {
      RebrandOneBrand(bs);
    } else if |bs| > 1 {
      RebrandSpacedBrands(bs[1..]);
      RebrandSpacedStep(bs);
    }
  }

  lemma RebrandOneBrand(bs: seq<string>)
    requires |bs| == 1 && bs[0] in Brands
    ensures Sub(Rebrand, Join(bs, " ")) == Join(NewBrands(|bs|), " ")
  {
    RebrandReplacesBrand(bs[0], "");
    assert bs[0] + "" == bs[0];
    assert NewBrand + Sub(Rebrand, "") == NewBrand;
  }

  lemma RebrandBrandThenSpace(b: string, rest: string)
    requires b in Brands
    ensures Sub(Rebrand, b + (" " + rest)) == NewBrand + " " + Sub(Rebrand, rest)
  {
    RebrandReplacesBrand(b, " " + rest);
    RebrandCopies(' ', rest);
  }

  lemma RebrandSpacedStep(bs: seq<string>)
    requires |bs| > 1 && bs[0] in Brands
    requires Sub(Rebrand, Join(bs[1..], " ")) == Join(NewBrands(|bs| - 1), " ")
    ensures Sub(Rebrand, Join(bs, " ")) == Join(NewBrands(|bs|), " ")
  {
    var rest := Join(bs[1..], " ");
    var hs := NewBrands(|bs|);
    assert Join(bs, " ") == bs[0] + (" " + rest);
    RebrandBrandThenSpace(bs[0], rest);
    assert hs[1..] == NewBrands(|bs| - 1);
    assert Join(hs, " ") == NewBrand + " " + Join(hs[1..], " ");
  }

  lemma JoinFour(xs: seq<string>, sep: string)
    requires |xs| == 4
    ensures Join(xs, sep) == xs[0] + sep + xs[1] + sep + xs[2] + sep + xs[3]
  {
    assert Join(xs[3..], sep) == xs[3];
    assert xs[2..][1..] == xs[3..];
    assert Join(xs[2..], sep) == xs[2] + sep + xs[3];
    assert xs[1..][1..] == xs[2..];
    assert Join(xs[1..], sep) == xs[1] + sep + (xs[2] + sep + xs[3]);
  }

  /** Every occurrence is replaced on its own, and "Google Chrome" becomes a single "Helium". */
  lemma SequenceFixture()
    ensures Replaced("Chrome" + " " + "Google Chrome" + " " + "Chrome" + " " + "Chromium")
         == "Helium" + " " + "Helium" + " " + "Helium" + " " + "Helium"
  {
    var s := "Chrome" + " " + "Google Chrome" + " " + "Chrome" + " " + "Chromium";
    SequenceIsPlain();
    ReplacedPlain(s);
    SequenceRebrand();
  }

  lemma PlainConcat(a: string, b: string)
    requires Plain(a) && Plain(b)
    ensures Plain(a + b)
  {
    assert forall c :: c in a + b ==> c in a || c in b;
  }

  lemma SequenceIsPlain()
    ensures Plain("Chrome" + " " + "Google Chrome" + " " + "Chrome" + " " + "Chromium")
  {
    assert Plain("Chrome") && Plain(" ") && Plain("Google Chrome") && Plain("Chromium");
    PlainConcat("Chrome", " ");
    PlainConcat("Chrome" + " ", "Google Chrome");
    PlainConcat("Chrome" + " " + "Google Chrome", " ");
    PlainConcat("Chrome" + " " + "Google Chrome" + " ", "Chrome");
    PlainConcat("Chrome" + " " + "Google Chrome" + " " + "Chrome", " ");
    PlainConcat("Chrome" + " " + "Google Chrome" + " " + "Chrome" + " ", "Chromium");
  }

  lemma SequenceRebrand()
    ensures Sub(Rebrand, "Chrome" + " " + "Google Chrome" + " " + "Chrome" + " " + "Chromium")
         == "Helium" + " " + "Helium" + " " + "Helium" + " " + "Helium"
  {
    var bs := ["Chrome", "Google Chrome", "Chrome", "Chromium"];
    JoinFour(bs, " ");
    RebrandSpacedBrands(bs);
    var hs := NewBrands(4);
    assert hs == ["Helium", "Helium", "Helium", "Helium"];
    JoinFour(hs, " ");
  }

  /**
   * The shown rules have no rule for a lower-case "chrome://" scheme, so
   * "chrome://about" passes unchanged and the "helium://about" pair cannot
   * hold.
   */
  lemma SchemeNotRewritten()
    ensures Replaced("chrome://about") == "chrome://about"
    ensures Replaced("chrome://about") != "helium://about"
  {
    forall r: Rule ensures KeyChar(r) !in "chrome://about" {
    }
    ReplacedWithoutKeyChars("chrome://about");
  }

  /** The main rule is case-sensitive. */
  lemma LowerCaseKept()
    ensures Replaced("chrome") == "chrome"
  {
    forall r: Rule ensures KeyChar(r) !in "chrome" {
    }
    ReplacedWithoutKeyChars("chrome");
  }

  /** A brand that runs on into a longer word is not replaced. */
  lemma LongerWordKept()
    ensures Replaced("Chrome" + "book") == "Chrome" + "book"
  {
    var s := "Chrome" + "book";
    assert 'P' !in s && 'W' !in s && 'D' !in s && '"' !in s && '_' !in s;
    ReplacedPlain(s);
    LongerWordRebrand();
  }

  lemma LongerWordRebrand()
    ensures Sub(Rebrand, "Chrome" + "book") == "Chrome" + "book"
  {
    var s := "Chrome" + "book";
    RebrandKeepsLongerWord("Chrome", "book");
    SubStep(Rebrand, s);
    assert s[1..] == "hromebook";
    SubWithoutKeyChar(Rebrand, s[1..]);
    assert s == [s[0]] + s[1..];
  }

  /** There is no left anchor: a brand at the end of a longer word is still replaced. */
  lemma NoLeftBoundary()
    ensures Replaced("My" + "Chrome") == "My" + "Helium"
  {
    var s := "My" + "Chrome";
    assert 'P' !in s && 'W' !in s && 'D' !in s && '"' !in s && '_' !in s;
    ReplacedPlain(s);
    NoLeftBoundaryRebrand();
  }

  lemma NoLeftBoundaryRebrand()
    ensures Sub(Rebrand, "My" + "Chrome") == "My" + "Helium"
  {
    assert "My" + "Chrome" == ['M'] + (['y'] + ("Chrome" + ""));
    RebrandCopies('M', ['y'] + ("Chrome" + ""));
    RebrandCopies('y', "Chrome" + "");
    RebrandReplacesBrand("Chrome", "");
  }

  /**
   * A tag already present in the input is deleted too, which can create a
   * brand name: `replace_text` is not idempotent.
   */
  lemma NotIdempotent()
    ensures Replaced("Chrom" + Tag + "e") == "Chrome"
    ensures Replaced(Replaced("Chrom" + Tag + "e")) == "Helium"
  {
    PresentTagDeleted();
    ChromeFixture();
  }

  lemma PresentTagDeleted()
    ensures Replaced("Chrom" + Tag + "e") == "Chrome"
  {
    var w := "Chrom";
    PresentTagKeyless();
    TagRulesIdle(w + Tag + "e");
    PresentTagLastRules(w);
  }

  lemma PresentTagKeyless()
    ensures var s := "Chrom" + Tag + "e"; 'P' !in s && 'W' !in s && 'D' !in s && '"' !in s
  {
    assert forall i :: 0 <= i < |Tag| ==> Tag[i] in Tag;
    assert forall c :: c in "Chrom" + Tag + "e" ==> c in "Chrom" || c in Tag || c in "e";
  }

  lemma PresentTagLastRules(w: string)
    requires w == "Chrom"
    ensures ApplyRules(Rules[4..], w + Tag + "e") == w + "e"
  {
    var s := w + Tag + "e";
    assert '_' !in w;
    PresentTagRebrand(w);
    Stage(4, s, s);
    PresentTagUntagBrand(w);
    Stage(5, s, s);
    UntagOverTagged(w, "e");
    SubWithoutKeyChar(Untag, "e");
    Stage(6, s, w + "e");
    StagesStartAndEnd(w + "e");
  }

  lemma PresentTagRebrand(w: string)
    requires w == "Chrom"
    ensures Sub(Rebrand, w + Tag + "e") == w + Tag + "e"
  {
    forall i | 0 <= i < |w| ensures IsWordChar(w[i]) {
      assert w[i] in w;
    }
    RebrandSkipsTagged(w, "e");
    SubWithoutKeyChar(Rebrand, "e");
  }

  lemma PresentTagUntagBrand(w: string)
    requires w == "Chrom"
    ensures Sub(UntagBrand, w + Tag + "e") == w + Tag + "e"
  {
    forall i | 0 <= i < |w| ensures IsWordChar(w[i]) && w[i] != '_' {
      assert w[i] in w;
    }
    assert !EndsWithBrand(w);
    UntagBrandOverTagged(w, "e");
    SubWithoutKeyChar(UntagBrand, "e");
  }
}
