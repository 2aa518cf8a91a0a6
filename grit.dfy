/**
 * GRIT resource files: the element tree of a `.grd` file, the fingerprint
 * of a `<message>` (the key its translations are filed under), the
 * rebranding of every text slot of a message, and the map from old to new
 * fingerprints that a rewrite of a whole tree produces.
 *
 * The message-id hash of the GRIT tool is not part of this model; every
 * operation that needs it takes it as the parameter `genId`, so the only
 * thing assumed of it is that equal arguments give equal ids.
 */
module Grit {
  import opened Wrappers
  import opened Text
  import opened SubstitutionRules

  /**
   * An ElementTree element: tag, attributes, the text before its first
   * child, its children, and the tail text that follows its end tag inside
   * the parent. A missing text or tail is `None`.
   */
  datatype Elem = Elem(tag: string, attrs: map<string, string>, text: Option<string>,
                       tail: Option<string>, children: seq<Elem>)

  /** Python's `elem.get(key, default)`. */
  function Attr(e: Elem, key: string, default: string): string {
    if key in e.attrs then e.attrs[key] else default
  }

  /** A slot of text is truthy in Python when it is present and non-empty. */
  predicate Truthy(s: Option<string>) {
    s.Some? && s.value != ""
  }

  // ------------------------------------------------------------------ fingerprint text

  /** The marker GRIT uses to protect leading and trailing whitespace in a message. */
  const Quotes: string := "'''"

  /** `s` is the slice of `t` that starts at offset `i`. */
  ghost predicate SliceAt(t: string, i: int, s: string) {
    0 <= i && i + |s| <= |t| && s == t[i..i + |s|]
  }

  /** `s` occurs in `t` as a contiguous slice. */
  ghost predicate SliceOf(t: string, s: string) {
    exists i :: SliceAt(t, i, s)
  }

  lemma SliceOfSlice(t: string, s: string, u: string)
    requires SliceOf(t, s) && SliceOf(s, u)
    ensures SliceOf(t, u)
  {
    var i :| SliceAt(t, i, s);
    var j :| SliceAt(s, j, u);
    forall k | 0 <= k < |u| ensures u[k] == t[i + j + k] {
      assert u[k] == s[j + k];
    }
    assert u == t[i + j..i + j + |u|];
    assert SliceAt(t, i + j, u);
  }

  lemma StripIsSlice(s: string)
    ensures SliceOf(s, Strip(s))
  {
    StripTrims(s);
    var i :| TrimmedAt(s, i, Strip(s));
    assert SliceAt(s, i, Strip(s));
  }

  /** At most one `'''` marker dropped from the front and one from the back. */
  function DropMarkers(t: string): (b: string)
    ensures SliceOf(t, b)
  {
    var a := if StartsWith(t, Quotes) then t[3..] else t;
    var b := if EndsWith(a, Quotes) then a[..|a| - 3] else a;
    assert SliceAt(t, |t| - |a|, a);
    assert SliceAt(a, 0, b);
    SliceOfSlice(t, a, b);
    b
  }

  /**
   * `strip_message_text_for_fp`: strip whitespace, drop one leading and one
   * trailing `'''` marker, and strip again. The result is a slice of the
   * input with no whitespace at either end.
   */
  function StripForFp(text: string): (r: string)
    ensures r == [] || (!IsSpace(r[0]) && !IsSpace(r[|r| - 1]))
    ensures SliceOf(text, r)
  {
    var t := Strip(text);
    var b := DropMarkers(t);
    StripIsSlice(text);
    StripIsSlice(b);
    SliceOfSlice(text, t, b);
    SliceOfSlice(text, b, Strip(b));
    Strip(b)
  }

  lemma DropMarkersOfQuoted(x: string)
    ensures DropMarkers(Quotes + x + Quotes) == x
  {
    var q := Quotes + x + Quotes;
    assert q[..3] == Quotes;
    var a := q[3..];
    assert a == x + Quotes;
    assert a[|a| - 3..] == Quotes;
    assert a[..|a| - 3] == x;
  }

  /** A message body quoted with `'''` on both sides, with whitespace around, loses the quotes and the whitespace. */
  lemma StripForFpUnquotes(pre: string, x: string, post: string)
    requires forall k :: 0 <= k < |pre| ==> IsSpace(pre[k])
    requires forall k :: 0 <= k < |post| ==> IsSpace(post[k])
    requires x == [] || (!IsSpace(x[0]) && !IsSpace(x[|x| - 1]))
    ensures StripForFp(pre + Quotes + x + Quotes + post) == x
  {
    var q := Quotes + x + Quotes;
    assert pre + Quotes + x + Quotes + post == pre + (q + post);
    assert q[0] == '\'' && q[|q| - 1] == '\'';
    LStripSpaces(pre, q + post);
    RStripSpaces(q, post);
    DropMarkersOfQuoted(x);
    StripOfTrimmed(x);
  }

  /**
   * Only one marker is removed at each end, so the operation is not
   * idempotent: nine quotes leave three, and three quotes leave nothing.
   */
  lemma StripForFpNotIdempotent()
    ensures StripForFp(Quotes + Quotes + Quotes) == Quotes
    ensures StripForFp(Quotes) == ""
  {
    StripForFpOfNineQuotes();
    StripForFpOfThreeQuotes();
  }

  lemma StripForFpOfNineQuotes()
    ensures StripForFp(Quotes + Quotes + Quotes) == Quotes
  {
    assert Quotes[0] == '\'' && Quotes[2] == '\'';
    StripForFpOfQuoted(Quotes);
  }

  /** A body with no whitespace at its ends loses exactly one marker at each end. */
  lemma StripForFpOfQuoted(x: string)
    requires x == [] || (!IsSpace(x[0]) && !IsSpace(x[|x| - 1]))
    ensures StripForFp(Quotes + x + Quotes) == x
  {
    var q := Quotes + x + Quotes;
    assert q[0] == '\'' && q[|q| - 1] == '\'';
    StripOfTrimmed(q);
    DropMarkersOfQuoted(x);
    StripOfTrimmed(x);
  }

  lemma StripForFpOfThreeQuotes()
    ensures StripForFp(Quotes) == ""
  {
    StripOfTrimmed(Quotes);
    assert Quotes[..3] == Quotes && Quotes[3..] == "";
    assert DropMarkers(Quotes) == "";
  }

  /** Whitespace before the text does not survive `strip_message_text_for_fp`. */
  lemma StripForFpLeadingSpace(sp: string, c: string)
    requires forall k :: 0 <= k < |sp| ==> IsSpace(sp[k])
    ensures StripForFp(sp + c) == StripForFp(c)
  {
    LStripOfSpaces(sp, c);
  }

  // ------------------------------------------------------------------ canonical text

  predicate IsPh(e: Elem) {
    e.tag == "ph"
  }

  /** Some direct `ph` child has no `name` attribute: `elem.get('name').upper()` raises. */
  predicate MissingName(children: seq<Elem>) {
    exists i :: 0 <= i < |children| && IsPh(children[i]) && "name" !in children[i].attrs
  }

  /**
   * The part of the canonical text that the placeholders contribute: for
   * each direct `ph` child in order, its upper-cased name followed by its
   * tail. `None` when a `ph` has no name.
   */
  function PlaceholderText(children: seq<Elem>): (r: Option<string>)
    ensures r.None? <==> MissingName(children)
    decreases |children|
  {
    if children == [] then Some("")
    else
      var c := children[0];
      var rest := PlaceholderText(children[1..]);
      assert MissingName(children) <==>
             (IsPh(c) && "name" !in c.attrs) || MissingName(children[1..]) by {
        if MissingName(children[1..]) {
          var i :| 0 <= i < |children[1..]| && IsPh(children[1..][i]) && "name" !in children[1..][i].attrs;
          assert children[i + 1] == children[1..][i];
        }
        if MissingName(children) && !(IsPh(c) && "name" !in c.attrs) {
          var i :| 0 <= i < |children| && IsPh(children[i]) && "name" !in children[i].attrs;
          assert children[1..][i - 1] == children[i];
        }
      }
      if !IsPh(c) then rest
      else if "name" !in c.attrs then None
      else match rest
        case None => None
        case Some(s) => Some(Upper(c.attrs["name"]) + c.tail.GetOr("") + s)
  }

  /**
   * The text `compute_fp` builds before stripping: the message's text (or
   * nothing), then the placeholder part. `None` when a `ph` has no name.
   */
  function CanonicalText(m: Elem): (r: Option<string>)
    ensures r.None? <==> MissingName(m.children)
  {
    match PlaceholderText(m.children)
    case None => None
    case Some(p) => Some(m.text.GetOr("") + p)
  }

  /**
   * `compute_fp`: the message id of the stripped canonical text and the
   * `meaning` attribute (empty when absent); `None` where Python raises.
   * The id depends on nothing else, so two messages that agree on those
   * two strings share it.
   */
  function ComputeFp(m: Elem, genId: (string, string) -> string): (r: Option<string>)
    ensures r.None? <==> MissingName(m.children)
  {
    match CanonicalText(m)
    case None => None
    case Some(c) => Some(genId(StripForFp(c), Attr(m, "meaning", "")))
  }

  /** A child that is not a `ph` adds nothing to the placeholder part, wherever it sits. */
  lemma {:induction false} PlaceholderTextSkips(a: seq<Elem>, c: Elem, b: seq<Elem>)
    requires !IsPh(c)
    ensures PlaceholderText(a + [c] + b) == PlaceholderText(a + b)
    decreases |a|
  {
    if a == [] {
      assert a + [c] + b == [c] + b;
      assert ([c] + b)[1..] == b;
      assert a + b == b;
    } else {
      assert (a + [c] + b)[1..] == a[1..] + [c] + b;
      assert (a + b)[1..] == a[1..] + b;
      assert (a + [c] + b)[0] == a[0] == (a + b)[0];
      PlaceholderTextSkips(a[1..], c, b);
    }
  }

  /** Two `ph` children with the same name and tail contribute alike, whatever else they hold. */
  lemma {:induction false} PlaceholderTextSwaps(a: seq<Elem>, x: Elem, y: Elem, b: seq<Elem>)
    requires IsPh(x) && IsPh(y) && ("name" in x.attrs <==> "name" in y.attrs)
    requires "name" in x.attrs ==> x.attrs["name"] == y.attrs["name"]
    requires x.tail == y.tail
    ensures PlaceholderText(a + [x] + b) == PlaceholderText(a + [y] + b)
    decreases |a|
  {
    if a == [] {
      assert a + [x] + b == [x] + b;
      assert a + [y] + b == [y] + b;
      assert ([x] + b)[1..] == b;
      assert ([y] + b)[1..] == b;
    } else {
      assert (a + [x] + b)[1..] == a[1..] + [x] + b;
      assert (a + [y] + b)[1..] == a[1..] + [y] + b;
      assert (a + [x] + b)[0] == a[0] == (a + [y] + b)[0];
      PlaceholderTextSwaps(a[1..], x, y, b);
    }
  }

  /** A child that is not a `ph` contributes nothing to the fingerprint, wherever it sits. */
  lemma FpIgnoresOtherChildren(m: Elem, k: nat, c: Elem, genId: (string, string) -> string)
    requires k <= |m.children| && !IsPh(c)
    ensures ComputeFp(m.(children := m.children[..k] + [c] + m.children[k..]), genId) == ComputeFp(m, genId)
  {
    assert m.children == m.children[..k] + m.children[k..];
    PlaceholderTextSkips(m.children[..k], c, m.children[k..]);
  }

  /**
   * The inside of a `ph` (its text, attributes other than `name`, and
   * children) does not enter the fingerprint; only its name and tail do.
   */
  lemma FpIgnoresPlaceholderContent(m: Elem, k: nat, c: Elem, genId: (string, string) -> string)
    requires k < |m.children| && IsPh(m.children[k]) && IsPh(c)
    requires "name" in c.attrs <==> "name" in m.children[k].attrs
    requires "name" in c.attrs ==> c.attrs["name"] == m.children[k].attrs["name"]
    requires c.tail == m.children[k].tail
    ensures ComputeFp(m.(children := m.children[k := c]), genId) == ComputeFp(m, genId)
  {
    var a := m.children[..k];
    var b := m.children[k + 1..];
    assert m.children == a + [m.children[k]] + b;
    assert m.children[k := c] == a + [c] + b;
    PlaceholderTextSwaps(a, m.children[k], c, b);
  }

  /** Whitespace before the message text does not change the fingerprint. */
  lemma FpIgnoresLeadingSpace(m: Elem, sp: string, genId: (string, string) -> string)
    requires forall k :: 0 <= k < |sp| ==> IsSpace(sp[k])
    ensures ComputeFp(m.(text := Some(sp + m.text.GetOr(""))), genId) == ComputeFp(m, genId)
  {
    var m' := m.(text := Some(sp + m.text.GetOr("")));
    if !MissingName(m.children) {
      var p := PlaceholderText(m.children).value;
      assert m'.children == m.children;
      assert m'.text.GetOr("") == sp + m.text.GetOr("");
      assert CanonicalText(m') == Some(sp + m.text.GetOr("") + p);
      assert sp + m.text.GetOr("") + p == sp + (m.text.GetOr("") + p);
      StripForFpLeadingSpace(sp, m.text.GetOr("") + p);
    }
  }

  // ------------------------------------------------------------------ rewriting a message

  /** A text slot after rebranding: only a truthy slot is rewritten. */
  function RewriteSlot(s: Option<string>): (r: Option<string>)
    ensures !Truthy(s) ==> r == s
    ensures Truthy(s) ==> r == Some(Replaced(s.value))
  {
    if Truthy(s) then Some(Replaced(s.value)) else s
  }

  /** `replace_grit_message`: rebrand the text and tail of the element and of every element below it. */
  function ReplaceGritMessage(m: Elem): Elem
    decreases m, 1
  {
    Elem(m.tag, m.attrs, RewriteSlot(m.text), RewriteSlot(m.tail), ReplaceAll(m.children))
  }

  function ReplaceAll(es: seq<Elem>): (rs: seq<Elem>)
    ensures |rs| == |es|
    decreases es, 0
  {
    if es == [] then [] else [ReplaceGritMessage(es[0])] + ReplaceAll(es[1..])
  }

  /** Same tags and attributes, and the same number of children at every level. */
  predicate SameShape(a: Elem, b: Elem)
    decreases a
  {
    && a.tag == b.tag && a.attrs == b.attrs && |a.children| == |b.children|
    && forall i :: 0 <= i < |a.children| ==> SameShape(a.children[i], b.children[i])
  }

  /**
   * Every text slot of the subtree in document order: the element's text,
   * the slots of its children, then its own tail.
   */
  function Slots(e: Elem): seq<Option<string>>
    decreases e, 1
  {
    [e.text] + SlotsOf(e.children) + [e.tail]
  }

  function SlotsOf(es: seq<Elem>): seq<Option<string>>
    decreases es, 0
  {
    if es == [] then [] else Slots(es[0]) + SlotsOf(es[1..])
  }

  function RewriteSlots(ss: seq<Option<string>>): (rs: seq<Option<string>>)
    ensures |rs| == |ss|
  {
    seq(|ss|, i requires 0 <= i < |ss| => RewriteSlot(ss[i]))
  }

  lemma {:induction false} ReplaceGritMessageShape(m: Elem)
    ensures SameShape(m, ReplaceGritMessage(m))
    decreases m, 1
  {
    ReplaceAllShape(m.children);
  }

  lemma {:induction false} ReplaceAllShape(es: seq<Elem>)
    ensures forall i :: 0 <= i < |es| ==> SameShape(es[i], ReplaceAll(es)[i])
    decreases es, 0
  {
    if es != [] {
      ReplaceGritMessageShape(es[0]);
      ReplaceAllShape(es[1..]);
      forall i | 1 <= i < |es| ensures SameShape(es[i], ReplaceAll(es)[i]) {
        assert es[i] == es[1..][i - 1];
        assert ReplaceAll(es)[i] == ReplaceAll(es[1..])[i - 1];
      }
    }
  }

  /**
   * `replace_grit_message` rewrites exactly the truthy slots of the subtree,
   * the message's own tail included, and leaves the others as they were.
   */
  lemma {:induction false} ReplaceGritMessageSlots(m: Elem)
    ensures Slots(ReplaceGritMessage(m)) == RewriteSlots(Slots(m))
    decreases m, 1
  {
    ReplaceAllSlots(m.children);
    var r := ReplaceGritMessage(m);
    assert Slots(r) == [RewriteSlot(m.text)] + RewriteSlots(SlotsOf(m.children)) + [RewriteSlot(m.tail)];
    RewriteSlotsConcat([m.text], SlotsOf(m.children));
    RewriteSlotsConcat([m.text] + SlotsOf(m.children), [m.tail]);
  }

  lemma {:induction false} ReplaceAllSlots(es: seq<Elem>)
    ensures SlotsOf(ReplaceAll(es)) == RewriteSlots(SlotsOf(es))
    decreases es, 0
  {
    if es != [] {
      ReplaceGritMessageSlots(es[0]);
      ReplaceAllSlots(es[1..]);
      assert ReplaceAll(es)[1..] == ReplaceAll(es[1..]);
      RewriteSlotsConcat(Slots(es[0]), SlotsOf(es[1..]));
    }
  }

  lemma RewriteSlotsConcat(a: seq<Option<string>>, b: seq<Option<string>>)
    ensures RewriteSlots(a + b) == RewriteSlots(a) + RewriteSlots(b)
  {
    var l := RewriteSlots(a + b);
    var r := RewriteSlots(a) + RewriteSlots(b);
    forall i | 0 <= i < |l| ensures l[i] == r[i] {
      if i < |a| {
        assert (a + b)[i] == a[i];
      } else {
        assert (a + b)[i] == b[i - |a|];
      }
    }
  }

  // ------------------------------------------------------------------ rewriting a tree

  /** A position in a tree: the child index taken at each level, from the root down. */
  type Path = seq<nat>

  /** The element at `p`, if the path leads somewhere. */
  function At(e: Elem, p: Path): Option<Elem>
    decreases |p|
  {
    if p == [] then Some(e)
    else if p[0] < |e.children| then At(e.children[p[0]], p[1..])
    else None
  }

  /** The tree with the element at `p` replaced by `n` (unchanged when `p` leads nowhere). */
  function UpdateAt(e: Elem, p: Path, n: Elem): Elem
    decreases |p|
  {
    if p == [] then n
    else if p[0] < |e.children| then
      e.(children := e.children[p[0] := UpdateAt(e.children[p[0]], p[1..], n)])
    else e
  }

  /** The path of every element of the tree, the root first, in document order. */
  function AllPaths(e: Elem): seq<Path>
    decreases e, 1
  {
    [[]] + ChildPaths(e.children, 0)
  }

  function ChildPaths(cs: seq<Elem>, k: nat): seq<Path>
    decreases cs, 0
  {
    if cs == [] then []
    else
      var ps := AllPaths(cs[0]);
      seq(|ps|, j requires 0 <= j < |ps| => [k] + ps[j]) + ChildPaths(cs[1..], k + 1)
  }

  function KeepMessages(e: Elem, ps: seq<Path>): (r: seq<Path>)
    ensures forall i :: 0 <= i < |r| ==> At(e, r[i]).Some? && At(e, r[i]).value.tag == "message"
  {
    if ps == [] then []
    else
      var rest := KeepMessages(e, ps[1..]);
      if At(e, ps[0]).Some? && At(e, ps[0]).value.tag == "message" then [ps[0]] + rest else rest
  }

  /** `findall('.//message')`: every `message` element below the root, in document order. */
  function MessagePaths(e: Elem): (r: seq<Path>)
    ensures forall i :: 0 <= i < |r| ==> At(e, r[i]).Some? && At(e, r[i]).value.tag == "message"
  {
    KeepMessages(e, AllPaths(e)[1..])
  }

  /**
   * Document order on paths: an element comes before its descendants, and
   * the subtree of an earlier child before that of a later one.
   */
  predicate Before(p: Path, q: Path)
    decreases |p|
  {
    q != [] && (p == [] || p[0] < q[0] || (p[0] == q[0] && Before(p[1..], q[1..])))
  }

  /** Every path comes strictly before every later one. */
  predicate InDocumentOrder(ps: seq<Path>) {
    forall i, j :: 0 <= i < j < |ps| ==> Before(ps[i], ps[j])
  }

  lemma {:induction false} BeforeIrreflexive(p: Path)
    ensures !Before(p, p)
    decreases |p|
  {
    if p != [] {
      BeforeIrreflexive(p[1..]);
    }
  }

  /** A path of the listing leads to an element, and every element's path is listed. */
  lemma {:induction false} AllPathsAt(e: Elem, p: Path)
    ensures p in AllPaths(e) <==> At(e, p).Some?
    decreases e, 1
  {
    if p != [] {
      ChildPathsAt(e.children, 0, p);
    }
  }

  lemma {:induction false} ChildPathsAt(cs: seq<Elem>, k: nat, p: Path)
    ensures p in ChildPaths(cs, k) <==>
              p != [] && k <= p[0] < k + |cs| && At(cs[p[0] - k], p[1..]).Some?
    decreases cs, 0
  {
    if cs != [] {
      var ps := AllPaths(cs[0]);
      var block := seq(|ps|, j requires 0 <= j < |ps| => [k] + ps[j]);
      assert ChildPaths(cs, k) == block + ChildPaths(cs[1..], k + 1);
      ChildPathsAt(cs[1..], k + 1, p);
      if p != [] && p[0] == k {
        AllPathsAt(cs[0], p[1..]);
        if p[1..] in ps {
          var j :| 0 <= j < |ps| && ps[j] == p[1..];
          assert block[j] == p;
        }
      }
      if p in block {
        var j :| 0 <= j < |block| && block[j] == p;
        AllPathsAt(cs[0], ps[j]);
        assert p[1..] == ps[j];
      }
    }
  }

  /** The listing is in document order, the root first. */
  lemma {:induction false} AllPathsOrdered(e: Elem)
    ensures InDocumentOrder(AllPaths(e))
    decreases e, 1
  {
    ChildPathsOrdered(e.children, 0);
  }

  lemma {:induction false} ChildPathsOrdered(cs: seq<Elem>, k: nat)
    ensures InDocumentOrder(ChildPaths(cs, k))
    ensures forall p :: p in ChildPaths(cs, k) ==> p != [] && k <= p[0]
    decreases cs, 0
  {
    if cs != [] {
      var ps := AllPaths(cs[0]);
      var block := seq(|ps|, j requires 0 <= j < |ps| => [k] + ps[j]);
      var rest := ChildPaths(cs[1..], k + 1);
      assert ChildPaths(cs, k) == block + rest;
      AllPathsOrdered(cs[0]);
      ChildPathsOrdered(cs[1..], k + 1);
      forall i, j | 0 <= i < j < |block|
        ensures Before(block[i], block[j])
      {
        assert block[i][1..] == ps[i] && block[j][1..] == ps[j];
      }
      OrderedConcat(block, rest);
    }
  }

  lemma OrderedConcat(a: seq<Path>, b: seq<Path>)
    requires InDocumentOrder(a) && InDocumentOrder(b)
    requires forall i, j :: 0 <= i < |a| && 0 <= j < |b| ==> Before(a[i], b[j])
    ensures InDocumentOrder(a + b)
  {
    forall i, j | 0 <= i < j < |a + b|
      ensures Before((a + b)[i], (a + b)[j])
    {
      if j < |a| {
        assert (a + b)[i] == a[i] && (a + b)[j] == a[j];
      } else if i < |a| {
        assert (a + b)[i] == a[i] && (a + b)[j] == b[j - |a|];
      } else {
        assert (a + b)[i] == b[i - |a|] && (a + b)[j] == b[j - |a|];
      }
    }
  }

  /** The kept paths are exactly the listed paths that lead to a `message`. */
  lemma {:induction false} KeepMessagesMembers(e: Elem, ps: seq<Path>, p: Path)
    ensures p in KeepMessages(e, ps) <==> p in ps && At(e, p).Some? && At(e, p).value.tag == "message"
    decreases |ps|
  {
    if ps != [] {
      KeepMessagesMembers(e, ps[1..], p);
      assert p in ps <==> p == ps[0] || p in ps[1..];
    }
  }

  /** Keeping some of the paths keeps their order. */
  lemma {:induction false} KeepMessagesOrdered(e: Elem, ps: seq<Path>)
    requires InDocumentOrder(ps)
    ensures InDocumentOrder(KeepMessages(e, ps))
    decreases |ps|
  {
    if ps != [] {
      var rest := KeepMessages(e, ps[1..]);
      KeepMessagesOrdered(e, ps[1..]);
      if At(e, ps[0]).Some? && At(e, ps[0]).value.tag == "message" {
        forall j | 0 <= j < |rest|
          ensures Before(ps[0], rest[j])
        {
          KeepMessagesMembers(e, ps[1..], rest[j]);
          var m :| 0 <= m < |ps[1..]| && ps[1..][m] == rest[j];
          assert ps[m + 1] == rest[j];
        }
        OrderedConcat([ps[0]], rest);
      }
    }
  }

  /**
   * `findall('.//message')` finds every `message` element strictly below the
   * root and nothing else.
   */
  lemma MessagePathsMembers(e: Elem, p: Path)
    ensures p in MessagePaths(e) <==> p != [] && At(e, p).Some? && At(e, p).value.tag == "message"
  {
    var all := AllPaths(e);
    assert all[1..] == ChildPaths(e.children, 0);
    KeepMessagesMembers(e, all[1..], p);
    ChildPathsOrdered(e.children, 0);
    if p != [] {
      AllPathsAt(e, p);
      assert p in all <==> p == [] || p in all[1..];
    }
  }

  /** The messages are found in document order, each once. */
  lemma MessagePathsOrdered(e: Elem)
    ensures InDocumentOrder(MessagePaths(e))
    ensures forall i, j :: 0 <= i < j < |MessagePaths(e)| ==> MessagePaths(e)[i] != MessagePaths(e)[j]
  {
    var all := AllPaths(e);
    AllPathsOrdered(e);
    assert InDocumentOrder(all[1..]) by {
      forall i, j | 0 <= i < j < |all[1..]|
        ensures Before(all[1..][i], all[1..][j])
      {
        assert all[1..][i] == all[i + 1] && all[1..][j] == all[j + 1];
      }
    }
    KeepMessagesOrdered(e, all[1..]);
    var ms := MessagePaths(e);
    forall i, j | 0 <= i < j < |ms|
      ensures ms[i] != ms[j]
    {
      BeforeIrreflexive(ms[i]);
    }
  }

  /** A fingerprint before and after the rewrite of one message. */
  datatype FpChange = FpChange(before: string, after: string)

  /** One pass of the loop body: rewrite the message at `p`, reporting its fingerprints. */
  function RewriteOne(t: Elem, p: Path, genId: (string, string) -> string): Option<(Elem, FpChange)> {
    match At(t, p)
    case None => None
    case Some(m) =>
      var m' := ReplaceGritMessage(m);
      var before := ComputeFp(m, genId);
      var after := ComputeFp(m', genId);
      if before.None? || after.None? then None
      else Some((UpdateAt(t, p, m'), FpChange(before.value, after.value)))
  }

  /**
   * The messages at `paths` rewritten one after the other, each read from
   * the tree as the earlier rewrites left it, with the fingerprint change of
   * each; `None` where `compute_fp` raises.
   */
  function RewriteMessages(t: Elem, paths: seq<Path>, genId: (string, string) -> string): Option<(Elem, seq<FpChange>)>
    decreases |paths|
  {
    if paths == [] then Some((t, []))
    else match RewriteMessages(t, paths[..|paths| - 1], genId)
      case None => None
      case Some((t1, changes)) =>
        match RewriteOne(t1, paths[|paths| - 1], genId)
        case None => None
        case Some((t2, c)) => Some((t2, changes + [c]))
  }

  /** The map a dict gets from `fp_map[old] = new` for each change, in order, when old differs from new. */
  function RecordChanges(changes: seq<FpChange>): map<string, string>
    decreases |changes|
  {
    if changes == [] then map[]
    else
      var m := RecordChanges(changes[..|changes| - 1]);
      var c := changes[|changes| - 1];
      if c.before != c.after then m[c.before := c.after] else m
  }

  /** What `replace_grit_tree` returns for a parsed tree; `None` where it raises. */
  function GritTreeOutcome(root: Elem, genId: (string, string) -> string): Option<(Elem, map<string, string>)> {
    match RewriteMessages(root, MessagePaths(root), genId)
    case None => None
    case Some((t, changes)) => Some((t, RecordChanges(changes)))
  }

  lemma RewriteMessagesStaysNone(t: Elem, paths: seq<Path>, i: nat, genId: (string, string) -> string)
    requires i <= |paths| && RewriteMessages(t, paths[..i], genId).None?
    ensures RewriteMessages(t, paths, genId).None?
    decreases |paths| - i
  {
    if i < |paths| {
      assert paths[..i + 1][..i] == paths[..i];
      RewriteMessagesStaysNone(t, paths, i + 1, genId);
    } else {
      assert paths[..i] == paths;
    }
  }

  lemma RewriteMessagesSnoc(t: Elem, paths: seq<Path>, i: nat, genId: (string, string) -> string)
    requires i < |paths|
    ensures RewriteMessages(t, paths[..i + 1], genId) ==
      match RewriteMessages(t, paths[..i], genId)
      case None => None
      case Some((t1, changes)) =>
        match RewriteOne(t1, paths[i], genId)
        case None => None
        case Some((t2, c)) => Some((t2, changes + [c]))
  {
    assert paths[..i + 1][..i] == paths[..i];
  }

  lemma RewriteOneAt(t: Elem, p: Path, m: Elem, genId: (string, string) -> string)
    requires At(t, p) == Some(m)
    ensures var before := ComputeFp(m, genId);
            var after := ComputeFp(ReplaceGritMessage(m), genId);
            RewriteOne(t, p, genId) ==
              if before.None? || after.None? then None
              else Some((UpdateAt(t, p, ReplaceGritMessage(m)), FpChange(before.value, after.value)))
  {
  }

  lemma RewriteFailsAt(root: Elem, paths: seq<Path>, i: nat, t: Elem, changes: seq<FpChange>,
                       genId: (string, string) -> string)
    requires i < |paths| && RewriteMessages(root, paths[..i], genId) == Some((t, changes))
    requires RewriteOne(t, paths[i], genId).None?
    ensures RewriteMessages(root, paths, genId).None?
  {
    RewriteMessagesSnoc(root, paths, i, genId);
    RewriteMessagesStaysNone(root, paths, i + 1, genId);
  }

  lemma OutcomeFailsAt(root: Elem, i: nat, t: Elem, changes: seq<FpChange>, genId: (string, string) -> string)
    requires i < |MessagePaths(root)|
    requires RewriteMessages(root, MessagePaths(root)[..i], genId) == Some((t, changes))
    requires RewriteOne(t, MessagePaths(root)[i], genId).None?
    ensures GritTreeOutcome(root, genId) == None
  {
    RewriteFailsAt(root, MessagePaths(root), i, t, changes, genId);
  }

  lemma OutcomeAtEnd(root: Elem, t: Elem, changes: seq<FpChange>, genId: (string, string) -> string)
    requires RewriteMessages(root, MessagePaths(root)[..|MessagePaths(root)|], genId) == Some((t, changes))
    ensures GritTreeOutcome(root, genId) == Some((t, RecordChanges(changes)))
  {
    assert MessagePaths(root)[..|MessagePaths(root)|] == MessagePaths(root);
  }

  lemma RecordChangesSnoc(changes: seq<FpChange>, c: FpChange)
    ensures RecordChanges(changes + [c]) ==
      if c.before != c.after then RecordChanges(changes)[c.before := c.after] else RecordChanges(changes)
  {
    assert (changes + [c])[..|changes|] == changes;
  }

  /**
   * `replace_grit_tree` on a parsed tree: rewrite each message found below
   * the root in document order, and map its old fingerprint to its new one
   * when the two differ.
   */
  method ReplaceGritTree(root: Elem, genId: (string, string) -> string) returns (r: Option<(Elem, map<string, string>)>)
    ensures r == GritTreeOutcome(root, genId)
  {
    var paths := MessagePaths(root);
    var tree := root;
    var fpMap := map[];
    ghost var changes: seq<FpChange> := [];
    for i := 0 to |paths|
      invariant RewriteMessages(root, paths[..i], genId) == Some((tree, changes))
      invariant fpMap == RecordChanges(changes)
    {
      var message := At(tree, paths[i]);
      if message.None? {
        OutcomeFailsAt(root, i, tree, changes, genId);
        r := None;
        return;
      }
      RewriteOneAt(tree, paths[i], message.value, genId);
      var oldFp := ComputeFp(message.value, genId);
      var replaced := ReplaceGritMessage(message.value);
      var newFp := ComputeFp(replaced, genId);
      if oldFp.None? || newFp.None? {
        OutcomeFailsAt(root, i, tree, changes, genId);
        r := None;
        return;
      }
      tree := UpdateAt(tree, paths[i], replaced);
      if oldFp.value != newFp.value {
        fpMap := fpMap[oldFp.value := newFp.value];
      }
      RewriteMessagesSnoc(root, paths, i, genId);
      RecordChangesSnoc(changes, FpChange(oldFp.value, newFp.value));
      changes := changes + [FpChange(oldFp.value, newFp.value)];
    }
    OutcomeAtEnd(root, tree, changes, genId);
    r := Some((tree, fpMap));
  }

  /**
   * A key is in the recorded map exactly when some change had it as its old
   * fingerprint and actually changed it.
   */
  lemma {:induction false} RecordChangesKeys(changes: seq<FpChange>, k: string)
    ensures k in RecordChanges(changes) <==>
            exists i :: 0 <= i < |changes| && changes[i].before == k && changes[i].before != changes[i].after
    decreases |changes|
  {
    if changes != [] {
      var init := changes[..|changes| - 1];
      RecordChangesKeys(init, k);
      if k in RecordChanges(changes) && k !in RecordChanges(init) {
        assert changes[|changes| - 1].before == k;
      }
      if exists i :: 0 <= i < |init| && init[i].before == k && init[i].before != init[i].after {
        var i :| 0 <= i < |init| && init[i].before == k && init[i].before != init[i].after;
        assert changes[i] == init[i];
      }
      if exists i :: 0 <= i < |changes| && changes[i].before == k && changes[i].before != changes[i].after {
        var i :| 0 <= i < |changes| && changes[i].before == k && changes[i].before != changes[i].after;
        if i < |init| {
          assert init[i] == changes[i];
        }
      }
    }
  }

  /** The value for a key is the new fingerprint of the last change of that key: later messages overwrite. */
  lemma {:induction false} RecordChangesLatest(changes: seq<FpChange>, i: nat)
    requires i < |changes| && changes[i].before != changes[i].after
    requires forall j :: i < j < |changes| ==> changes[j].before != changes[i].before || changes[j].before == changes[j].after
    ensures changes[i].before in RecordChanges(changes)
    ensures RecordChanges(changes)[changes[i].before] == changes[i].after
    decreases |changes|
  {
    var init := changes[..|changes| - 1];
    if i < |changes| - 1 {
      assert init[i] == changes[i];
      forall j | i < j < |init| ensures init[j].before != init[i].before || init[j].before == init[j].after {
        assert init[j] == changes[j];
      }
      RecordChangesLatest(init, i);
    }
  }

  /** A tree without any message below its root comes back unchanged, with an empty map. */
  lemma NoMessagesNoChange(root: Elem, genId: (string, string) -> string)
    requires MessagePaths(root) == []
    ensures GritTreeOutcome(root, genId) == Some((root, map[]))
  {
  }

  // ------------------------------------------------------------------ shape of the rewritten tree

  lemma {:induction false} SameShapeRefl(e: Elem)
    ensures SameShape(e, e)
    decreases e
  {
    forall i | 0 <= i < |e.children| ensures SameShape(e.children[i], e.children[i]) {
      SameShapeRefl(e.children[i]);
    }
  }

  lemma {:induction false} SameShapeTrans(a: Elem, b: Elem, c: Elem)
    requires SameShape(a, b) && SameShape(b, c)
    ensures SameShape(a, c)
    decreases a
  {
    forall i | 0 <= i < |a.children| ensures SameShape(a.children[i], c.children[i]) {
      SameShapeTrans(a.children[i], b.children[i], c.children[i]);
    }
  }

  /** Paths lead to the same places in trees of the same shape, and to elements of the same shape. */
  lemma {:induction false} SameShapeAt(a: Elem, b: Elem, p: Path)
    requires SameShape(a, b)
    ensures At(a, p).Some? <==> At(b, p).Some?
    ensures At(a, p).Some? ==> SameShape(At(a, p).value, At(b, p).value)
    decreases |p|
  {
    if p != [] && p[0] < |a.children| {
      SameShapeAt(a.children[p[0]], b.children[p[0]], p[1..]);
    }
  }

  /** Putting an element of the same shape at a path keeps the shape of the tree. */
  lemma {:induction false} SameShapeUpdate(e: Elem, p: Path, n: Elem)
    requires At(e, p).Some? && SameShape(At(e, p).value, n)
    ensures SameShape(e, UpdateAt(e, p, n))
    decreases |p|
  {
    if p != [] {
      var k := p[0];
      SameShapeUpdate(e.children[k], p[1..], n);
      var u := UpdateAt(e, p, n);
      forall i | 0 <= i < |e.children| ensures SameShape(e.children[i], u.children[i]) {
        if i != k {
          SameShapeRefl(e.children[i]);
        }
      }
    }
  }

  lemma SameShapeMissingName(a: Elem, b: Elem)
    requires SameShape(a, b)
    ensures MissingName(a.children) <==> MissingName(b.children)
  {
    if MissingName(a.children) {
      var i :| 0 <= i < |a.children| && IsPh(a.children[i]) && "name" !in a.children[i].attrs;
      assert SameShape(a.children[i], b.children[i]);
    }
    if MissingName(b.children) {
      var i :| 0 <= i < |b.children| && IsPh(b.children[i]) && "name" !in b.children[i].attrs;
      assert SameShape(a.children[i], b.children[i]);
    }
  }

  /** Every path is valid in `root` and leads to an element whose `ph` children all have names. */
  ghost predicate AllNamed(root: Elem, paths: seq<Path>)
    requires forall i :: 0 <= i < |paths| ==> At(root, paths[i]).Some?
  {
    forall i :: 0 <= i < |paths| ==> !MissingName(At(root, paths[i]).value.children)
  }

  /** One rewrite on a tree of the original shape fails exactly when the message lacks a `ph` name. */
  lemma RewriteOneInvariant(root: Elem, t: Elem, p: Path, genId: (string, string) -> string)
    requires SameShape(root, t) && At(root, p).Some?
    ensures RewriteOne(t, p, genId).Some? <==> !MissingName(At(root, p).value.children)
    ensures RewriteOne(t, p, genId).Some? ==> SameShape(root, RewriteOne(t, p, genId).value.0)
  {
    SameShapeAt(root, t, p);
    var m0 := At(root, p).value;
    var m1 := At(t, p).value;
    var m2 := ReplaceGritMessage(m1);
    ReplaceGritMessageShape(m1);
    SameShapeMissingName(m0, m1);
    SameShapeMissingName(m1, m2);
    RewriteOneAt(t, p, m1, genId);
    if !MissingName(m0.children) {
      SameShapeUpdate(t, p, m2);
      SameShapeTrans(root, t, UpdateAt(t, p, m2));
    }
  }

  lemma AllNamedSnoc(root: Elem, paths: seq<Path>)
    requires paths != [] && forall i :: 0 <= i < |paths| ==> At(root, paths[i]).Some?
    ensures var init := paths[..|paths| - 1]; forall i :: 0 <= i < |init| ==> At(root, init[i]).Some?
    ensures AllNamed(root, paths) <==>
              AllNamed(root, paths[..|paths| - 1]) && !MissingName(At(root, paths[|paths| - 1]).value.children)
  {
    var init := paths[..|paths| - 1];
    assert forall i :: 0 <= i < |init| ==> init[i] == paths[i];
  }

  /**
   * Rewriting messages at paths of the original tree succeeds exactly when
   * none of those messages has a `ph` child without a name; on success the
   * tree keeps its shape and there is one fingerprint change per message.
   */
  lemma {:induction false} RewriteMessagesInvariant(root: Elem, paths: seq<Path>, genId: (string, string) -> string)
    requires forall i :: 0 <= i < |paths| ==> At(root, paths[i]).Some?
    ensures RewriteMessages(root, paths, genId).Some? <==> AllNamed(root, paths)
    ensures RewriteMessages(root, paths, genId).Some? ==>
              SameShape(root, RewriteMessages(root, paths, genId).value.0)
              && |RewriteMessages(root, paths, genId).value.1| == |paths|
    decreases |paths|
  {
    if paths == [] {
      SameShapeRefl(root);
    } else {
      var init := paths[..|paths| - 1];
      AllNamedSnoc(root, paths);
      RewriteMessagesInvariant(root, init, genId);
      match RewriteMessages(root, init, genId)
      case None =>
      case Some((t1, changes)) =>
        RewriteOneInvariant(root, t1, paths[|paths| - 1], genId);
    }
  }

  /**
   * `replace_grit_tree` raises exactly when some message has a `ph` child
   * without a name; otherwise the returned tree has the shape of the input.
   */
  lemma GritTreeOutcomeShape(root: Elem, genId: (string, string) -> string)
    ensures GritTreeOutcome(root, genId).Some? <==> AllNamed(root, MessagePaths(root))
    ensures GritTreeOutcome(root, genId).Some? ==> SameShape(root, GritTreeOutcome(root, genId).value.0)
  {
    RewriteMessagesInvariant(root, MessagePaths(root), genId);
  }

  // ------------------------------------------------------------------ merging the maps

  /** The `dict.update` of each present map in turn: later maps override earlier ones. */
  function MergedMaps<T>(results: seq<Option<(T, map<string, string>)>>): map<string, string>
    decreases |results|
  {
    if results == [] then map[]
    else
      var m := MergedMaps(results[..|results| - 1]);
      match results[|results| - 1]
      case None => m
      case Some((_, fpMap)) => m + fpMap
  }

  /** `merge_fp_maps`: skip the files that produced nothing and merge the other maps in order. */
  method MergeFpMaps<T>(results: seq<Option<(T, map<string, string>)>>) returns (merged: map<string, string>)
    ensures merged == MergedMaps(results)
  {
    merged := map[];
    for i := 0 to |results|
      invariant merged == MergedMaps(results[..i])
    {
      assert results[..i + 1][..i] == results[..i];
      match results[i]
      case None =>
      case Some((_, fpMap)) =>
        merged := merged + fpMap;
    }
    assert results[..|results|] == results;
  }

  /** A key is in the merged map exactly when some present map has it. */
  lemma {:induction false} MergedMapsKeys<T>(results: seq<Option<(T, map<string, string>)>>, k: string)
    ensures k in MergedMaps(results) <==>
            exists i :: 0 <= i < |results| && results[i].Some? && k in results[i].value.1
    decreases |results|
  {
    if results != [] {
      var init := results[..|results| - 1];
      MergedMapsKeys(init, k);
      if exists i :: 0 <= i < |init| && init[i].Some? && k in init[i].value.1 {
        var i :| 0 <= i < |init| && init[i].Some? && k in init[i].value.1;
        assert results[i] == init[i];
      }
      if exists i :: 0 <= i < |results| && results[i].Some? && k in results[i].value.1 {
        var i :| 0 <= i < |results| && results[i].Some? && k in results[i].value.1;
        if i < |init| {
          assert init[i] == results[i];
        }
      }
    }
  }

  /** The merged value for a key comes from the last present map that has it. */
  lemma {:induction false} MergedMapsLatest<T>(results: seq<Option<(T, map<string, string>)>>, i: nat, k: string)
    requires i < |results| && results[i].Some? && k in results[i].value.1
    requires forall j :: i < j < |results| && results[j].Some? ==> k !in results[j].value.1
    ensures k in MergedMaps(results) && MergedMaps(results)[k] == results[i].value.1[k]
    decreases |results|
  {
    var init := results[..|results| - 1];
    if i < |results| - 1 {
      assert init[i] == results[i];
      forall j | i < j < |init| && init[j].Some? ensures k !in init[j].value.1 {
        assert init[j] == results[j];
      }
      MergedMapsLatest(init, i, k);
    }
  }
}
