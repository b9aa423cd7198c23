/**
 * `format_hashtags` and `format_mentions`: each is one `preg_replace` with
 * the pattern `(^|\s)S(\w*[L]+\w*)`, where the sigil S is `#` or `@` and the
 * letter class L is `[a-zA-Z_]` (hashtags also accept the umlauts
 * ü ö ä ß Ü Ä Ö). Each match, including the whitespace before the sigil,
 * becomes a fixed anchor that starts with a single space.
 */
module Tags {

  import opened Options
  import opened Chars
  import opened Replace

  datatype TagKind = Hashtag | Mention

  function Sigil(k: TagKind): char {
    match k
    case Hashtag => '#'
    case Mention => '@'
  }

  /** The class L: a name must contain at least one of these. */
  predicate IsTagLetter(k: TagKind, c: char) {
    IsAsciiLetter(c) || c == '_' || (k == Hashtag && IsUmlaut(c))
  }

  /** A character that can be part of a name (`\w` or L). */
  predicate IsNameChar(k: TagKind, c: char) {
    IsWord(c) || IsTagLetter(k, c)
  }

  /** The replacement template, with `$2` bound to the name. */
  function Anchor(k: TagKind, name: string): string {
    match k
    case Hashtag => " <a href=\"https://twitter.com/hashtag/" + name + "\" target=\"_blank\">#" + name + "</a>"
    case Mention => " <a href=\"https://twitter.com/" + name + "\" target=\"_blank\">@" + name + "</a>"
  }

  predicate HasTagLetter(k: TagKind, s: string, lo: nat, hi: nat)
    requires lo <= hi <= |s|
  {
    exists x | lo <= x < hi :: IsTagLetter(k, s[x])
  }

  /**
   * Length of the name that `\w*[L]+\w*` matches at `j`, or 0 when it does
   * not match. The first `\w*` takes the maximal word run and gives
   * characters back until L matches: if the character right after the run
   * is in L (only an umlaut can be), L+ and the last `\w*` continue from
   * there; otherwise the last L inside the run is used and the name is the
   * whole run.
   */
  function NameLength(k: TagKind, s: string, j: nat): (n: nat)
    requires j <= |s|
    ensures j + n <= |s|
    ensures forall x {:trigger IsNameChar(k, s[x])} :: j <= x < j + n ==> IsNameChar(k, s[x])
    ensures n > 0 ==> HasTagLetter(k, s, j, j + n)
  {
    var w := Run(IsWord, s, j);
    if j + w < |s| && IsTagLetter(k, s[j + w]) then
      var l := LetterRun(k, s, j + w);
      var r := Run(IsWord, s, j + w + l);
      assert IsTagLetter(k, s[j + w]);
      w + l + r
    else if HasTagLetter(k, s, j, j + w) then
      w
    else
      0
  }

  /** Length of the maximal run of L characters that starts at `j`. */
  function LetterRun(k: TagKind, s: string, j: nat): (n: nat)
    requires j <= |s|
    ensures j + n <= |s|
    ensures forall x :: j <= x < j + n ==> IsTagLetter(k, s[x])
    ensures j + n == |s| || !IsTagLetter(k, s[j + n])
    decreases |s| - j
  {
    if j < |s| && IsTagLetter(k, s[j]) then 1 + LetterRun(k, s, j + 1) else 0
  }

  lemma {:induction false} LetterRunIsMaximal(k: TagKind, s: string, j: nat, n: nat)
    requires j + n <= |s|
    requires forall x :: j <= x < j + n ==> IsTagLetter(k, s[x])
    requires j + n == |s| || !IsTagLetter(k, s[j + n])
    ensures LetterRun(k, s, j) == n
    decreases n
  {
    if n > 0 {
      LetterRunIsMaximal(k, s, j + 1, n - 1);
    }
  }

  /**
   * `s[j..e]` is a non-empty string of the shape `\w*[L]+\w*`: word
   * characters up to `a`, L characters from `a` to `b` (at least one), word
   * characters from `b` to `e`.
   */
  ghost predicate NameShape(k: TagKind, s: string, j: nat, e: nat) {
    j < e <= |s| &&
    exists a: nat, b: nat :: j <= a < b <= e && NameSplit(k, s, j, a, b, e)
  }

  ghost predicate NameSplit(k: TagKind, s: string, j: nat, a: nat, b: nat, e: nat)
    requires j <= a <= b <= e <= |s|
  {
    && (forall x :: j <= x < a ==> IsWord(s[x]))
    && (forall x :: a <= x < b ==> IsTagLetter(k, s[x]))
    && (forall x :: b <= x < e ==> IsWord(s[x]))
  }

  /**
   * The name the pattern takes at `j` is the longest string of the shape
   * `\w*[L]+\w*` that starts there, and there is no name exactly when no
   * such string exists. Backtracking from the greedy first `\w*` finds this
   * longest one, umlauts included: `#müller` gives `müller`, and `#aü1ü`
   * gives `aü1`, because the two umlauts cannot both sit in the one `[L]+`.
   */
  lemma NameLengthIsLongestName(k: TagKind, s: string, j: nat, e: nat)
    requires j <= |s|
    ensures NameLength(k, s, j) > 0 ==> NameShape(k, s, j, j + NameLength(k, s, j))
    ensures NameShape(k, s, j, e) ==> e <= j + NameLength(k, s, j)
  {
    NameLengthHasShape(k, s, j);
    if NameShape(k, s, j, e) {
      var a: nat, b: nat :| j <= a < b <= e && NameSplit(k, s, j, a, b, e);
      NameShapeBounded(k, s, j, a, b, e);
    }
  }

  lemma NameLengthHasShape(k: TagKind, s: string, j: nat)
    requires j <= |s|
    ensures NameLength(k, s, j) > 0 ==> NameShape(k, s, j, j + NameLength(k, s, j))
  {
    var w := Run(IsWord, s, j);
    if j + w < |s| && IsTagLetter(k, s[j + w]) {
      var l := LetterRun(k, s, j + w);
      var r := Run(IsWord, s, j + w + l);
      ThreeRunsSplit(k, s, j, w, l, r, j + NameLength(k, s, j));
    } else if HasTagLetter(k, s, j, j + w) {
      WordRunSplit(k, s, j, w);
    }
  }

  lemma ThreeRunsSplit(k: TagKind, s: string, j: nat, w: nat, l: nat, r: nat, e: nat)
    requires e == j + w + l + r <= |s| && 0 < l
    requires forall x :: j <= x < j + w ==> IsWord(s[x])
    requires forall x :: j + w <= x < j + w + l ==> IsTagLetter(k, s[x])
    requires forall x :: j + w + l <= x < j + w + l + r ==> IsWord(s[x])
    ensures NameShape(k, s, j, e)
  {
    SplitGivesShape(k, s, j, j + w, j + w + l, e);
  }

  lemma WordRunSplit(k: TagKind, s: string, j: nat, w: nat)
    requires j + w <= |s| && HasTagLetter(k, s, j, j + w)
    requires forall x :: j <= x < j + w ==> IsWord(s[x])
    ensures NameShape(k, s, j, j + w)
  {
    var x :| j <= x < j + w && IsTagLetter(k, s[x]);
    SplitGivesShape(k, s, j, x, x + 1, j + w);
  }

  lemma SplitGivesShape(k: TagKind, s: string, j: nat, a: nat, b: nat, e: nat)
    requires j <= a < b <= e <= |s| && NameSplit(k, s, j, a, b, e)
    ensures NameShape(k, s, j, e)
  {
  }

  lemma NameShapeBounded(k: TagKind, s: string, j: nat, a: nat, b: nat, e: nat)
    requires j <= a < b <= e <= |s| && NameSplit(k, s, j, a, b, e)
    ensures e <= j + NameLength(k, s, j)
  {
    var w := Run(IsWord, s, j);
    if e <= j + w {
      assert IsTagLetter(k, s[a]);
      assert (j + w < |s| && IsTagLetter(k, s[j + w])) || HasTagLetter(k, s, j, j + w);
    } else {
      assert !IsWord(s[j + w]);
      assert a <= j + w < b;
      var l := LetterRun(k, s, j + w);
      assert b <= j + w + l;
    }
  }

  /** `#müller` has the name `müller`: the umlaut continues the name past `m`. */
  lemma UmlautNameExample()
    ensures NameLength(Hashtag, "#müller", 1) == 6
  {
    var s := "#müller";
    RunIsMaximal(IsWord, s, 1, 1);
    LetterRunIsMaximal(Hashtag, s, 2, 5);
    RunIsMaximal(IsWord, s, 7, 0);
  }

  /** Mentions do not list the umlauts, so `@müller` has the name `m`. */
  lemma MentionUmlautExample()
    ensures NameLength(Mention, "@müller", 1) == 1
  {
    var s := "@müller";
    RunIsMaximal(IsWord, s, 1, 1);
    assert IsTagLetter(Mention, s[1]);
  }

  /** `#aü1ü` has the name `aü1`: the second umlaut would need a second `[L]+`. */
  lemma SplitUmlautsExample()
    ensures NameLength(Hashtag, "#aü1ü", 1) == 3
  {
    var s := "#aü1ü";
    RunIsMaximal(IsWord, s, 1, 1);
    LetterRunIsMaximal(Hashtag, s, 2, 1);
    RunIsMaximal(IsWord, s, 3, 1);
  }

  /** The sigil at `q` is at the start of the text or right after whitespace. */
  predicate SigilAnchored(k: TagKind, s: string, q: nat) {
    q < |s| && s[q] == Sigil(k) && (q == 0 || IsSpace(s[q - 1]))
  }

  /** A match of the pattern: `[start, end)` is the whole match, `sigil` the position of `#` or `@`. */
  datatype Occurrence = Occurrence(start: nat, sigil: nat, end: nat)

  /** The match of `(^|\s)S(\w*[L]+\w*)` that starts at `p`, trying `^` before `\s`. */
  function OccurrenceAt(k: TagKind, s: string, p: nat): (o: Option<Occurrence>)
    ensures o.Some? ==> o.value.start == p && SigilAnchored(k, s, o.value.sigil)
    ensures o.Some? ==> NameLength(k, s, o.value.sigil + 1) > 0
    ensures o.Some? ==> o.value.end == o.value.sigil + 1 + NameLength(k, s, o.value.sigil + 1) <= |s|
    ensures o.Some? ==> (o.value.sigil == p == 0) || (o.value.sigil == p + 1 && IsSpace(s[p]))
  {
    if p == 0 && 0 < |s| && s[0] == Sigil(k) then
      NamedAt(k, s, 0, 0)
    else if p + 1 < |s| && IsSpace(s[p]) && s[p + 1] == Sigil(k) then
      NamedAt(k, s, p, p + 1)
    else
      None
  }

  /** The match starting at `p` whose sigil is at `q`, if a name follows the sigil. */
  function NamedAt(k: TagKind, s: string, p: nat, q: nat): (o: Option<Occurrence>)
    requires q < |s|
    ensures o.Some? ==> o.value.start == p && o.value.sigil == q
    ensures o.Some? ==> NameLength(k, s, q + 1) > 0
    ensures o.Some? ==> o.value.end == q + 1 + NameLength(k, s, q + 1) <= |s|
  {
    var n := NameLength(k, s, q + 1);
    if n > 0 then Some(Occurrence(p, q, q + 1 + n)) else None
  }

  /** Every character of a match: whitespace first (if any), then the sigil, then name characters. */
  lemma OccurrenceLayout(k: TagKind, s: string, p: nat, x: int)
    requires OccurrenceAt(k, s, p).Some?
    ensures var o := OccurrenceAt(k, s, p).value;
      p <= x < o.end ==>
        && (x < o.sigil ==> x == p && IsSpace(s[x]))
        && (x == o.sigil ==> s[x] == Sigil(k))
        && (x > o.sigil ==> IsNameChar(k, s[x]))
  {
  }

  /** Sigils, whitespace and name characters are three disjoint classes. */
  lemma ClassesDisjoint(k: TagKind, c: char)
    ensures IsNameChar(k, c) ==> !IsSpace(c) && c != Sigil(k)
    ensures IsSpace(c) ==> c != Sigil(k)
  {
  }

  function TagHitAt(k: TagKind, s: string, p: nat): Option<Hit> {
    match OccurrenceAt(k, s, p)
    case Some(o) => Some(Hit(o.start, o.end, Anchor(k, s[o.sigil + 1..o.end])))
    case None => None
  }

  function TagMatcher(k: TagKind, s: string): Matcher {
    (p: nat) => TagHitAt(k, s, p)
  }

  lemma TagMatcherSound(k: TagKind, s: string)
    ensures Sound(s, TagMatcher(k, s))
  {
  }

  /** The matches `preg_replace` finds for this pattern. */
  function TagHits(k: TagKind, s: string): seq<Hit> {
    TagMatcherSound(k, s);
    Hits(s, TagMatcher(k, s), 0)
  }

  /** The `preg_replace` call itself. */
  function ScanTags(k: TagKind, s: string): string {
    TagMatcherSound(k, s);
    ReplaceAll(s, TagMatcher(k, s))
  }

  /** `format_hashtags` / `format_mentions`: the replacement runs only when the sigil occurs. */
  function FormatTags(k: TagKind, s: string): string {
    if Sigil(k) in s then ScanTags(k, s) else s
  }

  function FormatHashtags(s: string): string {
    FormatTags(Hashtag, s)
  }

  function FormatMentions(s: string): string {
    FormatTags(Mention, s)
  }

  /**
   * Which sigils get linked: a `#` (or `@`) is rewritten exactly when it
   * stands at the start of the text or right after whitespace and a valid
   * name follows it.
   */
  lemma SigilLinkedIff(k: TagKind, s: string, q: nat)
    requires q < |s| && s[q] == Sigil(k)
    ensures Covered(TagHits(k, s), q) <==> SigilAnchored(k, s, q) && NameLength(k, s, q + 1) > 0
  {
    if Covered(TagHits(k, s), q) {
      LinkedSigilIsAnchored(k, s, q);
    }
    if SigilAnchored(k, s, q) && NameLength(k, s, q + 1) > 0 {
      AnchoredSigilIsLinked(k, s, q);
    }
  }

  lemma LinkedSigilIsAnchored(k: TagKind, s: string, q: nat)
    requires q < |s| && s[q] == Sigil(k)
    requires Covered(TagHits(k, s), q)
    ensures SigilAnchored(k, s, q) && NameLength(k, s, q + 1) > 0
  {
    var hs := TagHits(k, s);
    var j := CoveringHit(hs, q);
    TagHitShape(k, s, j);
    SigilInOccurrence(k, s, hs[j].start, q);
  }

  /** The only sigil inside a match is the one the match is anchored on. */
  lemma SigilInOccurrence(k: TagKind, s: string, p: nat, q: nat)
    requires OccurrenceAt(k, s, p).Some?
    requires p <= q < OccurrenceAt(k, s, p).value.end && s[q] == Sigil(k)
    ensures q == OccurrenceAt(k, s, p).value.sigil
  {
    OccurrenceLayout(k, s, p, q);
    ClassesDisjoint(k, s[q]);
  }

  /** A character inside a match that is neither a sigil nor a name character is its leading whitespace. */
  lemma NeitherIsMatchStart(k: TagKind, s: string, p: nat, x: nat)
    requires OccurrenceAt(k, s, p).Some?
    requires p <= x < OccurrenceAt(k, s, p).value.end
    requires s[x] != Sigil(k) && !IsNameChar(k, s[x])
    ensures x == p
  {
    OccurrenceLayout(k, s, p, x);
  }

  lemma AnchoredSigilIsLinked(k: TagKind, s: string, q: nat)
    requires SigilAnchored(k, s, q) && NameLength(k, s, q + 1) > 0
    ensures Covered(TagHits(k, s), q)
  {
    var hs := TagHits(k, s);
    var p0 := OccurrenceOfAnchoredSigil(k, s, q);
    OccurrenceIsCovered(k, s, p0);
    var j := CoveringHit(hs, p0);
    HitCoveringMatchStart(k, s, p0, j);
    TagHitShape(k, s, j);
    CoveredByHit(hs, j, q);
  }

  /** A hit that covers the start of a match begins there: hits never start inside a match's name. */
  lemma HitCoveringMatchStart(k: TagKind, s: string, p0: nat, j: nat)
    requires OccurrenceAt(k, s, p0).Some?
    requires j < |TagHits(k, s)|
    requires TagHits(k, s)[j].start <= p0 < TagHits(k, s)[j].end
    ensures TagHits(k, s)[j].start == p0
  {
    var h := TagHits(k, s)[j];
    TagHitShape(k, s, j);
    if p0 > 0 {
      ClassesDisjoint(k, s[p0]);
      NeitherIsMatchStart(k, s, h.start, p0);
    }
  }

  /** An anchored sigil followed by a valid name is matched at the start of text or at the whitespace before it. */
  lemma OccurrenceOfAnchoredSigil(k: TagKind, s: string, q: nat) returns (p0: nat)
    requires SigilAnchored(k, s, q) && NameLength(k, s, q + 1) > 0
    ensures p0 == if q == 0 then 0 else q - 1
    ensures OccurrenceAt(k, s, p0).Some? && OccurrenceAt(k, s, p0).value.sigil == q
    ensures q > 0 ==> IsSpace(s[p0])
  {
    p0 := if q == 0 then 0 else q - 1;
  }

  /** Every position where the pattern matches lies inside one of the hits. */
  lemma OccurrenceIsCovered(k: TagKind, s: string, p: nat)
    requires OccurrenceAt(k, s, p).Some?
    ensures Covered(TagHits(k, s), p)
  {
    var m := TagMatcher(k, s);
    TagMatcherSound(k, s);
    assert m(p).Some?;
  }

  /**
   * What the name is: when the maximal word run after the sigil is not
   * followed by a letter of L, the name is that whole run if it contains a
   * letter or underscore, and there is no match otherwise (`#123`).
   */
  lemma NameIsMaximalWordRun(k: TagKind, s: string, j: nat, n: nat)
    requires j + n <= |s|
    requires forall x :: j <= x < j + n ==> IsWord(s[x])
    requires j + n == |s| || !IsNameChar(k, s[j + n])
    ensures NameLength(k, s, j) == if HasTagLetter(k, s, j, j + n) then n else 0
  {
    RunIsMaximal(IsWord, s, j, n);
  }

  /**
   * What a match is replaced by: each hit is the match found at its start
   * (whitespace or start of text, sigil, name), and the whole of it becomes
   * the anchor for the name.
   */
  lemma TagHitShape(k: TagKind, s: string, j: nat)
    requires j < |TagHits(k, s)|
    ensures OccurrenceAt(k, s, TagHits(k, s)[j].start).Some?
    ensures var h := TagHits(k, s)[j];
      var o := OccurrenceAt(k, s, h.start).value;
      && h.end == o.end
      && h.replacement == Anchor(k, s[o.sigil + 1..o.end])
  {
    var m := TagMatcher(k, s);
    TagMatcherSound(k, s);
    var hs := TagHits(k, s);
    assert m(hs[j].start) == Some(hs[j]);
  }

  /**
   * Text with no linkable sigil comes back unchanged; in particular text
   * without the sigil at all, so the `strpos` guard only saves work.
   */
  lemma NoLinkableSigilIsIdentity(k: TagKind, s: string)
    requires forall q: nat :: SigilAnchored(k, s, q) ==> NameLength(k, s, q + 1) == 0
    ensures ScanTags(k, s) == s
    ensures FormatTags(k, s) == s
  {
    TagMatcherSound(k, s);
    var m := TagMatcher(k, s);
    forall p: nat | p < |s|
      ensures m(p).None?
    {
      NoOccurrenceWithoutName(k, s, p);
      assert TagHitAt(k, s, p) == m(p);
    }
    NoMatchIsIdentity(s, m);
  }

  lemma NoOccurrenceWithoutName(k: TagKind, s: string, p: nat)
    requires forall q: nat :: SigilAnchored(k, s, q) ==> NameLength(k, s, q + 1) == 0
    ensures OccurrenceAt(k, s, p).None?
  {
  }

  /** The `strpos` guard never changes the result. */
  lemma GuardIsOptimisation(k: TagKind, s: string)
    ensures FormatTags(k, s) == ScanTags(k, s)
  {
    if Sigil(k) !in s {
      NoLinkableSigilIsIdentity(k, s);
    }
  }

  /**
   * A block of text that no match can touch: it does not start with the
   * sigil or a name character, does not end with whitespace, and no sigil
   * inside it follows whitespace.
   */
  predicate Inert(k: TagKind, block: string) {
    && |block| > 0
    && block[0] != Sigil(k) && !IsNameChar(k, block[0])
    && !IsSpace(block[|block| - 1])
    && forall i :: 0 < i < |block| && block[i] == Sigil(k) ==> !IsSpace(block[i - 1])
  }

  lemma InBlock(a: string, block: string, b: string, i: int)
    ensures |a| <= i < |a| + |block| ==> (a + block + b)[i] == block[i - |a|]
  {
  }

  /** No match overlaps an inert block, wherever the block sits in the text. */
  lemma TagHitsAvoidInert(k: TagKind, a: string, block: string, b: string, j: nat)
    requires Inert(k, block)
    requires j < |TagHits(k, a + block + b)|
    ensures var h := TagHits(k, a + block + b)[j];
      h.end <= |a| || |a| + |block| <= h.start
  {
    TagHitShape(k, a + block + b, j);
    OccurrenceAvoidsInert(k, a, block, b, TagHits(k, a + block + b)[j].start);
  }

  lemma OccurrenceAvoidsInert(k: TagKind, a: string, block: string, b: string, p: nat)
    requires Inert(k, block)
    requires OccurrenceAt(k, a + block + b, p).Some?
    ensures var o := OccurrenceAt(k, a + block + b, p).value;
      o.end <= |a| || |a| + |block| <= p
  {
    var x := a + block + b;
    var o := OccurrenceAt(k, x, p).value;
    OccurrenceLayout(k, x, p, |a|);
    InBlock(a, block, b, |a|);
    InBlock(a, block, b, o.sigil);
    InBlock(a, block, b, o.sigil - 1);
    InBlock(a, block, b, |a| + |block| - 1);
  }

  /** An inert block comes out of `format_hashtags` / `format_mentions` unchanged and in one piece. */
  lemma InertBlockSurvives(k: TagKind, a: string, block: string, b: string)
    requires Inert(k, block)
    ensures exists a', b' :: FormatTags(k, a + block + b) == a' + block + b'
  {
    var x := a + block + b;
    GuardIsOptimisation(k, x);
    TagMatcherSound(k, x);
    var hs := TagHits(k, x);
    assert Ordered(x, 0, hs);
    forall j | 0 <= j < |hs|
      ensures hs[j].end <= |a| || |a| + |block| <= hs[j].start
    {
      TagHitsAvoidInert(k, a, block, b, j);
    }
    SpliceKeepsUntouched(x, 0, hs, |a|, |a| + |block|);
    assert x[|a|..|a| + |block|] == block;
  }

  /** Matches do not overlap: in `#a#b` the second `#` follows the first name, not whitespace, so only `#a` is linked. */
  lemma AdjacentTagsExample()
    ensures FormatHashtags("#a#b") == Anchor(Hashtag, "a") + "#b"
  {
    var s := "#a#b";
    AdjacentTagsHits();
    TagMatcherSound(Hashtag, s);
    assert ScanTags(Hashtag, s) == Splice(s, 0, [Hit(0, 2, Anchor(Hashtag, "a"))]);
    assert s[0] == '#' && s[2..] == "#b";
  }

  lemma AdjacentTagsHits()
    ensures TagHits(Hashtag, "#a#b") == [Hit(0, 2, Anchor(Hashtag, "a"))]
  {
    var s, k := "#a#b", Hashtag;
    var m := TagMatcher(k, s);
    TagMatcherSound(k, s);
    var h := Hit(0, 2, Anchor(k, "a"));
    AdjacentTagsMatches();
    assert m(0) == Some(h) && m(2).None? && m(3).None?;
    forall p: nat | p < |s| && m(p).Some?
      ensures Covered([h], p)
    {
      assert p < 2;
      CoveredByHit([h], 0, p);
    }
    LeftmostScanUnique(s, m, 0, [h]);
  }

  lemma AdjacentTagsMatches()
    ensures TagHitAt(Hashtag, "#a#b", 0) == Some(Hit(0, 2, Anchor(Hashtag, "a")))
    ensures TagHitAt(Hashtag, "#a#b", 2).None? && TagHitAt(Hashtag, "#a#b", 3).None?
  {
    var s, k := "#a#b", Hashtag;
    RunIsMaximal(IsWord, s, 1, 1);
    assert IsTagLetter(k, s[1]);
    assert NameLength(k, s, 1) == 1;
    assert s[1..2] == "a";
  }

  /** A name needs a letter or underscore: `#123` is left as it is. */
  lemma DigitsOnlyExample()
    ensures FormatHashtags("#123") == "#123"
  {
    var s, k := "#123", Hashtag;
    NameIsMaximalWordRun(k, s, 1, 3);
    assert !HasTagLetter(k, s, 1, 4);
    NoLinkableSigilIsIdentity(k, s);
  }
}
