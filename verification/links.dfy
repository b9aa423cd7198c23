/**
 * `format_links`: one case-insensitive `preg_replace` with John Gruber's
 * URL pattern
 *
 *   \b( (https?://| www\d{0,3}[.] | [a-z0-9.\-]+[.][a-z]{2,4}/)
 *       (unit)+ (group | end-char) )
 *
 * where a unit is one character of `[^\s()<>]` or a parenthesised group
 * `( ([^\s()<>] | ( [^\s()<>]+ ))* )`, and `end-char` is `[^\s()<>]` minus
 * the punctuation `` `!()[]{};:'".,<>?«»“”‘’ ``. Each match `u` becomes
 * `<a href="u" target="_blank">u</a>`. The pass only runs when the text
 * contains the case-sensitive substring `http`.
 */
module Links {

  import opened Options
  import opened Chars
  import opened Replace

  /** `[^\s()<>]`: a URL character outside parentheses. */
  predicate IsUrlChar(c: char) {
    !IsSpace(c) && c != '(' && c != ')' && c != '<' && c != '>'
  }

  /** The class a URL may end with (unless it ends with a group). */
  predicate IsUrlEnd(c: char) {
    !IsSpace(c) && c !in "`!()[]{};:'\".,<>?«»“”‘’"
  }

  /** A character that can occur anywhere in a detected URL. */
  predicate IsLinkChar(c: char) {
    IsUrlChar(c) || c == '(' || c == ')'
  }

  predicate IsDomainChar(c: char) {
    IsAsciiLetter(c) || IsDigit(c) || c == '.' || c == '-'
  }

  /** `\b` at `p`: exactly one of the characters around `p` is a word character. */
  predicate AtWordBoundary(s: string, p: nat) {
    (0 < p <= |s| && IsWord(s[p - 1])) != (p < |s| && IsWord(s[p]))
  }

  /** Under `(?i)`, the subject spells the lower-case word `w` from `p`. */
  predicate StartsWithCI(s: string, p: nat, w: string) {
    p + |w| <= |s| && forall i :: 0 <= i < |w| ==> Lower(s[p + i]) == w[i]
  }

  /* ---------------------------------------------------------------- prefix */

  /** `https?://`: the greedy `s?` tries `https://` first. */
  function SchemeEnd(s: string, p: nat): (r: Option<nat>)
    ensures r.Some? ==> p < r.value <= |s|
  {
    if StartsWithCI(s, p, "https://") then Some(p + 8)
    else if StartsWithCI(s, p, "http://") then Some(p + 7)
    else None
  }

  /** `www\d{0,3}[.]`: only the whole digit run can be followed by the dot. */
  function WwwEnd(s: string, p: nat): (r: Option<nat>)
    ensures r.Some? ==> p < r.value <= |s|
  {
    if StartsWithCI(s, p, "www") then
      var d := Run(IsDigit, s, p + 3);
      if d <= 3 && p + 3 + d < |s| && s[p + 3 + d] == '.' then Some(p + 4 + d) else None
    else None
  }

  /** Number of ASCII letters that end the span `[lo, hi)`. */
  function TrailingLetters(s: string, lo: nat, hi: nat): (t: nat)
    requires lo <= hi <= |s|
    ensures t <= hi - lo
    ensures forall x :: hi - t <= x < hi ==> IsAsciiLetter(s[x])
    ensures hi - t == lo || !IsAsciiLetter(s[hi - t - 1])
    decreases hi - lo
  {
    if lo < hi && IsAsciiLetter(s[hi - 1]) then 1 + TrailingLetters(s, lo, hi - 1) else 0
  }

  /**
   * `[a-z0-9.\-]+[.][a-z]{2,4}/`: the `/` can only be the character after
   * the maximal domain-character run, and the letters before it must be
   * exactly the run's trailing letters, preceded by a dot and at least one
   * more domain character.
   */
  function DomainEnd(s: string, p: nat): (r: Option<nat>)
    ensures r.Some? ==> p < r.value <= |s|
  {
    if p <= |s| then
      var dl := Run(IsDomainChar, s, p);
      var t := TrailingLetters(s, p, p + dl);
      if p + dl < |s| && s[p + dl] == '/' && 2 <= t <= 4 && t + 2 <= dl && s[p + dl - t - 1] == '.' then
        Some(p + dl + 1)
      else None
    else None
  }

  /** The bare-domain alternative read as a regular expression: label, dot, 2 to 4 letters, slash. */
  ghost predicate DomainShape(s: string, p: nat, c: nat, t: nat) {
    && p < c && c + t + 1 < |s|
    && (forall x :: p <= x < c ==> IsDomainChar(s[x]))
    && s[c] == '.' && 2 <= t <= 4
    && (forall x :: c < x <= c + t ==> IsAsciiLetter(s[x]))
    && s[c + t + 1] == '/'
  }

  /** `DomainEnd` finds exactly the ends of the strings `DomainShape` describes. */
  lemma DomainEndIff(s: string, p: nat, q: nat)
    ensures DomainEnd(s, p) == Some(q) <==> exists c: nat, t: nat :: DomainShape(s, p, c, t) && q == c + t + 2
  {
    if DomainEnd(s, p) == Some(q) {
      var dl := Run(IsDomainChar, s, p);
      var t := TrailingLetters(s, p, p + dl);
      assert DomainShape(s, p, p + dl - t - 1, t);
    }
    if exists c: nat, t: nat :: DomainShape(s, p, c, t) && q == c + t + 2 {
      var c: nat, t: nat :| DomainShape(s, p, c, t) && q == c + t + 2;
      DomainShapeFound(s, p, c, t);
    }
  }

  lemma DomainShapeFound(s: string, p: nat, c: nat, t: nat)
    requires DomainShape(s, p, c, t)
    ensures DomainEnd(s, p) == Some(c + t + 2)
  {
    RunIsMaximal(IsDomainChar, s, p, c + t + 1 - p);
    TrailingLettersExact(s, p, c + t + 1, t);
  }

  lemma {:induction false} TrailingLettersExact(s: string, lo: nat, hi: nat, t: nat)
    requires lo + t < hi <= |s|
    requires forall x :: hi - t <= x < hi ==> IsAsciiLetter(s[x])
    requires !IsAsciiLetter(s[hi - t - 1])
    ensures TrailingLetters(s, lo, hi) == t
    decreases t
  {
    if t > 0 {
      TrailingLettersExact(s, lo, hi - 1, t - 1);
    }
  }

  /** The `www` alternative read as a regular expression. */
  ghost predicate WwwShape(s: string, p: nat, d: nat) {
    && StartsWithCI(s, p, "www") && d <= 3 && p + 3 + d < |s|
    && (forall x :: p + 3 <= x < p + 3 + d ==> IsDigit(s[x]))
    && s[p + 3 + d] == '.'
  }

  /** `WwwEnd` finds exactly the ends of the strings `WwwShape` describes. */
  lemma WwwEndIff(s: string, p: nat, q: nat)
    ensures WwwEnd(s, p) == Some(q) <==> exists d: nat :: WwwShape(s, p, d) && q == p + 4 + d
  {
    if WwwEnd(s, p) == Some(q) {
      assert WwwShape(s, p, Run(IsDigit, s, p + 3));
    }
    if exists d: nat :: WwwShape(s, p, d) && q == p + 4 + d {
      var d: nat :| WwwShape(s, p, d) && q == p + 4 + d;
      RunIsMaximal(IsDigit, s, p + 3, d);
    }
  }

  /* ------------------------------------------------------------------ body */

  /**
   * The end of the group whose `(` is just before `i`: URL characters and
   * inner groups `(` [^\s()<>]+ `)` up to the closing `)`.
   */
  function GroupRest(s: string, i: nat): (r: Option<nat>)
    requires i <= |s|
    ensures r.Some? ==> i < r.value <= |s|
    decreases |s| - i
  {
    if i == |s| then None
    else if s[i] == ')' then Some(i + 1)
    else if IsUrlChar(s[i]) then GroupRest(s, i + 1)
    else if s[i] == '(' then
      var n := Run(IsUrlChar, s, i + 1);
      if 0 < n && i + 1 + n < |s| && s[i + 1 + n] == ')' then GroupRest(s, i + 2 + n) else None
    else None
  }

  /** The unit of the body at `j`: one URL character, or a whole group. */
  function UnitEnd(s: string, j: nat): (r: Option<nat>)
    requires j <= |s|
    ensures r.Some? ==> j < r.value <= |s|
  {
    if j < |s| && IsUrlChar(s[j]) then Some(j + 1)
    else if j < |s| && s[j] == '(' then GroupRest(s, j + 1)
    else None
  }

  /** The unit at `j` may close the match: it is a group or an end character. */
  predicate CanEnd(s: string, j: nat) {
    j < |s| && (s[j] == '(' || IsUrlEnd(s[j]))
  }

  /**
   * The body of a URL from `j`, read as the regular expression `(unit)+ (group | end-char)`:
   * a chain of units ending at `e` whose last unit may close the match and
   * which holds at least two units (`first` is true while none has been read).
   */
  predicate IsBody(s: string, j: nat, e: nat, first: bool)
    decreases |s| - j
  {
    j <= |s| && UnitEnd(s, j).Some? &&
    var u := UnitEnd(s, j).value;
    (u == e && !first && CanEnd(s, j)) || (u < e && IsBody(s, u, e, false))
  }

  /**
   * The end of the longest body from `j`. A backtracking matcher tries the
   * greedy `(unit)+` at its longest first and gives units back one at a
   * time, so the first success it finds is the longest one.
   */
  function SpanFrom(s: string, j: nat, first: bool): (r: Option<nat>)
    requires j <= |s|
    ensures r.Some? ==> j < r.value <= |s|
    decreases |s| - j
  {
    match UnitEnd(s, j)
    case None => None
    case Some(u) =>
      var later := SpanFrom(s, u, false);
      if later.Some? then later
      else if !first && CanEnd(s, j) then Some(u)
      else None
  }

  /** `SpanFrom` returns a body, and no body from `j` is longer. */
  lemma {:induction false} SpanFromIsLongestBody(s: string, j: nat, first: bool, e: nat)
    requires j <= |s|
    ensures SpanFrom(s, j, first) == Some(e) ==> IsBody(s, j, e, first)
    ensures IsBody(s, j, e, first) ==> SpanFrom(s, j, first).Some? && e <= SpanFrom(s, j, first).value
    decreases |s| - j
  {
    if UnitEnd(s, j).Some? {
      var u := UnitEnd(s, j).value;
      SpanFromIsLongestBody(s, u, false, e);
    }
  }

  /** The body that follows a prefix ending at `q`, if the prefix matched. */
  function BodyAfter(s: string, q: Option<nat>): (r: Option<nat>)
    requires q.Some? ==> q.value <= |s|
    ensures r.Some? ==> q.Some? && q.value < r.value <= |s|
  {
    if q.Some? then SpanFrom(s, q.value, true) else None
  }

  /**
   * The end of the URL matched at `p`: after `\b`, the prefix alternatives
   * are tried in the pattern's order and the first one that a body can
   * follow wins.
   */
  function UrlEndAt(s: string, p: nat): (r: Option<nat>)
    ensures r.Some? ==> p < r.value <= |s|
  {
    if p > |s| || !AtWordBoundary(s, p) then None
    else
      var scheme := BodyAfter(s, SchemeEnd(s, p));
      if scheme.Some? then scheme
      else
        var www := BodyAfter(s, WwwEnd(s, p));
        if www.Some? then www else BodyAfter(s, DomainEnd(s, p))
  }

  /* ----------------------------------------------------------- replacement */

  /** The replacement template `<a href="$1" target="_blank">$1</a>`. */
  function LinkAnchor(u: string): string {
    "<a href=\"" + u + "\" target=\"_blank\">" + u + "</a>"
  }

  function LinkHitAt(s: string, p: nat): Option<Hit> {
    match UrlEndAt(s, p)
    case Some(e) => Some(Hit(p, e, LinkAnchor(s[p..e])))
    case None => None
  }

  function LinkMatcher(s: string): Matcher {
    (p: nat) => LinkHitAt(s, p)
  }

  lemma LinkMatcherSound(s: string)
    ensures Sound(s, LinkMatcher(s))
  {
  }

  /** The URLs `preg_replace` finds. */
  function LinkHits(s: string): seq<Hit> {
    LinkMatcherSound(s);
    Hits(s, LinkMatcher(s), 0)
  }

  /** The `preg_replace` call itself. */
  function ScanLinks(s: string): string {
    LinkMatcherSound(s);
    ReplaceAll(s, LinkMatcher(s))
  }

  /** `format_links`: the replacement runs only when the text contains `http`. */
  function FormatLinks(s: string): string {
    if HasSubstring(s, "http") then ScanLinks(s) else s
  }

  /* ------------------------------------------------------------ parentheses */

  /** The effect of one character on the parenthesis depth; `None` for a `)` with nothing open. */
  function Step(c: char, d: nat): Option<nat> {
    if c == '(' then Some(d + 1)
    else if c == ')' then (if d == 0 then None else Some(d - 1))
    else Some(d)
  }

  /** The parenthesis depth after reading `s[lo..hi]` from depth `d`, or `None` if it drops below zero. */
  function Walk(s: string, lo: nat, hi: nat, d: nat): Option<nat>
    requires lo <= hi <= |s|
    decreases hi - lo
  {
    if lo == hi then Some(d)
    else match Step(s[lo], d)
      case None => None
      case Some(d') => Walk(s, lo + 1, hi, d')
  }

  /** Every `)` in `s[lo..hi]` closes an earlier `(` of the span, and every `(` is closed. */
  predicate BalancedSpan(s: string, lo: nat, hi: nat)
    requires lo <= hi <= |s|
  {
    Walk(s, lo, hi, 0) == Some(0)
  }

  lemma {:induction false} WalkSplit(s: string, lo: nat, mid: nat, hi: nat, d: nat, d1: nat)
    requires lo <= mid <= hi <= |s| && Walk(s, lo, mid, d) == Some(d1)
    ensures Walk(s, lo, hi, d) == Walk(s, mid, hi, d1)
    decreases mid - lo
  {
    if lo < mid {
      WalkSplit(s, lo + 1, mid, hi, Step(s[lo], d).value, d1);
    }
  }

  lemma {:induction false} WalkFlat(s: string, lo: nat, hi: nat, d: nat)
    requires lo <= hi <= |s|
    requires forall x :: lo <= x < hi ==> IsUrlChar(s[x])
    ensures Walk(s, lo, hi, d) == Some(d)
    decreases hi - lo
  {
    if lo < hi {
      WalkFlat(s, lo + 1, hi, d);
    }
  }

  /* ------------------------------------------------------------ URL shape */

  /** A group holds only link characters, ends with `)`, and closes the `(` before it. */
  lemma {:induction false} GroupShape(s: string, i: nat, d: nat)
    requires i <= |s| && GroupRest(s, i).Some?
    ensures var r := GroupRest(s, i).value;
      && (forall x :: i <= x < r ==> IsLinkChar(s[x]))
      && s[r - 1] == ')'
      && Walk(s, i, r, d + 1) == Some(d)
    decreases |s| - i
  {
    if s[i] == ')' {
    } else if IsUrlChar(s[i]) {
      GroupShape(s, i + 1, d);
    } else {
      var n := Run(IsUrlChar, s, i + 1);
      GroupShape(s, i + 2 + n, d);
      WalkFlat(s, i + 1, i + 1 + n, d + 2);
      WalkSplit(s, i + 1, i + 1 + n, i + 2 + n, d + 2, d + 2);
      WalkSplit(s, i, i + 2 + n, GroupRest(s, i).value, d + 1, d + 1);
    }
  }

  lemma UnitShape(s: string, j: nat, d: nat)
    requires j <= |s| && UnitEnd(s, j).Some?
    ensures var u := UnitEnd(s, j).value;
      && (forall x :: j <= x < u ==> IsLinkChar(s[x]))
      && Walk(s, j, u, d) == Some(d)
      && (CanEnd(s, j) ==> IsUrlEnd(s[u - 1]) || s[u - 1] == ')')
  {
    if !IsUrlChar(s[j]) {
      GroupShape(s, j + 1, d);
    }
  }

  /** A body holds only link characters, leaves the depth unchanged, and ends with an end character or `)`. */
  lemma {:induction false} BodyShape(s: string, j: nat, first: bool, d: nat)
    requires j <= |s| && SpanFrom(s, j, first).Some?
    ensures var e := SpanFrom(s, j, first).value;
      && (forall x :: j <= x < e ==> IsLinkChar(s[x]))
      && Walk(s, j, e, d) == Some(d)
      && (IsUrlEnd(s[e - 1]) || s[e - 1] == ')')
    decreases |s| - j
  {
    var u := UnitEnd(s, j).value;
    UnitShape(s, j, d);
    if SpanFrom(s, u, false).Some? {
      BodyShape(s, u, false, d);
      WalkSplit(s, j, u, SpanFrom(s, u, false).value, d, d);
    }
  }

  /** ASCII lower-casing never turns a non-URL character into a URL character. */
  lemma LowerUrlChar(c: char)
    ensures IsUrlChar(Lower(c)) ==> IsUrlChar(c)
  {
  }

  lemma {:induction false} SpelledUrlChars(s: string, p: nat, w: string)
    requires StartsWithCI(s, p, w)
    requires forall i :: 0 <= i < |w| ==> IsUrlChar(w[i])
    ensures forall x :: p <= x < p + |w| ==> IsUrlChar(s[x])
  {
    forall x | p <= x < p + |w|
      ensures IsUrlChar(s[x])
    {
      assert Lower(s[p + (x - p)]) == w[x - p];
      LowerUrlChar(s[x]);
    }
  }

  /** Every prefix alternative consists of URL characters. */
  lemma PrefixShape(s: string, p: nat, q: nat)
    requires SchemeEnd(s, p) == Some(q) || WwwEnd(s, p) == Some(q) || DomainEnd(s, p) == Some(q)
    ensures forall x :: p <= x < q ==> IsUrlChar(s[x])
  {
    if SchemeEnd(s, p) == Some(q) {
      if StartsWithCI(s, p, "https://") {
        SpelledUrlChars(s, p, "https://");
      } else {
        SpelledUrlChars(s, p, "http://");
      }
    } else if WwwEnd(s, p) == Some(q) {
      SpelledUrlChars(s, p, "www");
    }
  }

  /**
   * What a detected URL looks like: it holds no whitespace and no `<` or
   * `>`, its parentheses are balanced, and it ends with a character of the
   * end class or with the `)` of a group.
   */
  lemma UrlShape(s: string, p: nat)
    requires UrlEndAt(s, p).Some?
    ensures var e := UrlEndAt(s, p).value;
      && (forall x :: p <= x < e ==> IsLinkChar(s[x]))
      && NoSpace(s[p..e])
      && BalancedSpan(s, p, e)
      && (IsUrlEnd(s[e - 1]) || s[e - 1] == ')')
  {
    var e := UrlEndAt(s, p).value;
    var q := UrlPrefix(s, p);
    PrefixShape(s, p, q);
    BodyShape(s, q, true, 0);
    WalkFlat(s, p, q, 0);
    WalkSplit(s, p, q, e, 0, 0);
  }

  /** The end of the prefix alternative that the match at `p` uses. */
  lemma UrlPrefix(s: string, p: nat) returns (q: nat)
    requires UrlEndAt(s, p).Some?
    ensures SchemeEnd(s, p) == Some(q) || WwwEnd(s, p) == Some(q) || DomainEnd(s, p) == Some(q)
    ensures q <= |s| && SpanFrom(s, q, true) == UrlEndAt(s, p)
  {
    if BodyAfter(s, SchemeEnd(s, p)).Some? {
      q := SchemeEnd(s, p).value;
    } else if BodyAfter(s, WwwEnd(s, p)).Some? {
      q := WwwEnd(s, p).value;
    } else {
      q := DomainEnd(s, p).value;
    }
  }

  /* ------------------------------------------------------------- the pass */

  /** Each hit is the URL matched at its start, replaced by the anchor for exactly that text. */
  lemma LinkHitShape(s: string, j: nat)
    requires j < |LinkHits(s)|
    ensures var h := LinkHits(s)[j];
      && UrlEndAt(s, h.start) == Some(h.end)
      && h.replacement == LinkAnchor(s[h.start..h.end])
  {
    var m := LinkMatcher(s);
    LinkMatcherSound(s);
    var hs := LinkHits(s);
    assert m(hs[j].start) == Some(hs[j]);
  }

  /** Every position where a URL match starts is linked: it lies inside some hit. */
  lemma UrlStartIsLinked(s: string, p: nat)
    requires UrlEndAt(s, p).Some?
    ensures Covered(LinkHits(s), p)
  {
    var m := LinkMatcher(s);
    LinkMatcherSound(s);
    assert m(p).Some?;
  }

  /** Text in which no URL starts is left as it is. */
  lemma NoUrlIsIdentity(s: string)
    requires forall p: nat :: p < |s| ==> UrlEndAt(s, p).None?
    ensures ScanLinks(s) == s && FormatLinks(s) == s
  {
    LinkMatcherSound(s);
    var m := LinkMatcher(s);
    forall p: nat | p < |s|
      ensures m(p).None?
    {
      assert LinkHitAt(s, p) == m(p);
    }
    NoMatchIsIdentity(s, m);
  }

  /** A URL at the very start is always rewritten: the output then begins with `<a href="`. */
  lemma UrlAtStartIsRewritten(s: string)
    requires UrlEndAt(s, 0).Some?
    ensures ScanLinks(s) != s
  {
    var m := LinkMatcher(s);
    LinkMatcherSound(s);
    var e := UrlEndAt(s, 0).value;
    assert m(0) == Some(Hit(0, e, LinkAnchor(s[0..e])));
    MatchAtStart(s, m);
    var rest :| ScanLinks(s) == LinkAnchor(s[0..e]) + rest;
    assert ScanLinks(s)[0] == '<';
    UrlShape(s, 0);
  }

  /**
   * The `http` guard is more than a shortcut: a text whose only URL is a
   * `www.` or bare-domain form is left as it is, although the pattern
   * matches it.
   */
  lemma GuardSkipsWww()
    ensures FormatLinks("www.ab") == "www.ab"
    ensures ScanLinks("www.ab") != "www.ab"
  {
    NoHttpInExample();
    UrlInExample();
    UrlAtStartIsRewritten("www.ab");
  }

  lemma NoHttpInExample()
    ensures !HasSubstring("www.ab", "http")
  {
    var s := "www.ab";
    forall i | 0 <= i <= |s| ensures !OccursAt(s, "http", i) {
      if i <= |s| - 4 {
        assert s[i..i + 4][0] == 'w';
      }
    }
  }

  lemma UrlInExample()
    ensures UrlEndAt("www.ab", 0) == Some(6)
  {
    var s := "www.ab";
    assert WwwEnd(s, 0) == Some(4) by {
      assert StartsWithCI(s, 0, "www");
      RunIsMaximal(IsDigit, s, 3, 0);
    }
    assert SchemeEnd(s, 0).None? by {
      assert Lower(s[0]) != "https://"[0];
    }
    assert SpanFrom(s, 6, false).None?;
    assert SpanFrom(s, 5, false) == Some(6);
    assert SpanFrom(s, 4, true) == Some(6);
  }
}
