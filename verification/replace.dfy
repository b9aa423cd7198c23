/**
 * PHP's `preg_replace($pattern, $template, $subject)` as used by the three
 * tweet formatters: the pattern is searched left to right; at each position
 * the first match that starts there (if any) is taken, its span is replaced
 * by the template's expansion, and the search resumes right after it. Text
 * outside every match is copied verbatim.
 *
 * A pattern is given here as a `Matcher` for one fixed subject: asked at a
 * position, it answers the match that starts exactly there, or `None`.
 */
module Replace {

  import opened Options

  /** One match: the subject span `[start, end)` and the text that replaces it. */
  datatype Hit = Hit(start: nat, end: nat, replacement: string)

  type Matcher = nat -> Option<Hit>

  /** Every match the matcher reports starts where it was asked, is non-empty, and lies in the subject. */
  ghost predicate Sound(s: string, m: Matcher) {
    forall p: nat :: m(p).Some? ==> m(p).value.start == p && p < m(p).value.end <= |s|
  }

  /** Hits lie in `[i, |s|)`, each non-empty, in subject order and without overlap. */
  predicate Ordered(s: string, i: nat, hs: seq<Hit>)
    decreases |hs|
  {
    hs == [] || (i <= hs[0].start < hs[0].end <= |s| && Ordered(s, hs[0].end, hs[1..]))
  }

  lemma {:induction false} OrderedHit(s: string, i: nat, hs: seq<Hit>, j: nat)
    requires Ordered(s, i, hs) && j < |hs|
    ensures i <= hs[j].start < hs[j].end <= |s|
    decreases j
  {
    if j > 0 {
      OrderedHit(s, hs[0].end, hs[1..], j - 1);
    }
  }

  lemma {:induction false} OrderedBefore(s: string, i: nat, hs: seq<Hit>, j: nat, j': nat)
    requires Ordered(s, i, hs) && j' < |hs|
    ensures j < j' ==> hs[j].end <= hs[j'].start
    decreases j
  {
    if 0 < j < j' {
      OrderedBefore(s, hs[0].end, hs[1..], j - 1, j' - 1);
    } else if j == 0 < j' {
      OrderedHit(s, hs[0].end, hs[1..], j' - 1);
    }
  }

  /** Position `p` lies inside one of the hits. */
  predicate Covered(hs: seq<Hit>, p: int)
    decreases |hs|
  {
    hs != [] && (hs[0].start <= p < hs[0].end || Covered(hs[1..], p))
  }

  /** The hit that covers a covered position. */
  lemma {:induction false} CoveringHit(hs: seq<Hit>, p: int) returns (j: nat)
    requires Covered(hs, p)
    ensures j < |hs| && hs[j].start <= p < hs[j].end
    decreases |hs|
  {
    if hs[0].start <= p < hs[0].end {
      j := 0;
    } else {
      var j' := CoveringHit(hs[1..], p);
      j := j' + 1;
    }
  }

  lemma {:induction false} CoveredByHit(hs: seq<Hit>, j: nat, p: int)
    requires j < |hs| && hs[j].start <= p < hs[j].end
    ensures Covered(hs, p)
    decreases j
  {
    if j > 0 {
      CoveredByHit(hs[1..], j - 1, p);
    }
  }

  /**
   * What a global left-to-right search of `m` over `s` from `i` finds,
   * stated without saying how it is computed: ordered, non-overlapping hits,
   * each one the matcher's answer at its start, and every position where the
   * matcher would match lies inside some hit (so no match was skipped).
   */
  ghost predicate IsLeftmostScan(s: string, m: Matcher, i: nat, hs: seq<Hit>) {
    && Ordered(s, i, hs)
    && (forall j :: 0 <= j < |hs| ==> m(hs[j].start) == Some(hs[j]))
    && (forall p: nat :: i <= p < |s| && m(p).Some? ==> Covered(hs, p))
  }

  /** The matches `preg_replace` finds, searching from position `i`. */
  function Hits(s: string, m: Matcher, i: nat): (hs: seq<Hit>)
    requires Sound(s, m) && i <= |s|
    ensures IsLeftmostScan(s, m, i, hs)
    decreases |s| - i
  {
    if i == |s| then []
    else match m(i)
      case Some(h) =>
        var rest := Hits(s, m, h.end);
        PrependHit(s, m, i, h, rest);
        [h] + rest
      case None =>
        Hits(s, m, i + 1)
  }

  /** A match at `i` followed by the search from its end is the search from `i`. */
  lemma PrependHit(s: string, m: Matcher, i: nat, h: Hit, rest: seq<Hit>)
    requires Sound(s, m) && i < |s| && m(i) == Some(h)
    requires IsLeftmostScan(s, m, h.end, rest)
    ensures IsLeftmostScan(s, m, i, [h] + rest)
  {
    var hs := [h] + rest;
    assert hs[0] == h && hs[1..] == rest;
    forall j | 0 <= j < |hs|
      ensures m(hs[j].start) == Some(hs[j])
    {
      if j > 0 {
        assert hs[j] == rest[j - 1];
      }
    }
  }

  /** The declarative description pins the search result down completely. */
  lemma {:induction false} LeftmostScanUnique(s: string, m: Matcher, i: nat, hs: seq<Hit>)
    requires Sound(s, m) && i <= |s|
    requires IsLeftmostScan(s, m, i, hs)
    ensures hs == Hits(s, m, i)
    decreases |s| - i, 1
  {
    if hs == [] {
      if i < |s| {
        assert m(i).None?;
        LeftmostScanUnique(s, m, i + 1, hs);
        assert Hits(s, m, i) == Hits(s, m, i + 1);
      }
    } else if m(i).Some? {
      FirstHitAtStart(s, m, i, hs);
    } else {
      NoHitAtStart(s, m, i, hs);
    }
  }

  /** When the pattern matches at `i`, that match is the first hit and the rest is the search from its end. */
  lemma {:induction false} FirstHitAtStart(s: string, m: Matcher, i: nat, hs: seq<Hit>)
    requires Sound(s, m) && i <= |s| && hs != [] && m(i).Some?
    requires IsLeftmostScan(s, m, i, hs)
    ensures hs == Hits(s, m, i)
    decreases |s| - i, 0
  {
    var h := m(i).value;
    FirstHitIsMatch(s, m, i, hs);
    LeftmostScanTail(s, m, i, hs);
    LeftmostScanUnique(s, m, h.end, hs[1..]);
    assert Hits(s, m, i) == [h] + Hits(s, m, h.end);
    assert hs == [h] + hs[1..];
  }

  lemma FirstHitIsMatch(s: string, m: Matcher, i: nat, hs: seq<Hit>)
    requires Sound(s, m) && i <= |s| && hs != [] && m(i).Some?
    requires IsLeftmostScan(s, m, i, hs)
    ensures hs[0] == m(i).value
  {
    var j := CoveringHit(hs, i);
    OrderedBefore(s, i, hs, 0, j);
    assert j == 0;
    assert m(hs[0].start) == Some(hs[0]);
  }

  /** Dropping the first hit leaves the search from that hit's end. */
  lemma LeftmostScanTail(s: string, m: Matcher, i: nat, hs: seq<Hit>)
    requires Sound(s, m) && i <= |s| && hs != []
    requires IsLeftmostScan(s, m, i, hs)
    ensures hs[0].end <= |s| && IsLeftmostScan(s, m, hs[0].end, hs[1..])
  {
    var rest := hs[1..];
    forall j | 0 <= j < |rest|
      ensures m(rest[j].start) == Some(rest[j])
    {
      assert rest[j] == hs[j + 1];
    }
    forall p: nat | hs[0].end <= p < |s| && m(p).Some?
      ensures Covered(rest, p)
    {
      assert Covered(hs, p);
    }
  }

  /** When the pattern does not match at `i`, the search from `i` is the search from `i + 1`. */
  lemma {:induction false} NoHitAtStart(s: string, m: Matcher, i: nat, hs: seq<Hit>)
    requires Sound(s, m) && i <= |s| && hs != [] && m(i).None?
    requires IsLeftmostScan(s, m, i, hs)
    ensures hs == Hits(s, m, i)
    decreases |s| - i, 0
  {
    assert m(hs[0].start) == Some(hs[0]);
    assert IsLeftmostScan(s, m, i + 1, hs);
    LeftmostScanUnique(s, m, i + 1, hs);
    assert Hits(s, m, i) == Hits(s, m, i + 1);
  }

  /** The subject from `i` with every hit's span replaced by its replacement text. */
  function Splice(s: string, i: nat, hs: seq<Hit>): string
    requires i <= |s| && Ordered(s, i, hs)
    decreases |hs|
  {
    if hs == [] then s[i..]
    else s[i..hs[0].start] + hs[0].replacement + Splice(s, hs[0].end, hs[1..])
  }

  /** `preg_replace` over the whole subject. */
  function ReplaceAll(s: string, m: Matcher): string
    requires Sound(s, m)
  {
    Splice(s, 0, Hits(s, m, 0))
  }

  /** When the pattern matches at the very start, the output begins with that match's replacement. */
  lemma MatchAtStart(s: string, m: Matcher)
    requires Sound(s, m) && m(0).Some?
    ensures var h := m(0).value;
      exists rest :: ReplaceAll(s, m) == h.replacement + rest
  {
    var h := m(0).value;
    assert Hits(s, m, 0) == [h] + Hits(s, m, h.end);
    var rest := Splice(s, h.end, Hits(s, m, h.end));
    assert ReplaceAll(s, m) == h.replacement + rest;
  }

  /** A pattern that matches nowhere leaves the subject unchanged. */
  lemma NoMatchIsIdentity(s: string, m: Matcher)
    requires Sound(s, m)
    requires forall p: nat :: p < |s| ==> m(p).None?
    ensures ReplaceAll(s, m) == s
  {
    assert IsLeftmostScan(s, m, 0, []);
    LeftmostScanUnique(s, m, 0, []);
  }

  /** A span that no hit overlaps reappears, unchanged and in one piece, in the output. */
  lemma {:induction false} SpliceKeepsUntouched(s: string, i: nat, hs: seq<Hit>, lo: nat, hi: nat)
    requires i <= lo <= hi <= |s| && Ordered(s, i, hs)
    requires forall j :: 0 <= j < |hs| ==> hs[j].end <= lo || hi <= hs[j].start
    ensures exists a, b :: Splice(s, i, hs) == a + s[lo..hi] + b
    decreases |hs|
  {
    if hs == [] {
      var a, b := s[i..lo], s[hi..];
      assert s[i..] == a + s[lo..hi] + b;
    } else if hs[0].end <= lo {
      forall j | 0 <= j < |hs[1..]|
        ensures hs[1..][j].end <= lo || hi <= hs[1..][j].start
      {
        assert hs[1..][j] == hs[j + 1];
      }
      SpliceKeepsUntouched(s, hs[0].end, hs[1..], lo, hi);
      var a', b :| Splice(s, hs[0].end, hs[1..]) == a' + s[lo..hi] + b;
      WithPrefix(s[i..hs[0].start] + hs[0].replacement, a', s[lo..hi], b);
    } else {
      UntouchedBeforeFirst(s, i, hs, lo, hi);
    }
  }

  lemma WithPrefix(x: string, a: string, mid: string, b: string)
    ensures exists a', b' :: x + (a + mid + b) == a' + mid + b'
  {
    assert x + (a + mid + b) == (x + a) + mid + b;
  }

  lemma UntouchedBeforeFirst(s: string, i: nat, hs: seq<Hit>, lo: nat, hi: nat)
    requires i <= lo <= hi <= |s| && Ordered(s, i, hs) && hs != [] && hi <= hs[0].start
    ensures exists a, b :: Splice(s, i, hs) == a + s[lo..hi] + b
  {
    var h := hs[0];
    assert s[i..h.start] == s[i..lo] + s[lo..hi] + s[hi..h.start];
    WithSuffix(s[i..lo], s[lo..hi], s[hi..h.start], h.replacement + Splice(s, h.end, hs[1..]));
  }

  lemma WithSuffix(a: string, mid: string, b: string, y: string)
    ensures exists a', b' :: (a + mid + b) + y == a' + mid + b'
  {
    assert (a + mid + b) + y == a + mid + (b + y);
  }

  /** Each hit's replacement text appears, in one piece, in the output. */
  lemma {:induction false} SpliceContainsReplacement(s: string, i: nat, hs: seq<Hit>, j: nat)
    requires i <= |s| && Ordered(s, i, hs) && j < |hs|
    ensures exists a, b :: Splice(s, i, hs) == a + hs[j].replacement + b
    decreases |hs|
  {
    if j == 0 {
      var a, b := s[i..hs[0].start], Splice(s, hs[0].end, hs[1..]);
      assert Splice(s, i, hs) == a + hs[0].replacement + b;
    } else {
      SpliceContainsReplacement(s, hs[0].end, hs[1..], j - 1);
      assert hs[1..][j - 1] == hs[j];
      var a', b :| Splice(s, hs[0].end, hs[1..]) == a' + hs[j].replacement + b;
      WithPrefix(s[i..hs[0].start] + hs[0].replacement, a', hs[j].replacement, b);
    }
  }
}
