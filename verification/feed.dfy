/**
 * `prepare_tweet` and the presentation part of `build`: every tweet's text
 * goes through the link, hashtag and mention passes in that order, its
 * `created_at` is copied, and the configured user name becomes a profile
 * link.
 */
module Feed {

  import opened Chars
  import opened Replace
  import opened Tags
  import opened Links

  /** `prepare_tweet`: links first, then hashtags, then mentions. */
  function PrepareTweet(t: string): string {
    FormatMentions(FormatHashtags(FormatLinks(t)))
  }

  /** The two fields `build` reads from each status the timeline returns. */
  datatype Tweet = Tweet(text: string, createdAt: string)

  /** What `build` hands to the theme layer. */
  datatype FeedBlock = FeedBlock(theme: string, username: string, tweets: seq<Tweet>, libraries: seq<string>)

  /** The profile link built from the configured user name. */
  function UsernameAnchor(user: string): string {
    "<a href=\"http://www.twitter.com/" + user + "\" target=\"_blank\">@" + user + "</a>"
  }

  /** The loop in `build`: one output entry per status, in order, with the text prepared and the date kept. */
  method BuildTweets(statuses: seq<Tweet>) returns (out: seq<Tweet>)
    ensures |out| == |statuses|
    ensures forall i :: 0 <= i < |statuses| ==> out[i].text == PrepareTweet(statuses[i].text)
    ensures forall i :: 0 <= i < |statuses| ==> out[i].createdAt == statuses[i].createdAt
  {
    out := [];
    var i := 0;
    while i < |statuses|
      invariant i <= |statuses| && |out| == i
      invariant forall j :: 0 <= j < i ==> out[j].text == PrepareTweet(statuses[j].text)
      invariant forall j :: 0 <= j < i ==> out[j].createdAt == statuses[j].createdAt
    {
      out := out + [Tweet(PrepareTweet(statuses[i].text), statuses[i].createdAt)];
      i := i + 1;
    }
  }

  /** `build` once the statuses have been fetched: the render array for the block. */
  method Build(user: string, statuses: seq<Tweet>) returns (block: FeedBlock)
    ensures block.theme == "twitter_feed_block" && block.libraries == ["twitter_feed/base"]
    ensures block.username == UsernameAnchor(user)
    ensures |block.tweets| == |statuses|
    ensures forall i :: 0 <= i < |statuses| ==>
      block.tweets[i] == Tweet(PrepareTweet(statuses[i].text), statuses[i].createdAt)
  {
    var tweets := BuildTweets(statuses);
    block := FeedBlock("twitter_feed_block", UsernameAnchor(user), tweets, ["twitter_feed/base"]);
  }

  /** Different user names give different profile links. */
  lemma UsernameAnchorInjective(u1: string, u2: string)
    ensures UsernameAnchor(u1) == UsernameAnchor(u2) ==> u1 == u2
  {
    if UsernameAnchor(u1) == UsernameAnchor(u2) {
      var pre := "<a href=\"http://www.twitter.com/";
      assert |u1| == |u2|;
      assert UsernameAnchor(u1)[|pre|..|pre| + |u1|] == u1;
      assert UsernameAnchor(u2)[|pre|..|pre| + |u2|] == u2;
    }
  }

  /** Only two characters of a link anchor are whitespace: the ones before `href` and before `target`. */
  lemma LinkAnchorSpaces(u: string, x: int)
    requires NoSpace(u)
    ensures 0 <= x < |LinkAnchor(u)| && IsSpace(LinkAnchor(u)[x]) ==> x == 2 || x == |u| + 10
  {
    var a := LinkAnchor(u);
    var p, m, e := "<a href=\"", "\" target=\"_blank\">", "</a>";
    assert a == p + u + m + u + e;
    if 0 <= x < |a| {
      if x < |p| {
        assert a[x] == p[x];
      } else if x < |p| + |u| {
        assert a[x] == u[x - |p|];
      } else if x < |p| + |u| + |m| {
        assert a[x] == m[x - |p| - |u|];
      } else if x < |p| + |u| + |m| + |u| {
        assert a[x] == u[x - |p| - |u| - |m|];
      } else {
        assert a[x] == e[x - |p| - |u| - |m| - |u|];
      }
    }
  }

  /**
   * A link anchor around a URL without whitespace is inert for both tag
   * passes: neither can match inside it or across its edges.
   */
  lemma LinkAnchorInert(k: TagKind, u: string)
    requires NoSpace(u)
    ensures Inert(k, LinkAnchor(u))
  {
    var a := LinkAnchor(u);
    assert a == "<a href=\"" + u + "\" target=\"_blank\">" + u + "</a>";
    assert a[3] == 'h' && a[|u| + 11] == 't';
    assert a[|a| - 1] == '>';
    forall i | 0 < i < |a| && a[i] == Sigil(k)
      ensures !IsSpace(a[i - 1])
    {
      LinkAnchorSpaces(u, i - 1);
    }
  }

  /**
   * Every URL the link pass wraps comes out of `prepare_tweet` with its
   * anchor intact: a `#` or `@` inside a linked URL is never turned into a
   * hashtag or mention link.
   */
  lemma LinkedUrlsSurvive(t: string, j: nat)
    requires HasSubstring(t, "http") && j < |LinkHits(t)|
    ensures var h := LinkHits(t)[j];
      exists a, b :: PrepareTweet(t) == a + LinkAnchor(t[h.start..h.end]) + b
  {
    var hs := LinkHits(t);
    var h := hs[j];
    var anchor := LinkAnchor(t[h.start..h.end]);
    LinkMatcherSound(t);
    LinkHitShape(t, j);
    UrlShape(t, h.start);
    SpliceContainsReplacement(t, 0, hs, j);
    var a0, b0 :| FormatLinks(t) == a0 + anchor + b0;
    LinkAnchorInert(Hashtag, t[h.start..h.end]);
    InertBlockSurvives(Hashtag, a0, anchor, b0);
    var a1, b1 :| FormatHashtags(FormatLinks(t)) == a1 + anchor + b1;
    LinkAnchorInert(Mention, t[h.start..h.end]);
    InertBlockSurvives(Mention, a1, anchor, b1);
  }

  /** A text with no `http`, `#` or `@` is returned unchanged; in particular the empty text. */
  lemma PlainTextUnchanged(t: string)
    requires !HasSubstring(t, "http") && '#' !in t && '@' !in t
    ensures PrepareTweet(t) == t
  {
    GuardIsOptimisation(Hashtag, t);
    GuardIsOptimisation(Mention, t);
  }
}
