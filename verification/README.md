# Twitter feed block: tweet annotator

This project models the text annotator of the Drupal `twitter_feed` block, `TwitterFeedBlock`, in Dafny. Before a tweet is rendered, `prepare_tweet` runs three `preg_replace` passes over its text:

1. `format_links` wraps every URL in `<a href="URL" target="_blank">URL</a>`. It only runs when the text contains `http`.
2. `format_hashtags` turns `#name` into a link to the hashtag page.
3. `format_mentions` turns `@name` into a link to the user's profile.

`build` maps `prepare_tweet` over the fetched statuses. It keeps each status's `created_at` and links the configured user name to the profile.

The model has five modules:

- `Options`, `Chars` (`chars.dfy`): the `Option` type, and the PCRE character classes `\s` and `\w`, stated on characters.
- `Replace` (`replace.dfy`): the behaviour of `preg_replace`, defined once for any pattern.
  - A pattern is a `Matcher`: for a fixed subject, it answers the match that starts at a given position.
  - `Hits` is the left-to-right, non-overlapping search. `IsLeftmostScan` describes the same search declaratively, and `LeftmostScanUnique` proves that this description has exactly one solution.
  - `Splice` copies the gaps between matches verbatim and puts each match's replacement in place of the match.
- `Tags` (`tags.dfy`): the hashtag and mention pattern `(^|\s)S(\w*[L]+\w*)`.
  - The name length follows the pattern's backtracking. The first `\w*` takes the longest word run. If the next character is in L (only an umlaut can be), `[L]+\w*` continues from there. Otherwise the name is the whole run, provided the run holds a letter or `_`.
- `Links` (`links.dfy`): the URL pattern of `format_links`, modelled in full:
  - `\b`, then the three prefix alternatives in order: `https?://`, `www\d{0,3}.`, and `domain.tld/`;
  - units that are either URL characters or parenthesised groups;
  - the rule for the final character.

  The backtracking engine tries the greedy repetition at its longest first. So the match it returns is the longest body that the grammar allows (`SpanFromIsLongestBody`).
- `Feed` (`feed.dfy`): `prepare_tweet`, the loop in `build`, the username anchor, and how the passes interact.

Two behaviours of the code are easy to miss:

- **The whitespace before a tag is not kept.** The whole match, including the whitespace character before the sigil, is replaced by a template that starts with one space. So a tab or newline before `#tag` becomes a space, and a tag at the very start of the text gains a leading space.
- **The `http` guard changes results.** `format_links` returns its input unchanged when the text does not contain the substring `http`. So a text without `http` is returned unchanged even when it holds `www.` or bare-domain URLs (`Links.GuardSkipsWww`). A URL that itself contains `http`, as in `www.httpbin.org/ab`, does get linked, together with every other URL in that text. The hashtag and mention guards, by contrast, never change a result (`Tags.GuardIsOptimisation`).

Some other behaviours of the code are also modelled as they are:

- Neither the URL nor the tag name is HTML-escaped in the templates. A URL may contain `"`, because `[^\s()<>]` admits it.
- `\s` is space, tab, line feed, vertical tab, form feed and carriage return.
- `(?i)` folds ASCII letters only.

## Model

| member | source | states |
|---|---|---|
| Replace.Hits | src/Plugin/Block/TwitterFeedBlock.php:209 | The matches `preg_replace` finds form a left-to-right scan. They are ordered and do not overlap. Each is the pattern's match at its own start, and every position where the pattern matches lies inside one of them, so no match is skipped. |
| Replace.LeftmostScanUnique | src/Plugin/Block/TwitterFeedBlock.php:219 | Any list of hits that meets the declarative scan description equals the computed search. The description therefore fixes the result of `preg_replace`. |
| Replace.NoMatchIsIdentity | src/Plugin/Block/TwitterFeedBlock.php:227 | If the pattern matches nowhere, `preg_replace` returns its subject unchanged. |
| Replace.MatchAtStart | src/Plugin/Block/TwitterFeedBlock.php:219 | If the pattern matches at position 0, the output begins with that match's replacement. |
| Replace.SpliceKeepsUntouched | src/Plugin/Block/TwitterFeedBlock.php:209 | Text that no match overlaps appears in the output unchanged and in one piece. |
| Replace.SpliceContainsReplacement | src/Plugin/Block/TwitterFeedBlock.php:219 | The replacement text of every match appears in the output in one piece. |
| Tags.NameLength | src/Plugin/Block/TwitterFeedBlock.php:209 | The name matched by `\w*[L]+\w*` lies within the text, consists of name characters, and contains a letter of L whenever it is non-empty. |
| Tags.NameIsMaximalWordRun | src/Plugin/Block/TwitterFeedBlock.php:209 | If a word run cannot be extended by a name character, the name is the whole run when the run holds a letter or `_`. Otherwise there is no name (as in `#123`). |
| Tags.NameLengthIsLongestName | src/Plugin/Block/TwitterFeedBlock.php:209 | The name taken after the sigil is the longest string of the shape `\w*[L]+\w*` that starts there, and there is no name exactly when no such string exists. This covers names that continue past the word run through an umlaut. |
| Tags.OccurrenceAt | src/Plugin/Block/TwitterFeedBlock.php:227 | A match starts either at position 0 with the sigil there, or at a whitespace character followed by the sigil. The sigil is anchored, a non-empty name follows it, and the match ends where the name ends. |
| Tags.OccurrenceLayout | src/Plugin/Block/TwitterFeedBlock.php:209 | Every character of a match is the leading whitespace (only at its start), the sigil, or a name character. |
| Tags.SigilLinkedIff | src/Plugin/Block/TwitterFeedBlock.php:209 | A `#` (or `@`) is rewritten if and only if it stands at the start of the text or after whitespace and a valid name follows it. |
| Tags.TagHitShape | src/Plugin/Block/TwitterFeedBlock.php:209 | Each hit spans the whitespace or start of text, the sigil and the name. It is replaced by the anchor for that name, so the leading whitespace collapses into the template's single space. |
| Tags.NoLinkableSigilIsIdentity | src/Plugin/Block/TwitterFeedBlock.php:208-211 | Text in which no sigil is anchored and followed by a name is returned unchanged, whether or not the `strpos` guard fires. |
| Tags.GuardIsOptimisation | src/Plugin/Block/TwitterFeedBlock.php:226-229 | The `strpos` guard never changes the result of `format_hashtags` or `format_mentions`. |
| Tags.InertBlockSurvives | src/Plugin/Block/TwitterFeedBlock.php:227 | A block that no match can touch comes out of the tag pass unchanged and in one piece, wherever it sits in the text. Such a block does not start with a sigil or name character, does not end in whitespace, and has no sigil after whitespace. |
| Tags.AdjacentTagsExample | src/Plugin/Block/TwitterFeedBlock.php:209 | `#a#b` becomes the anchor for `a` followed by `#b`. Matches do not overlap, and the second `#` does not follow whitespace. |
| Tags.DigitsOnlyExample | src/Plugin/Block/TwitterFeedBlock.php:209 | `#123` is left unchanged, because a name needs a letter or underscore. |
| Tags.UmlautNameExample | src/Plugin/Block/TwitterFeedBlock.php:209 | In `#müller` the name is `müller`: the umlaut continues the name past `m`. |
| Tags.MentionUmlautExample | src/Plugin/Block/TwitterFeedBlock.php:227 | In `@müller` the name is only `m`, because the mention pattern does not list the umlauts. |
| Tags.SplitUmlautsExample | src/Plugin/Block/TwitterFeedBlock.php:209 | In `#aü1ü` the name is `aü1`. Both umlauts cannot sit in the one `[L]+`, so the longest name stops before the second. |
| Links.DomainEndIff | src/Plugin/Block/TwitterFeedBlock.php:218 | The bare-domain prefix ends exactly where the text matches `[a-z0-9.\-]+[.][a-z]{2,4}/` from the given position. |
| Links.WwwEndIff | src/Plugin/Block/TwitterFeedBlock.php:218 | The `www` prefix ends exactly where the text matches `www\d{0,3}[.]`, case-insensitively, from the given position. |
| Links.SpanFromIsLongestBody | src/Plugin/Block/TwitterFeedBlock.php:218 | The URL body that is found matches `(unit)+(group or end character)`, and no longer body from the same point matches that grammar. |
| Links.UrlShape | src/Plugin/Block/TwitterFeedBlock.php:218 | A detected URL contains no whitespace, `<` or `>`. Its parentheses are balanced. It ends in a character outside `` `!()[]{};:'".,<>?«»“”‘’ `` or in the `)` of a group. |
| Links.LinkHitShape | src/Plugin/Block/TwitterFeedBlock.php:219 | Each hit of the link pass is the URL matched at its start, and it is replaced by `<a href="u" target="_blank">u</a>` for exactly that text. |
| Links.UrlStartIsLinked | src/Plugin/Block/TwitterFeedBlock.php:219 | Every position where a URL match starts lies inside a hit of the link pass. |
| Links.NoUrlIsIdentity | src/Plugin/Block/TwitterFeedBlock.php:217-220 | Text in which no URL starts is returned unchanged, with or without the guard. |
| Links.UrlAtStartIsRewritten | src/Plugin/Block/TwitterFeedBlock.php:219 | A text that begins with a URL is always changed by the replacement. |
| Links.GuardSkipsWww | src/Plugin/Block/TwitterFeedBlock.php:217 | `format_links("www.ab")` returns `www.ab` unchanged, although the replacement on its own would link it. The `http` guard changes results. |
| Feed.LinkAnchorInert | src/Plugin/Block/TwitterFeedBlock.php:219 | The anchor around a URL without whitespace cannot be touched by either tag pattern. |
| Feed.LinkedUrlsSurvive | src/Plugin/Block/TwitterFeedBlock.php:197-204 | Every link anchor made by the first pass of `prepare_tweet` survives the hashtag and mention passes intact. A `#` or `@` inside a linked URL is never re-annotated. |
| Feed.PlainTextUnchanged | src/Plugin/Block/TwitterFeedBlock.php:197-204 | A text without `http`, `#` and `@`, including the empty text, comes out of `prepare_tweet` unchanged. |
| Feed.BuildTweets | src/Plugin/Block/TwitterFeedBlock.php:129-133 | There is one output entry per status, in the same order. Each text is `prepare_tweet` of the status's text, and each `created_at` is copied unchanged. |
| Feed.Build | src/Plugin/Block/TwitterFeedBlock.php:136-147 | The render array uses the `twitter_feed_block` theme and the `twitter_feed/base` library. It holds the username anchor for the configured name and the prepared tweets, in order and with their dates. |
| Feed.UsernameAnchorInjective | src/Plugin/Block/TwitterFeedBlock.php:136 | Different user names give different profile anchors, so the anchor determines the user name. |

## Left out

- `getBearerToken` and `performRequest` (`src/Plugin/Block/TwitterFeedBlock.php:150-190`) are left out. They are HTTP calls through Guzzle, mutation of the shared client's default options, and JSON decoding, all of which is I/O. `Feed.Build` takes the decoded statuses as a parameter instead.
- `__construct`, `create`, `defaultConfiguration`, `blockForm`, `blockSubmit`, `getCacheTags` and `getRequiredCacheContexts` are left out. They are Drupal dependency injection, configuration forms and cache metadata, with no text logic.
- PCRE runs these patterns without the `u` flag, so it works on UTF-8 bytes. The model works on characters, with each umlaut a single character. This leaves out byte-level effects:
  - A multi-byte character whose first byte equals a byte of an umlaut can partly match the hashtag class.
  - The end-of-URL class excludes the individual bytes of `«»“”‘’` rather than the characters.
- Each status is modelled as a record with a string `text` and `created_at`. The case where a decoded status lacks these keys, or holds something other than a string, is left out. So are the other fields of a status, which `build` ignores.
- Array keys of the decoded timeline are modelled as positions in a sequence. The timeline is a JSON list, so the keys are `0..n-1` in order.
- PCRE's resource limits are not modelled. `preg_replace` returns NULL when the engine exceeds `pcre.backtrack_limit` or the JIT stack. The URL pattern nests a `+` inside a `+`, so a long run of end-excluded characters after a URL, such as many `!`, may make it backtrack that far. In that case `format_links`, and therefore `prepare_tweet`, would return NULL. The model always returns the replaced text, and `Replace.ReplaceAll` has no failure case.
- Feed.LinkedUrlsSurvive: states that each link anchor appears intact in the final text. It does not say at which position, because the tag passes may lengthen the text before the anchor.
