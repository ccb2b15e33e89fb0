# tweet_compressor in Dafny

A model of the Ruby gem `tweet_compressor`. The gem shortens a tweet until it
fits in 140 characters. Its class `TweetCompressor::Tweet` keeps the original
text, a working copy (`@compressed`) and the list of URLs taken out of the
text. `compress` first swaps every URL for the placeholder
`__PLACEHOLDER4URLS__`. It then runs ten stages in order and stops before
any stage once the count is within 140. Finally it puts the URLs back, one
per placeholder, in order. The count (`char_count`) is the text's length,
except that each stored URL counts 20 characters, the length of a shortened
link.

Modules:

- `Text`: characters, ASCII case folding, `String#split`, `Array#join(' ')`,
  `include?`.
- `Rewrite`: the regular expressions of the stages. Each is a `Rule`.
  `Match` tries a rule at the front of the remaining text, given the
  character before it (for `\b` and `\A`). `Scan` is `gsub`: leftmost match
  first, matches never overlap, and after a failed try it moves on one
  character. `ScanFirst` is `sub`. Each special rule has a reference function
  with its equivalence proved: `DropVowels`, `Squeeze`, `Collapse`, `Squash`.
- `Compress`: the constants, `char_count` and every stage of the `Compress`
  mixin as a function on the text. Word stages (`split.map {...}.join ' '`)
  go through `MapWords`; stages made of `gsub!` calls go through `ApplyAll`
  over a list of rules.
- `Urls`: `url_preserve` and `url_restore`, and the conditions under which
  restoring gives the text back exactly.
- `TweetCompressor`: the stage loop as functions (`Step`, `RunStages`,
  `CompressText`), the rounding of `compression_level`, and the class `Tweet`.
  `Tweet` holds fields `compressed` and `urls`, one method per stage, and the
  `compress` loop as a `while` loop proved against `RunStages`.
- `Examples` and `UrlExamples`: concrete cases. Most come from the
  repository's test suite. A few show quirks of the code: `GrammarChris`,
  `AbbrSixteen`, `AbbrAnd` and the `...InsideWord` cases. Short texts are
  evaluated directly. Longer test texts are derived from lemmas that hold
  for every text of that shape.

The model follows the code, odd behaviour included:

- "sixteen" abbreviates to "15".
- "musn't" is spelled as the code spells it.
- `correct_grammar` turns "Chris's" into "Chri'".
- The lookahead of the "I will" rule looks for `=`, so "I will not" becomes
  "I'll not".
- `dedupe_consonants` builds its character class by interpolating an Array.
  The class therefore also holds `"`, `,` and space. Every run in a word
  becomes the character of the word's first run.
- `dedupe_punct` squeezes the placeholder to `_PLACEHOLDER4URLS_`.
- The stage list starts with `url_preserve` a second time. When the text is
  over the budget right after the first `url_preserve`, that second run finds
  no URL in the masked text and clears the stored list. `url_restore` then
  puts back nothing, so the URLs stay masked (`UrlsLostOverBudget`). This is
  proved under the round-trip conditions: single-spaced words, each URL a
  word of its own and found whole, and no word holding the placeholder.

## Model

| member | source | states |
|---|---|---|
| Text.Downcase | lib/tweet_compressor/compress.rb:51 | `downcase` keeps the length and lower-cases each ASCII letter, position by position |
| Text.StartsFolded | lib/tweet_compressor/compress.rb:85 | a case-insensitive (`/i`) prefix test holds exactly when the down-cased prefix equals the down-cased literal |
| Text.StartsExact | lib/tweet_compressor/compress.rb:78 | a case-sensitive prefix test is the prefix relation |
| Text.Words | lib/tweet_compressor/compress.rb:173 | `split` yields only non-empty words without whitespace |
| Text.WordsOfJoin | lib/tweet_compressor/compress.rb:173 | splitting a `join(' ')` of words gives back the same words |
| Text.JoinOfNormalized | lib/tweet_compressor/compress.rb:173 | single-spaced text is the `join(' ')` of its own `split` |
| Text.ConcatWords | lib/tweet_compressor/compress.rb:173 | the words of a text hold exactly its non-whitespace characters, in order |
| Text.NonSpaceJoin | lib/tweet_compressor/compress.rb:173 | joining words with spaces adds only whitespace |
| Text.JoinSpaceLength | lib/tweet_compressor/compress.rb:77 | a `join(' ')` is the words' lengths plus one space between each two |
| Text.JoinSpaceSnoc | lib/tweet_compressor/compress.rb:173 | joining one more word adds a space and that word at the end |
| Text.JoinWordsLength | lib/tweet_compressor/compress.rb:173 | rebuilding a text from its words never lengthens it |
| Compress.CharCount | lib/tweet_compressor/compress.rb:37-41 | the count is the text length minus the stored URLs' total length plus 20 per URL |
| Compress.CharCountOneUrl | spec/tweet_compressor_spec.rb:78-93 | with one URL stored, "a url b" counts the length of a and b plus 20, whatever the URL's length |
| Compress.Map | lib/tweet_compressor/compress.rb:50 | `map` keeps the length and applies the block to each word in place |
| Compress.Whitespace | lib/tweet_compressor/compress.rb:172-174 | `whitespace`: the `split` words joined by single spaces |
| Compress.CorrectGrammar | lib/tweet_compressor/compress.rb:103-105 | `correct_grammar`: the case-blind `gsub!` of "s's" by an apostrophe |
| Compress.Contractions | lib/tweet_compressor/compress.rb:90-100 | `contractions`: the nine `gsub!` calls in the source's order |
| Compress.DedupePunctWord | lib/tweet_compressor/compress.rb:122-128 | the block of `dedupe_punct` on one word |
| Compress.DedupePunct | lib/tweet_compressor/compress.rb:120-129 | `dedupe_punct`: the block over the `split` words, joined by single spaces |
| Compress.AbbrWord | lib/tweet_compressor/compress.rb:51-76 | the `case` table of `abbr` on one word |
| Compress.Abbr | lib/tweet_compressor/compress.rb:49-81 | `abbr`: the table over the words, then the three `gsub!` calls |
| Compress.RemoveVowelsWord | lib/tweet_compressor/compress.rb:147-148 | the block of `remove_vowels` on one word |
| Compress.RemoveVowels | lib/tweet_compressor/compress.rb:145-150 | `remove_vowels`: the block over the words |
| Compress.DedupeConsonantsWord | lib/tweet_compressor/compress.rb:113-114 | the block of `dedupe_consonants` on one word |
| Compress.DedupeConsonants | lib/tweet_compressor/compress.rb:109-116 | `dedupe_consonants`: the block over the words |
| Compress.Apostrophes | lib/tweet_compressor/compress.rb:84-86 | `apostrophes`: the case-blind `gsub!` of "n't" by "nt" |
| Compress.Sentences | lib/tweet_compressor/compress.rb:153-155 | `sentences`: the `gsub!` of `([[:punct:]])\s*(\S)` by the two captures |
| Compress.IngWord | lib/tweet_compressor/compress.rb:136-140 | the block of `ing` on one word |
| Compress.Ing | lib/tweet_compressor/compress.rb:133-142 | `ing`: the block over the words |
| Compress.Texting | lib/tweet_compressor/compress.rb:158-169 | `texting`: the ten `gsub!` calls in the source's order |
| Compress.WhitespaceNormal | lib/tweet_compressor/compress.rb:172-174 | `whitespace` gives single-spaced text with the same words and non-space characters, no longer than before |
| Compress.WhitespaceFixed | lib/tweet_compressor/compress.rb:172-174 | `whitespace` leaves a text unchanged exactly when it is already single-spaced |
| Compress.WhitespaceIdempotent | lib/tweet_compressor/compress.rb:172-174 | `whitespace` twice is `whitespace` once |
| Compress.MapWordsNormal | lib/tweet_compressor/compress.rb:112-115 | a word stage whose block keeps words gives single-spaced text whose words are the block applied to each old word |
| Compress.MapWordsOfJoin | lib/tweet_compressor/compress.rb:146-149 | a word stage on single-spaced words is the `join(' ')` of the mapped words |
| Compress.MapAllWords | lib/tweet_compressor/compress.rb:122-128 | a block that keeps words maps a list of words to a list of words |
| Compress.MapSumLengths | lib/tweet_compressor/compress.rb:135-141 | a block that never lengthens a word never lengthens the words in total |
| Compress.MapWordsLength | lib/tweet_compressor/compress.rb:135-141 | a word stage whose block never lengthens a word never lengthens the text |
| Compress.AbbrOf | lib/tweet_compressor/compress.rb:51-76 | a table entry applies only to an all-lower-case key and is a shorter word |
| Compress.NumberAbbr | lib/tweet_compressor/compress.rb:55-64 | the number words "one" to "ten" map to shorter words, and only lower-case keys hit |
| Compress.TeenAbbr | lib/tweet_compressor/compress.rb:65-74 | the number words "eleven" to "twenty" map to shorter words, and only lower-case keys hit |
| Compress.AbbrWordSpec | lib/tweet_compressor/compress.rb:50-77 | a word changes only if its down-cased form is in the table; it never grows; it stays a word; a word not starting with a letter is kept |
| Compress.AbbrHash | lib/tweet_compressor/compress.rb:50-77 | a hash tag is never abbreviated |
| Compress.AbbrCaseBlind | lib/tweet_compressor/compress.rb:51 | two spellings that down-case alike and are in the table abbreviate alike |
| Compress.RemoveVowelsSpec | lib/tweet_compressor/compress.rb:145-150 | a hash tag or a word under four characters is kept; otherwise the first character stays and every later lower-case vowel goes |
| Compress.IngSpec | lib/tweet_compressor/compress.rb:133-142 | a word changes exactly when it ends in "ing", is not a hash tag, is longer than four and is not "fling"; it then ends in "g" instead and is two shorter |
| Compress.ConsRunMatch | lib/tweet_compressor/compress.rb:110-111 | the consonant pattern matches at the front exactly when a class character repeats there |
| Compress.ConsRunSearch | lib/tweet_compressor/compress.rb:113 | the `=~` test finds the first position where a class character repeats, or says there is none |
| Compress.ConsRunNotFound | lib/tweet_compressor/compress.rb:113 | when the `=~` test fails, no position holds a repeat |
| Compress.DedupeConsonantsSpec | lib/tweet_compressor/compress.rb:109-116 | a word without a repeat is kept; otherwise every repeat run collapses to the character of the first run; it stays a word and does not grow |
| Compress.DedupePunctSpec | lib/tweet_compressor/compress.rb:120-129 | long dot and hyphen runs are cut first; a word that then holds "..." or "--" is kept; otherwise every punctuation run is squeezed to one |
| Compress.DotsAndHyphens | lib/tweet_compressor/compress.rb:123-124 | the two run rewrites equal the reference `RunsOfDots`, which keeps words and never lengthens |
| Compress.RunsOfDotsScan | lib/tweet_compressor/compress.rb:123-124 | the `gsub!` calls for four-dot and three-hyphen runs equal `Squash` twice |
| Compress.RunsOfDotsShorter | lib/tweet_compressor/compress.rb:123-124 | cutting the runs never lengthens a word |
| Compress.SquashWord | lib/tweet_compressor/compress.rb:123-124 | replacing runs in a word by a word keeps it a word |
| Compress.SqueezeWord | lib/tweet_compressor/compress.rb:126-127 | the guarded `gsub!` of repeated punctuation equals the reference `Squeeze`, which never lengthens and keeps words |
| Compress.HolderDamaged | lib/tweet_compressor/compress.rb:15 | `dedupe_punct` turns the placeholder into "_PLACEHOLDER4URLS_" |
| Compress.HolderLetters | lib/tweet_compressor/compress.rb:121 | the underscore is punctuation and no punctuation run starts inside "PLACEHOLDER4URLS" |
| Compress.DedupePunctPairs | lib/tweet_compressor/compress.rb:120-129 | a word of a doubled mark (not a dot or hyphen), a body without punctuation runs, and the doubled mark becomes mark, body, mark |
| Compress.PunctPairs | lib/tweet_compressor/compress.rb:127 | the squeezing `gsub!` on doubled mark, body, doubled mark gives mark, body, mark |
| Compress.PunctPair | lib/tweet_compressor/compress.rb:127 | a doubled mark is squeezed to one |
| Compress.WordStagesKeepWords | lib/tweet_compressor/compress.rb:112-149 | every word block (`abbr`, `remove_vowels`, `dedupe_consonants`, `dedupe_punct`, `ing`) maps words to words no longer than before |
| Compress.WordStagesNormal | lib/tweet_compressor/compress.rb:112-149 | every word stage gives single-spaced text |
| Compress.SentencesKeepsText | lib/tweet_compressor/compress.rb:153-155 | `sentences` removes only whitespace: the non-space characters are the same, in order |
| Compress.SentencesBetween | lib/tweet_compressor/compress.rb:154 | after a stretch where no match starts, a mark, whitespace and a non-space character become the mark and that character, and `gsub` goes on after them |
| Compress.SentencesMark | lib/tweet_compressor/compress.rb:154 | at a punctuation mark the match takes the whole whitespace run and the next non-space character, and leaves just the mark and that character |
| Compress.SentencesHitStep | lib/tweet_compressor/compress.rb:154 | a match of the `sentences` pattern keeps the non-space characters of the text it replaces |
| Compress.SentencesMissStep | lib/tweet_compressor/compress.rb:154 | skipping a character where the pattern fails keeps the non-space characters |
| Compress.KeepsHitStep | lib/tweet_compressor/compress.rb:154 | a `gsub` whose every replacement keeps the non-space characters of its match keeps those of the text (hit case) |
| Compress.KeepsMissStep | lib/tweet_compressor/compress.rb:154 | the same for a position where the rule fails |
| Compress.PunctSpaceHit | lib/tweet_compressor/compress.rb:154 | a match of `([[:punct:]])\s*(\S)` is replaced by exactly its non-space characters |
| Compress.NonSpaceStretch | lib/tweet_compressor/compress.rb:154 | a mark, whitespace, then a non-space character have just those two as non-space characters |
| Compress.NonSpaceAllSpace | lib/tweet_compressor/compress.rb:154 | all-whitespace text has no non-space characters |
| Compress.RulesNoLonger | lib/tweet_compressor/compress.rb:78-104 | no rule of `abbr`, `contractions`, `texting`, `apostrophes`, `correct_grammar` or `sentences` replaces a match by something longer, and the contraction, apostrophe and grammar rules always shorten |
| Compress.StagesNoLonger | lib/tweet_compressor/tweet.rb:17-19 | none of the nine stages after `url_preserve` lengthens the text |
| Compress.RuleStagesNoLonger | lib/tweet_compressor/compress.rb:84-105 | `correct_grammar`, `contractions`, `apostrophes` and `sentences` never lengthen the text |
| Compress.SingleRulesNoLonger | lib/tweet_compressor/compress.rb:153-155 | the single-`gsub!` stages never lengthen the text |
| Compress.ContractionsNoLonger | lib/tweet_compressor/compress.rb:90-100 | `contractions` never lengthens the text |
| Compress.WordStagesNoLonger | lib/tweet_compressor/compress.rb:49-150 | `dedupe_punct`, `abbr`, `remove_vowels` and `dedupe_consonants` never lengthen the text |
| Compress.ChangesIffFound | lib/tweet_compressor/compress.rb:84-105 | `apostrophes` and `correct_grammar` change the text exactly when their pattern occurs |
| Compress.TextingNoLonger | lib/tweet_compressor/compress.rb:158-169 | `texting` never lengthens the text |
| Rewrite.FirstAlt | lib/tweet_compressor/compress.rb:80 | an alternation takes the first alternative that matches, and none before it matches |
| Rewrite.RunLen | lib/tweet_compressor/compress.rb:123 | the leading run of a character is maximal |
| Rewrite.SpaceRun | lib/tweet_compressor/compress.rb:154 | the `\s*` run is maximal |
| Rewrite.HandleRun | lib/tweet_compressor/compress.rb:163 | the `[^:\b]+` run is maximal |
| Rewrite.Scan | lib/tweet_compressor/compress.rb:78-168 | `gsub`: leftmost match first, no overlaps, one character on after a failed try |
| Rewrite.ScanFirst | lib/tweet_compressor/compress.rb:185 | `sub`: the first match only |
| Rewrite.ApplyAll | lib/tweet_compressor/compress.rb:90-100 | consecutive `gsub!` calls applied in order |
| Rewrite.Match | lib/tweet_compressor/compress.rb:78-168 | a match spans at least one character, within the text |
| Rewrite.Search | lib/tweet_compressor/compress.rb:113 | `=~` finds a position exactly when some match exists, and the position lies in the text |
| Rewrite.SearchMatch | lib/tweet_compressor/compress.rb:113 | at the found position the rule matches, and at no earlier position |
| Rewrite.SearchHit | lib/tweet_compressor/compress.rb:113 | at the found position the rule matches |
| Rewrite.SearchNoneBefore | lib/tweet_compressor/compress.rb:113 | the rule matches at no position before the found one |
| Rewrite.ApplyAllSnoc | lib/tweet_compressor/compress.rb:90-100 | consecutive `gsub!` calls: one more call applies after all earlier ones |
| Rewrite.BarrierMatch | lib/tweet_compressor/compress.rb:78-168 | a match never crosses a character the rule cannot contain |
| Rewrite.ScanBarrier | lib/tweet_compressor/compress.rb:78-168 | `gsub` splits at such a character into the part before, the character, and the part after |
| Rewrite.ScanCloser | lib/tweet_compressor/compress.rb:154 | the `sentences` `gsub` splits after a non-space, non-punctuation character |
| Rewrite.ScanSkip | lib/tweet_compressor/compress.rb:78-168 | `gsub` copies a stretch that no match can start in |
| Rewrite.NoStartsScan | lib/tweet_compressor/compress.rb:78-168 | `gsub` leaves text unchanged when no match can start in it |
| Rewrite.FirstAltBetween | lib/tweet_compressor/compress.rb:85 | the first alternative between stretches that no match starts in is replaced, and the rest is kept |
| Rewrite.AltBetween | lib/tweet_compressor/compress.rb:159 | an alternation between a stretch where no match starts and any text: the chosen alternative is replaced and `gsub` goes on after it |
| Rewrite.RetweetBetween | lib/tweet_compressor/compress.rb:163 | "RT @" and a handle without a colon, then a colon, between stretches where no match starts, loses the colon |
| Rewrite.CapBetween | lib/tweet_compressor/compress.rb:93-99 | `(x)tail` between such stretches becomes the captured letter, in its own case, then the replacement |
| Rewrite.DoesNotBetween | lib/tweet_compressor/compress.rb:97 | "does not" with either case of its first letter becomes that letter and "oesn't" |
| Rewrite.PrevBlindScan | lib/tweet_compressor/compress.rb:78-168 | for a rule without `\b` or `\A`, the character before does not matter |
| Rewrite.ScanFirstBarrier | lib/tweet_compressor/compress.rb:185 | `sub` copies a barrier-ended stretch without a match and goes on after it |
| Rewrite.ScanFirstAbsent | lib/tweet_compressor/compress.rb:185 | `sub` without any match leaves the text unchanged |
| Rewrite.ScanAbsent | lib/tweet_compressor/compress.rb:78-168 | `gsub` without any match leaves the text unchanged |
| Rewrite.LiteralFound | lib/tweet_compressor/compress.rb:180 | a literal pattern has a match exactly when the text contains it |
| Rewrite.LiteralWhole | lib/tweet_compressor/compress.rb:180-185 | `gsub` and `sub` of a literal on exactly that literal give the replacement |
| Rewrite.LiteralFront | lib/tweet_compressor/compress.rb:185 | `sub` of a literal that begins the text replaces that occurrence and keeps the rest |
| Rewrite.DropVowels | lib/tweet_compressor/compress.rb:148 | the reference function keeps only characters of the input, none a lower-case vowel, and never lengthens |
| Rewrite.InnerVowelScan | lib/tweet_compressor/compress.rb:148 | `gsub(/(?<!\A)[aeiou]/, '')` past the start equals `DropVowels` |
| Rewrite.InnerVowelAll | lib/tweet_compressor/compress.rb:148 | on a non-empty word it keeps the first character and drops every later lower-case vowel |
| Rewrite.Squeeze | lib/tweet_compressor/compress.rb:127 | the reference function never lengthens, keeps the first character, and leaves no punctuation character next to a copy of itself |
| Rewrite.PunctRunScan | lib/tweet_compressor/compress.rb:127 | `gsub!(/([[:punct:]])\1+/, '\1')` equals `Squeeze` |
| Rewrite.Collapse | lib/tweet_compressor/compress.rb:114 | the reference for the consonant rewrite keeps only input and replacement characters |
| Rewrite.ConsRunScan | lib/tweet_compressor/compress.rb:114 | the consonant `gsub!` equals `Collapse` |
| Rewrite.Squash | lib/tweet_compressor/compress.rb:123-124 | the reference for the run rewrites keeps only input and replacement characters |
| Rewrite.SquashRun | lib/tweet_compressor/compress.rb:123-124 | a run shorter than the minimum is copied |
| Rewrite.RunScan | lib/tweet_compressor/compress.rb:123-124 | the run `gsub!` (`/\.{4,}/`, `/-{3,}/`) equals `Squash` |
| Rewrite.MatchLength | lib/tweet_compressor/compress.rb:78-168 | a rule that never lengthens (shortens) replaces each match by something no longer (shorter) |
| Rewrite.ScanLength | lib/tweet_compressor/compress.rb:78-168 | `gsub` with such a rule never lengthens the text |
| Rewrite.ScanShrinks | lib/tweet_compressor/compress.rb:85 | with a shortening rule, `gsub` changes the text exactly when a match exists, and then shortens it |
| Rewrite.ApplyAllLength | lib/tweet_compressor/compress.rb:90-100 | consecutive `gsub!` calls with such rules never lengthen the text |
| Urls.UrlOf | lib/tweet_compressor/compress.rb:17-33 | a word yields at most one URL, a prefix of the word that is a URL |
| Urls.IsUrl | lib/tweet_compressor/compress.rb:17-33 | the recognised URL shape: a letter, at least one more scheme character, a colon, at least three more characters starting with '/', a letter, a digit or '%', no whitespace or brackets, and a last character that may end a URL |
| Urls.UrlIsUrlWord | lib/tweet_compressor/compress.rb:17-33 | a URL is found whole when it is a word of its own |
| Urls.MaskAll | lib/tweet_compressor/compress.rb:178-181 | the `gsub!` of each stored URL by the placeholder, in order |
| Urls.RestoreAll | lib/tweet_compressor/compress.rb:184-186 | the `sub!` of the placeholder by each stored URL, in order |
| Urls.ScanUrls | lib/tweet_compressor/compress.rb:179 | every collected item is a URL |
| Urls.UrlsOfUrls | lib/tweet_compressor/compress.rb:179 | every URL collected from a word list is a URL |
| Urls.MaskAllStep | lib/tweet_compressor/compress.rb:180 | masking one more URL is one more `gsub!` with the placeholder |
| Urls.RestoreAllStep | lib/tweet_compressor/compress.rb:185 | restoring one more URL is one more `sub!` of the placeholder |
| Urls.HolderHasNoUrl | lib/tweet_compressor/compress.rb:15 | the placeholder contains no URL and is not one |
| Urls.LiteralOverJoin | lib/tweet_compressor/compress.rb:180 | a literal `gsub!` on joined words replaces exactly the words equal to the literal |
| Urls.MaskAllJoin | lib/tweet_compressor/compress.rb:178-181 | masking stand-alone URL words replaces exactly the words that are in the list |
| Urls.MaskOne | lib/tweet_compressor/compress.rb:180 | one `gsub!` masks one more URL word everywhere it occurs |
| Urls.UnmaskAll | lib/tweet_compressor/compress.rb:184-186 | with all URLs put back, the words are the original ones |
| Urls.UnmaskCount | lib/tweet_compressor/compress.rb:184-186 | putting back as many URLs as there are URL words gives the original words |
| Urls.RestoreStep | lib/tweet_compressor/compress.rb:185 | with every URL word found whole and no word holding the placeholder, each `sub!` puts the next URL in the first remaining placeholder |
| Urls.RestoreAllJoin | lib/tweet_compressor/compress.rb:184-186 | with every URL word found whole and no word holding the placeholder, after k restores the first k URL words are back and the rest are still placeholders |
| Urls.RestoreAllInvariant | lib/tweet_compressor/compress.rb:185 | a sequence of `sub!` steps, each proved, composes |
| Urls.PreserveJoin | lib/tweet_compressor/compress.rb:178-181 | under the round-trip conditions, `url_preserve` collects the URL words in order and masks exactly them |
| Urls.RoundTrip | lib/tweet_compressor/compress.rb:178-186 | `url_restore` after `url_preserve` gives the text back, under the round-trip conditions |
| Urls.UrlsLost | lib/tweet_compressor/compress.rb:179 | under the round-trip conditions, a second `url_preserve` on the masked text finds no URL |
| Urls.NoUrlsMasked | lib/tweet_compressor/compress.rb:179 | the masked words hold no URL |
| Urls.MaskedWords | lib/tweet_compressor/compress.rb:180 | the masked list is still a list of words |
| Urls.MaskedLength | lib/tweet_compressor/compress.rb:180 | masking changes the total length by 20 minus each URL's length |
| Urls.MaskedTextLength | lib/tweet_compressor/compress.rb:180 | the masked text is the text length minus the URLs' lengths plus 20 per URL |
| Urls.PreservedCount | lib/tweet_compressor/compress.rb:37-41 | under the round-trip conditions, right after `url_preserve` the count subtracts the URLs' lengths twice and adds 20 twice per URL |
| TweetCompressor.Ran | lib/tweet_compressor/tweet.rb:20-23 | the loop runs at most all stages |
| TweetCompressor.Preserve | lib/tweet_compressor/compress.rb:178-181 | `url_preserve` on the state: the scanned URLs stored and masked |
| TweetCompressor.Restore | lib/tweet_compressor/compress.rb:184-186 | `url_restore` on the state: the stored URLs put back, the list kept |
| TweetCompressor.Step | lib/tweet_compressor/tweet.rb:22 | `send stage`: each stage's effect on text and URLs |
| TweetCompressor.RunStages | lib/tweet_compressor/tweet.rb:20-23 | the `each` loop with its `break` on a count within 140 |
| TweetCompressor.CompressText | lib/tweet_compressor/tweet.rb:13-29 | `compress`: `url_preserve`, the loop over the ten stages, `url_restore` |
| TweetCompressor.RoundHalfUp | lib/tweet_compressor/tweet.rb:32 | rounding lands within one half of the value |
| TweetCompressor.Round2 | lib/tweet_compressor/tweet.rb:32 | `round 2` is within 0.005, has at most two decimals, and keeps non-negative values non-negative |
| TweetCompressor.Level | lib/tweet_compressor/tweet.rb:31-33 | undefined exactly for an empty original; otherwise within 0.005 of 100 minus the count as a percentage of the original length, and in 0..100 when the count is at most that length |
| TweetCompressor.LevelBounds | lib/tweet_compressor/tweet.rb:32 | the level lies in 0..100 when the count is at most the original length, before and after rounding |
| TweetCompressor.LevelExample | spec/tweet_compressor_spec.rb:129-131 | a count of 22 over an original of 168 characters gives 86.9 |
| TweetCompressor.Tweet.constructor | lib/tweet_compressor/tweet.rb:6-9 | original and working copy are the argument, and no URL is stored |
| TweetCompressor.Tweet.CharCount | lib/tweet_compressor/compress.rb:37-41 | the count of the object's text with its stored URLs |
| TweetCompressor.Tweet.Substitute | lib/tweet_compressor/compress.rb:90-100 | a list of `gsub!` calls leaves the result of applying them in order, URLs unchanged |
| TweetCompressor.Tweet.UrlPreserve | lib/tweet_compressor/compress.rb:178-181 | stores the scanned URLs and masks each in turn |
| TweetCompressor.Tweet.UrlRestore | lib/tweet_compressor/compress.rb:184-186 | puts each stored URL, in turn, in the first placeholder |
| TweetCompressor.Tweet.Whitespace | lib/tweet_compressor/compress.rb:172-174 | the text becomes `whitespace` of the old text |
| TweetCompressor.Tweet.CorrectGrammar | lib/tweet_compressor/compress.rb:103-105 | the text becomes `correct_grammar` of the old text |
| TweetCompressor.Tweet.Contractions | lib/tweet_compressor/compress.rb:90-100 | the text becomes `contractions` of the old text |
| TweetCompressor.Tweet.DedupePunct | lib/tweet_compressor/compress.rb:120-129 | the text becomes `dedupe_punct` of the old text |
| TweetCompressor.Tweet.Abbr | lib/tweet_compressor/compress.rb:49-81 | the text becomes `abbr` of the old text |
| TweetCompressor.Tweet.RemoveVowels | lib/tweet_compressor/compress.rb:145-150 | the text becomes `remove_vowels` of the old text |
| TweetCompressor.Tweet.DedupeConsonants | lib/tweet_compressor/compress.rb:109-116 | the text becomes `dedupe_consonants` of the old text |
| TweetCompressor.Tweet.Apostrophes | lib/tweet_compressor/compress.rb:84-86 | the text becomes `apostrophes` of the old text |
| TweetCompressor.Tweet.Sentences | lib/tweet_compressor/compress.rb:153-155 | the text becomes `sentences` of the old text |
| TweetCompressor.Tweet.Ing | lib/tweet_compressor/compress.rb:133-142 | the text becomes `ing` of the old text |
| TweetCompressor.Tweet.Texting | lib/tweet_compressor/compress.rb:158-169 | the text becomes `texting` of the old text |
| TweetCompressor.Tweet.RunStage | lib/tweet_compressor/tweet.rb:22 | `send stage` changes the state as that stage's step does |
| TweetCompressor.Tweet.RunStagesLoop | lib/tweet_compressor/tweet.rb:20-23 | the loop ends in the state `RunStages` describes |
| TweetCompressor.Tweet.Compress | lib/tweet_compressor/tweet.rb:13-29 | the state becomes `CompressText` of the old text, and the method returns the new text |
| TweetCompressor.Tweet.CompressionLevel | lib/tweet_compressor/tweet.rb:31-33 | undefined exactly for an empty original; otherwise within 0.005 of 100 minus the count as a percentage of the original length |
| TweetCompressor.RunStagesSpec | lib/tweet_compressor/tweet.rb:20-23 | the loop applies exactly the first `Ran` stages; every check before them found the count over 140; if it stops early, the count is within 140 |
| TweetCompressor.RunStagesPrefix | lib/tweet_compressor/tweet.rb:20-23 | the loop's result is the first `Ran` stages applied in order |
| TweetCompressor.RunStagesChecks | lib/tweet_compressor/tweet.rb:21 | every state before a stage that ran was over the budget |
| TweetCompressor.RunStagesExit | lib/tweet_compressor/tweet.rb:21 | the loop stops early only within the budget |
| TweetCompressor.CompressFrame | lib/tweet_compressor/tweet.rb:13-29 | `url_preserve` comes first and `url_restore` last; within the budget after `url_preserve` no stage runs |
| TweetCompressor.StepKeepsUrls | lib/tweet_compressor/tweet.rb:17-22 | only `url_preserve` changes the stored URLs, and it sets them to the URLs of the text |
| TweetCompressor.ShortTextUnchanged | spec/tweet_compressor_spec.rb:97-101 | a text without URLs of at most 140 characters comes back unchanged, and no stage runs |
| TweetCompressor.WithinBudgetRoundTrip | lib/tweet_compressor/tweet.rb:13-29 | under the round-trip conditions and within the budget after `url_preserve`, `compress` returns the text exactly, URLs included |
| TweetCompressor.NoUrlsAfter | lib/tweet_compressor/tweet.rb:17-23 | stages other than `url_preserve` never bring URLs into an empty list |
| TweetCompressor.UrlsLostOverBudget | lib/tweet_compressor/tweet.rb:15-26 | under the round-trip conditions and over the budget after `url_preserve`, the URLs are dropped and `compress` returns what the later stages made of the masked text |
| Examples.CharCountExample | spec/tweet_compressor_spec.rb:78-93 | "abc url def" with the URL stored counts 28, whatever the URL |
| Examples.AbbrJavaScript | spec/tweet_compressor_spec.rb:25-47 | every spelling of the word "javascript" becomes "JS" in the table |
| Examples.AbbrHashTag | spec/tweet_compressor_spec.rb:49-54 | the word "#string" is kept by the table |
| Examples.AbbrAnd | lib/tweet_compressor/compress.rb:52 | "AND" becomes "&" |
| Examples.AbbrSixteen | lib/tweet_compressor/compress.rb:70 | "sixteen", in any case, becomes "15" |
| Examples.AboutInsideWord | lib/tweet_compressor/compress.rb:80 | "knockabout" becomes "knockre": the pattern has no word boundary |
| Examples.IsArticleInsideWord | lib/tweet_compressor/compress.rb:159 | the `is (?:an?|the)` rule of `texting` has no word boundary: "this a" becomes "th=" |
| Examples.ToInsideWord | lib/tweet_compressor/compress.rb:166 | the `\bto` rule has no closing boundary: "today" becomes "2day" |
| Examples.YouInsideWord | lib/tweet_compressor/compress.rb:168 | the `you` rule has no word boundary: "yours" becomes "urs" |
| Examples.ApostrophesDont | lib/tweet_compressor/compress.rb:85 | "don't" becomes "dont" |
| Examples.ApostrophesSentence | spec/tweet_compressor_spec.rb:64-69 | "It's not; I won't, you can't. So don't." becomes "It's not; I wont, you cant. So dont." |
| Examples.GrammarChris | lib/tweet_compressor/compress.rb:104 | "Chris's" becomes "Chri'" |
| Examples.IWillNotMatch | lib/tweet_compressor/compress.rb:92 | the "I will" rule matches the first six characters of "I will not" |
| Examples.IWillNot | spec/tweet_compressor_spec.rb:135-140 | the `I will` rule turns "I will not", and whatever follows where the rule cannot start, into "I'll not" and the same rest |
| Examples.NotAfterWill | lib/tweet_compressor/compress.rb:92 | after "I will", " not" holds no further match |
| Examples.ContractWould | lib/tweet_compressor/compress.rb:91 | "I would" becomes "I'd" |
| Examples.ContractMust | spec/tweet_compressor_spec.rb:142-148 | the `(m)ust not` rule turns "You must not." into "You musn't." |
| Examples.ContractDoesNot | spec/tweet_compressor_spec.rb:142-148 | the `(d)o(es)? not` rule turns "Does not." into "Doesn't.", capital kept |
| Examples.DedupeConsonantsLower | spec/tweet_compressor_spec.rb:160-164 | "llc" becomes "lc" |
| Examples.DedupeConsonantsUpper | spec/tweet_compressor_spec.rb:154-158 | "LLC" is kept |
| Examples.DoubledFront | lib/tweet_compressor/compress.rb:113-114 | a word that starts with a doubled consonant of the class and has no other repeat loses one copy of it |
| Examples.DedupePunctDouble | spec/tweet_compressor_spec.rb:171-175 | "!!" becomes "!" |
| Examples.IngExample | spec/tweet_compressor_spec.rb:185-197 | "sleeping" becomes "sleepg"; "#sleeping", "fling" and "king" are kept |
| Examples.RemoveVowelsExample | lib/tweet_compressor/compress.rb:147-148 | "tea" and "#boat" are kept |
| Examples.RemoveVowelsAboard | spec/tweet_compressor_spec.rb:200-202 | "aboard" becomes "abrd" |
| Examples.DropBoard | spec/tweet_compressor_spec.rb:204-207 | the reference `DropVowels` removes the vowels of "board" |
| Examples.SentencesExample | spec/tweet_compressor_spec.rb:210-216 | "3. 4" becomes "3.4" |
| Examples.SentencesThreeMarks | spec/tweet_compressor_spec.rb:210-216 | "1 2 3. 4 5 6, 7 8 9! 0" becomes "1 2 3.4 5 6,7 8 9!0" |
| Examples.IsArticleExample | spec/tweet_compressor_spec.rb:219-226 | the first `texting` rule turns "foo is a bar. bar is an afoo. baz is the quux" into "foo = bar. bar = afoo. baz = quux" |
| Examples.AboutExample | spec/tweet_compressor_spec.rb:228-233 | the case-blind `about` rule of `texting` turns "1 about 2. 3 related to 4" into "1 re 2. 3 re 4" |
| Examples.RetweetExample | spec/tweet_compressor_spec.rb:235-240 | the retweet rule of `texting` turns "Foo bar. RT @_baz_quux_: More fubar." into "Foo bar. RT @_baz_quux_ More fubar." |
| Examples.DedupeConsonantsWords | spec/tweet_compressor_spec.rb:160-164 | "llc bbc ccid" becomes "lc bc cid" |
| Examples.DedupeConsonantsUpperWords | spec/tweet_compressor_spec.rb:154-158 | "LLC BBC CCID" is kept |
| Examples.DedupePunctWords | spec/tweet_compressor_spec.rb:171-175 | "!!! ... ,,, ?! .!" becomes "! ... , ?! .!" |
| Examples.DedupePunctTriple | lib/tweet_compressor/compress.rb:126-127 | three of a mark other than a dot or hyphen become one |
| Examples.DedupePunctMixed | lib/tweet_compressor/compress.rb:126-127 | two different marks, the second neither a dot nor a hyphen, are kept (so "-!" and ".!" too) |
| Examples.DedupePunctEllipsis | lib/tweet_compressor/compress.rb:125 | "..." is kept |
| UrlExamples.PreserveRestoreExample | spec/tweet_compressor_spec.rb:243-273 | "abc http://123 def http://456" yields the two URLs, masks both as the placeholder, and restores to the text |
| UrlExamples.TweetPreserveRestoreExample | spec/tweet_compressor_spec.rb:243-273 | the same on the object state: `url_preserve` stores both URLs and masks them; `url_restore` with those URLs gives the text back |

## Left out

- `URL_PATTERN` is replaced by a recogniser for whitespace-separated words. It accepts a letter, more characters from `[\w-]`, a colon, then at least three characters without whitespace or brackets, and a last character that may end a URL. The `www` and bare-domain alternatives, balanced parentheses, `\b` before the URL, and the extra capture groups that `scan.flatten.compact` would add to the list are not modelled. A URL is found only at the start of its whitespace-separated word: in "a:ht://xy" the source finds "ht://xy", and the model finds no URL.
- Urls.MaskAllStep: each URL is treated as a literal string. The source interpolates it into a regular expression, so a '.' or '?' in a URL acts as a metacharacter in Ruby.
- Urls.RestoreAllStep: Ruby's `sub!` reads `\1`, `\0` and `\\` in a replacement string as back-references and escapes. A URL holding a backslash is therefore not put back literally by the source. The model puts every URL back literally.
- Urls.RestoreStep: proved only when every URL word is found whole (`BareUrls`) and no word holds the placeholder (`NoHolder`).
- Urls.RestoreAllJoin: proved only under `BareUrls` and `NoHolder`, as for RestoreStep.
- Urls.PreserveJoin: proved only under `RoundTrips`: single-spaced words, bare URLs found whole, each URL a word of its own, and no word holding the placeholder.
- Urls.UrlsLost: proved only under `RoundTrips`: single-spaced words, bare URLs found whole, each URL a word of its own, and no word holding the placeholder.
- Urls.PreservedCount: proved only under `RoundTrips`, the same conditions.
- TweetCompressor.WithinBudgetRoundTrip: proved only under `RoundTrips`, the same conditions.
- TweetCompressor.UrlsLostOverBudget: proved only under `RoundTrips`, the same conditions.
- Urls.RoundTrip: proved only for texts of single-spaced words in which every URL stands alone as a word and no word holds the placeholder. Other texts are modelled but not proved to round-trip.
- TweetCompressor.Level: uses exact reals, not floating point. For an empty original it is `None`, where Ruby gives NaN.
- TweetCompressor.Tweet.CompressionLevel: divides by the length of the text the object was made with. In the source `@original` and `@compressed` are one string (tweet.rb:7), so the `gsub!` of `url_preserve` (compress.rb:180) masks `@original` as well. When the count is over 140 after `url_preserve` and the text holds URLs, the URLs are never put back, and tweet.rb:32 then divides by the length of the masked original.
- TweetCompressor.Tweet.constructor: `original` is a constant. The aliasing of `@original` and `@compressed` (the same Ruby string) is not modelled. The stages that mutate `@compressed` in place can therefore not be seen to change `@original`.
- Text is ASCII. `[[:punct:]]` and `\s` are fixed to their ASCII members, and case folding covers A-Z only.
- `send` dispatch and `include Compress` become a `match` over a `Stage` datatype and a class that holds the stages as methods.
- `texting` and `ing` are modelled as methods but are not stages of `compress`, as in the source.
- The end-to-end examples of the test suite over 140 characters are not proved. Neither are the four `abbr` sentences ("JavaScript should be shortened to JS." and its variants), "#string #JavaScript #string" and "one two three fifteen twenty" through the whole `abbr`. The two contraction sentences through all nine `contractions` rules, "boardwalk", and the `dedupe_punct` exceptions sentence "Foo! Bar...baz. Quux?!" are not proved either. For these only the word rules and `gsub!` rules they exercise are proved, for all inputs, with short cases in `Examples`.
- Examples.AbbrJavaScript: proves the word table only, not the test sentences through the whole `abbr`.
- Examples.AbbrHashTag: proves the word "#string" only, not "#string #JavaScript #string" through the whole `abbr`.
- Examples.IWillNot: proves the `I will` rule alone, not the test sentence through all nine `contractions` rules.
- Examples.ContractMust: proves the `(m)ust not` rule alone, not the test sentence through all nine rules.
- Examples.ContractDoesNot: proves the `(d)o(es)? not` rule alone, not the test sentence through all nine rules.
- Examples.DropBoard: uses "board" for the reference `DropVowels`. The test's "boardwalk" through `remove_vowels` is not proved.
- Examples.IsArticleExample: the three `texting` sentences are proved for the one rule of `texting` that each exercises, not for the whole ten-rule `texting`.
- Examples.AboutExample: proved for the case-blind `about` rule alone, not for the whole `texting`.
- Examples.RetweetExample: proved for the retweet rule alone, not for the whole `texting`.
- TweetCompressor.LevelExample: the count 22 is the test's expected result, taken as given. That `compress` brings "Fling string while you sing." plus 140 x's down to a count of 22 is not proved.
- Examples.AboutInsideWord: uses "knockabout" rather than "roundabout". The 'r' of "roundabout" could begin "regarding" or "related", which needs a longer case analysis.
