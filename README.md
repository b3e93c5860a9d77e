# TrendsAI text preprocessing, modelled in Dafny

TrendsAI collects the tweets of Twitter's trending topics and scores
their sentiment. Before scoring, `Analyser/Preprocessing.py` turns the
collected tweets into plain text. This project models that step.

- **`Cleaner.clean_tweet`** normalises one tweet. It replaces every
  `https?://[A-Za-z0-9./]+` link with a space and deletes every `#`. It
  turns every other character outside `[a-zA-Z]` into a space and
  lower-cases the text. Finally it tokenizes the text, re-joins the
  tokens with single spaces and strips the result.
- **`clean_data`** cleans a list of tweets one by one. It joins the
  cleaned tweets with newlines and strips the result.
- **`Loader.load_all_in_one`** flattens the per-trend tweet lists of a
  snapshot into one list, in key order. `prepare_data_all_in_one` cleans
  that list into one text.
- **`prepare_data_by_trends`** cleans each trend's tweets into a text of
  its own, under the trend's name.

The modules follow the program's structure:

- `Strings` holds the Python `str` operations the code relies on:
  `isspace`, `strip`, `lstrip`, `rstrip`, `join`, and `split` as the
  inverse of `join`.
- `Cleaner` holds the three compiled patterns of the `Cleaner` class and
  `clean_tweet` as pure functions:
  - `RemoveLinks` is the left-to-right, leftmost, greedy substitution of
    the link pattern;
  - `DeleteHashes`, `ReplaceNonLetters` and `Lower` are the next three
    steps;
  - `Tokenize`, `Join` and `Strip` are the last ones.

  The module also proves the cleaned text's shape, idempotence, and which
  letters survive.
- `CleanerPieces` holds compositional laws of `clean_tweet`: cutting at a
  space, at a blanked character, at a hash mark, after a link.
  `CleanerCases` derives worked examples from them.
- `Loader` models the decoded JSON snapshot and `load_all_in_one`. The
  snapshot is a sequence of (trend name, tweets) pairs in key order, with
  distinct names. `load_all_in_one` is a method with the source's loops,
  proved against the specification function `Flatten`.
- `Preprocessing` models `clean_data`, `prepare_data_all_in_one` and
  `prepare_data_by_trends` as methods with the source's loops. They are
  proved against the specification function `Corpus`. Lemmas state what
  the final `strip` removes and how the text splits back into lines.
  `CorpusCases` works through two examples.

`WordPunctTokenizer` splits text by the pattern `\w+|[^\w\s]+`. The text
it receives holds only lower-case ASCII letters and spaces, and on such
text that pattern yields exactly the maximal runs of letters. The model's
`Tokenize` is defined as those runs: the maximal runs of non-space
characters.

No code in the repository averages sentiment scores per trend or skips
trends whose scoring failed. `Analyser/Analysing.py:39-43` exits the
process on any scoring failure. The model therefore has no aggregation
component.

## Model

| member | source | states |
|---|---|---|
| Strings.StripLeft | Analyser/Preprocessing.py:89 | `lstrip` removes a prefix made only of whitespace, and the result does not start with whitespace |
| Strings.StripRight | Analyser/Preprocessing.py:89 | `rstrip` removes a suffix made only of whitespace, and the result does not end with whitespace |
| Strings.StripKeepsTrimmed | Analyser/Preprocessing.py:89 | `strip` leaves text that neither starts nor ends with whitespace unchanged |
| Strings.Strip | Analyser/Preprocessing.py:89 | `str.strip()` is `rstrip` after `lstrip`; what it removes is stated by `StripLeft`, `StripRight`, `StripKeepsTrimmed` and `StripJoinedLines` |
| Strings.Join | Analyser/Preprocessing.py:108 | `sep.join(parts)`; `SplitJoin` states that `Split` inverts it, and `JoinAppend` how it composes |
| Strings.SplitJoin | Analyser/Preprocessing.py:108 | when no part holds the separator, splitting the joined parts at the separator gives the parts back |
| Cleaner.LinkCharRun | Analyser/Preprocessing.py:66 | the `[A-Za-z0-9./]+` run is the longest prefix made of link characters: every character in it is one, and the next is not |
| Cleaner.MatchLink | Analyser/Preprocessing.py:66 | the length of the match of `link_regex` at the start of a text, 0 when none; `MatchLinkIsLongestLink` states that it is the longest prefix in the pattern's language |
| Cleaner.MatchLinkIsLongestLink | Analyser/Preprocessing.py:66 | the greedy match at a position is the longest prefix in the language of `https?://[A-Za-z0-9./]+`; there is no match exactly when no prefix is a link |
| Cleaner.NoLinkStartMeansNoLink | Analyser/Preprocessing.py:83 | the scan finds no match at any position exactly when no substring is a link |
| Cleaner.RemoveLinks | Analyser/Preprocessing.py:83 | `link_regex.sub(" ", tweet)`: never lengthens the text; `RemoveLinksLeavesNoLink`, `RemoveLinksKeepsLinkFree`, `RemoveLinksIdempotent` and `RemoveLinksAroundSpace` state what it removes and keeps |
| Cleaner.RemoveLinksLeavesNoLink | Analyser/Preprocessing.py:83 | after `link_regex.sub(" ", ...)` no substring is a link, not even one assembled around a removed link |
| Cleaner.RemoveLinksKeepsLinkFree | Analyser/Preprocessing.py:83 | link removal leaves text without links unchanged |
| Cleaner.RemoveLinksIdempotent | Analyser/Preprocessing.py:83 | link removal is idempotent |
| Cleaner.RemoveLinksWithoutColon | Analyser/Preprocessing.py:83 | text without a colon holds no link and is left unchanged |
| Cleaner.DeleteHashes | Analyser/Preprocessing.py:84 | `hashtags_regex.sub("", ...)` leaves no `#`, never lengthens the text, and leaves text without `#` unchanged |
| Cleaner.KeepOrBlank | Analyser/Preprocessing.py:70 | the class `[^a-zA-Z#]` of `encodings_regex`, and what the substitution makes of one character |
| Cleaner.ReplaceNonLetters | Analyser/Preprocessing.py:85 | `encodings_regex.sub(" ", ...)`, character by character; `PrepareTextIsLowerOrSpace` and `PrepareTextConcat` state its effect |
| Cleaner.Lower | Analyser/Preprocessing.py:86 | `str.lower()` on the ASCII text that reaches it; `PrepareTextIsLowerOrSpace` states that only `a`-`z` and spaces remain |
| Cleaner.PrepareText | Analyser/Preprocessing.py:84-86 | lines 84 to 86 in order: delete `#`, blank the rest of `[^a-zA-Z]`, lower-case |
| Cleaner.WordLength | Analyser/Preprocessing.py:88 | a token is the longest run of non-space characters at the start |
| Cleaner.Tokenize | Analyser/Preprocessing.py:88 | every token is non-empty and holds no space |
| Cleaner.TokenizeJoin | Analyser/Preprocessing.py:88-89 | tokenizing non-empty space-free words joined by single spaces gives the words back |
| Cleaner.JoinTokenize | Analyser/Preprocessing.py:88-89 | re-joining the tokens of single-spaced text gives the text back |
| Cleaner.JoinLowerWordsCanonical | Analyser/Preprocessing.py:89 | lower-case words joined by single spaces have no leading, trailing or doubled space |
| Cleaner.Retokenize | Analyser/Preprocessing.py:87-89 | tokenize, re-join with single spaces, strip; `CleanTweetIsJoinedTokens` states that the strip removes nothing |
| Cleaner.PrepareTextIsLowerOrSpace | Analyser/Preprocessing.py:84-86 | the tokenizer receives only lower-case ASCII letters and spaces |
| Cleaner.CleanTweetIsJoinedTokens | Analyser/Preprocessing.py:87-89 | the final `strip` of `clean_tweet` removes nothing |
| Cleaner.CleanTweet | Analyser/Preprocessing.py:72-90 | `clean_tweet`: link removal, then `PrepareText`, then `Retokenize`; characterised by `CleanTweetIsCanonical`, `CleanTweetIdempotent`, `CleanTweetKeepsLettersOutsideLinks` and the laws of `CleanerPieces` |
| Cleaner.CleanTweetIsCanonical | Analyser/Preprocessing.py:83-89 | a cleaned tweet holds only `a`-`z` and single spaces between words, with none at either end |
| Cleaner.CanonicalIsFixedPoint | Analyser/Preprocessing.py:83-89 | text already of that shape is left unchanged by `clean_tweet` |
| Cleaner.CleanTweetIdempotent | Analyser/Preprocessing.py:83-89 | `clean_tweet(clean_tweet(s)) == clean_tweet(s)` |
| Cleaner.CleanTweetKeepsLettersOutsideLinks | Analyser/Preprocessing.py:83-89 | the letters of a cleaned tweet are exactly the tweet's ASCII letters outside links, lower-cased, in their order |
| Cleaner.CleanTweetEmptyWithoutLetters | Analyser/Preprocessing.py:83-89 | a tweet without ASCII letters outside its links cleans to `""` |
| Cleaner.CleanTweetOfLetterless | Analyser/Preprocessing.py:83-89 | a tweet without any ASCII letter cleans to `""` |
| CleanerPieces.PrepareTextConcat | Analyser/Preprocessing.py:84-86 | deleting `#`, blanking and lower-casing work character by character, so they distribute over concatenation |
| CleanerPieces.TokenizeAroundSpace | Analyser/Preprocessing.py:88 | no token spans a space |
| CleanerPieces.JoinAppend | Analyser/Preprocessing.py:89 | joining two lists of words at once is joining their two joins with one space between them, or none when one side is empty |
| CleanerPieces.RemoveLinksAroundSpace | Analyser/Preprocessing.py:83 | no link spans a space, so link removal works on the two sides apart |
| CleanerPieces.CleanTweetAroundSpace | Analyser/Preprocessing.py:83-89 | the two sides of a space are cleaned independently and joined by one space, or by none when one side cleans to `""` |
| CleanerPieces.CleanTweetAroundBlank | Analyser/Preprocessing.py:85-89 | where no link can start, any character outside `[a-zA-Z#]` separates the words on its two sides like a space |
| CleanerPieces.HashMarkVanishes | Analyser/Preprocessing.py:84 | a `#` is deleted without leaving a space, so the words on its two sides fuse |
| CleanerPieces.CleanTweetOfWord | Analyser/Preprocessing.py:85-89 | a word of ASCII letters cleans to its lower-case form |
| CleanerPieces.HashtagCleansToWord | Analyser/Preprocessing.py:84-86 | a hashtag cleans to its word, lower-cased |
| CleanerPieces.MatchLinkOfLink | Analyser/Preprocessing.py:66 | the greedy match takes the whole of a link followed by a character outside the link class |
| CleanerPieces.CleanTweetOfLinkThen | Analyser/Preprocessing.py:83 | such a link is replaced by one space |
| CleanerPieces.CleanTweetOfLink | Analyser/Preprocessing.py:83 | a tweet that is one link cleans to `""` |
| CleanerPieces.CleanTweetOfLeadingSpace | Analyser/Preprocessing.py:87-89 | a leading space makes no difference to the cleaned tweet |
| CleanerCases.EmptyTweet | Analyser/Preprocessing.py:83-89 | `clean_tweet("") == ""` |
| CleanerCases.Hashtag | Analyser/Preprocessing.py:84 | `"#cool"` cleans to `"cool"` |
| CleanerCases.HashtagFuses | Analyser/Preprocessing.py:84 | `"a#b"` cleans to `"ab"` |
| CleanerCases.WordLinkHashtagNumber | Analyser/Preprocessing.py:83-89 | `"Check https://x.co/a #cool!! 123"` cleans to `"check cool"` |
| CleanerCases.UpperCaseScheme | Analyser/Preprocessing.py:83-86 | link matching is case-sensitive and runs before lower-casing: `"HTTPS://X.CO"` cleans to `"https x co"` |
| CleanerCases.SchemeWithoutHost | Analyser/Preprocessing.py:66 | the pattern needs a link character after `://`: `"see http:// now"` cleans to `"see http now"` |
| CleanerCases.LinkStopsAtHashMark | Analyser/Preprocessing.py:66 | a link ends at the first character outside its class: `"http://t.co#tag"` cleans to `"tag"` |
| Loader.LoadAllInOne | Analyser/Preprocessing.py:23-30 | the loaded list is the trends' tweet lists, in key order, flattened |
| Loader.FlattenAppend | Analyser/Preprocessing.py:30 | flattening distributes over concatenation of the lists |
| Loader.FlattenLength | Analyser/Preprocessing.py:30 | the flattened list holds as many tweets as all the lists together |
| Loader.FlattenKeepsOrder | Analyser/Preprocessing.py:30 | the `j`-th tweet of the `i`-th list sits right after the tweets of the lists before it |
| Loader.FlattenMembers | Analyser/Preprocessing.py:30 | a tweet is in the flattened list exactly when it is in one of the lists |
| Loader.NamesCount | Analyser/Preprocessing.py:149 | a snapshot has as many keys as trends |
| Loader.TweetLists | Analyser/Preprocessing.py:26-28 | `data[trend]` for every key, in key order |
| Loader.Flatten | Analyser/Preprocessing.py:30 | the nested comprehension; characterised by `FlattenAppend`, `FlattenLength`, `FlattenKeepsOrder` and `FlattenMembers` |
| Preprocessing.CleanData | Analyser/Preprocessing.py:100-108 | the loop collects every tweet's cleaned text in order; the result is their newline join, stripped |
| Preprocessing.CleanAll | Analyser/Preprocessing.py:104-106 | every tweet cleaned, in order; `CleanAllAt` states each element, `CleanAllFlatten` how it meets flattening |
| Preprocessing.Corpus | Analyser/Preprocessing.py:101-108 | the text `clean_data` returns; characterised by `CorpusIsTrimmedJoin`, `CorpusLines`, `CorpusOfNoTweets`, `CorpusOfOneTweet` and `CorpusKeepsInnerLines` |
| Preprocessing.LeadingEmpty | Analyser/Preprocessing.py:108 | counts the empty lines at the front: all of them are empty and the next one is not |
| Preprocessing.TrailingEmpty | Analyser/Preprocessing.py:108 | counts the empty lines at the end: all of them are empty and the one before is not |
| Preprocessing.StripLeftJoin | Analyser/Preprocessing.py:108 | `lstrip` of the newline join removes exactly the empty lines in front |
| Preprocessing.StripRightJoin | Analyser/Preprocessing.py:108 | `rstrip` of the newline join removes exactly the empty lines at the end |
| Preprocessing.StripJoinedLines | Analyser/Preprocessing.py:108 | `strip` of the newline join removes exactly the empty lines at either end |
| Preprocessing.CorpusIsTrimmedJoin | Analyser/Preprocessing.py:104-108 | the cleaned text is the cleaned tweets, in input order, joined by newlines, without the empty ones at either end |
| Preprocessing.CorpusLines | Analyser/Preprocessing.py:104-108 | the cleaned text is empty exactly when every tweet cleans to `""`; otherwise splitting it at newlines gives back the cleaned tweets from the first non-empty one to the last |
| Preprocessing.CorpusOfNoTweets | Analyser/Preprocessing.py:104-108 | no tweets give `""` |
| Preprocessing.CorpusOfOneTweet | Analyser/Preprocessing.py:104-108 | one tweet gives its cleaned text |
| Preprocessing.CorpusKeepsInnerLines | Analyser/Preprocessing.py:104-108 | when the first and last tweets clean to something, the result is the full newline join, empty lines inside included |
| Preprocessing.CleanAllFlatten | Analyser/Preprocessing.py:127-128 | cleaning the flattened lists is flattening the lists cleaned one by one |
| Preprocessing.PrepareDataAllInOne | Analyser/Preprocessing.py:127-128 | the text of all trends is `clean_data` of the flattened tweet lists |
| Preprocessing.AllInOneInTrendOrder | Analyser/Preprocessing.py:127-128 | that text holds each trend's cleaned tweets, trends in key order, with only the empty lines at either end removed |
| Preprocessing.PrepareDataByTrends | Analyser/Preprocessing.py:148-152 | the result has exactly the snapshot's keys, one per trend, and each trend's value is `clean_data` of its tweets, kept even when it is `""` |
| CorpusCases.EmptyTweetInTheMiddle | Analyser/Preprocessing.py:108 | an empty cleaned tweet between two others leaves two newlines in a row: `["#cool", "123", "a#b"]` gives `"cool\n\nab"` |
| CorpusCases.EmptyTweetAtTheStart | Analyser/Preprocessing.py:108 | an empty cleaned tweet at the front leaves no line: `["123", "#cool"]` gives `"cool"` |

## Left out

- File access is not modelled. This covers the data-file path of `Loader.__init__`, built from `woeid` with `os.path.join`, the `open` and `json.load` calls, and the `woeid` choice in the two `prepare_data_*` functions. The decoded snapshot is a parameter instead.
- `Loader.load_dict` is not modelled, because without its file access it returns the decoded snapshot unchanged.
- The `print` calls are not modelled; they have no effect on the results.
- The internals of `WordPunctTokenizer` are not modelled. `Tokenize` is its behaviour on text of letters and spaces, the only text it is given.
- `Lower` maps only ASCII letters, because by the time it runs every other character has been blanked.
- The `Cleaner` object has no state of its own, so it is not a class. `link_regex` is `MatchLink`, built from `SchemeLength` and `IsLinkChar`. `hashtags_regex` is the `#` test in `DeleteHashes`. `encodings_regex` is `KeepOrBlank`.
- Preprocessing.PrepareDataByTrends: the result is a Dafny `map`, so the insertion order of the Python dictionary's keys is not stated.
- Scraper/TrendsReader.py, Analyser/Analysing.py, Analyser/main.py and the two `__init__.py` files are not part of this model. They are a network client, a call into a cloud language service, configuration reading and glue code.
