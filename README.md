# WhatsApp chat analyzer — verified model of its text processing

The analyzer reads an exported WhatsApp chat and a list of suspicious keywords and
reports three things: the chat lines that mention a keyword as a whole word, the
message bodies taken out of the export format, and the most frequent alphabetic words
in those messages. This project models that text processing in Dafny and proves what
it does:

- `loader.dfy` covers the normalisation inside `load_chat` and `load_keywords`. Each
  line is stripped, blank lines are dropped, and keywords are lower-cased. The model
  works on lines already read into memory.
- `chatline.dfy` covers `extract_messages`. The regular expression
  `\d{1,2}/\d{1,2}/\d{2,4}, \d{1,2}:\d{2} (AM|PM) - .*?: (.+)` is written out as a
  matcher. The matcher is proved to agree with a declarative statement of when the
  pattern matches and what its second group captures. The extraction loop is a method
  proved against a specification function.
- `suspicious.dfy` covers `detect_suspicious`. `\b<keyword>\b` is modelled with `\b`
  as a change between word and non-word characters. The nested loop with its early
  `break` is a method proved against a specification function.
- `wordfreq.dfy` covers `count_common_words`. The model joins, lower-cases and splits
  the messages, keeps the alphabetic tokens, and then does what
  `Counter(...).most_common(n)` does: a stable sort of the counter's items by
  decreasing count, cut to `n`.
- `text.dfy` holds the Python string primitives used: `str.lower`, `str.strip`,
  `str.split()`, `' '.join` and the character classes.
- `common.dfy` holds an option type, list comprehensions with a filter, and a
  leftmost search.

Two details of keyword matching are easy to misread. The model follows the code:

- **Whole words.** The search is `\b<keyword>\b` (main.py:36), and `\b` is a change
  between a word character (a letter, a digit or `_`) and anything else. That is not the
  same as "no alphanumeric character next to the keyword". The two differ for keywords
  that begin or end with a non-word character, and for a neighbouring `_`. For example,
  `$100` does not match in `pay $100 now` but does match in `a$100 b`
  (`Suspicious.DollarAfterSpaceNotFlagged`, `Suspicious.DollarAfterLetterFlagged`).
- **Case.** `detect_suspicious` lower-cases only the line (main.py:34), not the
  keyword. A keyword is lower-cased only when it comes through `load_keywords`, so a
  keyword holding an upper-case letter that is passed in directly never matches
  (`Suspicious.UpperKeywordNeverMatches`).

`most_common(n)` is not in this repository. It is the standard library's
`heapq.nlargest(n, items, key=count)`. For `n` of zero or less that returns no entries.
For `n` at least the number of items it returns `sorted(items, key=count, reverse=True)`,
and for any other `n` the first `n` entries of that sorted list. That sort is stable,
and the items come in first-occurrence order. So `most_common(n)` takes nothing for
`n <= 0`, where a slice `[:n]` of the sorted list would drop entries from its end
instead.

## Model

| member | source | states |
|---|---|---|
| Common.FilterMap | main.py:19 | a comprehension with a filter yields one value per kept element, in order, and no more values than elements |
| Common.FirstSomeLeftmost | main.py:25 | a leftmost search reports the first position where an attempt succeeds, and every earlier attempt fails |
| Common.FirstSome | main.py:25 | a leftmost search succeeds exactly when some position's attempt succeeds |
| Text.LowerChar | main.py:34 | `lower` maps upper-case letters to lower-case, changes nothing else, and keeps letters, word characters and whitespace what they are |
| Text.Lower | main.py:34 | `lower` keeps the length, leaves no upper-case letter, turns each upper-case letter into a lower-case one and changes no other character |
| Text.LowerConcat | main.py:63 | lower-casing works character by character, so it distributes over concatenation |
| Text.TrimStart | main.py:19 | `lstrip` drops exactly a whitespace prefix, leaving a suffix that starts with a non-space |
| Text.TrimEnd | main.py:19 | `rstrip` drops exactly a whitespace suffix, leaving a prefix that ends with a non-space |
| Text.Strip | main.py:19 | `strip` gives the empty string exactly when the line is all whitespace; otherwise both ends are non-space |
| Text.StripSlice | main.py:19 | `strip` returns a slice of the line with only whitespace cut off on each side |
| Text.StripIdempotent | main.py:19 | stripping a stripped line changes nothing |
| Text.LowerOfStripped | main.py:14 | lower-casing a stripped string leaves nothing to strip |
| Text.Split | main.py:63 | `split()` yields non-empty tokens without whitespace |
| Text.Join | main.py:63 | `' '.join` of no strings is empty; otherwise it is as long as all strings together plus one space between each pair of neighbours |
| Text.SplitFromSeparator | main.py:63 | while splitting, any whitespace character ends the token being built and separates what comes before it from what comes after |
| Text.SplitAtSpace | main.py:63 | any whitespace character separates tokens: splitting `a + [c] + b` for whitespace `c` splits `a` and `b` apart |
| Text.SplitTab | main.py:63 | a tab separates tokens as a space does: `a\tb` splits into `a` and `b` |
| Text.SplitJoin | main.py:63 | splitting a space-join of non-empty, space-free tokens gives back those tokens |
| Text.SplitFromNoUpper | main.py:63 | splitting a string without upper-case letters yields tokens without them |
| Loader.ChatLines | main.py:19 | `load_chat` returns no more lines than it read, each non-empty and already stripped |
| Loader.ChatLinesFollowRaw | main.py:19 | `load_chat` keeps exactly the non-blank lines, in order, each stripped |
| Loader.KeywordLines | main.py:14 | `load_keywords` returns no more keywords than lines, each non-empty, stripped and lower-case |
| Loader.KeywordLinesFollowRaw | main.py:14 | `load_keywords` keeps exactly the non-blank lines, in order, each stripped and lower-cased |
| Loader.KeywordIsClean | main.py:14 | a non-blank line, stripped and lower-cased, is non-empty, stripped and lower-case |
| ChatLine.AllDigitsPrefix | main.py:25 | a prefix of a run of digits is a run of digits |
| ChatLine.DigitRun | main.py:25 | the greedy `\d` run: all digits, ending at the end of the line or at a non-digit |
| ChatLine.Field | main.py:25 | a greedy read of `\d{lo,hi}` and its separator that succeeds is a match of that piece |
| ChatLine.FieldComplete | main.py:25 | every match of `\d{lo,hi}` and a non-digit separator is the one the greedy read finds |
| ChatLine.DigitRunUnique | main.py:25 | a run of digits ended by a non-digit is the greedy run |
| ChatLine.MatchTime | main.py:25 | the time part read from position p ends after p and within the line |
| ChatLine.MatchTimeComplete | main.py:25 | wherever the header matches, the time part is read exactly where the header has it |
| ChatLine.MatchHeader | main.py:25 | a header found at position i ends after i and within the line |
| ChatLine.MatchHeaderSound | main.py:25 | what the header matcher reports is a match of the date, time and `(AM\|PM) - ` part |
| ChatLine.MatchHeaderComplete | main.py:25 | every match of the header part from position i is the one the matcher reports, since it can be read in only one way |
| ChatLine.MatchHeaderCorrect | main.py:25 | the matcher reports the header ending at h exactly when the header matches there |
| ChatLine.FindColonSpace | main.py:25 | lazy `.*?: ` stops at the first `": "` after the header unless a newline comes first, and then none exists |
| ChatLine.LineEnd | main.py:25 | greedy `(.+)` runs to the first newline or the end of the line |
| ChatLine.LineEndOfOneLine | main.py:25 | in a line without newlines, greedy `(.+)` runs to the end |
| ChatLine.BodyAfter | main.py:25 | the second group after a header, when there is one, is non-empty and holds no newline |
| ChatLine.MatchAt | main.py:25 | there is no match at position i without a header there, and group 2 of a match is a non-empty piece of one line |
| ChatLine.BodyAfterComplete | main.py:25 | if any `": "` after the header leaves a non-empty body, the first one does, so a later `": "` never rescues a failed match |
| ChatLine.MatchAtSound | main.py:25 | a match the matcher reports at position i is a match of the whole pattern there, with the first `": "` and the body up to the end of the line |
| ChatLine.MatchAtComplete | main.py:25 | wherever the whole pattern matches at position i, the matcher reports a match there |
| ChatLine.NoEarlierMatch | main.py:25 | before the leftmost successful start the pattern matches nowhere |
| ChatLine.SearchSound | main.py:25 | what the leftmost search returns is found only where the pattern matches, and is a non-empty piece of one line |
| ChatLine.SearchComplete | main.py:25 | wherever the pattern occurs, the leftmost search finds a match |
| ChatLine.ExtractBody | main.py:25-26 | a line yields a message exactly when the pattern occurs anywhere in it; other lines yield nothing and raise no error; a message is a non-empty piece of one line |
| ChatLine.ExtractBodyIs | main.py:25-27 | the message is group 2 of the leftmost match: the non-empty rest of the line after the first `": "` following the header |
| ChatLine.ExtractBodyFromStart | main.py:25-27 | a one-line string that starts with the header yields everything after the first `": "` that follows it |
| ChatLine.BodyAfterFirst | main.py:25 | in a one-line string the second group after a header is everything after the first `": "` |
| ChatLine.TwoDigitField | main.py:25 | two digits and a separator match `\d{1,2}`, `\d{2}` and `\d{2,4}` followed by that separator |
| ChatLine.ExampleDate | main.py:25 | `1/2/23, ` matches the date part of the pattern |
| ChatLine.ExampleTime | main.py:25 | `10:30 ` matches the time part of the pattern |
| ChatLine.ExampleMeridiem | main.py:25 | `AM - ` matches the `(AM\|PM) - ` part of the pattern |
| ChatLine.ExampleBody | main.py:25 | in the example line the first `": "` after the header is at position 24 and is followed by text |
| ChatLine.ExtractBodyExample | main.py:25-27 | `1/2/23, 10:30 AM - Alice: let's meet at 5` yields `let's meet at 5` |
| ChatLine.Messages | main.py:22-28 | no more messages than lines, each a non-empty piece of one line |
| ChatLine.MessagesStep | main.py:24-27 | each further line adds its message, if it has one, after the earlier messages |
| ChatLine.ExtractMessages | main.py:22-28 | the loop returns exactly the specification's messages, one per matching line, in order |
| ChatLine.MessagesFollowLines | main.py:22-28 | the messages are group 2 of the matching lines, one per matching line, in the lines' order, and no more than the lines |
| Suspicious.FindWholeWordSound | main.py:36 | a position the search reports is a whole-word occurrence, and none occurs before it |
| Suspicious.FindWholeWordComplete | main.py:36 | the search misses no whole-word occurrence |
| Suspicious.HasWholeWordIff | main.py:36 | `re.search(\b<kw>\b, s)` succeeds exactly when `kw` occurs in `s` with a `\b` boundary on both sides |
| Suspicious.DetectSuspicious | main.py:31-39 | the nested loop with `break` returns exactly the specification's flagged lines |
| Suspicious.Flagged | main.py:31-39 | never more flagged lines than lines |
| Suspicious.FlaggedAfterSearch | main.py:35-38 | when the keyword loop on a line stops at the first keyword that matches, or runs out, the line is appended exactly when it stopped on a match |
| Suspicious.FlaggedStep | main.py:33-38 | each line is appended once if some keyword flags it, and otherwise changes nothing |
| Suspicious.FlagsIff | main.py:34-36 | a line is flagged exactly when some keyword occurs as a whole word in the lower-cased line |
| Suspicious.FlaggedFollowLines | main.py:31-39 | the result is a subsequence of the lines, each line at most once, in order, and exactly the flagged ones |
| Suspicious.FlaggedKeywordSet | main.py:35-38 | only the set of keywords matters: reordering or repeating keywords changes nothing |
| Suspicious.NoKeywordsFlagNothing | main.py:35 | an empty keyword list flags no line |
| Suspicious.UpperKeywordNeverMatches | main.py:34-36 | a keyword with an upper-case letter never matches, because only the line is lower-cased |
| Suspicious.BombedHasNoBomb | main.py:36 | `bomb` occurs in `i bombed that test` only inside a longer word |
| Suspicious.BombedNotFlagged | main.py:34-36 | the keyword `bomb` does not flag `I bombed that test` |
| Suspicious.BombIdeaFlagged | main.py:34-36 | the keyword `bomb` flags `that's a bomb idea` |
| Suspicious.DollarAfterSpaceNotFlagged | main.py:36 | `$100` does not match in `pay $100 now`, where no word character borders it |
| Suspicious.DollarAfterLetterFlagged | main.py:36 | `$100` matches in `a$100 b`, where a letter borders it |
| WordFreq.FirstIndex | main.py:65 | the position of a word's first occurrence, or the length when the word is absent |
| WordFreq.FirstIndexSnoc | main.py:65 | appending a word moves no earlier first occurrence; a new word first occurs at the old length |
| WordFreq.Keys | main.py:65 | the counter's keys are exactly the words, each once, in order of first occurrence |
| WordFreq.KeysOccur | main.py:65 | every key of the counter occurs at least once |
| WordFreq.Items | main.py:65 | the counter has one item per distinct word, and each item pairs its word with that word's positive count |
| WordFreq.ItemsAre | main.py:65 | `(w, c)` is an item of the counter exactly when `w` occurs and `c` is its number of occurrences |
| WordFreq.Insert | main.py:65 | one insertion step of the sort keeps the multiset of entries |
| WordFreq.SortByCount | main.py:65 | the sort by count is a permutation of the items |
| WordFreq.Take | main.py:65 | `most_common(n)` keeps the first min(n, length) sorted entries, and none when n <= 0 (`heapq.nlargest` returns none then) |
| WordFreq.SortedCons | main.py:65 | an entry placed before a sorted list that it precedes entirely keeps the list sorted |
| WordFreq.InsertSorted | main.py:65 | inserting an entry whose word occurred after all placed words keeps the order "count descending, ties by first occurrence" |
| WordFreq.SortByCountSorted | main.py:65 | the stable sort by decreasing count puts items in "count descending, ties by first occurrence" order |
| WordFreq.SortedItems | main.py:65 | the sorted items hold every distinct word once, with its count, in that order |
| WordFreq.MostCommon | main.py:65 | `most_common(n)` gives min(n, distinct words) entries, none for n <= 0, each a word that occurs with its count |
| WordFreq.MostCommonOrder | main.py:65 | the entries come by decreasing count, equal counts in first-occurrence order, and no word twice |
| WordFreq.MostCommonRank | main.py:65 | every word left out ranks after every word returned |
| WordFreq.MostCommonComplete | main.py:65 | fewer than n entries means every word is there, with its count |
| WordFreq.AlphaWords | main.py:64 | the filter keeps only alphabetic tokens, and no more words than tokens |
| WordFreq.AlphaWordsCount | main.py:64 | the filter keeps each alphabetic token as often as it occurs |
| WordFreq.AlphaWordsHas | main.py:64 | an alphabetic word is kept exactly when it is a token |
| WordFreq.AlphaWordsFirst | main.py:64 | the filter keeps alphabetic tokens in the order of their first occurrences |
| WordFreq.AlphaWordsCounts | main.py:64 | every alphabetic word is kept as often as it occurs among the tokens |
| WordFreq.AlphaWordsOrder | main.py:64 | any two kept words first occur in the same order among the kept words as among the tokens |
| WordFreq.TokensPerMessage | main.py:63 | joining with spaces never glues words of two messages: the tokens are each lower-cased message's tokens, message after message |
| WordFreq.Tokens | main.py:63 | every token of the joined, lower-cased messages is non-empty, has no whitespace and has no upper-case letter |
| WordFreq.CountCommonWords | main.py:62-65 | at most `top_n` entries, none for `top_n <= 0`, each an alphabetic, lower-case word with a positive count |
| WordFreq.CountCommonWordsEntries | main.py:62-65 | each entry is a token of the joined, lower-cased messages with its number of occurrences among all tokens |
| WordFreq.CountCommonWordsComplete | main.py:62-65 | fewer than `top_n` entries means every alphabetic token is there, with its count |
| WordFreq.CountCommonWordsOrder | main.py:62-65 | counts never increase, equal counts keep the order of first occurrence among the tokens, and no word repeats |
| WordFreq.CountCommonWordsRank | main.py:62-65 | every alphabetic token left out ranks after every word returned: its count is no higher, and on a tie it first occurs later |
| WordFreq.NoMessagesNoWords | main.py:62-65 | no messages give an empty word table |

## Left out

- The download of the VADER lexicon at main.py:9 is left out. It is a network side effect at import time.
- `analyze_sentiment` (main.py:42-49) is left out. Its scores come from a foreign library and are floating point numbers.
- `generate_wordcloud` (main.py:52-59) is left out. It only renders an image.
- Opening and reading the files (main.py:13, main.py:18) are left out, together with their encodings. The loaders are modelled over the list of lines read.
- The `__main__` block (main.py:68-95) is left out. It only prints, and it calls `count_common_words` with the default `top_n` of 10, which the model takes as a parameter.
- Characters are ASCII only. `\d` is `0`-`9` and `\w` is ASCII letters, digits and `_`. `str.lower` changes only `A`-`Z`, `str.isalpha` accepts ASCII letters, and `str.isspace` accepts tab, newline, vertical tab, form feed, carriage return, the separators 0x1C-0x1F and space. Python applies the Unicode tables to all of these.
- Suspicious.BombedNotFlagged: states the example on the message text `I bombed that test`, not on the whole exported line. The date and sender part of that line holds no `bomb`.
- Suspicious.BombIdeaFlagged: states the example on the message text `that's a bomb idea`, not on the whole exported line.
- `Counter.most_common` with no argument is not modelled. The source always passes `top_n`.
