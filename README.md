# Rule-based document metadata extractor, modelled in Dafny

The model covers the `MetadataExtractor` class of `metadata_extractor.py`, the
core of an automated metadata system. The class makes six independent passes
over one document text and builds one record from them:

- **title**: the first acceptable match of three line patterns among the first
  five *meaningful* lines. A meaningful line is a stripped line longer than 10
  and shorter than 200 characters. Failing a match, the title is the first
  meaningful line without a leading "page N" or "chapter N". Failing that, it
  is the sentinel "Untitled Document".
- **author**: four label patterns are tried in order. The first match of a
  pattern is stripped and cleaned of everything but ASCII letters, whitespace
  and periods. It is kept if 4 to 49 characters remain; otherwise the next
  pattern is tried. Failing all four, the author is the sentinel "Unknown Author".
- **dates**: five date shapes are matched over the whole text. The matches are
  joined in pattern order, duplicates are dropped keeping the first occurrence,
  and at most five are kept. The spelled-out-month patterns have a capture
  group, so they contribute only the month name as written (e.g. "March").
- **keywords**: the text is lower-cased. Every character other than `\w`,
  whitespace and `.` becomes a space, and the result is split on whitespace.
  A token is kept when it is longer than 3, not one of the 53 listed stop words,
  not numeric, and alphabetic. The kept tokens are tallied. Of the `n` most
  common (a stable sort by descending count, ties in first-seen order), the
  words seen more than once are returned.
- **summary**: the text is split at runs of `.`, `!` and `?`. The stripped
  pieces longer than 20 characters are the sentences. When there are at most
  `m` of them, the summary is all of them joined by `". "` plus a final `"."`.
  Otherwise:
  - each sentence is scored by how many of its lower-cased words are among the
    top 20 keywords;
  - the `m` best are chosen by a stable sort;
  - the chosen sentences are output in text order, stopping after `m`.
- **record**: the five results plus the word count (whitespace-separated
  tokens), the character count and the extraction timestamp.

Each regular expression is written out as a deterministic matcher over
characters. Each matcher follows what the pattern does under Python's `re`:
greedy quantifiers, the backtracking those quantifiers allow, `re.findall`
returning group 1, `re.IGNORECASE` and `re.MULTILINE`.

The modules follow the source's structure:

- `Text`: character classes, `strip`, `split`, `join`.
- `Seqs`: prefixes, `dict.fromkeys`, filters, and the stable descending sort
  behind `list.sort` and `Counter.most_common`.
- `Title`, `Author`, `Dates`, `Keywords`, `Summary`: one pass each.
- `Extractor`: builds the record.

The keyword, date and summary passes build their lists in loops. They are
methods with loop invariants, each proved equal to a specification function.
The properties are proved as lemmas about those functions. Title and author
search with nested loops and an early return; they are modelled as recursive
first-match searches.

An empty text has no sentences. The summary then takes the short path
(`metadata_extractor.py:247-250`): it joins nothing and appends `"."`, so the
summary is `"."`. The text "Summary not available." is returned only by the
exception handler (`metadata_extractor.py:287`), which the model leaves out
(`Extractor.EmptyText`, `Summary.SummaryEmptyText`).

## Model

| member | source | states |
|---|---|---|
| Text.Strip | metadata_extractor.py:67-68 | `str.strip()`: no whitespace at either end; the result is a piece of the input made of its characters; an all-whitespace input gives the empty string |
| Text.StripEnds | metadata_extractor.py:67-68 | what `strip()` removes is only whitespace, and only at the two ends: the result is `s[i..j]` with nothing but whitespace before `i` and after `j` |
| Text.Lines | metadata_extractor.py:64 | `split('\n')` gives at least one piece; each piece is newline-free and a piece of the text |
| Text.LinesJoin | metadata_extractor.py:64 | joining the pieces of `split('\n')` with newlines gives the text back |
| Text.JoinParts | metadata_extractor.py:248 | every part of `sep.join(parts)` stands in the joined string |
| Text.ToLower | metadata_extractor.py:259 | `c.lower()` turns a capital into the small letter at the same place in the alphabet and leaves every other character as it is |
| Text.ToLowerSame | metadata_extractor.py:127 | under `re.IGNORECASE` two characters compare equal exactly when they are equal or are the capital and small form of one letter |
| Text.Lower | metadata_extractor.py:259 | `s.lower()` keeps the length and lower-cases each character in place with `ToLower`, leaving no upper-case letter |
| Text.Words | metadata_extractor.py:203 | `str.split()` gives non-empty, whitespace-free words, each a piece of the text |
| Text.WordCount | metadata_extractor.py:307 | the number of words of `split()` is the number of positions holding a non-whitespace character at the start of the text or after a whitespace character |
| Text.WordsCoverText | metadata_extractor.py:307 | the words of `split()` concatenated are exactly the text's non-whitespace characters, in order |
| Seqs.DedupElements | metadata_extractor.py:170 | `list(dict.fromkeys(s))` holds every element of `s` exactly once and nothing else |
| Seqs.DedupOrder | metadata_extractor.py:170 | `dict.fromkeys` keeps elements in the order of their first occurrence |
| Seqs.Take | metadata_extractor.py:170 | `s[:n]`: the first `n` elements, or all of them when there are fewer |
| Seqs.FilterInIndices | metadata_extractor.py:268-271 | a membership filter is the input read at increasing positions, each holding an element of the kept list |
| Seqs.FilterPositionsComplete | metadata_extractor.py:268-271 | every position whose element is in the kept list is among the positions the filter reads |
| Seqs.FilterIn | metadata_extractor.py:268-271 | `[x for x in s if x in keep]` is no longer than `s`, holds only elements of `s` that are in `keep`, and every element of `s` that is in `keep` |
| Seqs.FilterByExact | metadata_extractor.py:245 | a comprehension with a condition is the input read at increasing positions, exactly the positions whose element meets the condition |
| Seqs.SortDescProperties | metadata_extractor.py:264 | the descending sort by key is a permutation with non-increasing keys |
| Seqs.SortDescStable | metadata_extractor.py:218 | the sort inside `most_common` is stable: distinct pairs with equal keys keep their input order |
| Seqs.SortDesc | metadata_extractor.py:264 | the sort keeps the number of pairs; its content and order are stated by `SortDescProperties`, `SortDescStable` and `SortPositions` |
| Seqs.SortPositions | metadata_extractor.py:264 | sorting pairs tagged with their positions: each pair appears exactly once, and pairs with equal keys keep the order of their positions; this is stability over positions, and it holds even when two sentences are alike |
| Seqs.TakeTiesMapped | metadata_extractor.py:264-265 | when the key depends only on the element, an element standing before every occurrence of another element with the same key is among the first `m` after the sort whenever the other is |
| Seqs.Firsts | metadata_extractor.py:265 | `[s[0] for s in ps]`: one first component per pair, in order |
| Seqs.TakeLeftOut | metadata_extractor.py:265 | a pair not among the first `n` of a sorted list means there are `n` of those, none with a smaller key |
| Title.Meaningful | metadata_extractor.py:67-68 | the kept lines are stripped, 11 to 199 characters long, and each is a piece of an input line |
| Title.MeaningfulLines | metadata_extractor.py:64-68 | every meaningful line is stripped, 11 to 199 characters long, newline-free and a piece of the text |
| Title.MeaningfulOrder | metadata_extractor.py:67-68 | the meaningful lines are exactly the stripped lines whose length lies strictly between 10 and 200, in input order |
| Title.MeaningfulLinesOrder | metadata_extractor.py:64-68 | the same over the lines of the text: every line whose stripped length lies strictly between 10 and 200 is kept, stripped, in text order, and no other |
| Title.MeaningfulNone | metadata_extractor.py:67-68 | no line with stripped length strictly between 10 and 200 means no meaningful line |
| Title.LabelGroup | metadata_extractor.py:75 | `^title[:\s]+(.+)$` matches exactly when the line starts with "title" (any case), a `:` or whitespace follows it, and at least 7 characters stand in the line; group 1 is a non-empty suffix of the line, preceded after "title" only by `:` and whitespace, and it takes one separator back only when the separators run to the end |
| Title.TwoPartGroup | metadata_extractor.py:76 | group 1 of pattern 2, when it matches, is a piece of the line |
| Title.TwoPartEnd | metadata_extractor.py:76 | the backtracking search for pattern 2 finds the last position of the mis-encoded separator class up to `j`, or reports that none stands there |
| Title.TwoPartLastSeparator | metadata_extractor.py:76 | pattern 2 matches iff a character of the mis-encoded class stands at neither end; its group is everything before the last such character |
| Title.CapitalisedGroup | metadata_extractor.py:77-82 | group 1 of pattern 3 (any letter under IGNORECASE) is a piece of the line |
| Title.Group | metadata_extractor.py:75-82 | whichever pattern matches, its group is a piece of the line |
| Title.Candidate | metadata_extractor.py:83-87 | a pattern proposes exactly when its group exists and the stripped group is longer than 5, and it proposes the stripped group, a piece of the line |
| Title.FirstCandidate | metadata_extractor.py:81-87 | a title found on one line by the inner loop is longer than 5 and a piece of that line |
| Title.SearchLines | metadata_extractor.py:80-87 | a title found by the nested loops is longer than 5 and a piece of one of the searched lines |
| Title.ArtifactEnd | metadata_extractor.py:92 | a leading `page\s*\d+` or `chapter\s*\d+` ends within the line |
| Title.DropArtifact | metadata_extractor.py:92 | removing a leading "page N" or "chapter N" leaves a piece of the line |
| Title.Fallback | metadata_extractor.py:89-99 | the fallback title is the sentinel or a piece of the first meaningful line longer than 5 |
| Title.ExtractTitle | metadata_extractor.py:64-99 | the title is longer than 5; no meaningful line gives the sentinel; any other title is a newline-free piece of the text |
| Title.FirstCandidateNone | metadata_extractor.py:81-87 | the inner loop finds nothing iff no pattern proposes a title for the line |
| Title.FirstCandidateFirst | metadata_extractor.py:81-87 | the inner loop returns the first pattern's proposal, in pattern order |
| Title.Proposals | metadata_extractor.py:81-87 | the proposals of the three patterns for one line, in pattern order; what the inner loop makes of them is stated by `FirstCandidateNone` and `FirstCandidateFirst` |
| Title.SearchLinesNone | metadata_extractor.py:80-87 | the nested search finds nothing iff no (line, pattern) pair proposes a title |
| Title.SearchLinesFirst | metadata_extractor.py:80-87 | the nested search returns the first proposal in line-then-pattern order |
| Title.LineResults | metadata_extractor.py:80-87 | the inner loop's result for each line, in line order; what the outer loop makes of them is stated by `SearchLinesNone` and `SearchLinesFirst` |
| Title.TitleFromPattern | metadata_extractor.py:80-87 | a proposal on one of the first five meaningful lines, with none earlier in line-then-pattern order, is the title |
| Title.TitleFromFirstLine | metadata_extractor.py:80-97 | with no proposal among the first five lines, the title is the cleaned first meaningful line or the sentinel; later lines are never tried |
| Title.TitleUntitled | metadata_extractor.py:67-71 | no line whose stripped length lies strictly between 10 and 200 gives "Untitled Document" |
| Author.LineEnd | metadata_extractor.py:120-122 | `[^\n]+` runs to the next newline or the end of the text |
| Author.RestOfLine | metadata_extractor.py:120-122 | group `([^\n]+)` after a greedy run that gives back characters is non-empty and newline-free; which piece it is, is in the next row |
| Author.RestOfLineLast | metadata_extractor.py:120-122 | the group exists iff a non-newline character stands after the run's first character and no later than its end; it is the rest of the line from the largest such position |
| Author.TwoNamesEnd | metadata_extractor.py:121-123 | two letter runs of length at least 2 separated by whitespace end after the start |
| Author.LabelAt | metadata_extractor.py:120 | `author[:\s]+([^\n]+)` at a position yields a non-empty group when it matches |
| Author.ByAt | metadata_extractor.py:121 | `by\s+([A-Z][a-z]+\s+[A-Z][a-z]+)` at a position yields a non-empty group when it matches |
| Author.WrittenByAt | metadata_extractor.py:122 | `written\s+by\s+([^\n]+)` at a position yields a non-empty group when it matches |
| Author.NameLineAt | metadata_extractor.py:123 | the own-line name pattern at a line start yields a non-empty group when it matches |
| Author.MatchAt | metadata_extractor.py:120-123 | each of the four patterns at a position yields a non-empty group when it matches |
| Author.Matches | metadata_extractor.py:127 | the match attempt at every position of the text, in order; `FirstMatchNone` and `FirstMatchLeftmost` state what `findall(...)[0]` takes from them |
| Author.FirstMatch | metadata_extractor.py:127-128 | `findall(...)[0]` is non-empty when present |
| Author.FirstMatchNone | metadata_extractor.py:127-128 | `findall` is empty iff the pattern matches at no position |
| Author.FirstMatchLeftmost | metadata_extractor.py:127-129 | the first `findall` element is the match at the leftmost matching position |
| Author.Clean | metadata_extractor.py:131 | `re.sub(r'[^a-zA-Z\s.]', '', s)` is never longer than `s`, holds only ASCII letters, whitespace and periods, and keeps every such character of `s` |
| Author.CleanOrder | metadata_extractor.py:131 | the cleaned string is `s` read at increasing positions, exactly the positions holding an ASCII letter, whitespace or a period: order and multiplicity are kept |
| Author.Candidate | metadata_extractor.py:128-133 | a pattern yields exactly when it has a first match whose stripped, cleaned form has length 4 to 49, and it yields that form, made only of name characters |
| Author.TryPatterns | metadata_extractor.py:126-134 | whatever the loop over the patterns yields has length 4 to 49 and only name characters |
| Author.ExtractAuthor | metadata_extractor.py:126-137 | the author is "Unknown Author" or 4 to 49 ASCII letters, whitespace and periods |
| Author.TryPatternsNone | metadata_extractor.py:126-134 | the loop yields nothing iff no pattern yields a candidate |
| Author.TryPatternsFirst | metadata_extractor.py:126-134 | the loop yields the candidate of the first pattern that has one |
| Author.AuthorFromPattern | metadata_extractor.py:126-134 | the first pattern, in the order Label, By, WrittenBy, NameLine, whose match survives the length check decides the author; a failing pattern falls through |
| Author.AuthorUnknown | metadata_extractor.py:136-137 | no acceptable candidate gives "Unknown Author" |
| Dates.NumericAt | metadata_extractor.py:157-159 | a numeric date shape matches exactly its fixed number of characters and reports them |
| Dates.MonthAt | metadata_extractor.py:160-161 | the month alternation matches, ignoring case, one of the twelve month names at the position, and its length is that name's; no match means that no month name stands there |
| Dates.DayEnd | metadata_extractor.py:160-161 | `\d{1,2}` takes one or two digits, two whenever two stand there; no digit at the position means no match |
| Dates.YearEnd | metadata_extractor.py:160-161 | `\s+\d{4}\b` takes at least one whitespace character and then four digits that end at a word boundary |
| Dates.DayMonthYearAt | metadata_extractor.py:160 | a match of `\b\d{1,2}\s+(Month)\s+\d{4}\b` starts at a word boundary, ends after its start, and reports a month name (ignoring case) that is a non-empty piece of the text |
| Dates.MonthDayYearAt | metadata_extractor.py:161 | a match of `\b(Month)\s+\d{1,2},?\s+\d{4}\b` starts at a word boundary, ends after its start, and reports a month name (ignoring case) that is a non-empty piece of the text |
| Dates.MonthSlice | metadata_extractor.py:160-161 | the text a month match reports is one of the month names, ignoring case, and a non-empty piece of the text |
| Dates.MatchAt | metadata_extractor.py:157-166 | a match of any of the five patterns reports a non-empty piece of the text: the matched characters for patterns 1 to 3, and only a month name for patterns 4 and 5, whose capture group `re.findall` returns |
| Dates.FindAll | metadata_extractor.py:165 | every `findall` result is a non-empty piece of the text; the scan order is in the next two rows |
| Dates.FindAllNone | metadata_extractor.py:166 | `findall` from a position is empty iff the pattern matches at no position from there on |
| Dates.FindAllLeftmost | metadata_extractor.py:166 | `findall` reports the match at the leftmost matching position first and resumes the scan where that match ends |
| Dates.FoundBy | metadata_extractor.py:164-167 | everything collected by the loop is a non-empty piece of the text |
| Dates.AllFound | metadata_extractor.py:164-167 | all matches of the five patterns, in pattern order, are non-empty pieces of the text |
| Dates.DatesOf | metadata_extractor.py:170 | `list(dict.fromkeys(found_dates))[:5]` has at most five dates; the rest is stated by `DatesProperties` and `DatesComplete` |
| Dates.ExtractDates | metadata_extractor.py:164-172 | the loop's result is the deduplicated, five-capped list: at most 5, no duplicates, every date a pattern match and a piece of the text |
| Dates.DatesProperties | metadata_extractor.py:164-170 | at most 5 distinct dates, a prefix of the deduplicated matches, in first-occurrence order among all matches in pattern order |
| Dates.DatesComplete | metadata_extractor.py:170 | a matched date is left out only when five distinct dates occurring earlier were kept |
| Keywords.Sanitise | metadata_extractor.py:198-200 | a character after `lower()` and the `re.sub` is lower-case and in `[\w\s.]`; a character of that class is kept, lower-cased; any other character becomes a space |
| Keywords.CleanText | metadata_extractor.py:198-200 | the cleaned text has the length of the original, no upper-case letter and only `[\w\s.]` characters; each such character of the original stays at its position, lower-cased, and every other character becomes a space |
| Keywords.Candidates | metadata_extractor.py:206-212 | every kept token is a candidate (longer than 3, not a stop word, not numeric, alphabetic) and every candidate token is kept; order and multiplicity are in the next rows |
| Keywords.CandidatesFilter | metadata_extractor.py:206-212 | the append loop builds the same list as filtering the tokens by the candidate condition |
| Keywords.CandidatesOrder | metadata_extractor.py:206-212 | the kept tokens are the tokens read at increasing positions, exactly the positions holding a candidate, so order and repetitions are kept |
| Keywords.CandidatesCount | metadata_extractor.py:206-215 | the `Counter` count of a word over the kept tokens is its count among all tokens when it is a candidate, and 0 otherwise |
| Keywords.ExtractKeywords | metadata_extractor.py:196-222 | the loop and tally give the specified keywords: at most `n`, each a counted word seen more than once |
| Keywords.TokensLower | metadata_extractor.py:198-203 | no token of the cleaned text has an upper-case letter |
| Keywords.CounterItemsProperties | metadata_extractor.py:215 | the `Counter` holds each distinct word once with its number of occurrences, in first-seen order |
| Keywords.CounterItems | metadata_extractor.py:215 | the `Counter` items, one per distinct word; that each word appears once with its true count, in first-seen order, is stated by `CounterItemsProperties` |
| Keywords.FrequentPrefix | metadata_extractor.py:219 | in a list sorted by descending count, the words counted more than once form a prefix |
| Keywords.FrequentAll | metadata_extractor.py:219 | when every item is counted more than once, the comprehension keeps all words |
| Keywords.Frequent | metadata_extractor.py:219 | the comprehension keeps at most one word per pair |
| Keywords.FrequentMembers | metadata_extractor.py:219 | the comprehension keeps the word of every pair counted more than once, and only such words |
| Keywords.MostCommonLength | metadata_extractor.py:218 | `most_common(n)` has `n` items, or all of them when fewer, and none when `n <= 0` |
| Keywords.MostCommonTallies | metadata_extractor.py:218 | every item of `most_common(n)` is a word with its true count, and no word is listed twice |
| Keywords.MostCommonOrder | metadata_extractor.py:218 | `most_common(n)` is by non-increasing count, with ties in first-seen order |
| Keywords.MostCommonTop | metadata_extractor.py:218 | a word is left out of `most_common(n)` only when `n` items were listed, none with a smaller count |
| Keywords.MostCommon | metadata_extractor.py:218 | `most_common(n)` is empty when `n <= 0`, and otherwise holds at most `n` items and no more than the `Counter` has |
| Keywords.KeywordsPrefix | metadata_extractor.py:218-219 | the keywords are the words of the leading items of `most_common(n)` counted more than once, and the rest are counted at most once |
| Keywords.KeywordsAreCandidates | metadata_extractor.py:206-219 | every keyword is longer than 3, alphabetic, lower-case, not a stop word, and counted more than once |
| Keywords.KeywordsDistinct | metadata_extractor.py:218-219 | at most `n` keywords (none when `n <= 0`), no two alike |
| Keywords.KeywordsOrder | metadata_extractor.py:215-219 | every keyword is a filtered word; keywords come by non-increasing count, with ties in first-seen order |
| Keywords.KeywordsFrequentItems | metadata_extractor.py:218-219 | the keywords are a prefix of the words of `most_common(n)` and hold every one of its items counted more than once |
| Keywords.KeywordsProperties | metadata_extractor.py:198-219 | at most `n` distinct keywords, all valid counted words seen more than once, by non-increasing count with ties in first-seen order, forming a prefix of `most_common(n)` that holds all its items counted more than once |
| Keywords.KeywordsWhenAllFrequent | metadata_extractor.py:219 | when all of `most_common(n)` is counted more than once, all of it is kept |
| Keywords.KeywordsComplete | metadata_extractor.py:215-219 | a word counted more than once is left out only when `n` keywords, none counted fewer times, were kept |
| Keywords.KeywordsOf | metadata_extractor.py:196-222 | `extract_keywords(text, n)` returns at most `n` keywords, none when `n <= 0`; `KeywordsProperties` and `KeywordsComplete` state the rest |
| Summary.Fragments | metadata_extractor.py:244 | `re.split(r'[.!?]+', s)` gives at least one piece; every piece is free of terminators and a piece of the text |
| Summary.Separators | metadata_extractor.py:244 | the runs of terminators that `re.split` cuts at are one fewer than the pieces, each non-empty and made only of `.`, `!` and `?` |
| Summary.FragmentsWeave | metadata_extractor.py:244 | the pieces of `re.split(r'[.!?]+', s)`, put back together with the terminator runs between them, give `s` |
| Summary.KeepSentencesPieces | metadata_extractor.py:245 | the sentences kept from terminator-free pieces of the text are terminator-free pieces of the text, longer than 20, with no whitespace at either end |
| Summary.KeepSentences | metadata_extractor.py:245 | the comprehension keeps no more pieces than it is given, each longer than 20 characters |
| Summary.KeepSentencesOrder | metadata_extractor.py:245 | the kept sentences are exactly the stripped pieces whose length exceeds 20, in the order of the pieces |
| Summary.Sentences | metadata_extractor.py:244-245 | every sentence is longer than 20, free of `.!?`, a piece of the text, and has no whitespace at either end |
| Summary.SentencesOrder | metadata_extractor.py:244-245 | the sentences are exactly the pieces of `re.split` whose stripped form is longer than 20 characters, stripped, in text order |
| Summary.Scored | metadata_extractor.py:257-261 | there is one score per sentence |
| Summary.Score | metadata_extractor.py:259-260 | a sentence scores at most the number of its lower-cased words |
| Summary.ScoreSentences | metadata_extractor.py:257-261 | the scoring loop pairs every sentence with its keyword-hit count, in order |
| Summary.PickInOrder | metadata_extractor.py:268-273 | the loop with `break` yields the first `m` sentences, in text order, that are in the top list |
| Summary.GenerateSummary | metadata_extractor.py:242-277 | the method gives the specified summary on both paths: all sentences joined when there are at most `m`, otherwise the chosen top-scored ones |
| Summary.SummaryOf | metadata_extractor.py:247-277 | on both paths the summary ends in `"."` |
| Summary.TopSentences | metadata_extractor.py:264-265 | the top list has at most `m` sentences and no more than there are sentences |
| Summary.Chosen | metadata_extractor.py:268-273 | the chosen sentences are at most `m`, each a sentence of the text and in the top list |
| Summary.SummarySubset | metadata_extractor.py:247-273 | on both paths the summary is made only of sentences of the text |
| Summary.SummaryShort | metadata_extractor.py:247-250 | at most `m` sentences: the summary is all of them joined by `". "` plus `"."` |
| Summary.SummaryNoSentences | metadata_extractor.py:244-250 | no fragment longer than 20 characters gives `"."` |
| Summary.SummaryEmptyText | metadata_extractor.py:244-250 | the empty text gives `"."` |
| Summary.ChosenProperties | metadata_extractor.py:268-273 | the picked sentences are at most `m`, all in the top list, in text order at increasing positions; a top sentence is passed over only after `m` earlier ones were picked |
| Summary.SummaryScored | metadata_extractor.py:253-277 | on the scoring path the summary has at most `m` top-scored sentences in text order; a top-scored sentence is omitted only after `m` earlier ones |
| Summary.TopScoresOf | metadata_extractor.py:257-265 | a sentence among the first `m` after the stable sort scores at least as high as any sentence that is not |
| Summary.TopScores | metadata_extractor.py:253-265 | each top sentence of the text scores at least as high as every sentence outside the top |
| Summary.TopByPositions | metadata_extractor.py:257-265 | the top list is the first `m` of the stably sorted (position, score) pairs, each read back as its sentence |
| Summary.TopTiesOf | metadata_extractor.py:257-265 | of two sentences with equal scores, the one standing before every occurrence of the other enters the top list whenever the other does |
| Summary.TopTies | metadata_extractor.py:244-265 | the same for the sentences of a text: among equal scores, the earlier sentence is preferred by the stable sort |
| Extractor.ExtractMetadata | metadata_extractor.py:301-310 | the record holds the six results with the default limits, and every field is in bounds |
| Extractor.MetadataProperties | metadata_extractor.py:301-310 | title longer than 5; author the sentinel or 4–49 characters; at most 5 distinct dates and 10 distinct keywords; summary ends with `"."`; `word_count` is the number of `split()` tokens, which hold exactly the non-whitespace characters; `character_count` is `len(text)` |
| Extractor.EmptyText | metadata_extractor.py:301-310 | the empty text gives "Untitled Document", "Unknown Author", no dates, no keywords, summary `"."`, and 0 words and characters |
| Extractor.EmptyTitle | metadata_extractor.py:70-71 | the empty text has no meaningful line, so its title is the sentinel |
| Extractor.EmptyAuthor | metadata_extractor.py:126-137 | no author pattern matches the empty text |
| Extractor.EmptyDates | metadata_extractor.py:164-170 | the empty text has no dates |
| Extractor.EmptyKeywords | metadata_extractor.py:198-219 | the empty text has no keywords |

## Left out

- `app.py` (the Streamlit interface) and `document_processor.py` (PDF, OCR and DOCX text extraction through foreign libraries) are not part of this model. They are presentation and I/O.
- The extraction timestamp (`datetime.now()`) is wall-clock time. `Extractor.ExtractMetadata` takes it as a parameter.
- Logging is output only and is not modelled.
- The `except` branches are not modelled. They are reachable only on a runtime exception; the modelled code raises none. This includes the summary fallback that uses a looser length filter and the "Summary not available." sentinel.
- Letters, digits, `\w`, `\b`, `str.isalpha`, `str.isdigit`, `str.lower` and `re.IGNORECASE` case folding are modelled on ASCII. Python applies them to all of Unicode, so for example `é` counts as a keyword letter there and `ſ` matches `[A-Z]` under IGNORECASE. Whitespace (`\s`, `strip`, `split`) is the full set of characters `str.isspace` accepts.
- Summary.GenerateSummary: takes `max_sentences` as a non-negative number. A negative value, which Python would read as slicing from the end, is not modelled.
- Seqs.SortDesc: the in-place `list.sort` and the sort inside `Counter.most_common` are modelled as one stable insertion sort on values. In-place update of the list is not modelled.
- Keywords.CounterItems: the `Counter` tally is a library call. It is modelled by what it holds (each distinct word with its count, in first-seen order), not by a counting loop.
- Summary.SummaryScored: states that at most `m` sentences are chosen. That exactly `m` are chosen on the scoring path is not proved.
