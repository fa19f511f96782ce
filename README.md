# Green Day lyrics preprocessing, modelled in Dafny

This project models the text handling that sits between scraping song pages and
feeding lyrics to the retrieval pipeline of the RGA playground repository:

- `clean_up_lyrics` (src/preprocess_helper.py) turns raw lyrics into single-spaced plain
  text. It is a fixed chain of rewrites: newline to space, `[...]` annotations to `.`,
  non-ASCII runs to a space, special characters deleted, whitespace runs collapsed, `.`
  and whitespace stripped from the ends, `" . "` rewritten to `". "`.
- `remove_duplicate_songs` (src/preprocess_helper.py) keeps the band's own pages and names
  each page after its url. It then walks the rows once, dropping every row whose name
  contains the name of the row last kept.
- `clean_text` and the title normalisation (src/webscrap_helper.py) delete non-ASCII
  characters, delete a fixed list of quote characters, and map `,` to `.`.
- `NLP_pipeline.load_data` (LLM_pipeline.py) rewrites every value of the title-to-lyrics map
  in place: newline to space, then each `[...]` span deleted.

The files:

- `strings.dfy` (module `Strings`) defines the Python string and regular-expression
  primitives as explicit functions over `seq<char>`, with no regex engine. These are
  `str.replace` (`ReplaceAll`), `re.sub` of a character class (`Keep`), `re.sub` of a class
  run (`CollapseRuns`), `str.strip` (`Strip`), the lazy `\[.*?\]` (`CloseIndex`,
  `SubBracketed`) and `re.search` for a pattern whose only metacharacter is `.` (`RegexSearch`).
- `preprocess_helper.dfy`, `webscrap_helper.dfy` and `llm_pipeline.dfy` follow the three
  source files.

`clean_up_lyrics` and `clean_text` are straight-line compositions, so they are functions.
The de-duplication loop, the loop over the quote characters and the map rewrite in
`load_data` are methods with loops. Each is proved against a reference function. The
pipeline object is a class whose `data` map its method overwrites.

Decisions about what the code does:

- `\w` and `\s` are taken over ASCII. `\s` is space, `\t \n \x0b \x0c \r` and `\x1c`–`\x1f`,
  which is also what `str.strip()` removes. On `clean_up_lyrics` this is exact, because
  line 10 has already replaced every non-ASCII character before `\w` and `\s` are used.
- `.` in `\[.*?\]` does not match `\n`, because no DOTALL flag is given. The model keeps
  this. In both callers the newlines are already gone, and the lemmas use that.
- `str.contains` in pandas treats its argument as a regular expression by default. The
  filter at src/preprocess_helper.py:28 is therefore modelled as a regex search. There,
  each `.` of `https://genius.com/Green-day` matches any character but a newline. The
  model proves that any url holding the literal text is kept (`LiteralBandUrlKept`). It
  also exhibits a url without that text that is kept anyway (`WildcardBandUrlKept`).
- The name derivation uses `regex=False`, and each title rewrite replaces a single
  character, which pandas treats literally. All of these are `ReplaceAll`.
- On an empty filtered frame, `iloc[0]` raises `IndexError`. The method returns the result
  `IndexError` in that case; there is no precondition.

## Model

| member | source | states |
|---|---|---|
| Strings.IsSubstring | src/preprocess_helper.py:49 | definition of Python's `in` on strings: the pattern is a prefix of some suffix of the text |
| Strings.RegexSearch | src/preprocess_helper.py:28 | definition of `re.search` for a pattern whose only metacharacter is `.`: some window of the text matches, `.` matching any character but a newline |
| Strings.ReplaceAll | src/preprocess_helper.py:6 | `str.replace` with a replacement no longer than the pattern never lengthens the text |
| Strings.ReplaceAllChars | src/preprocess_helper.py:20 | every character of a `str.replace` result comes from the text or from the replacement |
| Strings.ReplaceAllAbsent | src/preprocess_helper.py:20 | text without an occurrence of the pattern is returned unchanged |
| Strings.ReplaceAllAt | src/preprocess_helper.py:31 | the leftmost occurrence is replaced, the text before it is kept, and rewriting resumes right after it |
| Strings.ReplaceCharAt | src/preprocess_helper.py:6 | replacing one character by one character maps each position, keeping the length |
| Strings.NewlinesJoined | src/preprocess_helper.py:6 | after `replace('\n', ' ')` no newline is left |
| Strings.JoinedSpan | src/preprocess_helper.py:6 | the newline rewrite distributes over a bracketed span and leaves both brackets in place |
| Strings.JoinedAvoids | src/preprocess_helper.py:6 | the newline rewrite introduces no character other than a space |
| Strings.DeleteTrailing | src/preprocess_helper.py:34 | deleting a suffix that occurs nowhere earlier removes just the trailing copy |
| Strings.ReplaceCharConcat | src/webscrap_helper.py:44-48 | deleting or mapping a single character distributes over concatenation |
| Strings.ReplaceCharByNothing | src/webscrap_helper.py:45 | deleting one character keeps exactly the other characters, in order |
| Strings.Keep | src/preprocess_helper.py:12 | filtering by a class keeps only characters of the class and never lengthens |
| Strings.KeepConcat | src/preprocess_helper.py:12 | filtering distributes over concatenation |
| Strings.KeepAll | src/preprocess_helper.py:12 | text made only of kept characters is unchanged |
| Strings.KeepNotInTwice | src/webscrap_helper.py:44-45 | two successive deletions delete the union of the two character sets |
| Strings.TrimStartStops | src/preprocess_helper.py:16-18 | stripping from the front stops at the first character outside the class and keeps everything after it |
| Strings.TrimStart | src/preprocess_helper.py:16-18 | the result is a suffix, everything dropped is strippable, and the first kept character is not |
| Strings.TrimEnd | src/preprocess_helper.py:16-18 | the result is a prefix, everything dropped is strippable, and the last kept character is not |
| Strings.Strip | src/preprocess_helper.py:16-18 | `str.strip`: the result is a slice of the text, everything cut from either end is strippable, and neither end of the result is |
| Strings.StripKeepsClean | src/preprocess_helper.py:16-18 | text whose ends are not strippable is unchanged |
| Strings.CollapseRuns | src/preprocess_helper.py:10-14 | never lengthens; every class character left is the replacement and is not followed by another class character; a non-class first character stays first |
| Strings.CollapseRunsChars | src/preprocess_helper.py:10-14 | every character of the result is the replacement or comes from the text |
| Strings.CollapseRunsNoRuns | src/preprocess_helper.py:10-14 | text whose class characters already stand alone as the replacement is unchanged |
| Strings.CollapseRunsSplit | src/preprocess_helper.py:10-14 | a character outside the class is kept in place and splits the text: each side is collapsed on its own |
| Strings.CollapseRunsRun | src/preprocess_helper.py:10-14 | a non-empty text made only of class characters becomes exactly one replacement character |
| Strings.CloseIndex | src/preprocess_helper.py:8 | the lazy `.*?\]` ends at the first `]` with no `]` or newline before it; it fails only if each `]` has a newline before it |
| Strings.SubBracketed | src/preprocess_helper.py:8 | definition of the lazy `re.sub(r'\[.*?\]', rep, s)`: scanning left to right, each `[` whose first following `]` comes before any newline starts a span that is replaced with its brackets |
| Strings.SubBracketedChars | src/preprocess_helper.py:8 | every character of the result comes from the text or from the replacement |
| Strings.SubBracketedShorter | src/preprocess_helper.py:8 | a replacement of at most two characters never lengthens the text |
| Strings.SubBracketedNoOpen | src/preprocess_helper.py:8 | text without `[` is unchanged |
| Strings.SubBracketedClosesAll | src/preprocess_helper.py:8 | on newline-free text, no `[` has a `]` anywhere after it in the result |
| Strings.SubBracketedSpan | src/preprocess_helper.py:8 | text before the first `[` is kept, the leftmost-shortest span with its brackets becomes the replacement, and the rest is rewritten in turn |
| Strings.SubBracketedPrefix | src/preprocess_helper.py:8 | text before the first `[` is copied to the result |
| Strings.SubBracketedOpening | src/preprocess_helper.py:8 | a text opening with a complete span has that span replaced |
| Strings.CloseAfter | src/preprocess_helper.py:8 | the span closes at the first `]` when no newline comes before it |
| PreprocessHelper.TrimmedLyrics | src/preprocess_helper.py:6-18 | definition of the first seven rewrites of `clean_up_lyrics`, in source order; its properties are `TrimmedLyricsShape` and `CleanUpLyricsShorter` |
| PreprocessHelper.CleanUpLyrics | src/preprocess_helper.py:4-22 | definition of `clean_up_lyrics`: the seven rewrites followed by `replace(' . ', '. ')`; its properties are the `CleanUpLyrics…` lemmas below |
| PreprocessHelper.BracketRewriteClosesAll | src/preprocess_helper.py:6-8 | after the bracket rewrite, no `[` has a `]` anywhere after it |
| PreprocessHelper.CollapsedSpacesShape | src/preprocess_helper.py:12-14 | after special characters are deleted and whitespace collapses, only the output alphabet is left, with single spaces |
| PreprocessHelper.StripShape | src/preprocess_helper.py:16-18 | stripping keeps the output alphabet and single spacing |
| PreprocessHelper.TrimmedLyricsShape | src/preprocess_helper.py:6-18 | before the last rewrite the text has the output alphabet, single spaces, no whitespace at either end, and is no longer than the input |
| PreprocessHelper.SpacedDotRewrite | src/preprocess_helper.py:20 | rewriting `" . "` to `". "` keeps single spacing and keeps the first and last characters when they are not spaces |
| PreprocessHelper.SpacedDotAlphabet | src/preprocess_helper.py:20 | rewriting `" . "` to `". "` keeps the output alphabet |
| PreprocessHelper.CleanUpLyricsAlphabet | src/preprocess_helper.py:10-14 | every output character is an ASCII letter, digit, `_`, space, `.` or `,` |
| PreprocessHelper.CleanUpLyricsSpacing | src/preprocess_helper.py:6-20 | the only whitespace in the output is `' '`, including no newline, and never two spaces in a row |
| PreprocessHelper.CleanUpLyricsTrimmed | src/preprocess_helper.py:18-20 | the output has no whitespace at either end |
| PreprocessHelper.CleanUpLyricsShorter | src/preprocess_helper.py:6-20 | the output is no longer than the input |
| PreprocessHelper.PlainTextFacts | src/preprocess_helper.py:4-22 | plain text has nothing any of the rewrites would act on |
| PreprocessHelper.CleanUpLyricsKeepsPlainText | src/preprocess_helper.py:4-22 | word characters and commas in single-space-separated groups, with no space at either end, are returned unchanged |
| PreprocessHelper.BandRows | src/preprocess_helper.py:28 | a row is kept exactly when it is a row of the frame whose url the pattern matches |
| PreprocessHelper.IsBandUrl | src/preprocess_helper.py:28 | definition of the filter: a regex search for `https://genius.com/Green-day` in the url |
| PreprocessHelper.BandRowsConcat | src/preprocess_helper.py:28 | the filter works row by row: filtering a concatenation concatenates the filtered parts |
| PreprocessHelper.BandRowsSubsequence | src/preprocess_helper.py:28 | the filter keeps the original order |
| PreprocessHelper.LiteralBandUrlKept | src/preprocess_helper.py:28 | every url containing `https://genius.com/Green-day` passes the filter |
| PreprocessHelper.WildcardBandUrlKept | src/preprocess_helper.py:28 | a url without that text passes too, because the pattern's `.` is a wildcard |
| PreprocessHelper.SongName | src/preprocess_helper.py:31-36 | the derived name is no longer than the url |
| PreprocessHelper.SongNameOfSlug | src/preprocess_helper.py:31-36 | prefix plus a slug free of the four deleted strings is named by the slug |
| PreprocessHelper.SongNameOfPage | src/preprocess_helper.py:31-36 | the usual page url, prefix + slug + `-lyrics`, is named by the slug when the slug has no `:` and none of the three suffixes |
| PreprocessHelper.StripBandPrefix | src/preprocess_helper.py:31 | the band prefix at the front of a url that does not contain it again is deleted and the rest kept |
| PreprocessHelper.WithSongNames | src/preprocess_helper.py:31-36 | adding the column keeps the number of rows |
| PreprocessHelper.WithSongNamesAt | src/preprocess_helper.py:31-36 | row i of the named frame is row i of the frame plus the name derived from its url |
| PreprocessHelper.LastKept | src/preprocess_helper.py:45-53 | definition of `row_to_keep` after step i: the first name, then the name of row i when it is not dropped and the previous value otherwise |
| PreprocessHelper.Dropped | src/preprocess_helper.py:49-50 | definition of the rows appended to `to_remove`: row i > 0 whose name contains `row_to_keep` as it was after step i - 1 |
| PreprocessHelper.DroppedByLatestSurvivor | src/preprocess_helper.py:46-53 | when the rows after a kept row j up to row i were all dropped, row i+1 is dropped exactly when row j's name occurs in its name, and otherwise becomes the last kept row |
| PreprocessHelper.Survivors | src/preprocess_helper.py:46-56 | the rows not dropped are rows of the frame, at most as many |
| PreprocessHelper.DropIndices | src/preprocess_helper.py:56 | definition of `df[~df.index.isin(to_remove)]` from row j on: the rows whose index is not listed, in order, at most as many as remain |
| PreprocessHelper.DropIndicesAreSurvivors | src/preprocess_helper.py:56 | removing the listed indices leaves exactly the rows not dropped, in order |
| PreprocessHelper.NamedBandRows | src/preprocess_helper.py:28-36 | every remaining row is a band page whose name is derived from its url |
| PreprocessHelper.RemoveDuplicateSongs | src/preprocess_helper.py:26-63 | `IndexError` exactly when no row passes the filter; otherwise the rows not dropped, in order, starting with the first filtered row, each a band page named after its url |
| PreprocessHelper.SurvivorsSubsequence | src/preprocess_helper.py:42-58 | the output is an order-preserving subsequence of the filtered rows |
| PreprocessHelper.LastKeptIsLatestSurvivor | src/preprocess_helper.py:45-53 | `row_to_keep` is the name of the most recent row not dropped |
| PreprocessHelper.LastKeptStays | src/preprocess_helper.py:46-53 | while the rows after a kept row are dropped, `row_to_keep` stays that row's name |
| PreprocessHelper.NextSurvivorDiffers | src/preprocess_helper.py:46-56 | the next row kept does not contain the name of the kept row before it |
| PreprocessHelper.SurvivorsAdjacentDistinct | src/preprocess_helper.py:46-56 | of two adjacent output rows, the earlier name never occurs in the later one |
| WebscrapHelper.CleanText | src/webscrap_helper.py:6-7 | the output is pure ASCII and no longer than the input |
| WebscrapHelper.CleanTextConcat | src/webscrap_helper.py:7 | cleaning distributes over concatenation |
| WebscrapHelper.CleanTextKeepsAscii | src/webscrap_helper.py:7 | exactly the non-ASCII characters are deleted and the rest keep their order |
| WebscrapHelper.CleanTextOfAscii | src/webscrap_helper.py:7 | ASCII-only input is unchanged |
| WebscrapHelper.CleanTextIdempotent | src/webscrap_helper.py:7 | cleaning twice is cleaning once |
| WebscrapHelper.TitleReference | src/webscrap_helper.py:41-54 | a normalised title is no longer than the title, is ASCII, and holds no quote character and no `,` |
| WebscrapHelper.TitleReferenceAt | src/webscrap_helper.py:48-54 | position by position, a normalised title is the kept ASCII non-quote characters with `,` turned into `.` |
| WebscrapHelper.TitleRewritesOneChar | src/webscrap_helper.py:44-54 | the three rewrites applied to one character |
| WebscrapHelper.TitleRewritesMatchReference | src/webscrap_helper.py:44-54 | quote deletion, then `,` to `.`, then `clean_text` equals the reference |
| WebscrapHelper.QuoteStep | src/webscrap_helper.py:44-45 | each pass of the quote loop deletes one more quote character |
| WebscrapHelper.NormaliseTitle | src/webscrap_helper.py:41-54 | the loop over the quote characters and the two rewrites after it compute the reference normalisation |
| LlmPipeline.StripAnnotations | LLM_pipeline.py:34-36 | definition of one value's rewrite: newline to space, then every lazy `[...]` span deleted; its properties are the lemmas below |
| LlmPipeline.StripAnnotationsNoNewline | LLM_pipeline.py:34 | no rewritten value contains a newline |
| LlmPipeline.StripAnnotationsNoBracketPair | LLM_pipeline.py:35-36 | no rewritten value has a `[` with a `]` anywhere after it |
| LlmPipeline.StripAnnotationsSpan | LLM_pipeline.py:34-36 | a span opened at the first `[` and closed at the first `]` after it is deleted with its brackets, even when it crosses line breaks; the text before it only has its newlines joined, and the rest is rewritten in turn |
| LlmPipeline.StripAnnotationsOfLine | LLM_pipeline.py:34-36 | on a single line only the bracket rewrite acts |
| LlmPipeline.NoNewlineUnjoined | LLM_pipeline.py:34 | text without a newline is untouched by the newline rewrite |
| LlmPipeline.StripAnnotationsUnchanged | LLM_pipeline.py:34-36 | a value with neither `\n` nor `[` is unchanged |
| LlmPipeline.StripAnnotationsShorter | LLM_pipeline.py:34-36 | no value grows |
| LlmPipeline.NlpPipeline.LoadData | LLM_pipeline.py:29-36 | the key set is unchanged and every key maps to its loaded value rewritten |

## Left out

- Reading the JSON file in `load_data` (`load_json`, src/helper.py): `LoadData` takes the already-loaded map as a parameter.
- The order in which `load_data` visits the keys: each key is rewritten independently, so the order does not affect the result.
- `NLP_pipeline.__init__` and everything after `load_data` in LLM_pipeline.py: document stores, embedders, retrievers, readers, prompt builders and the Groq generator. This is third-party models and floating-point embeddings.
- The copies of the `load_data` transform in qa_pipeline.py and rag.py: they are the same two rewrites that `StripAnnotations` models.
- HTTP and HTML work: `get_from_genius`, `get_artist_id`, the page fetch and the BeautifulSoup table parsing in `scrap_wiki_for_songnames`, and extract_songtexts.py. This is network I/O and foreign library calls. The title normalisation is modelled on one title string.
- pandas mechanics: index resets, `.loc` column assignment, the discarded `to_string`, and `NaN` cells, which `str.contains` would turn into a non-boolean mask. Frames are sequences of records.
- The `verbose` prints and the final message of `remove_duplicate_songs`: console output only.
- Strings.ReplaceAll: requires a non-empty pattern. Python's insertion behaviour for an empty pattern is not modelled; every call in the source uses a non-empty literal.
- Strings.RegexSearch: models only patterns whose sole metacharacter is `.`, which is all the filter pattern uses.
- `\w` and `\s` on non-ASCII characters: they cannot reach those classes in `clean_up_lyrics`, because line 10 removes non-ASCII characters first.
