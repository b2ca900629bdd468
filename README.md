# postAutomation: the text pipeline behind the blog generator

`postAutomation.py` is a Streamlit front end that asks a language model for a
Markdown blog post on a topic and category, and then files the result. This
project models and proves the deterministic text pipeline inside it.

- `make_prompt` fills the `<<TOPIC>>` and `<<CATEGORY>>` placeholders of the
  user's template, with the fixed exemplar appended. The batch path rewrites
  `<<KEYWORD>>` in each row's topic.
- `extract_tags` scans the reply for hashtags, drops one `#`, deduplicates
  through a set, keeps the tags longer than 3 characters and cleans the joined
  list.
- `generate_blog` normalises the reply. A list of content blocks is joined
  with spaces. The stripped text loses its first line and is glued after the
  front-matter header `---\ntitle:  "<topic>"\n---`.
- The file name is the previous calendar day as `YYYY-MM-DD`, a `-`, the
  lower-cased topic words joined by `-`, and `.md`. The batch archive is named
  `YYYY-MM-DD-blog-files.zip`.
- `save_blog_post` appends one record to the session's `blog_posts` catalog
  and mirrors it to the local file. `load_blog_posts` falls back to an empty
  catalog.
- The batch loop collects one file name per row and reports progress
  `(i+1)/total`.

Modules follow the pipeline's parts:
- `Text`: the Python `str` primitives, ASCII only.
- `Prompt`: placeholder substitution.
- `Tags`: `extract_tags`.
- `Normalize`: the reply's text and the header.
- `Dates`: the calendar and `strftime`, with Python's `date.toordinal` day
  numbers as an independent reference.
- `Filenames`: the names of posts and of the archive.
- `Catalog`: a `Session` class holding the session state and the local file.
- `Pipeline`: `generate_blog` and the batch loop.
- `Wrappers`: the `Option` type shared by the date parser and the session state.

External parts are inputs:
- The language model is a function from prompt to `Response`.
- The quality evaluation is a function from the text to a score and feedback.
- Each call of `generate_blog` takes the two clock readings the code makes, as
  `Readings`.

`set` iteration order is unspecified. `Tags.ExtractTags` therefore promises
only that its result is the tag list of *some* duplicate-free enumeration of
the candidate set (`Tags.IsExtraction`). The order-independent facts are
proved about every such enumeration.

## Model

| member | source | states |
|---|---|---|
| Text.ReplaceAll | postAutomation.py:60 | the definition of `str.replace`, one leftmost, non-overlapping scan; pinned by Text.ReplaceIsJoinOfSplit, Text.ReplaceLength and Text.ReplaceAbsent |
| Text.SplitOn | postAutomation.py:207 | the definition of `str.split(sep)` by the same scan; at least one part; pinned by Text.JoinSplit and Text.SplitJoin |
| Text.JoinWith | postAutomation.py:202 | the definition of `sep.join(parts)`; inverse of Text.SplitOn by Text.JoinSplit and Text.SplitJoin |
| Text.Strip | postAutomation.py:207 | the definition of `strip()` as `lstrip` then `rstrip`; Text.StripShape fixes the result |
| Text.Lower | postAutomation.py:212 | ASCII `lower()`: same length, no upper-case letter left, each upper-case letter moved to its lower-case letter (code + 32), every other character kept, whitespace where it was |
| Text.DropLast | postAutomation.py:48 | `[:-1]` of the empty string is empty; otherwise the result followed by the string's last character is the string |
| Text.StripShape | postAutomation.py:48 | `strip()` gives a slice of its input that neither starts nor ends with whitespace |
| Text.ReplaceIsJoinOfSplit | postAutomation.py:60 | `s.replace(p, r)` equals `r.join(s.split(p))`: one leftmost, non-overlapping scan |
| Text.ReplaceLength | postAutomation.py:60 | a replace changes the length by `len(r) - len(p)` per occurrence found |
| Text.ReplaceAbsent | postAutomation.py:60 | a string without the pattern is unchanged by replace and splits into itself |
| Text.JoinSplit | postAutomation.py:207 | `sep.join(s.split(sep)) == s` |
| Text.SplitJoin | postAutomation.py:207 | splitting a join of at least one part gives back the parts when no part holds the separator's first character (with no parts the split is `[""]`) |
| Text.SplitWords | postAutomation.py:212 | `split()` yields non-empty words without whitespace |
| Text.SplitWordsOfJoin | postAutomation.py:212 | `" ".join(ws).split() == ws` for non-empty words without whitespace |
| Prompt.MakePrompt | postAutomation.py:58-63 | the definition: every `<<TOPIC>>` replaced when the topic is non-empty, then every `<<CATEGORY>>` when the category is; pinned by the Prompt.MakePrompt lemmas below |
| Prompt.MakePromptWithoutSlots | postAutomation.py:58-63 | a template with neither placeholder is returned unchanged, whatever the values |
| Prompt.MakePromptEmptyTopic | postAutomation.py:59-62 | an empty topic leaves every `<<TOPIC>>`; only `<<CATEGORY>>` is replaced |
| Prompt.MakePromptEmptyCategory | postAutomation.py:59-62 | an empty category leaves every `<<CATEGORY>>`; with both values empty the template is returned |
| Prompt.MakePromptPieces | postAutomation.py:58-63 | with both values non-empty, the template is cut at every `<<TOPIC>>` and rejoined with the topic, then cut at every `<<CATEGORY>>` and rejoined with the category |
| Prompt.MakePromptOrder | postAutomation.py:60-62 | example: the topic is substituted first, so a topic that spells `<<CATEGORY>>` is replaced again |
| Prompt.MakePromptFillsAll | postAutomation.py:58-63 | when every `<` of the template opens a placeholder and both values are non-empty and contain no `<`, no `<`, `<<TOPIC>>` or `<<CATEGORY>>` is left |
| Prompt.SlotsOnlyAppend | postAutomation.py:192 | the placeholder condition survives appending the exemplar to the template |
| Prompt.NoLessThanSlotsOnly | postAutomation.py:137-189 | text without `<`, such as the fixed exemplar, meets the placeholder condition |
| Prompt.MakePromptWithExemplarFillsAll | postAutomation.py:192 | for the template followed by an exemplar without `<`: when every `<` of the template opens a placeholder and both values are non-empty and contain no `<`, no `<`, `<<TOPIC>>` or `<<CATEGORY>>` is left in the prompt |
| Prompt.KeywordTopic | postAutomation.py:310 | the rewritten topic is the topic cut at every `<<KEYWORD>>` the scan finds and rejoined with the keyword |
| Prompt.KeywordTopicFillsAll | postAutomation.py:310 | when every `<` of the topic opens a `<<KEYWORD>>` and the keyword (possibly empty) has no `<`, no `<` and no `<<KEYWORD>>` is left |
| Prompt.KeywordTopicWithoutSlot | postAutomation.py:310 | a row topic without `<<KEYWORD>>` is kept as it is |
| Prompt.KeywordTopicEmptyKeywordDeletes | postAutomation.py:310 | for every topic, an empty keyword deletes each `<<KEYWORD>>`: the pieces between them are glued directly and the topic shrinks by 11 characters per placeholder |
| Prompt.KeywordTopicEmptyKeyword | postAutomation.py:310 | example: the keyword rewrite has no emptiness test, so `"<<KEYWORD>> subsidy"` with an empty keyword becomes `" subsidy"` (a blank CSV cell is NaN and does not reach this case; line 310 raises on it) |
| Tags.FindHashtags | postAutomation.py:40-41 | every match of the scan is a run of `#` followed by a non-empty run of word characters; text without `#` has no match |
| Tags.FindHashtagsSkip | postAutomation.py:41 | a stretch of text without `#` holds no match and is passed over |
| Tags.FindHashtagsMatch | postAutomation.py:40-41 | a hashtag not followed by a word character is found whole, and the scan resumes right after it |
| Tags.FindHashtagsFinds | postAutomation.py:40-41 | the first hashtag after a stretch without `#` is found: the matches are that hashtag, then the matches of the rest |
| Tags.FindHashtagsSingle | postAutomation.py:40-41 | `"#abcd"` has the single match `"#abcd"` |
| Tags.FindHashtagsBareRun | postAutomation.py:40 | a run of `#` followed by neither `#` nor a word character, such as a Markdown heading's `##`, is no match and is passed over |
| Tags.FindHashtagsAfterHeading | postAutomation.py:40 | a heading's `#` run, then text without `#`, then a hashtag: the hashtag is the first match and the scan resumes after it |
| Tags.FindHashtagsAmid | postAutomation.py:40-41 | `"x ##ab(1) y"` has the single match `"##ab(1)"`: both `#` and the parentheses are kept |
| Tags.Tail | postAutomation.py:41 | the definition of `w[1:]`: one leading `#` of a match dropped |
| Tags.Candidates | postAutomation.py:41-42 | the definition of `set(hashtags)`: every match with one `#` dropped; shaped by Tags.CandidateShape and Tags.NoHashNoCandidates |
| Tags.CandidateShape | postAutomation.py:41 | a candidate tag (one `#` dropped) is non-empty and has no space or comma |
| Tags.NoHashNoCandidates | postAutomation.py:41 | text without `#` has no candidates |
| Tags.Enumerate | postAutomation.py:42 | `list(set(...))` lists every element of the set exactly once |
| Tags.EnumerationsPermute | postAutomation.py:42 | two iteration orders of one set are permutations of each other |
| Tags.Chunk | postAutomation.py:45-46 | the definition of one loop turn: `w` and `", "` when `len(w) > 3`, nothing otherwise; Tags.AccumulatedSnoc appends it to the loop's text |
| Tags.Accumulated | postAutomation.py:43-46 | the definition of `tag_string` after the loop has visited an order; Tags.AccumulatedSnoc gives one turn, Tags.FinishAccumulated the result |
| Tags.TagList | postAutomation.py:44-48 | the loop-free reference: the cleaned kept tags joined by `", "`; the loop equals it by Tags.FinishAccumulated; Tags.SplitTagList and Tags.TagListEmpty pin it |
| Tags.AccumulatedSnoc | postAutomation.py:44-46 | one turn of the loop appends `w, ` for a tag longer than 3 and nothing otherwise |
| Tags.Kept | postAutomation.py:45 | the tags the length filter keeps are longer than 3 and come from the order |
| Tags.Clean | postAutomation.py:47 | the clean-up keeps only `a-z`, `A-Z`, `,` and space, all of them from its input |
| Tags.Finish | postAutomation.py:47-48 | the clean-up, `strip()` and `[:-1]` give only tag characters, whatever was accumulated |
| Tags.FinishAccumulated | postAutomation.py:44-48 | the loop followed by the clean-up equals the cleaned kept tags joined by `", "` |
| Tags.TagListEmpty | postAutomation.py:44-48 | the result is empty exactly when no tag is kept, or the only kept tag has no letter |
| Tags.ShortTagsKeepNothing | postAutomation.py:45 | when no tag is longer than 3 characters, nothing is kept |
| Tags.TwoLongTags | postAutomation.py:44-48 | two long tags give the first cleaned, `", "`, the second cleaned |
| Tags.DigitsOnlyTag | postAutomation.py:45-48 | example: a digits-only tag passes the filter, is erased, and leaves a `", "` whose place depends on the iteration order |
| Tags.PiecesPermute | postAutomation.py:42-47 | the cleaned kept tags are the same multiset in every iteration order |
| Tags.SplitTagList | postAutomation.py:44-48 | the result splits on `", "` back into its cleaned kept tags |
| Tags.ExtractionsAgree | postAutomation.py:42-48 | any two possible results split into the same multiset of tags, and one is empty exactly when the other is |
| Tags.CandidatesOfMatches | postAutomation.py:41-42 | the set built from the matches with one `#` dropped is the candidate set |
| Tags.FinishedExtraction | postAutomation.py:44-48 | the clean-up of the loop's text is a possible result, has only tag characters, and is empty when every candidate is too short |
| Tags.ExtractTags | postAutomation.py:39-49 | the result has only `a-z`, `A-Z`, `,` and space; it is `""` when no candidate is longer than 3 (so when there is no match); it is the tag list of some iteration order of the candidate set |
| Normalize.RawText | postAutomation.py:196-202 | the definition of the joined body: a single text as it is, a block list joined with single spaces; pinned by Normalize.RawTextSplitsBack and Normalize.FragmentsJoinedFirst |
| Normalize.RawTextSplitsBack | postAutomation.py:198-202 | one or more blocks without spaces split back out of the joined body on `' '` |
| Normalize.MakeHeader | postAutomation.py:66-70 | the header is `---\ntitle:  "`, the topic and `"\n---`, with no trailing newline |
| Normalize.HeaderTitleOf | postAutomation.py:66-70 | the topic reads back out of the header |
| Normalize.HeaderDeterminedByTopic | postAutomation.py:66-70 | two headers are equal exactly when their topics are; category and tags are ignored |
| Normalize.DropTitle | postAutomation.py:207 | the definition of `'\n'.join(body.strip().split('\n')[1:])`; pinned by the Normalize.DropTitle lemmas below |
| Normalize.Output | postAutomation.py:208 | the definition of `header + body`; pinned by Normalize.OutputShape, Normalize.OutputSingleLine and Normalize.OutputIgnoresTags |
| Normalize.DropTitleAt | postAutomation.py:207 | cut at its first newline, the stripped text keeps what follows |
| Normalize.DropTitleAfterNewline | postAutomation.py:207 | with a newline in the stripped text, the body is everything after the first newline |
| Normalize.DropTitleSingleLine | postAutomation.py:207 | a stripped reply without newline leaves an empty body |
| Normalize.DropTitleLines | postAutomation.py:207 | the body's lines are lines 2..n of the stripped text, in order |
| Normalize.DropTitleSuffix | postAutomation.py:207 | the body is a suffix of the stripped reply |
| Normalize.OutputShape | postAutomation.py:206-208 | the saved text is the header glued directly to everything after the stripped reply's first newline |
| Normalize.OutputSingleLine | postAutomation.py:206-208 | a reply without newline after stripping yields exactly the header |
| Normalize.OutputIgnoresTags | postAutomation.py:66-70 | the saved text does not depend on the tags |
| Normalize.FragmentsJoinedFirst | postAutomation.py:198-207 | example: blocks are joined with spaces before the first line is dropped, so a first block without newline is dropped with the start of the second |
| Dates.DaysInMonth | postAutomation.py:210 | a month has 28 to 31 days, 29 exactly for February of a leap year |
| Dates.PreviousDay | postAutomation.py:210 | `now - timedelta(days=1)`: the previous day of a valid date after 0001-01-01 is valid |
| Dates.PreviousDayOrdinal | postAutomation.py:210 | the previous day has the day number one less (Python's `toordinal`) |
| Dates.NextDayOrdinal | postAutomation.py:210 | the next day has the day number one more |
| Dates.OrdinalInjective | postAutomation.py:210 | distinct valid dates have distinct day numbers |
| Dates.NextOfPrevious | postAutomation.py:210 | one day back and one day forward is the identity |
| Dates.PreviousOfNext | postAutomation.py:210 | one day forward and one day back is the identity |
| Dates.PreviousDayExamples | postAutomation.py:210 | month, leap-year (1900, 2000, 2024) and year rollovers |
| Dates.FormatDate | postAutomation.py:211 | `'%Y-%m-%d'` is ten characters with `-` at positions 4 and 7 |
| Dates.FormatMoment | postAutomation.py:80 | `'%Y-%m-%d %H:%M:%S'` is 19 characters starting with the date, with space and colons in place |
| Dates.TwoRoundTrip | postAutomation.py:211 | a two-digit field reads back as its number |
| Dates.FourRoundTrip | postAutomation.py:211 | a four-digit field reads back as its number |
| Dates.ParseFormatDate | postAutomation.py:211 | the formatted date parses back to the date |
| Dates.ParseFormatMoment | postAutomation.py:80 | the formatted time stamp parses back to the moment |
| Dates.FormatDateInjective | postAutomation.py:211 | distinct dates have distinct formatted dates |
| Filenames.Slug | postAutomation.py:212 | the definition of `'-'.join(topic.lower().split())`; pinned by Filenames.SlugShape, Filenames.SlugOfSentence and Filenames.SlugOfBlank |
| Filenames.PostFilename | postAutomation.py:210-212 | the definition: the previous day as `YYYY-MM-DD`, `-`, the slug, `.md`; pinned by Filenames.FilenameParts, Filenames.FilenameEqual and Filenames.ExampleFilename |
| Filenames.ArchiveName | postAutomation.py:342-344 | the definition: the previous day as `YYYY-MM-DD` and `-blog-files.zip`; pinned by Filenames.ArchiveDate |
| Filenames.SlugShape | postAutomation.py:212 | the slug has no whitespace and no upper-case letter |
| Filenames.SlugOfSentence | postAutomation.py:212 | lower-case words separated by single spaces become the same words joined by `-` |
| Filenames.SlugOfBlank | postAutomation.py:212 | a topic of whitespace only has the empty slug |
| Filenames.ExampleFilename | postAutomation.py:210-212 | example: 2024-03-15 and "Example Topic" give `2024-03-14-example-topic.md` |
| Filenames.EmptyTopicFilename | postAutomation.py:212 | an empty topic gives the date, a bare `-` and `.md` |
| Filenames.FilenameParts | postAutomation.py:210-212 | the name splits back into the previous day, `-`, the slug and `.md` |
| Filenames.FilenameEqual | postAutomation.py:210-212 | two names are equal exactly when the dates are and the slugs are |
| Filenames.ArchiveDate | postAutomation.py:342-344 | the archive and the posts of one date share the previous-day prefix, and the archive's date parses back |
| Catalog.Session.LoadBlogPosts | postAutomation.py:128-133 | the catalog becomes the file's records, or empty when there is no file |
| Catalog.Session.SaveBlogPost | postAutomation.py:73-86 | exactly one record is appended at the end (the list is created when absent); earlier records are unchanged; its stamp parses back to the clock reading; the file mirrors the catalog |
| Pipeline.Reply | postAutomation.py:192-202 | the definition of the normalised reply: the model's answer to the filled prompt of template plus exemplar, blocks joined; Pipeline.GenerateBlog's tags and content are stated over it |
| Pipeline.GenerateBlog | postAutomation.py:192-220 | the name comes from the first reading's previous day and the topic; the tags are a possible extraction of the reply; the saved text is the header plus the reply without its first line; the pair `evaluate` gives for that text is returned; one record with these fields and the second reading's stamp is appended |
| Pipeline.ApplyKeywords | postAutomation.py:310 | the rewrite keeps the row count, each category and each keyword, and cuts each topic at its `<<KEYWORD>>` placeholders and rejoins it with the row's keyword |
| Pipeline.ApplyKeywordsFillsAll | postAutomation.py:310 | when every `<` of each topic opens a `<<KEYWORD>>` and no keyword has `<`, no rewritten topic holds `<<KEYWORD>>` |
| Pipeline.ApplyKeywordsWithoutSlots | postAutomation.py:310 | a table without `<<KEYWORD>>` is unchanged |
| Pipeline.Progress | postAutomation.py:340 | after row i the bar receives `(i+1)/n`; the values lie in (0, 1], rise strictly and end at 1 |
| Pipeline.GenerateRow | postAutomation.py:336-338 | one pass of the loop appends one record named after its row and readings, with the row's topic and category |
| Pipeline.GenerateBatch | postAutomation.py:335-344 | exactly one file name per row, in row order, each from its row's topic and readings; one record per row appended in row order under that name; progress `(i+1)/n`; the archive named from the last reading's previous day; with no rows the session is unchanged |

## Left out

- `generate_text` and the Anthropic client (postAutomation.py:23-36) are a network call. Its reply is the function `generate`, giving a single text or a list of blocks.
- `evaluate_blog_quality` (postAutomation.py:215) is called but never defined in the file. It is the function parameter `evaluate`. As written, line 215 raises `NameError` on every call; the model describes the program with `evaluate` supplied.
- The exemplar text of `generate_blog` (postAutomation.py:137-189) is the parameter `exemplar`, appended to the template as line 192 does. It is not reproduced.
- The GitHub uploads (postAutomation.py:89-115), including the fallback from update to create, are network I/O. So is the preview in `main`, which reads the post back from GitHub (postAutomation.py:279-294).
- The JSON writing of `blog_posts.json`, `get_file` (postAutomation.py:52-55) with the download buttons it feeds, the zip archive's contents and `pd.read_csv` are local I/O. The local file is the field `Session.localFile`.
- Catalog.Session.LoadBlogPosts: only a missing file and a readable list of records are modelled. `load_blog_posts` catches only `FileNotFoundError` (postAutomation.py:132). A `blog_posts.json` that exists but that `json.load` (line 131) cannot parse, such as one cut short by an interrupted `json.dump` (lines 85-86), raises `JSONDecodeError` out of `main` (line 224). A file holding valid JSON other than a list loads without error; the first save then raises `AttributeError` at `append` (line 84). `Session.localFile` has no value for such a file.
- `datetime.now()` is not modelled; its readings are inputs. `generate_blog` reads the clock twice, once for the name (line 210) and once in `save_blog_post` (line 80); these are the two `Readings`. The archive name takes one more reading.
- The Streamlit UI in `main` (postAutomation.py:222-397) is presentation, apart from the batch loop, which is modelled.
- Progress is the exact ratio `Fraction(i + 1, n)`, not a float.
- `str.lower`, `str.split`, `str.strip` and the regular-expression classes are ASCII only. Unicode case mapping and whitespace are not modelled.
- Dates.FormatDate: `%Y` is written with four digits for every year. Some C libraries print years below 1000 with fewer digits.
- Dates.PreviousDay: the previous day of 0001-01-01 raises OverflowError in Python. The model excludes it by precondition rather than modelling the exception.
- Pipeline.ApplyKeywords: an uploaded table with a header but no data rows is not modelled as the source behaves. On an empty frame `df.apply(..., axis=1)` (postAutomation.py:310) does not return a column, so assigning it to `df['topic']` raises `ValueError` and the batch never starts. The model gives that table the empty result, and the zero-row clauses of Pipeline.ApplyKeywords and Pipeline.GenerateBatch describe lines 310 and 335-344 in isolation, a state the program does not reach.
- Pipeline.GenerateBatch: every external call returns normally. In the source, `repo.create_file` (postAutomation.py:96-99) raises when a file of the same name exists, for instance a second post on the same topic on the same day. That raise comes after the catalog append and the JSON write (83-86), and it leaves `generate_blog`. The loop (335-340) has no `try`, so the batch stops at that row. One file name per row holds only when no call raises.
- Pipeline.GenerateBlog: `generate` is one fixed function from prompt to reply. The source samples the model at temperature 0.3, so two rows with the same prompt may get different replies. The model gives them the same reply.
- Pipeline.GenerateBatch: the model stops at the archive's name (postAutomation.py:342-344). The generated `.md` posts are sent only to GitHub (`repo.create_file`, lines 96-99) and never written locally, so in the source `myzip.write(f)` (line 347) raises `FileNotFoundError` on the first file name unless a file of that name happens to exist in the working directory; `get_file(filename)` (lines 302 and 395) fails the same way. The contract's `archive` is the name the source computes, not a working archive.
- Pipeline.GenerateBatch: the row index `i` of `df.iterrows()` is taken to be 0..n-1, which holds for a freshly read CSV.
- Pipeline.GenerateBatch: states each appended record's file name, topic and category. Its tags, text and stamp are stated per call by Pipeline.GenerateBlog, not restated in the batch contract.
- Pipeline.GenerateBatch: the `st.write` messages and the per-row score and feedback are presentation and are not kept.
- A missing `topic` or `category` column, or NaN cells, in the uploaded table are not modelled; every row has the three text fields.
