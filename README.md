# PETRARCH pipeline core in Dafny

This project models the data pipeline of PETRARCH's driver,
`petrarch/petrarch.py`. The pipeline has three stages:

- **Story reader** (`read_data`). A TABARI-format file is split into records
  at blank lines. The first line of a record is its meta line: its first two
  whitespace-separated tokens are the date and the story id. The rest of the
  record, with every line feed deleted, is the story. Stories go into a dict
  keyed by id. The model is the method `Reader.ReadData`, proved equal to
  the function `Reader.ReadStories`.
- **Work partitioning and merge** (the `parallel_parse` branch of `main`).
  - The chunk size comes from the number of stories and of processors.
  - The story items are cut into contiguous slices, and each slice becomes
    a dict.
  - Every chunk is parsed.
  - The per-chunk results are merged by successive `dict.update` calls.
  - The model is `Parallel.Partition`, `Parallel.Merge` and
    `Parallel.ParallelParse`.
- **Report formatter** (the end of `main`). For each event it writes a rule
  and the event id. For each sentence it writes the labelled fields. A
  missing key is handled by the same two `try`/`except KeyError` levels as
  the program. The model is the method `Report.FormatReport`, proved equal
  to the function `Report.Report`.

Supporting modules:

- `PyStrings` holds the Python 2 string operations the reader uses: `find`,
  slicing with negative bounds, `split(sep)`, `split()` and `replace`.
- `Dicts` holds dict construction from items and successive `update`. In
  both, a later write to a key wins.
- `Wrappers` holds `Option` and `Result`.

An exception that ends the run is an `Err` value. A dict that the program
iterates is an item list in its iteration order. Python 2 does not fix that
order, so every statement about it holds for whatever order is given.

Points of the code's behaviour a reader might not expect:

- **Duplicate ids.** The last record with a given id wins: a later record
  overwrites the entry of an earlier one (`Reader.CorpusLastWins`).
- **Chunk size.** The chunk size is `floor(n / cpus)`, or
  `floor(n / (cpus - 1))` when the remainder against the former is exactly
  one. The chunks are not one per processor: there can be up to
  `2 * cpus - 1` of them (`Parallel.ChunkCountBound`,
  `Parallel.MoreChunksThanProcessors`).
- **Small corpus.** An empty corpus, or one with fewer stories than
  processors, divides by zero (`Parallel.ChunkSize` is `None`).
- **Record without a line feed.** Such a record is accepted: the meta
  string is the record less its last character, and the story is that
  character (`Reader.RecordWithoutNewline`). Only fewer than two meta
  tokens or an unparsable date raise.
- **Trailing blank line.** A file ending in a blank line always fails to
  read, because its last record has no meta token
  (`Reader.TrailingBlankLineFails`).
- **Report failures.** An event without `sent_info` or `sents` aborts the
  run before the report file is written (`Report.ReportOkIff`,
  `Report.ReportErrFirst`).
- **Result keys.** The merged results hold only submitted ids when the
  parser returns keys of its own chunk; nothing in the driver checks this
  (`Parallel.ResultKeysSubmitted` takes it as a hypothesis).

## Model

| member | source | states |
|---|---|---|
| Reader.ReadData | petrarch/petrarch.py:31-46 | The read loop returns exactly `ReadStories(data)`, the first record error or the dict of the records' stories. On success every entry is filed under its own id and its story holds no line feed. |
| Reader.ParseRecord | petrarch/petrarch.py:37-43 | A record parses iff its meta line has at least two tokens and the date parser accepts the first. The id of a parsed record is a whitespace-free token, and its story holds no line feed. |
| Reader.StoryString | petrarch/petrarch.py:40 | The story text never contains a line feed. |
| Reader.RecordLayout | petrarch/petrarch.py:37-40 | For a record `meta + "\n" + body`: the meta string is `meta`, and the story is `body` with its line feeds deleted. The record's outcome is the first-token date and the second-token id, with tokens after the second ignored. Fewer than two tokens give `TooFewMetaTokens`; an unparsable date gives `UnparsableDate`. |
| Reader.RecordWithoutNewline | petrarch/petrarch.py:37-40 | With no line feed, `find` gives -1: the meta string is the record less its last character, and the story is that last character. |
| Reader.EmptyRecordFails | petrarch/petrarch.py:37-38 | An empty record has no meta tokens and raises. |
| Reader.EmptyFileFails | petrarch/petrarch.py:32-38 | An empty file is one empty record, so reading it raises. |
| Reader.TrailingBlankLineFails | petrarch/petrarch.py:33-39 | A file ending in a blank line raises whatever precedes it: its last record is empty or a lone line feed and has no meta token. |
| Reader.LastRecordOfBlankEnd | petrarch/petrarch.py:33 | `split('\n\n')` of a text ending in a blank line has an empty or a lone-line-feed last part. |
| Reader.BlankRecordFails | petrarch/petrarch.py:37-38 | An empty record and a lone line feed both fail to unpack two meta tokens. |
| Reader.ParseAllOk | petrarch/petrarch.py:33-44 | The read over the records' outcomes succeeds iff every outcome is a story. The stories then come out in record order, one per record. |
| Reader.ParseAllErr | petrarch/petrarch.py:34-39 | A failed read reports the error of the first record that fails, and every record before it parses. |
| Reader.ParseAllOkAt | petrarch/petrarch.py:34-44 | A record that parses after a clean prefix adds its story behind the stories read so far. |
| Reader.ParseAllFailsAt | petrarch/petrarch.py:34-39 | The first record that raises decides the result of the whole read, whatever records follow. |
| Reader.ParseAllErrSticks | petrarch/petrarch.py:34-39 | Once a prefix of the records has raised, further records do not change the outcome. |
| Reader.StoriesOfRecords | petrarch/petrarch.py:33-44 | When every record parses, the read succeeds with one story per record, in record order. |
| Reader.KeysOfStories | petrarch/petrarch.py:42-44 | The dict built from the stories has exactly the set of their ids as keys. |
| Reader.IdsMatchKeys | petrarch/petrarch.py:42-44 | Every entry of the dict is filed under the id it carries, and its story has no line feed. |
| Reader.CorpusKeys | petrarch/petrarch.py:33-44 | When every record parses, the dict's keys are exactly the set of the records' ids: one entry per distinct id. |
| Reader.CorpusLastWins | petrarch/petrarch.py:42-44 | A record that no later record overrides supplies the entry for its id, so among records sharing an id the last one wins. |
| Reader.RecordOfWords | petrarch/petrarch.py:37-40 | A record `<date> <id>\n<body>` whose date parses yields exactly that date, that id and the body without line feeds. |
| Reader.OneStoryFile | petrarch/petrarch.py:31-46 | A file holding one two-line story reads as a one-entry dict. The story is the two lines run together with nothing between them. |
| Reader.SingleRecordFile | petrarch/petrarch.py:31-46 | A file that splits into one record that parses reads as a dict with that one story under its id. |
| Reader.SampleRecordIsWhole | petrarch/petrarch.py:33 | Three lines joined by single line feeds hold no blank line, so `split` keeps them as one record. |
| Reader.SampleBody | petrarch/petrarch.py:40 | Deleting line feeds from two lines joined by one runs the lines together. |
| Reader.SampleStory | petrarch/petrarch.py:18-46 | The TABARI sample story reads as one entry "DEMO-01" with story "...diplomaticties with Gondor.": the line break vanishes with no space. |
| PyStrings.SliceBound | petrarch/petrarch.py:37 | A slice bound is clamped into `0..len`. A non-negative in-range bound is kept, and a negative one counts from the end. |
| PyStrings.PrefixSuffix | petrarch/petrarch.py:37-40 | `s[:i] + s[i:] == s` for every bound `i`, negative included: the meta and story slices lose no text. |
| PyStrings.Find | petrarch/petrarch.py:37 | `find` returns -1 iff the character is absent. Otherwise it returns an index holding the character, with no occurrence before it. |
| PyStrings.IndexOf | petrarch/petrarch.py:33 | The search for a separator returns -1 or an occurrence, and no occurrence lies before the returned index. |
| PyStrings.IndexOfExtend | petrarch/petrarch.py:33 | Text appended after a found separator does not change where the first one is. |
| PyStrings.Split | petrarch/petrarch.py:33 | `split(sep)` always returns at least one part, and no part contains the separator. |
| PyStrings.SplitJoin | petrarch/petrarch.py:33 | Joining the parts of `split(sep)` with `sep` gives the text back. |
| PyStrings.JoinSplit | petrarch/petrarch.py:33 | Splitting parts joined by `sep` gives the parts back, when no separator straddles a part boundary and the last part has none. |
| PyStrings.JoinSplitStep | petrarch/petrarch.py:33 | A part followed by the separator is cut off as the first piece of `split(sep)`. |
| PyStrings.WordEnd | petrarch/petrarch.py:38 | The leading run of non-whitespace ends at the first whitespace character or at the end of the text. |
| PyStrings.Tokens | petrarch/petrarch.py:38 | Every token of `split()` is non-empty and free of whitespace. |
| PyStrings.TokensWord | petrarch/petrarch.py:38 | A word followed by a whitespace character is split off as the first token. |
| PyStrings.TokensJoin | petrarch/petrarch.py:38 | `split()` of words joined by single spaces gives the words back. |
| PyStrings.TokensOfWord | petrarch/petrarch.py:38 | A single whitespace-free word is its own only token. |
| PyStrings.Remove | petrarch/petrarch.py:40 | `replace(c, '')` leaves no `c` behind and never lengthens the text. |
| PyStrings.RemoveAppend | petrarch/petrarch.py:40 | Deleting a character distributes over concatenation. |
| PyStrings.RemoveHead | petrarch/petrarch.py:40 | A leading deleted character contributes nothing. |
| PyStrings.RemoveAbsent | petrarch/petrarch.py:40 | Text without the character is left unchanged. |
| Dicts.FromItemsKeys | petrarch/petrarch.py:241 | `dict(items)` has exactly the keys that occur among the items. |
| Dicts.FromItemsLastWins | petrarch/petrarch.py:44 | An item that no later item overrides gives its key's value. |
| Dicts.FromItemsValue | petrarch/petrarch.py:44 | Every value comes from the last item with its key. |
| Dicts.FromItemsAppend | petrarch/petrarch.py:241 | Building from `a + b` is the dict of `a` updated by the dict of `b`. |
| Dicts.UpdateAllKeys | petrarch/petrarch.py:255-257 | The merge has exactly the union of the parts' keys. |
| Dicts.UpdateAllLastWins | petrarch/petrarch.py:255-257 | A key takes its value from the last part that holds it. |
| Dicts.UpdateAllDisjoint | petrarch/petrarch.py:255-257 | With pairwise-disjoint parts, every part agrees with the merge on its own keys. |
| Dicts.UpdateAllOrderIndependent | petrarch/petrarch.py:255-257 | Two lists holding the same pairwise-disjoint parts, in any order, merge to the same dict. |
| Dicts.UpdateAllAppend | petrarch/petrarch.py:255-257 | Merging `a + b` is the merge of `a` updated by the merge of `b`. |
| Parallel.ChunkSize | petrarch/petrarch.py:235-238 | The formula fails iff `cpus == 0` or there are fewer stories than processors. Otherwise the chunk size lies between `floor(n / cpus) >= 1` and `n`. |
| Parallel.RemainderOneNeedsTwo | petrarch/petrarch.py:235-236 | The `cpus - 1` branch is taken only with at least two processors, so it never divides by zero. |
| Parallel.RemainderOneAdjustment | petrarch/petrarch.py:235-238 | 7 stories on 3 processors give chunks of 3, not 2, hence 3 chunks. |
| Parallel.ChunkCountBound | petrarch/petrarch.py:235-241 | The formula never yields more than `2 * cpus - 1` chunks. |
| Parallel.MoreChunksThanProcessors | petrarch/petrarch.py:235-241 | 7 stories on 4 processors give 7 chunks of one story: more chunks than processors. |
| Parallel.SlicesFlatten | petrarch/petrarch.py:240-241 | The slices laid end to end are the item list: nothing is skipped, repeated or reordered. |
| Parallel.SlicesShape | petrarch/petrarch.py:240-241 | Every slice is non-empty and at most `chunk_size` long, and all but the last have exactly `chunk_size` items. |
| Parallel.SlicesCount | petrarch/petrarch.py:240-241 | There are `ceil(n / chunk_size)` slices. |
| Parallel.ChunksCover | petrarch/petrarch.py:240-241 | Merging the chunk dicts gives the dict of the whole item list. |
| Parallel.ChunksDisjoint | petrarch/petrarch.py:240-241 | Items with distinct keys give chunks with pairwise-disjoint keys. |
| Parallel.ChunksStep | petrarch/petrarch.py:240-241 | The chunks from position `i` are the dict of `items[i:i+size]` followed by the chunks from the end of that slice. |
| Parallel.Partition | petrarch/petrarch.py:233-241 | The chunk loop builds one dict per slice, `ceil(n / chunk_size)` of them. Together they cover the corpus dict, and they are pairwise disjoint when the keys are distinct. |
| Parallel.RunJobs | petrarch/petrarch.py:246-253 | The job loop collects one result per chunk, in submission order: the parse of that chunk (`Dispatch`, which `UpdateAllPointwise`, `ParallelIsWhole` and `ResultKeysSubmitted` reason about). |
| Parallel.Merge | petrarch/petrarch.py:255-257 | The update loop returns the left-to-right merge, whose keys are exactly those found in some partial result. |
| Parallel.ParallelParse | petrarch/petrarch.py:233-257 | The pipeline fails iff the chunk-size formula divides by zero. Otherwise it returns the merge of the parses of the chunks. |
| Parallel.UpdateAllPointwise | petrarch/petrarch.py:246-257 | A story-by-story parse commutes with merging. |
| Parallel.ParallelIsWhole | petrarch/petrarch.py:233-257 | With a story-by-story parser, the chunked run equals parsing the whole corpus at once. |
| Parallel.ResultKeysSubmitted | petrarch/petrarch.py:246-257 | When the parser returns keys of its chunk only, every merged key is a corpus key. |
| Report.FormatReport | petrarch/petrarch.py:274-297 | The nested report loops produce exactly `Report(results)`: the text of every section, or the abort of the first event lacking its `sent_info` or `sents`. |
| Report.AppendSentence | petrarch/petrarch.py:282-297 | The outer `try` appends exactly the sentence's block: the lines up to the first missing outer key. |
| Report.AppendSentences | petrarch/petrarch.py:281-297 | The sentence loop of one event appends exactly the blocks of its sentences, in order. |
| Report.AppendCorefs | petrarch/petrarch.py:288-292 | The inner `try` appends exactly the coreference lines present up to the first missing key. |
| Report.EmptyReport | petrarch/petrarch.py:274-277 | Empty results give an empty report. |
| Report.ReportOkIff | petrarch/petrarch.py:277-281 | The report is produced iff every event has `sent_info` and `sents`. |
| Report.ReportErrFirst | petrarch/petrarch.py:277-281 | A failed report names the first event that lacks `sent_info` or `sents`, and every earlier event has both. |
| Report.ErrorEndsReport | petrarch/petrarch.py:280-281 | An event lacking `sent_info` or `sents` after good ones decides the outcome, whatever follows. |
| Report.ReportAppend | petrarch/petrarch.py:277-279 | The report of two runs of events is the first report followed by the second, or the first error. |
| Report.SectionHeader | petrarch/petrarch.py:278-279 | A section opens with the rule and then the event id line. |
| Report.BlockHeader | petrarch/petrarch.py:283 | Every sentence block opens with its `Sentence <key>:` line, whatever is missing. |
| Report.BlockClosed | petrarch/petrarch.py:284-293 | With word info, parse tree and dependencies present, the block ends with the sentence rule, whatever happens to the coreference lookups. |
| Report.CorefMissNoCorefLines | petrarch/petrarch.py:288-292 | A missing `coref_info`, entry or `corefs` removes the coreference lines and nothing else. |
| Report.CorefTreeMissKeepsCorefs | petrarch/petrarch.py:289-293 | A missing `coref_tree` after present `corefs` drops only the coref-tree line. The `Corefs` line and the rule stay. |
| Report.CompleteBlock | petrarch/petrarch.py:283-293 | A sentence with every key present shows the eight pieces in order: header, word info, parse tree, dependencies, coref info, corefs, coref tree, rule. |
| Report.PartialBlockIsPrefix | petrarch/petrarch.py:282-297 | Text appended before a `KeyError` stays: the block of a sentence lacking outer keys is a prefix of its complete block. It is shorter by at least the coref-info line and the rule. |
| Report.SentencesAppend | petrarch/petrarch.py:281-297 | Sentence blocks follow each other in iteration order. A failed sentence does not stop the next one. |

## Left out

- Command-line parsing (`parse_cli_args`, petrarch/petrarch.py:49-123) and configuration loading (126-159) are argparse and ConfigParser plumbing and are not part of this model.
- `_get_data` (12-15) only joins paths and is not part of this model.
- Date parsing (`dateutil.parser.parse`, 39) is a foreign library. It is the parameter `parseDate`, a function that may fail.
- Reading the input file (32) and writing the report file (299-300) are I/O. The reader takes the file contents as a string, and the formatter returns the text.
- The `pp` job server, `submit` and the blocking `job()` calls (220-231, 246-253) exist for parallelism. Dispatch is a sequential map of an abstract per-chunk `parse` function, so concurrency and job failures are not modelled.
- The external `parse.parse`, `parse.batch_parse` and `postprocess.process` calls (185, 194, 206, 215, 267) are code that is not part of this model.
- The timing and diagnostic `print` statements (243-245, 259-261, 264-266, 268-270, 276, 295-297) produce console output only. The `print` calls in the `except` handler read only keys that exist, so they cannot raise.
- The subcommand dispatch of `main` (162-218, with the `parse` and `batch_parse` branches) is not modelled. It has two defects: `batch_parse` uses an undefined `events`, and an unknown command leaves `results` undefined at 277.
- The input file is read as a Python 2 byte string, but the model treats it as a string of characters. The two differ only where a character takes more than one byte: for a record with no line feed whose last character is non-ASCII, the program's story is that character's last byte, not the whole character as `Reader.RecordWithoutNewline` states.
- `dateutil.parser.parse` returns a datetime that also carries a time of day. `Reader.Date` keeps only the year, month and day, because nothing in the modelled code reads the time.
- `str.format` of a value is taken to be the value's string. A sentence key is its rendering, so integer keys are modelled by their text.
- Parallel.ParallelParse: the item list is `events.items()`, taken as one fixed order. Python 2 does not promise that repeated `items()` calls agree, but the program does not modify the dict between them.
- `tests/test.py` exercises only the external parser and has nothing to model.
