# Transcript QC for a GTF annotation, modelled in Dafny

The QC script reads a GTF annotation and collects the exon lines of every
transcript that carries both a `gene_id` and a `transcript_id`. It tabulates
each transcript's exon count and total spliced length, and keeps the
transcripts whose length and exon count reach two thresholds (inclusive,
200 and 2 by default). A second pass over the same file then writes every
comment line, plus every line whose attribute field names a kept
transcript as `transcript_id "<id>"`.

This project models the four functions that do that work:

- `parse_gtf`
- `compute_stats`
- `filter_transcripts`
- `extract_filtered_gtf`

It also models the data flow of `main` that connects them. The model works
on the file's lines as a `seq<string>`, and each line keeps any terminator
it had.

Modules:

| file | module | models |
|---|---|---|
| `wrappers.dfy` | `Wrappers` | `Option` and `Result` |
| `text.dfy` | `Text` | the Python string operations used: `startswith`, `strip()`, `strip('"')`, `split(sep)`, `split()`, substring `in`, `int()` |
| `sequences.dfy` | `Sequences` | subsequences, distinctness, first occurrences (the insertion order of a `dict`) |
| `gtf_parser.dfy` | `GtfParser` | `parse_gtf`: how each line is classified, the attribute loop, and the accumulation loop with its abort on a fatal line |
| `transcript_stats.dfy` | `TranscriptStats` | `compute_stats`: one row per transcript in key order |
| `transcript_filter.dfy` | `TranscriptFilter` | `filter_transcripts`, including the column lookup of the table it receives |
| `filtered_gtf.dfy` | `FilteredGtf` | `extract_filtered_gtf`: the line selection and its two loops |
| `qc_pipeline.dfy` | `QcPipeline` | `main` without its I/O: parse, summarise, filter, select |

The loops of the source are methods, each proved equal to a function:

- `ParseGtf` is proved equal to `Parse`.
- `ParseAttributes` is proved equal to `Attributes`.
- `ComputeStats` is proved equal to `Summary`.
- `ExtractFilteredGtf` is proved equal to `SelectLines`.
- `MentionsAnyKept` is proved equal to `MentionsKept`.

The properties that matter are then lemmas about those functions. They
relate each function to a second, independent description of its result:

- the parse is described by the classified lines (`AcceptedIds`,
  `ExonsOf`, `GenesOf`);
- string splitting is described by joining (`Join`);
- `int()` is described by formatting (`FormatInt`).

In `parse_gtf`, `int()` on a coordinate and the two-token unpacking of an
attribute segment can raise `ValueError`. The model gives these two
failures as the errors `CoordinateNotInteger` and `MalformedAttribute` of
a `Result`. Both errors carry the index of the line that caused them.

## Model

| member | source | states |
|---|---|---|
| Text.TrimLeft | scripts/qc.py:15 | the result is a suffix of the input; everything dropped is in the stripped set; a non-empty result does not start with one of those characters |
| Text.TrimRight | scripts/qc.py:15 | the result is a prefix of the input; everything dropped is in the stripped set; a non-empty result does not end with one of those characters |
| Text.Trim | scripts/qc.py:23 | the result is a contiguous middle slice of the input; everything cut from either end belongs to the stripped set; a non-empty result neither starts nor ends with a stripped character |
| Text.TrimIdempotent | scripts/qc.py:15 | stripping is idempotent, as Python's `strip` is: a stripped value has nothing left to strip |
| Text.Strip | scripts/qc.py:15-22 | `strip()` is `Trim` over the `isspace` set; `StripShape` states what it leaves, and `TrimIdempotent` that it is idempotent |
| Text.StripShape | scripts/qc.py:15-22 | `strip()` leaves the middle slice of the text once the whitespace at both ends is cut; a non-empty result starts and ends with non-whitespace |
| Text.StartsWith | scripts/qc.py:13 | `s.startswith(p)` holds exactly when `p` is no longer than `s` and equals the first `|p|` characters of `s` |
| Text.Split | scripts/qc.py:15 | `split(sep)` gives at least one part; no part contains the separator; joining the parts with the separator gives back the input |
| Text.SplitJoin | scripts/qc.py:20 | the reverse round trip: splitting the join of separator-free parts returns those parts |
| Text.SplitAppendField | scripts/qc.py:20 | appending a separator and a separator-free field appends exactly one part to the split |
| Text.SplitNoSeparator | scripts/qc.py:20 | text without the separator splits into itself alone |
| Text.Words | scripts/qc.py:22 | every token of `split()` is a non-empty run of non-whitespace; text ending in non-whitespace has at least one token (which tokens is fixed by `WordsOfWord` for a text that starts with a word, `WordsOfSpace` for one that is all whitespace, and `WordsAppendSpace` and `WordsAppendWord` for what follows) |
| Text.WordsUnwords | scripts/qc.py:22 | splitting words joined by single spaces returns those words |
| Text.WordsOfWord | scripts/qc.py:22 | a run without whitespace is its own single token, or no token when empty |
| Text.WordsAppendSpace | scripts/qc.py:22 | appending whitespace adds no token |
| Text.WordsOfSpace | scripts/qc.py:22 | text made of whitespace alone has no tokens |
| Text.WordsAppendWord | scripts/qc.py:22 | appending any non-empty whitespace run and then a non-whitespace run `w` appends `w` as one token, or nothing when `w` is empty; with `WordsOfWord` for a text that starts with a word and `WordsOfSpace` for one that starts with whitespace, this determines `split()` on every text |
| Text.Contains | scripts/qc.py:56-58 | substring `in`: a contained pattern is no longer than the text, the empty pattern is in every text, and a prefix is contained; `ContainsAt` makes it exactly an occurrence at some index |
| Text.ContainsAt | scripts/qc.py:58 | substring `in` holds exactly when the pattern occurs at some index |
| Text.ContainsPrefixOfPattern | scripts/qc.py:56 | text containing `p + q` also contains `p` |
| Text.ParseInt | scripts/qc.py:18 | an accepted field is non-empty and ends in a digit, and a negative value comes only from a `-` field; `ParseIntAccepts` and `ParseFormatInt` say which fields are accepted, `ParseIntRejects` which are not, and `ParseIntSpelling` that nothing else is accepted |
| Text.ParseFormatInt | scripts/qc.py:18 | `int()` reads back every integer written in decimal, negative ones included |
| Text.ParseIntRejects | scripts/qc.py:18 | the empty text, a bare sign, text starting with neither sign nor digit, and text with a non-digit after its first character are not integers |
| Text.ParseIntAccepts | scripts/qc.py:18 | every non-empty digit string is an integer, leading zeros and all, with its decimal value; so is that string after `+`, and after `-` it is the negated value |
| Text.ParseIntExamples | scripts/qc.py:18 | `int()` reads `"+5"` as 5, `"007"` as 7 and `"-05"` as -5 |
| Text.ParseIntSpelling | scripts/qc.py:18 | the converse of `ParseFormatInt`: an accepted field is its value's decimal spelling after an optional sign and leading zeros; a `-` field is never positive, and a `+` or unsigned field never negative |
| Sequences.FirstOccurrences | scripts/qc.py:27 | the insertion order of keys: each distinct element exactly once, and only elements of the input |
| Sequences.FirstOccurrencesOrder | scripts/qc.py:34 | keys come in the order in which they first appear |
| Sequences.SubsequenceLength | scripts/qc.py:43 | a subsequence is no longer than the sequence it comes from |
| Sequences.SubsequenceElements | scripts/qc.py:43 | every element of a subsequence is an element of the sequence |
| GtfParser.Fields | scripts/qc.py:15 | the tab-separated fields of the stripped line: at least one, none containing a tab |
| GtfParser.Segments | scripts/qc.py:20 | the `;`-separated pieces of the stripped attribute field: at least one, none containing `;`; being `Split`, joined by `;` they give the stripped field back |
| GtfParser.Unquote | scripts/qc.py:23 | a non-empty value from `strip('"')` neither starts nor ends with a quote |
| GtfParser.ParseSegment | scripts/qc.py:21-23 | a parsed pair's key is one whitespace-free word, and its value has both outer quotes removed; `SegmentKinds` says when a piece is blank, a pair or malformed |
| GtfParser.SegmentKinds | scripts/qc.py:21-23 | a piece is blank, a pair or malformed exactly as `if item.strip()` and the two-name unpacking decide; a pair is the first token and the second with its quotes stripped |
| GtfParser.BlankPieceSkipped | scripts/qc.py:21 | a piece that is whitespace only is skipped wherever it stands: the dictionary, or the failure, is what the other pieces give |
| GtfParser.QuotedSegment | scripts/qc.py:21-23 | the segment `key "value"`, with or without one leading space, reads as the pair `(key, value)` |
| GtfParser.Attributes | scripts/qc.py:19-23 | the dictionary the attribute loop fills, or failure: it has at most one key per segment; `AttributesFail`, `AttributesKeys` and `AttributesLastWins` say which keys and values |
| GtfParser.AttributesNoneExtends | scripts/qc.py:22 | once a segment has raised, the attribute field fails whatever follows |
| GtfParser.AttributesFail | scripts/qc.py:20-22 | the attribute field fails exactly when some segment is malformed (both directions) |
| GtfParser.AttributesKeys | scripts/qc.py:20-23 | the dictionary has a key exactly when some segment carries it (both directions) |
| GtfParser.AttributesLastWins | scripts/qc.py:23 | a repeated key keeps the value of its last segment |
| GtfParser.AttributeValuesUnquoted | scripts/qc.py:23 | no stored value starts or ends with a quote |
| GtfParser.TwoAttributes | scripts/qc.py:19-23 | `k1 "v1"; k2 "v2";` gives the dictionary `{k1: v1, k2: v2}`, the later key winning if the keys are equal |
| GtfParser.OneUnquotedAttribute | scripts/qc.py:19-23 | `k v;` gives the dictionary `{k: v}` |
| GtfParser.ParseAttributes | scripts/qc.py:19-23 | the attribute loop returns the dictionary `Attributes` defines, or fails exactly where that fails |
| GtfParser.Classify | scripts/qc.py:13-28 | a line is a comment exactly when it starts with `#`; a fatal, accepted or unassigned line is a non-comment exon line of at least nine fields; an accepted line's ids are non-empty; `AcceptedLine` and `ClassifyAccepts` give the accept rule in both directions, `ClassifyMalformed` and `UnassignedExonChangesNothing` the other outcomes of an exon line, and `ReadLine` the order of the tests |
| GtfParser.AcceptedLine | scripts/qc.py:13-28 | an accepted line is a non-comment exon line of at least nine fields with integer coordinates; its recorded gene and transcript are its non-empty `gene_id` and `transcript_id` values; `ClassifyAccepts` states the converse |
| GtfParser.ClassifyAccepts | scripts/qc.py:13-28 | the converse of `AcceptedLine`: a non-comment exon line of at least nine fields with integer coordinates, well-formed attributes and a non-empty `gene_id` and `transcript_id` is accepted, with those ids and its coordinates |
| GtfParser.HasValue | scripts/qc.py:24-26 | the truthiness of `attr_dict.get(key)`: present and non-empty; `ClassifyAccepts`, `AcceptedExonAppends` and `UnassignedExonChangesNothing` state both outcomes of the test |
| GtfParser.ReadLine | scripts/qc.py:13-25 | the loop body's tests, in the source's order, reach the classification `Classify` gives that line |
| GtfParser.Step | scripts/qc.py:18-28 | a line aborts the parse exactly when it is fatal, with an error naming that line; a non-fatal line other than an accepted exon leaves the table unchanged |
| GtfParser.AddExon | scripts/qc.py:27-28 | appending an exon adds the transcript key, last in key order when new and in its place otherwise; it extends only that transcript's list by the exon, and adds the gene |
| GtfParser.OutcomesPrefix | scripts/qc.py:12 | the lines are classified independently: classifying a prefix gives the prefix of the classification |
| GtfParser.AddExonWellFormed | scripts/qc.py:27-28 | appending an exon keeps the table well formed: keys listed once each, exactly the map's keys, and no empty exon list |
| GtfParser.Accumulate | scripts/qc.py:12-28 | a failure names a line that exists and is fatal; `AccumulateFailsAtFirstFatal` makes it the first one, and `AccumulateContents` gives the successful table |
| GtfParser.Parse | scripts/qc.py:7-29 | a failure names a line of the file; `ParseFails` and `ParseContents` state the whole result |
| GtfParser.ParseGtf | scripts/qc.py:7-29 | the loop returns `Parse(lines)`: the table built from the accepted lines, or the error of the first fatal line |
| GtfParser.StepWellFormed | scripts/qc.py:26-28 | one line's step keeps the table well formed |
| GtfParser.AccumulateWellFormed | scripts/qc.py:26-29 | every table a parse returns is well formed |
| GtfParser.Absorb | scripts/qc.py:26-28 | updating the table in place for one non-fatal line gives what one step of the parse gives |
| GtfParser.AcceptedOrder | scripts/qc.py:27 | an accepted line puts a new transcript last in key order and leaves a known one in place, as the first occurrences of the accepted ids do |
| GtfParser.AcceptedExons | scripts/qc.py:27 | an accepted line extends the keys and the transcript's interval list exactly as the accepted lines up to it determine |
| GtfParser.AccumulateContents | scripts/qc.py:12-29 | a successful accumulation holds the transcripts in order of first accepted line, the gene ids of the accepted lines, and for each transcript exactly its accepted intervals in file order |
| GtfParser.ParseContents | scripts/qc.py:7-29 | the same, stated for the lines of the file, together with well-formedness |
| GtfParser.AccumulateFailsAtFirstFatal | scripts/qc.py:18-22 | the accumulation fails exactly when some line is fatal (both directions); the error names the first fatal line and its kind |
| GtfParser.ParseFails | scripts/qc.py:12-22 | a parse fails exactly when some line has a bad coordinate or a malformed attribute; the error's line is the first such line |
| GtfParser.SkippedLineChangesNothing | scripts/qc.py:13-17 | a comment line, a line of fewer than nine fields, or a non-exon line leaves the result unchanged |
| GtfParser.UnassignedExonChangesNothing | scripts/qc.py:24-26 | an exon line without a non-empty `gene_id` and `transcript_id` leaves the result unchanged |
| GtfParser.AcceptedExonAppends | scripts/qc.py:13-28 | after a clean prefix, an exon line that passes every test appends its interval to its transcript's list and adds its gene, exactly as `AddExon` does |
| GtfParser.BadCoordinateAborts | scripts/qc.py:18 | an exon line with a non-integer start or end aborts the parse at that line, whatever follows |
| GtfParser.MalformedAttributeAborts | scripts/qc.py:20-22 | an exon line with integer coordinates and an attribute piece that is not blank and does not split into exactly two tokens aborts the parse at that line, whatever follows |
| GtfParser.ClassifyMalformed | scripts/qc.py:18-22 | an exon line with integer coordinates and an attribute piece that is not blank and not exactly two tokens is classified `BadAttribute` |
| GtfParser.FatalLineAborts | scripts/qc.py:18-22 | any fatal line after a clean prefix aborts the parse there, with the error of its kind |
| TranscriptStats.TotalLength | scripts/qc.py:36 | with `start <= end` in every exon, the summed length is at least the exon count; `TotalLengthAppend` and `TotalLengthSnoc` state the sum |
| TranscriptStats.TotalLengthAppend | scripts/qc.py:36 | the total length of concatenated exon lists is the sum of their totals |
| TranscriptStats.TotalLengthSnoc | scripts/qc.py:36 | appending an exon adds `end - start + 1` to the total |
| TranscriptStats.TotalLengthAtLeastCount | scripts/qc.py:36 | with `start <= end` in every exon, the length is at least the exon count |
| TranscriptStats.RowOf | scripts/qc.py:35-38 | a transcript's row carries its id and its number of intervals, and its length is at least that count when every `start <= end`; `SummaryRowsAt` and `SummaryOfFile` give the length |
| TranscriptStats.Summary | scripts/qc.py:33-38 | one row per listed transcript; `SummaryRowsAt`, `SummaryRows` and `SummaryOfFile` give each row's contents |
| TranscriptStats.ComputeStats | scripts/qc.py:32-39 | the loop returns `Summary(a)`: row `k` is the `k`-th transcript with its exon count and total length |
| TranscriptStats.SummaryRowsAt | scripts/qc.py:34-38 | row `k` holds the `k`-th transcript id, the number of its intervals and their total length |
| TranscriptStats.SummaryRows | scripts/qc.py:34-38 | for a well-formed table: one row per transcript; the rows' ids are exactly the table's keys, each listed once and in key order; each exon count is at least 1 |
| TranscriptStats.SummaryOfFile | scripts/qc.py:7-38 | after a successful parse, the rows traverse the transcripts in order of first accepted line; each row counts and sums exactly its transcript's accepted exon lines |
| TranscriptFilter.FilterTranscripts | scripts/qc.py:42-43 | the kept rows form a subsequence of the table, every kept row passes both thresholds, and every passing row is kept |
| TranscriptFilter.Passes | scripts/qc.py:43 | the mask for one row: `FilterTranscripts` keeps exactly the passing rows, `FilterBoundary` shows both bounds inclusive, and `FilterTwice` and `FilterMonotone` show how thresholds combine |
| TranscriptFilter.FilterAppend | scripts/qc.py:43 | the mask judges rows one at a time: filtering distributes over concatenation, so every copy of a passing row is kept |
| TranscriptFilter.FilterShrinks | scripts/qc.py:43 | no more rows are kept than the table has |
| TranscriptFilter.FilterTwice | scripts/qc.py:43 | filtering twice equals filtering once by the larger of each pair of thresholds |
| TranscriptFilter.FilterMonotone | scripts/qc.py:43 | raising either threshold keeps a subsequence of what the lower thresholds keep |
| TranscriptFilter.FilterBoundary | scripts/qc.py:43 | both comparisons are inclusive: a row exactly at the thresholds is kept, and one unit below either is dropped |
| TranscriptFilter.FrameOf | scripts/qc.py:39 | a table built from row records has the columns `transcript_id`, `exon_count` and `length` when there are rows, and no columns exactly when there are none |
| TranscriptFilter.FilterFrame | scripts/qc.py:43 | filtering the table fails exactly when the `length` or `exon_count` column is missing, and otherwise gives `FilterTranscripts` of its rows |
| TranscriptFilter.FilterFrameAgrees | scripts/qc.py:39-43 | on a non-empty summary, filtering the table gives the kept rows |
| TranscriptFilter.EmptyFrameFilterFails | scripts/qc.py:39-43 | on an empty summary the table has no `length` column, so the filter as written fails where the intended filter returns no rows |
| FilteredGtf.MentionsKept | scripts/qc.py:57-58 | some kept id's `transcript_id "<id>"` occurs in the field; such a field always contains `transcript_id` |
| FilteredGtf.Pattern | scripts/qc.py:58 | the f-string `transcript_id "<tid>"`: `PatternImpliesKey` shows it contains `transcript_id`, and `ClosingQuoteSeparatesIds` that its closing quote keeps one id from matching a longer one |
| FilteredGtf.Selected | scripts/qc.py:49-60 | a line is written exactly when it is a comment, or has at least nine fields and an attribute field that passes the `transcript_id` pre-test and mentions a kept transcript |
| FilteredGtf.SelectLines | scripts/qc.py:46-60 | the written lines are a subsequence of the input, and each one is selected |
| FilteredGtf.SelectLinesComplete | scripts/qc.py:48-60 | every selected input line is written |
| FilteredGtf.SelectLinesAppend | scripts/qc.py:48 | lines are decided one at a time: selection distributes over concatenation |
| FilteredGtf.SelectOne | scripts/qc.py:57-60 | one line is written once if selected, otherwise not at all; matching several kept ids does not repeat it |
| FilteredGtf.CommentsCopied | scripts/qc.py:49-51 | every comment line is copied, whatever is kept |
| FilteredGtf.ShortLinesDropped | scripts/qc.py:52-54 | a non-comment line of fewer than nine fields is never copied |
| FilteredGtf.PatternImpliesKey | scripts/qc.py:56-58 | a field matching some pattern contains `transcript_id`, so the pre-test never rejects a line the patterns accept |
| FilteredGtf.KeyAbsentMentionsNothing | scripts/qc.py:56 | a field without the text `transcript_id` mentions no kept transcript |
| FilteredGtf.ClosingQuoteSeparatesIds | scripts/qc.py:58 | the closing quote of the pattern keeps id `t` from matching a field for a longer id `t + d`; the field for `t` itself matches |
| FilteredGtf.KeySuffixCollision | scripts/qc.py:56-58 | `transcript_id "u"; old_transcript_id "t";` parses to transcript `u`, yet its line is copied when `t` is kept |
| FilteredGtf.UnquotedIdNeverCopied | scripts/qc.py:58 | a line whose field is `transcript_id t;` records transcript `t` on parsing, but is never copied, even when `t` is kept |
| FilteredGtf.MentionsAnyKept | scripts/qc.py:57-60 | the inner loop with its `break` finds a match exactly when some kept id's pattern occurs in the field, in whatever order the set is traversed |
| FilteredGtf.LineWritten | scripts/qc.py:49-60 | the tests of the loop body write a line exactly when it is selected |
| FilteredGtf.ExtractFilteredGtf | scripts/qc.py:46-60 | the loop writes exactly `SelectLines(lines, keep)` |
| QcPipeline.RunQc | scripts/qc.py:92-105 | a run fails exactly when the parse does, with its error; a successful run has one summary row per counted transcript, kept rows forming a subsequence of the summary, and an output forming a subsequence of the input |
| QcPipeline.KeptIds | scripts/qc.py:104-105 | `set(filtered_df['transcript_id'])`: the id of every kept row, and only such ids |
| QcPipeline.RunQcFails | scripts/qc.py:92 | a run fails exactly when some line has a bad coordinate or a malformed attribute (both directions) |
| QcPipeline.RunQcKeptRows | scripts/qc.py:96-102 | the summary has one row per transcript counted; the kept rows are a subsequence of it, no more than the transcript count, each passing both thresholds |
| QcPipeline.RunQcOutputLines | scripts/qc.py:101-105 | the output is a subsequence of the input; each non-comment output line has a ninth field naming a kept, passing transcript of the summary |
| QcPipeline.SelectNothingKept | scripts/qc.py:104-105 | with no transcript kept, the output is exactly the comment lines |
| QcPipeline.RunQcWithoutExons | scripts/qc.py:92-105 | a file without accepted exon lines runs without error: zero transcripts and genes, an empty summary, nothing kept, and an output of precisely the comment lines |
| QcPipeline.TwoTranscriptScenario | scripts/qc.py:32-43 | exons (1,100) and (201,300) for `A` and (1,50) for `B` give the rows `A,2,200` and `B,1,50`; at the defaults only `A` is kept |

The table built from an empty summary has no columns, so the code raises
an error (see "## Findings"). Nothing in the script treats a file without
exon lines as an error on purpose; the natural result is an empty
selection. `TranscriptFilter.FilterFrame` follows the code as written. The
pipeline uses the evidently intended filter.

## Left out

- File I/O (scripts/qc.py:11-12 and 47-48): the input is given as its list of lines, each with any terminator it had. The filtered annotation is the list of lines written. Opening, reading and writing files, and errors such as a missing file, are not modelled.
- `df.to_csv` (scripts/qc.py:97): writing the summary table as CSV is output formatting. The table itself is `Summary`.
- `plot_histograms` (scripts/qc.py:63-78): plotting with matplotlib. Line 64 also looks up `df['length']`, so on an empty summary it fails before the filter does.
- `main`'s argument parsing and console output (scripts/qc.py:81-110): the thresholds are parameters with the defaults `DefaultMinLength` and `DefaultMinExons`. The printed counts are the `transcriptCount` and `geneCount` of the `Report`; the printed text is not modelled.
- pandas data frames (scripts/qc.py:39-43): a table is a sequence of rows plus, in `FilterFrame`, its column names. The index that a boolean mask preserves is not modelled.
- Text.ParseInt: accepts only an optional sign followed by ASCII digits. Python's `int()` also accepts surrounding whitespace, `_` between digits and non-ASCII decimal digits. Also, CPython 3.11 and later reject by default a decimal string of more than 4300 digits, which the model accepts.
- Text.Whitespace: is the ASCII whitespace of `str.isspace`. The non-ASCII whitespace that Python's `strip()` and `split()` also remove (such as U+0085, U+00A0 and U+2028) is not included.
- Text.Contains: is substring search over characters; strings are code-point sequences, with no normalisation.
- FilteredGtf.MentionsAnyKept: the order in which the set `keep_transcript_ids` is traversed is an arbitrary choice. The result does not depend on it, because the loop only asks whether some id matches.
- GtfParser.ParseError: the line index it carries is added by the model, in order to state which line aborts the parse. The source raises `ValueError` without one.

## Findings

| source | as written | input that shows it | evidently intended | confidence | as-written member | corrected member |
|---|---|---|---|---|---|---|
| scripts/qc.py:39-43 | `pd.DataFrame(summary)` on an empty list has no columns, so `df['length']` in `filter_transcripts` raises `KeyError` | an annotation with no accepted exon line, for example only comment lines | an empty summary filters to no rows without error, and the filtered output is the comment lines | not executed | TranscriptFilter.EmptyFrameFilterFails | QcPipeline.RunQcWithoutExons |
