# Credential dumper: a Dafny model of the extraction pipeline

This project models the core of `dumper`, a tool that walks a tree of text files,
pulls `(email, password)` pairs out of loosely delimited lines, merges and
deduplicates them on the lowercased email, and writes them to one or more
fully quoted CSV files. It proves properties of that model.

The model has four parts:

- **Parser** (`dumper/parser.py`). It covers delimiter detection over a ten-line
  sample, line parsing, and whole-file extraction:
  - line parsing strips the line, reads CSV fields, takes the first two,
    removes an inline ` #` comment and checks the email shape;
  - a file fails when it cannot be read or has fewer than ten lines.
- **Processor** (`dumper/processor.py`). It covers `process_file` and the rest of
  `process_files`:
  - `process_file` gives a skip, a success record or a failure record;
  - `process_files` removes the skips, partitions the rest into merged
    credentials and failed files, runs a stable sort on `email.lower()` and then
    a first-occurrence scan, and builds the returned counts.
- **Output** (`dumper/output.py`). It covers `split_list`, the numbering of chunk
  files, the `credentials_written` counter, the single-file fallback and the
  `QUOTE_ALL` CSV serialisation.
- **Csv**. This is the part of Python's `csv` module the program relies on:
  - the reader, as the state machine of CPython's `_csv` module in its default
    dialect (no escape character, non-strict);
  - the writer's quoting;
  - the proof that a written row reads back as the fields that were written.

The ignore list of `dumper/__init__.py` is the constant `Dumper.IgnoredFiles`.
The parsing functions take the set as a parameter, and `Processor.ProcessFiles`
passes in this constant.

Files on disk are inputs:

- A walked entry (`Processor.FileEntry`) carries the following:
  - its kind (directory, regular file, or anything else);
  - its size;
  - its decoded lines, or the reason reading failed;
  - the text `get_file_sample` would return.
- File lines are `Parser.TextLine`: what iterating over a text-mode file yields,
  with no carriage return and a newline only at the end.
- Writing is modelled by the list of `write_csv(path, data)` calls in order
  (`Output.OutputFile`). `Output.CsvDocument` gives the text each call puts in its
  file.

Loops in the source are methods with loop invariants, each proved equal to a
specification function:

- `Parser.DetectDelimiter` and `Parser.TallyLine`;
- `Parser.CollectCredentials` and `Parser.ParseFile`;
- `Processor.Partition` and `Processor.Deduplicate`;
- `Output.WriteOutput`.

The properties are lemmas about those functions.

Some behaviours of the code are easy to misread, and the model follows the code:

- **Quoted comments.** A ` #` inside a quoted password is still cut. The quote
  count at `dumper/parser.py:39` runs on the field after the reader has removed
  its quotes, so `"Pass # not a comment"` becomes `Pass`
  (`Parser.StripCommentSpec`).
- **Several `@`.** `re.match` anchors only the start of the email. Text after
  the first match, further `@` included, is accepted
  (`Parser.EmailPatternShape`).
- **Case of ignored names.** The ignore list is tested by exact membership, so
  `README.MD` is not ignored.
- **Short files.** A file of fewer than ten lines fails with
  `Error parsing file <path>: ` (`Parser.FileCredentialsOutcome`), because the
  ten-line sample is drawn with unguarded `next` calls. A three-line file
  therefore yields a failed record and no rows.
- **Header.** The header is literally `email,password`, and every field is
  quoted.
- **Input name.** The input's name is `Path.name`, which is empty for `.`. So
  `dumper .` writes into `<output>/___output` (`Strings.PathName`).

## Model

| member | source | states |
|---|---|---|
| Strings.Strip | dumper/parser.py:23 | the result is a slice of the input with only whitespace before and after it. It is empty exactly when the input is all whitespace; otherwise it starts and ends with a non-whitespace character. |
| Strings.StripIdempotent | dumper/parser.py:41 | stripping a stripped string changes nothing |
| Strings.StripStart | dumper/parser.py:23 | a non-empty result is the slice of the input from its first non-whitespace character |
| Strings.StripKeepsOut | dumper/parser.py:32-33 | stripping never introduces a character |
| Strings.Find | dumper/parser.py:36 | `str.find`: the first index where the pattern occurs, or none when it occurs nowhere |
| Strings.Count | dumper/parser.py:39 | `str.count` of one character: at most the length, and zero exactly when the character is absent |
| Strings.CountOccurrences | dumper/parser.py:39 | the count is the number of occurrences (the character's multiplicity in the string), whose parity decides whether a comment is cut |
| Strings.Lower | dumper/processor.py:111 | `str.lower` on ASCII letters, one character for one; its meaning is stated by `LowerSpec` |
| Strings.LowerSpec | dumper/processor.py:111 | lowering maps each character and leaves no upper-case ASCII letter, so it is idempotent |
| Strings.RemoveSpaces | dumper/output.py:15 | no space remains and every other character is kept |
| Strings.RemoveSpacesLength | dumper/output.py:15 | the length drops by exactly the number of spaces |
| Strings.RemoveSpacesAppend | dumper/output.py:15 | removal works piece by piece, so the kept characters stay in their order |
| Strings.BaseName | dumper/parser.py:53 | `os.path.basename`: the result is the suffix after the last `/` and holds no `/` |
| Strings.PathName | dumper/processor.py:120-121 | `Path.name` of the input path: no `/`, never `.`, never longer than the path |
| Strings.PathNameOccurs | dumper/processor.py:120-121 | a non-empty name is a piece of the path |
| Strings.PathNameOfName | dumper/processor.py:120-121 | when the final component is a proper name, `Path.name` and `os.path.basename` agree |
| Strings.PathNameCurrentDirectory | dumper/processor.py:120-121 | the name of `.` is empty |
| Strings.NatToString | dumper/output.py:22 | the decimal text is non-empty and all digits, with no leading zero except for 0 |
| Strings.DecimalRoundTrip | dumper/output.py:22 | reading the decimal text back gives the number |
| Strings.NatToStringInjective | dumper/output.py:22 | different numbers have different decimal texts |
| Csv.ReadRecord | dumper/parser.py:27-28 | `next(csv.reader(...))` on one non-empty line yields at least one field |
| Csv.SplitOn | dumper/parser.py:27-28 | the delimiter-separated pieces: at least one, none holding the delimiter |
| Csv.JoinSplitOn | dumper/parser.py:27-28 | the pieces rejoined with the delimiter give the line back |
| Csv.UnquotedRecord | dumper/parser.py:27-28 | when no piece opens with a quote, the fields are exactly the delimiter-separated pieces, so a quote not at the start of a field is literal |
| Csv.QuoteFreeRecord | dumper/parser.py:27-28 | on a line with no `"` the fields are exactly the delimiter-separated pieces |
| Csv.ScanEscaped | dumper/parser.py:27-28 | inside a quoted field, a doubled quote reads as one literal quote and a single quote closes the field |
| Csv.RecordKeepsOut | dumper/parser.py:27-28 | a character absent from the line is absent from every field |
| Csv.FormatRow | dumper/output.py:39-41 | the `QUOTE_ALL` writer's row: every field quoted, inner quotes doubled, fields joined by the delimiter; the row opens and closes with a quote |
| Csv.FormattedRecord | dumper/output.py:39-41 | a row written with every field quoted and inner quotes doubled reads back as the same fields, whatever quotes or delimiters they hold |
| Parser.LinesContainingCountsLines | dumper/parser.py:14-17 | a candidate's count is the number of sampled lines containing it, not the number of occurrences |
| Parser.DelimiterCounts | dumper/parser.py:12-17 | the dictionary has exactly the four candidates as keys, each mapped to the number of sampled line indices whose line contains it |
| Parser.FirstMaxIndex | dumper/parser.py:19 | `max(..., key=...)` picks a maximal count, and every earlier key has a strictly smaller count |
| Parser.Delimiter | dumper/parser.py:10-20 | the result is one of `,` `;` `:` tab; it is a comma when no candidate occurs; no candidate has a higher count; every earlier candidate has a strictly lower one |
| Parser.TallyLine | dumper/parser.py:15-17 | one line adds one to the count of exactly the candidates it contains and changes no key |
| Parser.DetectDelimiter | dumper/parser.py:10-20 | the nested counting loop returns `Delimiter` of the sample |
| Parser.StripComment | dumper/parser.py:36-41 | removing the comment never lengthens the secret |
| Parser.StripCommentSpec | dumper/parser.py:36-41 | the secret is unchanged exactly when it has no ` #`, or an odd number of quotes precede the first one. Otherwise it becomes the text before the first ` #`, stripped, which is shorter and holds no ` #`. A stripped secret stays stripped. |
| Parser.StripCommentKeepsOut | dumper/parser.py:36-41 | removing the comment never introduces a character |
| Parser.CommentFreeSecret | dumper/parser.py:36-41 | a processed secret with no quote holds no ` #` |
| Parser.EmailPatternShape | dumper/parser.py:44 | `re.match(r"[^@]+@[^@]+\.[^@]+", ...)` succeeds iff the email has this shape: a non-empty `@`-free start, then the first `@`, then an `@`-free run holding a `.` with a non-`@` character on each side; anything may follow |
| Parser.ParseLine | dumper/parser.py:22-47 | `parse_line` as a function; what it returns is stated by `ParseLineSpec` |
| Parser.ParseLineSpec | dumper/parser.py:22-47 | a line yields a pair iff, stripped, it is neither blank nor a `#` line, it has at least two fields, and its stripped first field matches the pattern. The pair is that first field and the comment-stripped second field; later fields are ignored. |
| Parser.ParsedHasNoBreaks | dumper/parser.py:22-47 | an extracted email or password never holds a line break |
| Parser.JoinedPairFields | dumper/parser.py:27-33 | `email + delimiter + password` built from a stripped, quote-free, break-free pair without the delimiter is a stripped line that reads back as the two fields |
| Parser.ReparseCredential | dumper/parser.py:22-47 | re-parsing the line `email + delimiter + password` rebuilt from an extracted pair gives the same pair. This holds when neither part holds the delimiter or a quote, the email does not open with `#`, and an empty password is not left behind a trailing tab. |
| Parser.ExtractPairs | dumper/parser.py:65-68 | the file yields at most one pair per line |
| Parser.ExtractPairsSingle | dumper/parser.py:65-68 | a one-line file yields that line's pair, if any |
| Parser.ExtractPairsAppend | dumper/parser.py:65-68 | extraction distributes over concatenating files, so pairs keep the line order |
| Parser.ExtractedEmailsMatch | dumper/parser.py:44-45 | every extracted email matches the pattern |
| Parser.CollectCredentials | dumper/parser.py:65-68 | the line loop returns `ExtractPairs` of the lines |
| Parser.FileCredentials | dumper/parser.py:49-74 | `parse_file`'s value or exception as a `Result`; its cases are stated by `FileCredentialsOutcome` and the lemmas after it |
| Parser.FileCredentialsOutcome | dumper/parser.py:49-74 | ignored names and non-files give `[]`. A file fails iff it is an unignored regular file that cannot be read or has fewer than ten lines. The error is the path-wrapped reason, with an empty reason for a short file. |
| Parser.SkippedFileCredentials | dumper/parser.py:53-58 | an ignored name or a non-regular file succeeds with no credentials |
| Parser.FailedFileCredentials | dumper/parser.py:60-72 | an unreadable or short regular file fails |
| Parser.ParsedFileCredentials | dumper/parser.py:60-68 | a readable file of ten or more lines yields the pairs of all its lines, under the delimiter detected on its first ten, with matching emails |
| Parser.FileCredentialsEmails | dumper/parser.py:65-68 | every credential of a successful parse has a matching email |
| Parser.ParseFile | dumper/parser.py:49-74 | `parse_file` returns or raises exactly what `FileCredentials` states |
| Processor.ProcessFile | dumper/processor.py:22-55 | a record is consistent: a success counts its credentials and a failure carries none. It keeps the entry's path and size. |
| Processor.ProcessFileSkips | dumper/processor.py:23-25 | the result is `None` iff the entry is a directory or its name is ignored |
| Processor.ProcessFileFails | dumper/processor.py:28-51 | a kept entry fails iff it is a regular file that cannot be read or has fewer than ten lines. A failure carries the file's sample. An entry that is neither a file nor a directory succeeds with no credentials. |
| Processor.ProcessFileEmails | dumper/processor.py:29-39 | every credential of a kept entry's record has a matching email |
| Processor.Gather | dumper/processor.py:92 | `gather` returns one outcome per path, in path order |
| Processor.Present | dumper/processor.py:93 | the `None` filter, in order; stated by `PresentMembers` and `PresentCount` |
| Processor.PresentMembers | dumper/processor.py:93 | a record survives the `None` filter iff it was gathered |
| Processor.PresentCount | dumper/processor.py:93 | what remains is one record per entry that is not skipped, so `total_files` does not count skips |
| Processor.PresentComplete | dumper/processor.py:92-93 | every entry that is not skipped has its record among those that remain |
| Processor.PresentSound | dumper/processor.py:92-93 | every remaining record is consistent and belongs to a kept entry with its path |
| Processor.PresentConsistent | dumper/processor.py:92-93 | every remaining record is consistent |
| Processor.Merged | dumper/processor.py:97-101 | the success credentials concatenated in record order; stated by `MergedLength` and `MergedAppend` |
| Processor.FailedOf | dumper/processor.py:97-101 | the failure records in record order; stated by `PartitionExact` |
| Processor.PartitionExact | dumper/processor.py:97-101 | successes plus failures account for every record, and the failed list holds only failed records taken from the input |
| Processor.MergedLength | dumper/processor.py:103 | over consistent records, `total_credentials` is the sum of the `total_lines` counts |
| Processor.MergedAppend | dumper/processor.py:97-101 | merging and failure collection distribute over concatenation: credentials keep record order |
| Processor.Partition | dumper/processor.py:95-101 | the loop yields the merged success credentials and the failed records, both in record order |
| Processor.LexLessIrreflexive | dumper/processor.py:111 | Python's string `<` is irreflexive |
| Processor.LexLessTransitive | dumper/processor.py:111 | Python's string `<` is transitive |
| Processor.LexLessTotal | dumper/processor.py:111 | distinct strings are ordered exactly one way |
| Processor.SortByKey | dumper/processor.py:111 | `sorted` on `email.lower()`, keeping the length; its order, permutation and stability are stated by the three lemmas after it |
| Processor.SortByKeySorted | dumper/processor.py:111 | the sort yields a list non-decreasing in `email.lower()` |
| Processor.SortByKeyPermutation | dumper/processor.py:111 | the sort yields a permutation of its input |
| Processor.SortByKeyStable | dumper/processor.py:111 | the sort is stable: for every key, the pairs with that key keep their input order |
| Processor.UniqueByKey | dumper/processor.py:109-115 | the first-occurrence scan as a function; stated by `UniqueByKeyKeys`, `UniqueByKeyDistinct`, `UniqueByKeyFirst` and `UniqueByKeyStrictlySorted` |
| Processor.KeySetMembers | dumper/processor.py:113 | a key is in the key set iff some element has it, iff filtering on it is non-empty |
| Processor.UniqueByKeyKeys | dumper/processor.py:109-115 | the scan keeps every lowercased email of its input, keeps only input elements and never grows the list |
| Processor.UniqueByKeyDistinct | dumper/processor.py:109-115 | no two survivors share a lowercased email |
| Processor.UniqueByKeyFirst | dumper/processor.py:109-115 | for each key, the survivor is the first element with that key |
| Processor.UniqueByKeyStrictlySorted | dumper/processor.py:109-115 | a sorted input leaves survivors strictly increasing in `email.lower()` |
| Processor.Deduplicate | dumper/processor.py:109-115 | the `seen`-set loop returns `UniqueByKey` of the sorted list |
| Processor.UniqueProperties | dumper/processor.py:109-117 | the written credentials are strictly increasing, so distinct, in lowercased email. Every lowercased email of the merged input is present. Each survivor is the first pair with its key in merged order. Nothing outside the input appears. |
| Processor.WrittenEmailsMatch | dumper/processor.py:92-123 | every written credential's email passed the pattern check |
| Processor.Summarize | dumper/processor.py:92-131 | the returned dictionary's counts and lists; stated by `SummaryCounts` and `UniqueProperties` |
| Processor.SummaryCounts | dumper/processor.py:125-131 | `total_files` counts the kept entries; `total_credentials` is the sum of `total_lines`; `unique_credentials` is at most `total_credentials`; successes plus failures equal `total_files` |
| Processor.ProcessFiles | dumper/processor.py:64-131 | the run returns `Summarize` of the files to process under the built-in ignore list; those are the input alone when it is a file, else the walked entries. It writes `Unique` of the records into `<output>/<Path.name of input>___output` and sends the progress values `write_output` promises. |
| Output.SplitList | dumper/output.py:43-44 | the comprehension over `range(0, len, n)`; stated by the `SplitList` lemmas after it |
| Output.SplitListFlatten | dumper/output.py:43-44 | the chunks concatenate back to the list |
| Output.SplitListEmpty | dumper/output.py:44 | there are no chunks iff the list is empty |
| Output.SplitListSizes | dumper/output.py:44 | every chunk but the last has exactly `n` elements, and the last has between 1 and `n` |
| Output.SplitListCount | dumper/output.py:44 | there are ceil(len / n) chunks: `(c - 1) * n < len <= c * n` |
| Output.SplitListChunk | dumper/output.py:44 | chunk `k` is `lst[k*n : k*n + n]` |
| Output.SplitListNegative | dumper/output.py:44 | a negative size gives an empty range and no chunks |
| Output.CsvDocument | dumper/output.py:37-41 | the text one `write_csv` call puts in its file: the header record, then one record per pair; stated by `CsvDocumentHeader` and `CsvDocumentAppend` |
| Output.CsvDocumentAppend | dumper/output.py:37-41 | one more pair appends exactly its quoted record, so rows follow input order |
| Output.CsvDocumentHeader | dumper/output.py:40 | every file starts with the header record |
| Output.EscapePlain | dumper/output.py:39-40 | a field with no quote is written unchanged between its quotes |
| Output.EscapeLength | dumper/output.py:39 | a written field grows by one character per quote it holds |
| Output.RecordReadsBack | dumper/output.py:39-41 | every written record reads back, with a comma delimiter, as the row written |
| Output.BaseFilename | dumper/output.py:15 | the base file name has no space |
| Output.ChunkFilesAt | dumper/output.py:21-23 | file `k` is the one for chunk `k`, named with number `k + 1` |
| Output.RunningTotalsAt | dumper/output.py:18-26 | progress value `k` is the size of chunks 1 to `k + 1` |
| Output.ChunkStep | dumper/output.py:21-26 | one more chunk appends its file and its running total |
| Output.OutputFiles | dumper/output.py:20-29 | the `write_csv` calls of `write_output`; stated by `ChunkFileContent`, `SingleFileFallback` and the lemmas after it |
| Output.ProgressUpdates | dumper/output.py:20-31 | the `completed=` values sent to the write task; stated by `RunningTotalsCount` and `FinalCountIsTotal` |
| Output.WriteOutput | dumper/output.py:11-31 | the `write_csv` calls and progress values are exactly `OutputFiles` and `ProgressUpdates` |
| Output.ChunkFileContent | dumper/output.py:20-23 | chunk file `k` is named `base_{k+1}.csv` and receives `credentials[k*n : k*n + n]` |
| Output.ChunkFileNamesDistinct | dumper/output.py:22 | no two chunk files share a name |
| Output.NoCredentialsNoSplitFiles | dumper/output.py:20-23 | in split mode with no credentials no file is written |
| Output.NegativeSplitWritesNothing | dumper/output.py:20-21 | a negative split size is truthy but writes no file |
| Output.SingleFileFallback | dumper/output.py:27-29 | without a truthy split size exactly one file, `base.csv`, receives every record |
| Output.RunningTotalsCount | dumper/output.py:24 | after chunk `k` the counter is `(k + 1) * n`, and after the last chunk it is the number of credentials |
| Output.FinalCountIsTotal | dumper/output.py:24-26 | in split mode with credentials, the last progress value is the number of credentials |

## Left out

- Concurrency. `asyncio.gather` and `run_in_executor` become a sequential map that
  keeps the input order, which is the order `gather` returns.
- File-system I/O: `open`, `seek`, `stat`, `rglob` and `mkdir`.
  - A walked entry carries its kind, size, decoded lines and sample as data.
  - The recursive glob and its extension filter are the `walked` input of
    `Processor.ProcessFiles`.
  - Output-directory creation is not modelled.
- Lossy UTF-8 decoding. Lines are already decoded.
- `get_file_sample`. Its result is a field of the entry, because it reads the file
  again.
- `stat()` raising in the failure branch of `process_file`. It is not modelled.
- The clock, `humanize.metric` and elapsed times. The timestamp and the count label
  are string parameters; elapsed times are floats and are omitted from the
  records.
- The `rich` progress bars and console.
  - Only the `completed=` values of the write task are modelled.
  - The write task's id is 2, the third task of a fresh `Progress`.
  - The file and sort tasks and `log_processed_file` are presentation.
- `dumper/ui.py`, `dumper/cli.py` and `generate_test_data.py`. They are
  presentation, argument wiring and test-data generation.
- Csv.ReadRecord is modelled up to the following:
  - it does not model the reader's field-size limit error;
  - it does not model line breaks inside quoted fields, since a parsed line is
    stripped and holds no line break;
  - it follows CPython 3.11 and later, where NUL is an ordinary character. On
    3.10 and earlier a NUL in a line raises `_csv.Error`, and `parse_file` would
    turn the file into a failed record.
- Strings.Lower: folds only ASCII letters, unlike Python's Unicode `str.lower`.
- Strings.Strip: follows Python's whitespace set for `str.strip` as listed in
  `IsSpace`.
- Strings.BaseName: does not normalise paths. Walked entry paths are taken as
  `pathlib` prints them, with no trailing separator and no `.` component. On such
  paths `os.path.basename` and `Path.name` agree (`Strings.PathNameOfName`).
- Output.JoinPath: joins with a single `/` and does not normalise the output
  path the way `pathlib` does.
- Processor.SortByKey: models `sorted` by its result. It is a stable insertion
  sort, not Timsort, which yields the same list.
- Processor.LexLess: compares characters by code point, as Python does. Dafny's
  `char` covers Unicode scalar values only, so lone surrogates are not modelled.
