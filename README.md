# csvchecker, modelled in Dafny

csvchecker is a batch tool for directories of CSV files. This project models
its per-file transforms.

- **Duplicate removal, line engine** (`funcs/remove_dupes.py`). The
  standard-library engine keeps the header line and then the first
  occurrence of every data line. It buffers them in batches of 1000 into a
  `.tmp` sibling, replaces the original with that sibling, and returns
  `(name, total_rows, unique_rows)`.
- **Duplicate removal, dataframe engine** (same file). The engine rewrites
  the file in place, and only when rows were dropped.
- **Row-count splitting** (`funcs/split_csv.py`).
  - The standard-library engine flushes a buffer of data lines into
    `{stem}_part_{n:04d}.csv` files. Each file starts with the header.
  - The dataframe engine slices at offsets `0, r, 2r, …`. It writes nothing
    when the file has at most `r` data rows.
- **Engine dispatch.** Each module's `process` picks `cudf`, `polars` or the
  standard library (`Files.Select`).
- **Row duplicate removal in `csvchecker.py`.** `CSVProcessor._remove_duplicate_rows`
  works on parsed rows. It writes the first row only when that row is
  non-empty, and the model does the same (`CsvChecker.DedupRowsAsWritten`).
  The evidently intended rule, which always writes the first row, is
  `CsvChecker.DedupRows` (see Findings).
- **Cell cleaning in `csvchecker.py`.** `CSVProcessor._clean_file_chars`
  re-encodes each cell to UTF-8 and drops the code points that UTF-8 cannot
  encode (the surrogates). Every row keeps its shape.

The file system is a value, `Store<T> = map<Path, seq<T>>`. It holds lines
for the `funcs/` modules and parsed rows for `csvchecker.py`. Every operation
takes a store and returns the new one. Writes can fail:

- `room` is the number of lines or rows the volume still takes during the
  call.
- A write call that does not fit raises.
- A missing input file raises `NotFound`.

The operations with loops are Dafny methods. Each method's postcondition
equates its result and new store with a specification function, for example
`RemoveDupes.StdlibEffect`, `SplitCsv.StdlibDid` or `CsvChecker.DedupEffect`.
The properties are proved as lemmas about those functions:

- dedup keeps exactly the input's elements, each once, in first-occurrence
  order;
- the line dedup is idempotent on the lines as read (a file that mixes a
  lone `\r` with `\n` endings can be re-split on the next read; see below);
  the row dedup as written is idempotent exactly when the file does not
  start with two blank rows;
- counts;
- split completeness, chunk sizes and the ceiling count;
- chunk naming and its injectivity;
- temp-file cleanup that keeps the original on failure;
- where the engines agree and where they do not.

Some consequences of the code that a reader may not expect:

- With 1 to `rows_per_chunk` data lines, the two split engines disagree.
  The standard-library engine writes one chunk and the dataframe engine
  writes none (`SplitCsv.SmallFileEnginesDisagree`).
- The dataframe dedup writes the file in place. A failed write therefore
  leaves the original truncated, whereas the line engine keeps it
  (`RemoveDupes.PolarsFailureLosesOriginal`).
- `rows_per_chunk` is any integer, and the model accepts any integer too:
  - below 1, the standard-library engine flushes after every line;
  - the dataframe engine raises on a zero step when the file has at least
    one data row; a header-only file returns 0 chunks first;
  - with a negative step, the range is empty and nothing is written.
- The line engine reads with `newline=''`, so `readlines` also ends a line
  at a lone `\r`. Dropping a duplicate can put a kept `x\r` line right
  before a kept line that is just `\n`; the next read joins them into one
  `x\r\n` line. The file text `h\na\r\na\ra\r\n\n` reads as `h\n`,
  `a\r\n`, `a\r`, `a\r\n`, `\n`. A first run reports (4, 3) and leaves
  `h\na\r\na\r\n`, which a second run reads as three lines, reports as
  (2, 1) and rewrites to `h\na\r\n`. `RemoveDupes.StdlibIdempotent` holds of
  the lines the model stores, not of this re-read.
- In `csvchecker.py` an input whose suffix is `.tmp` is its own temp file.
  Opening it for writing empties it before anything is read, so both jobs
  leave it empty (`CsvChecker.DedupTmpInputEmptied`,
  `CsvChecker.CleanTmpInputEmptied`). The directory listing only yields
  `*.csv` files, so the processor never passes such a path.
- In `csvchecker.py` a blank first row is dropped, and a blank second row
  then becomes the header of the next run (see Findings).
- `_clean_file_chars` reads with `errors='replace'`, and that decoder never
  produces a surrogate. Every cell it sees is therefore valid text, and by
  `CsvChecker.CleanValidUnchanged` the rewrite keeps every cell as it is. The
  visible cleaning is the decoder's U+FFFD substitution, which happens before
  the modelled part.

## Model

| member | source | states |
|---|---|---|
| Files.TempOf | funcs/remove_dupes.py:5 | the temp file is the same directory and stem with suffix `.tmp`; it is the input itself exactly when the input's suffix is `.tmp` |
| Files.PathlibSplitUnique | funcs/remove_dupes.py:5 | under `pathlib`'s split (the suffix starts at the last dot that is neither first nor last in the name) a directory and a name determine one path, so the model's keys are one per file |
| Files.Replace | funcs/remove_dupes.py:30 | after `temp.replace(path)` the target holds the temp file's contents, the temp file is gone, and every other file is unchanged |
| Files.ErrorFor | funcs/remove_dupes.py:35 | the re-raised message starts with `error {name}: ` |
| Files.Select | funcs/remove_dupes.py:47-53 | `cudf` selects the GPU engine and `polars` the dataframe engine, each if and only if; every other string selects the standard library |
| Unique.FirstOccurrencesStep | funcs/remove_dupes.py:20-24 | one more scanned line is appended to the kept lines exactly when it is not in `seen` |
| Unique.FirstOccurrencesMembers | funcs/remove_dupes.py:20-24 | the kept lines are exactly the input's lines, in both directions |
| Unique.FirstOccurrencesDistinct | funcs/remove_dupes.py:20-24 | no kept line occurs twice |
| Unique.FirstOccurrencesOrdered | funcs/remove_dupes.py:20-24 | kept lines appear in the order of their first occurrence in the input |
| Unique.FirstOccurrencesFixpoint | funcs/remove_dupes.py:20-24 | dedup leaves a sequence unchanged if and only if it has no repeats |
| Unique.FirstOccurrencesIdempotent | funcs/remove_dupes.py:20-24 | deduplicating twice equals deduplicating once |
| Unique.FirstOccurrencesLength | funcs/remove_dupes.py:20-24 | dedup never lengthens its input, and keeps its length if and only if there are no repeats |
| Unique.FirstOccurrencesCount | funcs/remove_dupes.py:20-24 | `unique_rows` is the number of distinct data lines (the size of `seen`) |
| Unique.FirstOccurrencesHead | funcs/remove_dupes.py:20-24 | the first line scanned is always kept, and kept first |
| Decimal.Digits | funcs/split_csv.py:17 | `str(n)`: a non-empty string of digits with no leading zero from 10 on |
| Decimal.Pad4Value | funcs/split_csv.py:17 | the `{n:04d}` numeral reads back as `n` |
| Decimal.Pad4Format | funcs/split_csv.py:17 | `{n:04d}` has exactly 4 digits below 10000 and is the plain numeral from there on; distinct numbers give distinct strings |
| RemoveDupes.WriteUnique | funcs/remove_dupes.py:16-29 | the header and batch loop writes the header and then the first occurrence of each data line; it completes if and only if the volume takes all of them, and `unique_rows` is the number of distinct data lines |
| RemoveDupes.Stdlib | funcs/remove_dupes.py:4-35 | the batched loop returns the result and leaves the store of `StdlibEffect`: (0, 0) for an empty file; on success the header and the first occurrences replace the original; on any error the temp file is removed and a wrapped exception is raised |
| RemoveDupes.Polars | funcs/remove_dupes.py:37-45 | raw errors, with nothing changed, exactly for a missing or empty file; on success total is the number of data lines and unique at most that; the file ends with unique + 1 lines and is rewritten only when unique < total; a failed write leaves it empty; no other file is touched |
| RemoveDupes.Process | funcs/remove_dupes.py:47-53 | dispatch: the GPU effect for `cudf`, the dataframe engine for `polars`, the line engine otherwise |
| RemoveDupes.StdlibCounts | funcs/remove_dupes.py:12-31 | `total_rows` is the number of data lines and `unique_rows` the number of distinct ones (at most the total); the rewritten file has `unique_rows + 1` lines; an empty file is left alone |
| RemoveDupes.StdlibSucceedsIff | funcs/remove_dupes.py:10-35 | the line engine succeeds if and only if the file exists and is empty, or the volume takes the header and the distinct data lines |
| RemoveDupes.StdlibOutput | funcs/remove_dupes.py:14-30 | the new file: the header, then every data line once, none twice, in first-occurrence order; the temp file is gone and no other file changed |
| RemoveDupes.StdlibFailureKeepsOriginal | funcs/remove_dupes.py:32-35 | on failure the temp file is removed and the original and every other file are unchanged; the message starts `error {name}: ` |
| RemoveDupes.StdlibIdempotent | funcs/remove_dupes.py:14-31 | running the line engine on its own output, taken as the same lines, succeeds, changes nothing, and reports total == unique |
| RemoveDupes.PolarsRewritesIffDuplicates | funcs/remove_dupes.py:37-45 | the dataframe engine returns the same counts, rewrites the file if and only if total != unique (that is, if and only if there were duplicates), and touches no other file |
| RemoveDupes.EnginesAgree | funcs/remove_dupes.py:37-45 | on a non-empty file that fits, both engines return the same counts and leave the same content |
| RemoveDupes.PolarsFailureLosesOriginal | funcs/remove_dupes.py:43-44 | a failed in-place write truncates the original, whereas the line engine keeps it |
| SplitCsv.Cap | funcs/split_csv.py:16 | the effective chunk size is at least 1, because a `rows_per_chunk` below 1 flushes after every line |
| SplitCsv.WriteChunkFile | funcs/split_csv.py:17-20 | the chunk file gets the header and then the buffer; the write succeeds if and only if the volume takes both; a failed write leaves the file empty or holding only the header |
| SplitCsv.FlushChunk | funcs/split_csv.py:17-23 | flushing a full buffer, or the final rest, writes the next planned chunk as file `chunk_num` and keeps the loop on the plan; a failed flush means the whole plan does not fit and no file outside the chunk names changed |
| SplitCsv.WriteFullChunks | funcs/split_csv.py:14-23 | after the line loop the chunks written so far are a prefix of the plan, the buffer holds the remaining data lines, fewer than the effective chunk size, and `chunks` counts the files written |
| SplitCsv.WriteChunks | funcs/split_csv.py:14-29 | the loop and the final flush complete if and only if the volume takes every chunk with its header; then exactly the planned chunk files are written and `chunks` is their number; otherwise no file outside the chunk names changed |
| SplitCsv.Stdlib | funcs/split_csv.py:4-32 | the buffer-and-flush loop returns `StdlibOutcome` (0 for an empty file, a wrapped error otherwise) and, on success, leaves exactly the chunk files of the plan (`Emit`); on failure no file outside the chunk names changed |
| SplitCsv.WriteSlice | funcs/split_csv.py:43-47 | writing one slice with the header succeeds if and only if the volume takes it, and then advances the plan by that slice; a failed write means the plan does not fit and leaves no file outside the chunk names changed |
| SplitCsv.WriteSlices | funcs/split_csv.py:42-47 | the offset loop completes if and only if the volume takes every slice with its header; then exactly the planned chunk files are written and `chunks` is their number; otherwise no file outside the chunk names changed |
| SplitCsv.Polars | funcs/split_csv.py:34-48 | the offset loop returns `PolarsOutcome` (0 for at most `rows_per_chunk` data rows, checked first; raw errors for a missing or empty file, and for a zero step with at least one data row) and, on success, leaves exactly the planned chunk files |
| SplitCsv.Process | funcs/split_csv.py:50-56 | dispatch: the GPU effect for `cudf`, the dataframe engine for `polars`, the standard-library engine otherwise |
| SplitCsv.ChunksConcat | funcs/split_csv.py:14-29 | the chunks, concatenated in order, are the data lines |
| SplitCsv.ChunkSizes | funcs/split_csv.py:14-29 | every chunk but the last is full; the last holds 1 to `cap` lines |
| SplitCsv.ChunkCount | funcs/split_csv.py:14-29 | no chunks if and only if no data lines; otherwise the count is the ceiling of lines over `cap` |
| SplitCsv.EmitContents | funcs/split_csv.py:17-20 | file k holds the header and then chunk k; every file outside the chunk files is unchanged |
| SplitCsv.ChunkPathInjective | funcs/split_csv.py:17 | different chunk numbers name different files |
| SplitCsv.ChunkNaming | funcs/split_csv.py:17 | chunk k is `{stem}_part_{k:04d}.csv`, 14 characters longer than the stem below 10000, and never the input file |
| SplitCsv.StdlibSplitsCompletely | funcs/split_csv.py:4-30 | after a successful split: the count, the file contents, completeness, chunk sizes, the ceiling count, and no other file touched |
| SplitCsv.SmallFileEnginesDisagree | funcs/split_csv.py:34-39 | with 1 to `rows_per_chunk` data lines, the standard-library engine writes one chunk and the dataframe engine none |
| SplitCsv.EnginesAgreeOnLargeFiles | funcs/split_csv.py:42-48 | above `rows_per_chunk` data lines both engines plan the same chunks (at least two) and return the same result |
| CsvChecker.CleanCell | csvchecker.py:89 | the cleaned cell is valid UTF-8 text and no longer than the input; a valid cell is unchanged |
| CsvChecker.CleanCellSingle | csvchecker.py:89 | one code point is kept if and only if UTF-8 can encode it |
| CsvChecker.CleanCellAppend | csvchecker.py:89 | the clean of a concatenation is the concatenation of the cleans, so the kept code points stay in their order |
| CsvChecker.CleanCellCounts | csvchecker.py:89 | every encodable code point keeps its multiplicity, and every surrogate is dropped |
| CsvChecker.CleanFileChars | csvchecker.py:77-99 | the row loop leaves the store of `CleanEffect`; on success each row read keeps its cell count and each cell is cleaned; an input with suffix `.tmp` is read as empty; on error the temp file is removed and a message is printed |
| CsvChecker.CleanTmpInputEmptied | csvchecker.py:81-82 | an input with suffix `.tmp` is also the temp file, so opening it for writing empties it before it is read: the clean reports nothing, leaves it empty and changes no other file |
| CsvChecker.CleanIdempotent | csvchecker.py:87-92 | cleaning the rows twice equals cleaning them once |
| CsvChecker.CleanValidUnchanged | csvchecker.py:81-94 | a file whose cells are all valid text comes back unchanged |
| CsvChecker.CleanFailureKeepsOriginal | csvchecker.py:96-99 | on failure the temp file is gone, every other file is unchanged, and the message starts `error cleaning {name}: ` |
| CsvChecker.WriteUniqueRows | csvchecker.py:60-68 | the row loop writes the first row when it is not empty, then the first occurrence of each later row; it completes if and only if the volume takes all of them |
| CsvChecker.RemoveDuplicateRows | csvchecker.py:49-75 | the row loop with `seen` leaves the store of `DedupEffect`: the first row when it is not empty, then the first occurrence of each later row; the temp file replaces the original; an input with suffix `.tmp` is read as empty; errors are printed, not raised |
| CsvChecker.DedupTmpInputEmptied | csvchecker.py:54-55 | an input with suffix `.tmp` is also the temp file, so opening it for writing empties it before it is read: the dedup reports nothing, leaves it empty and changes no other file |
| CsvChecker.DedupOutput | csvchecker.py:60-70 | a non-empty first row comes first and an empty one is dropped; after it every later row appears once, none twice, in first-occurrence order; a later row equal to the first row stays; no other file changed |
| CsvChecker.DedupRowsAsWrittenShape | csvchecker.py:60-68 | the rows as written: a non-empty first row first, an empty one dropped, then every later row once, none twice, in first-occurrence order |
| CsvChecker.DedupRowsIdempotent | csvchecker.py:60-68 | the intended rule `DedupRows` (`if header is not None`) is idempotent; the rule as written is not (see Findings) |
| CsvChecker.DedupIdempotent | csvchecker.py:49-75 | running the row dedup on its own output succeeds, and it changes nothing if and only if the file did not start with two blank rows |
| CsvChecker.DedupRowsAsWrittenIdempotentIff | csvchecker.py:60-68 | the rule as written never lengthens its input, and is idempotent if and only if the input does not start with two blank rows |
| CsvChecker.BlankHeaderRerun | csvchecker.py:60-68 | after a blank first row the output is the first occurrences of the later rows, and a second run changes it if and only if the second row is blank too |
| CsvChecker.DedupFailureKeepsOriginal | csvchecker.py:72-75 | on failure the temp file is gone, every other file is unchanged, and the message starts `error processing {name}: ` |
| CsvChecker.BlankHeaderBreaksIdempotence | csvchecker.py:60-62 | as written, rows `[]`, `[]`, `["a"]` dedup to `[]`, `["a"]` and then to `["a"]`; the intended rule keeps all three |
| CsvChecker.AsWrittenAgreesOnNonEmptyHeader | csvchecker.py:60-68 | when the first row is non-empty, the rule as written equals the intended one and is idempotent |

## Left out

- `CSVProcessor._process_parallel` and the thread pool: concurrency is not modelled. Each operation is one call on one file.
- The menu, banner, screen clearing, GitHub link and directory listing of `CSVProcessor`: these are user interface.
- `funcs/convert_encoding.py` and `gpu/hipdf_funcs.py` are not part of this model.
- `gpu.cudf_funcs` is not part of this model. The `Process` methods take the GPU engine's effect as the parameter `gpu`.
- CSV parsing and quoting, and the polars reader's type inference and `ignore_errors`:
  - the line engines work on lines;
  - `csvchecker.py` works on rows that are already parsed;
  - the dataframe engines are modelled on lines, as if each line were one row and written back unchanged.
- RemoveDupes.StdlibIdempotent: the second run is given the lines the first run wrote, not a re-read of the file text. When the output puts a kept line ending in a lone `\r` right before a kept `\n` line, `readlines` joins the two on the next read, and the line engine is then not idempotent. For example, `h\na\r\na\ra\r\n\n` gives (4, 3), then (2, 1) with a second rewrite. Line splitting is not modelled.
- RemoveDupes.Polars: `unique(maintain_order=True)` is modelled as keeping the first occurrence of each row. Polars' default `keep='any'` does not guarantee which occurrence it keeps, and that choice decides where the row lands: `[a, b, a]` may become `[b, a]`. The model assumes `[a, b]`.
- Byte decoding: files are sequences of decoded lines or rows.
  - `errors='replace'` substitution is not modelled.
  - A `UnicodeDecodeError` in `_remove_duplicate_rows` (which opens without `errors=`) is not modelled.
  - How `readlines` splits text into lines is not modelled.
- Buffer sizes, the write batching's effect on I/O, and the atomicity of `replace` are not modelled. `replace` is one step on the store.
- Disk-full and other write failures are modelled only through `room`. A write call that does not fit writes nothing, and then the call raises. Permission errors and the like are not modelled separately.
- SplitCsv.Stdlib: on failure the contract states only that no file outside the chunk names changed. It does not state which partial chunk files were left.
- SplitCsv.Polars: on failure the contract states only that no file outside the chunk names changed. It does not state which partial chunk files were left.
- The existence of `output_dir` is not modelled: chunk files are always creatable.

## Findings

| source | as written | input that shows it | evidently intended | confidence | as-written member | corrected member |
|---|---|---|---|---|---|---|
| csvchecker.py:60-62 | `if header:` is false for an empty first row, so a blank first line is dropped and the first data row is the next header | a file of a blank line, a blank line, then `a`: one run leaves a blank line and `a`, a second run leaves `a` alone, so the dedup is not idempotent | `if header is not None:`, so the first row is always passed through | medium, not executed | CsvChecker.BlankHeaderBreaksIdempotence | CsvChecker.DedupRowsIdempotent |
