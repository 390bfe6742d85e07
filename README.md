# Billion-row challenge pipeline, modelled in Dafny

The repository solves the "one billion rows" challenge three times, once per
crate: `pure` (OS threads and `mpsc` channels), `all_goes` (tokio tasks sharing
mutex-protected scalars) and `tokio` (tokio tasks and a reducer task). Each one
has the same three parts:

1. A reader loop. It reads the input file into two buffers in turn and cuts
   the stream into chunks that end on a line boundary.
2. A per-chunk parser. It folds `key;value\n` records into a table
   from key to (min, max, sum, count). `all_goes` folds plain numbers into one
   (min, sum, max, total) tuple.
3. A reducer. It merges each chunk's result into a global result.

This project models the three parts for every variant. It proves what each one
computes.

Layout, by module:

- `Common` (common.dfy): bytes, the separators `\n`, `;` and the zero byte,
  first-occurrence search, the split of a buffer at its first newline, zero
  buffers, and `Outcome`, what one iteration of a reader loop does.
- `Stats` (stats.dfy): the per-key tuple, its fold step `Add`, its merge
  `Merge` and the algebra between them. `f64` becomes an unbounded integer
  strictly between `-f64::MAX` and `f64::MAX`.
- `Text` (text.dfy): the complete lines of a chunk and the partial line after
  them.
- `Records` (records.dfy): records, the table a sequence of parsed records
  folds into (`Tabulate`), the fatal first parse failure, and the table merge.
- `Encoding` (encoding.dfy): the file format one record per line, the
  reference the parsers' round trips are proved against.
- `PureParser`, `TokioParser`, `AllGoesParser`: the three chunk parsers. Each is
  an imperative method proved equal to a declarative definition of the records
  it folds:
  - `PureParser` drops leading newlines, stops at the first zero byte and
    splits each line at its first `;`;
  - `TokioParser` takes, on each line, the field before the line's last `;` as
    the key and the field after it as the value;
  - `AllGoesParser` parses each whole line as a number and skips blank lines
    and lines that do not parse.
- `Reducer` (reducer.dfy): the reducer task of `pure` and `tokio` as a class
  owning the global table.
- `Boundary` (boundary.dfy): the splice that `all_goes` and `tokio` share, and
  one reader iteration after a non-empty read, with its conservation law.
- `AllGoesScanner`, `TokioScanner`, `PureScanner`: the three reader loops as
  classes. Each `Step` is one iteration of the loop, and the bytes the read
  returned are its parameter. `pure` works on two fixed arrays, so its reader
  keeps them as `array<byte>`. The other two work on `Vec`s that are resized
  and `split_off` in place, so their readers keep them as `seq<byte>` fields.

Three behaviours of the code show up in the model as written, without a
correction:

- The `tokio` reader marks a short read with a single zero byte
  (tokio/src/main.rs:73-76), but the `tokio` parser does not stop at zero
  bytes. The bytes left behind that sentinel by earlier reads stay in the
  buffer that becomes the next chunk (`TokioScanner.AfterRead`), and
  `TokioParser.TokioRecords` folds any complete line among them.
- The `all_goes` parser parses each whole line as a number
  (all_goes/src/main.rs:159-160), so a `key;value` line is skipped as
  unparseable and only bare numbers are counted.
- The `tokio` parser gives a line without `;` the name of the line before it
  (tokio/src/main.rs:128-142), and each chunk starts with the empty name. So
  the key of such a line depends on where the reader cut the file
  (`TokioParser.CutChangesName`), and the reducer's totals hold only for how
  the records are grouped into tables once they are parsed.

## Model

| member | source | states |
|---|---|---|
| Common.Position | pure/src/main.rs:106 | `iter().position`: `None` exactly when the byte is absent; otherwise an index holding the byte with none before it |
| Common.ThroughNewline | pure/src/main.rs:134-139 | the bytes pushed from the current buffer: a prefix of it ending in its first newline, or all of it when it has none |
| Common.AfterNewline | all_goes/src/main.rs:73 | `split_off(idx + 1)`: what follows the first newline; together with `ThroughNewline` it rebuilds the buffer and is strictly shorter |
| Common.Zeros | all_goes/src/main.rs:14-15 | `vec![0; n]` has `n` bytes, all zero |
| Stats.Add | pure/src/main.rs:205-214 | one fold adds one to the count and the value to the sum; the new min is the smaller of the old min and the value, the new max the larger |
| Stats.Merge | pure/src/main.rs:66-75 | the reducer's per-key merge adds sums and counts and keeps the smaller min and the larger max |
| Stats.Summary | pure/src/main.rs:205-214 | folding values from the `or_insert` identity: the count is their number and the sum their sum; no values give the identity |
| Stats.SummarySnoc | pure/src/main.rs:205-214 | folding one more value is one `Add` on the summary so far |
| Stats.SummaryExtremes | pure/src/main.rs:208-213 | the folded min and max are values folded, and every value lies between them |
| Stats.FirstFold | pure/src/main.rs:206-214 | a key's first value `v` gives `(v, v, v, 1)` from `(f64::MAX, f64::MIN, 0, 0)` |
| Stats.MergeIdentity | pure/src/main.rs:67 | merging with the `or_insert` identity changes nothing, on either side |
| Stats.MergeCommutes | pure/src/main.rs:66-75 | the merge does not depend on the order of its two arguments |
| Stats.MergeAssociates | pure/src/main.rs:66-75 | the merge is associative |
| Stats.MergeSummaries | pure/src/main.rs:66-75 | merging the summaries of two runs of values is the summary of the two runs together |
| Records.ParseRecordsMeaning | pure/src/main.rs:203-220 | parsing succeeds exactly when every record's value parses, giving each record's key and value in order; otherwise the error names the first record whose value does not parse |
| Records.TabulateMeaning | pure/src/main.rs:205-214 | the table built by folding parsed records holds exactly their keys, and each key's entry is the summary of that key's values in order |
| Records.TabulateSnoc | pure/src/main.rs:205-214 | one more record is one `entry().or_insert()` fold on the table so far |
| Records.ParseErrorSticks | pure/src/main.rs:216-220 | after a value that does not parse (a panic), the records after it change nothing |
| Records.MergeTables | pure/src/main.rs:64-76 | the merged table has the keys of both tables; an incoming key's entry is the merge of its old entry (the identity when new) with the incoming one; other keys are unchanged |
| Records.MergeTabulated | pure/src/main.rs:63-77 | merging the tables of two runs of records is the table of the two runs together |
| Records.FoldRecordsMeaning | pure/src/main.rs:198-237 | folding records fails exactly when some value does not parse, with the first such record; otherwise every key's entry summarises that key's values |
| Text.Split | all_goes/src/main.rs:154 | `split(b'\n')` always yields a last part, the bytes after the last newline |
| Text.LinesPartition | all_goes/src/main.rs:154 | the complete lines, each followed by its newline, and then the last part give back the chunk |
| Text.LinesHaveNoNewline | all_goes/src/main.rs:154 | the complete lines are the pieces between newlines: none of them holds a newline |
| Text.LinesAppend | all_goes/src/main.rs:154 | after a prefix ending in a newline, the lines of the rest follow the prefix's lines |
| PureParser.DropLeadingNewlines | pure/src/main.rs:198 | `skip_while(b'\n')`: what is left is no longer than the chunk and does not start with a newline |
| PureParser.DroppedNewlines | pure/src/main.rs:198 | what is left is a suffix of the chunk, and every byte dropped before it is a newline |
| PureParser.UpToNul | pure/src/main.rs:226-228 | the scan stops at the first zero byte: a zero-free prefix that is the whole input or is followed by a zero |
| PureParser.KeyField | pure/src/main.rs:199-201 | the name is the bytes before the line's first `;`, or the whole line when it has none |
| PureParser.ValueField | pure/src/main.rs:230-234 | the number is the bytes after the first `;` with every later `;` dropped, and empty when the line has no `;` |
| PureParser.LineRecordsMeaning | pure/src/main.rs:202-225 | every complete line gives exactly one record, its name and number |
| PureParser.RunMeaning | pure/src/main.rs:198-235 | the byte-at-a-time name/number/doing-name machine produces the records of the complete lines scanned, and stops at the first number that fails to parse |
| PureParser.SpawnedWorking | pure/src/main.rs:189-238 | the worker's table is the fold of the chunk's records, or the first parse failure |
| PureParser.AbortIsFirstError | pure/src/main.rs:216-220 | when a parse failure occurs, the chunk's result is that failure whatever follows |
| PureParser.NulEndsChunk | pure/src/main.rs:226-228 | no byte after the first zero byte is ever folded |
| PureParser.LeadingNewlineSkipped | pure/src/main.rs:198 | a leading newline changes nothing |
| PureParser.PartialLineDropped | pure/src/main.rs:202-225 | bytes after the last newline fold no record |
| PureParser.PureRoundTrip | pure/src/main.rs:189-238 | a chunk holding records without separators or zero bytes, one per line, parses back to exactly those records |
| TokioParser.LastField | tokio/src/main.rs:131-133 | the bytes since the last `;`, which hold no `;` |
| TokioParser.LastFieldSuffix | tokio/src/main.rs:131-133 | the last field is the suffix of the line that starts at the line's beginning or right after a `;` |
| TokioParser.TokioLineRecords | tokio/src/main.rs:130-152 | one record per complete line: a line with a `;` gives the field before its last `;` as the key; a line without one keeps the previous key; the value is always the field after the last `;` |
| TokioParser.RunMeaning | tokio/src/main.rs:130-153 | the indexed scan over `idx` and `name` produces the records of the complete lines scanned, stops at the first value that fails to parse, and keeps the current key and the field in progress |
| TokioParser.SpawnedWorking | tokio/src/main.rs:123-156 | the worker's table is the fold of the chunk's records, or the first parse failure |
| TokioParser.Abort | tokio/src/main.rs:135-138 | a value that fails to parse (`unwrap` panics) is the chunk's result whatever follows |
| TokioParser.CutChangesName | tokio/src/main.rs:128-142 | a line without `;` takes the name of the line before it when both are in one chunk, and the empty name when a cut separates them |
| TokioParser.NameCarried | tokio/src/main.rs:130-142 | a line without `;` after a line with one gets that line's name |
| TokioParser.PartialRecordDropped | tokio/src/main.rs:134-152 | bytes after the chunk's last newline fold no record |
| TokioParser.TokioRoundTrip | tokio/src/main.rs:123-156 | a chunk holding records without separators, one per line, parses back to exactly those records |
| AllGoesParser.Fold | all_goes/src/main.rs:161-169 | one parsed number adds to the sum and the total and updates min and max |
| AllGoesParser.LineValues | all_goes/src/main.rs:154-175 | at most one number per line |
| AllGoesParser.LineValuesFrom | all_goes/src/main.rs:156-160 | every number collected is the parse of a line that is neither empty nor starts with a zero byte |
| AllGoesParser.NextLine | all_goes/src/main.rs:155-170 | one more line leaves the tuple unchanged when it is blank or does not parse, and folds its number in otherwise |
| AllGoesParser.ProcessChunk | all_goes/src/main.rs:148-179 | the chunk's tuple is the fold of the numbers of its parseable lines, in order |
| AllGoesParser.ScalarMeaning | all_goes/src/main.rs:149-170 | the total counts exactly the parsed lines, the sum is their sum, the min is their min, and the max is their max if positive, else the starting 0 |
| AllGoesParser.ScalarBounds | all_goes/src/main.rs:151-168 | the max is at least 0, every parsed number lies between min and max, and the min is one of them |
| AllGoesParser.ZeroTailIgnored | all_goes/src/main.rs:156 | zero padding after a chunk's last newline adds no number |
| AllGoesParser.LineValuesAppend | all_goes/src/main.rs:155-176 | the numbers of two runs of lines are the numbers of each run, in order |
| AllGoesParser.Absorb | all_goes/src/main.rs:131-145 | the shared scalars absorb a chunk's tuple: the smaller min, the larger max, the added sums and totals |
| AllGoesParser.AbsorbScalars | all_goes/src/main.rs:122-146 | absorbing the tuple of a run of numbers into the tuple of earlier ones gives the tuple of all of them |
| AllGoesParser.Totals.constructor | all_goes/src/main.rs:18-21 | the shared scalars start with min `f64::MAX` and max, sum and total 0 |
| AllGoesParser.Totals.SpawnedThread | all_goes/src/main.rs:122-146 | one task absorbs its chunk's tuple into the shared scalars, taken one task at a time |
| Reducer.Results.constructor | pure/src/main.rs:61 | the global table starts empty |
| Reducer.Results.Receive | pure/src/main.rs:64-76 | the reducer loop leaves the global table equal to its merge with the incoming table; `tokio/src/main.rs:28-40` is the same loop |
| Reducer.ReduceTabulated | pure/src/main.rs:63-77 | reducing the workers' tables from empty gives the table of all their records together, however the records are grouped into tables |
| Reducer.ReceiveOrderFree | pure/src/main.rs:64-76 | the order in which two tables arrive does not change the global table |
| Boundary.Splice | all_goes/src/main.rs:67-91 | the clone-and-push loop yields the chunk and shortened current buffer the splice defines, or a panic on an empty pending buffer |
| Boundary.SplicedPrefix | all_goes/src/main.rs:68-76 | the chunk is the whole pending buffer followed by a prefix of the current one |
| Boundary.SplicedWhole | all_goes/src/main.rs:69 | a pending buffer ending in a newline is sent as it is and the current buffer is untouched |
| Boundary.SplicedConserves | all_goes/src/main.rs:69-76 | otherwise, when the current buffer has a newline: chunk followed by the new current buffer is pending followed by current, and the chunk ends in its only newline after the pending part |
| Boundary.SplicedRepeats | all_goes/src/main.rs:70-76 | when the current buffer has no newline, it is appended whole and also kept |
| Boundary.AdvanceFirst | all_goes/src/main.rs:62-65 | the first read is never sent; it becomes the pending buffer |
| Boundary.AdvancePanics | all_goes/src/main.rs:69 | a later iteration panics exactly when the pending buffer is empty, and otherwise sends a chunk |
| Boundary.AdvanceLater | all_goes/src/main.rs:62-101 | a splice that repeats no byte sends a chunk ending in a newline; the chunk and the new pending buffer hold exactly the old pending buffer and the read, and the buffers swap roles |
| Boundary.DispatchStep | all_goes/src/main.rs:67-101 | each sending iteration extends the law "chunks sent, then the pending buffer, are the bytes read" by one chunk when it repeats no byte |
| AllGoesScanner.Filled | all_goes/src/main.rs:58-60 | after a short read every byte from `len` to the buffer's end is zero |
| AllGoesScanner.Fill | all_goes/src/main.rs:58-60 | the `iter_mut().skip(len)` loop leaves the buffer the read bytes followed by zeros |
| AllGoesScanner.EndSendsPending | all_goes/src/main.rs:36-56 | at end of file the pending buffer is sent whole |
| AllGoesScanner.FirstRead | all_goes/src/main.rs:58-65 | the first read is not sent; it becomes the pending buffer, its bytes then zeros |
| AllGoesScanner.Reader.constructor | all_goes/src/main.rs:13-15 | two zeroed `SIZE` buffers and `chunk_idx` 0 |
| AllGoesScanner.Reader.Step | all_goes/src/main.rs:23-102 | one loop iteration moves the buffers exactly as the step definition says; the loop ends exactly on end of file or a panic; each chunk sent is appended to the record of chunks sent, and each non-empty read that does not panic appends the buffer as filled (the read bytes, then zero padding) to the image of the input; at end of file the chunks sent equal that image if no splice repeated bytes |
| AllGoesScanner.Reader.Finish | all_goes/src/main.rs:36-57 | the end-of-file branch, including the panic of the debugging slices on a buffer shorter than ten bytes |
| AllGoesScanner.Reader.Deliver | all_goes/src/main.rs:62-101 | the iteration after a non-empty read: keep, or splice and send |
| TokioScanner.Resized | tokio/src/main.rs:62-65 | a buffer shorter than half of `buf_size` grows to `buf_size` with zeros; otherwise it is unchanged |
| TokioScanner.Resize | tokio/src/main.rs:62-65 | the `resize` before each read |
| TokioScanner.AfterRead | tokio/src/main.rs:66-76 | the read overwrites the head; a read shorter than the pre-resize length writes one zero after its bytes and leaves the rest of the buffer as it was |
| TokioScanner.Overwrite | tokio/src/main.rs:73-76 | the sentinel write `chunk[len] = 0` |
| TokioScanner.ShortReadMarked | tokio/src/main.rs:62-76 | after any read that does not fill the buffer the next byte is zero: the sentinel or the resize's padding |
| TokioScanner.EndSendsPending | tokio/src/main.rs:68-72 | at end of file the pending buffer is sent whole |
| TokioScanner.FirstRead | tokio/src/main.rs:78-81 | the first read is not sent; it becomes the pending buffer |
| TokioScanner.Reader.constructor | tokio/src/main.rs:19-21 | two zeroed `buf_size` buffers and `chunk_idx` 0 |
| TokioScanner.Reader.Step | tokio/src/main.rs:54-112 | one loop iteration moves the buffers exactly as the step definition says; the loop ends exactly on end of file or a panic; each chunk sent is appended to the record of chunks sent, and each non-empty read that does not panic appends the buffer as filled (the read bytes, the zero sentinel, then the stale bytes behind it) to the image of the input; at end of file the chunks sent equal that image if no splice repeated bytes |
| TokioScanner.Reader.Finish | tokio/src/main.rs:68-72 | the end-of-file branch sends the pending buffer |
| TokioScanner.Reader.Deliver | tokio/src/main.rs:78-111 | the iteration after a non-empty read: keep, or splice and send |
| PureScanner.Overwritten | pure/src/main.rs:96-100 | a read of `len` bytes overwrites the array's first `len` bytes and leaves the others as they were |
| PureScanner.Next | pure/src/main.rs:95-165 | one iteration of the loop, with the corrected end-of-file branch of the finding below; its contract states only that both arrays keep `BUF_SIZE` bytes, and the lemmas after it state what each iteration sends |
| PureScanner.FirstReadKept | pure/src/main.rs:116-121 | the first read is not sent; it becomes the pending array and `prev_len` its length |
| PureScanner.SecondChunk | pure/src/main.rs:123-139 | the second read sends the whole first array followed by the second array through its first newline |
| PureScanner.LaterChunk | pure/src/main.rs:123-155 | a later read sends the pending array after its first newline, or all of it when it has none, followed by the current array through its first newline, or all of it when it has none; the chunk ends in a newline when the current array has one |
| PureScanner.ResentWithoutNewline | pure/src/main.rs:123-155 | when the current array has no newline, it is sent whole at the end of this chunk and again at the start of the next one |
| PureScanner.ChunksMeet | pure/src/main.rs:123-155 | the part of an array that ends one chunk and the part that starts the next make up that array |
| PureScanner.FinalWithinRead | pure/src/main.rs:103-115 | at end of file the chunk runs from the pending array's first newline to `prev_len`, never past the last read; nothing is sent without a newline; a first newline past `prev_len` panics |
| PureScanner.SingleReadSent | pure/src/main.rs:103-115 | with the correction below, a file that fits in one read is sent whole at end of file |
| PureScanner.FirstLineLost | pure/src/main.rs:103-115 | as written, a file that fits in one read loses its first line at end of file |
| PureScanner.Reader.constructor | pure/src/main.rs:37-39 | two zeroed arrays, `chunk_idx` 0 and `prev_len` 0 |
| PureScanner.Reader.Step | pure/src/main.rs:95-165 | one loop iteration changes the arrays, `chunk_idx` and `prev_len` exactly as the step definition says, and the loop ends exactly on end of file or a panic |
| PureScanner.Reader.Finish | pure/src/main.rs:103-115 | the end-of-file branch, using the correction below |
| PureScanner.Read | pure/src/main.rs:96-100 | `file.read` into an array overwrites its first `len` bytes only |
| PureScanner.PushThrough | pure/src/main.rs:134-139 | the push loop appends the current array through its first newline |

## Findings

| source | as written | input that shows it | evidently intended | confidence | as-written member | corrected member |
|---|---|---|---|---|---|---|
| pure/src/main.rs:103-115 | at end of file the pending array is sent from its first newline to `prev_len`, even when `chunk_idx` is 1 and that array was never sent | a file `A;1\nB;2\n` that fits in one read: the final chunk is `\nB;2\n`, so the record `A;1` is never folded | at `chunk_idx` 1 send the first `prev_len` bytes whole, as the splice at pure/src/main.rs:125-128 does | not executed | PureScanner.FinalAsWritten, PureScanner.FirstLineLost | PureScanner.Final, PureScanner.SingleReadSent |

## Left out

- File and process plumbing: opening the file, `env::args`, timing and all
  printing. Each read is the `data` parameter of a reader's `Step`: any byte
  string no longer than the buffer. The `tokio` buffer size and the `pure`
  worker count are read from the arguments; `buf_size` is the reader's
  constructor parameter, and the worker count is not modelled. The one
  printing statement that can change behaviour is kept: the `all_goes`
  debugging slices that panic on a short buffer.
- Concurrency: threads, tokio tasks, channels, joins and awaits. The workers'
  results are modelled as received one table at a time.
  `Reducer.ReceiveOrderFree` shows that the arrival order of two tables does
  not matter.
- The routing of chunks to workers by `chunk_idx % num_workers`. It decides
  only which channel carries a chunk.
- AllGoesParser.Totals.SpawnedThread: models the mutex updates of
  all_goes/src/main.rs:131-145 as one task at a time. Each scalar is read and
  written under two separate lock acquisitions, so concurrent tasks can lose
  updates, and the model does not capture that race.
- Floating point: `f64` values are integers strictly between `-f64::MAX` and
  `f64::MAX`, and sums are exact. Rounding, infinities and NaN are not
  modelled.
- Number parsing: `parse::<f64>` is a parameter `parse` of the parsers, a
  partial function from bytes to values.
- UTF-8 decoding: `std::str::from_utf8(..).unwrap()` in tokio and all_goes,
  and the `as char` pushes in pure. Keys stay byte strings, and the panic on
  invalid UTF-8 is not modelled.
- PureParser.SpawnedWorking: the debugging slice `&chunk[0..20]` in the
  parse-error branch panics first on a chunk shorter than 20 bytes. This
  panic is not distinguished from the parse panic: both end the worker, and
  the model returns the parse error.
- Integer widths: the `u32` counts and the `tokio`/`all_goes` total, and
  `chunk_idx`, are unbounded naturals. Wrap-around after 2^32 records or
  iterations is not modelled.
- Read sizes: a buffer shortened by `split_off` makes later reads request
  fewer bytes. The model captures the shorter buffer, because `data` is
  bounded by its length, but not how many bytes a real read would return.
- PureScanner.Next: its end-of-file arm is the corrected branch of the
  finding above. The as-written branch is `PureScanner.FinalAsWritten`.
- PureScanner.Reader.Step: follows the corrected end-of-file branch through
  `PureScanner.Next`, so on the as-written code it differs at end of file at
  iteration 1.
- PureScanner.Reader.Finish: sends what `PureScanner.Final` sends. At
  iteration 1 the code as written sends only the pending array from its first
  newline to `prev_len` (`PureScanner.FinalAsWritten`), or nothing when it has
  no newline.
