# bibtex_to_xlsx in Dafny

A model of `bibtex_to_xlsx.py`, the one-file tool that reads a BibTeX file,
rewrites its author lists, turns every entry into a numbered
`(title, author, venue)` row and copies the collected paper files under
those row titles. The model follows the script's own steps:

- `unwrap.dfy` — `_remove_up_to`, the edge trim that peels at most `times`
  of each delimiter off both ends of a value and then takes a Python slice
  (with `s[b:-0]` being empty). `RemoveUpTo` keeps the two counting loops
  and the counter dictionaries and is proved to compute `EdgeTrim`.
- `parser.dfy` — `_read_bibtex_from_file` over the lines of the file: the
  state is the dictionary `bibs`, the entry opened last and the
  continuation buffer `previous_line`; `ReadBibtex` is the loop, proved to
  compute the functional reader `Parse`.
- `authors.dfy` — `standard_author_name`: split on every occurrence of the
  substring `and`, strip each piece, swap `Last, First`, join with `", "`
  and drop the last separator with `[:-2]`.
- `export.dfy` — the row rule of `_write_bibtex`: title
  `str(i + 1 + 600) + "-" + title`, venue by the exact `cite_type` tag,
  abort on a missing field.
- `rename.dfy` — the name rule of `_rename_files`: nine forbidden
  characters to `_`, truncation to 230 characters, extension after the
  last `.`, files paired with titles by position.
- `formatter.dfy` — `format_bibtex`, the four steps in a row.
- `text.dfy`, `bibliography.dfy`, `wrappers.dfy` — Python's string
  operations (`strip`, `split`, `count`, `replace`, slices, `str(int)`),
  the insertion-ordered dictionary, and `Option`/`Result`.

Every place where the script stops before the copy loop — a failed
`assert`, an unpacking error, a `KeyError`, the use of `entry` before any
`@` line, `quit()` after a failed row — is an error value of the model. A
run that reaches the copy loop is an `Ok` value holding the rows and the
copies made; the `IndexError` the script raises there when there are more
files than titles is the run's `overflow` flag, set after the copies the
titles allow.

Behaviours of the script that the model keeps, some of them surprising:

- a header line is split on every `{`, not only the first, so a one-line
  entry such as `@article{k1, title={T1}, ...}` is a `BadHeader` error;
- the cite type and key have every comma removed, not only trailing ones;
- `and` is split as a substring anywhere (`"Alexander"` splits too), and a
  piece is split at every comma, keeping the first two parts;
- normalising authors is not idempotent in general: a field holding `and`
  can change again on a second pass (`"A and B"` becomes `"A, B"`, which a
  second pass turns into `"B A"`), while a single `Last, First` with both parts
  non-empty, or a plain name, is left as it is by a second pass;
- the check that no continuation is pending when an `@` line arrives can
  never fail: a pending line is joined in front of the `@` line, and the
  joined line no longer starts with `@`;
- a value with no delimiter at its end (`year = 2020`) is stored as the
  empty string, because the slice ends at `-0`;
- the cite type is stored inside the entry under `"cite_type"`;
- a missing `cite_type` or `author` stops the run before the row rule's
  own `try`; a file path without `.` has the whole path as its extension;
- more files than titles stops the run after the first `len(titles)`
  copies; fewer files is no error.

## Model

| member | source | states |
|---|---|---|
| Bibliography.Bib.Insert | bibtex_to_xlsx.py:62 | `bibs[key] = entry` maps `key` to the new entry; a new key is appended to the order, an existing key keeps its first position, and the keys stay distinct |
| Bibliography.Bib.SetField | bibtex_to_xlsx.py:73 | `entry[name] = value` on a stored entry changes only that field of that entry and keeps the key order |
| Unwrap.RemoveUpTo | bibtex_to_xlsx.py:21-39 | the two counting loops and the slice return exactly `EdgeTrim(s, chars, times)` |
| Unwrap.CountCuts | bibtex_to_xlsx.py:22-29 | the counter dictionary has exactly the characters of `chars` as keys, and each counter is how often that character occurs in the cut prefix |
| Unwrap.SumCounts | bibtex_to_xlsx.py:36 | the sum of the counter values, each distinct character once |
| Unwrap.CutCountersSum | bibtex_to_xlsx.py:36-37 | the summed counters are the number of leading characters cut |
| Unwrap.CutFromSpec | bibtex_to_xlsx.py:25-29 | the forward scan only passes characters that may still be cut, and stops at the first one that may not |
| Unwrap.LeadingCutSpec | bibtex_to_xlsx.py:25-29 | the leading cut is a cuttable prefix, and the character after it is not cuttable |
| Unwrap.EdgeTrimSlice | bibtex_to_xlsx.py:36-39 | the result is `s[b .. len(s)-a]` when the back cut `a` is positive and the cuts do not meet, and the empty string otherwise |
| Unwrap.EmptyUnlessClosed | bibtex_to_xlsx.py:30-39 | a value whose last character is not a delimiter has no back cut and comes out empty |
| Unwrap.CutOnceDistinct | bibtex_to_xlsx.py:25-29 | with `times = 1` every cut character is in the set and no character is cut twice |
| Unwrap.AtMostThreeDistinctDelimiters | bibtex_to_xlsx.py:73 | at most three distinct characters of `"{},"` fit in a cut |
| Unwrap.DelimiterCuts | bibtex_to_xlsx.py:73 | with `"{},"` and `times = 1`, at most three characters are cut from each end, all delimiters, pairwise distinct |
| Unwrap.UnwrapRoundTrip | bibtex_to_xlsx.py:73 | `{v}`, `{v},` and `v,` all unwrap back to `v` when `v` does not start or end with a delimiter |
| Parser.ReadBibtex | bibtex_to_xlsx.py:42-75 | the loop over the lines returns exactly `Parse(lines)` |
| Parser.ReadLine | bibtex_to_xlsx.py:49-73 | one pass of the loop body returns exactly `Step` of the same state and line |
| Parser.ReadHeader | bibtex_to_xlsx.py:58-63 | the `@` branch returns exactly `OpenEntry` of the same state and line |
| Parser.ReadField | bibtex_to_xlsx.py:64-73 | the field branch returns exactly `FieldOrContinue` of the same state and line |
| Parser.SplitField | bibtex_to_xlsx.py:72-73 | the name is the stripped text before the first `=`, the value the unwrapped stripped text after it |
| Parser.Parse | bibtex_to_xlsx.py:42-75 | a successful read gives a dictionary whose keys are listed once each in insertion order and whose entries all carry `cite_type` |
| Parser.Step | bibtex_to_xlsx.py:49-73 | a step keeps the reader's invariant: the dictionary is well formed, the current entry is in it, every entry has a cite type, and a pending line does not start with `@` |
| Parser.StepCases | bibtex_to_xlsx.py:51-66 | a skipped line changes nothing; otherwise the pending text is joined in front with one space, an `@` line opens an entry only with nothing pending, and every other line goes to the field rule |
| Parser.SkippedLineIgnored | bibtex_to_xlsx.py:51-53 | inserting a line that is empty or starts with `%` or `}` after stripping anywhere in the input does not change the result |
| Parser.StepKeepsOrder | bibtex_to_xlsx.py:62 | a step only appends keys to the insertion order |
| Parser.OpenEntryAppends | bibtex_to_xlsx.py:62 | opening an entry keeps the existing key order as a prefix |
| Parser.FieldKeepsKeys | bibtex_to_xlsx.py:66-73 | a field line never adds or reorders cite keys |
| Parser.KeysOnlyGrow | bibtex_to_xlsx.py:47-73 | over any number of lines the earlier key order stays a prefix |
| Parser.HeaderLine | bibtex_to_xlsx.py:58-62 | an `@` line succeeds exactly when it holds one `{`; then the cite type is the text before it and the key the text after it, commas removed and stripped, and the new entry holds only its cite type |
| Parser.HeaderOpens | bibtex_to_xlsx.py:60-62 | with one `{` the entry is stored under its key with its cite type, and becomes the current entry |
| Parser.HeaderSplit | bibtex_to_xlsx.py:60 | `split("{")` unpacks into two parts exactly when the line holds one `{`, and the parts are the text before and after it |
| Parser.HoldUnbalanced | bibtex_to_xlsx.py:66-69 | a field line with more `{` than `}` is held as `previous_line` and stores nothing |
| Parser.JoinedStep | bibtex_to_xlsx.py:55 | with a line held, the next line is read as `previous_line + " " + line` |
| Parser.ContinuationJoin | bibtex_to_xlsx.py:55-69 | an unbalanced line followed by any non-skipped line reads as the single line joined by one space |
| Parser.FieldCases | bibtex_to_xlsx.py:66-71 | a line without `=` is an error, an unbalanced one is held, and a balanced one before any `@` line is an error |
| Parser.StoreField | bibtex_to_xlsx.py:71-73 | a balanced field line sets that field of the current entry and clears `previous_line` |
| Parser.FieldLine | bibtex_to_xlsx.py:66-73 | the line `name = {v},` sets field `name` of the current entry to `v` |
| Parser.FieldLineValue | bibtex_to_xlsx.py:72-73 | `name = {v},` splits into `name` and the value `v` |
| Parser.FieldLineText | bibtex_to_xlsx.py:51-67 | such a line is its own strip, is neither skipped nor a header, holds `=` and has no more `{` than `}` |
| Parser.ContinuedField | bibtex_to_xlsx.py:55-73 | `name = {v1` followed by `v2},` on the next line sets the field to `v1 + " " + v2` |
| Authors.NormalizeField | bibtex_to_xlsx.py:120-129 | the loop over the pieces with `[:-2]` at the end returns `NormalizedAuthors(field)` |
| Authors.RewritePiece | bibtex_to_xlsx.py:123-126 | one pass of the loop body returns exactly `RewriteName` of the piece |
| Authors.RewriteName | bibtex_to_xlsx.py:123-126 | a rewritten piece holds no comma, and a piece without a comma is only stripped |
| Authors.StandardAuthorName | bibtex_to_xlsx.py:118-130 | the loop over the entries returns `StandardAuthorNames(b)` |
| Authors.StandardAuthorNamesSpec | bibtex_to_xlsx.py:118-130 | it fails exactly when some entry has no `author`, naming such an entry; otherwise it keeps the key order and every entry's only change is its normalised `author` |
| Authors.NormalizeKeysOutcome | bibtex_to_xlsx.py:119-120 | over any list of keys, it succeeds exactly when each has an `author`, and an error names a key without one |
| Authors.NormalizeKeysEntries | bibtex_to_xlsx.py:119-129 | over distinct keys, exactly the listed entries are normalised and all others are unchanged |
| Authors.TerminatedJoin | bibtex_to_xlsx.py:127 | appending `name + ", "` for each name is the join with `", "` plus one trailing separator |
| Authors.DropLastSep | bibtex_to_xlsx.py:127-128 | `[:-2]` leaves exactly the names joined with `", "` |
| Authors.CommaCount | bibtex_to_xlsx.py:120-128 | the output holds exactly one comma fewer than there are pieces after splitting on `and` |
| Authors.SwapParts | bibtex_to_xlsx.py:124-126 | the piece `last, first` is rewritten to `first last` |
| Authors.LastFirst | bibtex_to_xlsx.py:120-128 | a field `last, first` without `and` normalises to `first last` |
| Authors.DoeJane | bibtex_to_xlsx.py:120-128 | `"Doe, Jane"` normalises to `"Jane Doe"` |
| Authors.TwoAuthors | bibtex_to_xlsx.py:120-128 | a field with one `and` gives the two rewritten pieces joined by `", "` |
| Authors.TwoPlainAuthors | bibtex_to_xlsx.py:120-128 | `a and b` with plain names gives `a, b` |
| Authors.PlainNameStable | bibtex_to_xlsx.py:120-128 | a field with no comma and no `and` normalises to itself stripped, and normalising again changes nothing |
| Authors.LastFirstStable | bibtex_to_xlsx.py:120-128 | a field `last, first` without `and` (before or after the swap) is left unchanged by a second normalisation |
| Authors.NotIdempotent | bibtex_to_xlsx.py:120-128 | `"A and B"` normalises to `"A, B"`, which normalises to `"B A"` |
| Export.WriteBibtex | bibtex_to_xlsx.py:77-100 | the loop over the entries returns exactly `Table(b)` |
| Export.Rows | bibtex_to_xlsx.py:79-95 | a finished table has one row per entry |
| Export.RowsOutcome | bibtex_to_xlsx.py:80-94 | the table is built exactly when every entry has `cite_type`, `title` and `author` |
| Export.RowsContent | bibtex_to_xlsx.py:79-91 | row `i` is titled `str(i + 1 + 600) + "-" + title`, carries the author unchanged and the venue by the venue rule |
| Export.VenueRule | bibtex_to_xlsx.py:80-91 | `@inproceedings` takes `booktitle` and `@article` takes `journal` when present; every other case is the empty venue |
| Export.FirstError | bibtex_to_xlsx.py:80-94 | the first incomplete entry stops the run: without `cite_type` it is a lookup error at its index, otherwise the abort that prints that entry |
| Export.NumberedParts | bibtex_to_xlsx.py:89 | a numbered title determines both its number and the original title |
| Export.DistinctNumbers | bibtex_to_xlsx.py:89 | different numbers give different titles whatever the original titles |
| Export.TitlesDistinct | bibtex_to_xlsx.py:89-91 | the row titles are pairwise distinct |
| Rename.SanitizeName | bibtex_to_xlsx.py:110-113 | the replacement loop and the truncation return `Sanitized(title)` |
| Rename.ReplacedChars | bibtex_to_xlsx.py:111-112 | after the first `k` replacements each of those characters is `_` and every other character is unchanged |
| Rename.SanitizedChars | bibtex_to_xlsx.py:111-113 | the name has length `min(230, len(title))`, and each character is `_` where the title has a forbidden character and the title's own character elsewhere |
| Rename.SanitizedSafe | bibtex_to_xlsx.py:111-113 | no forbidden character is left |
| Rename.SanitizedIdempotent | bibtex_to_xlsx.py:111-113 | sanitising a sanitised name changes nothing |
| Rename.ExtensionAfterLastDot | bibtex_to_xlsx.py:114 | the extension holds no `.` and is what follows the last `.`; a path without `.` is its own extension |
| Rename.TargetsApart | bibtex_to_xlsx.py:115 | different names give different targets whatever the extensions |
| Rename.RenameFiles | bibtex_to_xlsx.py:109-115 | file `i` is copied to `out_papers/<sanitised title i>.<extension>` for every file with a title, and the `overflow` flag (the script's `IndexError` at line 110) is set exactly when there are more files than titles |
| Formatter.FormatBibtex | bibtex_to_xlsx.py:13-18 | the four steps return exactly `Pipeline(lines, files)` |
| Formatter.PipelineOutcome | bibtex_to_xlsx.py:13-18 | a run reaches the copy loop (an `Ok` value) exactly when the file parses and every entry has `author` and `title`; whether the copy loop then overflows is the `overflow` flag of Formatter.PipelineRows |
| Formatter.PipelineRows | bibtex_to_xlsx.py:13-18 | after a successful run row `i` is the `i`-th parsed entry with its number, normalised authors and venue; `min(len(rows), len(files))` files are copied, and the overflow is flagged exactly when there are more files than rows |
| Formatter.NormalizedKeepsOthers | bibtex_to_xlsx.py:129 | normalising authors changes no other field, so titles and venues are those of the parsed entry |
| Formatter.SanitizedNumbered | bibtex_to_xlsx.py:89-113 | sanitising a numbered title keeps its number prefix |
| Formatter.CopiesApart | bibtex_to_xlsx.py:103-115 | the copies made from a table have pairwise different targets |
| Formatter.PipelineCopiesApart | bibtex_to_xlsx.py:13-18 | a successful run never copies two files to the same target |
| Text.SplitCount | bibtex_to_xlsx.py:60 | splitting on a one-character separator (`"{"` here, also `","` at line 125 and `"."` at line 114) gives one more piece than it has occurrences |
| Text.Split | bibtex_to_xlsx.py:120 | `str.split(sep)`: at least one piece, the pieces joined with `sep` give back the input, and no piece holds `sep` |
| Text.SplitOnce | bibtex_to_xlsx.py:120 | a string with one occurrence of the separator splits into the text before and after it |
| Text.DecimalRoundTrip | bibtex_to_xlsx.py:89 | `str(n)` is all digits and reads back as `n` |
| Text.DecimalInjective | bibtex_to_xlsx.py:89 | different numbers have different decimal strings |
| Text.StripIsSlice | bibtex_to_xlsx.py:51 | `strip()` returns a slice of its input |

## Left out

- Reading `in.bib` (lines 43-44): the reader takes the file's lines as a sequence.
- pandas (`DataFrame`, `append`, `to_csv`, `to_excel`, lines 78, 95-98): the table is the sequence of `Row` values it would hold; the CSV and spreadsheet files are not modelled.
- The file system in `_rename_files` (`makedirs`, `glob`, the sort by `st_ctime`, `copyfile`; lines 106-108, 115): the sorted file list is an input and the copies are returned as `(source, target)` pairs.
- `print` and `quit()` (lines 93-94, 104) and the script lines 133-134: the abort is an error value; console output is not modelled.
- In-place updates of the entry dictionaries (lines 62, 73, 129) are modelled as new dictionary values; the source never shares one entry dictionary between two keys, so no aliasing is lost.
- Parser.ContinuedField: stated for one field spread over two lines whose pieces hold no brace; other continuations are covered by Parser.ContinuationJoin and Parser.JoinedStep line by line.
- Parser.FieldLine: stated for values that neither start nor end with a delimiter and have no more `{` than `}`; other values are covered by Parser.StoreField and Unwrap.EdgeTrimSlice.
- Unwrap.UnwrapRoundTrip: holds only for values that do not start or end with a delimiter, since the script cuts those too.
- Formatter.PipelineCopiesApart: assumes the row numbers have at most 229 digits, so truncation to 230 characters cannot cut into the number.
- Formatter.CopiesApart: the same digit bound as Formatter.PipelineCopiesApart.
