# Enron e-mail dump parser

This project models the parser of the Enron analysis program (`enron.py`). The program takes the text of a dump of concatenated e-mails and cuts it on the literal marker `End Email`. It keeps every piece that a marker terminates and throws away whatever follows the last marker. From each kept chunk it pulls six fields (Message-ID, date, subject, sender, receiver and body), each with its own regular expression searched leftmost. It stores one `Email` record per chunk, in file order, and `main` reports how many records there are.

Modules:

- `Text` holds the search primitives: occurrence at an index, `str.find`, the end of a line, the last occurrence of a character in a range, and the ASCII word-character class with its longest run.
- `Split` models `file.split("End Email")` followed by `[:-1]`, together with the marker counting, joining and round-trip lemmas.
- `Fields` models the six patterns. Each one is a dedicated scanner that tries the pattern at one start index. `Search` is `re.search`, the leftmost start index where the scanner succeeds, and `Extract` gives the value stored in the record.
  - `Missing` stands for the placeholder string `' '`.
  - `Found(g)` stands for the one-element tuple `(g,)` returned by `.groups()`.
- `Enron` holds the `Email` record, the `Server` class whose constructor builds `emails` with a loop, and `CountEmails`, which is `main`.
- `Scenarios` works a two-message dump through the model.

How the patterns are modelled:

- Date and Subject (`(.*)`): the capture is the rest of the line, because `.` does not match a newline.
- Message-ID (`<.+>`): the greedy `.+` backs off to the last `>` on the line of the leftmost `Message-ID: <` that can be closed.
- Sender and receiver (`\w*.\w*.\w*.com` and `\w*.\w*@\w*.com`): `AddressEnd` follows the backtracking order of the regular-expression engine. Each `\w*` first takes its longest run and then gives characters back one at a time. The scanner is proved sound and complete against `AddressShape`, the order-free meaning of the pattern. `PreferredEnd` states independently which end that order picks: every `\w*` keeps the longest run after which the rest of the pattern can still finish. The scanner returns that end, and it is the only end with this property. For `abccomcom` after `From: `, both `abccom` and `abccomcom` have the shape, and the model, like the engine, captures `abccomcom`. The dots in these patterns are unescaped in the source, so each one matches any character except a newline; the model keeps them that way.
- Body (`FileName((?:.*?\n?)*)\n`): the capture starts after the leftmost `FileName` that has a newline somewhere after it and ends just before the last newline of the chunk.

## Model

| member | source | states |
|---|---|---|
| Text.LineEnd | enron.py:46 | the end of the line from an index: no newline before it, and it is either the end of the text or a newline; it is where `.*` and `.+` stop |
| Text.WordRun | enron.py:58 | the longest run of word characters from an index: every character of it is a word character and the next one is not; it is where each `\w*` starts backing off |
| Text.IndexOf | enron.py:34 | the leftmost occurrence of the marker at or after a position, or none at all; it is the scan `str.split` performs |
| Split.SplitFrom | enron.py:34 | `str.split` of the text from a position, cut at each leftmost marker in turn: there is always at least one piece |
| Split.SplitAll | enron.py:34 | the list `split` returns: one more piece than there are markers; joined back with the marker it gives the text; no piece contains the marker |
| Split.Chunks | enron.py:34-35 | `split_file[:-1]`: as many chunks as there are markers, none containing the marker |
| Split.Remainder | enron.py:34-35 | the piece `[:-1]` drops, the text after the last marker: it never contains the marker |
| Split.DelimiterCount | enron.py:34-35 | the number of marker occurrences in the file: zero exactly when the file has no marker |
| Split.MarkerSelfDisjoint | enron.py:34 | two occurrences of `End Email` never overlap, so counting occurrence positions gives the non-overlapping count |
| Split.SplitCount | enron.py:34 | `split` yields exactly one piece more than the number of marker occurrences |
| Split.SplitPiecesFree | enron.py:34 | no piece of the split contains the marker |
| Split.SplitJoin | enron.py:34 | joining the pieces with the marker gives back the text exactly |
| Split.SplitUnique | enron.py:34 | any cut of the text into marker-free pieces separated by markers is the split; the split is the only one |
| Split.ChunksRoundTrip | enron.py:34-35 | every chunk followed by the marker, then the discarded last piece, reproduces the file; neither the chunks nor the discarded piece contain the marker |
| Split.ChunkCount | enron.py:34-35 | the number of chunks equals the number of marker occurrences; a file without the marker has no chunks |
| Split.TrailingTextIgnored | enron.py:34-35 | text after the last marker never becomes a chunk, empty or not, and is exactly the discarded piece |
| Fields.RestOfLineAt | enron.py:46 | `prefix(.*)` matches at an index exactly when the prefix occurs there; the capture starts right after the prefix and runs to the next newline or the end |
| Fields.MessageIdAt | enron.py:39 | the Message-ID pattern tried at a start index: a match needs the prefix there, and its capture starts right after the prefix with `<` and ends with `>` |
| Fields.MessageIdAtGreedy | enron.py:39 | the Message-ID scanner fails exactly when no `>` closes the `<` on its line; otherwise it closes at the last such `>` |
| Fields.AddressEnd | enron.py:58-68 | the end of the address the backtracking order finds from an index, inside the text; the lemmas below state which end it is |
| Fields.AddressEndSound | enron.py:58-68 | every end the address scanner returns makes the text an address of the pattern's shape |
| Fields.AddressEndComplete | enron.py:58-68 | whenever some end makes the text an address of the pattern's shape, the scanner finds a match |
| Fields.AddressShapeFacts | enron.py:58-68 | an address of the shape ends in `com`, is at least six characters, holds no newline, and holds `@` when the pattern demands one |
| Fields.TryWordRunsStop | enron.py:58-68 | trying a `\w*` run from its longest length downwards stops at the longest length after which a separator and the rest of the pattern match, and returns the rest's end |
| Fields.AddressEndPreferred | enron.py:58-68 | every end the address scanner returns is the end the backtracking order prefers |
| Fields.PreferredFinishes | enron.py:58-68 | the preferred end makes the text an address of the pattern's shape |
| Fields.PreferredEndUnique | enron.py:58-68 | there is at most one preferred end, so it pins down which of several matching ends is captured |
| Fields.AddressAt | enron.py:58-68 | the sender or receiver pattern tried at a start index: a match needs the prefix there, and its capture starts right after the prefix |
| Fields.AddressAtExact | enron.py:58-68 | the scanner at a start index succeeds exactly when the address pattern can match there, and its capture is such a match |
| Fields.AddressAtPreferred | enron.py:58-68 | the capture of the scanner at a start index ends at the end the backtracking order prefers |
| Fields.BodyAt | enron.py:70 | the body match at an index exists exactly when `FileName` occurs there with a newline after it; the capture ends at the last newline of the text |
| Fields.MatchAt | enron.py:39-74 | one of the six patterns tried at a start index: a match needs the pattern's prefix there, and its capture starts right after the prefix and stays inside the text |
| Fields.Search | enron.py:39-74 | `re.search`: the start index returned matches and no earlier one does; no result means no index matches |
| Fields.SearchUnique | enron.py:39-74 | a matching index with no match before it is the one the search returns |
| Fields.Extract | enron.py:39-74 | the value stored for a field: the placeholder or a contiguous slice of the chunk |
| Fields.ExtractLeftmost | enron.py:39-74 | a field is the placeholder exactly when the pattern matches nowhere; otherwise it is the capture of the leftmost match |
| Fields.RestOfLineField | enron.py:46-56 | Date or Subject is the placeholder exactly when its prefix is absent; otherwise it is the rest of the line after the first prefix, with no newline |
| Fields.MessageIdMissing | enron.py:39-43 | Message-ID is the placeholder exactly when no `Message-ID: <` is closed by a `>` later on its line |
| Fields.MessageIdField | enron.py:39-43 | a found Message-ID starts with `<`, ends with `>`, has at least three characters and no newline, and runs from the leftmost closable prefix to the last `>` on that line |
| Fields.AddressMissing | enron.py:58-68 | sender or receiver is the placeholder exactly when no prefix is followed by an address |
| Fields.AddressField | enron.py:58-68 | a found sender or receiver ends in `com`, has at least six characters and no newline; a receiver contains `@` |
| Fields.AddressLeftmost | enron.py:58-68 | a found sender or receiver is the text after the leftmost prefix that is followed by an address; that address matches the pattern and ends at the end the backtracking order prefers, the only such end |
| Fields.BodyField | enron.py:70-74 | the body is the placeholder exactly when no `FileName` has a newline after it; otherwise it is the text after the first `FileName` up to the last newline |
| Enron.EmailParsed | enron.py:39-77 | the `Email` record of a chunk (enron.py:97-114): each of its six fields is the leftmost capture of its own pattern in that chunk, or the placeholder when the pattern matches nowhere |
| Enron.RecordsParsed | enron.py:38-77 | the records of a list of chunks: one per chunk, in order, record i being the `Email` of chunk i alone and parsed as above |
| Enron.Server.constructor | enron.py:17-77 | the loop leaves `emails` equal to the records of the file's chunks, as many as there are markers |
| Enron.CountEmails | enron.py:116-128 | the number of records is the number of marker occurrences, and zero when the file has no marker |
| Scenarios.SampleChunks | enron.py:34-35 | a dump of two terminated blocks gives those two blocks as chunks, in order |
| Scenarios.SampleMessageId | enron.py:39-43 | the identifier of a sample block is captured with its angle brackets |
| Scenarios.SampleDate | enron.py:46-50 | the date of a sample block is the rest of its `Date: ` line |
| Scenarios.SampleSubject | enron.py:52-56 | a block without a `Subject:` line has the placeholder as its subject |

## Left out

- Opening, reading and UTF-8 decoding of the file (enron.py:31-32) are I/O and are not modelled. The constructor takes as its argument the text that `f.read()` returns in text mode. Python has already applied universal-newline translation to that text: `\r\n` and a lone `\r` both become `\n`. `Text.LineEnd`, and the facts that Date, Subject and Message-ID hold no newline, agree with the program only on translated text; they do not treat `\r` as a line end. Errors from opening the file are not part of this model.
- Command-line parsing and the entry point (enron.py:130-151) are process plumbing and are not modelled.
- There is no general regular-expression engine. Each of the six fixed patterns is a dedicated scanner.
- Fields.BodyAt: it states the result of `FileName((?:.*?\n?)*)\n` directly, as the text after `FileName` up to the last newline. It does not replay the engine's backtracking through the nested lazy and greedy repetitions.
- Text.IsWordChar: it covers only ASCII letters, digits and underscore. Python's `\w` on a `str` also takes non-ASCII letters and digits.
- The `Email` record is an immutable datatype. The source creates an object with six attributes and never changes them after construction.
