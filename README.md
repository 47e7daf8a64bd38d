# cli-reader, modelled in Dafny

`clireader.Reader` is an `io.Reader` that stands in for line-oriented
command-line input in tests. It is built from a list of strings. Each string
becomes one segment that ends in a newline: a newline is appended only when
the string lacks one, so `""` becomes `"\n"`. `Read(buf)` copies bytes of the
current segment into `buf`, starting at the cursor (`inputIndex`,
`byteIndex`), and never copies past the end of that segment. The result is:

- `(n, nil)` while the segment has more bytes;
- `(n, io.EOF)` when this copy finished the segment, which moves the cursor to
  the start of the next segment;
- `(0, io.EOF)` once every segment has been read, on this and every later call.

The project has two modules:

- `CliReader` (`reader.dfy`) models `reader.go`. It holds the class `Reader`
  with the immutable segments `inputs` and the two mutable cursor fields.
  `New` is the constructor, whose fill loop is `BuildSegments`. `Read` is a
  method that writes into the caller's `array<bv8>` in place. Go's builtin
  `copy` is `Copy`. Beside the class sits a pure reference model. `Step` is
  one `Read` as a function of the cursor and the buffer capacity. `Run` is a
  sequence of reads with arbitrary capacities. `Stream` is the bytes still to
  come. `Read`'s postcondition is tied to `Step`, and the lemmas about `Run`
  prove that no byte is lost, repeated or reordered, and that the exhausted
  state is terminal.
- `CliReaderTest` (`reader_test.dfy`) models how `reader_test.go` drives the
  reader. `ReadLine` calls `Read` with fresh buffers until `Eof` and
  concatenates the bytes. `ReadLines` does that once per segment.
  `ReadScript` is one run of `TestRead`: it builds a reader, reads one line
  per input and then makes a final read.

Between calls the offset is always strictly inside the current segment.
`Read` resets it to 0 as soon as a copy reaches the end of the segment
(reader.go:69-71), so an offset equal to the segment length is never stored.

Strings are byte sequences (`seq<bv8>`). The status `Status` has two values:
`Continue` stands for a `nil` error and `Eof` for `io.EOF`.

## Model

| member | source | states |
|---|---|---|
| CliReader.Normalize | reader.go:30-35 | the segment ends in a newline, starts with the input, and is at most one byte longer; it equals the input exactly when the input already ends in a newline (so `""` becomes a lone newline) |
| CliReader.NormalizeIdempotent | reader.go:32-34 | normalizing a segment again adds nothing, so no newline is ever doubled |
| CliReader.BuildSegments | reader.go:28-36 | one segment per input string, in the same order, segment i being Normalize(input i); every segment ends in a newline |
| CliReader.Reader.constructor | reader.go:27-39 | New: the reader holds Normalize of each input in order, satisfies the cursor invariant and starts at cursor (0, 0) |
| CliReader.Step | reader.go:56-76 | one Read: the bytes copied are the first min(capacity, unread) unread bytes of the current segment and nothing beyond it; Eof exactly when nothing of the segment is left unread; after Eof the cursor is at the start of the next segment, or unchanged when already exhausted; after Continue the offset has advanced by exactly the count; the cursor invariant is kept |
| CliReader.StepProgress | reader.go:63-76 | before exhaustion a non-empty buffer receives at least one byte, and an empty buffer gets (0, Continue) with the cursor unchanged |
| CliReader.EofCopiesUnread | reader.go:69-72 | a Read that reports Eof has copied all the unread bytes of the segment |
| CliReader.ContinueKeepsRest | reader.go:63-76 | a Read that reports Continue was not on an exhausted reader, copied at least one byte when the buffer is non-empty, and the copied bytes followed by what is still unread are what was unread before |
| CliReader.Copy | reader.go:64 | Go's copy: copies min(len(dst), len(src)) bytes to the front of dst, leaves the rest of dst unchanged, and returns the count |
| CliReader.Reader.Read | reader.go:52-77 | count, status and new cursor are those of Step on the old cursor and buf.Length; buf[..n] holds the copied bytes and buf[n..] is unchanged; an exhausted reader returns (0, Eof) and changes neither cursor nor buffer; a non-empty buffer receives bytes before exhaustion; the cursor invariant is kept |
| CliReader.StepConservesStream | reader.go:63-73 | the bytes one Read copies, followed by everything still to come after it, are exactly what was still to come before it |
| CliReader.RunKeepsCursor | reader.go:19-21 | after any number of Reads with any buffer sizes, the cursor invariant still holds |
| CliReader.RunConservesStream | reader.go:63-73 | for any sequence of buffer sizes, the concatenated copied bytes followed by the remaining stream equal the stream before the reads: no byte is lost, repeated or reordered |
| CliReader.RunReadsSegment | reader.go:63-76 | reading with any sequence of buffer sizes until the first Eof (every earlier Read answering nil) hands out exactly the unread rest of the current segment and leaves the cursor at the start of the next segment, or unchanged when already exhausted |
| CliReader.StreamAtSegmentStart | reader.go:69-71 | at the start of segment j, which is where an Eof leaves the cursor, the bytes still to come are segments j, j+1, ... laid end to end |
| CliReader.DeliveredIsPrefixOfInput | reader.go:52-77 | from a fresh reader, whatever the buffer sizes, everything Read has handed out is a prefix of the segments laid end to end |
| CliReader.RunFromExhausted | reader.go:56-59 | from an exhausted reader, every later Read with any buffer returns (0, Eof) and the cursor stays put |
| CliReaderTest.ReadLine | reader_test.go:132-143 | reading with fresh buffers of a positive size until Eof yields exactly the unread rest of the current segment, and leaves the reader at the start of the next segment; on an exhausted reader it yields nothing and the reader stays exhausted |
| CliReaderTest.ReadLineStep | reader_test.go:137-142 | one more Read in that loop keeps its progress invariant (gathered bytes plus unread bytes make up the line until Eof, the whole line after it) and, while Read continues, leaves fewer bytes unread |
| CliReaderTest.ReadLines | reader_test.go:131-148 | reading one line per segment from a fresh reader yields the segments in order and leaves the reader exhausted |
| CliReaderTest.ReadScript | reader_test.go:130-157 | a fresh reader read one line per input, with any positive buffer size, gives back each input normalized and in order, and the final Read returns (0, Eof) |

## Left out

- The `sync.Mutex` (reader.go:22, 28, 53-54). Its only job is to serialise concurrent callers, and the model is sequential, so each `Read` call is atomic.
- `io.EOF` and the `error` interface. They are replaced by the two-valued `Status`.
- `io.ReadAll` (reader_test.go:84-112, `TestReadAll`). It is a library loop whose buffer growth is not part of this repository. Its effect on the reader is a sequence of `Read` calls with varying buffer sizes up to the first `Eof`. `RunReadsSegment` states what that sequence returns: exactly one segment, with the cursor then at the start of the next one.
- The test-table helpers `inputs`, `outputs` and `Name` (reader_test.go:161-181). They build test names and tables with the external `go-collect` package and are not reader behaviour. The table's expected outputs (reader_test.go:25-82) are what `Normalize`'s contract states.
- Go string/byte conversion. Strings are byte sequences here.
- Go's fixed-width `int` for the cursor fields. The model uses unbounded `nat`, since an in-memory segment cannot reach the overflow point.
- CliReaderTest.ReadLine: requires a positive buffer size. With an empty buffer, `Read` returns `(0, nil)` for ever and the test's loop would not terminate.
