# fire-fasta in Dafny

A model of the core of the Rust crate `fire-fasta`, a zero-copy and lazy Multi-FASTA
parser, with proofs about it.

`parse_fasta` makes one forward pass over a byte buffer. Each record is a `>`, then a
description line, then a raw sequence that runs up to the next `>` or to the end of the
buffer. The parser copies nothing. A record borrows two slices of the input: its
description, which lacks the leading `>` and has no line feed (a `>` later in the line is
kept), and its raw sequence, which keeps its line
feeds. Parsing fails with `InvalidDescription` when the buffer does not start with `>`. It
fails with `EmptySequence` when the buffer ends on a description line. A record's
sequence is read lazily: `iter` filters out line feeds as it goes, and `copy_sequential`
copies the filtered bytes into one buffer of `size_hint` bytes.

Modules:

- `Memchr` (memchr.dfy) holds:
  - bytes and the two marker bytes (`\n` and `>`);
  - `memchr`, modelled by what it returns;
  - `memchr(..).unwrap_or(rest)`, which is the `FindOr` run length.
- `FastaSpec` (fasta_spec.dfy) holds:
  - the records `Fasta`, `FastaSequence` and `ParseError`, where borrowed slices are
    index ranges `Span` into the immutable input;
  - a reference definition of the parse: one step of the loop (`ScanRecord`), repeated
    (`ParseFrom`, `Parse`);
  - a declarative description of a well-formed file as a tiling of the buffer by records
    (`WellFormedRecord`, `RecordsFrom`, `Tiles`);
  - the bare-header condition behind `EmptySequence`;
  - the records written back out (`Unparse`).
- `FastaFacts` (fasta_facts.dfy) holds the lemmas relating the reference parse to the
  declarative description:
  - exactly when each error occurs;
  - that success means the records tile the buffer, soundly and completely, so the answer
    is unique;
  - the round trip that writing the records back out gives the buffer.
- `FastaParser` (fasta_parser.dfy) holds the imperative `parse_fasta` loop and `expect`,
  proved equal to the reference parse.
- `SequenceView` (sequence_view.dfy) holds `iter` as a line-feed filter with its algebra,
  `size_hint`, and the imperative `copy_sequential`. It is written over an array of
  `size_hint` bytes and proved to produce exactly the filtered stream.
- `Scenarios` (scenarios.dfy) holds the buffers of the crate's unit tests and a few edge
  cases, with the parse and copy results they yield.

## Model

| member | source | states |
|---|---|---|
| Memchr.Memchr | src/lib.rs:219 | `memchr` finds the first occurrence of the needle at or after the offset: the byte there is the needle and no earlier byte is; `None` means no needle occurs in the rest of the buffer |
| Memchr.FindOr | src/lib.rs:219 | the run measured by `memchr(..).unwrap_or(data.len() - cursor)` never reaches past the end of the buffer |
| Memchr.FindOrFirst | src/lib.rs:227 | the measured run holds no needle, and it ends at a needle unless it reaches the end of the buffer |
| Memchr.FindOrUnique | src/lib.rs:138 | any run length with those two properties is the measured one |
| Memchr.FindOrUnwrapsMemchr | src/lib.rs:219 | the run length is memchr's position, or the rest of the buffer when memchr finds nothing |
| FastaSpec.Slice | src/lib.rs:220 | a span borrows exactly `end - start` bytes of the buffer |
| FastaSpec.ParseFrom | src/lib.rs:212-240 | the loop run from a cursor, as a repetition of ScanRecord; on success it returns at least one record and no more records than bytes left, since every iteration moves the cursor forward (ParseFromSound, ParseFromComplete, ParseFromInvalid and ParseFromEmptySequence state the rest) |
| FastaSpec.Parse | src/lib.rs:203-243 | the reference for `parse_fasta`: a successful parse is empty exactly when the buffer is, and has no more records than bytes (ParseOkIffTiles, ParseRoundTrip, InvalidDescriptionIff and EmptySequenceIff state the rest) |
| FastaSpec.PushFront | src/lib.rs:232-235 | a record pushed in front of a successful result makes it one longer with that record first; an error stays the error |
| FastaSpec.Prepend | src/lib.rs:232-235 | the records pushed so far followed by those still to be found: succeeds exactly when the rest does, with the two counts added (PrependKeepsDone and PrependPushFront state the order) |
| FastaSpec.ScanRecord | src/lib.rs:212-239 | one iteration of the parse loop, when it goes on, moves the cursor strictly forward and stays inside the buffer |
| FastaFacts.ScanRecordSpec | src/lib.rs:212-239 | one iteration fails with `InvalidDescription` of the byte at the cursor exactly when that byte is not `>`; it fails with `EmptySequence` exactly when the buffer ends on the description line; otherwise the record it pushes is well formed and starts right after the cursor |
| FastaFacts.StopsAtInvalid | src/lib.rs:213-216 | a missing `>` ends the parse with that byte as the error, whatever records came before |
| FastaFacts.StopsAtBareHeader | src/lib.rs:219-225 | a description line that reaches the end of the buffer ends the parse with `EmptySequence`, whatever records came before |
| FastaFacts.PushesAndContinues | src/lib.rs:219-239 | an iteration that stops at a later `>` pushes description and sequence spans and the parse continues from that `>` |
| FastaFacts.PushesAndEnds | src/lib.rs:227-242 | an iteration whose sequence reaches the end of the buffer pushes its record, and the parse returns all records pushed |
| FastaFacts.FirstRecordScanned | src/lib.rs:212-239 | when records tile the buffer from the cursor, one iteration finds exactly the first of them |
| FastaFacts.ParseFromInvalid | src/lib.rs:213-216 | from a cursor, the parse fails with `InvalidDescription` exactly when the cursor's byte is not `>`: no later record can cause it |
| FastaFacts.InvalidDescriptionIff | src/lib.rs:90-98 | `parse_fasta` returns `InvalidDescription(b)` exactly when the buffer is not empty and its first byte `b` is not `>` |
| FastaFacts.ParseFromEmptySequence | src/lib.rs:219-225 | from a `>`, the parse fails with `EmptySequence` exactly when some later `>` opens a line that the buffer ends in |
| FastaFacts.EmptySequenceIff | src/lib.rs:195-196 | `parse_fasta` returns `EmptySequence` exactly when the buffer starts with `>` and ends in a bare description line |
| FastaFacts.ParseOkIff | src/lib.rs:191-199 | `parse_fasta` succeeds exactly when the buffer is empty, or it starts with `>` and does not end in a bare description line |
| FastaFacts.ParseFromSound | src/lib.rs:212-242 | the records a successful parse returns tile the buffer from the cursor |
| FastaFacts.ParseFromComplete | src/lib.rs:212-242 | any tiling of the buffer from the cursor is what the parse returns |
| FastaFacts.PrependPushFront | src/lib.rs:232-235 | pushing a record and then the rest gives the same outcome as pushing the record onto the records already found |
| FastaFacts.PrependKeepsDone | src/lib.rs:232-235 | the records pushed so far stay in front, unchanged, and the records found later follow them |
| FastaFacts.ParseOkIffTiles | src/lib.rs:203-243 | `parse_fasta` returns exactly the records `recs` if and only if `recs` tile the buffer: each is `>`, description, line feed, sequence free of `>`, in order, with no gap; the last sequence is not empty |
| FastaFacts.RecordsFromAt | src/lib.rs:232-235 | every record of a tiling is well formed; each is followed at once by the next one's `>`; the last one has a non-empty sequence that ends at the end of the buffer |
| FastaFacts.ParsedRecord | src/lib.rs:76-84 | every record `parse_fasta` returns has a description that follows its leading `>`, holds no line feed, ending at a line feed, and a sequence free of `>` right after it; the last sequence is not empty |
| FastaFacts.RecordText | src/lib.rs:220-229 | a well-formed record written back out is exactly its stretch of the buffer |
| FastaFacts.SliceJoin | src/lib.rs:229-230 | the slice up to the new cursor followed by the rest is the rest from the old cursor |
| FastaFacts.RecordsFromUnparse | src/lib.rs:212-242 | the records of a tiling, written back out, reproduce the buffer from the cursor byte for byte |
| FastaFacts.ParseRoundTrip | src/lib.rs:203-243 | after a successful parse every span lies in the buffer, and the records written back out are the whole buffer: the parse loses and invents nothing |
| FastaParser.Expect | src/lib.rs:248-255 | `expect` reports whether the byte at the cursor is the expected one, and advances the cursor by one exactly then |
| FastaParser.ParseFasta | src/lib.rs:203-243 | the imperative loop returns what the reference parse defines, errors included |
| SequenceView.Iter | src/lib.rs:123-125 | the filtered stream holds no line feed and is no longer than the raw sequence |
| SequenceView.IterAppend | src/lib.rs:123-125 | filtering a concatenation filters each part: the filter works byte by byte, in order |
| SequenceView.IterKeepsAllButNewlines | src/lib.rs:13-15 | the filter drops every line feed and keeps every other byte as often as it occurs |
| SequenceView.IterIdentity | src/lib.rs:21-23 | the filter leaves a sequence unchanged exactly when it holds no line feed, so CR and `;` are kept |
| SequenceView.IterWrap | src/lib.rs:117-121 | however a sequence is broken into lines, blank lines included, the filter reads back the lines joined |
| SequenceView.IterLine | src/lib.rs:124 | a line and its line feed filter to the line |
| SequenceView.WrapFirstLine | src/lib.rs:124 | the first line peels off both the wrapped and the joined text |
| SequenceView.IterLength | src/lib.rs:151-153 | the raw length is the filtered length plus the number of line feeds |
| SequenceView.SizeHint | src/lib.rs:156-158 | `size_hint` exceeds the filtered length by exactly the number of line feeds, so it bounds what `iter` yields |
| SequenceView.IterRunToNewline | src/lib.rs:138-141 | a run copied up to a line feed extends the filtered prefix by the run, and the line feed adds nothing |
| SequenceView.IterRunToEnd | src/lib.rs:138-145 | a last run copied up to the end completes the filtered sequence |
| SequenceView.IterRun | src/lib.rs:138-141 | one pass of the copy loop adds its run, unchanged, to the filtered prefix of what it consumes |
| SequenceView.CopySequential | src/lib.rs:133-149 | `copy_sequential` returns exactly the stream `iter` yields, within the `size_hint` buffer it allocates |
| Scenarios.EmptyFasta | src/tests.rs:4-7 | the empty buffer parses to no records, and no other record list describes it |
| Scenarios.NoLeadingHeader | src/lib.rs:94-98 | a buffer opening with `A` is rejected with `InvalidDescription(A)` |
| Scenarios.ClosingBareHeader | src/lib.rs:195-196 | a buffer whose last line is a description is rejected with `EmptySequence` |
| Scenarios.MultiSequence | src/tests.rs:38-62 | two records split at the `>`; the blank line stays in the first raw sequence, and `iter` of that sequence drops it, yielding `C` |
| Scenarios.HeaderThenHeader | src/lib.rs:223-235 | a description followed at once by `>` yields a record with an empty sequence, not an error |
| Scenarios.DescriptionWithGt | src/lib.rs:219-220 | a `>` inside a description line starts no record: `>A>B\nC` is one record with description `A>B` |
| Scenarios.EmptyDescription | src/tests.rs:10-17 | `>\nA` is one record with an empty description and sequence `A` |
| Scenarios.CopySequentialParse | src/tests.rs:86-89 | `>ABCD\n` plus the wrapped lines is one record with description `ABCD` whose raw sequence is the wrapped lines |
| Scenarios.WrappedLayout | src/tests.rs:87 | the test's sequence is four lines, each with its line feed, then `AT` |
| Scenarios.WrappedJoined | src/tests.rs:87 | the four lines joined |
| Scenarios.CopySequentialFilter | src/tests.rs:90-91 | the filtered, and hence copied, sequence of the test is `ATGGTACCCCGCAT` |
| Scenarios.CopySequentialCopies | src/tests.rs:86-91 | `copy_sequential` of the record parsed from the test buffer returns `ATGGTACCCCGCAT` |

## Left out

- The memchr crate's SIMD search is not modelled. Only its result is, as a first-occurrence
  search.
- Lifetimes and borrowing are not modelled. A borrowed slice is a `Span` of indices into the
  immutable input, and `Slice` gives its bytes.
- The `Display` and `Error` impls of `ParseError` (src/lib.rs:108-114) format the error
  with `Debug`. They are left out because the model has no text output.
- `parse_fasta_str` (src/lib.rs:180-182) only passes `s.as_bytes()` to `parse_fasta`. Its
  UTF-8 view of the input is not modelled.
- SequenceView.Iter: gives the whole filtered stream as a sequence. The laziness of the
  Rust iterator is not modelled. Neither is the cost of re-scanning on every traversal.
- SequenceView.CopySequential: does not model the single-allocation guarantee
  (src/lib.rs:131). It also does not model whether `truncate` followed by
  `into_boxed_slice` shrinks the buffer in place. The result is the prefix of the buffer
  that was written.
- Integer widths are not modelled: `usize` cursors are unbounded naturals. The loops only
  ever move a cursor to at most one past the end of the buffer, so no overflow arises for
  buffers that fit in memory.
- A description followed at once by `>` (`>a\n>b\nC`) gives a record whose sequence is
  empty, as Scenarios.HeaderThenHeader shows. The model follows the code here.
  `EmptySequence` is returned only when the buffer ends on the description line, as the
  documentation of `parse_fasta` says (src/lib.rs:195-196). The doc comment of
  `ParseError::EmptySequence` (src/lib.rs:103-104) reads as if any description with no
  sequence after it were an error. The code raises `EmptySequence` only when the buffer ends
  right after a description line, so only the last record's sequence is proved non-empty.
