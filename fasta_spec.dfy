/** The parser's data types and a reference definition of what `parse_fasta` returns.
    Borrowed slices of the input buffer are index ranges into the immutable input. */
module FastaSpec {
  import opened Memchr

  /** A half-open range `[start, end)` of the input buffer: a borrowed `&[u8]`. */
  datatype Span = Span(start: nat, end: nat) {
    predicate Within(data: seq<Byte>) {
      start <= end <= |data|
    }
  }

  /** The bytes a span borrows. */
  function Slice(data: seq<Byte>, s: Span): (r: seq<Byte>)
    requires s.Within(data)
    ensures |r| == s.end - s.start
  {
    data[s.start..s.end]
  }

  /** One record: its description (without the leading `>` and without the line feed that
      ends it) and its raw sequence (line feeds still in it). */
  datatype FastaSequence = FastaSequence(description: Span, sequence: Span)

  /** A parsed Multi-FASTA file: its records in file order. */
  datatype Fasta = Fasta(sequences: seq<FastaSequence>)

  datatype ParseError =
    | InvalidDescription(invalid: Byte)  // the byte found where `>` was expected
    | EmptySequence                      // a description that the buffer ends right after

  datatype Result<T> = Ok(value: T) | Err(error: ParseError)

  /** What one iteration of the parse loop does from the cursor `cursor`. */
  datatype Step =
    | Stop(error: ParseError)                 // it returns an error
    | Last(rec: FastaSequence)                // it pushes `rec` and the cursor reaches the end
    | Next(rec: FastaSequence, next: nat)     // it pushes `rec` and continues at `next`

  /** One iteration of the parse loop: `>` expected at the cursor, the description up to
      the next line feed, the sequence from after it up to the next `>`. */
  function ScanRecord(data: seq<Byte>, cursor: nat): (s: Step)
    requires cursor < |data|
    ensures s.Next? ==> cursor < s.next < |data|
  {
    if data[cursor] != GT then Stop(InvalidDescription(data[cursor]))
    else
      var headerEnd := cursor + 1 + FindOr(LF, data, cursor + 1);
      if headerEnd + 1 >= |data| then Stop(EmptySequence)
      else
        var seqEnd := headerEnd + 1 + FindOr(GT, data, headerEnd + 1);
        var rec := FastaSequence(Span(cursor + 1, headerEnd), Span(headerEnd + 1, seqEnd));
        if seqEnd >= |data| then Last(rec) else Next(rec, seqEnd)
  }

  /** The records the parse loop delimits when its cursor stands at `cursor`: at least one,
      and no more than the bytes left, since every iteration moves the cursor forward. */
  function ParseFrom(data: seq<Byte>, cursor: nat): (r: Result<seq<FastaSequence>>)
    requires cursor < |data|
    ensures r.Ok? ==> 1 <= |r.value| <= |data| - cursor
    decreases |data| - cursor
  {
    match ScanRecord(data, cursor)
    case Stop(e) => Err(e)
    case Last(rec) => Ok([rec])
    case Next(rec, next) => PushFront(rec, ParseFrom(data, next))
  }

  /** `rec` followed by the records of `r`, or the error of `r`. */
  function PushFront(rec: FastaSequence, r: Result<seq<FastaSequence>>): (pushed: Result<seq<FastaSequence>>)
    ensures pushed.Ok? <==> r.Ok?
    ensures pushed.Ok? ==> |pushed.value| == |r.value| + 1 && pushed.value[0] == rec
  {
    match r
    case Ok(rest) => Ok([rec] + rest)
    case Err(e) => Err(e)
  }

  /** What `parse_fasta` returns for `data`: a buffer that parses holds at least one record
      unless it is empty, and never more records than bytes. */
  function Parse(data: seq<Byte>): (r: Result<Fasta>)
    ensures r.Ok? ==> (|r.value.sequences| == 0 <==> |data| == 0)
    ensures r.Ok? ==> |r.value.sequences| <= |data|
  {
    if |data| == 0 then Ok(Fasta([]))
    else Prepend([], ParseFrom(data, 0))
  }

  /** The outcome of the parse once the records in `done` precede those found from here on. */
  function Prepend(done: seq<FastaSequence>, r: Result<seq<FastaSequence>>): (p: Result<Fasta>)
    ensures p.Ok? <==> r.Ok?
    ensures p.Ok? ==> |p.value.sequences| == |done| + |r.value|
  {
    match r
    case Ok(rest) => Ok(Fasta(done + rest))
    case Err(e) => Err(e)
  }

  // ---------------------------------------------------------------------------
  // Declarative descriptions of a well-formed file, independent of the scan.

  /** A record laid out as the format requires: `>` right before the description, no line
      feed inside the description, a line feed right after it, the sequence straight after
      that line feed, and no `>` inside the sequence. */
  ghost predicate WellFormedRecord(data: seq<Byte>, r: FastaSequence) {
    && 1 <= r.description.start <= r.description.end
    && r.sequence.start == r.description.end + 1
    && r.sequence.start <= r.sequence.end <= |data|
    && data[r.description.start - 1] == GT
    && data[r.description.end] == LF
    && (forall i :: r.description.start <= i < r.description.end ==> data[i] != LF)
    && (forall i :: r.sequence.start <= i < r.sequence.end ==> data[i] != GT)
  }

  /** `recs` cover `data[c..]` record after record, with no gap and no overlap, and the
      last record's sequence is not empty. */
  ghost predicate RecordsFrom(data: seq<Byte>, c: nat, recs: seq<FastaSequence>)
    decreases |recs|
  {
    if recs == [] then c == |data|
    else
      && WellFormedRecord(data, recs[0])
      && recs[0].description.start == c + 1
      && (|recs| == 1 ==> recs[0].sequence.start < recs[0].sequence.end)
      && RecordsFrom(data, recs[0].sequence.end, recs[1..])
  }

  /** `recs` partition the whole buffer. */
  ghost predicate Tiles(data: seq<Byte>, recs: seq<FastaSequence>) {
    RecordsFrom(data, 0, recs)
  }

  /** The `>` at `p` starts a line that runs to the end of the buffer, apart from at most
      one final line feed: a description after which no sequence byte can follow. */
  ghost predicate BareHeaderAt(data: seq<Byte>, p: nat) {
    p < |data| && data[p] == GT && forall i :: p < i < |data| - 1 ==> data[i] != LF
  }

  ghost predicate EndsInBareHeader(data: seq<Byte>) {
    exists p: nat :: BareHeaderAt(data, p)
  }

  /** Every span of every record lies inside the buffer. */
  ghost predicate SpansWithin(data: seq<Byte>, recs: seq<FastaSequence>) {
    forall r :: r in recs ==> r.description.Within(data) && r.sequence.Within(data)
  }

  /** The text of the records written back out: `>`, description, line feed, sequence. */
  function Unparse(data: seq<Byte>, recs: seq<FastaSequence>): (text: seq<Byte>) {
    if recs == [] then []
    else Record(data, recs[0]) + Unparse(data, recs[1..])
  }

  /** One record written back out: `>`, description, line feed, sequence; empty when its
      spans do not lie in the buffer. */
  function Record(data: seq<Byte>, r: FastaSequence): (text: seq<Byte>) {
    if r.description.Within(data) && r.sequence.Within(data)
    then [GT] + Slice(data, r.description) + [LF] + Slice(data, r.sequence)
    else []
  }
}
