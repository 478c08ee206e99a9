/** `parse_fasta` and its helper `expect`: one forward cursor over the buffer, pushing a
    record per iteration onto a growing list. */
module FastaParser {
  import opened Memchr
  import opened FastaSpec
  import FastaFacts

  /** `expect`: when the byte at `cursor` is `expected`, step over it. */
  method Expect(data: seq<Byte>, expected: Byte, cursor: nat) returns (found: bool, next: nat)
    requires cursor < |data|
    ensures found <==> data[cursor] == expected
    ensures found ==> next == cursor + 1
    ensures !found ==> next == cursor
  {
    if data[cursor] == expected {
      next := cursor + 1;
      found := true;
    } else {
      next := cursor;
      found := false;
    }
  }

  /** `parse_fasta`: the records of a Multi-FASTA buffer, or the first error met. */
  method ParseFasta(data: seq<Byte>) returns (r: Result<Fasta>)
    ensures r == Parse(data)
  {
    var sequences: seq<FastaSequence> := [];
    if |data| == 0 {
      return Ok(Fasta(sequences));
    }
    var cursor: nat := 0;
    while true
      invariant cursor < |data|
      invariant Parse(data) == Prepend(sequences, ParseFrom(data, cursor))
      decreases |data| - cursor
    {
      ghost var start := cursor;
      var found;
      found, cursor := Expect(data, GT, cursor);
      if !found {
        FastaFacts.StopsAtInvalid(data, sequences, start);
        return Err(InvalidDescription(data[cursor]));
      }
      var headerEnd := FindOr(LF, data, cursor);
      var description := Span(cursor, cursor + headerEnd);
      cursor := cursor + headerEnd + 1;
      if cursor >= |data| {
        FastaFacts.StopsAtBareHeader(data, sequences, start);
        return Err(EmptySequence);
      }
      var sequenceEnd := FindOr(GT, data, cursor);
      var sequence := Span(cursor, cursor + sequenceEnd);
      cursor := cursor + sequenceEnd;
      var rec := FastaSequence(description, sequence);
      assert rec == FastaSequence(Span(start + 1, description.end), Span(description.end + 1, cursor));
      if cursor < |data| {
        FastaFacts.PushesAndContinues(data, sequences, start, description.end, cursor);
      } else {
        FastaFacts.PushesAndEnds(data, sequences, start, description.end, cursor);
      }
      sequences := sequences + [rec];
      if cursor >= |data| {
        break;
      }
    }
    r := Ok(Fasta(sequences));
  }
}
