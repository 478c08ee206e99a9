/** What `parse_fasta` guarantees: when each of its two errors is raised, and that a
    successful parse is the one and only way to cut the buffer into records. */
module FastaFacts {
  import opened Memchr
  import opened FastaSpec

  // ---------------------------------------------------------------------------
  // One iteration of the parse loop

  /** What one iteration finds from the cursor `c`: InvalidDescription exactly when the
      cursor is not on `>`, EmptySequence exactly when the `>` opens a bare description
      line, and otherwise a well-formed record, with no bare description line starting
      anywhere inside it, after which the loop ends or continues at a `>`. */
  lemma ScanRecordSpec(data: seq<Byte>, c: nat)
    requires c < |data|
    ensures ScanRecord(data, c) == Stop(InvalidDescription(data[c])) <==> data[c] != GT
    ensures ScanRecord(data, c) == Stop(EmptySequence) <==> BareHeaderAt(data, c)
    ensures !ScanRecord(data, c).Stop? ==>
              var rec := ScanRecord(data, c).rec;
              && WellFormedRecord(data, rec)
              && rec.description.start == c + 1
              && rec.sequence.start < |data|
              && (forall p: nat :: c <= p < rec.sequence.end ==> !BareHeaderAt(data, p))
    ensures ScanRecord(data, c).Last? ==> ScanRecord(data, c).rec.sequence.end == |data|
    ensures ScanRecord(data, c).Next? ==>
              ScanRecord(data, c).rec.sequence.end == ScanRecord(data, c).next
              && data[ScanRecord(data, c).next] == GT
  {
    if data[c] == GT {
      FindOrFirst(LF, data, c + 1);
      var h := c + 1 + FindOr(LF, data, c + 1);
      if h + 1 < |data| {
        FindOrFirst(GT, data, h + 1);
        var e := h + 1 + FindOr(GT, data, h + 1);
        forall p: nat | c <= p < e
          ensures !BareHeaderAt(data, p)
        {
          if p < h {
            assert p < h < |data| - 1 && data[h] == LF;
          }
        }
      }
    }
  }

  /** An iteration from `c` that finds no `>` ends the parse with InvalidDescription,
      whatever records `done` were pushed before. */
  lemma StopsAtInvalid(data: seq<Byte>, done: seq<FastaSequence>, c: nat)
    requires c < |data| && data[c] != GT
    ensures Prepend(done, ParseFrom(data, c)) == Err(InvalidDescription(data[c]))
  {
  }

  /** An iteration from a `>` at `c` whose description line the buffer ends in (or ends
      one line feed after) ends the parse with EmptySequence. */
  lemma StopsAtBareHeader(data: seq<Byte>, done: seq<FastaSequence>, c: nat)
    requires c < |data| && data[c] == GT
    requires c + 1 + FindOr(LF, data, c + 1) + 1 >= |data|
    ensures Prepend(done, ParseFrom(data, c)) == Err(EmptySequence)
  {
  }

  /** An iteration that finds the `>` at `c`, the description's line feed at `h` and a
      sequence ending at the next `>` at `e` pushes the record it delimits, and the parse
      goes on from `e`. */
  lemma PushesAndContinues(data: seq<Byte>, done: seq<FastaSequence>, c: nat, h: nat, e: nat)
    requires c < |data| && data[c] == GT
    requires h == c + 1 + FindOr(LF, data, c + 1) && h + 1 < |data|
    requires e == h + 1 + FindOr(GT, data, h + 1) && e < |data|
    ensures Prepend(done, ParseFrom(data, c))
            == Prepend(done + [FastaSequence(Span(c + 1, h), Span(h + 1, e))], ParseFrom(data, e))
  {
    var rec := FastaSequence(Span(c + 1, h), Span(h + 1, e));
    assert ScanRecord(data, c) == Next(rec, e);
    PrependPushFront(done, rec, ParseFrom(data, e));
  }

  /** An iteration that finds the `>` at `c`, the description's line feed at `h` and a
      sequence running to the end of the buffer pushes the record it delimits, and the
      parse ends with the records pushed so far. */
  lemma PushesAndEnds(data: seq<Byte>, done: seq<FastaSequence>, c: nat, h: nat, e: nat)
    requires c < |data| && data[c] == GT
    requires h == c + 1 + FindOr(LF, data, c + 1) && h + 1 < |data|
    requires e == h + 1 + FindOr(GT, data, h + 1) && e >= |data|
    ensures Prepend(done, ParseFrom(data, c))
            == Ok(Fasta(done + [FastaSequence(Span(c + 1, h), Span(h + 1, e))]))
  {
    assert ScanRecord(data, c) == Last(FastaSequence(Span(c + 1, h), Span(h + 1, e)));
  }

  /** The first record of a tiling from `c` is the one the loop iteration from `c`
      delimits, and the loop stops after it exactly when it is the last one. */
  lemma FirstRecordScanned(data: seq<Byte>, c: nat, recs: seq<FastaSequence>)
    requires RecordsFrom(data, c, recs) && recs != []
    ensures c < |data|
    ensures ScanRecord(data, c) == if |recs| == 1 then Last(recs[0]) else Next(recs[0], recs[0].sequence.end)
  {
    var r := recs[0];
    var rest := recs[1..];
    assert RecordsFrom(data, r.sequence.end, rest);
    if rest != [] {
      assert WellFormedRecord(data, rest[0]);
    }
    FindOrUnique(LF, data, c + 1, r.description.end - (c + 1));
    FindOrUnique(GT, data, r.sequence.start, r.sequence.end - r.sequence.start);
  }

  // ---------------------------------------------------------------------------
  // InvalidDescription

  /** Every later record boundary the loop reaches holds `>`, so only the boundary the
      scan starts from can raise InvalidDescription. */
  lemma {:induction false} ParseFromInvalid(data: seq<Byte>, c: nat)
    requires c < |data|
    ensures ParseFrom(data, c).Err? && ParseFrom(data, c).error.InvalidDescription?
            <==> data[c] != GT
    decreases |data| - c
  {
    ScanRecordSpec(data, c);
    var s := ScanRecord(data, c);
    if s.Next? {
      ParseFromInvalid(data, s.next);
    }
  }

  /** InvalidDescription is raised exactly for a non-empty buffer whose first byte is not
      `>`, and it carries that byte. */
  lemma InvalidDescriptionIff(data: seq<Byte>, b: Byte)
    ensures Parse(data) == Err(InvalidDescription(b))
            <==> |data| > 0 && data[0] != GT && b == data[0]
  {
    if |data| > 0 {
      ParseFromInvalid(data, 0);
      ScanRecordSpec(data, 0);
    }
  }

  // ---------------------------------------------------------------------------
  // EmptySequence

  /** From a `>` at `c`, the scan stops with EmptySequence exactly when some `>` at or
      after `c` opens a line that the buffer ends in (or ends one line feed after). */
  lemma {:induction false} ParseFromEmptySequence(data: seq<Byte>, c: nat)
    requires c < |data| && data[c] == GT
    ensures ParseFrom(data, c) == Err(EmptySequence)
            <==> exists p: nat :: c <= p && BareHeaderAt(data, p)
    decreases |data| - c
  {
    ScanRecordSpec(data, c);
    var s := ScanRecord(data, c);
    if s.Next? {
      ParseFromEmptySequence(data, s.next);
    }
  }

  /** EmptySequence is raised exactly for a buffer that starts with `>` and ends in a
      description line with nothing after it but at most its line feed. */
  lemma EmptySequenceIff(data: seq<Byte>)
    ensures Parse(data) == Err(EmptySequence)
            <==> |data| > 0 && data[0] == GT && EndsInBareHeader(data)
  {
    if |data| > 0 && data[0] == GT {
      ParseFromEmptySequence(data, 0);
    }
  }

  /** The parse succeeds exactly on the empty buffer and on buffers that start with `>`
      and do not end in a bare description. */
  lemma ParseOkIff(data: seq<Byte>)
    ensures Parse(data).Ok? <==> |data| == 0 || (data[0] == GT && !EndsInBareHeader(data))
  {
    EmptySequenceIff(data);
    if |data| > 0 {
      ParseFromInvalid(data, 0);
    }
  }

  // ---------------------------------------------------------------------------
  // Success: the records tile the buffer, and that tiling is unique

  /** Records found from `c` cover `data[c..]` exactly. */
  lemma {:induction false} ParseFromSound(data: seq<Byte>, c: nat)
    requires c < |data|
    ensures ParseFrom(data, c).Ok? ==> RecordsFrom(data, c, ParseFrom(data, c).value)
    decreases |data| - c
  {
    ScanRecordSpec(data, c);
    var s := ScanRecord(data, c);
    match s
    case Stop(_) =>
    case Last(rec) =>
      assert [rec][1..] == [];
    case Next(rec, e) =>
      ParseFromSound(data, e);
      var r := ParseFrom(data, e);
      if r.Ok? {
        assert ([rec] + r.value)[1..] == r.value;
      }
  }

  /** Records that cover `data[c..]` are exactly what the scan finds from `c`. */
  lemma {:induction false} ParseFromComplete(data: seq<Byte>, c: nat, recs: seq<FastaSequence>)
    requires RecordsFrom(data, c, recs) && recs != []
    ensures c < |data| && ParseFrom(data, c) == Ok(recs)
    decreases |recs|
  {
    FirstRecordScanned(data, c, recs);
    var r, rest := recs[0], recs[1..];
    if rest != [] {
      assert RecordsFrom(data, r.sequence.end, rest);
      ParseFromComplete(data, r.sequence.end, rest);
      assert [r] + rest == recs;
    } else {
      assert [r] == recs;
    }
  }

  /** The records found so far stay in front, unchanged, and the records found from here on
      follow them: a push never reorders or drops a record. */
  lemma PrependKeepsDone(done: seq<FastaSequence>, r: Result<seq<FastaSequence>>)
    requires r.Ok?
    ensures Prepend(done, r).value.sequences[..|done|] == done
    ensures Prepend(done, r).value.sequences[|done|..] == r.value
  {
  }

  /** Pushing `rec` onto the records already found commutes with putting it in front of
      the records still to be found. */
  lemma PrependPushFront(done: seq<FastaSequence>, rec: FastaSequence, r: Result<seq<FastaSequence>>)
    ensures Prepend(done, PushFront(rec, r)) == Prepend(done + [rec], r)
  {
    if r.Ok? {
      assert done + ([rec] + r.value) == done + [rec] + r.value;
    }
  }

  /** A successful parse yields a list of records exactly when that list tiles the buffer;
      since the parse is a function, the tiling of a buffer is unique. */
  lemma ParseOkIffTiles(data: seq<Byte>, recs: seq<FastaSequence>)
    ensures Parse(data) == Ok(Fasta(recs)) <==> Tiles(data, recs)
  {
    if |data| == 0 {
      if recs != [] && Tiles(data, recs) {
        assert false;
      }
    } else {
      ParseFromSound(data, 0);
      if Tiles(data, recs) {
        if recs == [] {
          assert false;
        }
        ParseFromComplete(data, 0, recs);
        assert [] + recs == recs;
      }
      var r := ParseFrom(data, 0);
      if r.Ok? {
        assert [] + r.value == r.value;
      }
    }
  }

  // ---------------------------------------------------------------------------
  // Per-record guarantees and the round trip

  /** Every record of a tiling is well formed; consecutive records meet at a `>`; the
      last record's sequence is not empty. */
  lemma {:induction false} RecordsFromAt(data: seq<Byte>, c: nat, recs: seq<FastaSequence>, k: nat)
    requires RecordsFrom(data, c, recs) && k < |recs|
    ensures WellFormedRecord(data, recs[k])
    ensures k + 1 < |recs| ==> recs[k].sequence.end + 1 == recs[k + 1].description.start
    ensures k + 1 == |recs| ==> recs[k].sequence.start < recs[k].sequence.end == |data|
    decreases k
  {
    if k > 0 {
      RecordsFromAt(data, recs[0].sequence.end, recs[1..], k - 1);
    } else if |recs| == 1 {
      assert RecordsFrom(data, recs[0].sequence.end, recs[1..]);
    } else {
      assert RecordsFrom(data, recs[0].sequence.end, recs[1..]);
    }
  }

  /** Each parsed record: the description leaves out the leading `>` and holds no line
      feed; the line feed ending it is not part of the sequence; the sequence holds no
      `>`; the last sequence is not empty. */
  lemma ParsedRecord(data: seq<Byte>, k: nat)
    requires Parse(data).Ok? && k < |Parse(data).value.sequences|
    ensures WellFormedRecord(data, Parse(data).value.sequences[k])
    ensures k + 1 == |Parse(data).value.sequences| ==>
              Parse(data).value.sequences[k].sequence.start < Parse(data).value.sequences[k].sequence.end
  {
    var recs := Parse(data).value.sequences;
    ParseOkIffTiles(data, recs);
    RecordsFromAt(data, 0, recs, k);
  }

  /** A well-formed record whose `>` is at `c` is written back out as `data[c..]` up to
      the end of its sequence. */
  lemma RecordText(data: seq<Byte>, c: nat, r: FastaSequence)
    requires WellFormedRecord(data, r) && r.description.start == c + 1
    ensures Record(data, r) == data[c..r.sequence.end]
  {
    var d, q := r.description, r.sequence;
    assert data[c..q.end] == [data[c]] + data[d.start..d.end] + [data[d.end]] + data[q.start..q.end];
  }

  /** Two adjacent pieces of the buffer's tail join into the tail. */
  lemma SliceJoin(data: seq<Byte>, c: nat, e: nat)
    requires c <= e <= |data|
    ensures data[c..e] + data[e..] == data[c..]
  {
  }

  /** Writing the records of a tiling back out reproduces `data[c..]` byte for byte. */
  lemma {:induction false} RecordsFromUnparse(data: seq<Byte>, c: nat, recs: seq<FastaSequence>)
    requires RecordsFrom(data, c, recs)
    ensures c <= |data| && Unparse(data, recs) == data[c..]
    decreases |recs|
  {
    if recs != [] {
      var r, rest := recs[0], recs[1..];
      var e := r.sequence.end;
      assert RecordsFrom(data, e, rest);
      RecordsFromUnparse(data, e, rest);
      RecordText(data, c, r);
      calc {
        Unparse(data, recs);
        Record(data, r) + Unparse(data, rest);
        data[c..e] + data[e..];
        { SliceJoin(data, c, e); }
        data[c..];
      }
    }
  }

  /** `>` + description + line feed + sequence, record after record, is the whole buffer. */
  lemma ParseRoundTrip(data: seq<Byte>)
    requires Parse(data).Ok?
    ensures SpansWithin(data, Parse(data).value.sequences)
    ensures Unparse(data, Parse(data).value.sequences) == data
  {
    var recs := Parse(data).value.sequences;
    ParseOkIffTiles(data, recs);
    RecordsFromUnparse(data, 0, recs);
    forall r | r in recs
      ensures r.description.Within(data) && r.sequence.Within(data)
    {
      var k :| 0 <= k < |recs| && recs[k] == r;
      RecordsFromAt(data, 0, recs, k);
    }
  }
}
