/** Concrete buffers from the crate's unit tests, with what the model says about them. */
module Scenarios {
  import opened Memchr
  import opened FastaSpec
  import FastaFacts
  import opened SequenceView

  const A: Byte := 0x41
  const B: Byte := 0x42
  const C: Byte := 0x43
  const D: Byte := 0x44
  const G: Byte := 0x47
  const T: Byte := 0x54

  /** The empty buffer holds no record, and no other answer describes it. */
  lemma EmptyFasta(recs: seq<FastaSequence>)
    ensures Parse([]) == Ok(Fasta([]))
    ensures Tiles([], recs) ==> recs == []
  {
    FastaFacts.ParseOkIffTiles([], recs);
  }

  /** A buffer that does not open with `>` is rejected with the byte it opens with. */
  lemma NoLeadingHeader()
    ensures Parse([A, GT, LF, C]) == Err(InvalidDescription(A))
  {
    FastaFacts.InvalidDescriptionIff([A, GT, LF, C], A);
  }

  /** A buffer that ends right after a description line is rejected. */
  lemma ClosingBareHeader()
    ensures Parse([GT, A, LF, C, LF, GT, B, LF]) == Err(EmptySequence)
  {
    var data := [GT, A, LF, C, LF, GT, B, LF];
    assert BareHeaderAt(data, 5);
    FastaFacts.EmptySequenceIff(data);
  }

  /** Two records separated by a blank line: the blank line stays in the first sequence. */
  lemma MultiSequence()
    ensures Parse([GT, A, LF, C, LF, LF] + [GT, B, LF, G])
            == Ok(Fasta([FastaSequence(Span(1, 2), Span(3, 6)), FastaSequence(Span(7, 8), Span(9, 10))]))
    ensures Iter(Slice([GT, A, LF, C, LF, LF] + [GT, B, LF, G], Span(3, 6))) == [C]
  {
    IterLine([C]);
    IterAppend([C, LF], [LF]);
    assert Iter([LF]) == [] by {
      assert [LF][1..] == [];
    }
    assert Slice([GT, A, LF, C, LF, LF] + [GT, B, LF, G], Span(3, 6)) == [C, LF] + [LF];
    var data := [GT, A, LF, C, LF, LF] + [GT, B, LF, G];
    var recs := [FastaSequence(Span(1, 2), Span(3, 6)), FastaSequence(Span(7, 8), Span(9, 10))];
    assert recs[1..][1..] == [];
    assert RecordsFrom(data, 10, recs[1..][1..]);
    assert RecordsFrom(data, 6, recs[1..]);
    FastaFacts.ParseOkIffTiles(data, recs);
  }

  /** A description followed at once by another `>` is not an error: it yields a record
      whose sequence is empty, and parsing goes on. */
  lemma HeaderThenHeader()
    ensures Parse([GT, LF, GT, LF, A])
            == Ok(Fasta([FastaSequence(Span(1, 1), Span(2, 2)), FastaSequence(Span(3, 3), Span(4, 5))]))
  {
    var data := [GT, LF, GT, LF, A];
    var recs := [FastaSequence(Span(1, 1), Span(2, 2)), FastaSequence(Span(3, 3), Span(4, 5))];
    assert recs[1..][1..] == [];
    assert RecordsFrom(data, 5, recs[1..][1..]);
    assert RecordsFrom(data, 2, recs[1..]);
    FastaFacts.ParseOkIffTiles(data, recs);
  }

  /** A `>` inside a description line does not start a record: `>A>B\nC` is one record
      whose description is `A>B`. */
  lemma DescriptionWithGt()
    ensures Parse([GT, A, GT, B, LF, C]) == Ok(Fasta([FastaSequence(Span(1, 4), Span(5, 6))]))
    ensures Slice([GT, A, GT, B, LF, C], Span(1, 4)) == [A, GT, B]
  {
    var data := [GT, A, GT, B, LF, C];
    var recs := [FastaSequence(Span(1, 4), Span(5, 6))];
    assert RecordsFrom(data, 6, recs[1..]);
    FastaFacts.ParseOkIffTiles(data, recs);
  }

  /** `>` `\n` `A`: one record whose description is empty and whose sequence is `A`. */
  lemma EmptyDescription()
    ensures Parse([GT, LF, A]) == Ok(Fasta([FastaSequence(Span(1, 1), Span(2, 3))]))
    ensures Slice([GT, LF, A], Span(1, 1)) == [] && Slice([GT, LF, A], Span(2, 3)) == [A]
  {
    var data := [GT, LF, A];
    var recs := [FastaSequence(Span(1, 1), Span(2, 3))];
    assert RecordsFrom(data, 3, recs[1..]);
    FastaFacts.ParseOkIffTiles(data, recs);
  }

  /** The wrapped sequence `ATG\nGTA\nCCC\nCGC\nAT`. */
  function Wrapped(): (text: seq<Byte>) {
    [A, T, G, LF] + [G, T, A, LF] + [C, C, C, LF] + [C, G, C, LF] + [A, T]
  }

  /** `>ABCD\n` followed by the wrapped sequence parses as one record. */
  lemma CopySequentialParse()
    ensures Parse([GT, A, B, C, D, LF] + Wrapped())
            == Ok(Fasta([FastaSequence(Span(1, 5), Span(6, 24))]))
    ensures Slice([GT, A, B, C, D, LF] + Wrapped(), Span(1, 5)) == [A, B, C, D]
    ensures Slice([GT, A, B, C, D, LF] + Wrapped(), Span(6, 24)) == Wrapped()
  {
    var data := [GT, A, B, C, D, LF] + Wrapped();
    var recs := [FastaSequence(Span(1, 5), Span(6, 24))];
    assert RecordsFrom(data, 24, recs[1..]);
    FastaFacts.ParseOkIffTiles(data, recs);
  }

  /** The lines of the wrapped sequence before its unterminated last line `AT`. */
  function WrappedLines(): (lines: seq<seq<Byte>>) {
    [[A, T, G], [G, T, A], [C, C, C], [C, G, C]]
  }

  /** The wrapped sequence is its four lines, each with its line feed, then `AT`. */
  lemma WrappedLayout()
    ensures Wrapped() == Wrap(WrappedLines()) + [A, T]
  {
    var l4 := [[C, G, C]];
    var l3 := [[C, C, C]] + l4;
    var l2 := [[G, T, A]] + l3;
    assert WrappedLines()[1..] == l2 && l2[1..] == l3 && l3[1..] == l4 && l4[1..] == [];
    assert Wrap(l4) == [C, G, C, LF] + Wrap([]);
    assert Wrap(l3) == [C, C, C, LF] + Wrap(l4);
    assert Wrap(l2) == [G, T, A, LF] + Wrap(l3);
    assert Wrap(WrappedLines()) == [A, T, G, LF] + Wrap(l2);
  }

  /** The four lines joined. */
  lemma WrappedJoined()
    ensures Flatten(WrappedLines()) == [A, T, G, G, T, A, C, C, C, C, G, C]
  {
    var l4 := [[C, G, C]];
    var l3 := [[C, C, C]] + l4;
    var l2 := [[G, T, A]] + l3;
    assert WrappedLines()[1..] == l2 && l2[1..] == l3 && l3[1..] == l4 && l4[1..] == [];
    assert Flatten(l4) == [C, G, C] + Flatten([]);
    assert Flatten(l3) == [C, C, C] + Flatten(l4);
    assert Flatten(l2) == [G, T, A] + Flatten(l3);
    assert Flatten(WrappedLines()) == [A, T, G] + Flatten(l2);
  }

  /** Copying the wrapped sequence drops its four line feeds: `ATGGTACCCCGCAT`. */
  lemma CopySequentialFilter()
    ensures Iter(Wrapped()) == [A, T, G, G, T, A, C, C, C, C, G, C, A, T]
  {
    WrappedLayout();
    WrappedJoined();
    IterWrap(WrappedLines(), [A, T]);
  }

  /** `copy_sequential` of the record parsed from `>ABCD\n` and the wrapped lines is
      `ATGGTACCCCGCAT`. */
  method CopySequentialCopies() returns (copied: seq<Byte>)
    ensures copied == [A, T, G, G, T, A, C, C, C, C, G, C, A, T]
  {
    var data := [GT, A, B, C, D, LF] + Wrapped();
    CopySequentialParse();
    var r := Parse(data);
    CopySequentialFilter();
    copied := CopySequential(Slice(data, r.value.sequences[0].sequence));
  }
}
