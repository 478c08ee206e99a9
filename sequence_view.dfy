/** What a record offers over its raw sequence slice (`FastaSequence::sequence`, that is
    `Slice(data, rec.sequence)`): the lazy newline filter `iter`, the capacity bound
    `size_hint`, and `copy_sequential`, which copies the filtered bytes into one buffer. */
module SequenceView {
  import opened Memchr

  /** `sequence` holds no line feed. */
  predicate NoNewline(sequence: seq<Byte>) {
    forall i :: 0 <= i < |sequence| ==> sequence[i] != LF
  }

  /** `iter`: the bytes that `sequence.iter().filter(|&x| *x != b'\n')` yields, in order.
      Every traversal of the Rust iterator re-derives this same stream. */
  function Iter(sequence: seq<Byte>): (r: seq<Byte>)
    ensures NoNewline(r)
    ensures |r| <= |sequence|
  {
    if sequence == [] then []
    else (if sequence[0] == LF then [] else [sequence[0]]) + Iter(sequence[1..])
  }

  /** Filtering a concatenation filters each part. */
  lemma {:induction false} IterAppend(a: seq<Byte>, b: seq<Byte>)
    ensures Iter(a + b) == Iter(a) + Iter(b)
    decreases |a|
  {
    if a == [] {
      assert a + b == b;
    } else {
      var head := if a[0] == LF then [] else [a[0]];
      assert (a + b)[0] == a[0] && (a + b)[1..] == a[1..] + b;
      IterAppend(a[1..], b);
      calc {
        Iter(a + b);
        head + Iter(a[1..] + b);
        head + (Iter(a[1..]) + Iter(b));
        (head + Iter(a[1..])) + Iter(b);
        Iter(a) + Iter(b);
      }
    }
  }

  /** The filter removes every line feed and keeps every other byte, each as often as it
      occurs. */
  lemma {:induction false} IterKeepsAllButNewlines(sequence: seq<Byte>)
    ensures multiset(Iter(sequence)) == multiset(sequence)[LF := 0]
    decreases |sequence|
  {
    if sequence != [] {
      IterKeepsAllButNewlines(sequence[1..]);
      assert sequence == [sequence[0]] + sequence[1..];
    }
  }

  /** The filter leaves a sequence unchanged exactly when it holds no line feed; CR and any
      other byte are kept. */
  lemma {:induction false} IterIdentity(sequence: seq<Byte>)
    ensures Iter(sequence) == sequence <==> NoNewline(sequence)
    decreases |sequence|
  {
    if sequence != [] {
      IterIdentity(sequence[1..]);
      if NoNewline(sequence) {
        assert NoNewline(sequence[1..]) by {
          forall i | 0 <= i < |sequence| - 1
            ensures sequence[1..][i] != LF
          {
            assert sequence[1..][i] == sequence[i + 1];
          }
        }
      }
    }
  }

  /** Lines written one after another, each followed by a line feed. */
  function Wrap(lines: seq<seq<Byte>>): (text: seq<Byte>) {
    if lines == [] then [] else lines[0] + [LF] + Wrap(lines[1..])
  }

  /** The lines joined with nothing in between. */
  function Flatten(lines: seq<seq<Byte>>): (joined: seq<Byte>) {
    if lines == [] then [] else lines[0] + Flatten(lines[1..])
  }

  /** However a sequence is broken into lines, blank lines included, the filter reads back
      the lines joined together: line breaks are invisible to `iter`. */
  lemma {:induction false} IterWrap(lines: seq<seq<Byte>>, last: seq<Byte>)
    requires forall k :: 0 <= k < |lines| ==> NoNewline(lines[k])
    requires NoNewline(last)
    ensures Iter(Wrap(lines) + last) == Flatten(lines) + last
    decreases |lines|
  {
    if lines == [] {
      IterIdentity(last);
      assert Wrap(lines) + last == last;
    } else {
      var line, rest := lines[0], lines[1..];
      IterWrap(rest, last);
      WrapFirstLine(lines, last);
      IterLine(line);
      IterAppend(line + [LF], Wrap(rest) + last);
    }
  }

  /** A line and its line feed read back as the line. */
  lemma IterLine(line: seq<Byte>)
    requires NoNewline(line)
    ensures Iter(line + [LF]) == line
  {
    IterIdentity(line);
    IterAppend(line, [LF]);
    assert Iter([LF]) == [] by {
      assert [LF][1..] == [];
    }
    assert line + [] == line;
  }

  /** Peeling the first line off both sides of IterWrap. */
  lemma WrapFirstLine(lines: seq<seq<Byte>>, last: seq<Byte>)
    requires lines != []
    ensures Wrap(lines) + last == (lines[0] + [LF]) + (Wrap(lines[1..]) + last)
    ensures Flatten(lines) + last == lines[0] + (Flatten(lines[1..]) + last)
  {
  }

  /** The filter drops exactly the line feeds: the raw length is the filtered length plus
      the number of line feeds. */
  lemma {:induction false} IterLength(sequence: seq<Byte>)
    ensures |Iter(sequence)| + multiset(sequence)[LF] == |sequence|
    decreases |sequence|
  {
    if sequence != [] {
      IterLength(sequence[1..]);
      assert sequence == [sequence[0]] + sequence[1..];
      assert multiset(sequence)[LF] == multiset([sequence[0]])[LF] + multiset(sequence[1..])[LF];
    }
  }

  /** `size_hint`: the raw length, which exceeds the filtered length by exactly the number
      of line feeds. */
  function SizeHint(sequence: seq<Byte>): (n: nat)
    ensures n == |Iter(sequence)| + multiset(sequence)[LF]
    ensures |Iter(sequence)| <= n
  {
    IterLength(sequence);
    |sequence|
  }

  /** A run of the copy loop that ends at a line feed: the run, unchanged, extends the
      filtered prefix, and the line feed adds nothing. */
  lemma IterRunToNewline(prefix: seq<Byte>, run: seq<Byte>)
    requires NoNewline(run)
    ensures Iter(prefix + run + [LF]) == Iter(prefix) + run
  {
    IterIdentity(run);
    IterAppend(prefix + run, [LF]);
    IterAppend(prefix, run);
    assert Iter([LF]) == [] by {
      assert [LF][1..] == [];
    }
  }

  /** A run of the copy loop that reaches the end: the run, unchanged, completes the
      filtered sequence. */
  lemma IterRunToEnd(prefix: seq<Byte>, run: seq<Byte>)
    requires NoNewline(run)
    ensures Iter(prefix + run) == Iter(prefix) + run
  {
    IterIdentity(run);
    IterAppend(prefix, run);
  }

  /** One pass of the copy loop from `pos`, whose run of `pivot` bytes ends at a line feed
      or at the end: the run, unchanged, extends the filtered prefix up to what the pass
      consumes. */
  lemma IterRun(sequence: seq<Byte>, pos: nat, pivot: nat)
    requires pos + pivot <= |sequence|
    requires forall i :: pos <= i < pos + pivot ==> sequence[i] != LF
    requires pos + pivot < |sequence| ==> sequence[pos + pivot] == LF
    ensures Iter(sequence[..Consumed(sequence, pos, pivot)])
            == Iter(sequence[..pos]) + sequence[pos..pos + pivot]
  {
    var run := sequence[pos..pos + pivot];
    if pos + pivot < |sequence| {
      assert sequence[..pos + pivot + 1] == sequence[..pos] + run + [LF];
      IterRunToNewline(sequence[..pos], run);
    } else {
      assert sequence[..|sequence|] == sequence == sequence[..pos] + run;
      IterRunToEnd(sequence[..pos], run);
    }
  }

  /** How far into `sequence` a pass of the copy loop reaches: past the line feed that
      ends its run, or to the end. */
  function Consumed(sequence: seq<Byte>, pos: nat, pivot: nat): nat
    requires pos + pivot <= |sequence|
  {
    if pos + pivot < |sequence| then pos + pivot + 1 else |sequence|
  }

  /** `copy_sequential`: copy the sequence into one buffer of `size_hint` bytes, run by run
      between line feeds, then keep the bytes written. */
  method CopySequential(sequence: seq<Byte>) returns (copied: seq<Byte>)
    ensures copied == Iter(sequence)
    ensures |copied| <= SizeHint(sequence)
  {
    var buffer := new Byte[SizeHint(sequence)];
    var target: nat := 0;
    var pos: nat := 0;
    while true
      invariant pos <= |sequence| && target <= pos
      invariant buffer.Length == |sequence|
      invariant buffer[..target] == Iter(sequence[..pos])
      decreases |sequence| - pos
    {
      var pivot := FindOr(LF, sequence, pos);
      ghost var before := buffer[..target];
      forall i | 0 <= i < pivot {
        buffer[target + i] := sequence[pos + i];
      }
      assert buffer[..target + pivot] == before + sequence[pos..pos + pivot];
      FindOrFirst(LF, sequence, pos);
      IterRun(sequence, pos, pivot);
      ghost var consumed := Consumed(sequence, pos, pivot);
      pos := pos + pivot + 1;
      target := target + pivot;
      if pos >= |sequence| {
        assert sequence[..consumed] == sequence;
        break;
      }
      assert consumed == pos;
    }
    copied := buffer[..target];
  }
}
