/** Bytes, the two structural marker bytes of Multi-FASTA, and the first-occurrence
    search (`memchr`) that the parser and the compaction routine use. The SIMD
    implementation of the memchr crate is not modelled; only what it returns. The
    searched slice `&data[from..]` is given as the buffer and the offset `from`. */
module Memchr {

  /** An unsigned 8-bit value (`u8`). */
  newtype Byte = b: int | 0 <= b < 256

  /** Line feed, `b'\n'`: ends a description line and is dropped from sequences. */
  const LF: Byte := 0x0A
  /** Greater-than sign, `b'>'`: starts a record. */
  const GT: Byte := 0x3E

  datatype Option<T> = None | Some(value: T)

  /** `memchr(needle, &data[from..])`: the position, counted from `from`, of the first
      `needle` in `data[from..]`, if there is one. */
  function Memchr(needle: Byte, data: seq<Byte>, from: nat): (r: Option<nat>)
    requires from <= |data|
    ensures r.Some? ==> from + r.value < |data| && data[from + r.value] == needle
    ensures r.Some? ==> forall i :: from <= i < from + r.value ==> data[i] != needle
    ensures r.None? ==> forall i :: from <= i < |data| ==> data[i] != needle
  {
    FindOrFirst(needle, data, from);
    var n := FindOr(needle, data, from);
    if from + n < |data| then Some(n) else None
  }

  /** `memchr(needle, &data[from..]).unwrap_or(data.len() - from)`: the length of the run
      of bytes from `from` up to the first `needle`, or to the end of the buffer. What
      that run is, is stated by FindOrFirst. */
  function FindOr(needle: Byte, data: seq<Byte>, from: nat): (n: nat)
    requires from <= |data|
    ensures from + n <= |data|
    decreases |data| - from
  {
    if from == |data| || data[from] == needle then 0
    else 1 + FindOr(needle, data, from + 1)
  }

  /** The run FindOr measures holds no `needle`, and it stops at a `needle` unless it
      reaches the end of the buffer. */
  lemma {:induction false} FindOrFirst(needle: Byte, data: seq<Byte>, from: nat)
    requires from <= |data|
    ensures forall i :: from <= i < from + FindOr(needle, data, from) ==> data[i] != needle
    ensures from + FindOr(needle, data, from) < |data| ==> data[from + FindOr(needle, data, from)] == needle
    decreases |data| - from
  {
    if from < |data| && data[from] != needle {
      FindOrFirst(needle, data, from + 1);
    }
  }

  /** The two conditions of FindOrFirst single out FindOr's result. */
  lemma {:induction false} FindOrUnique(needle: Byte, data: seq<Byte>, from: nat, n: nat)
    requires from + n <= |data|
    requires forall i :: from <= i < from + n ==> data[i] != needle
    requires from + n < |data| ==> data[from + n] == needle
    ensures FindOr(needle, data, from) == n
    decreases n
  {
    if n > 0 {
      FindOrUnique(needle, data, from + 1, n - 1);
    }
  }

  /** FindOr is `memchr` with a miss read as the rest of the buffer. */
  lemma FindOrUnwrapsMemchr(needle: Byte, data: seq<Byte>, from: nat)
    requires from <= |data|
    ensures FindOr(needle, data, from)
            == match Memchr(needle, data, from) case Some(k) => k case None => |data| - from
  {
  }
}
