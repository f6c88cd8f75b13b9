/** Bytes, lines, and the byte stream a list of lines forms. */
module Streams {
  import opened RowMath

  type Byte = x: int | 0 <= x < 256

  /** The first k lines one after another, as one stream. */
  function Concat<T>(lines: seq<seq<T>>, k: nat): seq<T>
    requires k <= |lines|
  {
    if k == 0 then [] else Concat(lines, k - 1) + lines[k - 1]
  }

  /** Lines of one length: the stream holds that many bytes a line. */
  lemma {:induction false} ConcatLength<T>(lines: seq<seq<T>>, k: nat, n: nat)
    requires k <= |lines|
    requires forall i | 0 <= i < |lines| :: |lines[i]| == n
    ensures |Concat(lines, k)| == Span(k, n)
  {
    if k > 0 {
      ConcatLength(lines, k - 1, n);
    }
  }

  /** The stream of the first j lines starts the stream of the first k. */
  lemma {:induction false} ConcatPrefix<T>(lines: seq<seq<T>>, j: nat, k: nat)
    requires j <= k <= |lines|
    ensures Concat(lines, j) <= Concat(lines, k)
  {
    if j < k {
      ConcatPrefix(lines, j, k - 1);
    }
  }

  /** Where line j of equal lines is found in the stream. */
  lemma {:induction false} ConcatAt<T>(lines: seq<seq<T>>, k: nat, n: nat, j: nat)
    requires j < k <= |lines|
    requires forall l | 0 <= l < |lines| :: |lines[l]| == n
    ensures Span(j, n) + n <= |Concat(lines, k)| == Span(k, n)
    ensures Concat(lines, k)[Span(j, n)..Span(j, n) + n] == lines[j]
  {
    ConcatLength(lines, k, n);
    ConcatLength(lines, k - 1, n);
    if j < k - 1 {
      ConcatAt(lines, k - 1, n, j);
      assert Concat(lines, k)[Span(j, n)..Span(j, n) + n] == Concat(lines, k - 1)[Span(j, n)..Span(j, n) + n];
    }
  }

  /** The bytes of the first k requests together. */
  function Total(requests: seq<nat>, k: nat): (n: nat)
    requires k <= |requests|
  {
    if k == 0 then 0 else Total(requests, k - 1) + requests[k - 1]
  }

  lemma {:induction false} TotalMonotone(requests: seq<nat>, j: nat, k: nat)
    requires j <= k <= |requests|
    ensures Total(requests, j) <= Total(requests, k)
  {
    if j < k {
      TotalMonotone(requests, j, k - 1);
    }
  }

  /** The first n samples of three planes as one sequence of triples. */
  function Interleave<T>(red: seq<T>, green: seq<T>, blue: seq<T>, n: nat): (r: seq<T>)
    requires n <= |red| && n <= |green| && n <= |blue|
    ensures |r| == 3 * n
  {
    seq(3 * n, i requires 0 <= i < 3 * n =>
      if i % 3 == 0 then red[i / 3] else if i % 3 == 1 then green[i / 3] else blue[i / 3])
  }

  /** Triple p holds sample p of each plane. */
  lemma InterleaveAt<T>(red: seq<T>, green: seq<T>, blue: seq<T>, n: nat, p: nat)
    requires p < n <= |red| && n <= |green| && n <= |blue|
    ensures var out := Interleave(red, green, blue, n);
            out[3 * p] == red[p] && out[3 * p + 1] == green[p] && out[3 * p + 2] == blue[p]
  {
  }

  /** Copies a line that has just been read into dst. */
  method Fill<T>(dst: array<T>, line: seq<T>)
    requires dst.Length == |line|
    modifies dst
    ensures dst[..] == line
  {
    for i := 0 to |line|
      invariant forall k | 0 <= k < i :: dst[k] == line[k]
    {
      dst[i] := line[i];
    }
  }

  /** Copies n elements of src from index `from` into dst at index `at`; the C library's memcpy. */
  method CopyBytes<T>(dst: array<T>, at: nat, src: array<T>, from: nat, n: nat)
    requires dst != src
    requires at + n <= dst.Length && from + n <= src.Length
    modifies dst
    ensures forall k | at <= k < at + n :: dst[k] == src[from + k - at]
    ensures forall k | 0 <= k < dst.Length && !(at <= k < at + n) :: dst[k] == old(dst[k])
  {
    for i := 0 to n
      invariant forall k | at <= k < at + i :: dst[k] == src[from + k - at]
      invariant forall k | 0 <= k < dst.Length && !(at <= k < at + i) :: dst[k] == old(dst[k])
    {
      dst[at + i] := src[from + i];
    }
  }
}
