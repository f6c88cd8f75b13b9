/** copy_scan_line of the Artec E+ 48U backend: the planes of a line become the bytes of a line of
    pixels, from right to left. At 1200 dpi the sensor only has half the pixels, and every second
    one is made up from its neighbours. */
module EPlusLines {
  import opened Streams
  import opened RowMath
  import opened EPlusReader

  type Sample = x: int | 0 <= x < 65536

  // ---------- Samples and pixels ----------

  /** A sample as the line carries it: 8-bit lines keep the multiple of 257 it came from. */
  function Scaled(depth: nat, v: Sample): Sample {
    if depth == 8 then v / 257 else v
  }

  /** Column i of the planes. */
  function Column(depth: nat, planes: seq<seq<Sample>>, i: nat): (r: seq<Sample>)
    requires forall j | 0 <= j < |planes| :: i < |planes[j]|
    ensures |r| == |planes|
  {
    seq(|planes|, j requires 0 <= j < |planes| => Scaled(depth, planes[j][i]))
  }

  /** What copy_scan_line computes for a made-up sample; its clamps never apply. */
  function Mean(a: Sample, b: Sample): Sample {
    var value1: int, value2: int := a, b;
    (value1 + value2) / 2
  }

  function Average(a: seq<Sample>, b: seq<Sample>): (r: seq<Sample>)
    requires |a| == |b|
    ensures |r| == |a|
  {
    seq(|a|, j requires 0 <= j < |a| => Mean(a[j], b[j]))
  }

  /** Pixel k of the line that copy_scan_line should make of xs columns. */
  function Pixel(depth: nat, planes: seq<seq<Sample>>, xs: nat, interpolate: bool, k: nat): (r: seq<Sample>)
    requires forall j | 0 <= j < |planes| :: xs <= |planes[j]|
    requires k < if interpolate then 2 * xs - 1 else xs
    ensures |r| == |planes|
  {
    if !interpolate then Column(depth, planes, xs - 1 - k)
    else if k % 2 == 0 then Column(depth, planes, xs - 1 - k / 2)
    else Average(Column(depth, planes, xs - 1 - k / 2), Column(depth, planes, xs - 2 - k / 2))
  }

  // ---------- The pixels as bytes ----------

  /** The bytes of a sample: one, or the low and the high one. */
  function SampleBytes(depth: nat): nat {
    if depth == 8 then 1 else 2
  }

  function Width(depth: nat, channels: nat): nat {
    if depth == 8 then channels else 2 * channels
  }

  /** Where sample j of pixel k begins in a line of pixels. */
  ghost function Offset(depth: nat, channels: nat, k: nat, j: nat): nat {
    Span(k, Width(depth, channels)) + if depth == 8 then j else 2 * j
  }

  ghost predicate SampleAt(depth: nat, line: seq<Byte>, at: nat, v: Sample) {
    && at + SampleBytes(depth) <= |line|
    && if depth == 8 then line[at] == v else line[at] == v % 256 && line[at + 1] == v / 256
  }

  /** Pixel number k of the line. */
  ghost predicate PixelAt(depth: nat, line: seq<Byte>, k: nat, pixel: seq<Sample>) {
    forall j | 0 <= j < |pixel| :: SampleAt(depth, line, Offset(depth, |pixel|, k, j), pixel[j])
  }

  /** The lines agree but for the n bytes from position `at` on. */
  ghost predicate SameBut(before: seq<Byte>, after: seq<Byte>, at: nat, n: nat) {
    |before| == |after| && forall i | 0 <= i < |before| && !(at <= i < at + n) :: after[i] == before[i]
  }

  method PutSample(depth: nat, buf: array<Byte>, at: nat, v: Sample)
    requires at + SampleBytes(depth) <= buf.Length && (depth == 8 ==> v < 256)
    modifies buf
    ensures SampleAt(depth, buf[..], at, v) && SameBut(old(buf[..]), buf[..], at, SampleBytes(depth))
  {
    if depth == 8 {
      buf[at] := v;
    } else {
      buf[at] := v % 256;
      buf[at + 1] := v / 256;
    }
  }

  method GetSample(depth: nat, buf: array<Byte>, at: nat, ghost v: Sample) returns (value: Sample)
    requires SampleAt(depth, buf[..], at, v)
    ensures value == v
  {
    var low: int := buf[at];
    if depth == 8 {
      value := low;
    } else {
      var high: int := buf[at + 1];
      value := low + 256 * high;
    }
  }

  lemma OtherSample(depth: nat, before: seq<Byte>, after: seq<Byte>, at: nat, n: nat, o: nat, v: Sample)
    requires SameBut(before, after, at, n) && SampleAt(depth, before, o, v)
    requires o + SampleBytes(depth) <= at || at + n <= o
    ensures SampleAt(depth, after, o, v)
  {
  }

  /** Writing the bytes of pixel m leaves every other pixel as it is. */
  lemma OtherPixel(depth: nat, before: seq<Byte>, after: seq<Byte>, m: nat, k: nat, pixel: seq<Sample>)
    requires k != m && PixelAt(depth, before, k, pixel)
    requires SameBut(before, after, Span(m, Width(depth, |pixel|)), Width(depth, |pixel|))
    ensures PixelAt(depth, after, k, pixel)
  {
    hide SampleAt, SameBut;
    var w := Width(depth, |pixel|);
    if k < m {
      SpanMonotone(k + 1, m, w);
    } else {
      SpanMonotone(m + 1, k, w);
    }
    forall j | 0 <= j < |pixel|
      ensures SampleAt(depth, after, Offset(depth, |pixel|, k, j), pixel[j])
    {
      OtherSample(depth, before, after, Span(m, w), w, Offset(depth, |pixel|, k, j), pixel[j]);
    }
  }

  /** The samples of column i, one channel after the other. */
  method PutColumn(depth: nat, planes: seq<seq<Sample>>, i: nat, buf: array<Byte>, at: nat, ghost k: nat)
    requires depth == 8 || depth == 16
    requires forall j | 0 <= j < |planes| :: i < |planes[j]|
    requires at == Span(k, Width(depth, |planes|)) && at + Width(depth, |planes|) <= buf.Length
    modifies buf
    ensures PixelAt(depth, buf[..], k, Column(depth, planes, i))
    ensures SameBut(old(buf[..]), buf[..], at, Width(depth, |planes|))
  {
    hide Span, SampleAt;
    ghost var pixel := Column(depth, planes, i);
    var cnt := at;
    for j := 0 to |planes|
      invariant cnt == at + if depth == 8 then j else 2 * j
      invariant forall c | 0 <= c < j :: SampleAt(depth, buf[..], Offset(depth, |pixel|, k, c), pixel[c])
      invariant SameBut(old(buf[..]), buf[..], at, cnt - at)
    {
      ghost var before := buf[..];
      PutSample(depth, buf, cnt, Scaled(depth, planes[j][i]));
      forall c | 0 <= c < j
        ensures SampleAt(depth, buf[..], Offset(depth, |pixel|, k, c), pixel[c])
      {
        OtherSample(depth, before, buf[..], cnt, SampleBytes(depth), Offset(depth, |pixel|, k, c), pixel[c]);
      }
      cnt := cnt + SampleBytes(depth);
    }
  }

  /** One made-up sample, w bytes behind its left neighbour and w before its right one. */
  method PutMean(depth: nat, buf: array<Byte>, cnt: nat, w: nat, ghost a: Sample, ghost b: Sample)
    requires depth == 8 || depth == 16
    requires SampleAt(depth, buf[..], cnt, a) && SampleAt(depth, buf[..], cnt + 2 * w, b)
    requires depth == 8 ==> a < 256 && b < 256
    modifies buf
    ensures SampleAt(depth, buf[..], cnt + w, Mean(a, b))
    ensures SameBut(old(buf[..]), buf[..], cnt + w, SampleBytes(depth))
  {
    var value1 := GetSample(depth, buf, cnt, a);
    var value2 := GetSample(depth, buf, cnt + 2 * w, b);
    var value := Mean(value1, value2);
    assert 0 <= value <= if depth == 8 then 255 else 65535;
    PutSample(depth, buf, cnt + w, value);
  }

  lemma Offsets(depth: nat, channels: nat, k: nat, j: nat)
    requires j < channels
    ensures var (w, o, b) := (Width(depth, channels), Offset(depth, channels, k, j), SampleBytes(depth));
            && Span(k, w) <= o && o + b <= Span(k, w) + w && Span(k + 1, w) == Span(k, w) + w
            && Offset(depth, channels, k + 1, j) == o + w && Offset(depth, channels, k + 2, j) == o + 2 * w
  {
    var w := Width(depth, channels);
    assert Span(k + 1, w) == Span(k, w) + w && Span(k + 2, w) == Span(k + 1, w) + w;
  }

  lemma OffsetsInOrder(depth: nat, channels: nat, k: nat, c: nat, j: nat)
    requires c < j
    ensures Offset(depth, channels, k, c) + SampleBytes(depth) <= Offset(depth, channels, k, j)
  {
  }

  lemma SameButMore(before: seq<Byte>, line: seq<Byte>, after: seq<Byte>, at: nat, n: nat, m: nat)
    requires SameBut(before, line, at, n) && SameBut(line, after, at + n, m)
    ensures SameBut(before, after, at, n + m)
  {
  }

  /** Sample j of a made-up pixel, next to those already there; `before` is the line without them. */
  method PutNextMean(depth: nat, channels: nat, buf: array<Byte>, cnt: nat, w: nat, ghost k: nat, ghost j: nat,
                     ghost a: seq<Sample>, ghost b: seq<Sample>, ghost before: seq<Byte>)
    requires depth == 8 || depth == 16
    requires j < |a| == |b| == channels && w == Width(depth, channels) && cnt == Offset(depth, channels, k, j)
    requires PixelAt(depth, before, k, a) && PixelAt(depth, before, k + 2, b)
    requires depth == 8 ==> a[j] < 256 && b[j] < 256
    requires SameBut(before, buf[..], Span(k + 1, w), cnt - Span(k, w))
    requires forall c | 0 <= c < j :: SampleAt(depth, buf[..], Offset(depth, channels, k + 1, c), Mean(a[c], b[c]))
    modifies buf
    ensures SameBut(before, buf[..], Span(k + 1, w), cnt - Span(k, w) + SampleBytes(depth))
    ensures forall c | 0 <= c < j + 1 ::
              SampleAt(depth, buf[..], Offset(depth, channels, k + 1, c), Mean(a[c], b[c]))
  {
    Offsets(depth, channels, k, j);
    hide Span, Mean, SampleAt, Offset, Width, SampleBytes, SameBut;
    ghost var line := buf[..];
    OtherSample(depth, before, line, Span(k + 1, w), cnt - Span(k, w), Offset(depth, channels, k, j), a[j]);
    OtherSample(depth, before, line, Span(k + 1, w), cnt - Span(k, w), Offset(depth, channels, k + 2, j), b[j]);
    PutMean(depth, buf, cnt, w, a[j], b[j]);
    SameButMore(before, line, buf[..], Span(k + 1, w), cnt - Span(k, w), SampleBytes(depth));
    KeepMeans(depth, line, buf[..], cnt + w, k + 1, j, a, b);
  }

  /** The next mean leaves those before it as they are. */
  lemma KeepMeans(depth: nat, line: seq<Byte>, after: seq<Byte>, at: nat, k: nat, j: nat,
                  a: seq<Sample>, b: seq<Sample>)
    requires j < |a| == |b| && at == Offset(depth, |a|, k, j)
    requires SameBut(line, after, at, SampleBytes(depth)) && SampleAt(depth, after, at, Mean(a[j], b[j]))
    requires forall c | 0 <= c < j :: SampleAt(depth, line, Offset(depth, |a|, k, c), Mean(a[c], b[c]))
    ensures forall c | 0 <= c < j + 1 :: SampleAt(depth, after, Offset(depth, |a|, k, c), Mean(a[c], b[c]))
  {
    hide Mean, SampleAt, Offset, SampleBytes, SameBut;
    forall c | 0 <= c < j
      ensures SampleAt(depth, after, Offset(depth, |a|, k, c), Mean(a[c], b[c]))
    {
      OffsetsInOrder(depth, |a|, k, c, j);
      OtherSample(depth, line, after, at, SampleBytes(depth), Offset(depth, |a|, k, c), Mean(a[c], b[c]));
    }
  }

  /** The samples of a made-up pixel, from the pixels on both sides of it. */
  method PutAverage(depth: nat, channels: nat, buf: array<Byte>, at: nat, ghost k: nat, ghost a: seq<Sample>,
                    ghost b: seq<Sample>)
    requires depth == 8 || depth == 16
    requires |a| == |b| == channels && at == Span(k, Width(depth, channels))
    requires PixelAt(depth, buf[..], k, a) && PixelAt(depth, buf[..], k + 2, b)
    requires depth == 8 ==> forall j | 0 <= j < channels :: a[j] < 256 && b[j] < 256
    modifies buf
    ensures PixelAt(depth, buf[..], k + 1, Average(a, b))
    ensures SameBut(old(buf[..]), buf[..], Span(k + 1, Width(depth, channels)), Width(depth, channels))
  {
    hide Span, Mean, SampleAt, PixelAt;
    var w := Width(depth, channels);
    var cnt := at;
    for j := 0 to channels
      invariant cnt == Offset(depth, channels, k, j)
      invariant SameBut(old(buf[..]), buf[..], Span(k + 1, w), cnt - at)
      invariant forall c | 0 <= c < j :: SampleAt(depth, buf[..], Offset(depth, channels, k + 1, c), Mean(a[c], b[c]))
    {
      PutNextMean(depth, channels, buf, cnt, w, k, j, a, b, old(buf[..]));
      cnt := cnt + SampleBytes(depth);
    }
    MeansArePixel(depth, buf[..], k + 1, a, b);
  }

  lemma MeansArePixel(depth: nat, line: seq<Byte>, k: nat, a: seq<Sample>, b: seq<Sample>)
    requires |a| == |b|
    requires forall c | 0 <= c < |a| :: SampleAt(depth, line, Offset(depth, |a|, k, c), Mean(a[c], b[c]))
    ensures PixelAt(depth, line, k, Average(a, b))
  {
    hide SampleAt, Offset;
  }

  // ---------- The line ----------

  /** Where column number p from the right ends up: every pixel is a column, or every second one when
      the others are made up. */
  function Place(interpolate: bool, p: nat): nat {
    if interpolate then 2 * p else p
  }

  /** The columns of xs planes from the right. */
  ghost function Columns(depth: nat, planes: seq<seq<Sample>>, xs: nat): (r: seq<seq<Sample>>)
    requires forall j | 0 <= j < |planes| :: xs <= |planes[j]|
    ensures |r| == xs && forall p | 0 <= p < xs :: |r[p]| == |planes|
  {
    seq(xs, p requires 0 <= p < xs => Column(depth, planes, xs - 1 - p))
  }

  ghost predicate Laid(depth: nat, line: seq<Byte>, interpolate: bool, cols: seq<seq<Sample>>, n: nat)
    requires n <= |cols|
  {
    forall p | 0 <= p < n :: PixelAt(depth, line, Place(interpolate, p), cols[p])
  }

  /** The first loop of each branch: the columns from right to left. */
  method PutColumns(depth: nat, planes: seq<seq<Sample>>, xs: nat, interpolate: bool, buf: array<Byte>)
    requires depth == 8 || depth == 16
    requires forall j | 0 <= j < |planes| :: xs <= |planes[j]|
    requires Span(Place(interpolate, xs), Width(depth, |planes|)) <= buf.Length
    modifies buf
    ensures Laid(depth, buf[..], interpolate, Columns(depth, planes, xs), xs)
  {
    hide PixelAt, Width;
    ghost var cols := Columns(depth, planes, xs);
    var w := Width(depth, |planes|);
    var cnt: nat := 0;
    for p: nat := 0 to xs
      invariant cnt == Span(Place(interpolate, p), w)
      invariant Laid(depth, buf[..], interpolate, cols, p)
    {
      ghost var k, before := Place(interpolate, p), buf[..];
      SpanMonotone(k + 1, Place(interpolate, xs), w);
      PutColumn(depth, planes, xs - 1 - p, buf, cnt, k);
      forall q | 0 <= q < p
        ensures PixelAt(depth, buf[..], Place(interpolate, q), cols[q])
      {
        OtherPixel(depth, before, buf[..], k, Place(interpolate, q), cols[q]);
      }
      cnt := cnt + w;
      if interpolate {
        cnt := cnt + w;
        assert Span(k + 2, w) == Span(k + 1, w) + w;
      }
    }
  }

  /** The interpolation loop of each branch: the gaps between the columns. */
  method FillGaps(depth: nat, channels: nat, xs: nat, buf: array<Byte>, ghost cols: seq<seq<Sample>>)
    requires depth == 8 || depth == 16
    requires |cols| == xs && forall p | 0 <= p < xs :: |cols[p]| == channels
    requires depth == 8 ==> forall p, j | 0 <= p < xs && 0 <= j < channels :: cols[p][j] < 256
    requires Laid(depth, buf[..], true, cols, xs)
    modifies buf
    ensures Laid(depth, buf[..], true, cols, xs)
    ensures forall p | 0 <= p < xs - 1 :: PixelAt(depth, buf[..], 2 * p + 1, Average(cols[p], cols[p + 1]))
  {
    hide PixelAt, Width, Average;
    var w := Width(depth, channels);
    var i, p: nat := 0, 0;
    while p + 1 < xs
      invariant p == 0 || p < xs
      invariant i == Span(2 * p, w)
      invariant Laid(depth, buf[..], true, cols, xs)
      invariant forall q | 0 <= q < p :: PixelAt(depth, buf[..], 2 * q + 1, Average(cols[q], cols[q + 1]))
    {
      ghost var before := buf[..];
      PutAverage(depth, channels, buf, i, 2 * p, cols[p], cols[p + 1]);
      forall q | 0 <= q < xs
        ensures PixelAt(depth, buf[..], Place(true, q), cols[q])
      {
        OtherPixel(depth, before, buf[..], 2 * p + 1, Place(true, q), cols[q]);
      }
      forall q | 0 <= q < p
        ensures PixelAt(depth, buf[..], 2 * q + 1, Average(cols[q], cols[q + 1]))
      {
        OtherPixel(depth, before, buf[..], 2 * p + 1, 2 * q + 1, Average(cols[q], cols[q + 1]));
      }
      i := i + 2 * w;
      assert Span(2 * p + 2, w) == Span(2 * p + 1, w) + w;
      p := p + 1;
    }
  }

  /** What the line holds for channel j of pixel k: the sample of its column, counted from the right, or between two
      columns half their sum, rounded down. An 8-bit line holds a 257th of a sample in one byte, a 16-bit one the sample
      in two bytes, the low one first. */
  ghost predicate Copied(depth: nat, planes: seq<seq<Sample>>, xs: nat, interpolate: bool, line: seq<Byte>, k: nat,
                         j: nat)
    requires j < |planes| && xs <= |planes[j]| && k < if interpolate then 2 * xs - 1 else xs
  {
    var right := if interpolate then xs - 1 - k / 2 else xs - 1 - k;
    var between := interpolate && k % 2 == 1;
    var (a: int, b: int) := (planes[j][right], if between then planes[j][right - 1] else 0);
    if depth == 8 then
      && Span(k, |planes|) + j < |line|
      && line[Span(k, |planes|) + j] as int == if between then (a / 257 + b / 257) / 2 else a / 257
    else
      && Span(k, 2 * |planes|) + 2 * j + 1 < |line|
      && line[Span(k, 2 * |planes|) + 2 * j] as int + 256 * (line[Span(k, 2 * |planes|) + 2 * j + 1] as int) ==
         if between then (a + b) / 2 else a
  }

  lemma PixelCopied(depth: nat, planes: seq<seq<Sample>>, xs: nat, interpolate: bool, line: seq<Byte>, k: nat, j: nat)
    requires depth == 8 || depth == 16
    requires forall c | 0 <= c < |planes| :: xs <= |planes[c]|
    requires j < |planes| && k < if interpolate then 2 * xs - 1 else xs
    requires PixelAt(depth, line, k, Pixel(depth, planes, xs, interpolate, k))
    ensures Copied(depth, planes, xs, interpolate, line, k, j)
  {
    PixelValue(depth, planes, xs, interpolate, k, j);
    var pixel := Pixel(depth, planes, xs, interpolate, k);
    hide Pixel;
    assert SampleAt(depth, line, Offset(depth, |pixel|, k, j), pixel[j]);
  }

  lemma PixelValue(depth: nat, planes: seq<seq<Sample>>, xs: nat, interpolate: bool, k: nat, j: nat)
    requires depth == 8 || depth == 16
    requires forall c | 0 <= c < |planes| :: xs <= |planes[c]|
    requires j < |planes| && k < if interpolate then 2 * xs - 1 else xs
    ensures var right := if interpolate then xs - 1 - k / 2 else xs - 1 - k;
            var v: int := Pixel(depth, planes, xs, interpolate, k)[j];
            if interpolate && k % 2 == 1 then
              var (a: int, b: int) := (planes[j][right], planes[j][right - 1]);
              v == if depth == 8 then (a / 257 + b / 257) / 2 else (a + b) / 2
            else
              var a: int := planes[j][right];
              v == if depth == 8 then a / 257 else a
  {
  }

  /** copy_scan_line without its lineart branch. The line carries exactly the samples it should: the
      columns from right to left, and at 1200 dpi on the plain model the floor averages between
      them. (The place after the last column is left as it was.) */
  method CopyScanLine(depth: nat, planes: seq<seq<Sample>>, xs: nat, ydpi: nat, isEpro: bool, buf: array<Byte>)
    requires depth == 8 || depth == 16
    requires forall j | 0 <= j < |planes| :: xs <= |planes[j]|
    requires Span(if ydpi == 1200 && !isEpro then 2 * xs else xs, Width(depth, |planes|)) <= buf.Length
    modifies buf
    ensures var interpolate := ydpi == 1200 && !isEpro;
            forall k | 0 <= k < (if interpolate then 2 * xs - 1 else xs) ::
              PixelAt(depth, buf[..], k, Pixel(depth, planes, xs, interpolate, k))
    ensures var interpolate := ydpi == 1200 && !isEpro;
            forall k: nat, j: nat | k < (if interpolate then 2 * xs - 1 else xs) && j < |planes| ::
              Copied(depth, planes, xs, interpolate, buf[..], k, j)
  {
    hide Copied;
    CopyPixels(depth, planes, xs, ydpi == 1200 && !isEpro, buf);
    ghost var interpolate := ydpi == 1200 && !isEpro;
    hide PixelAt, Pixel;
    forall k: nat, j: nat | k < (if interpolate then 2 * xs - 1 else xs) && j < |planes|
      ensures Copied(depth, planes, xs, interpolate, buf[..], k, j)
    {
      PixelCopied(depth, planes, xs, interpolate, buf[..], k, j);
    }
  }

  method CopyPixels(depth: nat, planes: seq<seq<Sample>>, xs: nat, interpolate: bool, buf: array<Byte>)
    requires depth == 8 || depth == 16
    requires forall j | 0 <= j < |planes| :: xs <= |planes[j]|
    requires Span(if interpolate then 2 * xs else xs, Width(depth, |planes|)) <= buf.Length
    modifies buf
    ensures forall k | 0 <= k < (if interpolate then 2 * xs - 1 else xs) ::
              PixelAt(depth, buf[..], k, Pixel(depth, planes, xs, interpolate, k))
  {
    hide PixelAt, Width, Average;
    ghost var cols := Columns(depth, planes, xs);
    PutColumns(depth, planes, xs, interpolate, buf);
    if interpolate {
      forall p, j | depth == 8 && 0 <= p < xs && 0 <= j < |planes|
        ensures cols[p][j] < 256
      {
        assert cols[p] == Column(depth, planes, xs - 1 - p);
      }
      FillGaps(depth, |planes|, xs, buf, cols);
    }
    forall k | 0 <= k < (if interpolate then 2 * xs - 1 else xs)
      ensures PixelAt(depth, buf[..], k, Pixel(depth, planes, xs, interpolate, k))
    {
      if !interpolate {
        assert PixelAt(depth, buf[..], Place(interpolate, k), cols[k]);
      } else if k % 2 == 0 {
        assert PixelAt(depth, buf[..], Place(interpolate, k / 2), cols[k / 2]);
      } else {
        assert PixelAt(depth, buf[..], 2 * (k / 2) + 1, Average(cols[k / 2], cols[k / 2 + 1]));
      }
    }
  }

  /** Eight-bit lines survive the way through the backend: unpacked to samples of 257 times the byte and copied, the
      bytes of each plane come out as they were sent, mirrored. At 1200 dpi on the plain model they come out in every
      second place, and between them the floor means of the bytes on both sides. */
  lemma UnpackedAndCopied(raw: seq<seq<Byte>>, xs: nat, planes: seq<seq<Sample>>, interpolate: bool, line: seq<Byte>,
                          k: nat, j: nat)
    requires |planes| == |raw| && j < |raw| && k < if interpolate then 2 * xs - 1 else xs
    requires forall c | 0 <= c < |raw| :: xs <= |raw[c]| && |planes[c]| == xs && planes[c] == Plane(8, raw[c], xs)
    requires Copied(8, planes, xs, interpolate, line, k, j)
    ensures Span(k, |raw|) + j < |line|
    ensures line[Span(k, |raw|) + j] as int ==
            if !interpolate then raw[j][xs - 1 - k] as int
            else if k % 2 == 0 then raw[j][xs - 1 - k / 2] as int
            else (raw[j][xs - 1 - k / 2] as int + raw[j][xs - 2 - k / 2] as int) / 2
  {
    var right := if interpolate then xs - 1 - k / 2 else xs - 1 - k;
    SentSample(raw[j], xs, right);
    if interpolate && k % 2 == 1 {
      SentSample(raw[j], xs, right - 1);
    }
    hide Plane;
  }

  lemma SentSample(bytes: seq<Byte>, xs: nat, i: nat)
    requires i < xs <= |bytes|
    ensures Plane(8, bytes, xs)[i] == 257 * (bytes[i] as int)
  {
    SampleOf8(bytes, xs, i);
  }
}
