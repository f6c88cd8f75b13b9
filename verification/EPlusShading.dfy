/** The shading calibration of the Artec E+ 48U backend: lines of a white and of a black field are
    added up, averaged, kept as a byte buffer, and read back at the resolution of a scan. */
module EPlusShading {
  import opened Streams
  import opened RowMath
  import opened EPlusLines
  import opened EPlusReader

  /** unsigned int */
  type Word32 = x: int | 0 <= x < 0x1_0000_0000

  /** A calibration line: three planes of one sample a sensor. */
  ghost predicate Lines(lines: seq<seq<seq<Sample>>>, sensors: nat) {
    forall k | 0 <= k < |lines| :: |lines[k]| == 3 && forall j | 0 <= j < 3 :: |lines[k][j]| == sensors
  }

  /** What the first k lines show of sensor i in channel j, added up. */
  ghost function Sum(lines: seq<seq<seq<Sample>>>, sensors: nat, k: nat, j: nat, i: nat): nat
    requires Lines(lines, sensors) && k <= |lines| && j < 3 && i < sensors
  {
    if k == 0 then 0 else Sum(lines, sensors, k - 1, j, i) + lines[k - 1][j][i]
  }

  /** The sums stay far below 2^32. */
  lemma {:induction false} SumBound(lines: seq<seq<seq<Sample>>>, sensors: nat, k: nat, j: nat, i: nat)
    requires Lines(lines, sensors) && k <= |lines| && j < 3 && i < sensors
    ensures Sum(lines, sensors, k, j, i) <= 65535 * k
  {
    if k > 0 {
      SumBound(lines, sensors, k - 1, j, i);
    }
  }

  /** The floor mean of all lines at every sensor, channel by channel. */
  ghost function Means(lines: seq<seq<seq<Sample>>>, sensors: nat): (r: seq<seq<Sample>>)
    requires Lines(lines, sensors) && |lines| > 0
    ensures |r| == 3 && forall j | 0 <= j < 3 :: |r[j]| == sensors
  {
    seq(3, j requires 0 <= j < 3 => seq(sensors, i requires 0 <= i < sensors => MeanAt(lines, sensors, j, i)))
  }

  ghost function MeanAt(lines: seq<seq<seq<Sample>>>, sensors: nat, j: nat, i: nat): Sample
    requires Lines(lines, sensors) && |lines| > 0 && j < 3 && i < sensors
  {
    SumBound(lines, sensors, |lines|, j, i);
    DivMonotone(Sum(lines, sensors, |lines|, j, i), 65535 * |lines|, |lines|);
    Quotient(65535 * |lines|, |lines|, 65535, 0);
    Sum(lines, sensors, |lines|, j, i) / |lines|
  }

  /** The buffer holds the samples of sensor i as six bytes, low byte first, red before green before blue. */
  ghost predicate Serialised(bytes: seq<Byte>, samples: seq<seq<Sample>>, sensors: nat)
    requires |samples| == 3 && forall j | 0 <= j < 3 :: |samples[j]| == sensors
  {
    && |bytes| == 6 * sensors
    && forall i, j | 0 <= i < sensors && 0 <= j < 3 :: SampleAt(16, bytes, 6 * i + 2 * j, samples[j][i])
  }

  /** The step in the byte buffer from one pixel to the next. */
  function Stride(resolution: nat, isEpro: bool): nat {
    match resolution
    case 50 => 72
    case 100 => 36
    case 200 => 18
    case 300 => 12
    case 600 => 6
    case 1200 => if isEpro then 3 else 6
    case _ => 6
  }

  /** A sample of each sensor in each channel. */
  ghost predicate Planes(samples: seq<seq<Sample>>, sensors: nat) {
    |samples| == 3 && forall j | 0 <= j < 3 :: |samples[j]| == sensors
  }

  /** A place of the byte buffer where six bytes for one entry start, at a sensor or in the middle of one. */
  ghost predicate EntryPlace(at: nat, sensors: nat) {
    at % 3 == 0 && at + 6 <= 6 * sensors
  }

  /** What the table takes for channel j from the six bytes at a place. In the middle of a sensor these are the
      high byte of its green and the two of its blue, and the two of the next sensor's red and the low one of its
      green. */
  ghost function EntryOf(samples: seq<seq<Sample>>, sensors: nat, at: nat, j: nat): (v: Sample)
    requires Planes(samples, sensors) && EntryPlace(at, sensors) && j < 3
  {
    var m := at / 6;
    if at % 6 == 0 then samples[j][m]
    else if j == 0 then samples[1][m] / 256 + 256 * (samples[2][m] % 256)
    else if j == 1 then samples[2][m] / 256 + 256 * (samples[0][m + 1] % 256)
    else samples[0][m + 1] / 256 + 256 * (samples[1][m + 1] % 256)
  }

  /** The table holds the sample of the sensor itself, whatever the samples are, just when the place is the start
      of a sensor. */
  lemma OwnSample(sensors: nat, at: nat, j: nat)
    requires EntryPlace(at, sensors) && j < 3
    ensures (forall samples | Planes(samples, sensors) :: EntryOf(samples, sensors, at, j) == samples[j][at / 6])
            <==> at % 6 == 0
  {
    if at % 6 != 0 {
      var dark, light := seq(sensors, i => 0), seq(sensors, i => 65535);
      var samples := seq(3, i requires 0 <= i < 3 => if i == j then light else dark);
      assert Planes(samples, sensors);
      assert EntryOf(samples, sensors, at, j) != samples[j][at / 6];
    }
  }

  /** Every pixel of a scan starts at a sensor, but every second one at 1200 dpi on the enhanced model. */
  lemma PixelPlace(pixel: nat, resolution: nat, isEpro: bool)
    ensures pixel * Stride(resolution, isEpro) % 3 == 0
    ensures pixel * Stride(resolution, isEpro) % 6 == 0 <==> !(resolution == 1200 && isEpro) || pixel % 2 == 0
  {
    var step := Stride(resolution, isEpro);
    assert step == 3 || step % 6 == 0;
    assert step == 3 <==> resolution == 1200 && isEpro;
    hide *;
    if step == 3 {
      ThreeTimes(pixel);
    } else {
      var s := step / 6;
      assert step == 6 * s;
      SixTimes(pixel, s);
    }
  }

  lemma ThreeTimes(pixel: nat)
    ensures pixel * 3 % 3 == 0 && (pixel * 3 % 6 == 0 <==> pixel % 2 == 0)
  {
    var k, r := pixel / 2, pixel % 2;
    assert pixel * 3 == 6 * k + 3 * r == 3 * pixel;
    Remainder(pixel * 3, 6, k, 3 * r);
    Remainder(pixel * 3, 3, pixel, 0);
  }

  lemma SixTimes(pixel: nat, s: nat)
    ensures pixel * (6 * s) % 6 == 0 && pixel * (6 * s) % 3 == 0
  {
    var x := pixel * s;
    assert pixel * (6 * s) == 6 * x;
  }

  /** The bytes of an entry. */
  lemma EntryBytes(bytes: seq<Byte>, samples: seq<seq<Sample>>, sensors: nat, at: nat, j: nat)
    requires Planes(samples, sensors) && EntryPlace(at, sensors) && j < 3 && Serialised(bytes, samples, sensors)
    ensures |bytes| == 6 * sensors
    ensures bytes[at + 2 * j] as int + 256 * (bytes[at + 2 * j + 1] as int) == EntryOf(samples, sensors, at, j)
  {
    var m := at / 6;
    assert SampleAt(16, bytes, 6 * m + 2 * 0, samples[0][m]);
    assert SampleAt(16, bytes, 6 * m + 2 * 1, samples[1][m]);
    assert SampleAt(16, bytes, 6 * m + 2 * 2, samples[2][m]);
    if at % 6 != 0 {
      assert SampleAt(16, bytes, 6 * (m + 1) + 2 * 0, samples[0][m + 1]);
      assert SampleAt(16, bytes, 6 * (m + 1) + 2 * 1, samples[1][m + 1]);
    }
  }

  /** The sensors are 600 to the inch and have six bytes each: a pixel of a resolution is so many bytes wide, but
      for 1200 dpi on the plain model, where the lines are read with a pixel for each sensor. */
  lemma StrideLaw(resolution: nat, isEpro: bool)
    ensures resolution in {50, 100, 200, 300, 600} || (resolution == 1200 && isEpro) ==>
              resolution * Stride(resolution, isEpro) == 600 * 6
    ensures resolution == 1200 && !isEpro ==> resolution * Stride(resolution, isEpro) == 1200 * 6
  {
  }

  /** The samples of one sensor, line by line. */
  ghost function Samples(lines: seq<seq<seq<Sample>>>, sensors: nat, j: nat, i: nat): (r: seq<nat>)
    requires Lines(lines, sensors) && j < 3 && i < sensors
    ensures |r| == |lines|
  {
    seq(|lines|, k requires 0 <= k < |lines| => lines[k][j][i])
  }

  lemma {:induction false} SumIsTotal(lines: seq<seq<seq<Sample>>>, sensors: nat, k: nat, j: nat, i: nat)
    requires Lines(lines, sensors) && k <= |lines| && j < 3 && i < sensors
    ensures Sum(lines, sensors, k, j, i) == Total(Samples(lines, sensors, j, i), k)
  {
    if k > 0 {
      SumIsTotal(lines, sensors, k - 1, j, i);
    }
  }

  /** A mean, times the number of lines, is what they hold together but for less than one a line. */
  lemma MeanLaw(lines: seq<seq<seq<Sample>>>, sensors: nat, j: nat, i: nat)
    requires Lines(lines, sensors) && |lines| > 0 && j < 3 && i < sensors
    ensures var (mean, total) := (Means(lines, sensors)[j][i], Total(Samples(lines, sensors, j, i), |lines|));
            mean * |lines| <= total < mean * |lines| + |lines|
  {
    SumIsTotal(lines, sensors, |lines|, j, i);
    var mean, total := Means(lines, sensors)[j][i], Total(Samples(lines, sensors, j, i), |lines|);
    assert mean == total / |lines|;
    hide *;
    FloorDivision(total, |lines|);
  }

  lemma FloorDivision(x: nat, n: nat)
    requires n > 0
    ensures x / n * n <= x < x / n * n + n
  {
    assert x == x / n * n + x % n;
  }

  /** Where all lines show the same of a sensor, the mean is that. */
  lemma SteadySensor(lines: seq<seq<seq<Sample>>>, sensors: nat, j: nat, i: nat, v: Sample)
    requires Lines(lines, sensors) && |lines| > 0 && j < 3 && i < sensors
    requires forall k | 0 <= k < |lines| :: lines[k][j][i] == v
    ensures Means(lines, sensors)[j][i] == v
  {
    SteadySum(lines, sensors, |lines|, j, i, v);
    Quotient(Sum(lines, sensors, |lines|, j, i), |lines|, v, 0);
  }

  lemma {:induction false} SteadySum(lines: seq<seq<seq<Sample>>>, sensors: nat, k: nat, j: nat, i: nat, v: Sample)
    requires Lines(lines, sensors) && k <= |lines| && j < 3 && i < sensors
    requires forall l | 0 <= l < |lines| :: lines[l][j][i] == v
    ensures Sum(lines, sensors, k, j, i) == v * k
  {
    if k > 0 {
      SteadySum(lines, sensors, k - 1, j, i, v);
    }
  }

  class Calibration {
    const eproMult: nat
    const sensors: nat
    const temp: array2<Word32>
    const bufferW: array<Byte>
    const bufferB: array<Byte>
    const white: array2<Sample>
    const black: array2<Sample>

    ghost predicate Valid() {
      && 1 <= eproMult <= 2 && sensors == 5120 * eproMult
      && temp.Length0 == 3 && temp.Length1 == sensors
      && bufferW.Length == 30720 * eproMult && bufferB.Length == 30720 * eproMult && bufferW != bufferB
      && white.Length0 == 3 && white.Length1 == sensors && black.Length0 == 3 && black.Length1 == sensors
      && white != black
    }

    constructor (isEpro: bool)
      ensures Valid() && eproMult == (if isEpro then 2 else 1)
      ensures fresh(temp) && fresh(bufferW) && fresh(bufferB) && fresh(white) && fresh(black)
    {
      var m := if isEpro then 2 else 1;
      eproMult := m;
      sensors := 5120 * m;
      temp := new Word32[3, 5120 * m];
      bufferW := new Byte[30720 * m];
      bufferB := new Byte[30720 * m];
      white := new Sample[3, 5120 * m];
      black := new Sample[3, 5120 * m];
    }

    /** init_shading_buffer */
    method Init()
      requires Valid()
      modifies temp
      ensures forall j, i | 0 <= j < 3 && 0 <= i < sensors :: temp[j, i] == 0
    {
      for i := 0 to sensors
        invariant forall j, n | 0 <= j < 3 && 0 <= n < i :: temp[j, n] == 0
      {
        for j := 0 to 3
          invariant forall c, n | 0 <= c < 3 && 0 <= n < i :: temp[c, n] == 0
          invariant forall c | 0 <= c < j :: temp[c, i] == 0
        {
          temp[j, i] := 0;
        }
      }
    }

    /** add_to_shading_buffer: one line more, modulo 2^32. */
    method Add(line: seq<seq<Sample>>)
      requires Valid() && |line| == 3 && forall j | 0 <= j < 3 :: |line[j]| == sensors
      modifies temp
      ensures forall j, i | 0 <= j < 3 && 0 <= i < sensors ::
                temp[j, i] == (old(temp[j, i]) + line[j][i]) % 0x1_0000_0000
    {
      for i := 0 to sensors
        invariant forall j, n | 0 <= j < 3 && 0 <= n < i ::
                    temp[j, n] == (old(temp[j, n]) + line[j][n]) % 0x1_0000_0000
        invariant forall j, n | 0 <= j < 3 && i <= n < sensors :: temp[j, n] == old(temp[j, n])
      {
        for j := 0 to 3
          invariant forall c, n | 0 <= c < 3 && 0 <= n < sensors && (n < i || (n == i && c < j)) ::
                      temp[c, n] == (old(temp[c, n]) + line[c][n]) % 0x1_0000_0000
          invariant forall c, n | 0 <= c < 3 && 0 <= n < sensors && !(n < i || (n == i && c < j)) ::
                      temp[c, n] == old(temp[c, n])
        {
          temp[j, i] := (temp[j, i] + line[j][i]) % 0x1_0000_0000;
        }
      }
    }

    /** finish_shading_buffer: the sums divided by the number of lines, as bytes. Each byte is masked,
        so it is the mean itself that has to fit sixteen bits. */
    method Finish(buffer: array<Byte>, div: nat, ghost means: seq<seq<Sample>>)
      requires Valid() && buffer.Length == 6 * sensors && div > 0
      requires |means| == 3 && forall j | 0 <= j < 3 :: |means[j]| == sensors
      requires forall j, i | 0 <= j < 3 && 0 <= i < sensors :: means[j][i] == temp[j, i] / div
      modifies buffer
      ensures Serialised(buffer[..], means, sensors)
    {
      var cnt := 0;
      for i := 0 to sensors
        invariant cnt == 6 * i
        invariant forall n, j | 0 <= n < i && 0 <= j < 3 :: SampleAt(16, buffer[..], 6 * n + 2 * j, means[j][n])
      {
        for j := 0 to 3
          invariant cnt == 6 * i + 2 * j
          invariant forall n, c | 0 <= n <= i && 0 <= c < 3 && (n < i || c < j) ::
                      SampleAt(16, buffer[..], 6 * n + 2 * c, means[c][n])
        {
          ghost var before := buffer[..];
          var value := temp[j, i] / div;
          assert value == means[j][i];
          buffer[cnt] := value % 256;
          buffer[cnt + 1] := value / 256 % 256;
          assert SameBut(before, buffer[..], cnt, 2);
          forall n, c | 0 <= n <= i && 0 <= c < 3 && (n < i || c < j)
            ensures SampleAt(16, buffer[..], 6 * n + 2 * c, means[c][n])
          {
            OtherSample(16, before, buffer[..], cnt, 2, 6 * n + 2 * c, means[c][n]);
          }
          cnt := cnt + 2;
        }
      }
    }

    /** One field: the lines are read, added up, and averaged into the buffer. No sum wraps around and
        no mean loses a bit, whatever the samples are. */
    method Field(lines: seq<seq<seq<Sample>>>, buffer: array<Byte>)
      requires Valid() && Lines(lines, sensors) && |lines| == 70 * eproMult
      requires buffer == bufferW || buffer == bufferB
      modifies temp, buffer
      ensures Serialised(buffer[..], Means(lines, sensors), sensors)
    {
      Init();
      for c := 0 to |lines|
        invariant forall j, i | 0 <= j < 3 && 0 <= i < sensors :: temp[j, i] == Sum(lines, sensors, c, j, i)
        modifies temp
      {
        Add(lines[c]);
        forall j, i | 0 <= j < 3 && 0 <= i < sensors
          ensures temp[j, i] == Sum(lines, sensors, c + 1, j, i)
        {
          SumBound(lines, sensors, c + 1, j, i);
        }
      }
      Finish(buffer, 70 * eproMult, Means(lines, sensors));
    }

    /** Entry c of the black and white tables, from the bytes at i. */
    method Entry(i: nat, c: nat, color: bool, ghost whites: seq<seq<Sample>>, ghost blacks: seq<seq<Sample>>)
      requires Valid() && c < sensors && EntryPlace(i, sensors)
      requires Planes(whites, sensors) && Serialised(bufferW[..], whites, sensors)
      requires Planes(blacks, sensors) && Serialised(bufferB[..], blacks, sensors)
      modifies white, black
      ensures forall j | 0 <= j < 3 && (color || j == 1) ::
                white[j, c] == EntryOf(whites, sensors, i, j) && black[j, c] == EntryOf(blacks, sensors, i, j)
      ensures forall j, n | 0 <= j < 3 && 0 <= n < sensors && !(n == c && (color || j == 1)) ::
                white[j, n] == old(white[j, n]) && black[j, n] == old(black[j, n])
    {
      hide Serialised, EntryOf, Planes;
      if color {
        white[0, c] := Decode(bufferW, i, 0, whites, sensors);
        white[2, c] := Decode(bufferW, i, 2, whites, sensors);
        black[0, c] := Decode(bufferB, i, 0, blacks, sensors);
        black[2, c] := Decode(bufferB, i, 2, blacks, sensors);
      }
      white[1, c] := Decode(bufferW, i, 1, whites, sensors);
      black[1, c] := Decode(bufferB, i, 1, blacks, sensors);
    }

    /** The loop of artec48u_calculate_shading_buffer: entry n is what the buffers hold at the n-th place, one
        channel of it for a grey scan. */
    method Entries(first: nat, bpp: nat, count: nat, color: bool, ghost places: seq<nat>,
                   ghost whites: seq<seq<Sample>>, ghost blacks: seq<seq<Sample>>)
      requires Valid() && bpp > 0 && |places| == count <= sensors && EntryPlaces(places, sensors)
      requires forall n | 0 <= n < count :: places[n] == first + Span(n, bpp)
      requires Planes(whites, sensors) && Serialised(bufferW[..], whites, sensors)
      requires Planes(blacks, sensors) && Serialised(bufferB[..], blacks, sensors)
      modifies white, black
      ensures forall j, n | 0 <= j < 3 && 0 <= n < count && (color || j == 1) ::
                && white[j, n] == EntryOf(whites, sensors, places[n], j)
                && black[j, n] == EntryOf(blacks, sensors, places[n], j)
      ensures forall j, n | 0 <= j < 3 && 0 <= n < sensors && !(n < count && (color || j == 1)) ::
                white[j, n] == old(white[j, n]) && black[j, n] == old(black[j, n])
    {
      hide Serialised, EntryPlace, EntryOf, Planes;
      var c: nat, i: nat := 0, first;
      SpanIsProduct(count, bpp);
      while i < first + count * bpp
        invariant c <= count && i == first + Span(c, bpp)
        invariant forall j, n | 0 <= j < 3 && 0 <= n < c && (color || j == 1) ::
                    && white[j, n] == EntryOf(whites, sensors, places[n], j)
                    && black[j, n] == EntryOf(blacks, sensors, places[n], j)
        invariant forall j, n | 0 <= j < 3 && 0 <= n < sensors && !(n < c && (color || j == 1)) ::
                    white[j, n] == old(white[j, n]) && black[j, n] == old(black[j, n])
        decreases count - c
      {
        assert i == places[c];
        Entry(i, c, color, whites, blacks);
        i := i + bpp;
        c := c + 1;
      }
      SpanStrict(c, count, bpp);
    }

    /** artec48u_calculate_shading_buffer: the tables for pixels start to end of a scan. Entry c is what the
        buffers hold at the place of pixel start + c. */
    method Calculate(start: nat, end: nat, resolution: nat, isEpro: bool, color: bool,
                     ghost whites: seq<seq<Sample>>, ghost blacks: seq<seq<Sample>>) returns (ghost places: seq<nat>)
      requires Valid() && Pixels(start, end, Stride(resolution, isEpro), sensors)
      requires Planes(whites, sensors) && Serialised(bufferW[..], whites, sensors)
      requires Planes(blacks, sensors) && Serialised(bufferB[..], blacks, sensors)
      modifies white, black
      ensures |places| == end - start && EntryPlaces(places, sensors)
      ensures forall c | 0 <= c < |places| :: places[c] == (start + c) * Stride(resolution, isEpro)
      ensures forall j, c | 0 <= j < 3 && 0 <= c < |places| && (color || j == 1) ::
                && white[j, c] == EntryOf(whites, sensors, places[c], j)
                && black[j, c] == EntryOf(blacks, sensors, places[c], j)
      ensures forall j, c | 0 <= j < 3 && 0 <= c < sensors && !(start + c < end && (color || j == 1)) ::
                white[j, c] == old(white[j, c]) && black[j, c] == old(black[j, c])
    {
      places := PlacesOf(start, end, resolution, isEpro, sensors);
      hide Serialised, Stride, EntryPlace, EntryOf, Pixels, Planes;
      var bpp := Stride(resolution, isEpro);
      Entries(start * bpp, bpp, end - start, color, places, whites, blacks);
    }

    /** Calibration and use in one: whatever the samples of the two fields were, the tables are made of the floor
        means of the sensors over all lines of their field. */
    method Calibrate(blackLines: seq<seq<seq<Sample>>>, whiteLines: seq<seq<seq<Sample>>>,
                     start: nat, end: nat, resolution: nat, isEpro: bool, color: bool) returns (ghost places: seq<nat>)
      requires Valid() && Pixels(start, end, Stride(resolution, isEpro), sensors)
      requires Lines(blackLines, sensors) && |blackLines| == 70 * eproMult
      requires Lines(whiteLines, sensors) && |whiteLines| == 70 * eproMult
      modifies temp, bufferB, bufferW, white, black
      ensures |places| == end - start && EntryPlaces(places, sensors)
      ensures forall c | 0 <= c < |places| :: places[c] == (start + c) * Stride(resolution, isEpro)
      ensures forall j, c | 0 <= j < 3 && 0 <= c < |places| && (color || j == 1) ::
                && white[j, c] == EntryOf(Means(whiteLines, sensors), sensors, places[c], j)
                && black[j, c] == EntryOf(Means(blackLines, sensors), sensors, places[c], j)
    {
      hide Serialised, Stride, Sum, Lines, EntryPlace, EntryOf, Pixels;
      Field(blackLines, bufferB);
      Field(whiteLines, bufferW);
      ghost var whites, blacks := Means(whiteLines, sensors), Means(blackLines, sensors);
      places := Calculate(start, end, resolution, isEpro, color, whites, blacks);
    }
  }

  ghost predicate EntryPlaces(places: seq<nat>, sensors: nat) {
    forall c | 0 <= c < |places| :: EntryPlace(places[c], sensors)
  }

  /** The pixels of a scan that have their bytes in the buffers and their entries in the tables. */
  ghost predicate Pixels(start: nat, end: nat, stride: nat, sensors: nat) {
    start <= end <= start + sensors && (start < end ==> (end - 1) * stride + 6 <= 6 * sensors)
  }

  /** Where the pixels have their bytes. */
  lemma PlacesOf(start: nat, end: nat, resolution: nat, isEpro: bool, sensors: nat) returns (places: seq<nat>)
    requires Pixels(start, end, Stride(resolution, isEpro), sensors)
    ensures |places| == end - start <= sensors && EntryPlaces(places, sensors)
    ensures forall c | 0 <= c < |places| :: places[c] == (start + c) * Stride(resolution, isEpro)
    ensures forall c | 0 <= c < |places| ::
              places[c] == start * Stride(resolution, isEpro) + Span(c, Stride(resolution, isEpro))
  {
    var bpp := Stride(resolution, isEpro);
    places := seq(end - start, c requires 0 <= c < end - start => (start + c) * bpp);
    hide Stride, Span;
    forall c | 0 <= c < end - start
      ensures EntryPlace(places[c], sensors) && places[c] == start * bpp + Span(c, bpp)
    {
      PixelPlace(start + c, resolution, isEpro);
      SpanIsProduct(c, bpp);
      assert (start + c) * bpp == start * bpp + c * bpp;
      MulMonotone(start + c, end - 1, bpp);
    }
  }

  lemma SpanStrict(x: nat, y: nat, s: nat)
    requires s > 0 && x <= y && Span(x, s) >= Span(y, s)
    ensures x == y
  {
    if x < y {
      SpanMonotone(x + 1, y, s);
    }
  }

  /** The bytes of channel j at a place of a buffer, low byte first. */
  method Decode(buffer: array<Byte>, at: nat, j: nat, ghost samples: seq<seq<Sample>>, ghost sensors: nat)
      returns (value: Sample)
    requires Planes(samples, sensors) && EntryPlace(at, sensors) && j < 3 && Serialised(buffer[..], samples, sensors)
    ensures value == EntryOf(samples, sensors, at, j)
  {
    EntryBytes(buffer[..], samples, sensors, at, j);
    value := Word(buffer[at + 2 * j], buffer[at + 2 * j + 1]);
  }
}
