/** The reader process of the AGFA Focus backend, which fetches the lines a batch at a time, and the
    big-endian numbers of its SCSI commands. */
module AgfaFocus {
  import opened RowMath
  import opened Streams

  // ---------- Numbers in commands ----------

  /** 256 to the power n. */
  function Pow256(n: nat): (r: nat)
    ensures r > 0
  {
    if n == 0 then 1 else 256 * Pow256(n - 1)
  }

  /** The number some bytes stand for, the first byte being the highest. */
  ghost function Value(bytes: seq<Byte>): nat {
    if bytes == [] then 0 else Value(bytes[..|bytes| - 1]) * 256 + bytes[|bytes| - 1]
  }

  lemma {:induction false} ValueBound(bytes: seq<Byte>)
    ensures Value(bytes) < Pow256(|bytes|)
  {
    if bytes != [] {
      ValueBound(bytes[..|bytes| - 1]);
    }
  }

  lemma LastByte(bytes: seq<Byte>)
    requires bytes != []
    ensures Value(bytes) / 256 == Value(bytes[..|bytes| - 1]) && Value(bytes) % 256 == bytes[|bytes| - 1]
  {
    Remainder(Value(bytes), 256, Value(bytes[..|bytes| - 1]), bytes[|bytes| - 1]);
  }

  /** A number of so many bytes is written in one way only. */
  lemma {:induction false} ValueInjective(a: seq<Byte>, b: seq<Byte>)
    requires |a| == |b| && Value(a) == Value(b)
    ensures a == b
  {
    if a != [] {
      var n := |a| - 1;
      LastByte(a);
      LastByte(b);
      hide Value;
      ValueInjective(a[..n], b[..n]);
      assert a == a[..n] + [a[n]] && b == b[..n] + [b[n]];
    }
  }

  /** int, by two's complement. */
  function Int32(x: int): int {
    (x + 0x8000_0000) % 0x1_0000_0000 - 0x8000_0000
  }

  lemma Wrapped(x: int) returns (k: int)
    ensures Int32(x) == x - k * 0x1_0000_0000
  {
    k := (x + 0x8000_0000) / 0x1_0000_0000;
  }

  lemma WrappedTo(x: int, k: int)
    requires -0x8000_0000 <= x - k * 0x1_0000_0000 < 0x8000_0000
    ensures Int32(x) == x - k * 0x1_0000_0000
  {
  }

  /** Each digit may wrap around on its own. */
  lemma WrappedDigits(v: int, b: int)
    ensures Int32(Int32(v) * 256 + b) == Int32(v * 256 + b)
  {
    var k := Wrapped(v);
    var m := Wrapped(v * 256 + b);
    assert -0x8000_0000 <= Int32(v * 256 + b) < 0x8000_0000;
    hide *;
    WrappedTo(Int32(v) * 256 + b, m - 256 * k);
  }

  lemma Small(x: nat)
    ensures Int32(x) == x <==> x < 0x8000_0000
  {
    if x < 0x8000_0000 {
      WrappedTo(x, 0);
    }
  }

  lemma {:induction false} ValueCons(b: Byte, bytes: seq<Byte>)
    ensures Value([b] + bytes) == b * Pow256(|bytes|) + Value(bytes)
  {
    var all := [b] + bytes;
    if bytes == [] {
      assert all[..0] == [];
    } else {
      var n := |bytes| - 1;
      ValueCons(b, bytes[..n]);
      assert all[..n + 1] == [b] + bytes[..n];
      assert b * Pow256(n + 1) == b * Pow256(n) * 256;
    }
  }

  /** One byte more of a number. */
  lemma NextByte(size: nat, i: nat)
    ensures size % Pow256(i + 1) == (size / Pow256(i) % 256) * Pow256(i) + size % Pow256(i)
  {
    var p := Pow256(i);
    var rest := size / p;
    var q, d := rest / 256, rest % 256;
    assert size == p * rest + size % p;
    assert p * rest == q * (256 * p) + d * p by {
      assert p * rest == p * (256 * q + d) == p * (256 * q) + p * d;
      assert p * (256 * q) == q * (256 * p);
    }
    MulMonotone(d, 255, p);
    Remainder(size, 256 * p, q, d * p + size % p);
  }

  /** set_size: n bytes from `at` on, which stand for the size modulo 256^n; the rest is left alone. */
  method SetSize(loc: array<Byte>, at: nat, n: nat, size: nat)
    requires at + n <= loc.Length
    modifies loc
    ensures Value(loc[at..at + n]) == size % Pow256(n)
    ensures forall i | 0 <= i < loc.Length && !(at <= i < at + n) :: loc[i] == old(loc[i])
  {
    for i := 0 to n
      invariant Value(loc[at + n - i..at + n]) == size % Pow256(i)
      invariant forall k | 0 <= k < loc.Length && !(at + n - i <= k < at + n) :: loc[k] == old(loc[k])
    {
      ghost var suffix := loc[at + n - i..at + n];
      var digit := size / Pow256(i) % 256;
      loc[at + n - i - 1] := digit;
      assert loc[at + n - i - 1..at + n] == [digit] + suffix;
      ValueCons(digit, suffix);
      NextByte(size, i);
    }
  }

  /** get_size, in an int of 32 bits. */
  method GetSize(loc: array<Byte>, at: nat, n: nat) returns (j: int)
    requires at + n <= loc.Length
    ensures j == Int32(Value(loc[at..at + n]))
  {
    hide Int32;
    j := 0;
    Small(0);
    for i := 0 to n
      invariant j == Int32(Value(loc[at..at + i]))
    {
      assert loc[at..at + i + 1][..i] == loc[at..at + i];
      WrappedDigits(Value(loc[at..at + i]), loc[at + i]);
      j := Int32(j * 256 + loc[at + i]);
    }
  }

  /** What set_size has written, get_size reads back just when the number fits into the bytes and
      into an int. */
  lemma WrittenThenRead(size: nat, bytes: seq<Byte>)
    requires Value(bytes) == size % Pow256(|bytes|)
    ensures Int32(Value(bytes)) == size <==> size < Pow256(|bytes|) && size < 0x8000_0000
  {
    ValueBound(bytes);
    Small(Value(bytes));
    var v, p := Value(bytes), Pow256(|bytes|);
    assert size < p ==> v == size by {
      if size < p {
        Remainder(size, p, 0, size);
      }
    }
    assert Int32(v) < 0x8000_0000;
    hide *;
    if Int32(v) == size {
      Unwrapped(v, size);
    }
  }

  /** A wrapped number that is no less than zero is no more than the number. */
  lemma Unwrapped(v: nat, size: nat)
    requires Int32(v) == size
    ensures size <= v
  {
  }

  /** What get_size has read from up to three bytes, set_size writes back as it was. */
  lemma ReadThenWritten(bytes: seq<Byte>, again: seq<Byte>)
    requires |again| == |bytes| <= 3
    requires var size := Int32(Value(bytes)); size >= 0 ==> Value(again) == size % Pow256(|bytes|)
    ensures Int32(Value(bytes)) >= 0 && again == bytes
  {
    ValueBound(bytes);
    SmallPowers(|bytes|);
    Small(Value(bytes));
    hide *;
    Remainder(Value(bytes), Pow256(|bytes|), 0, Value(bytes));
    ValueInjective(again, bytes);
  }

  lemma SmallPowers(n: nat)
    requires n <= 3
    ensures Pow256(n) <= 0x100_0000
  {
    assert Pow256(1) == 256 && Pow256(2) == 0x1_0000 && Pow256(3) == 0x100_0000;
  }

  // ---------- The reader process ----------

  /** A byte as the frontend gets it: grey and colour are inverted, six bits are stretched to eight. */
  function Inverted(bpp: nat, b: Byte): Byte
    requires bpp == 6 ==> b < 64
  {
    if bpp == 1 then b else if bpp != 6 then 255 - b else 255 - b * 256 / 64
  }

  /** White is 255 for the frontend and 0 for the scanner; a level of six bits is four of eight. Line art is the same
      for both. */
  lemma InvertedLaw(bpp: nat, b: Byte)
    requires bpp == 6 ==> b < 64
    ensures bpp == 1 ==> Inverted(bpp, b) == b
    ensures bpp == 6 ==> Inverted(bpp, b) as int + 4 * (b as int) == 255
    ensures bpp != 1 && bpp != 6 ==> Inverted(bpp, b) as int + b as int == 255
  {
  }

  ghost predicate Below(bytes: seq<Byte>, limit: nat) {
    forall i | 0 <= i < |bytes| :: bytes[i] < limit
  }

  lemma {:induction false} ConcatBelow(lines: seq<seq<Byte>>, k: nat, limit: nat)
    requires k <= |lines| && forall i | 0 <= i < |lines| :: Below(lines[i], limit)
    ensures Below(Concat(lines, k), limit)
  {
    if k > 0 {
      ConcatBelow(lines, k - 1, limit);
    }
  }

  ghost function InvertedLine(bpp: nat, line: seq<Byte>): (r: seq<Byte>)
    requires bpp == 6 ==> Below(line, 64)
    ensures |r| == |line|
  {
    seq(|line|, c requires 0 <= c < |line| => Inverted(bpp, line[c]))
  }

  lemma {:induction false} ConcatInverted(bpp: nat, raw: seq<seq<Byte>>, lines: seq<seq<Byte>>, k: nat)
    requires k <= |raw| == |lines| && (bpp == 6 ==> forall i | 0 <= i < |raw| :: Below(raw[i], 64))
    requires forall i | 0 <= i < |raw| :: lines[i] == InvertedLine(bpp, raw[i])
    requires bpp == 6 ==> Below(Concat(raw, k), 64)
    ensures InvertedLine(bpp, Concat(raw, k)) == Concat(lines, k)
  {
    if k > 0 {
      if bpp == 6 {
        ConcatBelow(raw, k - 1, 64);
      }
      ConcatInverted(bpp, raw, lines, k - 1);
    }
  }

  lemma Within<T>(s: seq<T>, n: nat, from: nat, to: nat)
    requires from <= to <= n <= |s|
    ensures s[..n][from..to] == s[from..to]
  {
  }

  /** What starts at a place of an array, and how it begins. */
  lemma Begins<T>(s: seq<T>, at: nat, n: nat, m: nat)
    requires m <= n && at + n <= |s|
    ensures s[at..at + m] == s[at..at + n][..m]
  {
  }

  class Reader {
    /** The lines the scanner sends, each of `width` bytes; and how many lines each refill brings. */
    const device: nat -> seq<Byte>
    const width: nat
    const refill: nat -> nat
    const bpp: nat
    /** The bytes of a line that the frontend wants, and the lines. */
    const bytesPerLine: nat
    const lines: nat

    var fetched: nat
    var refills: nat
    var linesAvailable: int
    /** What has been written to the frontend. */
    var pipe: seq<seq<Byte>>

    ghost predicate Sound() {
      && bytesPerLine <= width
      && (forall k: nat :: |device(k)| == width)
      && (bpp == 6 ==> forall k: nat :: Below(device(k), 64))
    }

    constructor (device: nat -> seq<Byte>, width: nat, refill: nat -> nat, bpp: nat, bytesPerLine: nat, lines: nat)
      ensures this.device == device && this.width == width && this.refill == refill && this.bpp == bpp
      ensures this.bytesPerLine == bytesPerLine && this.lines == lines
      ensures fetched == 0 && refills == 0 && pipe == []
    {
      this.device, this.width, this.refill, this.bpp := device, width, refill, bpp;
      this.bytesPerLine, this.lines := bytesPerLine, lines;
      fetched, refills, linesAvailable, pipe := 0, 0, 0, [];
    }

    /** Line k of the scanner, inverted. */
    ghost function Line(k: nat): (r: seq<Byte>)
      requires Sound()
      ensures |r| == width
    {
      InvertedLine(bpp, device(k))
    }

    /** The next n lines of the scanner. */
    ghost function Batch(from: nat, n: nat): (r: seq<seq<Byte>>)
      requires Sound()
      ensures |r| == n && forall i: nat | i < n :: |r[i]| == width && r[i] == device(from + i)
    {
      seq(n, i requires 0 <= i < n => device(from + i))
    }

    ghost function Lines(from: nat, n: nat): (r: seq<seq<Byte>>)
      requires Sound()
      ensures |r| == n
      ensures forall i: nat | i < n :: r[i] == Line(from + i)
      ensures forall i: nat | i < n :: |r[i]| == width
    {
      seq(n, i requires 0 <= i < n => Line(from + i))
    }

    /** The READ command: n lines, one after the other. */
    method Receive(buf: array<Byte>, n: nat)
      requires Sound() && Span(n, width) <= buf.Length
      modifies this`fetched, buf
      ensures fetched == old(fetched) + n
      ensures buf[..Span(n, width)] == Concat(Batch(old(fetched), n), n)
    {
      ghost var batch := Batch(fetched, n);
      hide Batch, Sound;
      SpanMonotone(0, n, width);
      var at: nat := 0;
      for i: nat := 0 to n
        invariant fetched == old(fetched) + i && at == Span(i, width) <= buf.Length
        invariant buf[..at] == Concat(batch, i)
      {
        ghost var before := buf[..at];
        SpanMonotone(i + 1, n, width);
        var line := device(fetched);
        assert line == batch[i];
        for c := 0 to width
          invariant buf[..at] == before
          invariant forall k | at <= k < at + c :: buf[k] == line[k - at]
          modifies buf
        {
          buf[at + c] := line[c];
        }
        assert buf[..at + width] == before + line;
        at := at + width;
        fetched := fetched + 1;
      }
    }

    /** The loop that reverses what was read, in place. */
    method Reverse(buf: array<Byte>, size: nat)
      requires size <= buf.Length && (bpp == 6 ==> Below(buf[..size], 64))
      modifies buf
      ensures buf[..size] == InvertedLine(bpp, old(buf[..size]))
    {
      if bpp != 1 {
        for i := 0 to size
          invariant forall p | 0 <= p < i :: (bpp == 6 ==> old(buf[p]) < 64) && buf[p] == Inverted(bpp, old(buf[p]))
          invariant forall p | i <= p < buf.Length :: buf[p] == old(buf[p])
        {
          buf[i] := Inverted(bpp, buf[i]);
        }
      }
    }

    /** read_data: n of the lines that are available. */
    method ReadData(buf: array<Byte>, n: nat)
      requires Sound() && n <= linesAvailable && Span(n, width) <= buf.Length
      modifies this`fetched, this`linesAvailable, buf
      ensures fetched == old(fetched) + n && linesAvailable == old(linesAvailable) - n
      ensures buf[..Span(n, width)] == Concat(Lines(old(fetched), n), n)
    {
      ghost var batch := Batch(fetched, n);
      Receive(buf, n);
      if bpp == 6 {
        ConcatBelow(batch, n, 64);
      }
      SpanIsProduct(n, width);
      Reverse(buf, n * width);
      ConcatInverted(bpp, batch, Lines(old(fetched), n), n);
      linesAvailable := linesAvailable - n;
    }

    /** The loop that writes the wanted part of each line. */
    method WriteLines(data: array<Byte>, n: nat, ghost from: nat)
      requires Sound() && Span(n, width) <= data.Length
      requires data[..][..Span(n, width)] == Concat(Lines(from, n), n)
      modifies this`pipe
      ensures |pipe| == |old(pipe)| + n
      ensures forall k | 0 <= k < |old(pipe)| :: pipe[k] == old(pipe[k])
      ensures forall k | |old(pipe)| <= k < |pipe| :: pipe[k] == Line(from + k - |old(pipe)|)[..bytesPerLine]
    {
      hide Concat;
      var at: nat := 0;
      for i: nat := 0 to n
        invariant at == Span(i, width) && |pipe| == |old(pipe)| + i
        invariant forall k | 0 <= k < |old(pipe)| :: pipe[k] == old(pipe[k])
        invariant forall k | |old(pipe)| <= k < |pipe| :: pipe[k] == Line(from + k - |old(pipe)|)[..bytesPerLine]
      {
        SpanMonotone(i + 1, n, width);
        ConcatAt(Lines(from, n), n, width, i);
        Within(data[..], Span(n, width), at, at + width);
        assert data[at..at + width] == data[..][at..at + width] == Line(from + i);
        Begins(data[..], at, width, bytesPerLine);
        pipe := pipe + [data[at..at + bytesPerLine]];
        at := at + width;
      }
    }

    /** reader_process, for a scanner that at first has `available` lines. Its exit code is 0 when the
        picture is through. Every line that is fetched is written, once and in order, but the last batch is not
        cut: the frontend gets what the first batches that reach the announced lines hold together. */
    method Process(available: nat, totalLines: nat, maxRequest: nat) returns (exit: int, ghost batches: nat)
      requires Sound() && fetched == 0 && refills == 0 && pipe == []
      modifies this
      ensures |pipe| == fetched && linesAvailable >= 0
      ensures forall k | 0 <= k < |pipe| :: pipe[k] == Line(k)[..bytesPerLine]
      ensures forall k | 0 <= k < |pipe| :: Shows(device(k), pipe[k])
      ensures exit == 0 ==>
                && 0 < width <= maxRequest && lines <= |pipe| < lines + maxRequest / width
                && |pipe| == After(available, refill, maxRequest / width, batches).read
                && (forall i: nat | i < batches :: After(available, refill, maxRequest / width, i).read < lines)
                && (|pipe| == lines <==> exists i: nat :: After(available, refill, maxRequest / width, i).read == lines)
      ensures exit != 0 ==> |pipe| < lines || pipe == []
      ensures exit == 0 || exit == 1 || exit == 2
      ensures available > 0 && totalLines > 0 && 0 < width <= maxRequest && (forall k :: refill(k) > 0) ==> exit == 0
    {
      batches := 0;
      linesAvailable := available;
      if linesAvailable == 0 || width == 0 || totalLines == 0 || width < bytesPerLine {
        exit := 1;
      } else {
        var linesPerBuffer := maxRequest / width;
        if linesPerBuffer == 0 {
          exit := 2;
        } else {
          exit, batches := ReadBatches(available, linesPerBuffer);
        }
      }
      forall k | 0 <= k < |pipe|
        ensures Shows(device(k), pipe[k])
      {
        LineShows(k);
      }
    }

    /** A line as the frontend gets it: its first bytes, with black and white changed unless it is line art, and six
        bits stretched to eight. */
    ghost predicate Shows(sent: seq<Byte>, line: seq<Byte>) {
      && |line| == bytesPerLine <= |sent|
      && forall c | 0 <= c < |line| ::
           line[c] as int == if bpp == 1 then sent[c] as int
                             else if bpp == 6 then 255 - 4 * (sent[c] as int) else 255 - sent[c] as int
    }

    lemma LineShows(k: nat)
      requires Sound()
      ensures Shows(device(k), Line(k)[..bytesPerLine])
    {
      forall c | 0 <= c < bytesPerLine
        ensures Line(k)[..bytesPerLine][c] == Inverted(bpp, device(k)[c])
      {
        assert bpp == 6 ==> Below(device(k), 64);
      }
      forall c | 0 <= c < bytesPerLine
        ensures bpp == 6 ==> device(k)[c] < 64
      {
        assert bpp == 6 ==> Below(device(k), 64);
      }
    }

    /** The loop of reader_process. */
    method ReadBatches(available: nat, linesPerBuffer: nat) returns (exit: int, ghost batches: nat)
      requires Sound() && fetched == 0 && refills == 0 && pipe == []
      requires linesAvailable == available > 0 && linesPerBuffer > 0
      modifies this
      ensures |pipe| == fetched && linesAvailable >= 0
      ensures forall k | 0 <= k < |pipe| :: pipe[k] == Line(k)[..bytesPerLine]
      ensures exit == 0 ==>
                && lines <= |pipe| < lines + linesPerBuffer
                && |pipe| == After(available, refill, linesPerBuffer, batches).read
                && (forall i: nat | i < batches :: After(available, refill, linesPerBuffer, i).read < lines)
                && (|pipe| == lines <==> exists i: nat :: After(available, refill, linesPerBuffer, i).read == lines)
      ensures exit == 0 || (exit == 1 && |pipe| < lines)
      ensures (forall k :: refill(k) > 0) ==> exit == 0
    {
      exit, batches := 0, 0;
      var data := new Byte[linesPerBuffer * width];
      var linesRead := 0;
      hide Sound;
      while linesRead < lines
        invariant exit == 0 && linesRead == |pipe| == fetched && linesAvailable >= 0
        invariant After(available, refill, linesPerBuffer, batches) == Progress(linesRead, linesAvailable, refills)
        invariant forall i: nat | i < batches :: After(available, refill, linesPerBuffer, i).read < lines
        invariant linesRead < lines + linesPerBuffer
        invariant forall k | 0 <= k < |pipe| :: pipe[k] == Line(k)[..bytesPerLine]
      {
        var n := linesPerBuffer;
        if linesAvailable == 0 {
          var more := refill(refills);
          refills := refills + 1;
          if more == 0 {
            exit := 1;
            break;
          }
          linesAvailable := more;
        }
        if n > linesAvailable {
          n := linesAvailable;
        }
        FetchBatch(data, n, linesPerBuffer);
        linesRead := linesRead + n;
        batches := batches + 1;
      }
      if exit == 0 {
        ExactWhen(available, refill, linesPerBuffer, batches, lines);
      }
    }

    /** A batch of n lines is read and written. */
    method FetchBatch(data: array<Byte>, n: nat, most: nat)
      requires Sound() && n <= linesAvailable && n <= most && data.Length == most * width && |pipe| == fetched
      requires forall k | 0 <= k < |pipe| :: pipe[k] == Line(k)[..bytesPerLine]
      modifies this`fetched, this`linesAvailable, this`pipe, data
      ensures |pipe| == fetched == old(fetched) + n && linesAvailable == old(linesAvailable) - n
      ensures forall k | 0 <= k < |pipe| :: pipe[k] == Line(k)[..bytesPerLine]
    {
      SpanIsProduct(most, width);
      SpanMonotone(n, most, width);
      ghost var from := fetched;
      hide Concat;
      ReadData(data, n);
      assert data[..][..Span(n, width)] == data[..Span(n, width)];
      WriteLines(data, n, from);
    }
  }

  /** How far the picture has come: the lines read, those the scanner has, and how often it was sent for more. */
  datatype Progress = Progress(read: nat, available: nat, refills: nat)

  /** One batch more: all the scanner has, up to a buffer of lines. */
  function Batched(p: Progress, refill: nat -> nat, linesPerBuffer: nat): Progress {
    var available := if p.available == 0 then refill(p.refills) else p.available;
    var n := if linesPerBuffer > available then available else linesPerBuffer;
    Progress(p.read + n, available - n, if p.available == 0 then p.refills + 1 else p.refills)
  }

  /** After i batches. */
  function After(available: nat, refill: nat -> nat, linesPerBuffer: nat, i: nat): Progress {
    if i == 0 then Progress(0, available, 0)
    else Batched(After(available, refill, linesPerBuffer, i - 1), refill, linesPerBuffer)
  }

  lemma {:induction false} ReadGrows(available: nat, refill: nat -> nat, linesPerBuffer: nat, i: nat, j: nat)
    requires i <= j
    ensures After(available, refill, linesPerBuffer, i).read <= After(available, refill, linesPerBuffer, j).read
  {
    if i < j {
      ReadGrows(available, refill, linesPerBuffer, i, j - 1);
    }
  }

  /** The first batches that reach a number of lines hold exactly that many just when some batches do. */
  lemma ExactWhen(available: nat, refill: nat -> nat, linesPerBuffer: nat, batches: nat, lines: nat)
    requires forall i: nat | i < batches :: After(available, refill, linesPerBuffer, i).read < lines
    requires lines <= After(available, refill, linesPerBuffer, batches).read
    ensures After(available, refill, linesPerBuffer, batches).read == lines <==>
            exists i: nat :: After(available, refill, linesPerBuffer, i).read == lines
  {
    if i: nat :| After(available, refill, linesPerBuffer, i).read == lines {
      assert batches <= i;
      ReadGrows(available, refill, linesPerBuffer, batches, i);
    }
  }

  /** When the scanner has all lines from the start, these are the multiples of a buffer, or all it has. */
  lemma AllAvailable(available: nat, refill: nat -> nat, linesPerBuffer: nat, lines: nat)
    requires linesPerBuffer > 0 && lines <= available
    ensures (exists i: nat :: After(available, refill, linesPerBuffer, i).read == lines) <==>
            lines % linesPerBuffer == 0 || lines == available
  {
    var q := lines / linesPerBuffer;
    assert lines == q * linesPerBuffer + lines % linesPerBuffer;
    AfterFull(available, refill, linesPerBuffer, q);
    var next := After(available, refill, linesPerBuffer, q + 1);
    assert next == Batched(After(available, refill, linesPerBuffer, q), refill, linesPerBuffer);
    if i: nat :| After(available, refill, linesPerBuffer, i).read == lines {
      if i <= q {
        ReadGrows(available, refill, linesPerBuffer, i, q);
      } else {
        ReadGrows(available, refill, linesPerBuffer, q + 1, i);
      }
    }
  }

  /** Whole buffers as long as the scanner has them. */
  lemma {:induction false} AfterFull(available: nat, refill: nat -> nat, linesPerBuffer: nat, i: nat)
    requires i * linesPerBuffer <= available && linesPerBuffer > 0
    ensures After(available, refill, linesPerBuffer, i) ==
            Progress(i * linesPerBuffer, available - i * linesPerBuffer, 0)
  {
    if i > 0 {
      assert i * linesPerBuffer == (i - 1) * linesPerBuffer + linesPerBuffer;
      AfterFull(available, refill, linesPerBuffer, i - 1);
    }
  }

  /** One line is announced, the scanner has five, and a buffer takes ten: the frontend gets all five. */
  method TooManyLines() returns (written: nat)
    ensures written == 5
  {
    var reader := new Reader(k => [0], 1, k => 1, 8, 1, 1);
    var exit, batches := reader.Process(5, 5, 10);
    assert After(5, reader.refill, 10, 0).read == 0 && After(5, reader.refill, 10, 1).read == 5;
    written := |reader.pipe|;
  }
}
