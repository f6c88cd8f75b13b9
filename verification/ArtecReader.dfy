/** artec_sane_read and sane_read of the Artec backend: rows go from the scanner through the delay
    line into a staging buffer, and from there to a frontend that asks for any number of bytes. */
module ArtecReader {
  import opened Streams
  import opened ArtecLines
  import opened RowMath

  datatype Status = Good | Eof | Cancelled

  /** One colour scan: the settings of the backend and the rows the scanner has to send, as many
      as the window height programmed into it (lines + 2 * lineOffset). */
  datatype Scan = Scan(layout: Layout, lineOffset: nat, width: nat, lines: nat, maxReadSize: nat,
                       device: seq<seq<Byte>>)
  {
    const bytesPerLine: nat := 3 * width

    ghost predicate Programmed() {
      width > 0 && Uniform(device, bytesPerLine) && |device| == lines + 2 * lineOffset
    }

    /** The picture the scan should give, line by line. */
    ghost function Image(): (r: seq<seq<Byte>>)
      requires Programmed()
      ensures |r| == lines && forall k | 0 <= k < lines :: |r[k]| == bytesPerLine
    {
      seq(lines, k requires 0 <= k < lines =>
        Finished(layout, Realigned(device, width, layout, lineOffset, k), width))
    }

    /** How many picture lines are out when n rows are in. */
    function Emitted(n: nat): nat {
      if n <= 2 * lineOffset then 0 else n - 2 * lineOffset
    }

    /** The picture as the frontend should receive it. */
    ghost function Stream(): seq<Byte>
      requires Programmed()
    {
      Concat(Image(), lines)
    }
  }

  /** Where byte c of pixel p of picture line k has been seen. It comes from plane c of device line
      k + c * lineOffset. On a reversed scanner the pixels come from the right; and if it sends them one by one,
      the byte that is seen first comes last. */
  ghost predicate SeenAt(scan: Scan, k: nat, p: nat, c: nat, out: seq<Byte>)
    requires scan.Programmed() && k < scan.lines && p < scan.width && c < 3
  {
    var at := Span(k, 3 * scan.width) + 3 * p + c;
    at < |out| ==> Seen(scan, k, p, c, out[at])
  }

  ghost predicate Seen(scan: Scan, k: nat, p: nat, c: nat, b: Byte)
    requires scan.Programmed() && k < scan.lines && p < scan.width && c < 3
  {
    var q := if scan.layout.revLr then scan.width - 1 - p else p;
    var (first, between, last) :=
      (scan.device[k], scan.device[k + scan.lineOffset], scan.device[k + 2 * scan.lineOffset]);
    if scan.layout.charShift then
      b == if c == 0 then first[q] else if c == 1 then between[scan.width + q] else last[2 * scan.width + q]
    else if scan.layout.revLr then
      b == if c == 0 then last[3 * q] else if c == 1 then between[3 * q + 1] else first[3 * q + 2]
    else b == if c == 0 then first[3 * q] else if c == 1 then between[3 * q + 1] else last[3 * q + 2]
  }

  /** Each byte that is out is the one the scanner has seen at its place. */
  ghost predicate Shows(scan: Scan, out: seq<Byte>)
    requires scan.Programmed()
  {
    forall k: nat, p: nat, c: nat | k < scan.lines && p < scan.width && c < 3 :: SeenAt(scan, k, p, c, out)
  }

  /** Whatever part of the stream is out shows the picture. */
  lemma StreamShows(scan: Scan, out: seq<Byte>)
    requires scan.Programmed() && out <= scan.Stream()
    ensures Shows(scan, out) && |scan.Stream()| == 3 * scan.width * scan.lines
  {
    hide Seen, Scan.Image, Scan.Stream;
    SpanIsProduct(scan.lines, scan.bytesPerLine);
    forall k: nat, p: nat, c: nat | k < scan.lines && p < scan.width && c < 3
      ensures SeenAt(scan, k, p, c, out)
    {
      ImageInStream(scan, k, 3 * p + c);
      ImageSeen(scan, k, p, c);
    }
    ConcatLength(scan.Image(), scan.lines, scan.bytesPerLine);
    StreamIs(scan);
  }

  lemma StreamIs(scan: Scan)
    requires scan.Programmed()
    ensures scan.Stream() == Concat(scan.Image(), scan.lines)
  {
  }

  lemma ImageSeen(scan: Scan, k: nat, p: nat, c: nat)
    requires scan.Programmed() && k < scan.lines && p < scan.width && c < 3
    ensures Seen(scan, k, p, c, scan.Image()[k][3 * p + c])
  {
    hide Realigned, Finished;
    var line := Realigned(scan.device, scan.width, scan.layout, scan.lineOffset, k);
    assert scan.Image()[k] == Finished(scan.layout, line, scan.width);
    hide Scan.Image;
    if scan.layout.charShift {
      PlanarPixelSources(scan.device, scan.width, scan.layout, scan.lineOffset, k, p);
    } else {
      InterleavedPixelSources(scan.device, scan.width, scan.layout, scan.lineOffset, k, p);
    }
  }

  lemma ImageInStream(scan: Scan, k: nat, i: nat)
    requires scan.Programmed() && k < scan.lines && i < scan.bytesPerLine
    ensures Span(k, scan.bytesPerLine) + i < |scan.Stream()| == Span(scan.lines, scan.bytesPerLine)
    ensures scan.Stream()[Span(k, scan.bytesPerLine) + i] == scan.Image()[k][i]
  {
    hide Concat;
    ConcatAt(scan.Image(), scan.lines, scan.bytesPerLine, k);
    var start := Span(k, scan.bytesPerLine);
    assert scan.Image()[k][i] == scan.Stream()[start..start + scan.bytesPerLine][i];
  }

  /** What the delay line makes of the lines so far is what it will make of all of them. */
  lemma RealignedPrefix(part: seq<seq<Byte>>, device: seq<seq<Byte>>, w: nat, layout: Layout, offset: nat, k: nat)
    requires Uniform(device, 3 * w) && part <= device && k + 2 * offset < |part|
    ensures Uniform(part, 3 * w)
    ensures Realigned(part, w, layout, offset, k) == Realigned(device, w, layout, offset, k)
  {
    assert forall j | 0 <= j < |part| :: part[j] == device[j];
  }

  /** The size of the next READ: as many rows as fit the scanner's maximum, the caller's buffer and
      what the scanner has ready, and never more than the picture still lacks. The guard against
      reading past the end of the picture in front of the command is never needed. */
  method PlanRead(bytesToRead: nat, bytesRead: nat, b: nat, maxReadRows: nat, maxRetRows: nat, rowsRead: nat,
                  rowsAvailable: nat, ghost missing: nat) returns (lread: nat, nread: nat)
    requires b > 0 && rowsAvailable > 0
    requires bytesToRead - bytesRead == missing * b
    requires rowsRead < maxRetRows <= maxReadRows && missing > 0
    ensures 0 < lread <= missing && nread == lread * b
    ensures lread <= rowsAvailable && rowsRead + lread <= maxRetRows
  {
    lread, nread := WholePicture(bytesToRead - bytesRead, b, maxReadRows, missing);
    if maxReadRows - rowsRead < lread {
      lread := maxReadRows - rowsRead;
      nread := lread * b;
    }
    if maxRetRows - rowsRead < lread {
      lread := maxRetRows - rowsRead;
      nread := lread * b;
    }
    if rowsAvailable < lread {
      lread := rowsAvailable;
      nread := lread * b;
    }
    MulOrder(lread, missing, b);
    assert nread <= bytesToRead - bytesRead;
  }

  method WholePicture(bytesLeft: nat, b: nat, maxReadRows: nat, ghost missing: nat)
    returns (lread: nat, nread: nat)
    requires b > 0 && bytesLeft == missing * b
    ensures lread == (if missing <= maxReadRows then missing else maxReadRows) && nread == lread * b
  {
    MulOrder(missing, maxReadRows, b);
    MulOrder(maxReadRows, missing, b);
    if bytesLeft <= b * maxReadRows {
      nread := bytesLeft;
      WholeRows(missing, b);
    } else {
      nread := b * maxReadRows;
      WholeRows(maxReadRows, b);
    }
    lread := nread / b;
  }

  class Scanner {
    const scan: Scan
    var delay: DelayLine
    var bytesToRead: nat
    var scanning: bool
    /** Rows the scanner has sent. */
    var devPos: nat
    /** The static buffer of sane_read and the number of bytes waiting at its start. */
    var tempBuf: array<Byte>
    var bytesInBuf: nat
    /** Everything the frontend has been given so far. */
    ghost var delivered: seq<Byte>

    constructor (scan: Scan)
      requires scan.Programmed()
      ensures Valid() && Conserved(scan.Stream()) && scanning && devPos == 0 && delivered == []
      ensures this.scan == scan && fresh(delay) && fresh(delay.Repr) && fresh(tempBuf)
    {
      this.scan := scan;
      delay := new DelayLine();
      tempBuf := new Byte[scan.maxReadSize];
      bytesToRead, scanning, devPos, bytesInBuf := scan.bytesPerLine * scan.lines, true, 0, 0;
      delivered := [];
      new;
      SpanIsProduct(scan.lines, scan.bytesPerLine);
      assert scan.device[..0] == [];
    }

    /** The delay line has been given the first n rows of the scan. */
    ghost predicate Fed(n: nat)
      reads this, delay, delay.Repr
    {
      && delay.Valid() && n <= |scan.device| && delay.fed == scan.device[..n]
      && (delay.tmpLineBuf != null ==> delay.gBufLines == scan.lineOffset && delay.width == scan.width)
    }

    /** One row into the delay line. */
    method DelayRow(row: seq<Byte>, ghost n: nat, lineBuf: array<Byte>) returns (nread: nat)
      requires scan.Programmed() && Fed(n) && n < |scan.device| && row == scan.device[n]
      requires lineBuf.Length == scan.bytesPerLine && lineBuf !in delay.Repr && this !in delay.Repr
      modifies delay.Repr, lineBuf
      ensures Fed(n + 1) && delay == old(delay) && fresh(delay.Repr - old(delay.Repr))
      ensures nread == if n >= 2 * scan.lineOffset then scan.bytesPerLine else 0
      ensures n >= 2 * scan.lineOffset ==>
                lineBuf[..] == Realigned(scan.device, scan.width, scan.layout, scan.lineOffset, n - 2 * scan.lineOffset)
    {
      Fill(lineBuf, row);
      nread := delay.BufferLineOffset(scan.layout, scan.lineOffset, lineBuf, scan.width, scan.bytesPerLine);
      assert delay.fed == scan.device[..n + 1];
      if n >= 2 * scan.lineOffset {
        RealignedPrefix(delay.fed, scan.device, scan.width, scan.layout, scan.lineOffset, n - 2 * scan.lineOffset);
      }
    }

    /** Pixel order and mirror of a realigned line. */
    method FinishRow(lineBuf: array<Byte>)
      requires lineBuf.Length == scan.bytesPerLine
      modifies lineBuf
      ensures lineBuf[..] == Finished(scan.layout, old(lineBuf[..]), scan.width)
    {
      if scan.layout.charShift {
        LineRgbToByteRgb(lineBuf, scan.width);
      }
      if scan.layout.revLr {
        ReverseLine(lineBuf, scan.width);
      }
    }

    method FinishInto(lineBuf: array<Byte>, buf: array<Byte>, at: nat, ghost line: seq<Byte>)
      requires lineBuf.Length == scan.bytesPerLine == |line| && lineBuf != buf && at + |line| <= buf.Length
      requires line == Finished(scan.layout, lineBuf[..], scan.width)
      modifies lineBuf, buf
      ensures forall i | at <= i < at + |line| :: buf[i] == line[i - at]
      ensures forall i | 0 <= i < buf.Length && !(at <= i < at + |line|) :: buf[i] == old(buf[i])
    {
      FinishRow(lineBuf);
      assert lineBuf[..] == line;
      CopyBytes(buf, at, lineBuf, 0, scan.bytesPerLine);
    }

    /** A realigned line, finished, into the caller's buffer. */
    method Deliver(lineBuf: array<Byte>, buf: array<Byte>, at: nat, ghost k: nat)
      requires scan.Programmed() && lineBuf.Length == scan.bytesPerLine && lineBuf != buf && k < scan.lines
      requires at + scan.bytesPerLine <= buf.Length
      requires lineBuf[..] == Realigned(scan.device, scan.width, scan.layout, scan.lineOffset, k)
      modifies lineBuf, buf
      ensures forall i | at <= i < at + scan.bytesPerLine :: buf[i] == scan.Image()[k][i - at]
      ensures forall i | 0 <= i < buf.Length && !(at <= i < at + scan.bytesPerLine) :: buf[i] == old(buf[i])
    {
      FinishInto(lineBuf, buf, at, scan.Image()[k]);
    }

    /** One row through the delay line, the pixel reordering and the mirror, into the caller's buffer. */
    method PassRow(row: seq<Byte>, ghost n: nat, lineBuf: array<Byte>, buf: array<Byte>, at: nat)
      returns (nread: nat)
      requires scan.Programmed() && Fed(n) && n < |scan.device| && row == scan.device[n]
      requires lineBuf.Length == scan.bytesPerLine && lineBuf != buf
      requires lineBuf !in delay.Repr && buf !in delay.Repr && this !in delay.Repr
      requires n >= 2 * scan.lineOffset ==> at + scan.bytesPerLine <= buf.Length
      modifies delay.Repr, lineBuf, buf
      ensures Fed(n + 1) && delay == old(delay) && fresh(delay.Repr - old(delay.Repr))
      ensures nread == if n >= 2 * scan.lineOffset then scan.bytesPerLine else 0
      ensures forall i | at <= i < at + nread :: buf[i] == scan.Image()[n - 2 * scan.lineOffset][i - at]
      ensures forall i | 0 <= i < buf.Length && !(at <= i < at + nread) :: buf[i] == old(buf[i])
    {
      hide DelayLine.Valid, Realigned, Finished;
      nread := DelayRow(row, n, lineBuf);
      if nread > 0 {
        Deliver(lineBuf, buf, at, n - 2 * scan.lineOffset);
      }
    }

    /** Picture line k in the stream. */
    lemma LineInStream(line: seq<Byte>, k: nat, stream: seq<Byte>)
      requires scan.Programmed() && k < scan.lines && stream == scan.Stream() && line == scan.Image()[k]
      ensures Span(k + 1, scan.bytesPerLine) <= |stream|
      ensures |line| == scan.bytesPerLine
      ensures forall i | 0 <= i < |line| :: line[i] == stream[Span(k, scan.bytesPerLine) + i]
    {
      hide Concat;
      ConcatAt(scan.Image(), scan.lines, scan.bytesPerLine, k);
      var start := Span(k, scan.bytesPerLine);
      assert line == stream[start..start + scan.bytesPerLine];
    }

    /** The first `bytes` bytes of buf are the stream from position `base` on. */
    ghost predicate Filled(buf: array<Byte>, bytes: nat, stream: seq<Byte>, base: nat)
      reads buf
    {
      bytes <= buf.Length && base + bytes <= |stream| && forall i | 0 <= i < bytes :: buf[i] == stream[base + i]
    }

    /** One row, placed in the stream that starts `base` bytes before the caller's buffer. */
    method PassRowToStream(row: seq<Byte>, ghost n: nat, lineBuf: array<Byte>, buf: array<Byte>, at: nat,
                           ghost stream: seq<Byte>, ghost base: nat) returns (nread: nat)
      requires scan.Programmed() && stream == scan.Stream() && Fed(n) && n < |scan.device| && row == scan.device[n]
      requires lineBuf.Length == scan.bytesPerLine && lineBuf != buf
      requires lineBuf !in delay.Repr && buf !in delay.Repr && this !in delay.Repr
      requires n >= 2 * scan.lineOffset ==> at + scan.bytesPerLine <= buf.Length
      requires at + base == Span(scan.Emitted(n), scan.bytesPerLine) && Filled(buf, at, stream, base)
      modifies delay.Repr, lineBuf, buf
      ensures Fed(n + 1) && delay == old(delay) && fresh(delay.Repr - old(delay.Repr))
      ensures nread == if n >= 2 * scan.lineOffset then scan.bytesPerLine else 0
      ensures at + nread + base == Span(scan.Emitted(n + 1), scan.bytesPerLine)
      ensures Filled(buf, at + nread, stream, base)
    {
      hide DelayLine.Valid, Scan.Image, Scan.Stream;
      nread := PassRow(row, n, lineBuf, buf, at);
      if nread > 0 {
        ghost var k := n - 2 * scan.lineOffset;
        LineInStream(scan.Image()[k], k, stream);
      }
    }

    /** The rows of one READ. */
    method PassBlock(block: seq<seq<Byte>>, ghost n: nat, lineBuf: array<Byte>, buf: array<Byte>, at: nat,
                     ghost stream: seq<Byte>, ghost base: nat) returns (bytes: nat, rows: nat)
      requires scan.Programmed() && stream == scan.Stream() && Fed(n)
      requires n + |block| <= |scan.device| && block == scan.device[n..n + |block|]
      requires lineBuf.Length == scan.bytesPerLine && lineBuf != buf
      requires lineBuf !in delay.Repr && buf !in delay.Repr && this !in delay.Repr
      requires Span(scan.Emitted(n + |block|), scan.bytesPerLine) <= base + buf.Length
      requires at + base == Span(scan.Emitted(n), scan.bytesPerLine) && Filled(buf, at, stream, base)
      modifies delay.Repr, lineBuf, buf
      ensures Fed(n + |block|) && delay == old(delay) && fresh(delay.Repr - old(delay.Repr))
      ensures rows == scan.Emitted(n + |block|) - scan.Emitted(n)
      ensures at + bytes + base == Span(scan.Emitted(n + |block|), scan.bytesPerLine)
      ensures Filled(buf, at + bytes, stream, base)
    {
      hide DelayLine.Valid, Scan.Image, Scan.Stream;
      bytes, rows := 0, 0;
      for line := 0 to |block|
        invariant Fed(n + line) && delay == old(delay) && fresh(delay.Repr - old(delay.Repr))
        invariant rows == scan.Emitted(n + line) - scan.Emitted(n)
        invariant at + bytes + base == Span(scan.Emitted(n + line), scan.bytesPerLine)
        invariant Filled(buf, at + bytes, stream, base)
      {
        SpanMonotone(scan.Emitted(n + line + 1), scan.Emitted(n + |block|), scan.bytesPerLine);
        var nread := PassRowToStream(block[line], n + line, lineBuf, buf, at + bytes, stream, base);
        if nread > 0 {
          bytes := bytes + nread;
          rows := rows + 1;
        }
      }
    }

    ghost predicate Valid()
      reads this, tempBuf, delay, delay.Repr
    {
      && scan.Programmed() && tempBuf.Length == scan.maxReadSize
      && delay.Valid() && tempBuf !in delay.Repr && this !in delay.Repr
      && devPos <= |scan.device|
      && bytesToRead == Span(scan.lines - scan.Emitted(devPos), scan.bytesPerLine)
      && (scanning && bytesToRead > 0 ==> Fed(devPos))
    }

    method DoCancel()
      requires Valid()
      modifies this`scanning, delay
      ensures Valid() && !scanning
      ensures fresh(delay.Repr - old(delay.Repr))
    {
      scanning := false;
      if delay.tmpLineBuf != null {
        delay.Free();
      }
    }

    /** How much of the picture and of the caller's buffer is left when n rows are in. */
    lemma Room(start: nat, n: nat, rows: nat, maxRetRows: nat, maxLen: nat)
      requires scan.Programmed() && start <= n <= |scan.device| && maxRetRows == maxLen / scan.bytesPerLine
      requires scan.Emitted(n) - scan.Emitted(start) + rows <= maxRetRows
      requires n + rows <= |scan.device|
      ensures Span(scan.Emitted(n + rows), scan.bytesPerLine) <= Span(scan.Emitted(start), scan.bytesPerLine) + maxLen
    {
      hide Span;
      var b := scan.bytesPerLine;
      SpanMonotone(scan.Emitted(n + rows), scan.Emitted(start) + maxRetRows, b);
      SpanSum(scan.Emitted(start), maxRetRows, b);
      SpanIsProduct(maxRetRows, b);
    }

    lemma Missing(start: nat, n: nat)
      requires scan.Programmed() && start <= n <= |scan.device|
      ensures Span(scan.lines - scan.Emitted(start), scan.bytesPerLine)
           == Span(scan.Emitted(n), scan.bytesPerLine) - Span(scan.Emitted(start), scan.bytesPerLine)
              + (scan.lines - scan.Emitted(n)) * scan.bytesPerLine
    {
      var (b, e, f) := (scan.bytesPerLine, scan.Emitted(start), scan.Emitted(n));
      SpanSum(f - e, scan.lines - f, b);
      SpanSum(e, f - e, b);
      SpanIsProduct(scan.lines - f, b);
    }

    /** One READ: its size, and its rows through the delay line. */
    method ReadOnce(buf: array<Byte>, lineBuf: array<Byte>, bytesRead: nat, rowsRead: nat, maxReadRows: nat,
                    maxRetRows: nat, ghost maxLen: nat, ghost stream: seq<Byte>, ghost start: nat)
      returns (lread: nat, bytes: nat, rows: nat)
      requires scan.Programmed() && stream == scan.Stream() && start <= devPos <= |scan.device| && Fed(devPos)
      requires bytesToRead == Span(scan.lines - scan.Emitted(start), scan.bytesPerLine)
      requires lineBuf.Length == scan.bytesPerLine && lineBuf != buf
      requires lineBuf !in delay.Repr && buf !in delay.Repr && this !in delay.Repr
      requires maxLen <= buf.Length && maxRetRows == maxLen / scan.bytesPerLine <= maxReadRows
      requires rowsRead == scan.Emitted(devPos) - scan.Emitted(start) < maxRetRows && scan.Emitted(devPos) < scan.lines
      requires bytesRead + Span(scan.Emitted(start), scan.bytesPerLine) == Span(scan.Emitted(devPos), scan.bytesPerLine)
      requires Filled(buf, bytesRead, stream, Span(scan.Emitted(start), scan.bytesPerLine))
      modifies delay.Repr, lineBuf, buf
      ensures delay == old(delay) && fresh(delay.Repr - old(delay.Repr))
      ensures 0 < lread && devPos + lread <= |scan.device| && Fed(devPos + lread)
      ensures rows == scan.Emitted(devPos + lread) - scan.Emitted(devPos) && rowsRead + rows <= maxRetRows
      ensures bytesRead + bytes + Span(scan.Emitted(start), scan.bytesPerLine)
           == Span(scan.Emitted(devPos + lread), scan.bytesPerLine)
      ensures Filled(buf, bytesRead + bytes, stream, Span(scan.Emitted(start), scan.bytesPerLine))
    {
      hide DelayLine.Valid, Scan.Image, Scan.Stream;
      var rowsAvailable: nat :| 0 < rowsAvailable;
      Missing(start, devPos);
      var nread;
      lread, nread := PlanRead(bytesToRead, bytesRead, scan.bytesPerLine, maxReadRows, maxRetRows, rowsRead,
                               rowsAvailable, scan.lines - scan.Emitted(devPos));
      Room(start, devPos, lread, maxRetRows, maxLen);
      var block := scan.device[devPos..devPos + lread];
      bytes, rows := PassBlock(block, devPos, lineBuf, buf, bytesRead, stream,
                               Span(scan.Emitted(start), scan.bytesPerLine));
    }

    /** The loop of artec_sane_read on a colour scan: READs until the caller's rows are full or the
        picture is complete, swallowing the first 2 * lineOffset rows of the scan on the way. */
    method ReadRows(buf: array<Byte>, lineBuf: array<Byte>, maxLen: nat, maxReadRows: nat, maxRetRows: nat,
                    remainingRows: nat, ghost stream: seq<Byte>) returns (bytesRead: nat)
      requires scan.Programmed() && stream == scan.Stream() && devPos <= |scan.device| && Fed(devPos)
      requires lineBuf.Length == scan.bytesPerLine && lineBuf != buf
      requires lineBuf !in delay.Repr && buf !in delay.Repr && this !in delay.Repr
      requires bytesToRead == Span(scan.lines - scan.Emitted(devPos), scan.bytesPerLine)
      requires maxLen <= buf.Length && maxRetRows == maxLen / scan.bytesPerLine <= maxReadRows
      requires remainingRows == scan.lines - scan.Emitted(devPos)
      requires Span(scan.Emitted(devPos), scan.bytesPerLine) <= |stream|
      modifies this`devPos, delay.Repr, lineBuf, buf
      ensures delay == old(delay) && fresh(delay.Repr - old(delay.Repr))
      ensures old(devPos) <= devPos <= |scan.device| && Fed(devPos)
      ensures scan.Emitted(devPos) - scan.Emitted(old(devPos))
           == if maxRetRows <= remainingRows then maxRetRows else remainingRows
      ensures bytesRead + Span(scan.Emitted(old(devPos)), scan.bytesPerLine)
           == Span(scan.Emitted(devPos), scan.bytesPerLine)
      ensures Filled(buf, bytesRead, stream, Span(scan.Emitted(old(devPos)), scan.bytesPerLine))
    {
      hide DelayLine.Valid, Scan.Image, Scan.Stream;
      ghost var start, base := devPos, Span(scan.Emitted(devPos), scan.bytesPerLine);
      var rowsRead := 0;
      bytesRead := 0;
      while rowsRead < maxRetRows && rowsRead < remainingRows
        invariant delay == old(delay) && fresh(delay.Repr - old(delay.Repr))
        invariant start <= devPos <= |scan.device| && Fed(devPos)
        invariant rowsRead == scan.Emitted(devPos) - scan.Emitted(start) <= maxRetRows
        invariant bytesRead + base == Span(scan.Emitted(devPos), scan.bytesPerLine)
        invariant Filled(buf, bytesRead, stream, base)
        decreases |scan.device| - devPos
      {
        var lread, bytes, rows :=
          ReadOnce(buf, lineBuf, bytesRead, rowsRead, maxReadRows, maxRetRows, maxLen, stream, start);
        devPos := devPos + lread;
        bytesRead := bytesRead + bytes;
        rowsRead := rowsRead + rows;
      }
    }

    /** The row counts at the head of artec_sane_read. */
    static method RowCounts(bytesToRead: nat, b: nat, maxReadSize: nat, maxLen: nat, ghost rows: nat)
      returns (remainingRows: nat, maxReadRows: nat, maxRetRows: nat)
      requires b > 0 && maxLen <= maxReadSize && bytesToRead == Span(rows, b)
      ensures remainingRows == rows && maxRetRows == maxLen / b <= maxReadRows
    {
      SpanIsProduct(rows, b);
      WholeRows(rows, b);
      DivMonotone(maxLen, maxReadSize, b);
      remainingRows := (bytesToRead + b - 1) / b;
      maxReadRows := maxReadSize / b;
      maxRetRows := maxLen / b;
    }

    /** What is read and what is left make up what was left. */
    lemma LeftOver(start: nat, n: nat, bytesRead: nat)
      requires scan.Programmed() && start <= n <= |scan.device|
      requires bytesRead + Span(scan.Emitted(start), scan.bytesPerLine) == Span(scan.Emitted(n), scan.bytesPerLine)
      ensures Span(scan.lines - scan.Emitted(start), scan.bytesPerLine)
           == bytesRead + Span(scan.lines - scan.Emitted(n), scan.bytesPerLine)
    {
      SpanSum(scan.Emitted(start), scan.lines - scan.Emitted(start), scan.bytesPerLine);
      SpanSum(scan.Emitted(n), scan.lines - scan.Emitted(n), scan.bytesPerLine);
    }

    /** How many picture lines a call with room for maxLen bytes hands out. */
    ghost function Due(maxLen: nat): nat
      reads this
      requires scan.Programmed() && devPos <= |scan.device|
    {
      var fits, left := maxLen / scan.bytesPerLine, scan.lines - scan.Emitted(devPos);
      if fits <= left then fits else left
    }

    /** Set-up, loop and count of a call that reads. */
    method ReadDue(buf: array<Byte>, maxLen: nat, ghost due: nat, ghost stream: seq<Byte>) returns (bytesRead: nat)
      requires scan.Programmed() && stream == scan.Stream() && devPos <= |scan.device| && Fed(devPos)
      requires buf !in delay.Repr && this !in delay.Repr && maxLen <= buf.Length && maxLen <= scan.maxReadSize
      requires bytesToRead == Span(scan.lines - scan.Emitted(devPos), scan.bytesPerLine) && due == Due(maxLen)
      requires Span(scan.Emitted(devPos), scan.bytesPerLine) <= |stream|
      modifies this`devPos, delay.Repr, buf
      ensures delay == old(delay) && fresh(delay.Repr - old(delay.Repr))
      ensures old(devPos) <= devPos <= |scan.device| && Fed(devPos)
      ensures scan.Emitted(devPos) == scan.Emitted(old(devPos)) + due
      ensures bytesRead + Span(scan.Emitted(old(devPos)), scan.bytesPerLine)
           == Span(scan.Emitted(devPos), scan.bytesPerLine)
      ensures bytesToRead == bytesRead + Span(scan.lines - scan.Emitted(devPos), scan.bytesPerLine)
      ensures Filled(buf, bytesRead, stream, Span(scan.Emitted(old(devPos)), scan.bytesPerLine))
    {
      hide DelayLine.Valid, Scan.Image, Scan.Stream;
      ghost var start := devPos;
      var remainingRows, maxReadRows, maxRetRows :=
        RowCounts(bytesToRead, scan.bytesPerLine, scan.maxReadSize, maxLen, scan.lines - scan.Emitted(devPos));
      var lineBuf := new Byte[scan.bytesPerLine];
      bytesRead := ReadRows(buf, lineBuf, maxLen, maxReadRows, maxRetRows, remainingRows, stream);
      LeftOver(start, devPos, bytesRead);
    }

    /** The part of artec_sane_read after its tests. */
    method ReadMore(buf: array<Byte>, maxLen: nat, ghost due: nat, ghost stream: seq<Byte>) returns (bytesRead: nat)
      requires Valid() && scanning && bytesToRead > 0 && stream == scan.Stream() && due == Due(maxLen)
      requires buf !in delay.Repr && maxLen <= buf.Length && maxLen <= scan.maxReadSize
      requires Span(scan.Emitted(devPos), scan.bytesPerLine) <= |stream|
      modifies this`devPos, this`bytesToRead, delay, delay.Repr, buf
      ensures Valid() && fresh(delay.Repr - old(delay.Repr)) && old(devPos) <= devPos
      ensures scan.Emitted(devPos) == scan.Emitted(old(devPos)) + due
      ensures bytesRead + Span(scan.Emitted(old(devPos)), scan.bytesPerLine)
           == Span(scan.Emitted(devPos), scan.bytesPerLine)
      ensures Filled(buf, bytesRead, stream, Span(scan.Emitted(old(devPos)), scan.bytesPerLine))
    {
      hide Scan.Image, Scan.Stream;
      bytesRead := ReadDue(buf, maxLen, due, stream);
      bytesToRead := bytesToRead - bytesRead;
      if bytesToRead == 0 && delay.tmpLineBuf != null {
        delay.Free();
      }
    }

    /** artec_sane_read on a colour scan with the line-offset fixup. It hands out whole picture lines:
        as many as fit, or all that are left. */
    method ArtecSaneRead(buf: array<Byte>, maxLen: nat) returns (status: Status, len: nat)
      requires Valid() && buf !in delay.Repr && maxLen <= buf.Length && maxLen <= scan.maxReadSize
      requires Span(scan.Emitted(devPos), scan.bytesPerLine) <= |scan.Stream()|
      modifies this`devPos, this`bytesToRead, this`scanning, delay, delay.Repr, buf
      ensures Valid() && fresh(delay.Repr - old(delay.Repr)) && old(devPos) <= devPos
      ensures status == if old(bytesToRead) == 0 then Eof else if old(scanning) then Good else Cancelled
      ensures scanning <==> status == Good
      ensures scan.Emitted(devPos) == scan.Emitted(old(devPos)) + if status == Good then old(Due(maxLen)) else 0
      ensures len + Span(scan.Emitted(old(devPos)), scan.bytesPerLine) == Span(scan.Emitted(devPos), scan.bytesPerLine)
      ensures Filled(buf, len, scan.Stream(), Span(scan.Emitted(old(devPos)), scan.bytesPerLine))
    {
      len := 0;
      if bytesToRead == 0 {
        DoCancel();
        return Eof, 0;
      }
      if !scanning {
        DoCancel();
        return Cancelled, 0;
      }
      len := ReadMore(buf, maxLen, Due(maxLen), scan.Stream());
      status := Good;
    }

    /** Nothing is lost or made up between the scanner and the frontend: what the frontend has, with
        the bytes waiting in the staging buffer, is exactly the part of the picture that is out. */
    ghost predicate Conserved(stream: seq<Byte>)
      reads this, tempBuf
    {
      && devPos <= |scan.device| && delivered <= stream
      && |delivered| + bytesInBuf == Span(scan.Emitted(devPos), scan.bytesPerLine)
      && Filled(tempBuf, bytesInBuf, stream, |delivered|)
    }

    /** The end of sane_read: the first bytes of the staging buffer go out, the others move down. */
    method TakeOut(buf: array<Byte>, n: nat, ghost stream: seq<Byte>)
      requires Valid() && Conserved(stream) && buf != tempBuf && buf !in delay.Repr
      requires n <= bytesInBuf && n <= buf.Length
      modifies this`bytesInBuf, this`delivered, tempBuf, buf
      ensures Valid() && Conserved(stream) && delivered == old(delivered) + buf[..n]
      ensures bytesInBuf == old(bytesInBuf) - n
    {
      hide DelayLine.Valid, Scan.Image, Scan.Stream;
      CopyBytes(buf, 0, tempBuf, 0, n);
      bytesInBuf := bytesInBuf - n;
      delivered := delivered + buf[..n];
      for loop := 0 to bytesInBuf
        invariant forall i | 0 <= i < loop :: tempBuf[i] == stream[|delivered| + i]
        invariant forall i | loop <= i < tempBuf.Length :: tempBuf[i] == old(tempBuf[i])
        modifies tempBuf
      {
        tempBuf[loop] := tempBuf[loop + n];
      }
    }

    lemma StreamLength()
      requires scan.Programmed() && devPos <= |scan.device|
      ensures Span(scan.Emitted(devPos), scan.bytesPerLine) <= |scan.Stream()| == Span(scan.lines, scan.bytesPerLine)
    {
      ConcatLength(scan.Image(), scan.lines, scan.bytesPerLine);
      SpanMonotone(scan.Emitted(devPos), scan.lines, scan.bytesPerLine);
    }

    /** sane_read. Whatever the frontend asks for, it is given the next bytes of the picture; the
        end of file comes exactly when it has all of them. */
    method SaneRead(buf: array<Byte>, maxLen: nat, ghost stream: seq<Byte>) returns (status: Status, len: nat)
      requires Valid() && stream == scan.Stream() && Conserved(stream)
      requires buf !in delay.Repr && buf != tempBuf && maxLen <= buf.Length
      modifies this, tempBuf, delay, delay.Repr, buf
      ensures Valid() && Conserved(stream) && tempBuf == old(tempBuf) && delay == old(delay)
      ensures fresh(delay.Repr - old(delay.Repr))
      ensures len <= maxLen && delivered == old(delivered) + buf[..len]
      ensures status != Good ==> len == 0
      ensures status == Eof <==> old(bytesToRead) == 0 && old(bytesInBuf) == 0
      ensures status == Eof ==> delivered == stream && scan.Emitted(devPos) == scan.lines
      ensures status == Cancelled ==> !old(scanning)
      ensures status == Good && maxLen > 0 && scan.bytesPerLine <= scan.maxReadSize ==> len > 0
      ensures status == Good ==> len == maxLen || bytesInBuf == 0
      ensures status == Good && old(scanning) ==> scanning
    {
      hide DelayLine.Valid, Scan.Image, Scan.Stream;
      StreamLength();
      var bytesToCopy;
      if bytesInBuf != 0 {
        bytesToCopy := if maxLen < bytesInBuf then maxLen else bytesInBuf;
        status := Good;
      } else {
        SomeDue();
        status, len := Refill(stream);
        if status != Good {
          return status, 0;
        }
        if len == 0 {
          return Good, 0;
        }
        bytesToCopy := if maxLen < scan.maxReadSize then maxLen else scan.maxReadSize;
        bytesToCopy := if len < bytesToCopy then len else bytesToCopy;
      }
      TakeOut(buf, bytesToCopy, stream);
      len := bytesToCopy;
    }

    /** The picture is complete exactly when nothing is left to read. */
    lemma Complete()
      requires Valid()
      ensures bytesToRead == 0 <==> scan.Emitted(devPos) == scan.lines
    {
      if scan.Emitted(devPos) < scan.lines {
        SpanMonotone(1, scan.lines - scan.Emitted(devPos), scan.bytesPerLine);
        assert Span(1, scan.bytesPerLine) == Span(0, scan.bytesPerLine) + scan.bytesPerLine;
      }
    }

    /** As long as the picture is incomplete and a line fits the scanner's buffer, a line is due. */
    lemma SomeDue()
      requires Valid()
      ensures bytesToRead > 0 && scan.bytesPerLine <= scan.maxReadSize ==> Due(scan.maxReadSize) > 0
    {
      Complete();
      if scan.bytesPerLine <= scan.maxReadSize {
        DivMonotone(scan.bytesPerLine, scan.maxReadSize, scan.bytesPerLine);
        Quotient(scan.bytesPerLine, scan.bytesPerLine, 1, 0);
      }
    }

    lemma DueIsSome(from: nat, due: nat)
      requires scan.Programmed() && due > 0
      ensures Span(from + due, scan.bytesPerLine) > Span(from, scan.bytesPerLine)
    {
      SpanMonotone(from + 1, from + due, scan.bytesPerLine);
    }

    /** The next lines of the picture into the empty staging buffer. */
    method Refill(ghost stream: seq<Byte>) returns (status: Status, len: nat)
      requires Valid() && stream == scan.Stream() && Conserved(stream) && bytesInBuf == 0
      modifies this, tempBuf, delay, delay.Repr
      ensures Valid() && Conserved(stream) && tempBuf == old(tempBuf) && delay == old(delay)
      ensures fresh(delay.Repr - old(delay.Repr)) && delivered == old(delivered)
      ensures status == if old(bytesToRead) == 0 then Eof else if old(scanning) then Good else Cancelled
      ensures status != Good ==> bytesInBuf == 0
      ensures status == Good ==> bytesInBuf == len && scanning
      ensures status == Good && old(Due(scan.maxReadSize)) > 0 ==> len > 0
      ensures status == Eof ==> |delivered| == |stream| && scan.Emitted(devPos) == scan.lines
    {
      hide DelayLine.Valid, Scan.Image, Scan.Stream;
      StreamLength();
      Complete();
      ghost var start, due := devPos, Due(scan.maxReadSize);
      status, len := ArtecSaneRead(tempBuf, scan.maxReadSize);
      if status == Good {
        bytesInBuf := len;
        if due > 0 {
          DueIsSome(scan.Emitted(start), due);
        }
      }
    }
  }

  /** A whole colour scan under any sequence of requests. The frontend is given the picture from its
      first byte on, whatever the sizes it asks for, and all of it by the time it is told the end;
      by then the scanner has sent exactly the rows that were programmed. When a line fits the
      scanner's buffer and no request is empty, every call but the last hands out something. */
  method ScanPicture(scan: Scan, requests: seq<nat>) returns (out: seq<Byte>, rows: nat, eof: bool)
    requires scan.Programmed()
    ensures out <= scan.Stream() && rows <= scan.lines + 2 * scan.lineOffset
    ensures eof ==> out == scan.Stream()
    ensures eof && scan.lines > 0 ==> rows == scan.lines + 2 * scan.lineOffset
    ensures scan.bytesPerLine <= scan.maxReadSize && (forall k | 0 <= k < |requests| :: requests[k] > 0) ==>
              eof || |out| >= |requests|
    ensures |out| <= Total(requests, |requests|)
    ensures Shows(scan, out) && (eof ==> |out| == 3 * scan.width * scan.lines)
  {
    hide Scan.Image, Scan.Stream, DelayLine.Valid, Span, Shows;
    var s := new Scanner(scan);
    ghost var stream := scan.Stream();
    out, eof := [], false;
    var k := 0;
    while k < |requests| && !eof
      invariant s.scan == scan && s.Valid() && s.Conserved(stream) && out == s.delivered && k <= |requests|
      invariant fresh(s) && fresh(s.delay) && fresh(s.delay.Repr) && fresh(s.tempBuf)
      invariant eof ==> out == stream && s.scan.Emitted(s.devPos) == scan.lines
      invariant !eof ==> s.scanning
      invariant scan.bytesPerLine <= scan.maxReadSize && (forall j | 0 <= j < |requests| :: requests[j] > 0) ==>
                  eof || |out| >= k
      invariant |out| <= Total(requests, k)
      decreases |requests| - k, if eof then 0 else 1
    {
      var buf := new Byte[requests[k]];
      var status, len := s.SaneRead(buf, requests[k], stream);
      out := out + buf[..len];
      eof := status == Eof;
      k := k + 1;
    }
    TotalMonotone(requests, k, |requests|);
    StreamShows(scan, out);
    rows := s.devPos;
  }
}
