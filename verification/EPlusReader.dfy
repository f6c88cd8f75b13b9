/** The block reader of the Artec E+ 48U backend: USB transfers come in multiples of 64 bytes, lines of
    the picture in whatever length the settings give; and the line reader on top of it. */
module EPlusReader {
  import opened Streams
  import opened RowMath

  datatype Status = Good | Eof | Inval

  /** (x + 63) & ~63: the size of the USB transfer that holds x bytes. */
  function Round64(x: nat): nat {
    (x + 63) / 64 * 64
  }

  /** It is made of blocks of 64 bytes, and of no more than are needed. */
  lemma Round64Law(x: nat)
    ensures Round64(x) % 64 == 0 && x <= Round64(x) < x + 64
  {
  }

  // ---------- Alignment of the scan window ----------

  /** So many whole groups of pixels fill whole blocks. */
  lemma AlignedLine(depth: nat, align: nat, q: nat)
    requires align > 0 && depth * align == 512
    ensures depth * (q * align) == 512 * q && q * align % align == 0
  {
    assert depth * (q * align) == q * (depth * align);
    Remainder(q * align, align, q, 0);
  }

  /** Fewer pixels do not fill one. */
  lemma NoSmallerAlign(depth: nat, align: nat)
    requires depth > 0 && depth * align == 512
    ensures forall q | 0 < q < align :: depth * q % 512 != 0
  {
    forall q | 0 < q < align
      ensures depth * q % 512 != 0
    {
      MulMonotone(1, q, depth);
      MulMonotone(q + 1, align, depth);
      assert (q + 1) * depth == depth * q + depth;
    }
  }

  /** The alignment computed by artec48u_setup_scan for its two bit depths: lines are widened to the
      fewest pixels that fill whole 64-byte blocks, so its two tests for an unaligned line never
      find one. */
  method AlignLine(depth: nat, pixelXs: nat) returns (pixelAlign: nat, scanXs: nat, scanBpl: nat)
    requires depth == 8 || depth == 16
    ensures pixelAlign > 0 && depth * pixelAlign % 512 == 0
    ensures forall q | 0 < q < pixelAlign :: depth * q % 512 != 0
    ensures pixelXs <= scanXs < pixelXs + pixelAlign && scanXs % pixelAlign == 0
    ensures 8 * scanBpl == depth * scanXs && scanBpl % 64 == 0
  {
    pixelAlign := 32;
    while depth * pixelAlign % (64 * 8) != 0
      invariant pixelAlign == 32 || (depth == 8 && pixelAlign == 64)
      decreases 64 - pixelAlign
    {
      pixelAlign := pixelAlign * 2;
    }
    assert depth * pixelAlign == 512;
    NoSmallerAlign(depth, pixelAlign);
    scanXs, scanBpl := WidenLine(depth, pixelXs, pixelAlign);
  }

  /** The line that is widened to the next multiple of an alignment. */
  method WidenLine(depth: nat, pixelXs: nat, pixelAlign: nat) returns (scanXs: nat, scanBpl: nat)
    requires pixelAlign > 0 && depth * pixelAlign == 512
    ensures pixelXs <= scanXs < pixelXs + pixelAlign && scanXs % pixelAlign == 0
    ensures 8 * scanBpl == depth * scanXs && scanBpl % 64 == 0
  {
    scanXs := AlignUp(pixelXs, pixelAlign);
    var bitsPerLine := depth * scanXs;
    AlignedLine(depth, pixelAlign, scanXs / pixelAlign);
    scanBpl := bitsPerLine / 8;
  }

  /** The next multiple of an alignment. */
  method AlignUp(x: nat, align: nat) returns (y: nat)
    requires align > 0
    ensures x <= y < x + align && y % align == 0 && y == y / align * align
  {
    ghost var q := x / align;
    assert x == q * align + x % align;
    assert (q + 1) * align == q * align + align;
    Remainder(q * align, align, q, 0);
    Remainder((q + 1) * align, align, q + 1, 0);
    if x % align == 0 {
      y := x;
    } else {
      y := (x / align + 1) * align;
    }
  }

  // ---------- The block reader ----------

  /** Rounding up keeps a block inside a buffer, and a read that starts at a block boundary inside
      the padded stream. */
  lemma BlockFits(block: nat, bufferSize: nat, pos: nat, expected: nat)
    requires block <= bufferSize && bufferSize % 64 == 0 && pos % 64 == 0 && pos + block <= expected
    ensures block <= Round64(block) <= bufferSize
    ensures pos + Round64(block) <= Round64(expected) && (pos + Round64(block)) % 64 == 0
    ensures Round64(block) == block || block % 64 != 0
  {
    var (b, p, e, m) := ((block + 63) / 64, pos / 64, (expected + 63) / 64, bufferSize / 64);
    assert pos == 64 * p && bufferSize == 64 * m;
    assert block > 64 * b - 64 && expected <= 64 * e;
  }

  class Device {
    /** The bytes the scanner sends from the start of the read on, padded to whole USB blocks. */
    const usb: seq<Byte>
    var usbPos: nat
    var requestedBufferSize: nat
    var readActive: bool
    var readBuffer: array<Byte>
    var readPos: nat
    var readBytesInBuffer: nat
    var readBytesLeft: nat
    /** The bytes announced to read_prepare, and those handed out so far. */
    ghost var expected: nat
    ghost var delivered: seq<Byte>

    /** Nothing lost, nothing invented: the bytes handed out, followed by the buffered ones, are the
        device's first expected - readBytesLeft bytes. Only the last transfer can have been rounded
        up, so until then the device stands exactly there, at a block boundary. */
    ghost predicate Valid()
      reads this, readBuffer
    {
      && readActive && requestedBufferSize % 64 == 0 && readBuffer.Length == requestedBufferSize > 0
      && readBytesLeft <= expected && Round64(expected) <= |usb|
      && readPos + readBytesInBuffer <= readBuffer.Length
      && |delivered| + readBytesInBuffer == expected - readBytesLeft
      && delivered == usb[..|delivered|]
      && expected <= |usb|
      && (forall i | readPos <= i < readPos + readBytesInBuffer :: readBuffer[i] == usb[|delivered| + i - readPos])
      && (readBytesLeft > 0 ==> usbPos == expected - readBytesLeft && usbPos % 64 == 0)
    }

    constructor (usb: seq<Byte>)
      ensures this.usb == usb && !readActive && requestedBufferSize == 0 && usbPos == 0
    {
      this.usb := usb;
      readBuffer := new Byte[0];
      readActive, requestedBufferSize, usbPos, readPos, readBytesInBuffer, readBytesLeft := false, 0, 0, 0, 0, 0;
      expected, delivered := 0, [];
    }

    /** artec48u_device_set_read_buffer_size. */
    method SetReadBufferSize(bufferSize: nat) returns (status: Status)
      modifies this`requestedBufferSize
      ensures status == if old(readActive) || bufferSize == 0 then Inval else Good
      ensures requestedBufferSize == if status == Good then Round64(bufferSize) else old(requestedBufferSize)
    {
      if readActive {
        return Inval;
      }
      var size := Round64(bufferSize);
      if size > 0 {
        requestedBufferSize := size;
        return Good;
      }
      return Inval;
    }

    /** artec48u_device_read_prepare. */
    method ReadPrepare(expectedCount: nat) returns (status: Status)
      requires !readActive ==> requestedBufferSize > 0 && requestedBufferSize % 64 == 0
      requires !readActive ==> usbPos == 0 && Round64(expectedCount) <= |usb|
      modifies this
      ensures status == if old(readActive) then Inval else Good
      ensures status == Good ==> Valid() && fresh(readBuffer) && expected == expectedCount && delivered == []
      ensures status == Inval ==> unchanged(this)
    {
      if readActive {
        return Inval;
      }
      readBuffer := new Byte[requestedBufferSize];
      readActive := true;
      readPos, readBytesInBuffer, readBytesLeft := 0, 0, expectedCount;
      expected, delivered := expectedCount, [];
      return Good;
    }

    /** The refill in artec48u_device_read: a block, transferred as a whole number of 64 bytes. The
        transfer always fits the read buffer. */
    method Refill() returns (blockSize: nat)
      requires Valid() && readBytesInBuffer == 0
      modifies this`usbPos, this`readPos, this`readBytesInBuffer, this`readBytesLeft, readBuffer
      ensures Valid() && (blockSize == 0 <==> old(readBytesLeft) == 0)
      ensures readBytesInBuffer == blockSize && readBytesLeft == old(readBytesLeft) - blockSize
    {
      hide Round64;
      blockSize := requestedBufferSize;
      if blockSize > readBytesLeft {
        blockSize := readBytesLeft;
      }
      if blockSize == 0 {
        return;
      }
      var rawBlockSize := Round64(blockSize);
      BlockFits(blockSize, requestedBufferSize, usbPos, expected);
      assert rawBlockSize <= readBuffer.Length && usbPos + rawBlockSize <= |usb|;
      for i := 0 to rawBlockSize
        invariant forall k | 0 <= k < i :: readBuffer[k] == usb[usbPos + k]
        modifies readBuffer
      {
        readBuffer[i] := usb[usbPos + i];
      }
      usbPos := usbPos + rawBlockSize;
      readPos := 0;
      readBytesInBuffer := blockSize;
      readBytesLeft := readBytesLeft - blockSize;
    }

    /** The copy in artec48u_device_read, to the bytes of the caller's buffer from `at` on. */
    method Transfer(buffer: array<Byte>, at: nat, left: nat) returns (transferSize: nat)
      requires Valid() && buffer != readBuffer && at + left <= buffer.Length && left > 0 && readBytesInBuffer > 0
      modifies this`readPos, this`readBytesInBuffer, this`delivered, buffer
      ensures Valid() && 0 < transferSize <= left && (transferSize < left ==> readBytesInBuffer == 0)
      ensures delivered == old(delivered) + buffer[at..at + transferSize]
      ensures buffer[..at] == old(buffer[..at])
    {
      hide Round64;
      transferSize := left;
      if transferSize > readBytesInBuffer {
        transferSize := readBytesInBuffer;
      }
      ghost var d := |delivered|;
      CopyBytes(buffer, at, readBuffer, readPos, transferSize);
      assert forall k | at <= k < at + transferSize :: buffer[k] == readBuffer[readPos + k - at] == usb[d + k - at];
      assert buffer[at..at + transferSize] == usb[d..d + transferSize];
      assert usb[..d] + usb[d..d + transferSize] == usb[..d + transferSize];
      readPos := readPos + transferSize;
      readBytesInBuffer := readBytesInBuffer - transferSize;
      delivered := delivered + buffer[at..at + transferSize];
    }

    /** artec48u_device_read: as many of the announced bytes as the caller wants, in order; the end of
        file is reported when there are none. */
    method Read(buffer: array<Byte>, size: nat) returns (status: Status, byteCount: nat)
      requires readActive ==> Valid() && buffer != readBuffer && size <= buffer.Length
      modifies this`usbPos, this`readPos, this`readBytesInBuffer, this`readBytesLeft, this`delivered, readBuffer, buffer
      ensures !readActive ==> status == Inval && byteCount == 0
      ensures readActive ==> Valid() && byteCount <= size && delivered == old(delivered) + buffer[..byteCount]
      ensures readActive ==>
                byteCount == if size <= expected - |old(delivered)| then size else expected - |old(delivered)|
      ensures readActive ==> status == if byteCount == 0 then Eof else Good
    {
      hide Round64;
      byteCount := 0;
      if !readActive {
        return Inval, 0;
      }
      var left := size;
      while left > 0
        invariant Valid() && byteCount + left == size && delivered == old(delivered) + buffer[..byteCount]
        decreases left
      {
        if readBytesInBuffer == 0 {
          var blockSize := Refill();
          if blockSize == 0 {
            break;
          }
        }
        var transferSize := Transfer(buffer, byteCount, left);
        assert buffer[..byteCount + transferSize]
            == buffer[..byteCount] + buffer[byteCount..byteCount + transferSize];
        byteCount := byteCount + transferSize;
        left := left - transferSize;
      }
      status := if byteCount == 0 then Eof else Good;
    }
  }

  // ---------- The line reader ----------

  /** A 16-bit sample from its bytes. */
  function Word(low: int, high: int): int {
    256 * high + low
  }

  /** The samples of one plane of a line: 8-bit samples are spread over 16 bits, 16-bit samples come
      low byte first. */
  function Plane(depth: nat, bytes: seq<Byte>, n: nat): (r: seq<int>)
    requires depth == 8 || depth == 16
    requires depth * n <= 8 * |bytes|
    ensures |r| == n
  {
    seq(n, p requires 0 <= p < n =>
      if depth == 8 then Word(bytes[p], bytes[p]) else Word(bytes[2 * p], bytes[2 * p + 1]))
  }

  /** unpack_8_mono and unpack_16_le_mono. */
  method Unpack(depth: nat, src: array<Byte>, from: nat, dst: array<int>, ghost bytes: seq<Byte>)
    requires depth == 8 || depth == 16
    requires from + |bytes| <= src.Length && bytes == src[from..from + |bytes|] && depth * dst.Length <= 8 * |bytes|
    modifies dst
    ensures dst[..] == Plane(depth, bytes, dst.Length)
  {
    var at := from;
    for p := 0 to dst.Length
      invariant at == from + (if depth == 8 then p else 2 * p)
      invariant forall k | 0 <= k < p :: dst[k] == Plane(depth, bytes, dst.Length)[k]
      modifies dst
    {
      if depth == 8 {
        assert src[at] == bytes[p];
        dst[p] := Word(src[at], src[at]);
        at := at + 1;
      } else {
        assert src[at] == bytes[2 * p] && src[at + 1] == bytes[2 * p + 1];
        dst[p] := Word(src[at], src[at + 1]);
        at := at + 2;
      }
    }
  }

  /** The settings of a scan, as artec48u_setup_scan leaves them. */
  datatype Params = Params(depth: nat, color: bool, pixelXs: nat, scanBpl: nat, scanYs: nat) {
    /** The bytes of a line, all planes. */
    const fullBpl: nat := if color then 3 * scanBpl else scanBpl

    ghost predicate Sound() {
      (depth == 8 || depth == 16) && scanBpl > 0 && depth * pixelXs <= 8 * scanBpl
    }

    /** A line of the scan: its planes in the order red, green, blue; they are sent blue first. */
    ghost function Planes(line: seq<Byte>): seq<seq<int>>
      requires Sound() && |line| == fullBpl
    {
      if color then
        [Plane(depth, line[2 * scanBpl..], pixelXs), Plane(depth, line[scanBpl..2 * scanBpl], pixelXs),
         Plane(depth, line[..scanBpl], pixelXs)]
      else [Plane(depth, line, pixelXs)]
    }

    /** Line k as the scanner sends it. */
    ghost function RawLine(usb: seq<Byte>, k: nat): seq<Byte>
      requires Span(k + 1, fullBpl) <= |usb|
      ensures |RawLine(usb, k)| == fullBpl
    {
      usb[Span(k, fullBpl)..Span(k + 1, fullBpl)]
    }

    /** The planes are those of line k, and the scanner has sent it. */
    ghost predicate IsLine(usb: seq<Byte>, k: nat, planes: seq<seq<int>>)
      requires Sound()
    {
      Span(k + 1, fullBpl) <= |usb| && planes == Planes(RawLine(usb, k))
    }
  }

  class LineReader {
    const params: Params
    const dev: Device
    const pixelBuffer: array<Byte>
    const red: array<int>
    const green: array<int>
    const blue: array<int>

    ghost predicate Valid()
      reads dev, dev.readBuffer
    {
      && params.Sound() && dev.Valid() && pixelBuffer != dev.readBuffer
      && pixelBuffer.Length == params.fullBpl
      && red.Length == green.Length == blue.Length == params.pixelXs
      && red != green && red != blue && green != blue
      && dev.expected == Span(params.scanYs, params.fullBpl)
    }

    /** artec48u_line_reader_new. */
    constructor (params: Params, dev: Device)
      requires params.Sound() && !dev.readActive && dev.usbPos == 0
      requires Round64(Span(params.scanYs, params.fullBpl)) <= |dev.usb|
      modifies dev
      ensures Valid() && this.params == params && this.dev == dev && dev.delivered == [] && fresh(dev.readBuffer)
      ensures fresh(pixelBuffer) && fresh(red) && fresh(green) && fresh(blue)
    {
      this.params, this.dev := params, dev;
      red := new int[params.pixelXs];
      green := new int[params.pixelXs];
      blue := new int[params.pixelXs];
      pixelBuffer := new Byte[params.fullBpl];
      new;
      hide Round64, Span, Device.Valid;
      var status := dev.SetReadBufferSize(params.fullBpl);
      PictureBytes(params.scanYs, params.fullBpl);
      status := dev.ReadPrepare(params.fullBpl * params.scanYs);
    }

    static lemma PictureBytes(lines: nat, bytes: nat)
      ensures bytes * lines == Span(lines, bytes)
    {
      SpanIsProduct(lines, bytes);
    }

    /** The planes read last, as handed to the caller. */
    ghost function Pointers(): seq<seq<int>>
      reads red, green, blue
    {
      if params.color then [red[..], green[..], blue[..]] else [green[..]]
    }

    /** The line_read functions. Line k comes whole as long as there is one, and then the end of file. */
    method ReadLine(ghost k: nat) returns (status: Status)
      requires Valid() && k <= params.scanYs && |dev.delivered| == Span(k, params.fullBpl)
      modifies dev, dev.readBuffer, pixelBuffer, red, green, blue
      ensures Valid() && dev.readBuffer == old(dev.readBuffer)
      ensures status == if k < params.scanYs then Good else Eof
      ensures status == Good ==> |dev.delivered| == Span(k + 1, params.fullBpl)
      ensures status == Good ==> params.IsLine(dev.usb, k, Pointers())
    {
      hide Round64, Plane;
      if k < params.scanYs {
        SpanMonotone(k + 1, params.scanYs, params.fullBpl);
      }
      var size;
      status, size := dev.Read(pixelBuffer, params.fullBpl);
      if status != Good {
        return;
      }
      ghost var line := pixelBuffer[..];
      assert line == params.RawLine(dev.usb, k);
      UnpackLine();
    }

    /** The planes of the line in the pixel buffer. */
    method UnpackLine()
      requires params.Sound() && pixelBuffer.Length == params.fullBpl
      requires red.Length == green.Length == blue.Length == params.pixelXs
      requires red != green && red != blue && green != blue
      modifies red, green, blue
      ensures Pointers() == params.Planes(pixelBuffer[..])
    {
      hide Plane;
      ghost var line := pixelBuffer[..];
      var bpl := params.scanBpl;
      if params.color {
        Unpack(params.depth, pixelBuffer, 0, blue, line[..bpl]);
        Unpack(params.depth, pixelBuffer, bpl, green, line[bpl..2 * bpl]);
        Unpack(params.depth, pixelBuffer, 2 * bpl, red, line[2 * bpl..]);
      } else {
        Unpack(params.depth, pixelBuffer, 0, green, line);
      }
    }
  }

  /** Sample p of channel c of line k as it was sent. A colour line is sent blue first and red last; a sample of eight
      bits is multiplied by 257, one of sixteen comes low byte first. */
  ghost predicate SentAs(params: Params, usb: seq<Byte>, k: nat, c: nat, p: nat, v: int) {
    var bpl := params.scanBpl;
    var at := Span(k, if params.color then 3 * bpl else bpl) +
              if !params.color || c == 2 then 0 else if c == 1 then bpl else 2 * bpl;
    SampleIs(params.depth, usb, at, p, v)
  }

  ghost predicate SampleIs(depth: nat, bytes: seq<Byte>, at: nat, p: nat, v: int) {
    if depth == 8 then at + p < |bytes| && v == 257 * (bytes[at + p] as int)
    else at + 2 * p + 1 < |bytes| && v == bytes[at + 2 * p] as int + 256 * (bytes[at + 2 * p + 1] as int)
  }

  /** The planes of line k hold the samples as they were sent: red, green and blue, or grey alone. */
  ghost predicate Sent(params: Params, usb: seq<Byte>, k: nat, planes: seq<seq<int>>) {
    && |planes| == (if params.color then 3 else 1) && (forall c | 0 <= c < |planes| :: |planes[c]| == params.pixelXs)
    && forall c: nat, p: nat | c < |planes| && p < params.pixelXs :: SentAs(params, usb, k, c, p, planes[c][p])
  }

  lemma PlaneAt(depth: nat, plane: seq<Byte>, n: nat, p: nat)
    requires (depth == 8 || depth == 16) && depth * n <= 8 * |plane| && p < n
    ensures SampleIs(depth, plane, 0, p, Plane(depth, plane, n)[p])
  {
    if depth == 8 {
      SampleOf8(plane, n, p);
    } else {
      SampleOf16(plane, n, p);
    }
    hide Plane;
  }

  lemma SampleOf8(plane: seq<Byte>, n: nat, p: nat)
    requires n <= |plane| && p < n
    ensures Plane(8, plane, n)[p] == 257 * (plane[p] as int)
  {
  }

  lemma SampleOf16(plane: seq<Byte>, n: nat, p: nat)
    requires 2 * n <= |plane| && p < n
    ensures Plane(16, plane, n)[p] == plane[2 * p] as int + 256 * (plane[2 * p + 1] as int)
  {
  }

  lemma Part<T>(s: seq<T>, from: nat, to: nat, a: nat, b: nat)
    requires from <= to <= |s| && a <= b <= to - from
    ensures s[from..to][a..b] == s[from + a..from + b]
  {
    var part := s[from..to];
    assert forall i | 0 <= i < b - a :: part[a..b][i] == part[a + i] == s[from + a + i];
  }

  /** A plane is part of what was sent. */
  lemma PlaneSent(depth: nat, usb: seq<Byte>, from: nat, len: nat, n: nat, p: nat)
    requires (depth == 8 || depth == 16) && depth * n <= 8 * len && p < n && from + len <= |usb|
    ensures SampleIs(depth, usb, from, p, Plane(depth, usb[from..from + len], n)[p])
  {
    hide Plane;
    var plane := usb[from..from + len];
    PlaneAt(depth, plane, n, p);
    if depth == 8 {
      assert plane[p] == usb[from + p];
    } else {
      assert plane[2 * p] == usb[from + 2 * p] && plane[2 * p + 1] == usb[from + 2 * p + 1];
    }
  }

  lemma PlaneOfLine(params: Params, usb: seq<Byte>, k: nat, planes: seq<seq<int>>, c: nat)
    requires params.Sound() && params.IsLine(usb, k, planes) && c < |planes|
    ensures var bpl := params.scanBpl;
            var from := Span(k, params.fullBpl) +
                        if !params.color || c == 2 then 0 else if c == 1 then bpl else 2 * bpl;
            from + bpl <= |usb| && planes[c] == Plane(params.depth, usb[from..from + bpl], params.pixelXs)
  {
    hide Plane;
    var bpl, start, line := params.scanBpl, Span(k, params.fullBpl), params.RawLine(usb, k);
    assert Span(k + 1, params.fullBpl) == start + params.fullBpl;
    if params.color {
      var end := start + params.fullBpl;
      Part(usb, start, end, 2 * bpl, 3 * bpl);
      Part(usb, start, end, bpl, 2 * bpl);
      Part(usb, start, end, 0, bpl);
      assert line[2 * bpl..] == line[2 * bpl..3 * bpl] && line[..bpl] == line[0..bpl];
    }
  }

  lemma LineSent(params: Params, usb: seq<Byte>, k: nat, planes: seq<seq<int>>)
    requires params.Sound() && params.IsLine(usb, k, planes)
    ensures Sent(params, usb, k, planes)
  {
    hide Plane, SampleIs;
    forall c: nat, p: nat | c < |planes| && p < params.pixelXs
      ensures SentAs(params, usb, k, c, p, planes[c][p])
    {
      PlaneOfLine(params, usb, k, planes, c);
      var bpl := params.scanBpl;
      var from := Span(k, params.fullBpl) + if !params.color || c == 2 then 0 else if c == 1 then bpl else 2 * bpl;
      PlaneSent(params.depth, usb, from, bpl, params.pixelXs, p);
    }
  }

  /** A whole scan line by line: exactly scanYs lines come out before the end of file, each with the samples
      that were sent for it, wherever the block boundaries fall. */
  method ReadPicture(params: Params, usb: seq<Byte>) returns (lines: seq<seq<seq<int>>>)
    requires params.Sound() && Round64(Span(params.scanYs, params.fullBpl)) <= |usb|
    ensures |lines| == params.scanYs
    ensures forall k | 0 <= k < |lines| :: Sent(params, usb, k, lines[k])
    ensures forall k | 0 <= k < |lines| :: params.IsLine(usb, k, lines[k])
  {
    hide Round64, Plane, Device.Valid, Params.IsLine, Sent;
    var dev := new Device(usb);
    var reader := new LineReader(params, dev);
    lines := [];
    var status := reader.ReadLine(0);
    while status == Good
      invariant reader.params == params && reader.dev == dev && reader.Valid() && dev.usb == usb
      invariant fresh(reader) && fresh(dev) && fresh(dev.readBuffer) && fresh(reader.pixelBuffer)
      invariant fresh(reader.red) && fresh(reader.green) && fresh(reader.blue)
      invariant |lines| <= params.scanYs && (status != Good ==> |lines| == params.scanYs)
      invariant status == Good ==> |lines| < params.scanYs
      invariant forall k | 0 <= k < |lines| :: params.IsLine(usb, k, lines[k])
      invariant status == Good ==> |dev.delivered| == Span(|lines| + 1, params.fullBpl)
      invariant status == Good ==> params.IsLine(usb, |lines|, reader.Pointers())
      decreases params.scanYs - |lines|, if status == Good then 1 else 0
    {
      var planes := if params.color then [reader.red[..], reader.green[..], reader.blue[..]] else [reader.green[..]];
      lines := lines + [planes];
      status := reader.ReadLine(|lines|);
    }
    forall k | 0 <= k < |lines|
      ensures Sent(params, usb, k, lines[k])
    {
      LineSent(params, usb, k, lines[k]);
    }
  }
}
