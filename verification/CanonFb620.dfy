/** The colour reader of the Canon FB620S: lines arrive as three planes and leave as pixels, through a
    buffer that serves requests of any size. */
module CanonFb620 {
  import opened Streams
  import opened RowMath

  datatype Status = Good | Eof | Cancelled

  /** A colour scan: `device` holds the planar lines, three planes of `width` bytes each. */
  datatype Scan = Scan(width: nat, lines: nat, device: seq<seq<Byte>>) {
    const bytesPerLine: nat := 3 * width

    ghost predicate Sound() {
      width > 0 && |device| == lines && forall k | 0 <= k < lines :: |device[k]| == bytesPerLine
    }

    ghost function Image(): (r: seq<seq<Byte>>)
      requires Sound()
      ensures |r| == lines && forall k | 0 <= k < lines :: |r[k]| == bytesPerLine
    {
      seq(lines, k requires 0 <= k < lines =>
        Interleave(device[k][..width], device[k][width..2 * width], device[k][2 * width..], width))
    }

    ghost function Stream(): seq<Byte>
      requires Sound()
    {
      Concat(Image(), lines)
    }
  }

  /** Byte c of pixel p of line k is byte p of plane c of that line, for all bytes that are out. */
  ghost predicate Shows(scan: Scan, out: seq<Byte>)
    requires scan.Sound()
  {
    forall k: nat, p: nat, c: nat | k < scan.lines && p < scan.width && c < 3 :: SeenAt(scan, k, p, c, out)
  }

  ghost predicate SeenAt(scan: Scan, k: nat, p: nat, c: nat, out: seq<Byte>)
    requires scan.Sound() && k < scan.lines && p < scan.width && c < 3
  {
    var at := Span(k, 3 * scan.width) + 3 * p + c;
    at < |out| ==>
      out[at] == scan.device[k][if c == 0 then p else if c == 1 then scan.width + p else 2 * scan.width + p]
  }

  /** Whatever part of the stream is out shows the picture. */
  lemma StreamShows(scan: Scan, out: seq<Byte>)
    requires scan.Sound() && out <= scan.Stream()
    ensures Shows(scan, out) && |scan.Stream()| == 3 * scan.width * scan.lines
  {
    hide Interleave;
    var image := scan.Image();
    SpanIsProduct(scan.lines, scan.bytesPerLine);
    ConcatLength(image, scan.lines, scan.bytesPerLine);
    forall k: nat, p: nat, c: nat | k < scan.lines && p < scan.width && c < 3
      ensures SeenAt(scan, k, p, c, out)
    {
      hide Concat;
      var line := scan.device[k];
      ConcatAt(image, scan.lines, scan.bytesPerLine, k);
      InterleaveAt(line[..scan.width], line[scan.width..2 * scan.width], line[2 * scan.width..], scan.width, p);
      var start := Span(k, scan.bytesPerLine);
      assert image[k][3 * p + c] == scan.Stream()[start..start + scan.bytesPerLine][3 * p + c];
    }
  }

  class Reader {
    const scan: Scan
    const inbuffer: array<Byte>
    const outbuffer: array<Byte>
    var bytesToRead: nat
    var bufPos: nat
    var bufUsed: nat
    var scanning: bool
    /** Whether the next sane_start must reset the scanner: set by every call but the one at the end. */
    var resetFlag: bool
    var devPos: nat
    ghost var delivered: seq<Byte>

    /** What is still to be read is always a whole number of lines, and what the frontend has, with
        the rest of the output buffer, is the part of the picture that has been read. */
    ghost predicate Valid(stream: seq<Byte>)
      reads this, outbuffer
    {
      && scan.Sound() && stream == scan.Stream()
      && inbuffer.Length == outbuffer.Length == scan.bytesPerLine && inbuffer != outbuffer
      && devPos <= scan.lines && bytesToRead == Span(scan.lines - devPos, scan.bytesPerLine)
      && bufPos <= bufUsed <= outbuffer.Length && delivered <= stream
      && |delivered| + bufUsed - bufPos == Span(devPos, scan.bytesPerLine) <= |stream|
      && forall i | bufPos <= i < bufUsed :: outbuffer[i] == stream[|delivered| + i - bufPos]
    }

    constructor (scan: Scan)
      requires scan.Sound()
      ensures Valid(scan.Stream()) && this.scan == scan && fresh(inbuffer) && fresh(outbuffer)
      ensures scanning && devPos == 0 && delivered == []
    {
      this.scan := scan;
      inbuffer := new Byte[scan.bytesPerLine];
      outbuffer := new Byte[scan.bytesPerLine];
      bytesToRead, bufPos, bufUsed, scanning, devPos := scan.bytesPerLine * scan.lines, 0, 0, true, 0;
      delivered := [];
      new;
      SpanIsProduct(scan.lines, scan.bytesPerLine);
    }

    lemma LineInStream(k: nat, line: seq<Byte>, stream: seq<Byte>)
      requires scan.Sound() && k < scan.lines && stream == scan.Stream() && line == scan.Image()[k]
      ensures Span(k + 1, scan.bytesPerLine) <= |stream| == Span(scan.lines, scan.bytesPerLine)
      ensures |line| == scan.bytesPerLine
      ensures forall i | 0 <= i < |line| :: line[i] == stream[Span(k, scan.bytesPerLine) + i]
    {
      hide Concat, Interleave;
      ConcatAt(scan.Image(), scan.lines, scan.bytesPerLine, k);
      var start := Span(k, scan.bytesPerLine);
      assert line == stream[start..start + scan.bytesPerLine];
    }

    /** The colour sort of read_fb620: three running pointers into the line, one into the output. */
    method Sort(ghost line: seq<Byte>)
      requires inbuffer.Length == outbuffer.Length == 3 * scan.width && inbuffer != outbuffer
      requires line == inbuffer[..]
      modifies outbuffer
      ensures outbuffer[..] == Interleave(line[..scan.width], line[scan.width..2 * scan.width], line[2 * scan.width..],
                                          scan.width)
    {
      hide Interleave;
      ghost var w := scan.width;
      ghost var planes := (line[..w], line[w..2 * w], line[2 * w..]);
      ghost var target := Interleave(planes.0, planes.1, planes.2, w);
      var out, red, green, blue := 0, 0, scan.width, 2 * scan.width;
      for i := 0 to scan.width
        invariant out == 3 * i && red == i && green == w + i && blue == 2 * w + i
        invariant forall j | 0 <= j < out :: outbuffer[j] == target[j]
        modifies outbuffer
      {
        InterleaveAt(planes.0, planes.1, planes.2, w, i);
        outbuffer[out] := inbuffer[red];
        outbuffer[out + 1] := inbuffer[green];
        outbuffer[out + 2] := inbuffer[blue];
        out, red, green, blue := out + 3, red + 1, green + 1, blue + 1;
      }
    }

    /** The next line into the empty output buffer. The clamp of the read to what is left never
        shortens it, and the count of what is left never runs below zero. */
    method NextLine(ghost stream: seq<Byte>)
      requires Valid(stream) && bufPos >= bufUsed && bytesToRead > 0
      modifies this`devPos, this`bytesToRead, this`bufPos, this`bufUsed, inbuffer, outbuffer
      ensures Valid(stream) && devPos == old(devPos) + 1 && bufPos < bufUsed
    {
      hide Scan.Stream, Interleave;
      var nread := scan.bytesPerLine;
      assert nread <= bytesToRead;
      ghost var line := scan.Image()[devPos];
      LineInStream(devPos, line, stream);
      Fill(inbuffer, scan.device[devPos]);
      devPos := devPos + 1;
      bufUsed := scan.bytesPerLine;
      Sort(scan.device[devPos - 1]);
      assert outbuffer[..] == line;
      bufPos := 0;
      bytesToRead := bytesToRead - bufUsed;
    }

    /** Both copies of read_fb620: what fits of the buffer's rest goes behind the `at` bytes already given. */
    method TakeOut(buf: array<Byte>, at: nat, maxLen: nat, ghost stream: seq<Byte>) returns (ncopy: nat)
      requires Valid(stream) && at + maxLen <= buf.Length && bufPos < bufUsed && buf != inbuffer && buf != outbuffer
      modifies this`bufPos, this`delivered, buf
      ensures Valid(stream) && ncopy <= maxLen && delivered == old(delivered) + buf[at..at + ncopy]
      ensures buf[..at] == old(buf[..at])
      ensures ncopy == maxLen || bufPos == bufUsed
      ensures maxLen > 0 ==> ncopy > 0
    {
      hide Scan.Stream;
      ncopy := bufUsed - bufPos;
      if ncopy > maxLen {
        ncopy := maxLen;
      }
      CopyBytes(buf, at, outbuffer, bufPos, ncopy);
      assert buf[at..at + ncopy] == stream[|delivered|..|delivered| + ncopy];
      bufPos := bufPos + ncopy;
      delivered := delivered + buf[at..at + ncopy];
    }

    lemma Ended(stream: seq<Byte>)
      requires Valid(stream)
      ensures bytesToRead == 0 <==> devPos == scan.lines
      ensures devPos == scan.lines && bufPos == bufUsed ==> delivered == stream
    {
      ConcatLength(scan.Image(), scan.lines, scan.bytesPerLine);
    }

    /** read_fb620. */
    method Read(buf: array<Byte>, maxLen0: nat, ghost stream: seq<Byte>) returns (status: Status, len: nat)
      requires Valid(stream) && maxLen0 <= buf.Length && buf != inbuffer && buf != outbuffer
      modifies this`devPos, this`bytesToRead, this`bufPos, this`bufUsed, this`scanning, this`resetFlag, this`delivered
      modifies inbuffer, outbuffer, buf
      ensures Valid(stream) && len <= maxLen0 && delivered == old(delivered) + buf[..len]
      ensures status == Eof <==> old(bytesToRead) == 0 && old(bufPos) == old(bufUsed)
      ensures status == Eof ==> delivered == stream && devPos == scan.lines
      ensures resetFlag <==> status != Eof
      ensures status == Cancelled ==> !old(scanning)
      ensures status == Good ==> scanning
      ensures status == Good && maxLen0 > 0 ==> len > 0
      ensures status == Good ==> len == maxLen0 || bufPos == bufUsed
    {
      hide Scan.Stream, Span;
      Ended(stream);
      len := 0;
      if bytesToRead == 0 && bufPos == bufUsed {
        resetFlag := false;
        scanning := false;
        return Eof, 0;
      }
      resetFlag := true;
      if !scanning {
        return Cancelled, 0;
      }
      len := Serve(buf, maxLen0, stream);
      status := Good;
    }

    /** The copies of read_fb620, with the next line between them. */
    method Serve(buf: array<Byte>, maxLen0: nat, ghost stream: seq<Byte>) returns (len: nat)
      requires Valid(stream) && maxLen0 <= buf.Length && buf != inbuffer && buf != outbuffer
      requires bytesToRead > 0 || bufPos < bufUsed
      modifies this`devPos, this`bytesToRead, this`bufPos, this`bufUsed, this`delivered, inbuffer, outbuffer, buf
      ensures Valid(stream) && len <= maxLen0 && delivered == old(delivered) + buf[..len]
      ensures maxLen0 > 0 ==> len > 0
      ensures len == maxLen0 || bufPos == bufUsed
    {
      hide Scan.Stream, Span, Valid;
      InBuffer(stream);
      len := 0;
      var maxLen := maxLen0;
      if bufPos < bufUsed {
        len := TakeOut(buf, 0, maxLen, stream);
        maxLen := maxLen - len;
      }
      if bufPos >= bufUsed && bytesToRead > 0 {
        NextLine(stream);
      }
      InBuffer(stream);
      if maxLen > 0 && bufPos < bufUsed {
        ghost var before := buf[..len];
        var ncopy := TakeOut(buf, len, maxLen, stream);
        assert buf[..len + ncopy] == before + buf[len..len + ncopy];
        len := len + ncopy;
      }
    }

    lemma InBuffer(stream: seq<Byte>)
      requires Valid(stream)
      ensures bufPos <= bufUsed
    {
    }
  }

  /** A whole scan under any sequence of requests: the frontend is given the interleaved lines in
      order, however it slices its requests, and exactly all of them by the end of file. */
  method ScanPicture(scan: Scan, requests: seq<nat>) returns (out: seq<Byte>, eof: bool)
    requires scan.Sound()
    ensures out <= scan.Stream()
    ensures eof ==> out == scan.Stream()
    ensures (forall k | 0 <= k < |requests| :: requests[k] > 0) ==> eof || |out| >= |requests|
    ensures |out| <= Total(requests, |requests|)
    ensures Shows(scan, out) && (eof ==> |out| == 3 * scan.width * scan.lines)
  {
    hide Scan.Stream, Shows;
    var r := new Reader(scan);
    ghost var stream := scan.Stream();
    out, eof := [], false;
    var k := 0;
    while k < |requests| && !eof
      invariant r.scan == scan && r.Valid(stream) && out == r.delivered && k <= |requests|
      invariant fresh(r) && fresh(r.inbuffer) && fresh(r.outbuffer)
      invariant eof ==> out == stream
      invariant !eof ==> r.scanning
      invariant (forall j | 0 <= j < |requests| :: requests[j] > 0) ==> eof || |out| >= k
      invariant |out| <= Total(requests, k)
      decreases |requests| - k, if eof then 0 else 1
    {
      var buf := new Byte[requests[k]];
      var status, len := r.Read(buf, requests[k], stream);
      out := out + buf[..len];
      eof := status == Eof;
      k := k + 1;
    }
    TotalMonotone(requests, k, |requests|);
    StreamShows(scan, out);
  }
}
