/** The 1200 dpi reader of the Canon backend. The FB1200S scans the page twice, the second time half a
    pixel aside. The first pass goes to a temporary file; during the second, each line read is
    merged with the line of the first pass read back from the file. */
module CanonFb1200 {
  import opened Streams
  import opened RowMath
  import opened CanonLineart

  datatype Mode = Color | Gray | Lineart
  datatype Status = Good | Eof | Cancelled

  // ---------- The merged line ----------

  /** One line of the picture from a line of each pass. */
  function Merge(mode: Mode, primary: seq<Pixels>, secondary: seq<Pixels>): (r: seq<Pixels>)
    requires |primary| == |secondary| && (mode == Color ==> |primary| % 3 == 0)
    ensures |r| == 2 * |primary|
  {
    match mode
    case Color =>
      seq(2 * |primary|, i requires 0 <= i < 2 * |primary| =>
        if i % 6 < 3 then secondary[i / 6 * 3 + i % 6] else primary[i / 6 * 3 + i % 6 - 3])
    case Gray =>
      seq(2 * |primary|, i requires 0 <= i < 2 * |primary| => if i % 2 == 0 then secondary[i / 2] else primary[i / 2])
    case Lineart => MergedLine(primary, secondary)
  }

  lemma MergeColorAt(primary: seq<Pixels>, secondary: seq<Pixels>, pix: nat, c: nat)
    requires |primary| == |secondary| && |primary| % 3 == 0 && 3 * pix < |primary| && c < 3
    ensures Merge(Color, primary, secondary)[6 * pix + c] == secondary[3 * pix + c]
    ensures Merge(Color, primary, secondary)[6 * pix + 3 + c] == primary[3 * pix + c]
  {
    assert (6 * pix + c) / 6 == pix && (6 * pix + c) % 6 == c;
    assert (6 * pix + 3 + c) / 6 == pix && (6 * pix + 3 + c) % 6 == 3 + c;
  }

  lemma MergeGrayAt(primary: seq<Pixels>, secondary: seq<Pixels>, pix: nat)
    requires |primary| == |secondary| && pix < |primary|
    ensures Merge(Gray, primary, secondary)[2 * pix] == secondary[pix]
    ensures Merge(Gray, primary, secondary)[2 * pix + 1] == primary[pix]
  {
  }

  method MergeColor(out: array<Pixels>, first: seq<Pixels>, second: seq<Pixels>, maxpix: nat)
    requires |first| == |second| == 3 * maxpix && 2 * |first| <= out.Length
    modifies out
    ensures forall i | 0 <= i < 2 * |first| :: out[i] == Merge(Color, first, second)[i]
  {
    hide Merge;
    ghost var target := Merge(Color, first, second);
    for pix := 0 to maxpix
      invariant forall i | 0 <= i < 6 * pix :: out[i] == target[i]
    {
      MergeColorAt(first, second, pix, 0);
      MergeColorAt(first, second, pix, 1);
      MergeColorAt(first, second, pix, 2);
      out[6 * pix] := second[3 * pix];
      out[6 * pix + 1] := second[3 * pix + 1];
      out[6 * pix + 2] := second[3 * pix + 2];
      out[6 * pix + 3] := first[3 * pix];
      out[6 * pix + 4] := first[3 * pix + 1];
      out[6 * pix + 5] := first[3 * pix + 2];
    }
  }

  method MergeGray(out: array<Pixels>, first: seq<Pixels>, second: seq<Pixels>, maxpix: nat)
    requires |first| == |second| == maxpix && 2 * |first| <= out.Length
    modifies out
    ensures forall i | 0 <= i < 2 * |first| :: out[i] == Merge(Gray, first, second)[i]
  {
    hide Merge;
    ghost var target := Merge(Gray, first, second);
    for pix := 0 to maxpix
      invariant forall i | 0 <= i < 2 * pix :: out[i] == target[i]
    {
      MergeGrayAt(first, second, pix);
      out[2 * pix] := second[pix];
      out[2 * pix + 1] := first[pix];
    }
  }

  // ---------- A scan ----------

  /** The lines of both passes as the scanner sends them, half a picture line each. */
  datatype Scan = Scan(mode: Mode, half: nat, lines: nat, device: seq<seq<Pixels>>) {
    const bytesPerLine: nat := 2 * half

    ghost predicate Sound() {
      && half > 0 && (mode == Color ==> half % 3 == 0)
      && |device| == 2 * lines && forall k | 0 <= k < |device| :: |device[k]| == half
    }

    /** Line k of the picture: line k of the primary pass merged with line k of the secondary. */
    ghost function Image(): (r: seq<seq<Pixels>>)
      requires Sound()
      ensures |r| == lines && forall k | 0 <= k < lines :: |r[k]| == bytesPerLine
    {
      seq(lines, k requires 0 <= k < lines => Merge(mode, device[k], device[lines + k]))
    }

    ghost function Stream(): seq<Pixels>
      requires Sound()
    {
      Concat(Image(), lines)
    }

    /** Picture lines that are merged when n half lines are read. */
    function Merged(n: nat): nat {
      if n <= lines then 0 else n - lines
    }
  }

  /** Pixel x of picture line k comes from the secondary pass if it is even and from the primary one if it is odd,
      from the pixel half as far along. In colour it has three samples. */
  ghost predicate SeenAt(scan: Scan, k: nat, x: nat, c: nat, out: seq<Pixels>)
    requires scan.Sound() && k < scan.lines && scan.mode != Lineart
  {
    var line := if x % 2 == 0 then scan.device[scan.lines + k] else scan.device[k];
    var start := Span(k, 2 * scan.half);
    if scan.mode == Color then
      c < 3 && 3 * x + c < 2 * scan.half && start + 3 * x + c < |out| ==>
        out[start + 3 * x + c] == line[3 * (x / 2) + c]
    else
      x < 2 * scan.half && start + x < |out| ==> out[start + x] == line[x / 2]
  }

  /** In lineart a pixel is a bit, the highest bit of a byte being the leftmost one. */
  ghost predicate BitSeenAt(scan: Scan, k: nat, x: nat, out: seq<Pixels>)
    requires scan.Sound() && k < scan.lines
  {
    var line := if x % 2 == 0 then scan.device[scan.lines + k] else scan.device[k];
    x < 16 * scan.half && Span(k, 2 * scan.half) + x / 8 < |out| ==>
      ((out[Span(k, 2 * scan.half) + x / 8] >> (7 - x % 8)) & 1 == (line[x / 2 / 8] >> (7 - x / 2 % 8)) & 1)
  }

  ghost predicate Shows(scan: Scan, out: seq<Pixels>)
    requires scan.Sound()
  {
    if scan.mode == Lineart then
      forall k: nat, x: nat | k < scan.lines :: BitSeenAt(scan, k, x, out)
    else
      forall k: nat, x: nat, c: nat | k < scan.lines :: SeenAt(scan, k, x, c, out)
  }

  /** Whatever part of the stream is out shows the picture. */
  lemma StreamShows(scan: Scan, out: seq<Pixels>)
    requires scan.Sound() && out <= scan.Stream()
    ensures Shows(scan, out) && |scan.Stream()| == 2 * scan.half * scan.lines
  {
    hide SeenAt, BitSeenAt, Scan.Image, Scan.Stream;
    SpanIsProduct(scan.lines, scan.bytesPerLine);
    StreamIs(scan);
    ConcatLength(scan.Image(), scan.lines, scan.bytesPerLine);
    if scan.mode == Lineart {
      forall k: nat, x: nat | k < scan.lines
        ensures BitSeenAt(scan, k, x, out)
      {
        LineartSeen(scan, k, x, out);
      }
    } else {
      forall k: nat, x: nat, c: nat | k < scan.lines
        ensures SeenAt(scan, k, x, c, out)
      {
        SamplesSeen(scan, k, x, c, out);
      }
    }
  }

  lemma StreamIs(scan: Scan)
    requires scan.Sound()
    ensures scan.Stream() == Concat(scan.Image(), scan.lines)
  {
  }

  lemma ImageInStream(scan: Scan, k: nat, i: nat)
    requires scan.Sound() && k < scan.lines && i < scan.bytesPerLine
    ensures Span(k, scan.bytesPerLine) + i < |scan.Stream()|
    ensures scan.Stream()[Span(k, scan.bytesPerLine) + i] ==
            Merge(scan.mode, scan.device[k], scan.device[scan.lines + k])[i]
  {
    hide Concat, Merge;
    ConcatAt(scan.Image(), scan.lines, scan.bytesPerLine, k);
    var start := Span(k, scan.bytesPerLine);
    assert scan.Image()[k][i] == scan.Stream()[start..start + scan.bytesPerLine][i];
  }

  lemma SamplesSeen(scan: Scan, k: nat, x: nat, c: nat, out: seq<Pixels>)
    requires scan.Sound() && k < scan.lines && scan.mode != Lineart && out <= scan.Stream()
    ensures SeenAt(scan, k, x, c, out)
  {
    var primary, secondary := scan.device[k], scan.device[scan.lines + k];
    var start, pix := Span(k, scan.bytesPerLine), x / 2;
    if scan.mode == Gray && x < 2 * scan.half {
      ImageInStream(scan, k, x);
      MergeGrayAt(primary, secondary, pix);
      assert x == 2 * pix + x % 2;
    }
    if scan.mode == Color && c < 3 && 3 * x + c < 2 * scan.half {
      ImageInStream(scan, k, 3 * x + c);
      assert 3 * pix < scan.half;
      MergeColorAt(primary, secondary, pix, c);
      assert 3 * x + c == 6 * pix + 3 * (x % 2) + c;
    }
    hide Merge, Scan.Stream;
  }

  /** A pixel of a byte, as a number. */
  lemma BitValue(b: Pixels, k: nat)
    requires k < 8
    ensures (b >> (7 - k)) & 1 == if Bit(b, k) then 1 else 0
  {
    if k == 0 {
    } else if k == 1 {
    } else if k == 2 {
    } else if k == 3 {
    } else if k == 4 {
    } else if k == 5 {
    } else if k == 6 {
    } else {
    }
  }

  lemma MergedBit(primary: seq<Pixels>, secondary: seq<Pixels>, x: nat)
    requires |primary| == |secondary| && x < 16 * |primary|
    ensures var line := if x % 2 == 0 then secondary else primary;
            (MergedLine(primary, secondary)[x / 8] >> (7 - x % 8)) & 1 == (line[x / 2 / 8] >> (7 - x / 2 % 8)) & 1
  {
    hide MergedLine, Bit;
    var m := x / 2;
    MergedPixels(primary, secondary, m);
    if x % 2 == 0 {
      assert x == 2 * m;
    } else {
      assert x == 2 * m + 1;
    }
    BitValue(MergedLine(primary, secondary)[x / 8], x % 8);
    BitValue(secondary[m / 8], m % 8);
    BitValue(primary[m / 8], m % 8);
  }

  lemma LineartSeen(scan: Scan, k: nat, x: nat, out: seq<Pixels>)
    requires scan.Sound() && k < scan.lines && scan.mode == Lineart && out <= scan.Stream()
    ensures BitSeenAt(scan, k, x, out)
  {
    if x < 16 * scan.half {
      hide Merge, MergedLine, Scan.Stream;
      ImageInStream(scan, k, x / 8);
      MergeLineart(scan.device[k], scan.device[scan.lines + k]);
      MergedBit(scan.device[k], scan.device[scan.lines + k], x);
    }
  }

  lemma MergeLineart(primary: seq<Pixels>, secondary: seq<Pixels>)
    requires |primary| == |secondary|
    ensures Merge(Lineart, primary, secondary) == MergedLine(primary, secondary)
  {
  }

  // ---------- The temporary file ----------

  /** A file with a position, written and read by calls that may move less than they are asked to. */
  class TempFile {
    var contents: seq<Pixels>
    var pos: nat

    ghost predicate Valid()
      reads this
    {
      pos <= |contents|
    }

    constructor ()
      ensures Valid() && contents == [] && pos == 0
    {
      contents, pos := [], 0;
    }

    /** write(2): some of the bytes, at least one. */
    method Write(data: seq<Pixels>) returns (wres: nat)
      requires Valid() && data != [] && pos == |contents|
      modifies this
      ensures Valid() && 0 < wres <= |data| && contents == old(contents) + data[..wres] && pos == |contents|
    {
      wres :| 0 < wres <= |data|;
      contents := contents + data[..wres];
      pos := pos + wres;
    }

    /** read(2): some of the bytes, none at the end of the file. */
    method Read(n: nat) returns (data: seq<Pixels>)
      requires Valid() && n > 0
      modifies this`pos
      ensures Valid() && |data| <= n && pos == old(pos) + |data| && data == contents[old(pos)..pos]
      ensures data == [] <==> old(pos) == |contents|
    {
      var readres: nat :| readres <= n && pos + readres <= |contents| && (readres == 0 ==> pos == |contents|);
      data := contents[pos..pos + readres];
      pos := pos + readres;
    }

    /** The write loop of read_fb1200: all of the line ends up in the file. */
    method WriteAll(line: seq<Pixels>)
      requires Valid() && pos == |contents|
      modifies this
      ensures Valid() && contents == old(contents) + line && pos == |contents|
    {
      var nwritten: nat, remain: nat := 0, |line|;
      while remain > 0
        invariant nwritten + remain == |line|
        invariant Valid() && contents == old(contents) + line[..nwritten] && pos == |contents|
      {
        var wres := Write(line[nwritten..]);
        assert line[..nwritten] + line[nwritten..][..wres] == line[..nwritten + wres];
        remain := remain - wres;
        nwritten := nwritten + wres;
      }
      assert line[..nwritten] == line;
    }

    /** The read loop of read_fb1200, up to the error return for a file that ends too soon. */
    method ReadAll(n: nat) returns (line: seq<Pixels>, premature: bool)
      requires Valid()
      modifies this`pos
      ensures Valid()
      ensures premature <==> old(pos) + n > |contents|
      ensures !premature ==> pos == old(pos) + n && line == contents[old(pos)..pos]
    {
      line, premature := [], false;
      var remain: nat := n;
      while remain > 0
        invariant Valid() && |line| + remain == n && pos == old(pos) + |line| && line == contents[old(pos)..pos]
      {
        var data := Read(remain);
        if data == [] {
          return line, true;
        }
        remain := remain - |data|;
        line := line + data;
      }
    }
  }

  // ---------- The reader ----------

  /** The phase test of read_fb1200, bytes_to_read against half the picture's bytes, in half lines. */
  lemma PhaseTest(left: nat, lines: nat, half: nat)
    requires half > 0
    ensures Span(left, half) > 2 * half * lines / 2 <==> left > lines
  {
    SpanIsProduct(left, half);
    assert 2 * half * lines == 2 * (lines * half);
    MulOrder(left, lines, half);
    if left > lines {
      MulMonotone(lines + 1, left, half);
      assert (lines + 1) * half == lines * half + half;
    }
  }

  class Reader {
    const scan: Scan
    const tables: Tables
    const tmp: TempFile
    const inbuffer: array<Pixels>
    const outbuffer: array<Pixels>
    var bytesToRead: nat
    var bufPos: nat
    var bufUsed: nat
    var scanning: bool
    /** Half lines the scanner has sent. */
    var devPos: nat
    /** Everything the frontend has been given so far. */
    ghost var delivered: seq<Pixels>

    ghost predicate Buffers()
      reads tables.primaryHigh, tables.secondaryHigh, tables.primaryLow, tables.secondaryLow
    {
      && scan.Sound() && tables.Built() && inbuffer.Length == outbuffer.Length == scan.bytesPerLine
      && inbuffer != outbuffer && Apart(outbuffer) && Apart(inbuffer)
    }

    ghost predicate Apart(buf: array<Pixels>) {
      && buf != tables.primaryHigh && buf != tables.secondaryHigh
      && buf != tables.primaryLow && buf != tables.secondaryLow
    }

    /** In the first phase the file ends with the last primary line stored; in the second it holds
        them all and stands at the line to be merged next. */
    ghost predicate Phase()
      requires scan.Sound()
      reads this, tmp
    {
      && devPos <= 2 * scan.lines && tmp.Valid()
      && bytesToRead == Span(2 * scan.lines - devPos, scan.half)
      && tmp.contents == Concat(scan.device, if devPos <= scan.lines then devPos else scan.lines)
      && tmp.pos == if devPos < scan.lines then |tmp.contents| else Span(devPos - scan.lines, scan.half)
    }

    /** The frontend's bytes and the unread rest of the output buffer are the lines merged so far. */
    ghost predicate Conserved(stream: seq<Pixels>)
      requires scan.Sound()
      reads this, outbuffer
    {
      && bufPos <= bufUsed <= outbuffer.Length && delivered <= stream
      && |delivered| + bufUsed - bufPos == Span(scan.Merged(devPos), scan.bytesPerLine) <= |stream|
      && forall i | bufPos <= i < bufUsed :: outbuffer[i] == stream[|delivered| + i - bufPos]
    }

    ghost predicate Valid(stream: seq<Pixels>)
      reads this, tmp, outbuffer
      reads tables.primaryHigh, tables.secondaryHigh, tables.primaryLow, tables.secondaryLow
    {
      Buffers() && stream == scan.Stream() && Phase() && Conserved(stream)
    }

    constructor (scan: Scan, tables: Tables)
      requires scan.Sound() && tables.Built()
      ensures Valid(scan.Stream()) && this.scan == scan && this.tables == tables
      ensures fresh(tmp) && fresh(inbuffer) && fresh(outbuffer) && scanning && devPos == 0 && delivered == []
    {
      this.scan, this.tables := scan, tables;
      tmp := new TempFile();
      inbuffer := new Pixels[scan.bytesPerLine];
      outbuffer := new Pixels[scan.bytesPerLine];
      bytesToRead, bufPos, bufUsed, scanning, devPos := scan.bytesPerLine * scan.lines, 0, 0, true, 0;
      delivered := [];
      new;
      PictureBytes(scan);
      assert Concat(scan.device, 0) == [] && Span(0, scan.half) == Span(0, scan.bytesPerLine) == 0;
      hide Tables.Built, Scan.Stream, Concat, Span;
      assert Buffers() && Phase() && Conserved(scan.Stream());
    }

    static lemma PictureBytes(scan: Scan)
      requires scan.Sound()
      ensures scan.bytesPerLine * scan.lines == Span(2 * scan.lines, scan.half)
    {
      SpanIsProduct(2 * scan.lines, scan.half);
      assert scan.bytesPerLine * scan.lines == 2 * scan.lines * scan.half;
    }

    /** The device hands over the next half line. */
    method ReadHalf() returns (nread: nat)
      requires Buffers() && devPos < 2 * scan.lines && bytesToRead == Span(2 * scan.lines - devPos, scan.half)
      modifies this`devPos, inbuffer
      ensures Buffers() && devPos == old(devPos) + 1 && nread == scan.half
      ensures inbuffer[..scan.half] == scan.device[old(devPos)]
      ensures bytesToRead == nread + Span(2 * scan.lines - devPos, scan.half)
    {
      hide Tables.Built;
      nread := scan.bytesPerLine / 2;
      assert nread <= bytesToRead;
      var line := scan.device[devPos];
      for i := 0 to nread
        invariant forall k | 0 <= k < i :: inbuffer[k] == line[k]
        modifies inbuffer
      {
        inbuffer[i] := line[i];
      }
      devPos := devPos + 1;
    }

    /** The first phase: a primary line into the file, and back to its start after the last one. */
    method Store(ghost stream: seq<Pixels>)
      requires Valid(stream) && devPos < scan.lines && bufPos >= bufUsed
      modifies this`devPos, this`bytesToRead, tmp, inbuffer
      ensures Valid(stream) && devPos == old(devPos) + 1
    {
      hide Tables.Built, Scan.Stream;
      var nread := ReadHalf();
      tmp.WriteAll(inbuffer[..nread]);
      bytesToRead := bytesToRead - nread;
      PhaseTest(2 * scan.lines - devPos, scan.lines, scan.half);
      if bytesToRead <= scan.bytesPerLine * scan.lines / 2 {
        tmp.pos := 0;
      }
    }

    /** The three merges, by scan mode. */
    method MergeInto(first: seq<Pixels>, second: seq<Pixels>)
      requires Buffers() && |first| == |second| == scan.half
      modifies outbuffer
      ensures Buffers()
      ensures forall i | 0 <= i < scan.bytesPerLine :: outbuffer[i] == Merge(scan.mode, first, second)[i]
    {
      if scan.mode == Color {
        MergeColor(outbuffer, first, second, scan.half / 3);
      } else if scan.mode == Gray {
        MergeGray(outbuffer, first, second, scan.half);
      } else {
        tables.MergeInto(outbuffer, first, second);
      }
    }

    /** Line m of the picture in the stream. */
    lemma LineInStream(m: nat, line: seq<Pixels>, stream: seq<Pixels>)
      requires scan.Sound() && m < scan.lines && stream == scan.Stream()
      requires line == Merge(scan.mode, scan.device[m], scan.device[scan.lines + m])
      ensures Span(m + 1, scan.bytesPerLine) <= |stream| == Span(scan.lines, scan.bytesPerLine)
      ensures forall i | 0 <= i < |line| :: line[i] == stream[Span(m, scan.bytesPerLine) + i]
    {
      ConcatAt(scan.Image(), scan.lines, scan.bytesPerLine, m);
      var start := Span(m, scan.bytesPerLine);
      assert line == scan.Image()[m] == stream[start..start + scan.bytesPerLine];
    }

    /** The file holds primary line m where the second phase looks for it. */
    lemma LineInFile(m: nat)
      requires scan.Sound() && m < scan.lines
      ensures Span(m, scan.half) + scan.half <= |Concat(scan.device, scan.lines)|
      ensures Concat(scan.device, scan.lines)[Span(m, scan.half)..Span(m, scan.half) + scan.half] == scan.device[m]
    {
      ConcatAt(scan.device, scan.lines, scan.half, m);
    }

    /** A secondary line from the scanner, and its primary line from the file, which never ends too soon. */
    method FetchPair() returns (first: seq<Pixels>, second: seq<Pixels>)
      requires Buffers() && Phase() && scan.lines <= devPos < 2 * scan.lines
      modifies this`devPos, this`bytesToRead, tmp, inbuffer
      ensures Buffers() && Phase() && devPos == old(devPos) + 1
      ensures first == scan.device[old(devPos) - scan.lines] && second == scan.device[old(devPos)]
    {
      hide Tables.Built, Concat, Apart;
      LineInFile(devPos - scan.lines);
      var nread := ReadHalf();
      second := inbuffer[..nread];
      var premature;
      first, premature := tmp.ReadAll(nread);
      assert !premature;
      bytesToRead := bytesToRead - nread;
    }

    /** The second phase: a secondary line from the scanner, merged with its primary line. */
    method MergeNext(ghost stream: seq<Pixels>)
      requires Valid(stream) && scan.lines <= devPos < 2 * scan.lines && bufPos == bufUsed
      modifies this`devPos, this`bytesToRead, this`bufPos, this`bufUsed, tmp, inbuffer, outbuffer
      ensures Valid(stream) && devPos == old(devPos) + 1 && bufPos < bufUsed
    {
      hide Tables.Built, Scan.Image, Scan.Stream, Concat, Merge;
      ghost var m := devPos - scan.lines;
      ghost var line := Merge(scan.mode, scan.device[m], scan.device[scan.lines + m]);
      LineInStream(m, line, stream);
      var first, second := FetchPair();
      bufUsed := scan.bytesPerLine;
      MergeInto(first, second);
      assert forall i | 0 <= i < bufUsed :: outbuffer[i] == line[i];
      bufPos := 0;
      assert forall i | 0 <= i < bufUsed :: outbuffer[i] == stream[|delivered| + i];
    }

    /** read_fb1200. */
    method Read(buf: array<Pixels>, maxLen: nat, ghost stream: seq<Pixels>) returns (status: Status, len: nat)
      requires Valid(stream) && maxLen <= buf.Length && buf.Length > 0
      requires buf != inbuffer && buf != outbuffer && Apart(buf)
      modifies this`devPos, this`bytesToRead, this`bufPos, this`bufUsed, this`scanning, this`delivered
      modifies tmp, inbuffer, outbuffer, buf
      ensures Valid(stream) && len <= maxLen && delivered == old(delivered) + buf[..len]
      ensures status == Eof <==> old(bytesToRead) == 0 && old(bufPos) == old(bufUsed)
      ensures status == Eof ==> delivered == stream && devPos == 2 * scan.lines
      ensures status == Cancelled ==> !old(scanning)
      ensures status == Good ==> scanning
      ensures status == Good && old(devPos) < scan.lines ==> len == 0 && devPos == old(devPos) + 1
      ensures status == Good && old(devPos) >= scan.lines && maxLen > 0 ==> len > 0
      ensures status == Good && old(devPos) >= scan.lines ==> len == maxLen || bufPos == bufUsed
    {
      hide Tables.Built, Scan.Stream;
      len := 0;
      Ended(stream);
      if bytesToRead == 0 && bufPos == bufUsed {
        scanning := false;
        return Eof, 0;
      }
      if !scanning {
        return Cancelled, 0;
      }
      if bufPos >= bufUsed && bytesToRead > 0 {
        PhaseTest(2 * scan.lines - devPos, scan.lines, scan.half);
        if bytesToRead > scan.bytesPerLine * scan.lines / 2 {
          Store(stream);
          buf[0] := 0;
          return Good, 0;
        }
        MergeNext(stream);
      }
      if maxLen > 0 && bufPos < bufUsed {
        len := TakeOut(buf, maxLen, stream);
      }
      status := Good;
    }

    /** Nothing is left to read exactly when both passes are in. */
    lemma Ended(stream: seq<Pixels>)
      requires Valid(stream)
      ensures bytesToRead == 0 <==> devPos == 2 * scan.lines
      ensures devPos == 2 * scan.lines && bufPos == bufUsed ==> delivered == stream
      ensures devPos < scan.lines ==> bufPos == bufUsed
    {
      ConcatLength(scan.Image(), scan.lines, scan.bytesPerLine);
    }

    method TakeOut(buf: array<Pixels>, maxLen: nat, ghost stream: seq<Pixels>) returns (ncopy: nat)
      requires Valid(stream) && maxLen <= buf.Length && bufPos < bufUsed
      requires buf != inbuffer && buf != outbuffer && Apart(buf)
      modifies this`bufPos, this`delivered, buf
      ensures Valid(stream) && ncopy <= maxLen && delivered == old(delivered) + buf[..ncopy]
      ensures maxLen > 0 ==> ncopy > 0
      ensures ncopy == maxLen || bufPos == bufUsed
    {
      hide Tables.Built, Scan.Stream;
      ncopy := bufUsed - bufPos;
      if ncopy > maxLen {
        ncopy := maxLen;
      }
      CopyBytes(buf, 0, outbuffer, bufPos, ncopy);
      bufPos := bufPos + ncopy;
      delivered := delivered + buf[..ncopy];
    }
  }

  /** A whole two-pass scan under any sequence of requests. The frontend is given the merged picture
      from its first byte on, however it slices its requests, and exactly that by the time it is
      told the end; by then the scanner has sent both passes. When no request is empty, only the
      calls that store a primary line and the last one hand out nothing. */
  method ScanPicture(scan: Scan, requests: seq<nat>) returns (out: seq<Pixels>, halfLines: nat, eof: bool)
    requires scan.Sound()
    ensures out <= scan.Stream() && halfLines <= 2 * scan.lines
    ensures eof ==> out == scan.Stream() && halfLines == 2 * scan.lines
    ensures (forall k | 0 <= k < |requests| :: requests[k] > 0) ==> eof || |out| + scan.lines >= |requests|
    ensures |out| <= Total(requests, |requests|)
    ensures Shows(scan, out) && (eof ==> |out| == 2 * scan.half * scan.lines)
  {
    hide Scan.Stream, Tables.Built, Shows;
    var tables := new Tables();
    var r := new Reader(scan, tables);
    ghost var stream := scan.Stream();
    out, eof := [], false;
    var k := 0;
    while k < |requests| && !eof
      invariant r.scan == scan && r.tables == tables && r.Valid(stream) && out == r.delivered && k <= |requests|
      invariant fresh(r) && fresh(r.tmp) && fresh(r.inbuffer) && fresh(r.outbuffer)
      invariant eof ==> out == stream && r.devPos == 2 * scan.lines
      invariant !eof ==> r.scanning
      invariant (forall j | 0 <= j < |requests| :: requests[j] > 0) ==>
                  eof || |out| + (if r.devPos < scan.lines then r.devPos else scan.lines) >= k
      invariant |out| <= Total(requests, k)
      decreases |requests| - k, if eof then 0 else 1
    {
      var buf := new Pixels[requests[k] + 1];
      var status, len := r.Read(buf, requests[k], stream);
      out := out + buf[..len];
      eof := status == Eof;
      k := k + 1;
    }
    TotalMonotone(requests, k, |requests|);
    StreamShows(scan, out);
    halfLines := r.devPos;
  }
}
