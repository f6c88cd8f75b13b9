/** Line assembly of the Artec backend: the red, green and blue sensors of a one-pass scanner
    sit `lineOffset` lines apart, so the planes of one picture line arrive in three different
    device lines. A FIFO of 2 * lineOffset row buffers brings them together again. */
module ArtecLines {
  import opened Streams

  /** The hardware flags that decide the byte order of a device line:
      RRR..GGG..BBB.. or RGBRGB.., and whether the line arrives right to left. */
  datatype Layout = Layout(charShift: bool, revLr: bool)

  ghost predicate Uniform(lines: seq<seq<Byte>>, n: nat) {
    forall k | 0 <= k < |lines| :: |lines[k]| == n
  }

  // ---------- Pixel order ----------

  /** RRR..GGG..BBB.. to RGBRGB... */
  function PlanarToPixels(line: seq<Byte>, w: nat): (r: seq<Byte>)
    requires |line| == 3 * w
    ensures |r| == |line|
  {
    Interleave(line[..w], line[w..2 * w], line[2 * w..], w)
  }

  lemma PlanarToPixelsAt(line: seq<Byte>, w: nat, p: nat)
    requires |line| == 3 * w && p < w
    ensures var out := PlanarToPixels(line, w);
            out[3 * p] == line[p] && out[3 * p + 1] == line[p + w] && out[3 * p + 2] == line[p + 2 * w]
  {
    InterleaveAt(line[..w], line[w..2 * w], line[2 * w..], w, p);
  }

  /** The first w pixels from right to left, each pixel keeping its byte order. */
  function Mirrored(line: seq<Byte>, w: nat): (r: seq<Byte>)
    requires 3 * w <= |line|
    ensures |r| == 3 * w
  {
    seq(3 * w, i requires 0 <= i < 3 * w => line[3 * (w - 1 - i / 3) + i % 3])
  }

  lemma MirroredAt(line: seq<Byte>, w: nat, p: nat)
    requires 3 * w <= |line| && p < w
    ensures var out, q := Mirrored(line, w), w - 1 - p;
            out[3 * p] == line[3 * q] && out[3 * p + 1] == line[3 * q + 1] && out[3 * p + 2] == line[3 * q + 2]
  {
  }

  /** dst with byte c of each of the first w pixels taken from src. */
  function WithColumn(dst: seq<Byte>, src: seq<Byte>, c: nat, w: nat): (r: seq<Byte>)
    requires c < 3 && 3 * w <= |dst| && 3 * w <= |src|
    ensures |r| == |dst|
  {
    if w == 0 then dst else WithColumn(dst, src, c, w - 1)[3 * (w - 1) + c := src[3 * (w - 1) + c]]
  }

  lemma {:induction false} WithColumnAt(dst: seq<Byte>, src: seq<Byte>, c: nat, w: nat, p: nat, d: nat)
    requires c < 3 && d < 3 && 3 * w <= |dst| && 3 * w <= |src| && 3 * p + d < |dst|
    ensures WithColumn(dst, src, c, w)[3 * p + d] == if p < w && d == c then src[3 * p + d] else dst[3 * p + d]
  {
    if w > 0 {
      WithColumnAt(dst, src, c, w - 1, p, d);
    }
  }

  // ---------- What the delay line should emit ----------

  /** Picture line k, gathered from device lines k, k + offset and k + 2 * offset of w pixels. */
  function Realigned(lines: seq<seq<Byte>>, w: nat, layout: Layout, offset: nat, k: nat): (r: seq<Byte>)
    requires Uniform(lines, 3 * w) && k + 2 * offset < |lines|
    ensures |r| == 3 * w
  {
    var oldest, middle, newest := lines[k], lines[k + offset], lines[k + 2 * offset];
    WithBlue(RedGreen(oldest, middle, w, layout), newest, w, layout)
  }

  /** The red and green of a picture line, before its blue has arrived. */
  function RedGreen(oldest: seq<Byte>, middle: seq<Byte>, w: nat, layout: Layout): (r: seq<Byte>)
    requires |oldest| == |middle| == 3 * w
    ensures |r| == if layout.charShift then 2 * w else 3 * w
  {
    if layout.charShift then oldest[..w] + middle[w..2 * w] else WithColumn(oldest, middle, 1, w)
  }

  function WithBlue(redGreen: seq<Byte>, newest: seq<Byte>, w: nat, layout: Layout): seq<Byte>
    requires |newest| == 3 * w && |redGreen| == if layout.charShift then 2 * w else 3 * w
  {
    if layout.charShift then redGreen + newest[2 * w..]
    else WithColumn(redGreen, newest, if layout.revLr then 0 else 2, w)
  }

  lemma RealignedIs(before: seq<seq<Byte>>, line: seq<Byte>, w: nat, layout: Layout, offset: nat)
    requires Uniform(before, 3 * w) && |line| == 3 * w && |before| >= 2 * offset > 0
    ensures Uniform(before + [line], 3 * w)
    ensures Realigned(before + [line], w, layout, offset, |before| - 2 * offset)
         == WithBlue(RedGreen(before[|before| - 2 * offset], before[|before| - offset], w, layout), line, w, layout)
  {
  }

  /** Without an offset the line comes out as it went in. */
  lemma RealignedAtOffsetZero(lines: seq<seq<Byte>>, w: nat, layout: Layout)
    requires Uniform(lines, 3 * w) && lines != []
    ensures Realigned(lines, w, layout, 0, |lines| - 1) == lines[|lines| - 1]
  {
    var line := lines[|lines| - 1];
    WithColumnSame(line, 1, w);
    WithColumnSame(line, if layout.revLr then 0 else 2, w);
    assert line[..w] + line[w..2 * w] + line[2 * w..] == line;
  }

  lemma {:induction false} WithColumnSame(line: seq<Byte>, c: nat, w: nat)
    requires c < 3 && 3 * w <= |line|
    ensures WithColumn(line, line, c, w) == line
  {
    if w > 0 {
      WithColumnSame(line, c, w - 1);
    }
  }

  /** What artec_sane_read does to a realigned line before handing it on. */
  function Finished(layout: Layout, line: seq<Byte>, w: nat): (r: seq<Byte>)
    requires |line| == 3 * w
    ensures |r| == |line|
  {
    var pixels := if layout.charShift then PlanarToPixels(line, w) else line;
    if layout.revLr then Mirrored(pixels, w) else pixels
  }

  /** The point of the whole exercise, for planar device lines. Pixel p of picture line k takes its
      red sample from device line k, its green from line k + offset and its blue from line
      k + 2 * offset, at pixel p of each plane (counted from the right end on a reversed scanner). */
  lemma PlanarPixelSources(lines: seq<seq<Byte>>, w: nat, layout: Layout, offset: nat, k: nat, p: nat)
    requires Uniform(lines, 3 * w) && k + 2 * offset < |lines| && p < w && layout.charShift
    ensures var q := if layout.revLr then w - 1 - p else p;
            var out := Finished(layout, Realigned(lines, w, layout, offset, k), w);
            out[3 * p] == lines[k][q] && out[3 * p + 1] == lines[k + offset][w + q]
            && out[3 * p + 2] == lines[k + 2 * offset][2 * w + q]
  {
    hide Realigned, PlanarToPixels, Mirrored;
    var q := if layout.revLr then w - 1 - p else p;
    var line := Realigned(lines, w, layout, offset, k);
    if layout.revLr {
      MirroredAt(PlanarToPixels(line, w), w, p);
    }
    PlanarToPixelsAt(line, w, q);
    PlanarSources(lines, w, layout, offset, k, q);
  }

  /** The same for device lines that come pixel by pixel; a reversed scanner sends the bytes of
      each pixel in reversed order too, so there the oldest sample stays last. */
  lemma InterleavedPixelSources(lines: seq<seq<Byte>>, w: nat, layout: Layout, offset: nat, k: nat, p: nat)
    requires Uniform(lines, 3 * w) && k + 2 * offset < |lines| && p < w && !layout.charShift
    ensures var out := Finished(layout, Realigned(lines, w, layout, offset, k), w);
            if layout.revLr then
              out[3 * p] == lines[k + 2 * offset][3 * (w - 1 - p)]
              && out[3 * p + 1] == lines[k + offset][3 * (w - 1 - p) + 1]
              && out[3 * p + 2] == lines[k][3 * (w - 1 - p) + 2]
            else
              out[3 * p] == lines[k][3 * p] && out[3 * p + 1] == lines[k + offset][3 * p + 1]
              && out[3 * p + 2] == lines[k + 2 * offset][3 * p + 2]
  {
    if layout.revLr {
      MirroredAt(Realigned(lines, w, layout, offset, k), w, p);
      InterleavedSources(lines, w, layout, offset, k, w - 1 - p);
    } else {
      InterleavedSources(lines, w, layout, offset, k, p);
    }
  }

  lemma PlanarSources(lines: seq<seq<Byte>>, w: nat, layout: Layout, offset: nat, k: nat, q: nat)
    requires Uniform(lines, 3 * w) && k + 2 * offset < |lines| && q < w && layout.charShift
    ensures var line := Realigned(lines, w, layout, offset, k);
            line[q] == lines[k][q] && line[w + q] == lines[k + offset][w + q]
            && line[2 * w + q] == lines[k + 2 * offset][2 * w + q]
  {
  }

  lemma InterleavedSources(lines: seq<seq<Byte>>, w: nat, layout: Layout, offset: nat, k: nat, q: nat)
    requires Uniform(lines, 3 * w) && k + 2 * offset < |lines| && q < w && !layout.charShift
    ensures var line := Realigned(lines, w, layout, offset, k);
            var (outer, last) := if layout.revLr then (k + 2 * offset, k) else (k, k + 2 * offset);
            line[3 * q] == lines[outer][3 * q] && line[3 * q + 1] == lines[k + offset][3 * q + 1]
            && line[3 * q + 2] == lines[last][3 * q + 2]
  {
    var greened := WithColumn(lines[k], lines[k + offset], 1, w);
    var c := if layout.revLr then 0 else 2;
    WithColumnAt(lines[k], lines[k + offset], 1, w, q, 0);
    WithColumnAt(lines[k], lines[k + offset], 1, w, q, 1);
    WithColumnAt(lines[k], lines[k + offset], 1, w, q, 2);
    WithColumnAt(greened, lines[k + 2 * offset], c, w, q, 0);
    WithColumnAt(greened, lines[k + 2 * offset], c, w, q, 1);
    WithColumnAt(greened, lines[k + 2 * offset], c, w, q, 2);
  }

  /** artec_line_rgb_to_byte_rgb: in place, from a copy. */
  method LineRgbToByteRgb(data: array<Byte>, len: nat)
    requires data.Length == 3 * len
    modifies data
    ensures data[..] == PlanarToPixels(old(data[..]), len)
  {
    hide PlanarToPixels;
    var tmp := data[..];
    ghost var target := PlanarToPixels(tmp, len);
    var to := 0;
    for count := 0 to len
      invariant to == 3 * count
      invariant forall i | 0 <= i < to :: data[i] == target[i]
    {
      PlanarToPixelsAt(tmp, len, count);
      data[to] := tmp[count];
      data[to + 1] := tmp[count + len];
      data[to + 2] := tmp[count + len * 2];
      to := to + 3;
    }
  }

  /** artec_reverse_line, the RGB branch: the pixels of a copy are laid down from the right end. */
  method ReverseLine(data: array<Byte>, ghost w: nat)
    requires data.Length == 3 * w
    modifies data
    ensures data[..] == Mirrored(old(data[..]), w)
  {
    hide Mirrored;
    var len := data.Length;
    var tmp := data[..];
    ghost var target := Mirrored(tmp, w);
    ghost var p := 0;
    var from := 0;
    var to := len - 3;
    while to >= 0
      invariant 0 <= p <= w && from == 3 * p && to == len - 3 - from
      invariant forall i | to + 3 <= i < len :: data[i] == target[i]
    {
      MirroredAt(tmp, w, w - 1 - p);
      data[to + 0] := tmp[from + 0];
      data[to + 1] := tmp[from + 1];
      data[to + 2] := tmp[from + 2];
      to := to - 3;
      from := from + 3;
      p := p + 1;
    }
  }

  /** The pointer loops of artec_buffer_line_offset that move byte c of every pixel. */
  method CopyColumn(dst: array<Byte>, src: array<Byte>, c: nat, width: nat)
    requires dst != src && c < 3 && 3 * width <= dst.Length && 3 * width <= src.Length
    modifies dst
    ensures dst[..] == WithColumn(old(dst[..]), src[..], c, width)
  {
    var at := c;
    for count := 0 to width
      invariant at == 3 * count + c
      invariant dst[..] == WithColumn(old(dst[..]), src[..], c, count)
    {
      dst[at] := src[at];
      at := at + 3;
    }
  }

  // ---------- The delay line ----------

  lemma TurnedAround<T>(s: seq<T>)
    requires s != []
    ensures multiset(s[1..] + [s[0]]) == multiset(s)
  {
    assert s == [s[0]] + s[1..];
  }

  /** The static buffers of artec_buffer_line_offset. */
  class DelayLine {
    var tmpLineBuf: array?<Byte>
    var lineBuffer: array<array<Byte>>
    var rBufLines: nat
    var gBufLines: nat
    var width: nat
    var curLine: nat

    /** Every line put in since the buffers were allocated. */
    ghost var fed: seq<seq<Byte>>
    /** The row buffers that were allocated. */
    ghost var rows: multiset<array<Byte>>
    ghost var Repr: set<object>

    ghost predicate Idle()
      reads this
    {
      tmpLineBuf == null && fed == [] && Repr == {this}
    }

    /** However often the pointers have been turned, they are the allocated rows, each exactly once. */
    ghost predicate Allocated()
      reads this, Repr
    {
      && this in Repr && tmpLineBuf != null && tmpLineBuf in Repr && lineBuffer in Repr
      && tmpLineBuf.Length == 3 * width > 0
      && lineBuffer.Length == rBufLines == 2 * gBufLines
      && multiset(lineBuffer[..]) == rows
      && (forall i | 0 <= i < rBufLines ::
            lineBuffer[i] in Repr && lineBuffer[i] != tmpLineBuf && lineBuffer[i].Length == 3 * width)
      && (forall i, j | 0 <= i < j < rBufLines :: lineBuffer[i] != lineBuffer[j])
    }

    /** Position i of the FIFO holds the line that was put in rBufLines - i lines ago. */
    ghost predicate Holds()
      requires Allocated()
      reads this, Repr
    {
      && curLine == |fed| && Uniform(fed, 3 * width)
      && forall i | 0 <= i < rBufLines && curLine + i >= rBufLines ::
           lineBuffer[i][..] == fed[curLine + i - rBufLines]
    }

    ghost predicate Valid()
      reads this, Repr
    {
      Idle() || (Allocated() && Holds())
    }

    constructor ()
      ensures Idle() && fresh(Repr)
    {
      tmpLineBuf := null;
      lineBuffer := new array<Byte>[0];
      fed, rows, Repr := [], multiset{}, {this};
    }

    /** artec_buffer_line_offset_free. */
    method Free()
      modifies this
      ensures Idle()
    {
      tmpLineBuf := null;
      fed, rows, Repr := [], multiset{}, {this};
    }

    /** The rows the set-up takes from malloc, and the pointers to them. */
    static method NewRows(n: nat, len: nat) returns (pointers: array<array<Byte>>, ghost owned: set<object>)
      ensures fresh(pointers) && fresh(owned) && pointers in owned && pointers.Length == n
      ensures forall i | 0 <= i < n :: pointers[i] in owned && pointers[i].Length == len
      ensures forall i, j | 0 <= i < j < n :: pointers[i] != pointers[j]
    {
      var made: seq<array<Byte>> := [];
      owned := {};
      for count := 0 to n
        invariant |made| == count && fresh(owned)
        invariant forall i | 0 <= i < count :: made[i] in owned && made[i].Length == len
        invariant forall i, j | 0 <= i < j < count :: made[i] != made[j]
      {
        var row := new Byte[len];
        made := made + [row];
        owned := owned + {row};
      }
      pointers := new array<Byte>[n](i requires 0 <= i < |made| => made[i]);
      owned := owned + {pointers};
    }

    /** The lazy set-up at the head of artec_buffer_line_offset. */
    method Allocate(lineOffset: nat, ghost w: nat, len: nat)
      requires Idle() && len == 3 * w > 0
      modifies this
      ensures Allocated() && Holds() && fresh(Repr - {this}) && fed == []
      ensures width == w && gBufLines == lineOffset
    {
      ghost var owned;
      width := len / 3;
      curLine := 0;
      tmpLineBuf := new Byte[len];
      rBufLines := lineOffset * 2;
      gBufLines := lineOffset;
      var pointers;
      pointers, owned := NewRows(lineOffset * 2, len);
      lineBuffer := pointers;
      rows := multiset(pointers[..]);
      Repr := owned + {this, tmpLineBuf};
      assert curLine == |fed| == 0 && Uniform(fed, 3 * width);
    }

    /** Out of the row of the oldest line and the row of the line between: red and green. */
    static method CopyOut(layout: Layout, tmp: array<Byte>, first: array<Byte>, between: array<Byte>, w: nat)
      requires tmp.Length == first.Length == between.Length == 3 * w && tmp != first && tmp != between
      modifies tmp
      ensures RedGreen(first[..], between[..], w, layout) <= tmp[..]
    {
      if layout.charShift {
        CopyBytes(tmp, 0, first, 0, w);
        CopyBytes(tmp, w, between, w, w);
      } else {
        CopyBytes(tmp, 0, first, 0, 3 * w);
        assert tmp[..] == first[..];
        CopyColumn(tmp, between, 1, w);
      }
    }

    /** Into the newest line, whose blue stays (or, pixel by pixel, is fetched first). */
    static method CopyBack(layout: Layout, tmp: array<Byte>, data: array<Byte>, w: nat, ghost redGreen: seq<Byte>)
      requires tmp.Length == data.Length == 3 * w && tmp != data
      requires |redGreen| == (if layout.charShift then 2 * w else 3 * w) && redGreen <= tmp[..]
      modifies tmp, data
      ensures data[..] == WithBlue(redGreen, old(data[..]), w, layout)
    {
      if layout.charShift {
        CopyBytes(data, 0, tmp, 0, 2 * w);
      } else {
        assert tmp[..] == redGreen;
        CopyColumn(tmp, data, if layout.revLr then 0 else 2, w);
        CopyBytes(data, 0, tmp, 0, 3 * w);
        assert data[..] == tmp[..];
      }
    }

    /** Moves every pointer one position down and the first one to the end. */
    static method TurnPointers(pointers: array<array<Byte>>, ghost rows: multiset<array<Byte>>)
      requires pointers.Length > 0 && multiset(pointers[..]) == rows
      modifies pointers
      ensures forall i | 0 <= i < pointers.Length - 1 :: pointers[i] == old(pointers[i + 1])
      ensures pointers[pointers.Length - 1] == old(pointers[0])
      ensures multiset(pointers[..]) == rows
    {
      var first := pointers[0];
      for count := 0 to pointers.Length - 1
        invariant forall i | 0 <= i < count :: pointers[i] == old(pointers[i + 1])
        invariant forall i | count <= i < pointers.Length :: pointers[i] == old(pointers[i])
        modifies pointers
      {
        pointers[count] := pointers[count + 1];
      }
      pointers[pointers.Length - 1] := first;
      assert pointers[..] == old(pointers[..])[1..] + [first];
      TurnedAround(old(pointers[..]));
    }

    /** Puts a line in at the end of the FIFO, over the row of the oldest line. */
    method Insert(data: array<Byte>)
      requires Allocated() && Holds() && rBufLines > 0 && data !in Repr && data.Length == 3 * width
      modifies Repr
      ensures Allocated() && Holds() && Repr == old(Repr) && rows == old(rows)
      ensures tmpLineBuf == old(tmpLineBuf) && width == old(width)
      ensures tmpLineBuf[..] == old(tmpLineBuf[..]) && gBufLines == old(gBufLines)
      ensures fed == old(fed) + [data[..]]
    {
      TurnPointers(lineBuffer, rows);
      curLine := curLine + 1;
      fed := fed + [data[..]];
      var newest := lineBuffer[rBufLines - 1];
      CopyBytes(newest, 0, data, 0, data.Length);
      assert newest[..] == data[..];
    }

    method FetchOldest(layout: Layout)
      requires Allocated() && Holds() && curLine >= rBufLines > 0
      modifies tmpLineBuf
      ensures Allocated() && Holds()
      ensures RedGreen(fed[curLine - rBufLines], fed[curLine - gBufLines], width, layout) <= tmpLineBuf[..]
    {
      assert lineBuffer[0][..] == fed[curLine - rBufLines];
      assert lineBuffer[gBufLines][..] == fed[curLine - gBufLines];
      CopyOut(layout, tmpLineBuf, lineBuffer[0], lineBuffer[gBufLines], width);
    }

    method GiveBack(layout: Layout, data: array<Byte>, ghost redGreen: seq<Byte>)
      requires Allocated() && Holds() && data !in Repr && data.Length == 3 * width
      requires |redGreen| == (if layout.charShift then 2 * width else 3 * width) && redGreen <= tmpLineBuf[..]
      modifies tmpLineBuf, data
      ensures Allocated() && Holds()
      ensures data[..] == WithBlue(redGreen, old(data[..]), width, layout)
    {
      CopyBack(layout, tmpLineBuf, data, width, redGreen);
    }

    /** One line through the FIFO. */
    method Delay(layout: Layout, data: array<Byte>, ghost redGreen: seq<Byte>) returns (outLen: nat)
      requires Allocated() && Holds() && rBufLines > 0 && data !in Repr && data.Length == 3 * width
      requires |redGreen| == if layout.charShift then 2 * width else 3 * width
      requires |fed| >= rBufLines ==>
                 redGreen == RedGreen(fed[|fed| - rBufLines], fed[|fed| - gBufLines], width, layout)
      modifies Repr, data
      ensures Allocated() && Holds() && Repr == old(Repr) && width == old(width) && gBufLines == old(gBufLines)
      ensures fed == old(fed) + [old(data[..])]
      ensures outLen == if |old(fed)| >= rBufLines then data.Length else 0
      ensures |old(fed)| >= rBufLines ==> data[..] == WithBlue(redGreen, old(data[..]), width, layout)
      ensures |old(fed)| < rBufLines ==> data[..] == old(data[..])
    {
      outLen := data.Length;
      if curLine + 1 > rBufLines {
        FetchOldest(layout);
      }
      Insert(data);
      if curLine > rBufLines {
        GiveBack(layout, data, redGreen);
      } else {
        outLen := 0;
      }
    }

    /** Without an offset there are no rows and the line is left as it is. */
    method PassThrough(layout: Layout, data: array<Byte>)
      requires Allocated() && Holds() && rBufLines == 0 && data.Length == 3 * width
      modifies this
      ensures Allocated() && Holds() && unchanged(this`Repr, this`width, this`gBufLines, this`rBufLines)
      ensures fed == old(fed) + [data[..]]
      ensures data[..] == Realigned(fed, width, layout, 0, |fed| - 1)
    {
      curLine := curLine + 1;
      fed := fed + [data[..]];
      RealignedAtOffsetZero(fed, width, layout);
    }

    /** The part of artec_buffer_line_offset after the set-up. */
    method Step(layout: Layout, data: array<Byte>) returns (outLen: nat)
      requires Allocated() && Holds() && data !in Repr && data.Length == 3 * width
      modifies Repr, data
      ensures Allocated() && Holds() && Repr == old(Repr) && width == old(width) && gBufLines == old(gBufLines)
      ensures fed == old(fed) + [old(data[..])]
      ensures outLen == if |fed| > rBufLines then data.Length else 0
      ensures |fed| > rBufLines ==> data[..] == Realigned(fed, width, layout, gBufLines, |fed| - 1 - rBufLines)
      ensures |fed| <= rBufLines ==> data[..] == old(data[..])
    {
      hide Realigned, RedGreen, WithBlue;
      if rBufLines > 0 {
        ghost var redGreen := seq(if layout.charShift then 2 * width else 3 * width, _ => 0);
        if |fed| >= rBufLines {
          redGreen := RedGreen(fed[|fed| - rBufLines], fed[|fed| - gBufLines], width, layout);
          RealignedIs(fed, data[..], width, layout, gBufLines);
        }
        outLen := Delay(layout, data, redGreen);
      } else {
        outLen := data.Length;
        PassThrough(layout, data);
      }
    }

    /** artec_buffer_line_offset. Nothing comes out for the first 2 * lineOffset lines; after that,
        each line put in lets one realigned line out, in the caller's buffer. */
    method BufferLineOffset(layout: Layout, lineOffset: nat, data: array<Byte>, ghost w: nat, len: nat)
      returns (outLen: nat)
      requires Valid() && data !in Repr && data.Length == 3 * w > 0 && (len == 0 || len == data.Length)
      requires tmpLineBuf != null ==> gBufLines == lineOffset && width == w
      modifies Repr, data
      ensures Valid() && fresh(Repr - old(Repr))
      ensures len == 0 ==> outLen == 0 && fed == old(fed) && data[..] == old(data[..])
      ensures len > 0 ==> tmpLineBuf != null && gBufLines == lineOffset && width == w && Uniform(fed, 3 * w)
      ensures len > 0 ==> fed == old(fed) + [old(data[..])]
      ensures len > 0 ==> outLen == if |fed| > 2 * lineOffset then len else 0
      ensures len > 0 && |fed| > 2 * lineOffset ==>
                data[..] == Realigned(fed, w, layout, lineOffset, |fed| - 1 - 2 * lineOffset)
      ensures len > 0 && |fed| <= 2 * lineOffset ==> data[..] == old(data[..])
    {
      outLen := 0;
      if len != 0 {
        if tmpLineBuf == null {
          Allocate(lineOffset, w, len);
        }
        outLen := Step(layout, data);
      }
    }
  }
}
