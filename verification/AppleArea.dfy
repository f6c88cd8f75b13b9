/** The scan area of the Apple backend: inches become dots of 1/1200 inch in whole scanner bytes, and
    the area is cut down in such steps until it fits the scanner. */
module AppleArea {
  import opened RowMath

  predicate Resolution(res: nat) {
    res in {75, 100, 150, 200, 300}
  }

  /** Bits per pixel: lineart and halftone, two-colour, 16 and 256 greys, colour. */
  predicate Depth(bpp: nat) {
    bpp in {1, 3, 4, 8, 24}
  }

  /** The whole units in tmp; rounding up gives one more from a tenth of a unit on. The division of C by
      truncation has no result from minus one unit on. */
  function Units(tmp: real, dir: bool): (t: nat)
    requires tmp > -1.0
    ensures tmp >= 0.0 && dir ==> t as real - 0.9 <= tmp < t as real + 0.1
    ensures tmp >= 0.0 && !dir ==> t as real <= tmp < t as real + 1.0
    ensures tmp <= 0.0 ==> t == 0
  {
    if tmp < 0.0 then 0
    else
      var t := tmp.Floor;
      if tmp - t as real >= 0.1 && dir then t + 1 else t
  }

  /** xquant and yquant: t units of which d fill `total` dots, in dots. */
  function Dots(t: nat, total: nat, d: nat): nat
    requires d > 0
  {
    t * total / d
  }

  lemma DotsExact(t: nat, total: nat, d: nat)
    requires d > 0 && total % d == 0
    ensures Dots(t, total, d) == t * (total / d) && Dots(t, total, d) * d == t * total
  {
    var step := total / d;
    assert total == step * d;
    assert t * total == (t * step) * d;
    Quotient(t * total, d, t * step, 0);
  }

  /** A scanner byte is a whole number of dots but in the two colour modes at 75, 150 and 300 dpi. */
  lemma WholeBytes(res: nat, bpp: nat)
    requires Resolution(res) && Depth(bpp)
    ensures 0 < res * bpp <= 9600 && 1200 % res == 0
    ensures 9600 % (res * bpp) == 0 <==> bpp in {1, 4, 8} || res in {100, 200}
  {
  }

  /** The division of C, which rounds towards zero. */
  function Quot(a: int, b: int): int
    requires b > 0
  {
    if a >= 0 then a / b else -(-a / b)
  }

  lemma QuotExact(q: int, b: int)
    requires b > 0
    ensures Quot(q * b, b) == q
  {
    if q >= 0 {
      Quotient(q * b, b, q, 0);
    } else {
      assert -(q * b) == -q * b;
      Quotient(-q * b, b, -q, 0);
    }
  }

  /** The steps left of t after a fit. Not all of t are gone when any room was there. */
  lemma StepsLeft(t: nat, after: int, step: nat, room: int) returns (q: int)
    requires step > 0 && Fitted(t * step, after, step, room)
    ensures after == q * step && q <= t && (q < t ==> (q + 1) * step > room) && (room >= 0 ==> q >= 0)
  {
    var k: nat :| Steps(t * step, after, step, k);
    q := t - k;
    SpanIsProduct(k, step);
    assert t * step - k * step == q * step && (q + 1) * step == q * step + step;
    if q < 0 {
      MulMonotone(1, -q, step);
      assert -q * step == -(q * step);
    }
  }

  /** The lines of a height that was fitted. */
  lemma LinesSeen(t: nat, res: nat, height: int, room: int)
    requires Resolution(res) && Fitted(Dots(t, 1200, res), height, 1200 / res, room)
    ensures Lines(t, res, room, height, Quot(height * res, 1200))
  {
    var step := 1200 / res;
    assert step * res == 1200 && 1200 % res == 0;
    DotsExact(t, 1200, res);
    var q := StepsLeft(t, height, step, room);
    hide Resolution, Dots, Quot, Fitted;
    assert q * step * res == q * (step * res);
    QuotExact(q, 1200);
    assert (q + 1) * step == q * step + step;
  }

  lemma DivScale(x: nat, b: nat, c: nat)
    requires b > 0 && c > 0 && b * c > 0
    ensures x * c >= 0 && x * c / (b * c) == x / b
  {
    var q, r := x / b, x % b;
    assert x == q * b + r;
    hide *;
    assert x * c == q * (b * c) + r * c;
    assert b * c == r * c + (b - r) * c;
    MulMonotone(1, b - r, c);
    Quotient(x * c, b * c, q, r * c);
  }

  lemma QuotScale(a: int, b: nat, c: nat)
    requires b > 0 && c > 0 && b * c > 0
    ensures Quot(a * c, b * c) == Quot(a, b)
  {
    if a >= 0 {
      DivScale(a, b, c);
    } else {
      DivScale(-a, b, c);
      MulMonotone(1, -a, c);
      assert a * c == -(-a * c);
    }
  }

  lemma QuotWhole(a: int, b: nat)
    requires b > 0
    ensures Quot(a, b) * b == a <==> a % b == 0
  {
    var q := Quot(a, b);
    if a % b == 0 {
      assert a == b * (a / b);
      QuotExact(a / b, b);
    } else if a == q * b {
      ModuloExact(q, b);
      assert false;
    }
  }

  lemma ModuloExact(q: int, b: nat)
    requires b > 0
    ensures q * b % b == 0
  {
    var d, r := q * b / b, q * b % b;
    assert q * b == b * d + r;
    assert (q - d) * b == r;
    if q > d {
      MulMonotone(1, q - d, b);
    } else if q < d {
      assert (d - q) * b == -r;
      MulMonotone(1, d - q, b);
    }
  }

  /** The pixels of a width that is so many scanner bytes. They fill these bytes just when the bits of the bytes
      are those of whole pixels. */
  lemma PixelsOfBytes(bpp: nat, bytes: int, w: int)
    requires Depth(bpp) && w * bpp == 9600 * bytes
    ensures var pixels := Quot(w, 1200);
            pixels == Quot(8 * bytes, bpp) && (pixels * bpp == 8 * bytes <==> 8 * bytes % bpp == 0)
  {
    var c := 1200 / bpp;
    assert bpp > 0 && bpp * c == 1200;
    hide Depth, Quot;
    assert w == 8 * bytes * c by {
      assert w * 1200 == (w * bpp) * c;
    }
    QuotScale(8 * bytes, bpp, c);
    QuotWhole(8 * bytes, bpp);
  }

  /** The dots left over when the whole dots of k scanner bytes, of 9600 / d dots each, are taken off a width. */
  function Surplus(k: nat, d: nat): nat
    requires d > 0
  {
    k * (9600 % d) / d
  }

  /** The pixels of what is left of t scanner bytes when k of them are cut off, even if a byte is no whole number
      of dots, and even if more are cut off than there were. The division rounds towards zero, so what is left over
      must be less than a pixel, and nothing below zero. */
  lemma PixelsLeft(res: nat, bpp: nat, d: nat, t: nat, k: nat, width: int)
    requires Resolution(res) && bpp > 0 && d == res * bpp > 0
    requires width == Dots(t, 9600, d) - k * (9600 / d)
    ensures Quot(width * res, 1200) * bpp == 8 * (t - k)
            <==> 8 * (t - k) % bpp == 0 && LeftOver(t - k, Surplus(k, d), 1200 / res)
  {
    var bytes, pixels := t - k, Quot(width * res, 1200);
    var m := 8 * bytes / bpp;
    if 8 * bytes % bpp == 0 {
      var dots := 1200 / res;
      assert dots * res == 1200 && dots > 0;
      hide Resolution, Surplus, Dots, Quot, LeftOver;
      WidthLeft(res, bpp, dots, d, t, k, m, width);
      PixelsOfDots(res, dots, m, Surplus(k, d), width, bpp, bytes);
    } else if pixels * bpp == 8 * bytes {
      ModuloExact(pixels, bpp);
      assert false;
    }
  }

  /** The dots left over are not another pixel. */
  predicate LeftOver(bytes: int, surplus: nat, dots: nat) {
    if bytes >= 0 then surplus < dots else surplus == 0
  }

  lemma DotsIs(t: nat, d: nat)
    requires d > 0
    ensures Dots(t, 9600, d) == t * 9600 / d
  {
  }

  /** The dots of m whole pixels, and those left over. */
  lemma WidthLeft(res: nat, bpp: nat, dots: nat, d: nat, t: nat, k: nat, m: int, width: int)
    requires dots * res == 1200 && d == res * bpp > 0 && 8 * (t - k) == m * bpp
    requires width == Dots(t, 9600, d) - k * (9600 / d)
    ensures width == m * dots + Surplus(k, d)
  {
    hide Surplus;
    DotsIs(t, d);
    var over := SurplusIs(k, d);
    hide *;
    WidthSum(res, bpp, dots, d, 9600 / d, 9600 % d, t, k, m, Surplus(k, d), over);
  }

  lemma WidthSum(res: nat, bpp: nat, dots: nat, d: nat, step: nat, rest: nat, t: nat, k: nat, m: int, surplus: nat,
                 over: nat)
    requires dots * res == 1200 && d == res * bpp > 0 && 8 * (t - k) == m * bpp
    requires 9600 == step * d + rest && k * rest == surplus * d + over && over < d
    ensures t * 9600 / d == m * dots + k * step + surplus
  {
    DotsOfBytes(res, bpp, dots, m, t - k);
    SumOfDots(t, k, m * dots, step, rest, surplus, over, d);
  }

  lemma SurplusIs(k: nat, d: nat) returns (over: nat)
    requires d > 0
    ensures 9600 == 9600 / d * d + 9600 % d
    ensures k * (9600 % d) == Surplus(k, d) * d + over && over < d
  {
    var n := k * (9600 % d);
    over := n % d;
    assert n == n / d * d + n % d;
  }

  lemma SumOfDots(t: nat, k: nat, whole: int, step: nat, rest: nat, surplus: nat, over: nat, d: nat)
    requires d > 0 && (t - k) * 9600 == whole * d
    requires 9600 == step * d + rest && k * rest == surplus * d + over && over < d
    ensures t * 9600 / d == whole + k * step + surplus
  {
    DotsOfSteps(k, step, d, rest);
    var q := whole + k * step + surplus;
    assert q * d == whole * d + (k * step) * d + surplus * d;
    NotBelowZero(q, d, over);
    Quotient(t * 9600, d, q, over);
  }

  lemma NotBelowZero(q: int, d: nat, over: nat)
    requires over < d && q * d + over >= 0
    ensures q >= 0
  {
    if q < 0 {
      assert -q * d == -(q * d);
      MulMonotone(1, -q, d);
    }
  }

  lemma DotsOfBytes(res: nat, bpp: nat, dots: nat, m: int, bytes: int)
    requires dots * res == 1200 && 8 * bytes == m * bpp
    ensures bytes * 9600 == (m * dots) * (res * bpp)
  {
    assert (m * dots) * (res * bpp) == (m * bpp) * (dots * res);
  }

  lemma DotsOfSteps(k: nat, step: nat, d: nat, rest: nat)
    requires step * d + rest == 9600
    ensures k * 9600 == (k * step) * d + k * rest
  {
    assert k * 9600 == k * (step * d) + k * rest;
    assert (k * step) * d == k * (step * d);
  }

  lemma PixelsOfDots(res: nat, dots: nat, m: int, surplus: nat, width: int, bpp: nat, bytes: int)
    requires dots * res == 1200 && bpp > 0 && 8 * bytes == m * bpp && width == m * dots + surplus
    ensures Quot(width * res, 1200) * bpp == 8 * bytes <==> LeftOver(bytes, surplus, dots)
  {
    var pixels := Quot(width * res, 1200);
    assert width * res == m * 1200 + surplus * res by {
      assert width * res == m * (dots * res) + surplus * res;
    }
    SurplusPixels(res, dots, surplus);
    SignOfProduct(m, bpp);
    hide Quot;
    assert pixels == m <==> LeftOver(bytes, surplus, dots) by {
      PixelsAre(m, surplus * res);
    }
    if pixels != m {
      Cancels(pixels, m, bpp);
    }
  }

  lemma SurplusPixels(res: nat, dots: nat, surplus: nat)
    requires dots * res == 1200
    ensures surplus * res < 1200 <==> surplus < dots
    ensures surplus * res == 0 <==> surplus == 0
  {
    if surplus < dots {
      MulMonotone(surplus + 1, dots, res);
      assert (surplus + 1) * res == surplus * res + res;
    } else {
      MulMonotone(dots, surplus, res);
    }
    MulMonotone(if surplus > 0 then 1 else 0, surplus, res);
  }

  lemma SignOfProduct(m: int, b: nat)
    requires b > 0
    ensures m >= 0 <==> m * b >= 0
  {
    if m >= 0 {
      MulMonotone(0, m, b);
    } else {
      MulMonotone(1, -m, b);
      assert -m * b == -(m * b);
    }
  }

  /** Rounding towards zero loses what is less than a pixel, from above zero only. */
  lemma PixelsAre(m: int, rest: nat)
    ensures Quot(m * 1200 + rest, 1200) == m <==> if m >= 0 then rest < 1200 else rest == 0
  {
  }

  lemma Cancels(x: int, y: int, b: nat)
    requires b > 0 && x != y
    ensures x * b != y * b
  {
    SignOfProduct(x - y, b);
    SignOfProduct(y - x, b);
    assert (x - y) * b == x * b - y * b && (y - x) * b == y * b - x * b;
  }

  /** A line of so many scanner bytes of the t that were asked for, width dots and pixels. It fits the room and
      no more was cut off than needed; without room there can be fewer than no bytes. Where a scanner byte is a whole
      number of dots, the width is that of the bytes. The pixels fill the bytes just when the bits of the bytes are
      those of whole pixels, and the dots left over from what was cut off are not another pixel. */
  ghost predicate Line(t: nat, res: nat, bpp: nat, d: nat, step: nat, room: int, bytes: int, width: int, pixels: int)
    requires d > 0 && bpp > 0 && res > 0
  {
    && bytes <= t && width <= room && width == Dots(t, 9600, d) - (t - bytes) * step
    && (bytes < t ==> width + step > room) && pixels == Quot(width * res, 1200)
    && (9600 % d == 0 ==>
          width == bytes * step && pixels == Quot(8 * bytes, bpp) && (room >= 0 ==> bytes >= 0))
    && (pixels * bpp == 8 * bytes <==> 8 * bytes % bpp == 0 && LeftOver(bytes, Surplus(t - bytes, d), 1200 / res))
  }

  /** Nothing is left over where a scanner byte is a whole number of dots, or nothing was cut off. */
  lemma NoSurplus(k: nat, d: nat)
    requires d > 0 && (9600 % d == 0 || k == 0)
    ensures Surplus(k, d) == 0
  {
    assert k * (9600 % d) == 0;
  }

  /** The scanner bytes of a width that was fitted. */
  lemma LineSeen(t: nat, res: nat, bpp: nat, d: nat, step: nat, width: int, room: int) returns (bytes: int)
    requires Resolution(res) && Depth(bpp) && 0 < d <= 9600 && d == res * bpp && step == 9600 / d
    requires Fitted(Dots(t, 9600, d), width, step, room)
    ensures res > 0 && Line(t, res, bpp, d, step, room, bytes, width, Quot(width * res, 1200))
  {
    assert 1200 / res > 0;
    hide Resolution, Depth, Fitted, Dots, Quot, Surplus;
    var pixels := Quot(width * res, 1200);
    if 9600 % d == 0 {
      assert step * d == 9600;
      bytes := WholeSteps(t, d, step, width, room);
      PixelsOfSteps(res, bpp, d, step, bytes, width);
      NoSurplus(t - bytes, d);
      assert Line(t, res, bpp, d, step, room, bytes, width, pixels);
    } else {
      bytes := CutSteps(t, d, step, width, room);
      PixelsLeft(res, bpp, d, t, t - bytes, width);
      assert Line(t, res, bpp, d, step, room, bytes, width, pixels);
    }
  }

  lemma PixelsOfSteps(res: nat, bpp: nat, d: nat, step: nat, bytes: int, width: int)
    requires Depth(bpp) && d == res * bpp && step * d == 9600 && width == bytes * step
    ensures var pixels := Quot(width * res, 1200);
            pixels == Quot(8 * bytes, bpp) && (pixels * bpp == 8 * bytes <==> 8 * bytes % bpp == 0)
  {
    assert width * res * bpp == 9600 * bytes by {
      assert width * res * bpp == bytes * (step * d);
    }
    PixelsOfBytes(bpp, bytes, width * res);
  }

  /** What is left of t bytes of a whole number of dots. */
  lemma WholeSteps(t: nat, d: nat, step: nat, width: int, room: int) returns (bytes: int)
    requires d > 0 && step > 0 && step * d == 9600 && Fitted(Dots(t, 9600, d), width, step, room)
    ensures Dots(t, 9600, d) == t * step && width == bytes * step == t * step - (t - bytes) * step
    ensures width <= room && bytes <= t && (bytes < t ==> width + step > room) && (room >= 0 ==> bytes >= 0)
  {
    Remainder(9600, d, step, 0);
    DotsExact(t, 9600, d);
    hide Dots;
    bytes := StepsLeft(t, width, step, room);
    assert (bytes + 1) * step == bytes * step + step;
    assert (t - bytes) * step == t * step - bytes * step;
  }

  /** What is left of t bytes of any number of dots. */
  lemma CutSteps(t: nat, d: nat, step: nat, width: int, room: int) returns (bytes: int)
    requires d > 0 && step > 0 && Fitted(Dots(t, 9600, d), width, step, room)
    ensures width == Dots(t, 9600, d) - (t - bytes) * step
    ensures width <= room && bytes <= t && (bytes < t ==> width + step > room)
  {
    var k: nat :| Steps(Dots(t, 9600, d), width, step, k);
    hide Dots;
    SpanIsProduct(k, step);
    bytes := t - k;
    if k > 0 {
      MulMonotone(1, k, step);
    }
  }

  /** Lines of so many of the t that were asked for, in height dots. */
  ghost predicate Lines(t: nat, res: nat, room: int, height: int, lines: int)
    requires res > 0
  {
    && lines <= t && height <= room && height * res == 1200 * lines
    && (lines < t ==> height + 1200 / res > room) && (room >= 0 ==> lines >= 0)
  }

  class Area {
    const maxWidth: int
    const maxHeight: int
    var ulx: int
    var uly: int
    var width: int
    var height: int

    constructor (maxWidth: int, maxHeight: int)
      ensures this.maxWidth == maxWidth && this.maxHeight == maxHeight
    {
      this.maxWidth, this.maxHeight := maxWidth, maxHeight;
    }

    /** The loop: both sides give up one step a round as long as they stick out. Each ends with the most
        steps that fit, and keeps its size if it fits already. */
    method Clamp(xqstep: int, yqstep: int) returns (protect: bool)
      requires xqstep > 0 && yqstep > 0
      modifies this`width, this`height
      ensures ulx + width <= maxWidth && uly + height <= maxHeight
      ensures Fitted(old(width), width, xqstep, maxWidth - ulx)
      ensures Fitted(old(height), height, yqstep, maxHeight - uly)
      ensures protect <==> width == old(width) && height == old(height)
    {
      protect := true;
      var outOfRangeX, outOfRangeY := true, true;
      ghost var j: nat, k: nat := 0, 0;
      while outOfRangeX || outOfRangeY
        invariant width == old(width) - Span(j, xqstep) && height == old(height) - Span(k, yqstep)
        invariant j > 0 ==> width + xqstep > maxWidth - ulx
        invariant k > 0 ==> height + yqstep > maxHeight - uly
        invariant !outOfRangeX ==> width <= maxWidth - ulx
        invariant !outOfRangeY ==> height <= maxHeight - uly
        invariant protect <==> j == 0 && k == 0
        decreases (if width + ulx > maxWidth then width + ulx - maxWidth else 0) +
                  (if height + uly > maxHeight then height + uly - maxHeight else 0), outOfRangeX || outOfRangeY
      {
        outOfRangeX, outOfRangeY := false, false;
        if ulx + width > maxWidth {
          outOfRangeX, protect := true, false;
          width := width - xqstep;
          j := j + 1;
        }
        if uly + height > maxHeight {
          outOfRangeY, protect := true, false;
          height := height - yqstep;
          k := k + 1;
        }
      }
      assert Fitted(old(width), width, xqstep, maxWidth - ulx) by { assert Steps(old(width), width, xqstep, j); }
      assert Fitted(old(height), height, yqstep, maxHeight - uly) by { assert Steps(old(height), height, yqstep, k); }
    }

    /** The area calc_parameters settles on, for a corner and a size in inches. It fits the scanner, both ways
        by giving up no more whole steps than needed. A size below zero counts as zero while it is less than one
        unit; the division of C by truncation has no result for more. */
    method CalcParameters(left: real, top: real, wx: real, wy: real, res: nat, bpp: nat)
        returns (pixels: int, lines: int, ghost bytes: int)
      requires Resolution(res) && Depth(bpp) && left >= 0.0 && top >= 0.0
      requires InUnits(wx, res * bpp, 8) > -1.0 && InUnits(wy, res, 1) > -1.0
      modifies this
      ensures ulx >= 0 && uly >= 0 && ulx + width <= maxWidth && uly + height <= maxHeight
      ensures uly == Dots(Skipped(top, res, 1), 1200, res)
      ensures res * bpp > 0 && ulx == Dots(Skipped(left, res * bpp, 8), 9600, res * bpp)
      ensures Lines(Asked(wy, res, 1), res, maxHeight - uly, height, lines)
      ensures var d := res * bpp;
              Line(Asked(wx, d, 8), res, bpp, d, 9600 / d, maxWidth - ulx, bytes, width, pixels)
    {
      WholeBytes(res, bpp);
      var d := res * bpp;
      Quantise(left, top, wx, wy, res, d);
      var _ := Clamp(9600 / d, 1200 / res);
      pixels, lines := Quot(width * res, 1200), Quot(height * res, 1200);
      hide *;
      LinesSeen(Asked(wy, res, 1), res, height, maxHeight - uly);
      bytes := LineSeen(Asked(wx, d, 8), res, bpp, d, 9600 / d, width, maxWidth - ulx);
    }

    /** The corner and the size in dots, before they are fitted. */
    method Quantise(left: real, top: real, wx: real, wy: real, res: nat, d: nat)
      requires left >= 0.0 && top >= 0.0 && res > 0 && d > 0
      requires InUnits(wx, d, 8) > -1.0 && InUnits(wy, res, 1) > -1.0
      modifies this
      ensures ulx == Dots(Skipped(left, d, 8), 9600, d) && uly == Dots(Skipped(top, res, 1), 1200, res)
      ensures width == Dots(Asked(wx, d, 8), 9600, d) && height == Dots(Asked(wy, res, 1), 1200, res)
    {
      hide Dots, Units, Asked, Skipped, InUnits;
      ulx, uly := Dots(Skipped(left, d, 8), 9600, d), Dots(Skipped(top, res, 1), 1200, res);
      width, height := Dots(Asked(wx, d, 8), 9600, d), Dots(Asked(wy, res, 1), 1200, res);
    }
  }

  /** A length in inches, in units of `bits` bits at d bits an inch. */
  function InUnits(x: real, d: nat, bits: nat): real
    requires bits > 0
  {
    x * d as real / bits as real
  }

  /** The whole units before a place, in inches. */
  function Skipped(x: real, d: nat, bits: nat): (t: nat)
    requires x >= 0.0 && bits > 0
  {
    Units(InUnits(x, d, bits), false)
  }

  /** Where an area begins: no further than asked for, and by less than a unit and a dot before that. */
  lemma CornerLaw(x: real, d: nat, bits: nat)
    requires x >= 0.0 && 0 < d <= bits * 1200
    ensures bits > 0
    ensures var place := Dots(Skipped(x, d, bits), bits * 1200, d) as real;
            place <= x * 1200.0 < place + (bits * 1200) as real / d as real + 1.0
  {
    var t, total, units := Skipped(x, d, bits), bits * 1200, InUnits(x, d, bits);
    assert t as real <= units < t as real + 1.0;
    RealDots(t, total, d);
    var n := Dots(t, total, d);
    UnitsTimes(x, d, bits);
    hide *;
    RealCorner(n as real, t as real, d as real, total as real, units, x * 1200.0);
  }

  ghost function Times(a: real, b: real): real {
    a * b
  }

  lemma TimesOrder(a: real, b: real, d: real)
    requires d > 0.0
    ensures Times(a, d) <= Times(b, d) <==> a <= b
  {
    assert (b - a) * d == b * d - a * d;
    if a < b {
      assert (b - a) * d > 0.0;
    } else if b < a {
      assert (a - b) * d > 0.0;
      assert (a - b) * d == a * d - b * d;
    }
  }

  lemma TimesSum(a: real, b: real, d: real)
    ensures Times(a + b, d) == Times(a, d) + Times(b, d) && Times(1.0, d) == d
  {
  }

  lemma UnitsTimes(x: real, d: nat, bits: nat)
    requires bits > 0
    ensures Times(x * 1200.0, d as real) == Times(InUnits(x, d, bits), (bits * 1200) as real)
  {
    var y, b := x * d as real, bits as real;
    assert y / b * b == y;
    assert (bits * 1200) as real == b * 1200.0;
    assert y / b * (b * 1200.0) == y / b * b * 1200.0;
    assert x * 1200.0 * d as real == y * 1200.0;
  }

  lemma RealCorner(n: real, t: real, d: real, total: real, u: real, y: real)
    requires d > 0.0 && total > 0.0 && Times(n, d) <= Times(t, total) < Times(n, d) + d
    requires t <= u < t + 1.0 && Times(y, d) == Times(u, total)
    ensures n <= y < n + total / d + 1.0
  {
    var q := total / d;
    assert Times(q, d) == total;
    hide Times;
    TimesOrder(t, u, total);
    TimesOrder(n, y, d);
    TimesOrder(t + 1.0, u, total);
    TimesSum(t, 1.0, total);
    TimesSum(n, q, d);
    TimesSum(n + q, 1.0, d);
    TimesOrder(n + q + 1.0, y, d);
  }

  /** The dots of t units, but for less than one. */
  lemma RealDots(t: nat, total: nat, d: nat)
    requires d > 0
    ensures var n := Dots(t, total, d) as real;
            Times(n, d as real) <= Times(t as real, total as real) < Times(n, d as real) + d as real
  {
    var x := t * total;
    var n := x / d;
    assert x == n * d + x % d;
    RealProduct(t, total);
    RealProduct(n, d);
  }

  lemma RealProduct(a: nat, b: nat)
    ensures (a * b) as real == a as real * b as real
  {
  }

  /** The units asked for by a length in inches. */
  function Asked(w: real, d: nat, bits: nat): (t: nat)
    requires bits > 0 && InUnits(w, d, bits) > -1.0
  {
    Units(InUnits(w, d, bits), true)
  }

  /** A colour line at 100 dpi whose pixels do not fill its scanner bytes: four bytes hold one pixel and 8 bits. */
  method ColourLine() returns (width: int, pixels: int, ghost bytes: int)
    ensures width == 16 && pixels == 1 && bytes == 4 && pixels * 24 == 8 * bytes - 8
  {
    var area := new Area(10200, 16800);
    var wide: real, tall: real := 4.0 / 300.0, 1.0;
    assert InUnits(wide, 2400, 8) == 4.0 && InUnits(tall, 100, 1) == 100.0 && InUnits(0.0, 2400, 8) == 0.0;
    var lines;
    pixels, lines, bytes := area.CalcParameters(0.0, 0.0, wide, tall, 100, 24);
    width := area.width;
  }

  /** A colour area at 300 dpi without any room, at 216.1 mm from the left: nine bytes are cut off from none. Nine times
      a third of a dot is less than a pixel, yet the rounding makes -2 pixels of -9 dots, and not -3. */
  method NoRoom() returns (width: int, pixels: int, ghost bytes: int)
    ensures width == -9 && pixels == -2 && bytes == -9 && pixels * 24 != 8 * bytes
    ensures 8 * bytes % 24 == 0 && Surplus(0 - bytes, 7200) == 3 < 1200 / 300
  {
    var area := new Area(10200, 16800);
    var left: real, tall: real := 216.1 / 25.4, 1.0;
    assert 7657.0 <= InUnits(left, 7200, 8) < 7658.0 && InUnits(0.0, 7200, 8) == 0.0 && InUnits(0.0, 300, 1) == 0.0;
    assert InUnits(tall, 300, 1) == 300.0;
    var lines;
    pixels, lines, bytes := area.CalcParameters(left, 0.0, 0.0, tall, 300, 24);
    width := area.width;
  }

  ghost predicate Steps(before: int, after: int, step: nat, k: nat) {
    after == before - Span(k, step)
  }

  /** The size went down by whole steps, no further than needed, until it fits the room. */
  ghost predicate Fitted(before: int, after: int, step: nat, room: int) {
    && after <= room && (after != before ==> after + step > room)
    && exists k: nat :: Steps(before, after, step, k)
  }
}
