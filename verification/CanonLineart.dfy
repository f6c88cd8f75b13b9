/** The lineart merge of the Canon FB1200S: two half-resolution scans of one line, displaced by one
    pixel, become one line of twice the pixels. The backend spreads the bits of each byte with four
    tables built at start-up; the loop the tables replaced is still in its source, disabled. */
module CanonLineart {

  /** Eight pixels, the leftmost in the highest bit. */
  type Pixels = bv8

  function Mask(k: nat): Pixels
    requires k < 8
  {
    match k
    case 0 => 0x80
    case 1 => 0x40
    case 2 => 0x20
    case 3 => 0x10
    case 4 => 0x08
    case 5 => 0x04
    case 6 => 0x02
    case 7 => 0x01
  }

  /** Pixel k of a byte. */
  predicate Bit(b: Pixels, k: nat)
    requires k < 8
  {
    b & Mask(k) != 0
  }

  /** Pixel k of a line. */
  predicate LineBit(line: seq<Pixels>, k: nat)
    requires k < 8 * |line|
  {
    Bit(line[k / 8], k % 8)
  }

  // ---------- The tables ----------

  /** Bits 0..3 of x (from the left) moved to the odd places; what primaryHigh holds. */
  function PrimaryHigh(x: Pixels): Pixels {
    ((x & 0x80) >> 1) | ((x & 0x40) >> 2) | ((x & 0x20) >> 3) | ((x & 0x10) >> 4)
  }

  function SecondaryHigh(x: Pixels): Pixels {
    (x & 0x80) | ((x & 0x40) >> 1) | ((x & 0x20) >> 2) | ((x & 0x10) >> 3)
  }

  function PrimaryLow(x: Pixels): Pixels {
    ((x & 0x08) << 3) | ((x & 0x04) << 2) | ((x & 0x02) << 1) | (x & 0x01)
  }

  function SecondaryLow(x: Pixels): Pixels {
    ((x & 0x08) << 4) | ((x & 0x04) << 3) | ((x & 0x02) << 2) | ((x & 0x01) << 1)
  }

  /** The inner loop of sane_init: four bits of x, from inmask on, are spread to the masks that step
      two places at a time. */
  method SpreadFour(x: Pixels, inmask0: Pixels) returns (primary: Pixels, secondary: Pixels, inmask: Pixels)
    requires inmask0 == 0x80 || inmask0 == 0x08
    ensures inmask == inmask0 >> 4
    ensures inmask0 == 0x80 ==> primary == PrimaryHigh(x) && secondary == SecondaryHigh(x)
    ensures inmask0 == 0x08 ==> primary == PrimaryLow(x) && secondary == SecondaryLow(x)
  {
    primary, secondary := 0, 0;
    inmask := inmask0;
    var priMask: Pixels, secMask: Pixels := 0x40, 0x80;
    var j: bv8 := 0;
    while j < 4
      invariant j <= 4
      invariant inmask == inmask0 >> j && priMask == 0x40 >> (j + j) && secMask == 0x80 >> (j + j)
      invariant inmask0 == 0x80 ==> primary == PrimaryHigh(x) & !(0x7f >> (j + j))
      invariant inmask0 == 0x80 ==> secondary == SecondaryHigh(x) & !(0xff >> (j + j))
      invariant inmask0 == 0x08 ==> primary == PrimaryLow(x) & !(0x7f >> (j + j))
      invariant inmask0 == 0x08 ==> secondary == SecondaryLow(x) & !(0xff >> (j + j))
      decreases 4 - j
    {
      if x & inmask != 0 {
        primary := primary | priMask;
        secondary := secondary | secMask;
      }
      priMask := priMask >> 2;
      secMask := secMask >> 2;
      inmask := inmask >> 1;
      j := j + 1;
    }
  }

  // ---------- The merge ----------

  /** The left and right half of the sixteen pixels two bytes make. */
  function MergeHigh(primary: Pixels, secondary: Pixels): Pixels {
    PrimaryHigh(primary) | SecondaryHigh(secondary)
  }

  function MergeLow(primary: Pixels, secondary: Pixels): Pixels {
    PrimaryLow(primary) | SecondaryLow(secondary)
  }

  /** The merged line: two bytes for each pair of bytes. */
  function MergedLine(primary: seq<Pixels>, secondary: seq<Pixels>): (r: seq<Pixels>)
    requires |primary| == |secondary|
    ensures |r| == 2 * |primary|
  {
    seq(2 * |primary|, i requires 0 <= i < 2 * |primary| =>
      if i % 2 == 0 then MergeHigh(primary[i / 2], secondary[i / 2]) else MergeLow(primary[i / 2], secondary[i / 2]))
  }

  lemma HighBits(primary: Pixels, secondary: Pixels)
    ensures var h := MergeHigh(primary, secondary);
            && ((h & 0x80 != 0) <==> (secondary & 0x80 != 0)) && ((h & 0x40 != 0) <==> (primary & 0x80 != 0))
            && ((h & 0x20 != 0) <==> (secondary & 0x40 != 0)) && ((h & 0x10 != 0) <==> (primary & 0x40 != 0))
            && ((h & 0x08 != 0) <==> (secondary & 0x20 != 0)) && ((h & 0x04 != 0) <==> (primary & 0x20 != 0))
            && ((h & 0x02 != 0) <==> (secondary & 0x10 != 0)) && ((h & 0x01 != 0) <==> (primary & 0x10 != 0))
  {
  }

  lemma LowBits(primary: Pixels, secondary: Pixels)
    ensures var l := MergeLow(primary, secondary);
            && ((l & 0x80 != 0) <==> (secondary & 0x08 != 0)) && ((l & 0x40 != 0) <==> (primary & 0x08 != 0))
            && ((l & 0x20 != 0) <==> (secondary & 0x04 != 0)) && ((l & 0x10 != 0) <==> (primary & 0x04 != 0))
            && ((l & 0x08 != 0) <==> (secondary & 0x02 != 0)) && ((l & 0x04 != 0) <==> (primary & 0x02 != 0))
            && ((l & 0x02 != 0) <==> (secondary & 0x01 != 0)) && ((l & 0x01 != 0) <==> (primary & 0x01 != 0))
  {
  }

  lemma MergedBytes(primary: Pixels, secondary: Pixels, b: nat)
    requires b < 8
    ensures b < 4 ==> Bit(MergeHigh(primary, secondary), 2 * b) == Bit(secondary, b)
                      && Bit(MergeHigh(primary, secondary), 2 * b + 1) == Bit(primary, b)
    ensures b >= 4 ==> Bit(MergeLow(primary, secondary), 2 * b - 8) == Bit(secondary, b)
                       && Bit(MergeLow(primary, secondary), 2 * b - 7) == Bit(primary, b)
  {
    HighBits(primary, secondary);
    LowBits(primary, secondary);
    hide MergeHigh, MergeLow;
  }

  /** What merging means: the pixels of the two scans alternate, the secondary scan's first. */
  lemma MergedPixels(primary: seq<Pixels>, secondary: seq<Pixels>, k: nat)
    requires |primary| == |secondary| && k < 8 * |primary|
    ensures LineBit(MergedLine(primary, secondary), 2 * k) == LineBit(secondary, k)
    ensures LineBit(MergedLine(primary, secondary), 2 * k + 1) == LineBit(primary, k)
  {
    hide Bit, MergeHigh, MergeLow, MergedLine;
    var (a, b) := (k / 8, k % 8);
    MergedBytes(primary[a], secondary[a], b);
    MergedLineAt(primary, secondary, a);
    if b < 4 {
      assert 2 * k == 8 * (2 * a) + 2 * b;
    } else {
      assert 2 * k == 8 * (2 * a + 1) + (2 * b - 8);
    }
  }

  /** The primary and the secondary pixels of sixteen merged ones. */
  function PrimaryOf(high: Pixels, low: Pixels): Pixels {
    ((high & 0x40) << 1) | ((high & 0x10) << 2) | ((high & 0x04) << 3) | ((high & 0x01) << 4)
    | ((low & 0x40) >> 3) | ((low & 0x10) >> 2) | ((low & 0x04) >> 1) | (low & 0x01)
  }

  function SecondaryOf(high: Pixels, low: Pixels): Pixels {
    PrimaryOf(high >> 1, low >> 1)
  }

  function PrimaryLine(merged: seq<Pixels>): seq<Pixels>
    requires |merged| % 2 == 0
  {
    seq(|merged| / 2, i requires 0 <= i < |merged| / 2 => PrimaryOf(merged[2 * i], merged[2 * i + 1]))
  }

  function SecondaryLine(merged: seq<Pixels>): seq<Pixels>
    requires |merged| % 2 == 0
  {
    seq(|merged| / 2, i requires 0 <= i < |merged| / 2 => SecondaryOf(merged[2 * i], merged[2 * i + 1]))
  }

  lemma RecoverBytes(primary: Pixels, secondary: Pixels)
    ensures PrimaryOf(MergeHigh(primary, secondary), MergeLow(primary, secondary)) == primary
    ensures SecondaryOf(MergeHigh(primary, secondary), MergeLow(primary, secondary)) == secondary
  {
  }

  /** Nothing is lost: both scans can be read off the merged line. */
  lemma Recover(primary: seq<Pixels>, secondary: seq<Pixels>)
    requires |primary| == |secondary|
    ensures PrimaryLine(MergedLine(primary, secondary)) == primary
    ensures SecondaryLine(MergedLine(primary, secondary)) == secondary
  {
    hide PrimaryOf, SecondaryOf, MergeHigh, MergeLow;
    forall i | 0 <= i < |primary|
      ensures PrimaryLine(MergedLine(primary, secondary))[i] == primary[i]
      ensures SecondaryLine(MergedLine(primary, secondary))[i] == secondary[i]
    {
      RecoverBytes(primary[i], secondary[i]);
    }
  }

  /** A byte with the pixels of one more pair, at outmask and the place right of it. */
  function WithPair(out: Pixels, primary: Pixels, secondary: Pixels, inmask: Pixels, outmask: Pixels): Pixels {
    out | (if inmask == secondary & inmask then outmask else 0)
        | (if inmask == primary & inmask then outmask >> 1 else 0)
  }

  /** The part of a byte's bits that is set after so many pairs. */
  function Leading(b: Pixels, pairs: bv8): Pixels
    requires pairs <= 4
  {
    b & !(0xff >> (pairs + pairs))
  }

  lemma HighPair(primary: Pixels, secondary: Pixels, bit: bv8)
    requires bit < 4
    ensures WithPair(Leading(MergeHigh(primary, secondary), bit), primary, secondary, 0x80 >> bit, 0x80 >> (bit + bit))
         == Leading(MergeHigh(primary, secondary), bit + 1)
  {
  }

  lemma LowPair(primary: Pixels, secondary: Pixels, bit: bv8)
    requires bit < 4
    ensures WithPair(Leading(MergeLow(primary, secondary), bit), primary, secondary, 0x08 >> bit, 0x80 >> (bit + bit))
         == Leading(MergeLow(primary, secondary), bit + 1)
  {
  }

  /** The body of the disabled loop. */
  method AddPair(out: Pixels, primary: Pixels, secondary: Pixels, inmask: Pixels, outmask: Pixels)
    returns (outbyte: Pixels, next: Pixels)
    ensures outbyte == WithPair(out, primary, secondary, inmask, outmask) && next == outmask >> 2
  {
    outbyte, next := out, outmask;
    if inmask == secondary & inmask {
      outbyte := outbyte | next;
    }
    next := next >> 1;
    if inmask == primary & inmask {
      outbyte := outbyte | next;
    }
    next := next >> 1;
  }

  /** The disabled loop, for four pixels of each scan. */
  method MergeFour(primary: Pixels, secondary: Pixels, inmask0: Pixels) returns (outbyte: Pixels, inmask: Pixels)
    requires inmask0 == 0x80 || inmask0 == 0x08
    ensures inmask == inmask0 >> 4
    ensures outbyte == if inmask0 == 0x80 then MergeHigh(primary, secondary) else MergeLow(primary, secondary)
  {
    ghost var target := if inmask0 == 0x80 then MergeHigh(primary, secondary) else MergeLow(primary, secondary);
    assert Leading(target, 0) == 0 && Leading(target, 4) == target;
    hide MergeHigh, MergeLow, Leading, WithPair;
    inmask, outbyte := inmask0, 0;
    var outmask: Pixels := 128;
    var bit: bv8 := 0;
    while bit < 4
      invariant bit <= 4 && inmask == inmask0 >> bit && outmask == 0x80 >> (bit + bit)
      invariant outbyte == Leading(target, bit)
      decreases 4 - bit
    {
      if inmask0 == 0x80 {
        HighPair(primary, secondary, bit);
      } else {
        LowPair(primary, secondary, bit);
      }
      outbyte, outmask := AddPair(outbyte, primary, secondary, inmask, outmask);
      inmask := inmask >> 1;
      bit := bit + 1;
    }
  }

  /** The bit-by-bit merge the source keeps under `#if 0`, for one byte of each scan. */
  method MergeByBits(primary: Pixels, secondary: Pixels) returns (high: Pixels, low: Pixels)
    ensures high == MergeHigh(primary, secondary) && low == MergeLow(primary, secondary)
  {
    var inmask: Pixels;
    high, inmask := MergeFour(primary, secondary, 128);
    low, inmask := MergeFour(primary, secondary, inmask);
  }

  /** The tables of the FB1200S lineart mode. */
  class Tables {
    const primaryHigh: array<Pixels>
    const secondaryHigh: array<Pixels>
    const primaryLow: array<Pixels>
    const secondaryLow: array<Pixels>

    ghost predicate Built()
      reads primaryHigh, secondaryHigh, primaryLow, secondaryLow
    {
      && primaryHigh.Length == secondaryHigh.Length == primaryLow.Length == secondaryLow.Length == 256
      && forall i | 0 <= i < 256 :: Entry(i)
    }

    ghost predicate Entry(i: int)
      requires primaryHigh.Length == secondaryHigh.Length == primaryLow.Length == secondaryLow.Length == 256
      requires 0 <= i < 256
      reads primaryHigh, secondaryHigh, primaryLow, secondaryLow
    {
      var x := i as Pixels;
      && primaryHigh[i] == PrimaryHigh(x) && secondaryHigh[i] == SecondaryHigh(x)
      && primaryLow[i] == PrimaryLow(x) && secondaryLow[i] == SecondaryLow(x)
    }

    /** The table construction in sane_init. */
    constructor ()
      ensures Built() && fresh(primaryHigh) && fresh(secondaryHigh) && fresh(primaryLow) && fresh(secondaryLow)
    {
      primaryHigh := new Pixels[256];
      secondaryHigh := new Pixels[256];
      primaryLow := new Pixels[256];
      secondaryLow := new Pixels[256];
      new;
      hide PrimaryHigh, SecondaryHigh, PrimaryLow, SecondaryLow;
      for i := 0 to 256
        invariant forall k | 0 <= k < i :: Entry(k)
        modifies primaryHigh, secondaryHigh, primaryLow, secondaryLow
      {
        label before:
        var primary, secondary, inmask := SpreadFour(i as Pixels, 0x80);
        primaryHigh[i] := primary;
        secondaryHigh[i] := secondary;
        primary, secondary, inmask := SpreadFour(i as Pixels, inmask);
        primaryLow[i] := primary;
        secondaryLow[i] := secondary;
        assert Entry(i);
        assert forall k | 0 <= k < i :: old@before(Entry(k)) ==> Entry(k);
      }
    }

    /** Two bytes of the lineart branch of read_fb1200, from the tables. */
    method Lookup(primary: Pixels, secondary: Pixels) returns (high: Pixels, low: Pixels)
      requires Built()
      ensures high == MergeHigh(primary, secondary) && low == MergeLow(primary, secondary)
    {
      hide PrimaryHigh, SecondaryHigh, PrimaryLow, SecondaryLow;
      assert Entry(primary as int) && Entry(secondary as int);
      high := primaryHigh[primary as int] | secondaryHigh[secondary as int];
      low := primaryLow[primary as int] | secondaryLow[secondary as int];
    }

    /** The lineart branch of read_fb1200 for a whole line. */
    method MergeInto(out: array<Pixels>, first: seq<Pixels>, second: seq<Pixels>)
      requires Built() && |first| == |second| && 2 * |first| <= out.Length
      requires out != primaryHigh && out != secondaryHigh && out != primaryLow && out != secondaryLow
      modifies out
      ensures forall i | 0 <= i < 2 * |first| :: out[i] == MergedLine(first, second)[i]
      ensures forall i | 2 * |first| <= i < out.Length :: out[i] == old(out[i])
    {
      hide MergedLine, MergeHigh, MergeLow;
      ghost var target := MergedLine(first, second);
      for byte := 0 to |first|
        invariant forall i | 0 <= i < 2 * byte :: out[i] == target[i]
        invariant forall i | 2 * byte <= i < out.Length :: out[i] == old(out[i])
        modifies out
      {
        var high, low := Lookup(first[byte], second[byte]);
        MergedLineAt(first, second, byte);
        out[2 * byte] := high;
        out[2 * byte + 1] := low;
      }
    }
  }

  lemma MergedLineAt(first: seq<Pixels>, second: seq<Pixels>, i: nat)
    requires |first| == |second| && i < |first|
    ensures MergedLine(first, second)[2 * i] == MergeHigh(first[i], second[i])
    ensures MergedLine(first, second)[2 * i + 1] == MergeLow(first[i], second[i])
  {
  }
}
