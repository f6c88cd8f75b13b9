/** The sections of a Bell+Howell scan: their text form, and the width of a section, which is converted
    to pixels and back twice before it becomes the length of a line. */
module BhSections {
  const NUM_SECTIONS: nat := 8

  datatype Format = GrayFrame | G31D | G32D | G42D

  /** What may follow the geometry of a section. */
  datatype Code = Front | FrontBar | FrontPatch | Back | BackBar | BackPatch | Compress(format: Format) | Unknown

  /** A length in millimetres as strtod reads it: its value, whether all of the text was a number, and whether
      the number was out of range, which strtod puts into errno. */
  datatype Number = Number(mm: real, clean: bool, outOfRange: bool)

  /** The pieces of a section option: <width>x<length>+<x>+<y>:<codes>. Pieces may be missing at the end. */
  datatype Spec = Spec(numbers: seq<Number>, codes: seq<Code>)

  /** What stands between the commas of the option. */
  datatype Piece = Blank | Piece(spec: Spec)

  datatype Section = Section(left: nat, top: nat, width: nat, length: nat, format: Format, flags: set<Code>)

  datatype Result<T> = Success(value: T) | Invalid

  // ---------- The width ----------

  /** Thousandths of an inch, from millimetres. */
  function Thousandths(mm: real): nat
    requires mm >= 0.0
  {
    (mm * 1000.0 / 25.4).Floor
  }

  /** The pixels of so many thousandths. */
  function Pixels(width: nat, res: nat): nat {
    width * res / 1000
  }

  /** How many times sixteen pixels fit; the scanner wants such widths. */
  function Points(width: nat, res: nat): nat {
    width * res / 16000
  }

  /** The width of p times sixteen pixels, in thousandths. */
  function PointsWidth(p: nat, res: nat): nat
    requires res > 0
  {
    p * 16 * 1000 / res
  }

  /** The truncation takes off less than sixteen pixels. */
  lemma PointsFit(width: nat, res: nat)
    ensures 16 * Points(width, res) <= Pixels(width, res) < 16 * Points(width, res) + 16
  {
  }

  /** A thousandth of an inch is 0.0254 mm, and what is less than one is lost. */
  lemma ThousandthsLaw(mm: real)
    requires mm >= 0.0
    ensures Thousandths(mm) as real * 0.0254 <= mm < (Thousandths(mm) + 1) as real * 0.0254
  {
  }

  /** An inch has as many pixels as the resolution says, and sixteen of them are a point; each rounds down. */
  lemma PixelsLaw(width: nat, p: nat, res: nat)
    requires res > 0
    ensures 1000 * Pixels(width, res) <= width * res < 1000 * Pixels(width, res) + 1000
    ensures 16 * 1000 * Points(width, res) <= width * res < 16 * 1000 * (Points(width, res) + 1)
    ensures PointsWidth(p, res) * res <= 16 * 1000 * p < PointsWidth(p, res) * res + res
  {
    var x := p * 16 * 1000;
    assert x == x / res * res + x % res;
  }

  /** A byte has eight pixels, and a line whole bytes. */
  lemma LineBytesLaw(pixels: nat)
    ensures pixels <= 8 * LineBytes(pixels) < pixels + 8
  {
  }

  function LineBytes(pixels: nat): nat {
    (pixels + 7) / 8
  }

  /** Both roundings of the width together lose less than a byte: the line has exactly the bytes of the
      points asked for, two for each sixteen pixels. */
  lemma WidthSurvives(p: nat, res: nat)
    requires 1 <= res <= 7001
    ensures LineBytes(Pixels(PointsWidth(p, res), res)) == 2 * p
  {
    var w := PointsWidth(p, res);
    var lost := p * 16 * 1000 % res;
    assert w * res == 16000 * p - lost;
    assert 16 * p - 7 <= w * res / 1000 <= 16 * p;
  }

  /** Beyond all resolutions of the scanners this ends: at 7003 dpi a byte gets lost. */
  lemma WidthLost()
    ensures exists p: nat :: LineBytes(Pixels(PointsWidth(p, 7003), 7003)) != 2 * p
  {
    var p := 1605;
    assert LineBytes(Pixels(PointsWidth(p, 7003), 7003)) != 2 * p;
  }

  // ---------- Reading the text ----------

  predicate Good(n: Number) {
    n.clean && !n.outOfRange && n.mm >= 0.0
  }

  ghost predicate WellFormed(spec: Spec) {
    |spec.numbers| >= 4 && forall i | 0 <= i < 4 :: Good(spec.numbers[i])
  }

  /** One of the numbers is out of range, and the numbers that are read before it, first the corner and then the
      size, are good. */
  predicate Overflows(spec: Spec) {
    && |spec.numbers| >= 4
    && var (w, l, x, y) := (spec.numbers[0], spec.numbers[1], spec.numbers[2], spec.numbers[3]);
       x.outOfRange || (Good(x) && (y.outOfRange || (Good(y) && (w.outOfRange || (Good(w) && l.outOfRange)))))
  }

  /** The last compression among the first n codes, or the one of the page. */
  function LastFormat(codes: seq<Code>, n: nat, page: Format): Format
    requires n <= |codes|
  {
    if n == 0 then page
    else if codes[n - 1].Compress? then codes[n - 1].format
    else LastFormat(codes, n - 1, page)
  }

  /** It is the format of a compression that no other follows. */
  lemma {:induction false} LastFormatLaw(codes: seq<Code>, n: nat, page: Format, i: nat)
    requires i < n <= |codes| && codes[i].Compress? && forall l | i < l < n :: !codes[l].Compress?
    ensures LastFormat(codes, n, page) == codes[i].format
  {
    if i < n - 1 {
      LastFormatLaw(codes, n - 1, page, i);
    }
  }

  /** Without a compression it is the page's. */
  lemma {:induction false} NoFormatLaw(codes: seq<Code>, n: nat, page: Format)
    requires n <= |codes| && forall i | 0 <= i < n :: !codes[i].Compress?
    ensures LastFormat(codes, n, page) == page
  {
    if n > 0 {
      NoFormatLaw(codes, n - 1, page);
    }
  }

  /** The section a specification describes. */
  ghost predicate Describes(spec: Spec, res: nat, page: Format, s: Section)
    requires WellFormed(spec) && res > 0
  {
    && s.left == Thousandths(spec.numbers[2].mm) && s.top == Thousandths(spec.numbers[3].mm)
    && s.length == Thousandths(spec.numbers[1].mm)
    && s.width == PointsWidth(Points(Thousandths(spec.numbers[0].mm), res), res)
    && s.format == LastFormat(spec.codes, |spec.codes|, page)
    && forall c: Code :: c in s.flags <==> c in spec.codes && !c.Compress? && c != Unknown
  }

  /** The lengths of the section are those of the text, in thousandths of an inch: width and length come first, then
      the corner. The width is cut to whole points. */
  lemma SectionLaw(spec: Spec, res: nat, page: Format, s: Section)
    requires res > 0 && WellFormed(spec) && Describes(spec, res, page, s)
    ensures s.length as real * 0.0254 <= spec.numbers[1].mm < (s.length + 1) as real * 0.0254
    ensures s.left as real * 0.0254 <= spec.numbers[2].mm < (s.left + 1) as real * 0.0254
    ensures s.top as real * 0.0254 <= spec.numbers[3].mm < (s.top + 1) as real * 0.0254
    ensures exists width: nat, p: nat ::
              && width as real * 0.0254 <= spec.numbers[0].mm < (width + 1) as real * 0.0254
              && 16000 * p <= width * res < 16000 * (p + 1) && s.width * res <= 16000 * p < s.width * res + res
  {
    var width := Thousandths(spec.numbers[0].mm);
    var p := Points(width, res);
    ThousandthsLaw(spec.numbers[0].mm);
    ThousandthsLaw(spec.numbers[1].mm);
    ThousandthsLaw(spec.numbers[2].mm);
    ThousandthsLaw(spec.numbers[3].mm);
    PixelsLaw(width, p, res);
    hide Thousandths, Points, PointsWidth;
  }

  /** One of the four numbers. It is refused if errno says so, and errno is never cleared: it may say so since a
      number long ago. */
  method ReadNumber(n: Number, erange: bool) returns (ok: bool, after: bool)
    ensures after <==> erange || n.outOfRange
    ensures ok <==> Good(n) && !erange
  {
    after := erange || n.outOfRange;
    ok := n.clean && !after && n.mm >= 0.0;
  }

  /** section_parse: as long as errno is clear, exactly the well-formed specifications are read, with every
      function code they name; of several compressions the last one counts. */
  method SectionParse(spec: Spec, res: nat, comp: Format, erange: bool)
      returns (result: Result<Section>, after: bool)
    requires res > 0
    ensures result.Success? <==> WellFormed(spec) && !erange
    ensures result.Success? ==> Describes(spec, res, comp, result.value)
    ensures after <==> erange || Overflows(spec)
  {
    result, after := Invalid, erange;
    if |spec.numbers| < 4 {
      return;
    }
    var ok;
    ok, after := ReadNumber(spec.numbers[2], after);
    if ok {
      ok, after := ReadNumber(spec.numbers[3], after);
    }
    if ok {
      ok, after := ReadNumber(spec.numbers[0], after);
    }
    if ok {
      ok, after := ReadNumber(spec.numbers[1], after);
    }
    if ok {
      var section := SectionOf(spec, res, comp);
      result := Success(section);
    }
  }

  /** The section, once its numbers have been read. */
  method SectionOf(spec: Spec, res: nat, comp: Format) returns (s: Section)
    requires res > 0 && WellFormed(spec)
    ensures Describes(spec, res, comp, s)
  {
    var width := Thousandths(spec.numbers[0].mm);
    var pixels := Points(width, res);
    width := PointsWidth(pixels, res);
    var flags: set<Code>, format := {}, comp;
    for i := 0 to |spec.codes|
      invariant format == LastFormat(spec.codes, i, comp)
      invariant forall c: Code :: c in flags <==> c in spec.codes[..i] && !c.Compress? && c != Unknown
    {
      var f := spec.codes[i];
      if f.Compress? {
        format := f.format;
      } else if f != Unknown {
        flags := flags + {f};
      }
    }
    assert spec.codes[..|spec.codes|] == spec.codes;
    s := Section(Thousandths(spec.numbers[2].mm), Thousandths(spec.numbers[3].mm), width,
                 Thousandths(spec.numbers[1].mm), format, flags);
  }

  /** The specifications among the first n pieces; the blank ones are none. */
  function Written(pieces: seq<Piece>, n: nat): (specs: seq<Spec>)
    requires n <= |pieces|
  {
    if n == 0 then []
    else Written(pieces, n - 1) + if pieces[n - 1].Blank? then [] else [pieces[n - 1].spec]
  }

  lemma {:induction false} WrittenPrefix(pieces: seq<Piece>, m: nat, n: nat)
    requires m <= n <= |pieces|
    ensures Written(pieces, m) <= Written(pieces, n)
  {
    if m < n {
      WrittenPrefix(pieces, m, n - 1);
    }
  }

  /** All of them have been read, in order. */
  ghost predicate AllRead(specs: seq<Spec>, res: nat, comp: Format, sections: seq<Section>)
    requires res > 0
  {
    && |sections| <= |specs|
    && forall i | 0 <= i < |sections| :: WellFormed(specs[i]) && Describes(specs[i], res, comp, sections[i])
  }

  lemma OneMoreRead(specs: seq<Spec>, res: nat, comp: Format, sections: seq<Section>, s: Section)
    requires res > 0 && AllRead(specs, res, comp, sections) && |sections| < |specs|
    requires WellFormed(specs[|sections|]) && Describes(specs[|sections|], res, comp, s)
    ensures AllRead(specs, res, comp, sections + [s])
  {
  }

  /** The specification after n of them could not be read. */
  ghost predicate Stopped(specs: seq<Spec>, n: nat, erange: bool, after: bool) {
    && n < |specs| && n < NUM_SECTIONS && (erange || !WellFormed(specs[n]))
    && (after <==> erange || Overflows(specs[n])) && (erange ==> n == 0)
  }

  /** setup_sections, for an option text of so many characters: the first eight specifications in order, up to
      one that cannot be read. If errno is not clear, none can be. */
  method SetupSections(length: nat, pieces: seq<Piece>, res: nat, comp: Format, erange: bool)
      returns (ok: bool, sections: seq<Section>, after: bool)
    requires res > 0
    ensures |sections| <= NUM_SECTIONS && AllRead(Written(pieces, |pieces|), res, comp, sections)
    ensures length > 255 ==> !ok && sections == [] && after == erange
    ensures length <= 255 ==>
              var specs := Written(pieces, |pieces|);
              && (ok ==> |sections| == (if |specs| < NUM_SECTIONS then |specs| else NUM_SECTIONS) && after == erange)
              && (!ok ==> Stopped(specs, |sections|, erange, after))
              && (erange ==> sections == [])
  {
    ok, sections, after := length <= 255, [], erange;
    ghost var specs := Written(pieces, |pieces|);
    var i: nat := 0;
    hide WellFormed, Describes, Overflows;
    while ok && i < |pieces| && |sections| < NUM_SECTIONS
      invariant i <= |pieces| && |sections| <= NUM_SECTIONS && AllRead(specs, res, comp, sections)
      invariant length > 255 ==> !ok && sections == [] && after == erange
      invariant ok ==> sections == [] || !erange
      invariant ok ==> |sections| == |Written(pieces, i)| && after == erange
      invariant !ok && length <= 255 ==> Stopped(specs, |sections|, erange, after)
      decreases ok, |pieces| - i
    {
      WrittenPrefix(pieces, i + 1, |pieces|);
      match pieces[i] {
        case Blank =>
        case Piece(spec) =>
          assert specs[|sections|] == spec;
          var result;
          result, after := SectionParse(spec, res, comp, after);
          if result.Success? {
            OneMoreRead(specs, res, comp, sections, result.value);
            sections := sections + [result.value];
          } else {
            ok := false;
          }
      }
      i := i + 1;
    }
    if ok {
      WrittenPrefix(pieces, i, |pieces|);
    }
  }

  /** A section option with a number out of range spoils the next one, however well-formed that is: errno is
      still set when its first number has been read. */
  method StaleErrno(pieces: seq<Piece>, next: seq<Piece>, res: nat, comp: Format)
      returns (ok: bool, again: bool, sections: seq<Section>)
    requires res > 0 && |Written(pieces, |pieces|)| == 1 && Overflows(Written(pieces, |pieces|)[0])
    requires |Written(next, |next|)| > 0
    ensures !ok && !again && sections == []
  {
    var first, erange;
    ok, first, erange := SetupSections(100, pieces, res, comp, false);
    again, sections, erange := SetupSections(100, next, res, comp, erange);
  }

  /** A section that was set up at a resolution makes lines of two bytes for each of its points. */
  lemma SectionLine(spec: Spec, res: nat, page: Format, s: Section)
    requires 1 <= res <= 1200 && WellFormed(spec) && Describes(spec, res, page, s)
    ensures var p := Points(Thousandths(spec.numbers[0].mm), res);
            LineBytes(Pixels(s.width, res)) == 2 * p && 8 * LineBytes(Pixels(s.width, res)) == 16 * p
  {
    WidthSurvives(Points(Thousandths(spec.numbers[0].mm), res), res);
  }
}
