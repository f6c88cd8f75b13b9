/** The options of the Bell+Howell backend that depend on each other: the paper size and the geometry, the
    scan mode and the compression, the control panel and the enhancements. */
module BhOptions {
  import opened Constraints

  datatype Paper = Custom | Letter | Legal | A3 | A4 | A5 | A6 | B4 | B5 | Full
  datatype Mode = Lineart | Halftone
  datatype Compression = NoCompression | G31D | G32D | G42D

  /** The options; those without side effects are known by a number. */
  datatype Option =
    | TlX | TlY | BrX | BrY | PaperSize | ScanMode | CompressionOpt | ControlPanel | Resolution
    | AceFunction | AceSensitivity | Brightness | Threshold | Other(number: nat)

  datatype Limits = NoLimits | Within(range: Range)

  datatype Value = Word(word: int) | Flag(on: bool) | PaperName(paper: Paper) | ModeName(mode: Mode)
                 | CompressionName(compression: Compression) | Initial

  datatype Info = Info(reloadOptions: bool, reloadParams: bool, inexact: bool)
  datatype Status = Good | Inval | DeviceBusy

  /** What the driver knows of the scanner; lengths are fixed-point numbers of 1/65536 mm. */
  datatype Hardware = Hardware(xMax: nat, yMax: nat, canAdf: bool, canAce: bool, halftone: bool, compresses: bool,
                               controlPanel: bool, resolution: int, resolutions: seq<int>, ranges: map<nat, Range>,
                               absent: set<nat>)

  // ---------- Paper ----------

  /** SANE_FIX for lengths that are not negative, and SANE_UNFIX. */
  function Fix(mm: real): nat
    requires mm >= 0.0
  {
    (mm * 65536.0).Floor
  }

  function Unfix(w: int): real {
    w as real / 65536.0
  }

  lemma FixUnfix(w: nat)
    ensures Fix(Unfix(w)) == w
  {
  }

  function Dimensions(paper: Paper): (real, real) {
    match paper
    case Letter => (215.9, 279.4)
    case Legal => (215.9, 355.6)
    case A3 => (297.0, 420.0)
    case A4 => (210.0, 297.0)
    case A5 => (148.5, 210.0)
    case A6 => (105.0, 148.5)
    case B4 => (250.0, 353.0)
    case B5 => (182.0, 257.0)
    case _ => (0.0, 0.0)
  }

  datatype Area = Area(tlX: int, tlY: int, brX: int, brY: int)

  /** The size of a paper on a scanner; a paper without one is as large as the scanner. */
  function Size(hw: Hardware, paper: Paper): (r: (real, real))
    ensures r.0 >= 0.0 && r.1 >= 0.0
  {
    var (w, l) := Dimensions(paper);
    (if w <= 0.0 then Unfix(hw.xMax) else w, if l <= 0.0 then Unfix(hw.yMax) else l)
  }

  /** The sizes of the papers in millimetres: the American and ISO ones, and B5 as JIS has it. Each A size is half of
      the one before it, and the full one is the whole scanner. */
  lemma PaperSizes(hw: Hardware)
    ensures Size(hw, Letter) == (8.5 * 25.4, 11.0 * 25.4) && Size(hw, Legal) == (8.5 * 25.4, 14.0 * 25.4)
    ensures Size(hw, A4) == (210.0, 297.0) && Size(hw, B4) == (250.0, 353.0) && Size(hw, B5) == (182.0, 257.0)
    ensures Size(hw, A3) == (Size(hw, A4).1, 2.0 * Size(hw, A4).0)
    ensures Size(hw, A5) == (Size(hw, A4).1 / 2.0, Size(hw, A4).0)
    ensures Size(hw, A6) == (Size(hw, A5).1 / 2.0, Size(hw, A5).0)
    ensures Size(hw, Full) == Size(hw, Custom) == (hw.xMax as real / 65536.0, hw.yMax as real / 65536.0)
  {
  }

  function Min(a: real, b: real): real {
    if a < b then a else b
  }

  /** The geometry of a paper: centred in the feeder, or else aligned left, and cut to the scanner. */
  function AreaOf(hw: Hardware, paper: Paper): Area {
    var (x, y) := Size(hw, paper);
    var xMax, yMax := Unfix(hw.xMax), Unfix(hw.yMax);
    var left := if hw.canAdf && xMax - x > 0.0 then (xMax - x) / 2.0 else 0.0;
    Area(Fix(left), 0, Fix(Min(x + left, xMax)), Fix(Min(y, yMax)))
  }

  /** The geometry of a paper always lies inside the scanner, the right way round. */
  lemma AreaInside(hw: Hardware, paper: Paper)
    ensures var a := AreaOf(hw, paper);
            0 <= a.tlX <= a.brX <= hw.xMax && a.tlY == 0 <= a.brY <= hw.yMax
  {
    FixUnfix(hw.xMax);
    FixUnfix(hw.yMax);
  }

  /** A paper the scanner can take gets its own size, but for the rounding of the fixed-point numbers, and with a
      feeder as much room on the left as on the right. A larger one gets the whole width or length. */
  lemma AreaFits(hw: Hardware, paper: Paper)
    ensures var (a, (x, y)) := (AreaOf(hw, paper), Size(hw, paper));
            && (x <= Unfix(hw.xMax) ==>
                  && -1.0 < (a.brX - a.tlX) as real - 65536.0 * x < 1.0
                  && (hw.canAdf ==> -2 < a.tlX + a.brX - hw.xMax <= 0) && (!hw.canAdf ==> a.tlX == 0))
            && (x > Unfix(hw.xMax) ==> a.tlX == 0 && a.brX == hw.xMax)
            && (y <= Unfix(hw.yMax) ==> -1.0 < a.brY as real - 65536.0 * y <= 0.0)
            && (y > Unfix(hw.yMax) ==> a.brY == hw.yMax)
  {
    FixUnfix(hw.xMax);
    FixUnfix(hw.yMax);
  }

  // ---------- The options ----------

  predicate Geometry(option: Option) {
    option == TlX || option == TlY || option == BrX || option == BrY
  }

  function Coordinate(a: Area, option: Option): int {
    match option
    case TlX => a.tlX
    case TlY => a.tlY
    case BrX => a.brX
    case _ => a.brY
  }

  function WithCoordinate(a: Area, option: Option, v: int): Area {
    match option
    case TlX => a.(tlX := v)
    case TlY => a.(tlY := v)
    case BrX => a.(brX := v)
    case _ => a.(brY := v)
  }

  /** The range of an option, if it has one. */
  function LimitsOf(hw: Hardware, option: Option): Limits {
    match option
    case TlX | BrX => Within(Range(0, hw.xMax, 0))
    case TlY | BrY => Within(Range(0, hw.yMax, 0))
    case AceFunction => Within(Range(-4, 4, 0))
    case AceSensitivity => Within(Range(0, 9, 0))
    case Brightness | Threshold => Within(Range(0, 255, 0))
    case Other(number) => if number in hw.ranges then Within(hw.ranges[number]) else NoLimits
    case _ => NoLimits
  }

  /** The value that is stored: numbers come into their range or onto the list of resolutions. */
  function Constrained(hw: Hardware, option: Option, value: Value): Value {
    if !value.Word? then value
    else if option == Resolution then
      if hw.resolutions == [] then value else Word(Nearest(hw.resolutions, value.word))
    else
      match LimitsOf(hw, option)
      case NoLimits => value
      case Within(range) => Word(Ranged(range, value.word))
  }

  /** What the constraint of an option lets through: names must be on offer. */
  predicate Allowed(hw: Hardware, option: Option, value: Value) {
    match option
    case PaperSize => value.PaperName?
    case ScanMode => value.ModeName? && (value.mode == Halftone ==> hw.halftone)
    case CompressionOpt => value.CompressionName?
    case ControlPanel => value.Flag?
    case _ => value.Word?
  }

  // ---------- What setting an option should do ----------

  /** The values of all options, and whether the mode has been changed before. */
  datatype State = State(area: Area, paper: Paper, mode: Mode, compression: Compression, controlPanel: bool,
                         words: map<Option, int>, modeChanged: bool)

  /** Whether an option is active: the enhancements are those of the hardware, unless the control panel has
      them. Compression is offered in lineart mode if the hardware has all of it - or once the mode has been
      changed. */
  predicate Active(hw: Hardware, s: State, option: Option) {
    match option
    case CompressionOpt => s.mode == Lineart && (hw.compresses || s.modeChanged)
    case AceFunction | AceSensitivity => hw.canAce && !s.controlPanel
    case Brightness | Threshold => !hw.canAce && !s.controlPanel
    case Other(number) => number !in hw.absent
    case _ => true
  }

  /** The control panel takes all enhancements away, and otherwise there is one pair of them: the automatic one on
      hardware that has it, and the manual one elsewhere. */
  lemma EnhancementLaw(hw: Hardware, s: State)
    ensures Active(hw, s, AceFunction) <==> Active(hw, s, AceSensitivity)
    ensures Active(hw, s, Brightness) <==> Active(hw, s, Threshold)
    ensures !s.controlPanel <==> (Active(hw, s, AceFunction) <==> !Active(hw, s, Brightness))
    ensures s.controlPanel ==> !Active(hw, s, AceFunction) && !Active(hw, s, Brightness)
    ensures Active(hw, s, AceFunction) ==> hw.canAce
    ensures Active(hw, s, Brightness) ==> !hw.canAce
  {
  }

  /** The numbers that can be stored: each as near as its limits allow. */
  lemma LimitsLaw(hw: Hardware, w: int)
    ensures Constrained(hw, Brightness, Word(w)) == Constrained(hw, Threshold, Word(w))
    ensures Constrained(hw, Brightness, Word(w)) == Word(if w < 0 then 0 else if w > 255 then 255 else w)
    ensures Constrained(hw, AceFunction, Word(w)) == Word(if w < -4 then -4 else if w > 4 then 4 else w)
    ensures Constrained(hw, AceSensitivity, Word(w)) == Word(if w < 0 then 0 else if w > 9 then 9 else w)
    ensures forall o | o in {TlX, BrX} ::
              Constrained(hw, o, Word(w)) == Word(if w < 0 then 0 else if w > hw.xMax then hw.xMax else w)
    ensures forall o | o in {TlY, BrY} ::
              Constrained(hw, o, Word(w)) == Word(if w < 0 then 0 else if w > hw.yMax then hw.yMax else w)
  {
  }

  /** The value of an option; `Initial` stands for what init_options has given it. */
  function ValueOf(s: State, option: Option): Value {
    match option
    case TlX | TlY | BrX | BrY => Word(Coordinate(s.area, option))
    case PaperSize => PaperName(s.paper)
    case ScanMode => ModeName(s.mode)
    case CompressionOpt => CompressionName(s.compression)
    case ControlPanel => Flag(s.controlPanel)
    case _ => if option in s.words then Word(s.words[option]) else Initial
  }

  predicate Accepts(hw: Hardware, s: State, option: Option, value: Value) {
    Active(hw, s, option) && Allowed(hw, option, value)
  }

  /** The state after a value has been accepted and constrained. */
  function Next(hw: Hardware, s: State, option: Option, value: Value): State
    requires Allowed(hw, option, value)
  {
    match option
    case TlX | TlY | BrX | BrY =>
      if value.word == Coordinate(s.area, option) then s
      else s.(area := WithCoordinate(s.area, option, value.word), paper := Custom)
    case PaperSize =>
      s.(paper := value.paper,
         area := if value.paper == s.paper || value.paper == Custom then s.area else AreaOf(hw, value.paper))
    case ScanMode =>
      if value.mode == s.mode then s
      else
        s.(mode := value.mode, modeChanged := true,
           compression := if value.mode == Lineart then s.compression else NoCompression)
    case CompressionOpt => s.(compression := value.compression)
    case ControlPanel => s.(controlPanel := value.on)
    case _ => s.(words := s.words[option := value.word])
  }

  lemma ConstrainedAllowed(hw: Hardware, option: Option, value: Value)
    requires Allowed(hw, option, value)
    ensures Allowed(hw, option, Constrained(hw, option, value))
    ensures Geometry(option) ==> 0 <= Constrained(hw, option, value).word <= Limit(hw, option)
  {
  }

  function Limit(hw: Hardware, option: Option): nat {
    if option == TlX || option == BrX then hw.xMax else hw.yMax
  }

  function Step(hw: Hardware, s: State, option: Option, value: Value): State {
    if Accepts(hw, s, option, value) then
      ConstrainedAllowed(hw, option, value);
      Next(hw, s, option, Constrained(hw, option, value))
    else s
  }

  /** An accepted request stores its value, brought into range. */
  lemma StepStores(hw: Hardware, s: State, option: Option, value: Value)
    requires Accepts(hw, s, option, value)
    ensures ValueOf(Step(hw, s, option, value), option) == Constrained(hw, option, value)
  {
    ConstrainedAllowed(hw, option, value);
    hide Constrained, Active;
  }

  /** What whoever set an option should reload, given the value that is stored. */
  function Announcement(s: State, option: Option, v: Value, inexact: bool): Info {
    var changed := v != ValueOf(s, option);
    match option
    case TlX | TlY | BrX | BrY => Info(changed && s.paper != Custom, changed, inexact)
    case PaperSize => Info(changed && v != PaperName(Custom), changed && v != PaperName(Custom), inexact)
    case ScanMode | ControlPanel => Info(changed, false, inexact)
    case Resolution => Info(false, changed, inexact)
    case _ => Info(false, false, inexact)
  }

  function Announced(hw: Hardware, s: State, option: Option, value: Value): Info {
    var v := Constrained(hw, option, value);
    Announcement(s, option, v, v != value)
  }

  /** Nothing changes behind the frontend's back: unless it is told to reload the options, no other value and no
      activity has changed; and unless it is told to reload the parameters, neither have the geometry and the
      resolution. */
  lemma ChangesAnnounced(hw: Hardware, s: State, option: Option, value: Value, o: Option)
    requires Accepts(hw, s, option, value)
    ensures var (t, info) := (Step(hw, s, option, value), Announced(hw, s, option, value));
            && (!info.reloadOptions && o != option ==> ValueOf(t, o) == ValueOf(s, o))
            && (!info.reloadOptions ==> (Active(hw, t, o) <==> Active(hw, s, o)))
            && (!info.reloadParams ==> t.area == s.area && ValueOf(t, Resolution) == ValueOf(s, Resolution))
  {
    ConstrainedAllowed(hw, option, value);
    var v := Constrained(hw, option, value);
    Reloads(hw, s, option, value);
    if !Reaches(s, option, v) {
      ActivityKept(hw, s, option, v, o);
      if o != option {
        OthersKept(hw, s, option, v, o);
      }
    }
    if !Announced(hw, s, option, value).reloadParams {
      ParametersKept(hw, s, option, v);
    }
    hide Constrained, Announced, Next, Active, ValueOf, Reaches, Allowed;
  }

  /** Setting this option to this value makes other options change. */
  predicate Reaches(s: State, option: Option, v: Value) {
    v != ValueOf(s, option)
    && ((Geometry(option) && s.paper != Custom) || (option == PaperSize && v != PaperName(Custom))
        || option == ScanMode || option == ControlPanel)
  }

  lemma Reloads(hw: Hardware, s: State, option: Option, value: Value)
    requires Accepts(hw, s, option, value)
    ensures var (v, info) := (Constrained(hw, option, value), Announced(hw, s, option, value));
            && (info.reloadOptions <==> Reaches(s, option, v))
            && (v != ValueOf(s, option) && (Geometry(option) || option == Resolution) ==> info.reloadParams)
            && (option == PaperSize ==> info.reloadParams == info.reloadOptions)
  {
    hide Constrained, Active;
  }

  lemma OthersKept(hw: Hardware, s: State, option: Option, v: Value, o: Option)
    requires Allowed(hw, option, v) && o != option && !Reaches(s, option, v)
    ensures ValueOf(Next(hw, s, option, v), o) == ValueOf(s, o)
  {
    hide AreaOf;
  }

  lemma ParametersKept(hw: Hardware, s: State, option: Option, v: Value)
    requires Allowed(hw, option, v)
    requires !(v != ValueOf(s, option) && (Geometry(option) || option == Resolution))
    requires !(option == PaperSize && Reaches(s, option, v))
    ensures Next(hw, s, option, v).area == s.area
    ensures ValueOf(Next(hw, s, option, v), Resolution) == ValueOf(s, Resolution)
  {
    hide AreaOf;
  }

  lemma ActivityKept(hw: Hardware, s: State, option: Option, v: Value, o: Option)
    requires Allowed(hw, option, v) && !Reaches(s, option, v)
    ensures Active(hw, Next(hw, s, option, v), o) <==> Active(hw, s, o)
  {
    hide AreaOf;
  }

  // ---------- Runs ----------

  function InitialState(hw: Hardware): State {
    State(Area(0, 0, hw.xMax, hw.yMax), Custom, Lineart, NoCompression, hw.controlPanel,
          map[Resolution := hw.resolution], false)
  }

  /** The state after the first n requests. */
  function After(hw: Hardware, requests: seq<(Option, Value)>, n: nat): State
    requires n <= |requests|
  {
    if n == 0 then InitialState(hw)
    else Step(hw, After(hw, requests, n - 1), requests[n - 1].0, requests[n - 1].1)
  }

  /** A paper other than the custom one says what the geometry is. */
  ghost predicate PaperGoverns(hw: Hardware, s: State) {
    s.paper != Custom ==> s.area == AreaOf(hw, s.paper)
  }

  ghost predicate Inside(hw: Hardware, a: Area) {
    0 <= a.tlX <= hw.xMax && 0 <= a.brX <= hw.xMax && 0 <= a.tlY <= hw.yMax && 0 <= a.brY <= hw.yMax
  }

  /** Without lineart there is no compression, and none that could be set. */
  ghost predicate LineartCompresses(hw: Hardware, s: State) {
    && (s.mode != Lineart ==> hw.halftone && s.modeChanged)
    && (!Active(hw, s, CompressionOpt) ==> s.compression == NoCompression)
  }

  ghost predicate Sound(hw: Hardware, s: State) {
    PaperGoverns(hw, s) && Inside(hw, s.area) && LineartCompresses(hw, s)
  }

  lemma StepSound(hw: Hardware, s: State, option: Option, value: Value)
    requires Sound(hw, s)
    ensures Sound(hw, Step(hw, s, option, value))
  {
    if Accepts(hw, s, option, value) {
      ConstrainedAllowed(hw, option, value);
      NextSound(hw, s, option, Constrained(hw, option, value));
    }
    hide Next, Sound;
  }

  lemma NextSound(hw: Hardware, s: State, option: Option, value: Value)
    requires Sound(hw, s) && Active(hw, s, option) && Allowed(hw, option, value)
    requires Geometry(option) ==> 0 <= value.word <= Limit(hw, option)
    ensures Sound(hw, Next(hw, s, option, value))
  {
    if option == PaperSize {
      AreaInside(hw, value.paper);
    }
    hide AreaOf;
  }

  /** In every state that requests can lead to, a paper size other than the custom one says what the four
      geometry values are, these lie inside the scanner, and without lineart there is no compression. */
  lemma {:induction false} AfterSound(hw: Hardware, requests: seq<(Option, Value)>, n: nat)
    requires n <= |requests|
    ensures Sound(hw, After(hw, requests, n))
  {
    if n > 0 {
      AfterSound(hw, requests, n - 1);
      StepSound(hw, After(hw, requests, n - 1), requests[n - 1].0, requests[n - 1].1);
    }
  }

  /** Compression is hidden at first when the hardware lacks some of it, but a change to halftone and back
      offers it all the same, and a compression can then be set. */
  lemma HiddenCompressionReturns(hw: Hardware)
    requires hw.halftone && !hw.compresses
    ensures var requests := [(ScanMode, ModeName(Halftone)), (ScanMode, ModeName(Lineart)),
                             (CompressionOpt, CompressionName(G42D))];
            && !Active(hw, After(hw, requests, 0), CompressionOpt) && Active(hw, After(hw, requests, 2), CompressionOpt)
            && After(hw, requests, 3).mode == Lineart && After(hw, requests, 3).compression == G42D
  {
    var requests := [(ScanMode, ModeName(Halftone)), (ScanMode, ModeName(Lineart)),
                     (CompressionOpt, CompressionName(G42D))];
    assert After(hw, requests, 1) == InitialState(hw).(mode := Halftone, modeChanged := true);
    assert After(hw, requests, 2) == InitialState(hw).(modeChanged := true);
  }

  // ---------- The driver ----------

  class Scanner {
    const hw: Hardware
    var area: Area
    var paper: Paper
    var mode: Mode
    var compression: Compression
    var controlPanel: bool
    var words: map<Option, int>
    var inactive: set<Option>
    var scanning: bool
    ghost var modeChanged: bool

    ghost function Abstract(): State
      reads this`area, this`paper, this`mode, this`compression, this`controlPanel, this`words, this`modeChanged
    {
      State(area, paper, mode, compression, controlPanel, words, modeChanged)
    }

    /** The flags are what the values call for. */
    ghost predicate InOrder()
      reads this`area, this`paper, this`mode, this`compression, this`controlPanel, this`words, this`modeChanged
      reads this`inactive
    {
      forall o: Option :: o in inactive <==> !Active(hw, Abstract(), o)
    }

    /** init_options */
    constructor (hw: Hardware)
      ensures this.hw == hw && InOrder() && !scanning && Abstract() == InitialState(hw)
      ensures area == Area(0, 0, hw.xMax, hw.yMax) && paper == Custom && mode == Lineart && compression == NoCompression
    {
      this.hw := hw;
      area, paper := Area(0, 0, hw.xMax, hw.yMax), Custom;
      mode, compression, controlPanel := Lineart, NoCompression, hw.controlPanel;
      words, scanning, modeChanged := map[Resolution := hw.resolution], false, false;
      inactive :=
        (set n | n in hw.absent :: Other(n)) +
        (if hw.compresses then {} else {CompressionOpt}) +
        (if hw.controlPanel then {AceFunction, AceSensitivity, Brightness, Threshold}
         else if !hw.canAce then {AceFunction, AceSensitivity}
         else {Brightness, Threshold});
    }

    predicate IsActive(option: Option)
      reads this`inactive
    {
      option !in inactive
    }

    /** The setters of the geometry: a change makes the paper a custom one. */
    method SetGeometry(option: Option, v: int) returns (info: Info)
      requires InOrder() && Geometry(option)
      modifies this`area, this`paper
      ensures InOrder() && Abstract() == Next(hw, old(Abstract()), option, Word(v))
      ensures info == Announcement(old(Abstract()), option, Word(v), false)
    {
      info := Info(false, false, false);
      if Coordinate(area, option) != v {
        info := info.(reloadParams := true);
        if paper != Custom {
          info := info.(reloadOptions := true);
          paper := Custom;
        }
      }
      area := WithCoordinate(area, option, v);
    }

    /** The geometry of a paper, with the doubles of the source. */
    method PaperArea(value: Paper) returns (a: Area)
      ensures a == AreaOf(hw, value)
    {
      hide Dimensions;
      var (x, y) := Size(hw, value);
      var xMax, yMax := Unfix(hw.xMax), Unfix(hw.yMax);
      var left := 0.0;
      if hw.canAdf {
        left := (xMax - x) / 2.0;
        if left < 0.0 {
          left := 0.0;
        }
      }
      a := Area(Fix(left), Fix(0.0), Fix(Min(x + left, xMax)), Fix(Min(y, yMax)));
    }

    /** The setter of the paper size: a new paper brings its geometry, the custom one keeps what is there. */
    method SetPaper(value: Paper) returns (info: Info)
      requires InOrder()
      modifies this`area, this`paper
      ensures InOrder() && Abstract() == Next(hw, old(Abstract()), PaperSize, PaperName(value))
      ensures info == Announcement(old(Abstract()), PaperSize, PaperName(value), false)
    {
      hide AreaOf;
      info := Info(false, false, false);
      if paper != value {
        if value != Custom {
          info := Info(true, true, false);
          area := PaperArea(value);
        }
        paper := value;
      }
    }

    /** The setter of the scan mode: compression goes with lineart, and comes back with it. */
    method SetMode(value: Mode) returns (info: Info)
      requires InOrder() && (value == Halftone ==> hw.halftone)
      modifies this`mode, this`compression, this`inactive, this`modeChanged
      ensures InOrder() && Abstract() == Next(hw, old(Abstract()), ScanMode, ModeName(value))
      ensures info == Announcement(old(Abstract()), ScanMode, ModeName(value), false)
    {
      info := Info(false, false, false);
      if mode != value {
        info := info.(reloadOptions := true);
        if value != Lineart {
          inactive := inactive + {CompressionOpt};
          if compression != NoCompression {
            compression := NoCompression;
          }
        } else {
          inactive := inactive - {CompressionOpt};
        }
        mode, modeChanged := value, true;
      }
    }

    /** The setter of the control panel. */
    method SetControlPanel(on: bool) returns (info: Info)
      requires InOrder()
      modifies this`controlPanel, this`inactive
      ensures InOrder() && Abstract() == Next(hw, old(Abstract()), ControlPanel, Flag(on))
      ensures info == Announcement(old(Abstract()), ControlPanel, Flag(on), false)
    {
      info := Info(false, false, false);
      if controlPanel != on {
        info := info.(reloadOptions := true);
        controlPanel := on;
        var controls := if hw.canAce then {AceFunction, AceSensitivity} else {Brightness, Threshold};
        inactive := if on then inactive + controls else inactive - controls;
      }
    }

    /** The setters without side effects. */
    method SetWord(option: Option, word: int) returns (info: Info)
      requires InOrder() && Plain(option)
      modifies this`words
      ensures InOrder() && Abstract() == Next(hw, old(Abstract()), option, Word(word))
      ensures info == Announcement(old(Abstract()), option, Word(word), false)
    {
      info := Info(false, option == Resolution && !(option in words && words[option] == word), false);
      words := words[option := word];
    }

    /** The setter of the compression. */
    method SetCompression(value: Compression) returns (info: Info)
      requires InOrder()
      modifies this`compression
      ensures InOrder() && Abstract() == Next(hw, old(Abstract()), CompressionOpt, CompressionName(value))
      ensures info == Announcement(old(Abstract()), CompressionOpt, CompressionName(value), false)
    {
      info := Info(false, false, false);
      compression := value;
    }

    /** The cases of sane_control_option for setting a value that has been constrained. */
    method Store(option: Option, v: Value, inexact: bool) returns (info: Info)
      requires InOrder() && Allowed(hw, option, v)
      modifies this`area, this`paper, this`mode, this`compression, this`controlPanel, this`words, this`inactive
      modifies this`modeChanged
      ensures InOrder() && Abstract() == Next(hw, old(Abstract()), option, v)
      ensures info == Announcement(old(Abstract()), option, v, inexact)
    {
      ValueShapes(hw, option, v);
      Inexact(Abstract(), option, v, inexact);
      hide *;
      if Geometry(option) {
        info := SetGeometry(option, v.word);
      } else if option == PaperSize {
        info := SetPaper(v.paper);
      } else if option == ScanMode {
        info := SetMode(v.mode);
      } else if option == CompressionOpt {
        info := SetCompression(v.compression);
      } else if option == ControlPanel {
        info := SetControlPanel(v.on);
      } else {
        info := SetWord(option, v.word);
      }
      info := info.(inexact := inexact);
    }

    /** sane_control_option for setting a value. A request that is refused has no effect; one that is accepted
        leads to the state it should, with the flags the values call for, and what has changed is announced. */
    method SetValue(option: Option, value: Value) returns (status: Status, info: Info)
      requires InOrder()
      modifies this
      ensures InOrder() && scanning == old(scanning)
      ensures Abstract() == if scanning then old(Abstract()) else Step(hw, old(Abstract()), option, value)
      ensures Replied(hw, scanning, old(Abstract()), option, value, status, info)
    {
      AcceptsIs(option, value);
      Replies(hw, scanning, Abstract(), option, value);
      hide *;
      status, info := Inval, Info(false, false, false);
      if scanning {
        status := DeviceBusy;
      } else if IsActive(option) && Allowed(hw, option, value) {
        status := Good;
        var v := Constrained(hw, option, value);
        info := Store(option, v, v != value);
      }
    }

    lemma AcceptsIs(option: Option, value: Value)
      requires InOrder()
      ensures Accepts(hw, Abstract(), option, value) <==> IsActive(option) && Allowed(hw, option, value)
    {
    }
  }

  /** What sane_control_option returns for a request. */
  ghost predicate Replied(hw: Hardware, scanning: bool, s: State, option: Option, value: Value, status: Status,
                          info: Info)
  {
    if scanning then status == DeviceBusy && info == Info(false, false, false)
    else if !Accepts(hw, s, option, value) then status == Inval && info == Info(false, false, false)
    else status == Good && info == Announced(hw, s, option, value)
  }

  lemma Replies(hw: Hardware, scanning: bool, s: State, option: Option, value: Value)
    ensures scanning ==> Replied(hw, scanning, s, option, value, DeviceBusy, Info(false, false, false))
    ensures !scanning && !Accepts(hw, s, option, value) ==>
              && Replied(hw, scanning, s, option, value, Inval, Info(false, false, false))
              && Step(hw, s, option, value) == s
    ensures !scanning && Accepts(hw, s, option, value) ==>
              var v := Constrained(hw, option, value);
              && Allowed(hw, option, v) && Step(hw, s, option, value) == Next(hw, s, option, v)
              && Replied(hw, scanning, s, option, value, Good, Announcement(s, option, v, v != value))
  {
    if Accepts(hw, s, option, value) {
      ConstrainedAllowed(hw, option, value);
    }
    hide Constrained, Next, Active, Announcement, Allowed;
  }

  lemma Inexact(s: State, option: Option, v: Value, inexact: bool)
    ensures Announcement(s, option, v, inexact) == Announcement(s, option, v, false).(inexact := inexact)
  {
  }

  lemma ValueShapes(hw: Hardware, option: Option, v: Value)
    requires Allowed(hw, option, v)
    ensures Geometry(option) ==> v == Word(v.word)
    ensures option == PaperSize ==> v == PaperName(v.paper)
    ensures option == ScanMode ==> v == ModeName(v.mode) && (v.mode == Halftone ==> hw.halftone)
    ensures option == CompressionOpt ==> v == CompressionName(v.compression)
    ensures option == ControlPanel ==> v == Flag(v.on)
    ensures Plain(option) ==> v == Word(v.word)
    ensures Geometry(option) || Plain(option) || option == PaperSize || option == ScanMode || option == CompressionOpt
            || option == ControlPanel
  {
  }

  predicate Plain(option: Option) {
    !Geometry(option) && option != PaperSize && option != ScanMode && option != CompressionOpt && option != ControlPanel
  }

  /** Any run of requests leads where the steps lead, with the flags the values call for. */
  method Run(hw: Hardware, requests: seq<(Option, Value)>) returns (s: Scanner)
    ensures fresh(s) && s.hw == hw && s.Abstract() == After(hw, requests, |requests|)
    ensures forall o: Option :: s.IsActive(o) <==> Active(hw, s.Abstract(), o)
  {
    hide Step, Active;
    s := new Scanner(hw);
    for i := 0 to |requests|
      invariant fresh(s) && s.hw == hw && s.InOrder() && !s.scanning && s.Abstract() == After(hw, requests, i)
    {
      var _, _ := s.SetValue(requests[i].0, requests[i].1);
    }
  }
}
