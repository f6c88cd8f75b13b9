/** The options of the Apple backend as a frontend sets them. The setters switch single options on and off;
    setting the mode recomputes everything. */
module AppleOptions {
  import opened AppleActivity
  import opened Constraints

  datatype Pattern = Spiral4x4 | Bayer4x4 | Download | Spiral8x8 | Bayer8x8

  /** A value as sane_control_option is given it; names are those that were matched. */
  datatype Value =
    | Initial
    | Word(word: int)
    | Table(words: seq<int>)
    | Text(text: string)
    | Flag(on: bool)
    | ModeName(mode: Mode)
    | SensorName(sensor: Sensor)
    | PatternName(pattern: Pattern)

  datatype Status = Good | Inval | Unsupported | DeviceBusy

  datatype Info = Info(reloadOptions: bool, reloadParams: bool, inexact: bool)

  const BYTE_RANGE := Range(1, 255, 1)
  const U8_RANGE := Range(0, 255, 0)
  const RESOLUTIONS: seq<int> := [75, 100, 150, 200, 300]

  function Modes(model: Model): set<Mode> {
    match model
    case AppleScanner => {Lineart, Halftone, Gray16}
    case OneScanner => {Lineart, Halftone, Gray16, Gray}
    case ColorOneScanner => {Lineart, Gray16, Gray, BiColor, Color}
  }

  /** The patterns on offer; only the OneScanner adds the 8x8 ones. */
  function Patterns(model: Model): set<Pattern> {
    {Spiral4x4, Bayer4x4, Download} + if model.OneScanner? then {Spiral8x8, Bayer8x8} else {}
  }

  const GRAY_MAPS: seq<string> := ["dark", "normal", "light"]
  const SPEEDS: seq<string> := ["normal", "high", "high wo H/S"]

  /** The names of the grey maps and of the speeds. */
  function Names(option: Option): seq<string> {
    if option == Fixed(GrayMap) then GRAY_MAPS else SPEEDS
  }

  // ---------- Kinds of options ----------

  predicate Settable(option: Option) {
    option != Fixed(NumOpts) && option != Fixed(ModelName)
  }

  predicate Button(option: Option) {
    option == DownloadCct || option == DownloadGamma || option == Fixed(DownloadCalibration)
  }

  predicate IsSwitch(option: Option) {
    option == AutoBackground || option == VoltRef || option == CustomCct || option == CustomGamma
  }

  predicate IsTable(option: Option) {
    option == Cct || option == GammaR || option == GammaG || option == GammaB
  }

  predicate IsLevel(option: Option) {
    || option == Brightness || option == Contrast || option == Threshold || option == AutoBackgroundThreshold
    || option == VoltRefTop || option == VoltRefBottom
  }

  predicate IsText(option: Option) {
    option == HalftoneFile || option == Fixed(GrayMap) || option == Fixed(Speed)
  }

  /** The corners of the scan area. */
  predicate IsCorner(option: Option) {
    option.Fixed? && (option.fixed == TlX || option.fixed == TlY || option.fixed == BrX || option.fixed == BrY)
  }

  // ---------- What setting an option should do ----------

  /** What the constraint of an option lets through: names must be on offer. */
  predicate Allowed(model: Model, option: Option, value: Value) {
    if option == ModeOpt then value.ModeName? && value.mode in Modes(model)
    else if option == ColorSensor then value.SensorName?
    else if option == HalftonePattern then value.PatternName? && value.pattern in Patterns(model)
    else if IsTable(option) then value.Table?
    else if IsText(option) then value.Text? && (option != HalftoneFile ==> value.text in Names(option))
    else if IsLevel(option) || option == Fixed(Resolution) || IsCorner(option) then value.Word?
    else if Button(option) then true
    else value.Flag?
  }

  /** The value that is stored: numbers come into their range or onto their list. */
  function Constrained(option: Option, value: Value): Value {
    if IsLevel(option) && value.Word? then Word(Ranged(BYTE_RANGE, value.word))
    else if IsTable(option) && value.Table? then Table(RangedAll(U8_RANGE, value.words))
    else if option == Fixed(Resolution) && value.Word? then Word(Nearest(RESOLUTIONS, value.word))
    else value
  }

  /** The values of all options but the corners, and whether the halftone file is active. */
  datatype State = State(settings: Settings, pattern: Pattern, values: map<Option, Value>, file: bool)

  /** The value of an option; `Initial` stands for what init_options has given it. */
  function ValueOf(s: State, option: Option): Value {
    if option == ModeOpt then ModeName(s.settings.mode)
    else if option == ColorSensor then SensorName(s.settings.sensor)
    else if option == HalftonePattern then PatternName(s.pattern)
    else if option == AutoBackground then Flag(s.settings.autoBackground)
    else if option == VoltRef then Flag(s.settings.voltRef)
    else if option == CustomCct then Flag(s.settings.cct)
    else if option == CustomGamma then Flag(s.settings.gamma)
    else if option in s.values then s.values[option]
    else Initial
  }

  predicate IsActiveIn(model: Model, s: State, option: Option) {
    if option == HalftoneFile then s.file else Active(model, s.settings, option)
  }

  /** Whether sane_control_option gets as far as setting the value. */
  predicate Accepts(model: Model, s: State, option: Option, value: Value) {
    IsActiveIn(model, s, option) && Settable(option) && Allowed(model, option, value)
  }

  function Switched(s: Settings, option: Option, on: bool): Settings {
    if option == AutoBackground then s.(autoBackground := on)
    else if option == VoltRef then s.(voltRef := on)
    else if option == CustomCct then s.(cct := on)
    else s.(gamma := on)
  }

  /** The state after a value has been accepted. */
  function Next(model: Model, s: State, option: Option, value: Value): State
    requires Allowed(model, option, value)
  {
    if option == ModeOpt then
      s.(settings := s.settings.(mode := value.mode), file := value.mode == Halftone && s.pattern == Download)
    else if option == ColorSensor then s.(settings := s.settings.(sensor := value.sensor))
    else if option == HalftonePattern then s.(pattern := value.pattern, file := s.file && value.pattern == Download)
    else if IsSwitch(option) then s.(settings := Switched(s.settings, option, value.on))
    else if Button(option) || IsCorner(option) then s
    else s.(values := s.values[option := Constrained(option, value)])
  }

  function Step(model: Model, s: State, option: Option, value: Value): State {
    if Accepts(model, s, option, value) then Next(model, s, option, value) else s
  }

  /** What whoever set an option should reload. */
  function Announced(option: Option, value: Value): Info {
    var inexact := Constrained(option, value) != value;
    if IsCorner(option) || option == Fixed(Resolution) then Info(true, true, true)
    else if option == ModeOpt || option == ColorSensor then Info(true, true, inexact)
    else Info(option == HalftonePattern || IsSwitch(option), false, inexact)
  }

  /** The buttons do nothing yet, and neither does the download of a pattern. */
  function StatusOf(option: Option, value: Value): Status {
    if Button(option) || value == PatternName(Download) then Unsupported else Good
  }

  /** The modes and patterns on offer: halftone is not in colour, grey not on the AppleScanner, two colours and full
      colour only on the ColorOneScanner. */
  lemma OfferLaw(model: Model, mode: Mode, pattern: Pattern)
    ensures Allowed(model, ModeOpt, ModeName(mode)) <==>
            match mode
            case Lineart | Gray16 => true
            case Halftone => model != ColorOneScanner
            case Gray => model != AppleScanner
            case BiColor | Color => model == ColorOneScanner
    ensures Allowed(model, HalftonePattern, PatternName(pattern)) <==>
            (pattern == Spiral8x8 || pattern == Bayer8x8 ==> model == OneScanner)
    ensures forall text ::
              && (Allowed(model, Fixed(GrayMap), Text(text)) <==> text == "dark" || text == "normal" || text == "light")
              && (Allowed(model, Fixed(Speed), Text(text)) <==>
                    text == "normal" || text == "high" || text == "high wo H/S")
              && Allowed(model, HalftoneFile, Text(text))
  {
  }

  /** The numbers that can be stored. */
  lemma LimitsLaw(w: int, words: seq<int>)
    ensures forall o | o in {Brightness, Contrast, Threshold, AutoBackgroundThreshold, VoltRefTop, VoltRefBottom} ::
              Constrained(o, Word(w)) == Word(if w < 1 then 1 else if w > 255 then 255 else w)
    ensures forall o | o in {Cct, GammaR, GammaG, GammaB} ::
              && Constrained(o, Table(words)).Table? && |Constrained(o, Table(words)).words| == |words|
              && forall i | 0 <= i < |words| ::
                   Constrained(o, Table(words)).words[i] ==
                   if words[i] < 0 then 0 else if words[i] > 255 then 255 else words[i]
  {
  }

  /** The resolutions that can be stored: the nearest of five. */
  lemma ResolutionLaw(w: int)
    ensures Constrained(Fixed(Resolution), Word(w)).Word?
    ensures var r := Constrained(Fixed(Resolution), Word(w)).word;
            && (w <= 87 ==> r == 75) && (88 <= w <= 125 ==> r == 100) && (126 <= w <= 175 ==> r == 150)
            && (176 <= w <= 250 ==> r == 200) && (w > 250 ==> r == 300)
  {
    var list := RESOLUTIONS;
    assert list[0] == 75 && list[1] == 100 && list[2] == 150 && list[3] == 200 && list[4] == 300;
    var k := NearestIndex(list, w, 5);
    assert forall i | 0 <= i < 5 :: Distance(w, list[k]) <= Distance(w, list[i]);
    assert Distance(w, list[k]) <= Distance(w, 75) && Distance(w, list[k]) <= Distance(w, 100)
           && Distance(w, list[k]) <= Distance(w, 150) && Distance(w, list[k]) <= Distance(w, 200)
           && Distance(w, list[k]) <= Distance(w, 300);
    assert k > 0 ==> Distance(w, list[k]) < Distance(w, list[0]);
    assert k > 1 ==> Distance(w, list[k]) < Distance(w, list[1]);
    assert k > 2 ==> Distance(w, list[k]) < Distance(w, list[2]);
    assert k > 3 ==> Distance(w, list[k]) < Distance(w, list[3]);
  }

  /** What is announced: the corners, the resolution, the mode and the sensor have the parameters reloaded; these, the
      pattern and the switches the options. A value is inexact if another one is stored, and a corner and the resolution
      always are. */
  lemma ReplyLaw(option: Option, value: Value)
    ensures var info := Announced(option, value);
            var area := option in {Fixed(TlX), Fixed(TlY), Fixed(BrX), Fixed(BrY), Fixed(Resolution)};
            && (info.reloadParams <==> area || option == ModeOpt || option == ColorSensor)
            && (info.reloadOptions <==>
                  || info.reloadParams
                  || option in {HalftonePattern, AutoBackground, VoltRef, CustomCct, CustomGamma})
            && (info.inexact <==> area || Constrained(option, value) != value)
    ensures StatusOf(option, value) == Unsupported <==>
            option in {DownloadCct, DownloadGamma, Fixed(DownloadCalibration)} || value == PatternName(Download)
    ensures StatusOf(option, value) in {Good, Unsupported}
    ensures Settable(option) <==> !(option in {Fixed(NumOpts), Fixed(ModelName)})
  {
  }

  /** Setting an option stores its value, brought into range, and no other. */
  lemma NextStores(model: Model, s: State, option: Option, value: Value)
    requires Allowed(model, option, value)
    ensures Button(option) ==> Next(model, s, option, value) == s
    ensures !Button(option) && !IsCorner(option) ==>
              ValueOf(Next(model, s, option, value), option) == Constrained(option, value)
    ensures forall o: Option | o != option :: ValueOf(Next(model, s, option, value), o) == ValueOf(s, o)
  {
    assert !Button(option) && !IsCorner(option) ==>
             ValueOf(Next(model, s, option, value), option) == Constrained(option, value) by {
      hide Modes, Patterns, IsText;
    }
    forall o: Option | o != option
      ensures ValueOf(Next(model, s, option, value), o) == ValueOf(s, o)
    {
      OthersKept(model, s, option, value, o);
    }
  }

  lemma OthersKept(model: Model, s: State, option: Option, value: Value, o: Option)
    requires Allowed(model, option, value) && o != option
    ensures ValueOf(Next(model, s, option, value), o) == ValueOf(s, o)
  {
    if IsSwitch(option) {
      SwitchKeeps(s, option, value.on, o);
      hide ValueOf;
    } else {
      hide Constrained, Modes, Patterns, IsTable, IsText, IsLevel, IsCorner, Button, Switched;
    }
  }

  lemma SwitchKeeps(s: State, option: Option, on: bool, o: Option)
    requires IsSwitch(option) && o != option
    ensures ValueOf(s.(settings := Switched(s.settings, option, on)), o) == ValueOf(s, o)
  {
  }

  // ---------- Runs ----------

  function InitialState(): State {
    State(Settings(Lineart, Green, false, false, false, false), Spiral4x4, map[], false)
  }

  /** The state after the first n requests. */
  function After(model: Model, requests: seq<(Option, Value)>, n: nat): State
    requires n <= |requests|
  {
    if n == 0 then InitialState()
    else Step(model, After(model, requests, n - 1), requests[n - 1].0, requests[n - 1].1)
  }

  /** The halftone file has the flag a full mode_update would give it. */
  predicate FileInOrder(s: State) {
    s.file <==> s.settings.mode == Halftone && s.pattern == Download
  }

  /** The halftone file is only ever active when it should be. */
  ghost predicate Sound(model: Model, s: State) {
    s.settings.mode in Modes(model) && s.pattern in Patterns(model) && (s.file ==> FileInOrder(s))
  }

  /** Only the mode and the pattern matter to the halftone file. */
  lemma FileNext(model: Model, s: State, option: Option, value: Value)
    requires Allowed(model, option, value)
    ensures var t := Next(model, s, option, value);
            && t.settings.mode == (if option == ModeOpt then value.mode else s.settings.mode)
            && t.pattern == (if option == HalftonePattern then value.pattern else s.pattern)
            && t.file == (if option == ModeOpt then FileInOrder(t.(file := true))
                          else s.file && (option == HalftonePattern ==> value.pattern == Download))
  {
    hide Modes, Patterns, Constrained, IsTable, IsText, IsLevel, IsCorner, Button;
  }

  lemma StepSound(model: Model, s: State, option: Option, value: Value)
    requires Sound(model, s)
    ensures Sound(model, Step(model, s, option, value))
  {
    if Accepts(model, s, option, value) {
      FileNext(model, s, option, value);
    }
    hide Next, Modes, Patterns, IsTable, IsText, IsLevel, IsCorner, IsSwitch, Button;
  }

  lemma {:induction false} AfterSound(model: Model, requests: seq<(Option, Value)>, n: nat)
    requires n <= |requests|
    ensures Sound(model, After(model, requests, n))
  {
    if n > 0 {
      AfterSound(model, requests, n - 1);
      StepSound(model, After(model, requests, n - 1), requests[n - 1].0, requests[n - 1].1);
    }
  }

  /** The flag of the halftone file gets out of order by one request only: choosing the download pattern when
      another one was chosen. It gets back in order by choosing a mode or another pattern. */
  lemma FileOrder(model: Model, s: State, option: Option, value: Value)
    requires Sound(model, s)
    ensures FileInOrder(s) ==>
              (FileInOrder(Step(model, s, option, value)) <==>
                 !(Accepts(model, s, option, value) && option == HalftonePattern && value == PatternName(Download)
                   && s.pattern != Download))
    ensures !FileInOrder(s) ==>
              (FileInOrder(Step(model, s, option, value)) <==>
                 Accepts(model, s, option, value)
                 && (option == ModeOpt || (option == HalftonePattern && value != PatternName(Download))))
  {
    if Accepts(model, s, option, value) {
      FileNext(model, s, option, value);
    }
    hide Next, Modes, Patterns, IsTable, IsText, IsLevel, IsCorner, IsSwitch, Button, Settable;
  }

  /** So the flag depends on the history: two runs that end with the same values differ in it. */
  lemma FileDependsOnHistory()
    ensures var (a, b) := ([(ModeOpt, ModeName(Halftone)), (HalftonePattern, PatternName(Download))],
                           [(ModeOpt, ModeName(Halftone)), (HalftonePattern, PatternName(Download)),
                            (ModeOpt, ModeName(Halftone))]);
            var (s, t) := (After(OneScanner, a, 2), After(OneScanner, b, 3));
            s.settings == t.settings && s.pattern == t.pattern && s.values == t.values && !s.file && t.file
  {
    var a := [(ModeOpt, ModeName(Halftone)), (HalftonePattern, PatternName(Download))];
    var b := [(ModeOpt, ModeName(Halftone)), (HalftonePattern, PatternName(Download)), (ModeOpt, ModeName(Halftone))];
    var s := State(Settings(Halftone, Green, false, false, false, false), Download, map[], false);
    assert After(OneScanner, a, 1) == After(OneScanner, b, 1) == s.(pattern := Spiral4x4);
    assert After(OneScanner, a, 2) == After(OneScanner, b, 2) == s;
  }

  // ---------- The driver ----------

  /** What sane_control_option returns for a request. */
  ghost predicate Replied(model: Model, scanning: bool, s: State, option: Option, value: Value, status: Status,
                          info: Info)
  {
    if scanning then status == DeviceBusy && info == Info(false, false, false)
    else if !Accepts(model, s, option, value) then status == Inval && info == Info(false, false, false)
    else status == StatusOf(option, value) && info == Announced(option, value)
  }

  lemma RepliesAccepted(model: Model, s: State, option: Option, value: Value)
    requires Accepts(model, s, option, value)
    ensures Step(model, s, option, value) == Next(model, s, option, value)
    ensures Replied(model, false, s, option, value, StatusOf(option, value), Announced(option, value))
  {
    hide Accepts, Next, StatusOf, Announced;
  }

  lemma RepliesRefused(model: Model, scanning: bool, s: State, option: Option, value: Value)
    requires scanning || !Accepts(model, s, option, value)
    ensures !scanning ==> Step(model, s, option, value) == s
    ensures var status := if scanning then DeviceBusy else Inval;
            Replied(model, scanning, s, option, value, status, Info(false, false, false))
  {
    hide Accepts, Next, StatusOf, Announced;
  }

  predicate IsName(option: Option) {
    option == HalftonePattern || option == ColorSensor || option == ModeOpt
  }

  /** What the cases of sane_control_option have to do. */
  lemma ForSwitch(model: Model, s: State, option: Option, value: Value)
    requires Allowed(model, option, value) && IsSwitch(option)
    ensures value.Flag? && StatusOf(option, value) == Good && Announced(option, value) == Info(true, false, false)
    ensures Next(model, s, option, value) == s.(settings := Switched(s.settings, option, value.on))
  {
    assert !IsLevel(option) && !IsTable(option) && option != Fixed(Resolution) && !IsCorner(option);
    hide IsLevel, IsTable, IsCorner, Switched;
  }

  lemma ForAct(model: Model, s: State, option: Option, value: Value)
    requires Allowed(model, option, value) && (Button(option) || IsCorner(option))
    ensures Next(model, s, option, value) == s && Announced(option, value).reloadParams == IsCorner(option)
    ensures Button(option) ==> StatusOf(option, value) == Unsupported
    ensures !Button(option) ==> StatusOf(option, value) == Good
  {
    hide Constrained, Modes, Patterns;
  }

  lemma ForPlain(model: Model, option: Option, value: Value)
    requires Allowed(model, option, value)
    requires !IsName(option) && !IsSwitch(option) && !Button(option) && !IsCorner(option)
    ensures StatusOf(option, value) == Good
    ensures option == Fixed(Resolution) ==> Announced(option, value).reloadParams
  {
    hide Constrained, Modes, Patterns;
  }

  lemma ForName(option: Option, value: Value)
    ensures option == ModeOpt ==> Announced(option, value).reloadParams
  {
  }

  class Scanner {
    const model: Model
    var settings: Settings
    var pattern: Pattern
    var values: map<Option, Value>
    /** The corners of the scan area, which calc_parameters rewrites. */
    var corners: (int, int, int, int)
    var inactive: set<Option>
    var scanning: bool

    ghost function Abstract(): State
      reads this`settings, this`pattern, this`values, this`inactive
    {
      State(settings, pattern, values, HalftoneFile !in inactive)
    }

    /** The values are on offer, the flags are in order, and the halftone file is only ever active when the
        halftone mode downloads its pattern. */
    ghost predicate Valid()
      reads this`settings, this`pattern, this`values, this`inactive
    {
      Sound(model, Abstract()) && InOrder(model, settings, inactive)
    }

    /** init_options */
    constructor (model: Model)
      ensures this.model == model && Valid() && !scanning && Abstract() == InitialState()
      ensures settings == Settings(Lineart, Green, false, false, false, false) && pattern == Spiral4x4
    {
      this.model := model;
      settings := Settings(Lineart, Green, false, false, false, false);
      pattern := Spiral4x4;
      values := map[];
      corners := (0, 0, 0, 0);
      scanning := false;
      inactive := InitiallyInactive(model);
      new;
      hide InitiallyInactive, Prepared, InOrder;
      InitiallyPrepared(model, settings);
      ModeUpdate(Lineart);
    }

    predicate IsActive(option: Option)
      reads this
    {
      option !in inactive
    }

    method Enable(options: set<Option>)
      modifies this`inactive
      ensures inactive == old(inactive) - options
    {
      inactive := inactive - options;
    }

    method Disable(options: set<Option>)
      modifies this`inactive
      ensures inactive == old(inactive) + options
    {
      inactive := inactive + options;
    }

    /** gamma_update: the flags of the gamma options, whatever they were before; nothing else changes. */
    method GammaUpdate()
      modifies this`inactive
      ensures Updated(model, settings, old(inactive), inactive, GammaGroup)
    {
      var gammaMode := model == ColorOneScanner && (settings.mode == Color || GrayMode(settings.mode));
      if !gammaMode {
        Disable({CustomGamma});
      } else {
        Enable({CustomGamma});
      }
      if gammaMode && settings.gamma {
        Enable({DownloadGamma});
        if settings.mode == Color || settings.sensor == All {
          Enable({GammaR, GammaG, GammaB});
        } else if settings.sensor == Red {
          Enable({GammaR});
          Disable({GammaG, GammaB});
        } else if settings.sensor == Green {
          Disable({GammaR, GammaB});
          Enable({GammaG});
        } else {
          Disable({GammaR, GammaG});
          Enable({GammaB});
        }
      } else {
        Disable({GammaR, GammaG, GammaB, DownloadGamma});
      }
    }

    /** The first part of mode_update: the options that depend on the mode alone. */
    method ModeOptions(mode: Mode)
      requires mode == settings.mode
      modifies this`inactive
      ensures Updated(model, settings, old(inactive), inactive, ModeGroup)
    {
      Disable({ColorSensor});
      match mode {
        case Lineart =>
          if model == AppleScanner {
            Enable({AutoBackground});
          } else {
            Disable({AutoBackground});
          }
          Disable({HalftonePattern});
        case Halftone =>
          Disable({AutoBackground});
          Enable({HalftonePattern});
        case Gray16 | Gray =>
          Disable({AutoBackground, HalftonePattern});
          if model == ColorOneScanner {
            Enable({ColorSensor});
          }
        case BiColor =>
          Disable({AutoBackground, HalftonePattern});
        case Color =>
          Disable({AutoBackground, HalftonePattern});
      }
    }

    /** The part of mode_update about thresholds, brightness and the voltage reference. */
    method LevelOptions(mode: Mode)
      requires mode == settings.mode && (AutoBackground in inactive <==> !Active(model, settings, AutoBackground))
      requires model != ColorOneScanner ==> VoltRef in inactive && VoltRefTop in inactive && VoltRefBottom in inactive
      modifies this`inactive
      ensures Updated(model, settings, old(inactive), inactive, LevelGroup)
    {
      hide GammaChannel, GrayMode, FixedActive;
      if Thresholded(mode) {
        Disable({Brightness, Contrast, VoltRef, VoltRefTop, VoltRefBottom});
        if IsActive(AutoBackground) && settings.autoBackground {
          Disable({Threshold});
          Enable({AutoBackgroundThreshold});
        } else {
          Enable({Threshold});
          Disable({AutoBackgroundThreshold});
        }
      } else {
        Disable({Threshold, AutoBackgroundThreshold});
        if model == ColorOneScanner {
          Enable({VoltRef});
          if settings.voltRef {
            Enable({VoltRefTop, VoltRefBottom});
            Disable({Brightness, Contrast});
          } else {
            Disable({VoltRefTop, VoltRefBottom});
            Enable({Brightness, Contrast});
          }
        } else {
          Enable({Brightness, Contrast});
        }
      }
    }

    /** The part of mode_update about the colour correction table. */
    method CctUpdate(mode: Mode)
      requires mode == settings.mode
      modifies this`inactive
      ensures Updated(model, settings, old(inactive), inactive, CctGroup)
    {
      if mode == Color {
        Enable({CustomCct});
      } else {
        Disable({CustomCct});
      }
      if mode == Color && settings.cct {
        Enable({Cct, DownloadCct});
      } else {
        Disable({Cct, DownloadCct});
      }
    }

    /** mode_update: puts every flag in order, whatever the flags of the options it covers were. It is
        the one place where the halftone file can become active. */
    method ModeUpdate(mode: Mode)
      requires settings.mode == mode && Prepared(model, settings, inactive)
      modifies this`inactive
      ensures InOrder(model, settings, inactive)
      ensures HalftoneFile !in inactive <==> mode == Halftone && pattern == Download
    {
      hide Active, Constant, Updated, Prepared;
      ghost var i0 := inactive;
      ModeOptions(mode);
      ghost var i1 := inactive;
      LevelsReady(model, settings, i0, i1);
      LevelOptions(mode);
      ghost var i2 := inactive;
      if IsActive(HalftonePattern) && pattern == Download {
        Enable({HalftoneFile});
      } else {
        Disable({HalftoneFile});
      }
      ghost var i3 := inactive;
      CctUpdate(mode);
      ghost var i4 := inactive;
      GammaUpdate();
      AllUpdated(model, settings, i0, i1, i2, i3, i4, inactive);
      PatternReady(model, settings, i1, i2, i3, i4, inactive);
    }

    /** calc_parameters, as far as the options go: it may rewrite the corners. */
    method CalcParameters()
      modifies this`corners
    {
      var x0, y0, x1, y1 := *, *, *, *;
      corners := (x0, y0, x1, y1);
    }

    /** The setter of the background adjustment: two flags, not the whole of mode_update. */
    method SetAutoBackground(on: bool)
      requires Valid() && IsActive(AutoBackground)
      modifies this`settings, this`inactive
      ensures Valid() && Abstract() == old(Abstract()).(settings := old(settings).(autoBackground := on))
    {
      hide InOrder;
      AutoBackgroundKeeps(model, settings, inactive, on);
      settings := settings.(autoBackground := on);
      if on {
        Disable({Threshold});
        Enable({AutoBackgroundThreshold});
      } else {
        Enable({Threshold});
        Disable({AutoBackgroundThreshold});
      }
    }

    /** The setter of the voltage reference. */
    method SetVoltRef(on: bool)
      requires Valid() && IsActive(VoltRef)
      modifies this`settings, this`inactive
      ensures Valid() && Abstract() == old(Abstract()).(settings := old(settings).(voltRef := on))
    {
      hide InOrder;
      VoltRefKeeps(model, settings, inactive, on);
      settings := settings.(voltRef := on);
      if on {
        Disable({Brightness, Contrast});
        Enable({VoltRefTop, VoltRefBottom});
      } else {
        Enable({Brightness, Contrast});
        Disable({VoltRefTop, VoltRefBottom});
      }
    }

    /** The setter of the custom colour correction. */
    method SetCustomCct(on: bool)
      requires Valid() && IsActive(CustomCct)
      modifies this`settings, this`inactive
      ensures Valid() && Abstract() == old(Abstract()).(settings := old(settings).(cct := on))
    {
      hide InOrder;
      CctKeeps(model, settings, inactive, on);
      settings := settings.(cct := on);
      if on {
        Enable({Cct, DownloadCct});
      } else {
        Disable({Cct, DownloadCct});
      }
    }

    /** The setters of custom gamma and of the sensor recompute the gamma options only. */
    method SetGamma(gamma: bool, sensor: Sensor)
      requires Valid()
      modifies this`settings, this`inactive
      ensures Valid() && Abstract() == old(Abstract()).(settings := old(settings).(gamma := gamma, sensor := sensor))
    {
      hide InOrder, Active;
      ghost var before := settings;
      settings := settings.(gamma := gamma, sensor := sensor);
      GammaUpdate();
      GammaKeeps(model, before, settings, old(inactive), inactive);
    }

    /** The setter of the halftone pattern. The download pattern is refused but stored, and the file
        option keeps its flag; any other pattern makes the file inactive. */
    method SetPattern(value: Pattern) returns (status: Status)
      requires Valid() && value in Patterns(model) && IsActive(HalftonePattern)
      modifies this`pattern, this`inactive
      ensures Valid() && status == if value == Download then Unsupported else Good
      ensures var s := old(Abstract()); Abstract() == s.(pattern := value, file := s.file && value == Download)
    {
      pattern := value;
      if value == Download {
        return Unsupported;
      }
      Disable({HalftoneFile});
      return Good;
    }

    /** The setter of the mode recomputes everything. */
    method SetMode(mode: Mode)
      requires Valid() && mode in Modes(model)
      modifies this`settings, this`inactive, this`corners
      ensures Valid() && settings == old(settings).(mode := mode)
      ensures Abstract().file <==> mode == Halftone && pattern == Download
    {
      hide InOrder, Prepared;
      ModeKeepsConstant(model, settings, settings.(mode := mode), inactive);
      settings := settings.(mode := mode);
      ModeUpdate(mode);
      CalcParameters();
    }

    /** The options that choose from a list of names. */
    method Choose(option: Option, value: Value) returns (status: Status, info: Info)
      requires Valid() && Allowed(model, option, value) && IsActive(option)
      requires IsName(option)
      modifies this`settings, this`pattern, this`inactive, this`corners
      ensures Valid() && Abstract() == Next(model, old(Abstract()), option, value)
      ensures status == StatusOf(option, value)
      ensures info == Announced(option, value) && info.reloadOptions
      ensures option != ModeOpt ==> corners == old(corners)
    {
      hide Valid, Modes, Patterns;
      status := Good;
      info := Info(true, option != HalftonePattern, false);
      if option == HalftonePattern {
        status := SetPattern(value.pattern);
      } else if option == ColorSensor {
        SetGamma(settings.gamma, value.sensor);
      } else {
        SetMode(value.mode);
      }
    }

    /** The four switches. */
    method Switch(option: Option, on: bool) returns (info: Info)
      requires Valid() && IsActive(option) && IsSwitch(option)
      modifies this`settings, this`inactive
      ensures Valid()
      ensures var s := old(Abstract()); Abstract() == s.(settings := Switched(s.settings, option, on))
      ensures info == Info(true, false, false)
    {
      hide Valid;
      info := Info(true, false, false);
      if option == AutoBackground {
        SetAutoBackground(on);
      } else if option == VoltRef {
        SetVoltRef(on);
      } else if option == CustomCct {
        SetCustomCct(on);
      } else {
        SetGamma(on, settings.sensor);
      }
    }

    /** The buttons, which do nothing yet, and the corners, which are calc_parameters' business. */
    method Act(option: Option) returns (status: Status)
      requires Button(option) || IsCorner(option)
      modifies this`corners
      ensures status == if Button(option) then Unsupported else Good
      ensures Button(option) ==> corners == old(corners)
    {
      status := Unsupported;
      if !Button(option) {
        CalcParameters();
        status := Good;
      }
    }

    /** The options without side effects; the resolution has the area recalculated. */
    method SetPlain(option: Option, value: Value)
      requires Valid() && Allowed(model, option, value)
      requires !IsName(option) && !IsSwitch(option) && !Button(option) && !IsCorner(option)
      modifies this`values, this`corners
      ensures Valid() && Abstract() == Next(model, old(Abstract()), option, value)
      ensures option != Fixed(Resolution) ==> corners == old(corners)
    {
      values := values[option := Constrained(option, value)];
      if option == Fixed(Resolution) {
        CalcParameters();
      }
    }

    /** The cases of sane_control_option for setting a value. */
    method Store(option: Option, value: Value) returns (status: Status, info: Info)
      requires Valid() && Allowed(model, option, value) && IsActive(option)
      modifies this`settings, this`pattern, this`values, this`inactive, this`corners
      ensures Valid() && Abstract() == Next(model, old(Abstract()), option, value)
      ensures status == StatusOf(option, value)
      ensures info == Announced(option, value)
      ensures inactive != old(inactive) ==> info.reloadOptions
      ensures corners != old(corners) ==> info.reloadParams
    {
      hide *;
      status := Good;
      info := Announced(option, value);
      if IsName(option) {
        ForName(option, value);
        status, info := Choose(option, value);
      } else if IsSwitch(option) {
        ForSwitch(model, Abstract(), option, value);
        info := Switch(option, value.on);
      } else if Button(option) || IsCorner(option) {
        ForAct(model, Abstract(), option, value);
        status := Act(option);
      } else {
        ForPlain(model, option, value);
        SetPlain(option, value);
      }
    }

    /** sane_control_option for setting a value. A request that is refused has no effect; one that is accepted
        leads to the state it should; whoever asked is told to reload the options whenever one of them changed
        its activity, and the parameters whenever the corners moved. Every run of requests keeps the flags in order. */
    method SetValue(option: Option, value: Value) returns (status: Status, info: Info)
      requires Valid()
      modifies this
      ensures Valid() && scanning == old(scanning)
      ensures Abstract() == if scanning then old(Abstract()) else Step(model, old(Abstract()), option, value)
      ensures Replied(model, scanning, old(Abstract()), option, value, status, info)
      ensures inactive != old(inactive) ==> info.reloadOptions
      ensures corners != old(corners) ==> info.reloadParams
    {
      AcceptsIs(option, value);
      if !scanning && Accepts(model, Abstract(), option, value) {
        RepliesAccepted(model, Abstract(), option, value);
      } else {
        RepliesRefused(model, scanning, Abstract(), option, value);
      }
      hide *;
      status, info := Inval, Info(false, false, false);
      if scanning {
        status := DeviceBusy;
      } else if IsActive(option) && Settable(option) && Allowed(model, option, value) {
        status, info := Store(option, value);
      }
    }

    lemma FlagsOf()
      requires Valid()
      ensures forall o: Option | o != HalftoneFile :: IsActive(o) <==> Active(model, settings, o)
    {
      hide Active, Sound;
    }

    lemma AcceptsIs(option: Option, value: Value)
      requires Valid()
      ensures Accepts(model, Abstract(), option, value) <==>
                IsActive(option) && Settable(option) && Allowed(model, option, value)
    {
    }

    /** Recomputing from scratch changes nothing: the setters have already done what a full mode_update would
        do, for every option but the halftone file, and for that one too if its flag is in order. */
    method Recompute()
      requires Valid()
      modifies this`inactive
      ensures forall o: Option | o != HalftoneFile :: o in inactive <==> o in old(inactive)
      ensures inactive == old(inactive) <==> FileInOrder(old(Abstract()))
    {
      hide Active;
      ModeKeepsConstant(model, settings, settings, inactive);
      ModeUpdate(settings.mode);
    }
  }

  /** Any run of requests leads where the steps lead, with all flags but that of the halftone file what the values
      call for. */
  method Run(model: Model, requests: seq<(Option, Value)>) returns (s: Scanner)
    ensures fresh(s) && s.model == model && s.Abstract() == After(model, requests, |requests|)
    ensures forall o: Option | o != HalftoneFile :: s.IsActive(o) <==> Active(model, s.settings, o)
  {
    hide Step, Active, Scanner.Valid, After;
    s := new Scanner(model);
    assert After(model, requests, 0) == InitialState() by {
      AfterNone(model, requests);
    }
    for i := 0 to |requests|
      invariant fresh(s) && s.model == model && s.Valid() && !s.scanning && s.Abstract() == After(model, requests, i)
    {
      AfterOne(model, requests, i);
      var _, _ := s.SetValue(requests[i].0, requests[i].1);
    }
    s.FlagsOf();
  }

  lemma AfterNone(model: Model, requests: seq<(Option, Value)>)
    ensures After(model, requests, 0) == InitialState()
  {
  }

  lemma AfterOne(model: Model, requests: seq<(Option, Value)>, i: nat)
    requires i < |requests|
    ensures After(model, requests, i + 1) == Step(model, After(model, requests, i), requests[i].0, requests[i].1)
  {
  }
}
