/** Which options of the Apple backend should be active, as a function of the scanner model and of the values
    of a few of them. */
module AppleActivity {
  datatype Model = AppleScanner | OneScanner | ColorOneScanner
  datatype Mode = Lineart | Halftone | Gray16 | Gray | BiColor | Color
  datatype Sensor = All | Red | Green | Blue

  /** The options that no setter and no mode ever switches on or off. */
  datatype FixedOption =
    | NumOpts | ModelName | Resolution | Preview | TlX | TlY | BrX | BrY | GrayMap | Lamp | Wait | Calibrate | Speed
    | Led | Ccd | MtfCircuit | Icp | Polarity | DownloadCalibration

  datatype Option =
    | Fixed(fixed: FixedOption) | ModeOpt
    | HalftonePattern | HalftoneFile | AutoBackground | ColorSensor
    | Brightness | Contrast | Threshold | AutoBackgroundThreshold | VoltRef | VoltRefTop | VoltRefBottom
    | CustomCct | Cct | DownloadCct
    | CustomGamma | GammaR | GammaG | GammaB | DownloadGamma

  /** The values that decide which options are active. */
  datatype Settings = Settings(mode: Mode, sensor: Sensor, autoBackground: bool, voltRef: bool, cct: bool, gamma: bool)

  predicate Thresholded(mode: Mode) {
    mode == Lineart || mode == BiColor
  }

  predicate GrayMode(mode: Mode) {
    mode == Gray16 || mode == Gray
  }

  /** A colour channel has its own gamma vector in use. */
  predicate GammaChannel(model: Model, s: Settings, channel: Sensor) {
    && model == ColorOneScanner && s.gamma
    && (s.mode == Color || (GrayMode(s.mode) && (s.sensor == All || s.sensor == channel)))
  }

  predicate FixedActive(model: Model, option: FixedOption) {
    match option
    case GrayMap | Wait => model == AppleScanner
    case Calibrate | Speed => model == OneScanner
    case Led | Ccd | DownloadCalibration => model != AppleScanner
    case MtfCircuit | Icp | Polarity => model == ColorOneScanner
    case _ => true
  }

  /** Whether an option is active, as a function of the model and the values alone. (Whether the halftone
      file is active depends on more than that.) */
  predicate Active(model: Model, s: Settings, option: Option) {
    match option
    case Fixed(f) => FixedActive(model, f)
    case ModeOpt | HalftoneFile => true
    case HalftonePattern => s.mode == Halftone
    case AutoBackground => model == AppleScanner && s.mode == Lineart
    case ColorSensor => model == ColorOneScanner && GrayMode(s.mode)
    case Brightness | Contrast => !Thresholded(s.mode) && !(model == ColorOneScanner && s.voltRef)
    case Threshold => Thresholded(s.mode) && !(model == AppleScanner && s.mode == Lineart && s.autoBackground)
    case AutoBackgroundThreshold => model == AppleScanner && s.mode == Lineart && s.autoBackground
    case VoltRef => model == ColorOneScanner && !Thresholded(s.mode)
    case VoltRefTop | VoltRefBottom => model == ColorOneScanner && !Thresholded(s.mode) && s.voltRef
    case CustomCct => s.mode == Color
    case Cct | DownloadCct => s.mode == Color && s.cct
    case CustomGamma => model == ColorOneScanner && (s.mode == Color || GrayMode(s.mode))
    case GammaR => GammaChannel(model, s, Red)
    case GammaG => GammaChannel(model, s, Green)
    case GammaB => GammaChannel(model, s, Blue)
    case DownloadGamma => model == ColorOneScanner && s.gamma && (s.mode == Color || GrayMode(s.mode))
  }

  // ---------- What that means ----------

  /** One threshold can be set in the two modes with one bit a colour, and none in the others: the adjusted one when
      the AppleScanner adjusts the background of line art. */
  lemma ThresholdLaw(model: Model, s: Settings)
    ensures s.mode == Lineart || s.mode == BiColor <==>
            (Active(model, s, Threshold) <==> !Active(model, s, AutoBackgroundThreshold))
    ensures s.mode in {Halftone, Gray16, Gray, Color} ==>
              !Active(model, s, Threshold) && !Active(model, s, AutoBackgroundThreshold)
    ensures Active(model, s, AutoBackgroundThreshold) <==>
            model == AppleScanner && s.mode == Lineart && s.autoBackground
    ensures Active(model, s, AutoBackground) <==> model == AppleScanner && s.mode == Lineart
    ensures Active(model, s, AutoBackgroundThreshold) <==> Active(model, s, AutoBackground) && s.autoBackground
  {
  }

  /** Brightness and contrast go with the modes that have more than one bit, unless the ColorOneScanner is given
      reference voltages instead. */
  lemma LevelLaw(model: Model, s: Settings)
    ensures Active(model, s, Brightness) <==> Active(model, s, Contrast)
    ensures Active(model, s, Brightness) <==>
            s.mode in {Halftone, Gray16, Gray, Color} && !(model == ColorOneScanner && s.voltRef)
    ensures Active(model, s, VoltRef) <==> model == ColorOneScanner && s.mode in {Halftone, Gray16, Gray, Color}
    ensures Active(model, s, VoltRefTop) <==> Active(model, s, VoltRefBottom)
    ensures Active(model, s, VoltRefTop) <==> Active(model, s, VoltRef) && s.voltRef
    ensures !(Active(model, s, Brightness) && Active(model, s, VoltRefTop))
    ensures !(Active(model, s, Brightness) && Active(model, s, Threshold))
  {
  }

  /** The options of single modes. */
  lemma ModeLaw(model: Model, s: Settings)
    ensures Active(model, s, HalftonePattern) <==> s.mode == Halftone
    ensures Active(model, s, ColorSensor) <==> model == ColorOneScanner && (s.mode == Gray16 || s.mode == Gray)
    ensures Active(model, s, CustomCct) <==> s.mode == Color
    ensures Active(model, s, Cct) <==> s.mode == Color && s.cct
    ensures Active(model, s, DownloadCct) <==> s.mode == Color && s.cct
    ensures Active(model, s, CustomGamma) <==> model == ColorOneScanner && s.mode in {Gray16, Gray, Color}
    ensures Active(model, s, DownloadGamma) <==> Active(model, s, CustomGamma) && s.gamma
  {
  }

  /** With custom gamma on the ColorOneScanner, colour has all three vectors, and grey those of its sensor. */
  lemma GammaLaw(model: Model, s: Settings)
    ensures !Active(model, s, DownloadGamma) ==>
              !Active(model, s, GammaR) && !Active(model, s, GammaG) && !Active(model, s, GammaB)
    ensures Active(model, s, DownloadGamma) ==>
              && (Active(model, s, GammaR) <==> s.mode == Color || s.sensor == All || s.sensor == Red)
              && (Active(model, s, GammaG) <==> s.mode == Color || s.sensor == All || s.sensor == Green)
              && (Active(model, s, GammaB) <==> s.mode == Color || s.sensor == All || s.sensor == Blue)
  {
  }

  /** The options of single models. */
  lemma ModelLaw(model: Model, s: Settings)
    ensures forall o | o in {Fixed(GrayMap), Fixed(Wait)} :: Active(model, s, o) <==> model == AppleScanner
    ensures forall o | o in {Fixed(Calibrate), Fixed(Speed)} :: Active(model, s, o) <==> model == OneScanner
    ensures forall o | o in {Fixed(Led), Fixed(Ccd), Fixed(DownloadCalibration)} ::
              Active(model, s, o) <==> model == OneScanner || model == ColorOneScanner
    ensures forall o | o in {Fixed(MtfCircuit), Fixed(Icp), Fixed(Polarity)} ::
              Active(model, s, o) <==> model == ColorOneScanner
    ensures forall o | o in {ModeOpt, Fixed(NumOpts), Fixed(ModelName), Fixed(Preview), Fixed(Lamp)} ::
              Active(model, s, o)
    ensures forall o | o in {Fixed(Resolution), Fixed(TlX), Fixed(TlY), Fixed(BrX), Fixed(BrY)} :: Active(model, s, o)
  {
  }

  /** The options that are switched, by the part of the code that does it. */
  datatype Group = ModeGroup | LevelGroup | CctGroup | GammaGroup

  function Members(group: Group): set<Option> {
    match group
    case ModeGroup => {AutoBackground, HalftonePattern, ColorSensor}
    case LevelGroup => {Brightness, Contrast, Threshold, AutoBackgroundThreshold, VoltRef, VoltRefTop, VoltRefBottom}
    case CctGroup => {CustomCct, Cct, DownloadCct}
    case GammaGroup => {CustomGamma, GammaR, GammaG, GammaB, DownloadGamma}
  }

  /** An option is never switched, or it belongs to a group. (The halftone file is neither.) */
  predicate Constant(o: Option) {
    o.Fixed? || o == ModeOpt
  }

  lemma ConstantOrInGroup(o: Option)
    ensures Constant(o) || o in Members(ModeGroup) || o in Members(LevelGroup) || o == HalftoneFile
            || o in Members(CctGroup) || o in Members(GammaGroup)
  {
    if !Constant(o) && o != HalftoneFile {
      var group := match o
        case AutoBackground | HalftonePattern | ColorSensor => ModeGroup
        case CustomCct | Cct | DownloadCct => CctGroup
        case CustomGamma | GammaR | GammaG | GammaB | DownloadGamma => GammaGroup
        case _ => LevelGroup;
      assert o in Members(group);
    }
  }

  // ---------- The flags as a set ----------

  /** What init_options settles before it calls mode_update: mode_update does not touch the constant options,
      and on the grey models not the voltage reference. */
  ghost predicate Prepared(model: Model, s: Settings, inactive: set<Option>) {
    && (forall o: Option | Constant(o) :: o in inactive <==> !Active(model, s, o))
    && (model != ColorOneScanner ==> VoltRef in inactive && VoltRefTop in inactive && VoltRefBottom in inactive)
  }

  /** All flags but that of the halftone file are what the model and the values call for. */
  ghost predicate InOrder(model: Model, s: Settings, inactive: set<Option>) {
    forall o: Option | o != HalftoneFile :: o in inactive <==> !Active(model, s, o)
  }

  /** The options of a group have the flags they should have; the others keep theirs. */
  ghost predicate Updated(model: Model, s: Settings, before: set<Option>, after: set<Option>, group: Group) {
    forall o: Option :: o in after <==> if o in Members(group) then !Active(model, s, o) else o in before
  }

  /** The flags init_options has set before it calls mode_update. */
  function InitiallyInactive(model: Model): set<Option> {
    match model
    case AppleScanner =>
      {HalftoneFile, CustomCct, Cct, CustomGamma, GammaR, GammaG, GammaB, DownloadGamma, AutoBackgroundThreshold,
       VoltRefTop, VoltRefBottom, VoltRef, DownloadCct, ColorSensor} + FixedInactive(model)
    case OneScanner =>
      {HalftoneFile, CustomCct, Cct, CustomGamma, GammaR, GammaG, GammaB, DownloadGamma, AutoBackgroundThreshold,
       VoltRefTop, VoltRefBottom, VoltRef, DownloadCct, ColorSensor, AutoBackground} + FixedInactive(model)
    case ColorOneScanner =>
      {HalftoneFile, CustomCct, Cct, CustomGamma, GammaR, GammaG, GammaB, DownloadGamma, AutoBackgroundThreshold,
       VoltRefTop, VoltRefBottom, AutoBackground, HalftonePattern} + FixedInactive(model)
  }

  function FixedInactive(model: Model): set<Option> {
    match model
    case AppleScanner =>
      {Fixed(MtfCircuit), Fixed(Icp), Fixed(Polarity), Fixed(Calibrate), Fixed(Speed), Fixed(Led), Fixed(Ccd),
       Fixed(DownloadCalibration)}
    case OneScanner => {Fixed(GrayMap), Fixed(Wait), Fixed(MtfCircuit), Fixed(Icp), Fixed(Polarity)}
    case ColorOneScanner => {Fixed(GrayMap), Fixed(Wait), Fixed(Calibrate), Fixed(Speed)}
  }

  lemma FixedInactiveIs(model: Model, f: FixedOption)
    ensures Fixed(f) in FixedInactive(model) <==> !FixedActive(model, f)
  {
  }

  lemma OnlyFixedAdded(model: Model, o: Option)
    requires Constant(o)
    ensures o in InitiallyInactive(model) <==> o in FixedInactive(model)
  {
    hide FixedInactive;
  }

  lemma LevelsReady(model: Model, s: Settings, i0: set<Option>, i1: set<Option>)
    requires Prepared(model, s, i0) && Updated(model, s, i0, i1, ModeGroup)
    ensures AutoBackground in i1 <==> !Active(model, s, AutoBackground)
    ensures HalftonePattern in i1 <==> s.mode != Halftone
    ensures model != ColorOneScanner ==> VoltRef in i1 && VoltRefTop in i1 && VoltRefBottom in i1
  {
  }

  lemma PatternReady(model: Model, s: Settings, i1: set<Option>, i2: set<Option>, i3: set<Option>, i4: set<Option>,
                     i5: set<Option>)
    requires Updated(model, s, i1, i2, LevelGroup)
    requires Updated(model, s, i3, i4, CctGroup) && Updated(model, s, i4, i5, GammaGroup)
    ensures HalftonePattern in i1 <==> HalftonePattern in i2
    ensures HalftoneFile in i3 <==> HalftoneFile in i5
  {
    hide Active;
  }

  lemma AutoBackgroundKeeps(model: Model, s: Settings, inactive: set<Option>, on: bool)
    requires InOrder(model, s, inactive) && AutoBackground !in inactive
    ensures InOrder(model, s.(autoBackground := on),
                    if on then inactive + {Threshold} - {AutoBackgroundThreshold}
                    else inactive - {Threshold} + {AutoBackgroundThreshold})
  {
    assert Active(model, s, AutoBackground);
  }

  lemma VoltRefKeeps(model: Model, s: Settings, inactive: set<Option>, on: bool)
    requires InOrder(model, s, inactive) && VoltRef !in inactive
    ensures InOrder(model, s.(voltRef := on),
                    if on then inactive + {Brightness, Contrast} - {VoltRefTop, VoltRefBottom}
                    else inactive - {Brightness, Contrast} + {VoltRefTop, VoltRefBottom})
  {
    assert Active(model, s, VoltRef);
  }

  lemma CctKeeps(model: Model, s: Settings, inactive: set<Option>, on: bool)
    requires InOrder(model, s, inactive) && CustomCct !in inactive
    ensures InOrder(model, s.(cct := on),
                    if on then inactive - {Cct, DownloadCct} else inactive + {Cct, DownloadCct})
  {
    assert Active(model, s, CustomCct);
  }

  lemma GammaKeeps(model: Model, s: Settings, t: Settings, before: set<Option>, after: set<Option>)
    requires InOrder(model, s, before) && t == s.(gamma := t.gamma, sensor := t.sensor)
    requires Updated(model, t, before, after, GammaGroup)
    ensures InOrder(model, t, after) && (HalftoneFile in after <==> HalftoneFile in before)
  {
    assert HalftoneFile !in Members(GammaGroup);
    hide Active, Members;
    forall o: Option | o != HalftoneFile
      ensures o in after <==> !Active(model, t, o)
    {
      if o !in Members(GammaGroup) {
        GammaOnly(model, s, t, o);
      }
    }
  }

  /** The gamma flag and the sensor decide about the gamma options only. */
  lemma GammaOnly(model: Model, s: Settings, t: Settings, o: Option)
    requires t == s.(gamma := t.gamma, sensor := t.sensor) && o !in Members(GammaGroup)
    ensures Active(model, s, o) <==> Active(model, t, o)
  {
  }

  lemma ModeKeepsConstant(model: Model, s: Settings, t: Settings, inactive: set<Option>)
    requires InOrder(model, s, inactive)
    ensures Prepared(model, t, inactive)
  {
  }

  lemma InitiallyPrepared(model: Model, s: Settings)
    ensures Prepared(model, s, InitiallyInactive(model))
  {
    assert model != ColorOneScanner ==> {VoltRef, VoltRefTop, VoltRefBottom} <= InitiallyInactive(model);
    assert ModeOpt !in FixedInactive(model);
    hide InitiallyInactive, FixedInactive, FixedActive;
    forall o: Option | Constant(o)
      ensures o in InitiallyInactive(model) <==> !Active(model, s, o)
    {
      OnlyFixedAdded(model, o);
      if o.Fixed? {
        FixedInactiveIs(model, o.fixed);
      }
    }
  }

  lemma UpdatedAt(model: Model, s: Settings, before: set<Option>, after: set<Option>, group: Group, o: Option)
    requires Updated(model, s, before, after, group)
    ensures o in after <==> if o in Members(group) then !Active(model, s, o) else o in before
  {
  }

  lemma AllUpdated(model: Model, s: Settings, i0: set<Option>, i1: set<Option>, i2: set<Option>, i3: set<Option>,
                   i4: set<Option>, i5: set<Option>)
    requires Prepared(model, s, i0) && Updated(model, s, i0, i1, ModeGroup) && Updated(model, s, i1, i2, LevelGroup)
    requires i3 == i2 + {HalftoneFile} || i3 == i2 - {HalftoneFile}
    requires Updated(model, s, i3, i4, CctGroup) && Updated(model, s, i4, i5, GammaGroup)
    ensures InOrder(model, s, i5)
  {
    hide Active, Members, Constant, Updated;
    forall o: Option | o != HalftoneFile
      ensures o in i5 <==> !Active(model, s, o)
    {
      ConstantOrInGroup(o);
      UpdatedAt(model, s, i0, i1, ModeGroup, o);
      UpdatedAt(model, s, i1, i2, LevelGroup, o);
      UpdatedAt(model, s, i3, i4, CctGroup, o);
      UpdatedAt(model, s, i4, i5, GammaGroup, o);
    }
  }
}
