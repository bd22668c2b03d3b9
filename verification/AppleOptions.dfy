/**
 Which options of the Apple backend are active.  The backend keeps the flags by
 enabling and disabling them as options are set; Expected says from scratch what
 they should be.
 */
module AppleOptions {
  import opened SaneBytes

  datatype Model = AppleScanner | OneScanner | ColorOneScanner
  datatype Mode = Lineart | Halftone | Gray16 | Gray | BiColor | Color
  datatype Sensor = All | Red | Green | Blue

  datatype Opt =
    | AutoBackground | AutoBackgroundThreshold | Threshold
    | HalftonePattern | HalftoneFile
    | Brightness | Contrast | VoltRef | VoltRefTop | VoltRefBottom
    | ColorSensor
    | CustomCct | Cct | DownloadCct
    | CustomGamma | DownloadGamma | GammaR | GammaG | GammaB

  /** The option values that decide about activity. */
  datatype Values = Values(
    mode: Mode, sensor: Sensor, download: bool,      // download: the halftone pattern is "download"
    autoBackground: bool, voltRef: bool, customCct: bool, customGamma: bool)

  /** The modes in a model's list; a request for another one is refused. */
  predicate Offers(m: Model, mode: Mode) {
    match m
    case AppleScanner => mode == Lineart || mode == Halftone || mode == Gray16
    case OneScanner => mode == Lineart || mode == Halftone || mode == Gray16 || mode == Gray
    case ColorOneScanner => mode != Halftone
  }

  predicate UsesThreshold(v: Values) { v.mode == Lineart || v.mode == BiColor }
  predicate IsGray(v: Values) { v.mode == Gray || v.mode == Gray16 }

  /** Should option o be active?  Decided from the values alone. */
  predicate Expected(m: Model, v: Values, o: Opt) {
    match o
    case AutoBackground => v.mode == Lineart && m == AppleScanner
    case AutoBackgroundThreshold => v.mode == Lineart && m == AppleScanner && v.autoBackground
    case Threshold => UsesThreshold(v) && !(v.mode == Lineart && m == AppleScanner && v.autoBackground)
    case HalftonePattern => v.mode == Halftone
    case HalftoneFile => v.mode == Halftone && v.download
    case Brightness => !UsesThreshold(v) && !(m == ColorOneScanner && v.voltRef)
    case Contrast => !UsesThreshold(v) && !(m == ColorOneScanner && v.voltRef)
    case VoltRef => !UsesThreshold(v) && m == ColorOneScanner
    case VoltRefTop => !UsesThreshold(v) && m == ColorOneScanner && v.voltRef
    case VoltRefBottom => !UsesThreshold(v) && m == ColorOneScanner && v.voltRef
    case ColorSensor => IsGray(v) && m == ColorOneScanner
    case CustomCct => v.mode == Color
    case Cct => v.mode == Color && v.customCct
    case DownloadCct => v.mode == Color && v.customCct
    case CustomGamma => m == ColorOneScanner && (IsGray(v) || v.mode == Color)
    case DownloadGamma => m == ColorOneScanner && (IsGray(v) || v.mode == Color) && v.customGamma
    case GammaR => GammaChannel(m, v, Red)
    case GammaG => GammaChannel(m, v, Green)
    case GammaB => GammaChannel(m, v, Blue)
  }

  predicate GammaChannel(m: Model, v: Values, s: Sensor) {
    m == ColorOneScanner && v.customGamma && (v.mode == Color || (IsGray(v) && (v.sensor == All || v.sensor == s)))
  }

  datatype Request =
    | SetMode(mode: Mode)
    | SetSensor(sensor: Sensor)
    | SetHalftonePattern(download: bool)
    | SetAutoBackground(on: bool)
    | SetVoltRef(on: bool)
    | SetCustomCct(on: bool)
    | SetCustomGamma(on: bool)
    | SetPlain(opt: Opt)          // an option whose value has no influence on activity

  /** Active, but never supported: the pattern "download", and the two downloads. */
  predicate Refuses(r: Request) {
    r == SetHalftonePattern(true) || r == SetPlain(DownloadCct) || r == SetPlain(DownloadGamma)
  }

  /** Every flag but the halftone file's is what it should be. */
  ghost predicate Right(m: Model, v: Values, active: set<Opt>) {
    forall o: Opt :: o != HalftoneFile ==> (o in active <==> Expected(m, v, o))
  }

  /** Where reference voltages apply, they exclude brightness and contrast. */
  lemma VoltRefRight(m: Model, v: Values, active: set<Opt>, on: bool)
    requires Right(m, v, active) && VoltRef in active
    ensures Right(m, v.(voltRef := on),
                  if on then active - {Brightness, Contrast} + {VoltRefTop, VoltRefBottom}
                  else active + {Brightness, Contrast} - {VoltRefTop, VoltRefBottom})
  {
    var v' := v.(voltRef := on);
    assert Expected(m, v, VoltRef);
    forall o: Opt | o !in {Brightness, Contrast, VoltRefTop, VoltRefBottom}
      ensures Expected(m, v', o) <==> Expected(m, v, o)
    {
    }
  }

  /** However the options are set, exactly one way of setting the level is active. */
  lemma OneLevel(m: Model, v: Values, active: set<Opt>)
    requires Right(m, v, active)
    ensures Threshold in active ==> active !! {AutoBackgroundThreshold, Brightness, Contrast, VoltRefTop, VoltRefBottom}
    ensures AutoBackgroundThreshold in active ==> active !! {Brightness, Contrast, VoltRefTop, VoltRefBottom}
    ensures Brightness in active <==> Contrast in active
    ensures VoltRefTop in active <==> VoltRefBottom in active
    ensures Brightness in active ==> VoltRefTop !in active
    ensures Threshold in active || AutoBackgroundThreshold in active || Brightness in active || VoltRefTop in active
  {
    assert Expected(m, v, Threshold) || Expected(m, v, AutoBackgroundThreshold) || Expected(m, v, Brightness) || Expected(m, v, VoltRefTop);
  }

  class Scanner {
    const model: Model
    var values: Values
    var active: set<Opt>

    /** Every flag but the halftone file's is what it should be. */
    ghost predicate Valid()
      reads this
    {
      Right(model, values, active)
    }

    /** The halftone file's flag, too. */
    ghost predicate FileFlagRight()
      reads this
    {
      HalftoneFile in active <==> Expected(model, values, HalftoneFile)
    }

    /** init_options ends with mode_update, which decides every flag but the reference voltages of other models. */
    constructor (model: Model, mode: Mode)
      ensures Valid() && FileFlagRight() && values == START.(mode := mode) && this.model == model
    {
      this.model := model;
      values := START.(mode := mode);
      active := if model == ColorOneScanner then {VoltRef} else {};
      new;
      ModeUpdate();
    }

    method Enable(os: set<Opt>)
      modifies `active
      ensures active == old(active) + os
    {
      active := active + os;
    }

    method Disable(os: set<Opt>)
      modifies `active
      ensures active == old(active) - os
    {
      active := active - os;
    }

    method GammaUpdate()
      modifies `active
      ensures forall o: Opt :: o in active <==>
        if o in {CustomGamma, DownloadGamma, GammaR, GammaG, GammaB} then Expected(model, values, o) else o in old(active)
    {
      if model == ColorOneScanner && (values.mode == Gray || values.mode == Gray16) {
        Enable({CustomGamma});
        if values.customGamma {
          Enable({DownloadGamma});
          Disable({GammaR, GammaG, GammaB});
          match values.sensor
          case All => Enable({GammaR, GammaG, GammaB});
          case Red => Enable({GammaR});
          case Green => Enable({GammaG});
          case Blue => Enable({GammaB});
        } else {
          Disable({GammaR, GammaG, GammaB, DownloadGamma});
        }
      } else if model == ColorOneScanner && values.mode == Color {
        Enable({CustomGamma});
        if values.customGamma {
          Enable({DownloadGamma, GammaR, GammaG, GammaB});
        } else {
          Disable({GammaR, GammaG, GammaB, DownloadGamma});
        }
      } else {
        Disable({CustomGamma, GammaR, GammaG, GammaB, DownloadGamma});
      }
    }

    /** First-hand dependencies of the mode. */
    method ModeFirst()
      modifies `active
      ensures forall o: Opt :: o in active <==>
        if o in {ColorSensor, AutoBackground, HalftonePattern} then Expected(model, values, o) else o in old(active)
    {
      Disable({ColorSensor});
      match values.mode
      case Lineart =>
        if model == AppleScanner {
          Enable({AutoBackground});
        } else {
          Disable({AutoBackground});
        }
        Disable({HalftonePattern});
      case Halftone =>
        Disable({AutoBackground});
        Enable({HalftonePattern});
      case Gray16 | Gray =>
        Disable({AutoBackground, HalftonePattern});
        if model == ColorOneScanner {
          Enable({ColorSensor});
        }
      case BiColor => Disable({AutoBackground, HalftonePattern});
      case Color => Disable({AutoBackground, HalftonePattern});
    }

    /** Second-hand dependencies: threshold, brightness and contrast, reference voltages. */
    method ModeLevels()
      requires AutoBackground in active <==> Expected(model, values, AutoBackground)
      requires model != ColorOneScanner ==> active !! {VoltRef, VoltRefTop, VoltRefBottom}
      modifies `active
      ensures forall o: Opt :: o in active <==>
        if o in {Threshold, AutoBackgroundThreshold, Brightness, Contrast, VoltRef, VoltRefTop, VoltRefBottom}
        then Expected(model, values, o) else o in old(active)
    {
      if values.mode == Lineart || values.mode == BiColor {
        Disable({Brightness, Contrast, VoltRef, VoltRefTop, VoltRefBottom});
        if AutoBackground in active && values.autoBackground {
          Disable({Threshold});
          Enable({AutoBackgroundThreshold});
        } else {
          Enable({Threshold});
          Disable({AutoBackgroundThreshold});
        }
      } else {
        Disable({Threshold, AutoBackgroundThreshold});
        if model == ColorOneScanner {
          Enable({VoltRef});
          if values.voltRef {
            Enable({VoltRefTop, VoltRefBottom});
            Disable({Brightness, Contrast});
          } else {
            Disable({VoltRefTop, VoltRefBottom});
            Enable({Brightness, Contrast});
          }
        } else {
          Enable({Brightness, Contrast});
        }
      }
    }

    method ModeColors()
      requires HalftonePattern in active <==> Expected(model, values, HalftonePattern)
      modifies `active
      ensures forall o: Opt :: o in active <==>
        if o in {HalftoneFile, CustomCct, Cct, DownloadCct} then Expected(model, values, o) else o in old(active)
    {
      if HalftonePattern in active && values.download {
        Enable({HalftoneFile});
      } else {
        Disable({HalftoneFile});
      }
      var cct := values.mode == Color;
      if cct {
        Enable({CustomCct});
      } else {
        Disable({CustomCct});
      }
      if cct && values.customCct {
        Enable({Cct, DownloadCct});
      } else {
        Disable({Cct, DownloadCct});
      }
    }

    method ModeUpdate()
      requires model != ColorOneScanner ==> active !! {VoltRef, VoltRefTop, VoltRefBottom}
      modifies `active
      ensures Valid() && FileFlagRight()
    {
      ModeFirst();
      ModeLevels();
      ModeColors();
      GammaUpdate();
    }

    method ApplyAutoBackground(on: bool)
      requires Valid() && AutoBackground in active
      modifies this
      ensures Valid() && values == old(values).(autoBackground := on)
      ensures HalftoneFile in active <==> HalftoneFile in old(active)
    {
      values := values.(autoBackground := on);
      if on {
        Disable({Threshold});
        Enable({AutoBackgroundThreshold});
      } else {
        Enable({Threshold});
        Disable({AutoBackgroundThreshold});
      }
    }

    method ApplyVoltRef(on: bool)
      requires Valid() && VoltRef in active
      modifies this
      ensures Valid() && values == old(values).(voltRef := on)
      ensures HalftoneFile in active <==> HalftoneFile in old(active)
    {
      VoltRefRight(model, values, active, on);
      values := values.(voltRef := on);
      if on {
        Disable({Brightness, Contrast});
        Enable({VoltRefTop, VoltRefBottom});
      } else {
        Enable({Brightness, Contrast});
        Disable({VoltRefTop, VoltRefBottom});
      }
    }

    method ApplyCustomCct(on: bool)
      requires Valid() && CustomCct in active
      modifies this
      ensures Valid() && values == old(values).(customCct := on)
      ensures HalftoneFile in active <==> HalftoneFile in old(active)
    {
      values := values.(customCct := on);
      if on {
        Enable({Cct, DownloadCct});
      } else {
        Disable({Cct, DownloadCct});
      }
    }

    /** The pattern "download" is stored although it is refused, and the file option is not enabled. */
    method ApplyHalftonePattern(download: bool) returns (status: Status)
      requires Valid() && HalftonePattern in active
      modifies this
      ensures Valid() && values == old(values).(download := download)
      ensures status == if download then Unsupported else Good
      ensures FileFlagRight() <==> !download || HalftoneFile in old(active)
      ensures HalftoneFile in active <==> download && HalftoneFile in old(active)
    {
      values := values.(download := download);
      if download {
        return Unsupported;
      }
      Disable({HalftoneFile});
      return Good;
    }

    method ApplyGamma(v: Values)
      requires Valid() && v.(sensor := values.sensor, customGamma := values.customGamma) == values
      modifies this
      ensures Valid() && values == v
      ensures HalftoneFile in active <==> HalftoneFile in old(active)
    {
      values := v;
      GammaUpdate();
    }

    method ApplyMode(mode: Mode)
      requires Valid()
      modifies this
      ensures Valid() && FileFlagRight() && values == old(values).(mode := mode)
    {
      assert forall o :: o in {VoltRef, VoltRefTop, VoltRefBottom} && o in active ==> model == ColorOneScanner;
      values := values.(mode := mode);
      ModeUpdate();
    }

    /** sane_control_option, set: inactive options are refused, the others take their side effects. */
    method SetOption(r: Request) returns (status: Status)
      requires Valid()
      modifies this
      ensures Valid()
      ensures status == Inval <==> (Target(r) != None && Target(r).value !in old(active)) || (r.SetMode? && !Offers(model, r.mode))
      ensures status == Inval ==> values == old(values) && active == old(active)
      ensures status != Inval ==>
        values == match r
          case SetMode(mode) => old(values).(mode := mode)
          case SetSensor(sensor) => old(values).(sensor := sensor)
          case SetHalftonePattern(download) => old(values).(download := download)
          case SetAutoBackground(on) => old(values).(autoBackground := on)
          case SetVoltRef(on) => old(values).(voltRef := on)
          case SetCustomCct(on) => old(values).(customCct := on)
          case SetCustomGamma(on) => old(values).(customGamma := on)
          case SetPlain(_) => old(values)
      ensures status != Inval ==> values == Updated(old(values), r) && status == (if Refuses(r) then Unsupported else Good)
      ensures r.SetHalftonePattern? && status != Inval ==>
        (FileFlagRight() <==> !r.download || HalftoneFile in old(active))
      ensures r.SetMode? && status != Inval ==> FileFlagRight()
      ensures (!r.SetMode? && !r.SetHalftonePattern?) || status == Inval ==>
        (FileFlagRight() <==> old(FileFlagRight()))
      ensures HalftoneFile in active <==> FileAfter(model, old(values), HalftoneFile in old(active), r)
    {
      if (Target(r) != None && Target(r).value !in active) || (r.SetMode? && !Offers(model, r.mode)) {
        RefusedFile(model, values, HalftoneFile in active, r);
        return Inval;
      }
      TakenFile(model, values, HalftoneFile in active, r);
      status := Apply(r);
    }

    /** An accepted request and its side effects. */
    method Apply(r: Request) returns (status: Status)
      requires Valid() && (Target(r) != None ==> Target(r).value in active) && (r.SetMode? ==> Offers(model, r.mode))
      modifies this
      ensures Valid() && status == (if Refuses(r) then Unsupported else Good) && values == Updated(old(values), r)
      ensures HalftoneFile in active <==> FileAfter(model, old(values), HalftoneFile in old(active), r)
    {
      status := Good;
      match r
      case SetMode(mode) => ApplyMode(mode);
      case SetSensor(sensor) => ApplyGamma(values.(sensor := sensor));
      case SetHalftonePattern(download) => status := ApplyHalftonePattern(download);
      case SetAutoBackground(on) => ApplyAutoBackground(on);
      case SetVoltRef(on) => ApplyVoltRef(on);
      case SetCustomCct(on) => ApplyCustomCct(on);
      case SetCustomGamma(on) => ApplyGamma(values.(customGamma := on));
      case SetPlain(o) =>
        if o == DownloadCct || o == DownloadGamma {
          status := Unsupported;
        }
    }
  }

  /** What an accepted request does to the halftone file's flag. */
  lemma TakenFile(m: Model, v: Values, file: bool, r: Request)
    requires (r.SetHalftonePattern? ==> v.mode == Halftone) && (r.SetMode? ==> Offers(m, r.mode))
    ensures var v', file' := Updated(v, r), FileAfter(m, v, file, r);
      && (r.SetMode? ==> (file' <==> Expected(m, v', HalftoneFile)))
      && (r.SetHalftonePattern? ==> ((file' <==> Expected(m, v', HalftoneFile)) <==> !r.download || file))
      && (!r.SetMode? && !r.SetHalftonePattern? ==>
           ((file' <==> Expected(m, v', HalftoneFile)) <==> (file <==> Expected(m, v, HalftoneFile))))
  {
  }

  lemma RefusedFile(m: Model, v: Values, file: bool, r: Request)
    requires (r.SetHalftonePattern? ==> v.mode != Halftone) && (r.SetMode? ==> !Offers(m, r.mode))
    ensures FileAfter(m, v, file, r) <==> file
  {
  }

  datatype Option<T> = None | Some(value: T)

  /** The option a request is about; the mode is always active. */
  function Target(r: Request): Option<Opt> {
    match r
    case SetMode(_) => None
    case SetSensor(_) => Some(ColorSensor)
    case SetHalftonePattern(_) => Some(HalftonePattern)
    case SetAutoBackground(_) => Some(AutoBackground)
    case SetVoltRef(_) => Some(VoltRef)
    case SetCustomCct(_) => Some(CustomCct)
    case SetCustomGamma(_) => Some(CustomGamma)
    case SetPlain(o) => Some(o)
  }

  function Updated(v: Values, r: Request): Values {
    match r
    case SetMode(m) => v.(mode := m)
    case SetSensor(s) => v.(sensor := s)
    case SetHalftonePattern(d) => v.(download := d)
    case SetAutoBackground(b) => v.(autoBackground := b)
    case SetVoltRef(b) => v.(voltRef := b)
    case SetCustomCct(b) => v.(customCct := b)
    case SetCustomGamma(b) => v.(customGamma := b)
    case SetPlain(_) => v
  }

  const START := Values(Lineart, Green, false, false, false, false, false)

  /** A request is taken when its option should be active and its value is listed. */
  function Taken(m: Model, v: Values, r: Request): Values {
    if (Target(r) == None || Expected(m, v, Target(r).value)) && (r.SetMode? ==> Offers(m, r.mode)) then Updated(v, r) else v
  }

  predicate ChangesMode(m: Model, r: Request) { r.SetMode? && Offers(m, r.mode) }

  /** The values after a sequence of requests. */
  function RunValues(m: Model, start: Values, rs: seq<Request>): Values {
    if rs == [] then start else Taken(m, RunValues(m, start, rs[..|rs| - 1]), rs[|rs| - 1])
  }

  /**
   The halftone file's flag after a request: every mode change decides it, an accepted
   pattern clears it unless it is "download", nothing else touches it.
   */
  predicate FileAfter(m: Model, v: Values, file: bool, r: Request) {
    match r
    case SetMode(mode) => if Offers(m, mode) then Expected(m, v.(mode := mode), HalftoneFile) else file
    case SetHalftonePattern(download) => file && (download || !Expected(m, v, HalftonePattern))
    case _ => file
  }

  /** The halftone file's flag after a sequence of requests. */
  predicate FileFlag(m: Model, start: Values, rs: seq<Request>) {
    if rs == [] then Expected(m, start, HalftoneFile)
    else
      FileAfter(m, RunValues(m, start, rs[..|rs| - 1]), FileFlag(m, start, rs[..|rs| - 1]), rs[|rs| - 1])
  }

  /** How many requests there are up to and including the last mode change. */
  function LastMode(m: Model, rs: seq<Request>): (n: nat)
    ensures n <= |rs|
    ensures forall i :: n <= i < |rs| ==> !ChangesMode(m, rs[i])
    ensures n > 0 ==> ChangesMode(m, rs[n - 1])
  {
    if rs == [] then 0 else if ChangesMode(m, rs[|rs| - 1]) then |rs| else LastMode(m, rs[..|rs| - 1])
  }

  /** "Download" has been the pattern ever since the mode was set last. */
  predicate Steady(m: Model, start: Values, rs: seq<Request>) {
    && RunValues(m, start, rs).download
    && (rs == [] || ChangesMode(m, rs[|rs| - 1]) || Steady(m, start, rs[..|rs| - 1]))
  }

  /** That is: after every request from the last mode change on. */
  lemma {:induction false} SteadySince(m: Model, start: Values, rs: seq<Request>, j: nat)
    requires Steady(m, start, rs) && LastMode(m, rs) <= j <= |rs|
    ensures RunValues(m, start, rs[..j]).download
  {
    assert rs[..|rs|] == rs;
    if j < |rs| {
      SteadySince(m, start, rs[..|rs| - 1], j);
      assert rs[..|rs| - 1][..j] == rs[..j];
    }
  }

  /** And otherwise it was not the pattern after one of them. */
  lemma {:induction false} UnsteadyAt(m: Model, start: Values, rs: seq<Request>) returns (j: nat)
    requires !Steady(m, start, rs)
    ensures LastMode(m, rs) <= j <= |rs| && !RunValues(m, start, rs[..j]).download
  {
    if !RunValues(m, start, rs).download {
      j := |rs|;
      assert rs[..|rs|] == rs;
    } else {
      j := UnsteadyAt(m, start, rs[..|rs| - 1]);
      assert rs[..|rs| - 1][..j] == rs[..j];
    }
  }

  lemma FileStep(m: Model, v: Values, file: bool, steady: bool, r: Request)
    requires (steady ==> v.download) && (file <==> v.mode == Halftone && steady)
    ensures var v' := Taken(m, v, r);
      FileAfter(m, v, file, r) <==> v'.mode == Halftone && v'.download && (ChangesMode(m, r) || steady)
  {
  }

  /** The flag is on exactly in halftone mode with a "download" that has not been interrupted since. */
  lemma {:induction false} FileFlagMeans(m: Model, start: Values, rs: seq<Request>)
    ensures FileFlag(m, start, rs) <==> RunValues(m, start, rs).mode == Halftone && Steady(m, start, rs)
  {
    if rs != [] {
      var before, r := rs[..|rs| - 1], rs[|rs| - 1];
      FileFlagMeans(m, start, before);
      FileStep(m, RunValues(m, start, before), FileFlag(m, start, before), Steady(m, start, before), r);
    }
  }

  /**
   The flag is right after a sequence of requests if and only if the pattern is not wanted
   now, or has been "download" ever since the mode was set last.
   */
  lemma FileFlagRightExactly(m: Model, start: Values, rs: seq<Request>)
    ensures var v := RunValues(m, start, rs);
      (FileFlag(m, start, rs) <==> Expected(m, v, HalftoneFile))
      <==> v.mode != Halftone || !v.download || Steady(m, start, rs)
  {
    FileFlagMeans(m, start, rs);
  }

  /** On the models that offer halftone mode, selecting "download" in it leaves the file option off. */
  lemma FileFlagWrong(m: Model)
    requires Offers(m, Halftone)
    ensures var rs := [SetMode(Halftone), SetHalftonePattern(true)];
      !FileFlag(m, START, rs) && Expected(m, RunValues(m, START, rs), HalftoneFile)
  {
    var rs := [SetMode(Halftone), SetHalftonePattern(true)];
    assert rs[..1] == [SetMode(Halftone)] && rs[..1][..0] == [];
    assert RunValues(m, START, rs[..1][..0]) == START && !FileFlag(m, START, rs[..1][..0]);
    assert RunValues(m, START, rs[..1]) == START.(mode := Halftone) && !FileFlag(m, START, rs[..1]);
  }

  lemma {:induction false} ModeOffered(m: Model, start: Values, rs: seq<Request>)
    requires Offers(m, start.mode)
    ensures Offers(m, RunValues(m, start, rs).mode)
  {
    if rs != [] {
      ModeOffered(m, start, rs[..|rs| - 1]);
      StillOffered(m, RunValues(m, start, rs[..|rs| - 1]), rs[|rs| - 1]);
    }
  }

  lemma StillOffered(m: Model, v: Values, r: Request)
    requires Offers(m, v.mode)
    ensures Offers(m, Taken(m, v, r).mode)
  {
  }

  /** On the others the flag is always right. */
  lemma FileFlagUnused(m: Model, start: Values, rs: seq<Request>)
    requires Offers(m, start.mode) && !Offers(m, Halftone)
    ensures !FileFlag(m, start, rs) && !Expected(m, RunValues(m, start, rs), HalftoneFile)
  {
    ModeOffered(m, start, rs);
    FileFlagMeans(m, start, rs);
  }

  /** After any sequence of option sets the flags equal those decided from scratch. */
  method SetOptions(model: Model, mode: Mode, rs: seq<Request>) returns (values: Values, active: set<Opt>)
    ensures values == RunValues(model, START.(mode := mode), rs)
    ensures forall o: Opt :: o != HalftoneFile ==> (o in active <==> Expected(model, values, o))
    ensures HalftoneFile in active <==> FileFlag(model, START.(mode := mode), rs)
    ensures (HalftoneFile in active <==> Expected(model, values, HalftoneFile))
       <==> values.mode != Halftone || !values.download || Steady(model, START.(mode := mode), rs)
  {
    var s := new Scanner(model, mode);
    for i := 0 to |rs|
      invariant fresh(s) && s.Valid() && s.model == model
      invariant s.values == RunValues(model, START.(mode := mode), rs[..i])
      invariant HalftoneFile in s.active <==> FileFlag(model, START.(mode := mode), rs[..i])
    {
      var status := s.SetOption(rs[i]);
      assert rs[..i + 1][..i] == rs[..i];
    }
    assert rs[..|rs|] == rs;
    FileFlagRightExactly(model, START.(mode := mode), rs);
    values, active := s.values, s.active;
  }
}
