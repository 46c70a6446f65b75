/** The screenshot heuristic of `backend/src/utils/screenshotDetection.ts`:
    a filename keyword, a common device aspect ratio, the 16:9 ratio and an
    image extension each add to a confidence score, which is capped and
    compared against a threshold.

    Scores are kept in exact tenths (6 stands for 0.6) and the relative
    tolerance test on `width / height` is done in integers by multiplying
    through; `NearRatioIsRelativeTolerance` shows it is `isLikelyScreenshot`'s
    test on exact rationals. */
module Detection {
  import opened Wrappers
  import opened Text

  /** `SCREENSHOT_KEYWORDS`, in table order (`screenshot` is listed twice). */
  const Keywords: seq<string> := [
    "screenshot",
    "スクリーンショット",
    "屏幕截图",
    "화면 캡처",
    "captura de pantalla",
    "capture d'écran",
    "screenshot",
    "screencap",
    "screen cap",
    "screen-capture",
    "screen_capture"
  ]

  /** A catalog ratio `num / den` with its display name. */
  datatype AspectRatio = AspectRatio(num: nat, den: nat, name: string)

  /** `COMMON_ASPECT_RATIOS`, in table order; 19.5/9 is written 39/18. */
  const CommonAspectRatios: seq<AspectRatio> := [
    AspectRatio(39, 18, "iPhone X/11/12/13/14"),
    AspectRatio(20, 9, "Ultra-wide phones"),
    AspectRatio(16, 9, "Standard widescreen"),
    AspectRatio(3, 2, "Traditional 4:6"),
    AspectRatio(4, 3, "Traditional 3:4"),
    AspectRatio(1, 1, "Square")
  ]

  /** The 16:9 ratio that earns the extra bonus. */
  const Widescreen: AspectRatio := CommonAspectRatios[2]

  /** `ASPECT_TOLERANCE` = 0.01, as a divisor. */
  const ToleranceDivisor: nat := 100

  /** Scores in tenths, and the detection threshold 0.3. */
  const KeywordScore: nat := 6
  const RatioScore: nat := 3
  const WidescreenScore: nat := 1
  const ExtensionScore: nat := 1
  const MaxConfidence: nat := 10
  const Threshold: nat := 3

  /** The extensions that earn the extension bonus. */
  const ValidExtensions: seq<string> := [".png", ".jpg", ".jpeg", ".webp", ".heic"]

  /** Why confidence was added, in the order the checks run. */
  datatype Reason = KeywordMatch | CommonRatio | WideRatio | ImageExtension {

    /** The text `isLikelyScreenshot` pushes onto `reasons`. */
    function Message(): string {
      match this
      case KeywordMatch => "Filename contains screenshot keyword"
      case CommonRatio => "Aspect ratio matches common device ratios"
      case WideRatio => "16:9 aspect ratio (very common)"
      case ImageExtension => "Valid image file extension"
    }

    /** Position of the check that produces this reason. */
    function Rank(): nat {
      match this
      case KeywordMatch => 0
      case CommonRatio => 1
      case WideRatio => 2
      case ImageExtension => 3
    }

    /** What this reason adds to the confidence, in tenths. */
    function Score(): nat {
      match this
      case KeywordMatch => KeywordScore
      case CommonRatio => RatioScore
      case WideRatio => WidescreenScore
      case ImageExtension => ExtensionScore
    }
  }

  /** `DetectionResult`, with the confidence in tenths. */
  datatype Detection = Detection(isScreenshot: bool, confidence: nat, reasons: seq<Reason>)

  function Abs(x: int): nat {
    if x < 0 then -x else x
  }

  function Min(a: nat, b: nat): nat {
    if a <= b then a else b
  }

  /** Reasons appear in the order of their checks, each at most once. */
  predicate InCheckOrder(reasons: seq<Reason>) {
    forall i, j :: 0 <= i < j < |reasons| ==> reasons[i].Rank() < reasons[j].Rank()
  }

  /** Sum of the scores of the given reasons. */
  function TotalScore(reasons: seq<Reason>): nat {
    if reasons == [] then 0 else reasons[0].Score() + TotalScore(reasons[1..])
  }

  /** The lower-cased filename contains some lower-cased keyword as a substring. */
  predicate HasKeyword(fileName: string) {
    exists i :: 0 <= i < |Keywords| && Contains(Lower(fileName), Lower(Keywords[i]))
  }

  /** JavaScript truthiness of `width && height` for integer dimensions:
      both present and neither zero (negative values are truthy). */
  predicate DimensionsGiven(width: Option<int>, height: Option<int>) {
    width.Some? && width.value != 0 && height.Some? && height.value != 0
  }

  /** `Math.abs(width / height - ratio) < ratio * ASPECT_TOLERANCE`, multiplied
      through by `100 * |height| * den`. A zero height never matches, as
      `Infinity` and `NaN` never compare below a finite bound. */
  predicate NearRatio(width: int, height: int, a: AspectRatio) {
    ToleranceDivisor * Abs(width * a.den - a.num * height) < a.num * Abs(height)
  }

  /** Some catalog ratio is within tolerance of `width / height`. */
  predicate MatchesCommonRatio(width: int, height: int) {
    exists i :: 0 <= i < |CommonAspectRatios| && NearRatio(width, height, CommonAspectRatios[i])
  }

  /** `fileName.toLowerCase().substring(fileName.lastIndexOf('.'))`; with no
      dot `substring(-1)` starts at 0 and yields the whole lower-cased name. */
  function ExtensionOf(fileName: string): (ext: string)
    ensures |ext| <= |fileName| && ext == Lower(fileName[|fileName| - |ext|..])
    ensures '.' !in fileName ==> ext == Lower(fileName)
    ensures '.' in fileName ==> ext != [] && ext[0] == '.' && '.' !in ext[1..]
  {
    var dot := LastIndexOf(fileName, '.');
    var suffix := fileName[if dot < 0 then 0 else dot..];
    LowerKeepsDots(suffix);
    Lower(suffix)
  }

  /** Lower-casing neither adds nor removes dots after the first character. */
  lemma LowerKeepsDots(s: string)
    ensures s != [] ==> Lower(s)[0] == LowerChar(s[0]) && ('.' in Lower(s)[1..] <==> '.' in s[1..])
  {
    if s != [] {
      var r := Lower(s);
      forall i | 1 <= i < |s|
        ensures r[i] == '.' <==> s[i] == '.'
      {
        LowerKeepsPunctuation(s[i]);
      }
      assert forall i :: 0 <= i < |s| - 1 ==> r[1..][i] == r[i + 1] && s[1..][i] == s[i + 1];
    }
  }

  /** Which of the four checks fired. */
  datatype Signals = Signals(keyword: bool, common: bool, wide: bool, extension: bool)

  /** Runs the four checks of `isLikelyScreenshot` on its inputs. */
  function SignalsOf(fileName: string, width: Option<int>, height: Option<int>): Signals {
    var dims := DimensionsGiven(width, height);
    Signals(
      HasKeyword(fileName),
      dims && MatchesCommonRatio(width.value, height.value),
      dims && NearRatio(width.value, height.value, Widescreen),
      ExtensionOf(fileName) in ValidExtensions)
  }

  /** The reasons pushed, in the order the checks run. */
  function ReasonsOf(s: Signals): seq<Reason> {
    (if s.keyword then [KeywordMatch] else [])
    + (if s.common then [CommonRatio] else [])
    + (if s.wide then [WideRatio] else [])
    + (if s.extension then [ImageExtension] else [])
  }

  /** The uncapped sum of `confidence += …` steps, in tenths. */
  function RawScore(s: Signals): nat {
    (if s.keyword then KeywordScore else 0)
    + (if s.common then RatioScore else 0)
    + (if s.wide then WidescreenScore else 0)
    + (if s.extension then ExtensionScore else 0)
  }

  /** The reasons are in check order, so there are at most four. */
  lemma ReasonsInCheckOrder(s: Signals)
    ensures InCheckOrder(ReasonsOf(s))
    ensures |ReasonsOf(s)| <= 4
  {
  }

  /** The scores of the reasons add up to the raw score. */
  lemma ReasonsAgreeWithScore(s: Signals)
    ensures TotalScore(ReasonsOf(s)) == RawScore(s)
  {
    var k := if s.keyword then [KeywordMatch] else [];
    var c := if s.common then [CommonRatio] else [];
    var w := if s.wide then [WideRatio] else [];
    var e := if s.extension then [ImageExtension] else [];
    TotalScoreAppend(k, c);
    TotalScoreAppend(k + c, w);
    TotalScoreAppend(k + c + w, e);
  }

  /** `isLikelyScreenshot({ fileName, width, height })`: the threshold is
      applied to the uncapped sum, and the confidence is capped at 1.0. */
  function Detect(fileName: string, width: Option<int>, height: Option<int>): (d: Detection)
    ensures d.confidence <= MaxConfidence
    ensures |d.reasons| <= 4
    ensures InCheckOrder(d.reasons)
    ensures d.confidence == Min(TotalScore(d.reasons), MaxConfidence)
    ensures d.isScreenshot <==> TotalScore(d.reasons) >= Threshold
  {
    var s := SignalsOf(fileName, width, height);
    ReasonsInCheckOrder(s);
    ReasonsAgreeWithScore(s);
    Detection(RawScore(s) >= Threshold, Min(RawScore(s), MaxConfidence), ReasonsOf(s))
  }

  lemma {:induction false} TotalScoreAppend(a: seq<Reason>, b: seq<Reason>)
    ensures TotalScore(a + b) == TotalScore(a) + TotalScore(b)
  {
    if a != [] {
      assert (a + b)[0] == a[0];
      assert (a + b)[1..] == a[1..] + b;
      TotalScoreAppend(a[1..], b);
      assert TotalScore(a + b) == a[0].Score() + TotalScore(a[1..] + b);
    } else {
      assert a + b == b;
    }
  }

  /** Each reason is present exactly when its check fired. */
  lemma ReasonsOfMembership(s: Signals)
    ensures KeywordMatch in ReasonsOf(s) <==> s.keyword
    ensures CommonRatio in ReasonsOf(s) <==> s.common
    ensures WideRatio in ReasonsOf(s) <==> s.wide
    ensures ImageExtension in ReasonsOf(s) <==> s.extension
  {
  }

  /** The reasons of `Detect` are exactly the checks that fired. */
  lemma DetectReasons(fileName: string, width: Option<int>, height: Option<int>)
    ensures var d := Detect(fileName, width, height);
      && (KeywordMatch in d.reasons <==> HasKeyword(fileName))
      && (CommonRatio in d.reasons <==>
            DimensionsGiven(width, height) && MatchesCommonRatio(width.value, height.value))
      && (WideRatio in d.reasons <==>
            DimensionsGiven(width, height) && NearRatio(width.value, height.value, Widescreen))
      && (ImageExtension in d.reasons <==> ExtensionOf(fileName) in ValidExtensions)
  {
    ReasonsOfMembership(SignalsOf(fileName, width, height));
  }

  /** A keyword in the filename alone makes the image a screenshot with
      confidence at least 0.6, whatever the dimensions. */
  lemma KeywordMeansScreenshot(fileName: string, width: Option<int>, height: Option<int>)
    requires HasKeyword(fileName)
    ensures Detect(fileName, width, height).confidence >= KeywordScore
    ensures Detect(fileName, width, height).isScreenshot
    ensures Detect(fileName, width, height).reasons[0] == KeywordMatch
  {
  }

  /** Index of the first entry of `catalog`, in table order, within
      tolerance of `width / height`. */
  function FirstMatch(width: int, height: int, catalog: seq<AspectRatio>): (r: Option<nat>)
    ensures r.Some? ==> r.value < |catalog| && NearRatio(width, height, catalog[r.value])
    ensures r.Some? ==> forall j :: 0 <= j < r.value ==> !NearRatio(width, height, catalog[j])
    ensures r.None? <==> forall j :: 0 <= j < |catalog| ==> !NearRatio(width, height, catalog[j])
  {
    if catalog == [] then None
    else if NearRatio(width, height, catalog[0]) then Some(0)
    else
      match FirstMatch(width, height, catalog[1..])
      case None => None
      case Some(i) => Some(i + 1)
  }

  /** Entry `i` is the first catalog ratio within tolerance of `width / height`. */
  predicate IsFirstMatch(width: int, height: int, i: int) {
    && 0 <= i < |CommonAspectRatios|
    && NearRatio(width, height, CommonAspectRatios[i])
    && forall j :: 0 <= j < i ==> !NearRatio(width, height, CommonAspectRatios[j])
  }

  /** `getAspectRatioName(width, height)`: the name of the first catalog
      ratio within tolerance, else "Custom". There is no guard on the
      dimensions and no orientation normalisation. */
  function AspectRatioName(width: int, height: int): (name: string)
    ensures name == "Custom" <==> !MatchesCommonRatio(width, height)
    ensures forall i :: IsFirstMatch(width, height, i) ==> name == CommonAspectRatios[i].name
  {
    CatalogNamesNotCustom();
    CatalogFirstMatches(width, height);
    match FirstMatch(width, height, CommonAspectRatios)
    case Some(i) => CommonAspectRatios[i].name
    case None => "Custom"
  }

  lemma CatalogNamesNotCustom()
    ensures forall i :: 0 <= i < |CommonAspectRatios| ==> CommonAspectRatios[i].name != "Custom"
  {
  }

  /** `FirstMatch` over the catalog finds exactly the entry `IsFirstMatch` describes. */
  lemma CatalogFirstMatches(width: int, height: int)
    ensures FirstMatch(width, height, CommonAspectRatios).None? <==> !MatchesCommonRatio(width, height)
    ensures forall i :: IsFirstMatch(width, height, i) ==> FirstMatch(width, height, CommonAspectRatios) == Some(i)
  {
    forall i | IsFirstMatch(width, height, i)
      ensures FirstMatch(width, height, CommonAspectRatios) == Some(i)
    {
      var r := FirstMatch(width, height, CommonAspectRatios);
      assert r.Some?;
      assert !(r.value < i) && !(i < r.value);
    }
  }

  /** The names the repository's test script prints: 16:9, 3:2 and a custom ratio,
      and a portrait phone ratio, which is not turned sideways first. */
  lemma AspectRatioNameExamples()
    ensures AspectRatioName(1920, 1080) == "Standard widescreen"
    ensures AspectRatioName(3000, 2000) == "Traditional 4:6"
    ensures AspectRatioName(1000, 800) == "Custom"
    ensures AspectRatioName(1170, 2532) == "Custom"
  {
    assert !NearRatio(1920, 1080, CommonAspectRatios[0]) && !NearRatio(1920, 1080, CommonAspectRatios[1]);
    assert NearRatio(1920, 1080, CommonAspectRatios[2]);
    assert NearRatio(3000, 2000, CommonAspectRatios[3]);
  }

  /** A zero height (`x / 0` is `Infinity` or `NaN`) never names a catalog ratio. */
  lemma ZeroHeightIsCustom(width: int)
    ensures AspectRatioName(width, 0) == "Custom"
  {
  }

  function RealAbs(x: real): real {
    if x < 0.0 then -x else x
  }

  /** The integer test is the code's relative tolerance test on exact
      rationals: `|width/height - num/den| < (num/den) * 0.01`. */
  lemma NearRatioIsRelativeTolerance(width: int, height: int, a: AspectRatio)
    requires height != 0 && a.den > 0
    ensures NearRatio(width, height, a) <==>
      RealAbs(width as real / height as real - a.num as real / a.den as real)
        < (a.num as real / a.den as real) * 0.01
  {
    NearRatioInReals(width, height, a);
    WithinToleranceInReals(width, height, a);
  }

  /** The code's tolerance test, multiplied out: both sides scaled by `100 |height| den`. */
  lemma WithinToleranceInReals(width: int, height: int, a: AspectRatio)
    requires height != 0 && a.den > 0
    ensures RealAbs(width as real / height as real - a.num as real / a.den as real) < (a.num as real / a.den as real) * 0.01
      <==> 100.0 * Abs(width * a.den - a.num * height) as real < a.num as real * Abs(height) as real
  {
    var x, ah, p, q := Abs(width * a.den - a.num * height) as real, Abs(height) as real, a.num as real, a.den as real;
    RelativeDifference(width, height, a);
    ScaledTolerance(RealAbs(width as real / height as real - p / q), x, ah, p, q);
  }

  /** `ScaleComparison` for a difference already written as one fraction. */
  lemma ScaledTolerance(diff: real, x: real, ah: real, p: real, q: real)
    requires ah > 0.0 && q > 0.0 && diff == x / (ah * q)
    ensures diff < (p / q) * 0.01 <==> 100.0 * x < p * ah
  {
    ScaleComparison(x, ah, p, q);
  }

  /** The integer test, cast to reals. */
  lemma NearRatioInReals(width: int, height: int, a: AspectRatio)
    ensures NearRatio(width, height, a) <==>
      100.0 * Abs(width * a.den - a.num * height) as real < a.num as real * Abs(height) as real
  {
    CastProduct(ToleranceDivisor, Abs(width * a.den - a.num * height));
    CastProduct(a.num, Abs(height));
  }

  /** `|width/height - num/den|` as one fraction with a positive denominator. */
  lemma RelativeDifference(width: int, height: int, a: AspectRatio)
    requires height != 0 && a.den > 0
    ensures RealAbs(width as real / height as real - a.num as real / a.den as real)
      == Abs(width * a.den - a.num * height) as real / (Abs(height) as real * a.den as real)
  {
    var w, h, p, q := width as real, height as real, a.num as real, a.den as real;
    var n := width * a.den - a.num * height;
    var d := n as real;
    CastDifference(width, height, a.num, a.den);
    FractionDifference(w, h, p, q, d);
    AbsCast(n);
    AbsCast(height);
  }

  lemma AbsCast(n: int)
    ensures RealAbs(n as real) == Abs(n) as real
  {
  }

  /** `|w/h - p/q| == |d| / (|h| q)` where `d` is the cross difference. */
  lemma FractionDifference(w: real, h: real, p: real, q: real, d: real)
    requires h != 0.0 && q > 0.0 && d == w * q - p * h
    ensures RealAbs(w / h - p / q) == RealAbs(d) / (RealAbs(h) * q)
  {
    DifferenceAsFraction(w, h, p, q);
    AbsOfQuotient(d, h, q);
  }

  lemma CastProduct(x: int, y: int)
    ensures (x * y) as real == x as real * y as real
  {
  }

  lemma CastDifference(w: int, h: int, p: int, q: int)
    ensures (w * q - p * h) as real == w as real * q as real - p as real * h as real
  {
    CastProduct(w, q);
    CastProduct(p, h);
  }

  lemma DifferenceAsFraction(w: real, h: real, p: real, q: real)
    requires h != 0.0 && q > 0.0
    ensures w / h - p / q == (w * q - p * h) / (h * q)
  {
    assert w / h == (w * q) / (h * q);
    assert p / q == (p * h) / (h * q);
  }

  lemma AbsOfQuotient(d: real, h: real, q: real)
    requires h != 0.0 && q > 0.0
    ensures RealAbs(d / (h * q)) == RealAbs(d) / (RealAbs(h) * q)
  {
    if h < 0.0 {
      var m := RealAbs(h) * q;
      assert m > 0.0 && h * q == -m;
      NegatedDivisor(d, m);
    }
  }

  lemma NegatedDivisor(d: real, m: real)
    requires m > 0.0
    ensures d / -m == RealAbs(d / m) * (if d < 0.0 then 1.0 else -1.0)
    ensures RealAbs(d / -m) == RealAbs(d) / m
  {
    var x := d / m;
    assert x * m == d;
    assert (-x) * (-m) == d;
    assert d / -m == -x;
    if d < 0.0 {
      assert x < 0.0;
      assert RealAbs(d) / m == -x;
    } else {
      assert x >= 0.0;
    }
  }

  /** Clearing the positive denominators of `x / (ah*q) < (p/q) * 0.01`. */
  lemma ScaleComparison(x: real, ah: real, p: real, q: real)
    requires ah > 0.0 && q > 0.0
    ensures x / (ah * q) < (p / q) * 0.01 <==> 100.0 * x < p * ah
  {
    var k := 100.0 * ah * q;
    assert k > 0.0;
    assert (x / (ah * q)) * k == 100.0 * x;
    assert ((p / q) * 0.01) * k == p * ah;
  }

  /** A 16:9 match is always a catalog match too. */
  lemma WidescreenIsCommon(width: int, height: int)
    requires NearRatio(width, height, Widescreen)
    ensures MatchesCommonRatio(width, height)
  {
    assert NearRatio(width, height, CommonAspectRatios[2]);
  }

  /** The image counts as a screenshot exactly when the filename has a keyword
      or the given dimensions match a catalog ratio: the 16:9 and extension
      bonuses (0.1 each) never reach the threshold on their own. */
  lemma ScreenshotIffStrongSignal(fileName: string, width: Option<int>, height: Option<int>)
    ensures Detect(fileName, width, height).isScreenshot <==>
      HasKeyword(fileName)
      || (DimensionsGiven(width, height) && MatchesCommonRatio(width.value, height.value))
  {
    if DimensionsGiven(width, height) && NearRatio(width.value, height.value, Widescreen) {
      WidescreenIsCommon(width.value, height.value);
    }
  }

  /** Without a keyword or a catalog match, at most the extension bonus is earned. */
  lemma WeakSignalsOnly(fileName: string, width: Option<int>, height: Option<int>)
    requires !HasKeyword(fileName)
    requires !(DimensionsGiven(width, height) && MatchesCommonRatio(width.value, height.value))
    ensures Detect(fileName, width, height).confidence <= ExtensionScore
    ensures Detect(fileName, width, height).reasons in [[], [ImageExtension]]
    ensures !Detect(fileName, width, height).isScreenshot
  {
    var s := SignalsOf(fileName, width, height);
    if DimensionsGiven(width, height) && NearRatio(width.value, height.value, Widescreen) {
      WidescreenIsCommon(width.value, height.value);
    }
    assert !s.keyword && !s.common && !s.wide;
    assert ReasonsOf(s) == if s.extension then [ImageExtension] else [];
    assert Detect(fileName, width, height).reasons == ReasonsOf(s);
  }

  /** With a dimension missing or zero the ratio checks are skipped. */
  lemma RatioSkippedWithoutDimensions(fileName: string, width: Option<int>, height: Option<int>)
    requires width.None? || height.None? || width == Some(0) || height == Some(0)
    ensures CommonRatio !in Detect(fileName, width, height).reasons
    ensures WideRatio !in Detect(fileName, width, height).reasons
  {
    var s := SignalsOf(fileName, width, height);
    assert !s.common && !s.wide;
    DetectBySignals(fileName, width, height, s);
    ReasonsOfMembership(s);
  }

  /** A ratio within 1% of 16/9 earns both the catalog bonus and the 16:9
      bonus, so confidence is at least 0.4. */
  lemma WidescreenEarnsBothBonuses(fileName: string, width: int, height: int)
    requires width != 0 && height != 0
    requires NearRatio(width, height, Widescreen)
    ensures CommonRatio in Detect(fileName, Some(width), Some(height)).reasons
    ensures WideRatio in Detect(fileName, Some(width), Some(height)).reasons
    ensures Detect(fileName, Some(width), Some(height)).confidence >= RatioScore + WidescreenScore
  {
    WidescreenIsCommon(width, height);
    RatioSignals(fileName, width, height);
    var sig := SignalsOf(fileName, Some(width), Some(height));
    assert sig.common && sig.wide;
    DetectBySignals(fileName, Some(width), Some(height), sig);
    ReasonsOfMembership(sig);
  }

  /** The extension bonus is earned exactly when the name has a dot and the
      lower-cased text from its last dot is a valid extension. */
  lemma ExtensionBonusIff(fileName: string, width: Option<int>, height: Option<int>)
    ensures ImageExtension in Detect(fileName, width, height).reasons <==>
      '.' in fileName && Lower(fileName[LastIndexOf(fileName, '.')..]) in ValidExtensions
  {
    DetectReasons(fileName, width, height);
    if '.' !in fileName {
      NoDotNoExtension(fileName);
    }
  }

  /** A name without a dot is its own "extension" and never earns the bonus. */
  lemma NoDotNoExtension(fileName: string)
    requires '.' !in fileName
    ensures ExtensionOf(fileName) !in ValidExtensions
  {
    var e := ExtensionOf(fileName);
    assert e == Lower(fileName);
    forall i | 0 <= i < |e|
      ensures e[i] != '.'
    {
      LowerKeepsPunctuation(fileName[i]);
    }
    DotFreeNotListed(e);
  }

  /** Every listed extension has a dot. */
  lemma DotFreeNotListed(e: string)
    requires '.' !in e
    ensures e !in ValidExtensions
  {
    forall v | v in ValidExtensions
      ensures e != v
    {
      assert v[0] == '.';
    }
  }

  /** `.gif` is a supported upload format but earns no extension bonus. */
  lemma GifEarnsNoBonus(stem: string, width: Option<int>, height: Option<int>)
    ensures ImageExtension !in Detect(stem + ".gif", width, height).reasons
  {
    ExtensionAfterLastDot(stem, ".gif");
    GifIsNotListed();
    DetectReasons(stem + ".gif", width, height);
  }

  lemma GifIsNotListed()
    ensures Lower(".gif") !in ValidExtensions
  {
    assert Lower(".gif") == ".gif";
  }

  /** The first characters of the keywords. */
  predicate IsKeywordStart(c: char) {
    c == 's' || c == 'c' || c == 'ス' || c == '屏' || c == '화'
  }

  /** Every keyword is non-empty and starts with a character of `IsKeywordStart`. */
  lemma KeywordStartsCover()
    ensures forall i :: 0 <= i < |Keywords| ==> Keywords[i] != [] && IsKeywordStart(Keywords[i][0])
  {
  }

  /** A needle whose first character does not occur in the text is not a substring of it. */
  lemma FirstCharAbsent(hay: string, needle: string)
    requires needle != [] && needle[0] !in hay
    ensures !Contains(hay, needle)
  {
    ContainsIff(hay, needle);
  }

  /** A name whose lower-cased form holds none of the keywords' first
      characters has no keyword. */
  lemma NoKeywordWithout(fileName: string)
    requires forall c :: c in fileName ==> !IsKeywordStart(LowerChar(c))
    ensures !HasKeyword(fileName)
  {
    KeywordStartsCover();
    forall i | 0 <= i < |Keywords|
      ensures !Contains(Lower(fileName), Lower(Keywords[i]))
    {
      var k := Keywords[i];
      assert LowerChar(k[0]) == k[0];
      assert Lower(k)[0] !in Lower(fileName) by {
        forall j | 0 <= j < |fileName|
          ensures Lower(fileName)[j] != Lower(k)[0]
        {
        }
      }
      FirstCharAbsent(Lower(fileName), Lower(k));
    }
  }

  /** `Detect` is determined by which checks fired. */
  lemma DetectBySignals(fileName: string, width: Option<int>, height: Option<int>, s: Signals)
    requires SignalsOf(fileName, width, height) == s
    ensures Detect(fileName, width, height)
      == Detection(RawScore(s) >= Threshold, Min(RawScore(s), MaxConfidence), ReasonsOf(s))
  {
  }

  lemma PhotoName()
    ensures !HasKeyword("IMG_1234.jpg")
    ensures ExtensionOf("IMG_1234.jpg") == ".jpg"
  {
    NoKeywordWithout("IMG_1234.jpg");
    NameExtension("IMG_1234", ".jpg");
  }

  /** `IMG_1234.jpg` at 1920x1080: no keyword, a 16:9 catalog match and a
      valid extension give confidence 0.5 and three reasons. */
  lemma ExamplePhotoAt1080p()
    ensures Detect("IMG_1234.jpg", Some(1920), Some(1080))
      == Detection(true, 5, [CommonRatio, WideRatio, ImageExtension])
  {
    PhotoName();
    SignalsAt1080p("IMG_1234.jpg");
    RatioAndExtensionSignals();
    DetectBySignals("IMG_1234.jpg", Some(1920), Some(1080), Signals(false, true, true, true));
  }

  /** Both ratio checks and the extension check, without a keyword. */
  lemma RatioAndExtensionSignals()
    ensures RawScore(Signals(false, true, true, true)) == 5
    ensures ReasonsOf(Signals(false, true, true, true)) == [CommonRatio, WideRatio, ImageExtension]
  {
  }

  /** All four checks fire. */
  lemma AllSignals()
    ensures RawScore(Signals(true, true, true, true)) == 11
    ensures ReasonsOf(Signals(true, true, true, true)) == [KeywordMatch, CommonRatio, WideRatio, ImageExtension]
  {
  }

  /** At 1920 by 1080 both ratio signals fire. */
  lemma SignalsAt1080p(fileName: string)
    ensures SignalsOf(fileName, Some(1920), Some(1080))
      == Signals(HasKeyword(fileName), true, true, ExtensionOf(fileName) in ValidExtensions)
  {
    assert NearRatio(1920, 1080, Widescreen);
    WidescreenIsCommon(1920, 1080);
    RatioSignals(fileName, 1920, 1080);
  }

  /** With both dimensions truthy the ratio signals are the two ratio tests. */
  lemma RatioSignals(fileName: string, width: int, height: int)
    requires width != 0 && height != 0
    ensures SignalsOf(fileName, Some(width), Some(height)) == Signals(HasKeyword(fileName),
      MatchesCommonRatio(width, height), NearRatio(width, height, Widescreen), ExtensionOf(fileName) in ValidExtensions)
  {
  }

  /** A name that starts with a keyword has a keyword. */
  lemma KeywordPrefix(fileName: string, i: int)
    requires 0 <= i < |Keywords| && Keywords[i] <= fileName
    requires Lower(Keywords[i]) == Keywords[i]
    ensures HasKeyword(fileName)
  {
    var k := Keywords[i];
    assert Lower(fileName)[..|k|] == Lower(k);
    assert Contains(Lower(fileName), Lower(k));
  }

  /** A name of the form `screenshot<stem>.png`, such as
      `screenshot_2024_01_15.png`, at 1920x1080 scores 1.1, capped to 1.0,
      with all four reasons. */
  lemma ExampleKeywordAt1080p(stem: string)
    ensures Detect("screenshot" + stem + ".png", Some(1920), Some(1080))
      == Detection(true, 10, [KeywordMatch, CommonRatio, WideRatio, ImageExtension])
  {
    KeywordStemName(stem);
    PngIsListed();
    KeywordImageAt1080p("screenshot" + stem + ".png");
  }

  lemma PngIsListed()
    ensures ".png" in ValidExtensions
  {
  }

  /** A keyword and a listed extension at 1920 by 1080 earn every bonus. */
  lemma KeywordImageAt1080p(name: string)
    requires HasKeyword(name) && ExtensionOf(name) in ValidExtensions
    ensures Detect(name, Some(1920), Some(1080)) == Detection(true, 10, [KeywordMatch, CommonRatio, WideRatio, ImageExtension])
  {
    SignalsAt1080p(name);
    AllSignals();
    DetectBySignals(name, Some(1920), Some(1080), Signals(true, true, true, true));
  }

  lemma KeywordStemName(stem: string)
    ensures HasKeyword("screenshot" + stem + ".png")
    ensures ExtensionOf("screenshot" + stem + ".png") == ".png"
  {
    var base := "screenshot" + stem;
    assert "screenshot" <= base + ".png" by {
      assert (base + ".png")[..10] == base[..10] == "screenshot";
    }
    KeywordStemHasKeyword(base + ".png");
    PngSuffix();
    ExtensionAfterLastDot(base, ".png");
  }

  lemma PngSuffix()
    ensures |".png"| > 0 && ".png"[0] == '.' && '.' !in ".png"[1..]
    ensures Lower(".png") == ".png"
  {
    assert ".png"[1..] == "png";
  }

  /** Any text followed by `.ext` (with no further dot) has extension `.ext`, lower-cased. */
  lemma ExtensionAfterLastDot(base: string, ext: string)
    requires |ext| > 0 && ext[0] == '.' && '.' !in ext[1..]
    ensures ExtensionOf(base + ext) == Lower(ext)
  {
    var name := base + ext;
    assert name[|base|] == '.';
    assert name[|base| + 1..] == ext[1..];
    LastIndexOfUnique(name, '.', |base|);
    assert name[|base|..] == ext;
  }

  lemma KeywordStemHasKeyword(name: string)
    requires "screenshot" <= name
    ensures HasKeyword(name)
  {
    assert Lower("screenshot") == "screenshot";
    KeywordPrefix(name, 0);
  }

  /** The extension of `base + ext` for an already lower-case extension. */
  lemma NameExtension(base: string, ext: string)
    requires |ext| > 0 && ext[0] == '.' && '.' !in ext[1..] && Lower(ext) == ext
    ensures ExtensionOf(base + ext) == ext
  {
    ExtensionAfterLastDot(base, ext);
  }

  lemma PlainName()
    ensures !HasKeyword("random.xyz")
    ensures ExtensionOf("random.xyz") == ".xyz"
  {
    NoKeywordWithout("random.xyz");
    NameExtension("random", ".xyz");
  }

  /** `random.xyz` without dimensions earns nothing. */
  lemma ExampleNoSignal()
    ensures Detect("random.xyz", None, None) == Detection(false, 0, [])
  {
    PlainName();
    DetectBySignals("random.xyz", None, None, Signals(false, false, false, false));
  }

  /** The dimension guard is truthiness only: negating both dimensions
      leaves the ratio, and so the whole detection, unchanged. */
  lemma NegatedDimensionsDetectAlike(fileName: string, width: int, height: int)
    ensures Detect(fileName, Some(-width), Some(-height)) == Detect(fileName, Some(width), Some(height))
  {
    NegatedSignals(fileName, width, height);
    SameSignalsSameDetection(fileName, Some(-width), Some(-height), Some(width), Some(height));
  }

  lemma NegatedSignals(fileName: string, width: int, height: int)
    ensures SignalsOf(fileName, Some(-width), Some(-height)) == SignalsOf(fileName, Some(width), Some(height))
  {
    MatchesNegated(width, height);
    NearRatioNegated(width, height, Widescreen);
    SignalsAgree(fileName, -width, -height, width, height);
  }

  /** `Detect` depends on its inputs only through the signals. */
  lemma SameSignalsSameDetection(fileName: string, w1: Option<int>, h1: Option<int>, w2: Option<int>, h2: Option<int>)
    requires SignalsOf(fileName, w1, h1) == SignalsOf(fileName, w2, h2)
    ensures Detect(fileName, w1, h1) == Detect(fileName, w2, h2)
  {
  }

  /** The signals depend on the dimensions only through the three ratio tests. */
  lemma SignalsAgree(fileName: string, w1: int, h1: int, w2: int, h2: int)
    requires (w1 != 0 && h1 != 0) == (w2 != 0 && h2 != 0)
    requires MatchesCommonRatio(w1, h1) == MatchesCommonRatio(w2, h2)
    requires NearRatio(w1, h1, Widescreen) == NearRatio(w2, h2, Widescreen)
    ensures SignalsOf(fileName, Some(w1), Some(h1)) == SignalsOf(fileName, Some(w2), Some(h2))
  {
  }

  lemma NearRatioNegated(width: int, height: int, a: AspectRatio)
    ensures NearRatio(-width, -height, a) <==> NearRatio(width, height, a)
  {
    assert -width * a.den - a.num * -height == -(width * a.den - a.num * height);
  }

  lemma MatchesNegated(width: int, height: int)
    ensures MatchesCommonRatio(-width, -height) <==> MatchesCommonRatio(width, height)
  {
    forall i | 0 <= i < |CommonAspectRatios|
      ensures NearRatio(-width, -height, CommonAspectRatios[i]) <==> NearRatio(width, height, CommonAspectRatios[i])
    {
      NearRatioNegated(width, height, CommonAspectRatios[i]);
    }
  }

  /** Two negative dimensions in 16:9 proportion earn both ratio bonuses,
      although a negative size is no device's screen. */
  lemma NegativeDimensionsMatch(fileName: string)
    ensures CommonRatio in Detect(fileName, Some(-1920), Some(-1080)).reasons
    ensures WideRatio in Detect(fileName, Some(-1920), Some(-1080)).reasons
  {
    WidescreenEarnsBothBonuses(fileName, -1920, -1080);
  }
}
