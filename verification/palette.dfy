/** Background analysis of `generate_qr_code`: the floor mean of each channel
    over the background pixels, the dark/light classification of that mean,
    and the contrasting foreground colour derived from it channel by channel. */
module Palette {
  import opened Colour

  /** Sum of one channel over a pixel list, as Python's `sum(p[k] for p in pixels)`. */
  function Sum(ps: seq<Rgb>, c: Component): (s: int)
    ensures 0 <= s <= 255 * |ps|
  {
    if |ps| == 0 then 0 else Get(ps[0], c) + Sum(ps[1..], c)
  }

  /** The smallest value a channel takes over a non-empty pixel list. */
  function Lowest(ps: seq<Rgb>, c: Component): (m: Channel)
    requires |ps| > 0
    ensures forall i :: 0 <= i < |ps| ==> m <= Get(ps[i], c)
    ensures exists i :: 0 <= i < |ps| && Get(ps[i], c) == m
  {
    if |ps| == 1 then Get(ps[0], c)
    else
      var rest := Lowest(ps[1..], c);
      assert forall i :: 1 <= i < |ps| ==> ps[i] == ps[1..][i - 1];
      if Get(ps[0], c) <= rest then Get(ps[0], c) else rest
  }

  /** The largest value a channel takes over a non-empty pixel list. */
  function Highest(ps: seq<Rgb>, c: Component): (m: Channel)
    requires |ps| > 0
    ensures forall i :: 0 <= i < |ps| ==> Get(ps[i], c) <= m
    ensures exists i :: 0 <= i < |ps| && Get(ps[i], c) == m
  {
    if |ps| == 1 then Get(ps[0], c)
    else
      var rest := Highest(ps[1..], c);
      assert forall i :: 1 <= i < |ps| ==> ps[i] == ps[1..][i - 1];
      if Get(ps[0], c) >= rest then Get(ps[0], c) else rest
  }

  /** A channel bounded by `lo` and `hi` on every pixel sums to between
      `|ps| * lo` and `|ps| * hi`. */
  lemma {:induction false} SumBetween(ps: seq<Rgb>, c: Component, lo: int, hi: int)
    requires forall i :: 0 <= i < |ps| ==> lo <= Get(ps[i], c) <= hi
    ensures |ps| * lo <= Sum(ps, c) <= |ps| * hi
  {
    if |ps| > 0 {
      assert forall i :: 0 <= i < |ps[1..]| ==> ps[1..][i] == ps[i + 1];
      SumBetween(ps[1..], c, lo, hi);
      assert |ps| * lo == lo + (|ps| - 1) * lo;
      assert |ps| * hi == hi + (|ps| - 1) * hi;
    }
  }

  /** Floor division of a sum bounded by `n * lo` and `n * hi` by `n` stays
      within [lo, hi]. */
  lemma FloorDivBetween(s: int, n: int, lo: int, hi: int)
    requires n > 0
    requires n * lo <= s <= n * hi
    ensures (s / n) * n <= s < (s / n + 1) * n
    ensures lo <= s / n <= hi
  {
  }

  /** Python's `sum(...) // len(pixels)` for one channel of a non-empty list:
      the floor of the channel mean, which lies between the channel's lowest
      and highest value. */
  function Mean(ps: seq<Rgb>, c: Component): (m: Channel)
    requires |ps| > 0
    ensures m * |ps| <= Sum(ps, c) < (m + 1) * |ps|
    ensures Lowest(ps, c) <= m <= Highest(ps, c)
  {
    SumBetween(ps, c, Lowest(ps, c), Highest(ps, c));
    FloorDivBetween(Sum(ps, c), |ps|, Lowest(ps, c), Highest(ps, c));
    Sum(ps, c) / |ps|
  }

  /** When every pixel has value `v` in a channel, the mean of that channel is `v`. */
  lemma MeanOfUniform(ps: seq<Rgb>, c: Component, v: Channel)
    requires |ps| > 0
    requires forall i :: 0 <= i < |ps| ==> Get(ps[i], c) == v
    ensures Mean(ps, c) == v
  {
  }

  /** The average background colour, channel by channel. The source divides
      by `len(pixels)`, so an empty pixel list raises; that is `None` here. */
  function Average(ps: seq<Rgb>): (r: Option<Rgb>)
    ensures r.None? <==> |ps| == 0
    ensures r.Some? ==> forall c :: Get(r.value, c) == Mean(ps, c)
  {
    if |ps| == 0 then None
    else
      var avg := Rgb(Mean(ps, Red), Mean(ps, Green), Mean(ps, Blue));
      assert forall c :: Get(avg, c) == Mean(ps, c);
      Some(avg)
  }

  /** One channel of the foreground colour, exactly as the source writes it:
      on a dark background `v + 80` unless that would reach 255, then `v - 40`;
      on a light background `v - 80` unless that would reach 0, then `v + 40`;
      each clamped to [0, 255]. The clamps never bind, so the result moves the
      channel by exactly 80 in the preferred direction or 40 in the other. */
  function ChooseChannel(v: Channel, dark: bool): (c: int)
    ensures 0 <= c <= 255
    ensures dark ==> c <= 254 && (c == v + 80 <==> v < 175) && (c == v - 40 <==> v >= 175)
    ensures !dark ==> c >= 1 && (c == v - 80 <==> v > 80) && (c == v + 40 <==> v <= 80)
    ensures c - v == 80 || c - v == -80 || c - v == 40 || c - v == -40
  {
    if dark then
      (if v + 80 < 255 then Min(255, v + 80) else Max(0, v - 40))
    else
      (if v - 80 > 0 then Max(0, v - 80) else Min(255, v + 40))
  }

  /** The foreground colour for a given background average: every channel is
      chosen independently with the same dark/light decision, taken once on
      the whole average colour. Without the clamps, a dark average moves each
      channel up by 80 below 175 and down by 40 from 175 on; a light average
      moves each channel down by 80 above 80 and up by 40 up to 80. */
  function ChooseForeground(avg: Rgb): (fg: Rgb)
    ensures IsDark(avg) ==> forall c ::
      Get(fg, c) == if Get(avg, c) < 175 then Get(avg, c) + 80 else Get(avg, c) - 40
    ensures !IsDark(avg) ==> forall c ::
      Get(fg, c) == if Get(avg, c) > 80 then Get(avg, c) - 80 else Get(avg, c) + 40
  {
    var dark := IsDark(avg);
    Rgb(ChooseChannel(avg.r, dark), ChooseChannel(avg.g, dark), ChooseChannel(avg.b, dark))
  }

  /** Every foreground channel sits exactly 40 or 80 away from the background
      average, in the direction the branch dictates, so the two colours always
      differ; the dark branch never reaches 255 and the light branch never
      reaches 0 (nor exceeds 175). */
  lemma ForegroundContrast(avg: Rgb)
    ensures var fg := ChooseForeground(avg);
      && fg != avg
      && (forall c :: Get(fg, c) - Get(avg, c) in {80, -80, 40, -40})
      && (IsDark(avg) ==> forall c :: Get(fg, c) - Get(avg, c) in {80, -40} && Get(fg, c) <= 254)
      && (!IsDark(avg) ==> forall c :: Get(fg, c) - Get(avg, c) in {-80, 40} && 1 <= Get(fg, c) <= 175)
  {
  }

  /** The dark branch is taken exactly when the integer luma test holds. */
  lemma BranchSelection(avg: Rgb)
    ensures var fg := ChooseForeground(avg);
      (forall c :: Get(fg, c) - Get(avg, c) in {80, -40}) <==> 299 * avg.r + 587 * avg.g + 114 * avg.b < 128000
  {
    var fg := ChooseForeground(avg);
    if !IsDark(avg) {
      assert Get(fg, Red) - Get(avg, Red) in {-80, 40};
    }
  }

  lemma BlackGivesGrey80()
    ensures ChooseForeground(Black) == Rgb(80, 80, 80)
  {
  }

  lemma WhiteGivesGrey175()
    ensures ChooseForeground(White) == Rgb(175, 175, 175)
  {
  }

  /** At a luma of exactly 128000 the integer test calls the average light:
      (128, 128, 128) gets (48, 48, 48). The floating-point sum evaluates just
      below 128 there and would pick the dark branch's (208, 208, 208). */
  lemma LumaBoundaryIsLight()
    ensures Luma1000(Rgb(128, 128, 128)) == 128000
    ensures ChooseForeground(Rgb(128, 128, 128)) == Rgb(48, 48, 48)
  {
  }

  /** Without wrap-around the foreground's luma moves by exactly 80 in the
      intended direction: lighter on a dark background, darker on a light one. */
  lemma LumaShiftWithoutWrap(avg: Rgb)
    ensures IsDark(avg) && avg.r < 175 && avg.g < 175 && avg.b < 175 ==>
      Luma1000(ChooseForeground(avg)) == Luma1000(avg) + 80000
    ensures !IsDark(avg) && avg.r > 80 && avg.g > 80 && avg.b > 80 ==>
      Luma1000(ChooseForeground(avg)) == Luma1000(avg) - 80000
  {
  }

  /** With wrap-around the direction is not kept: a dark background can get a
      darker foreground, and a light background a lighter one. */
  lemma WrapCanReverseDirection()
    ensures IsDark(Rgb(0, 175, 175)) && ChooseForeground(Rgb(0, 175, 175)) == Rgb(80, 135, 135)
    ensures Luma1000(Rgb(80, 135, 135)) < Luma1000(Rgb(0, 175, 175))
    ensures !IsDark(Rgb(255, 80, 80)) && ChooseForeground(Rgb(255, 80, 80)) == Rgb(175, 120, 120)
    ensures Luma1000(Rgb(175, 120, 120)) > Luma1000(Rgb(255, 80, 80))
  {
  }

  /** The whole colour analysis of a background: its average, then the
      contrasting foreground; `None` when there are no background pixels. */
  function PlanForeground(background: seq<Rgb>): (r: Option<Rgb>)
    ensures r.None? <==> |background| == 0
    ensures r.Some? ==> forall c ::
      var m := Get(Average(background).value, c);
      Get(r.value, c) - m in {80, -80, 40, -40}
  {
    match Average(background)
    case None => None
    case Some(avg) =>
      ForegroundContrast(avg);
      Some(ChooseForeground(avg))
  }

  /** A background of one uniform colour yields the same foreground as that
      colour itself: all-black gives (80, 80, 80), all-white (175, 175, 175). */
  lemma UniformBackground(background: seq<Rgb>, colour: Rgb)
    requires |background| > 0
    requires forall i :: 0 <= i < |background| ==> background[i] == colour
    ensures PlanForeground(background) == Some(ChooseForeground(colour))
  {
  }
}
