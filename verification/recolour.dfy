/** The recolour pass of `generate_qr_code`: every pixel of the rendered QR
    image becomes either fully transparent white (it was white) or the chosen
    foreground colour at full opacity. Images are indexed `[x][y]`, a sequence
    of columns, because the source walks `x` over the width in the outer loop
    and `y` over the height in the inner one. */
module Recolour {
  import opened Colour
  import Palette

  /** `g` is a `width` by `height` image stored column by column. */
  ghost predicate IsGrid<T>(g: seq<seq<T>>, width: nat, height: nat)
  {
    |g| == width && forall x :: 0 <= x < width ==> |g[x]| == height
  }

  /** The source's "is white" test: all three colour channels above 200. */
  function IsWhite(p: Rgba): (white: bool)
    ensures white ==> !IsDark(Rgb(p.r, p.g, p.b))
    ensures white <==> Min(Min(p.r, p.g), p.b) > 200
  {
    p.r > 200 && p.g > 200 && p.b > 200
  }

  const Transparent := Rgba(255, 255, 255, 0)

  function Opaque(fg: Rgb): Rgba
  {
    Rgba(fg.r, fg.g, fg.b, 255)
  }

  /** What one visit of the loop does to a pixel. */
  function RecolourPixel(p: Rgba, fg: Rgb): (q: Rgba)
    ensures q.a == 0 <==> IsWhite(p)
    ensures q.a == 0 || q.a == 255
    ensures q.a == 0 ==> q.r == 255 && q.g == 255 && q.b == 255
    ensures q.a == 255 ==> q.r == fg.r && q.g == fg.g && q.b == fg.b
  {
    if IsWhite(p) then Transparent else Opaque(fg)
  }

  /** The nested loop over the image. Pixels are read from and written back
      into the same image, as the source does through `pixels[i, j]`;
      `visits` counts how often the body reached each pixel. */
  method RecolourPass(qr: seq<seq<Rgba>>, width: nat, height: nat, fg: Rgb)
    returns (out: seq<seq<Rgba>>, visits: seq<seq<nat>>)
    requires IsGrid(qr, width, height)
    ensures IsGrid(out, width, height)
    ensures IsGrid(visits, width, height)
    ensures forall x, y :: 0 <= x < width && 0 <= y < height ==>
      out[x][y] == RecolourPixel(qr[x][y], fg)
    ensures forall x, y :: 0 <= x < width && 0 <= y < height ==> visits[x][y] == 1
  {
    out := qr;
    visits := seq(width, _ => seq(height, _ => 0));
    var i := 0;
    while i < width
      invariant 0 <= i <= width
      invariant IsGrid(out, width, height) && IsGrid(visits, width, height)
      invariant forall x, y :: 0 <= x < width && 0 <= y < height ==>
        out[x][y] == if x < i then RecolourPixel(qr[x][y], fg) else qr[x][y]
      invariant forall x, y :: 0 <= x < width && 0 <= y < height ==>
        visits[x][y] == if x < i then 1 else 0
    {
      var j := 0;
      while j < height
        invariant 0 <= j <= height
        invariant IsGrid(out, width, height) && IsGrid(visits, width, height)
        invariant forall x, y :: 0 <= x < width && 0 <= y < height ==>
          out[x][y] == if x < i || (x == i && y < j) then RecolourPixel(qr[x][y], fg) else qr[x][y]
        invariant forall x, y :: 0 <= x < width && 0 <= y < height ==>
          visits[x][y] == if x < i || (x == i && y < j) then 1 else 0
      {
        var p := out[i][j];
        out := out[i := out[i][j := RecolourPixel(p, fg)]];
        visits := visits[i := visits[i][j := visits[i][j] + 1]];
        j := j + 1;
      }
      i := i + 1;
    }
  }

  /** The background-aware part of `generate_qr_code` up to the final paste:
      average the background, choose the foreground, recolour the rendered QR
      image. An empty background fails, as the source's division does. */
  method BuildOverlay(qr: seq<seq<Rgba>>, width: nat, height: nat, background: seq<Rgb>)
    returns (overlay: Option<seq<seq<Rgba>>>)
    requires IsGrid(qr, width, height)
    ensures overlay.None? <==> |background| == 0
    ensures overlay.Some? ==> IsGrid(overlay.value, width, height)
    ensures overlay.Some? ==> forall x, y :: 0 <= x < width && 0 <= y < height ==>
      var q := overlay.value[x][y];
      (q.a == 0 <==> IsWhite(qr[x][y])) &&
      (q.a == 255 ==> Rgb(q.r, q.g, q.b) == Palette.ChooseForeground(Palette.Average(background).value)) &&
      q == if IsWhite(qr[x][y]) then Transparent else Opaque(Palette.ChooseForeground(Palette.Average(background).value))
  {
    var plan := Palette.PlanForeground(background);
    if plan.None? {
      return None;
    }
    var out, _ := RecolourPass(qr, width, height, plan.value);
    return Some(out);
  }

  /** Visiting a pixel twice would not be harmless: on the background average
      (125, 125, 125) the dark branch picks (205, 205, 205), which the white
      test itself classifies as white, so a second visit would turn the QR
      modules transparent. The single visit per pixel matters. */
  lemma SecondVisitWouldErase()
    ensures var fg := Palette.ChooseForeground(Rgb(125, 125, 125));
      var once := RecolourPixel(Rgba(0, 0, 0, 255), fg);
      once.a == 255 && RecolourPixel(once, fg) == Transparent
  {
  }

  /** On a light background the foreground never passes the white test, so a
      recoloured module stays opaque if visited again. */
  lemma LightForegroundIsStable(avg: Rgb, p: Rgba)
    requires !IsDark(avg)
    ensures var fg := Palette.ChooseForeground(avg);
      RecolourPixel(RecolourPixel(p, fg), fg) == RecolourPixel(p, fg)
  {
  }

  /** The QR library renders dark modules black and light modules white, both
      opaque. */
  function RenderModule(dark: bool): (p: Rgba)
    ensures p.a == 255
    ensures IsWhite(p) <==> !dark
  {
    if dark then Rgba(0, 0, 0, 255) else Rgba(255, 255, 255, 255)
  }

  /** On a rendered QR image the pass keeps exactly the dark modules, painted
      in the foreground colour, and makes exactly the light modules transparent. */
  lemma RenderedModulesSeparate(dark: bool, fg: Rgb)
    ensures RecolourPixel(RenderModule(dark), fg) == if dark then Opaque(fg) else Transparent
  {
  }
}
