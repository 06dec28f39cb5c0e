/**
 The photo renderer of img_render.c: scale to fit, rotate, align. Scales and sample positions are
 exact reals here, where the code has floats; a framebuffer is an array of rows, as long as its stride.
 */
module ImgRender {
  import opened Modular
  import opened Wrappers

  /** A framebuffer word, byte by byte; the display ignores the first. */
  datatype Xrgb = Xrgb(x: byte, r: byte, g: byte, b: byte)

  const BLACK := Xrgb(0, 0, 0, 0)

  datatype Rgb = Rgb(r: byte, g: byte, b: byte) {
    function Word(): Xrgb {
      Xrgb(0, r, g, b)
    }
  }

  datatype Rotation = Rot0 | Rot90 | Rot180 | Rot270 {
    predicate Swaps() {
      Rot90? || Rot270?
    }
  }

  datatype Interpolation = Nearest | Bilinear

  /** Left or top, middle, right or bottom. */
  datatype Align = Start | Center | End

  datatype Config = Config(rot: Rotation, interp: Interpolation, hAlign: Align, vAlign: Align)

  /** The decoded pixels, row by row. */
  datatype Picture = Picture(w: nat, h: nat, rows: seq<seq<Rgb>>) {
    ghost predicate Valid() {
      w > 0 && h > 0 && |rows| == h && forall y :: 0 <= y < h ==> |rows[y]| == w
    }

    function At(x: nat, y: nat): Rgb
      requires Valid() && x < w && y < h
    {
      rows[y][x]
    }
  }

  type Image = p: Picture | p.Valid() witness Picture(1, 1, [[Rgb(0, 0, 0)]])

  /** Size of the rotated image. */
  function SrcW(img: Image, rot: Rotation): nat {
    if rot.Swaps() then img.h else img.w
  }

  function SrcH(img: Image, rot: Rotation): nat {
    if rot.Swaps() then img.w else img.h
  }

  /** Maps rotated coordinates back to the original image. */
  function RotateCoords(sx: nat, sy: nat, w: nat, h: nat, rot: Rotation): (nat, nat)
    requires if rot.Swaps() then sx < h && sy < w else sx < w && sy < h
  {
    match rot
    case Rot90 => (sy, h - 1 - sx)
    case Rot180 => (w - 1 - sx, h - 1 - sy)
    case Rot270 => (w - 1 - sy, sx)
    case Rot0 => (sx, sy)
  }

  function PixelAt(img: Image, sx: nat, sy: nat, rot: Rotation): Rgb
    requires sx < SrcW(img, rot) && sy < SrcH(img, rot)
  {
    var (ix, iy) := RotateCoords(sx, sy, img.w, img.h, rot);
    img.At(ix, iy)
  }

  /** The three bytes read for a pixel lie inside the pixel buffer, and no two pixels share them. */
  lemma AddressInBuffer(x: nat, y: nat, w: nat, h: nat)
    requires x < w && y < h
    ensures (y * w + x) * 3 + 3 <= w * h * 3
    ensures (y * w + x) / w == y && (y * w + x) % w == x
  {
    MultiplesAreFar(h - y, w);
    assert (h - y) * w == h * w - y * w;
    DivModUnique(y * w + x, y, x, w);
  }

  function SampleNearest(img: Image, fx: real, fy: real, rot: Rotation): Rgb
    requires fx >= 0.0 && fy >= 0.0
  {
    var sx, sy := fx.Floor, fy.Floor;
    var cx := if sx >= SrcW(img, rot) then SrcW(img, rot) - 1 else sx;
    var cy := if sy >= SrcH(img, rot) then SrcH(img, rot) - 1 else sy;
    PixelAt(img, cx, cy, rot)
  }

  function Truncated(a: byte, b: byte, v: real): (c: byte)
    requires if a < b then a as real <= v <= b as real else b as real <= v <= a as real
    ensures (if a < b then a else b) <= c <= (if a < b then b else a)
    ensures v == a as real ==> c == a
    ensures c as real <= v < c as real + 1.0
  {
    v.Floor
  }

  function Mix(a: real, d: real, t: real): real {
    a + d * t
  }

  lemma LerpUp(a: real, d: real, t: real)
    requires d >= 0.0 && 0.0 <= t < 1.0
    ensures a <= Mix(a, d, t) <= a + d
  {
    assert d * (1.0 - t) >= 0.0;
    assert 0.0 <= d * t <= d;
  }

  lemma LerpDown(a: real, d: real, t: real)
    requires d <= 0.0 && 0.0 <= t < 1.0
    ensures a + d <= Mix(a, d, t) <= a
  {
    assert d * (1.0 - t) <= 0.0;
    assert d * t <= 0.0;
    assert d <= d * t;
  }

  lemma LerpRange(a: real, d: real, t: real)
    requires 0.0 <= t < 1.0
    ensures if d >= 0.0 then a <= Mix(a, d, t) <= a + d else a + d <= Mix(a, d, t) <= a
    ensures t == 0.0 ==> Mix(a, d, t) == a
  {
    if d >= 0.0 {
      LerpUp(a, d, t);
    } else {
      LerpDown(a, d, t);
    }
  }

  /** c is the whole part of the value a t-th of the way from a to b. */
  predicate OnTheWay(a: byte, b: byte, t: real, c: byte) {
    c as real <= Mix(a as real, b as real - a as real, t) < c as real + 1.0
  }

  /** A byte between a and b, at the t-th part of the way, truncated as the cast does. */
  function Lerp(a: byte, b: byte, t: real): (c: byte)
    requires 0.0 <= t < 1.0
    ensures OnTheWay(a, b, t, c)
    ensures (if a < b then a else b) <= c <= (if a < b then b else a)
    ensures t == 0.0 ==> c == a
  {
    LerpRange(a as real, b as real - a as real, t);
    Truncated(a, b, Mix(a as real, b as real - a as real, t))
  }

  function LerpRgb(a: Rgb, b: Rgb, t: real): Rgb
    requires 0.0 <= t < 1.0
  {
    Rgb(Lerp(a.r, b.r, t), Lerp(a.g, b.g, t), Lerp(a.b, b.b, t))
  }

  /** The four source pixels around a position, and how far it lies between them. */
  datatype Corners = Corners(c00: Rgb, c10: Rgb, c01: Rgb, c11: Rgb, tx: real, ty: real) {
    predicate Valid() {
      0.0 <= tx < 1.0 && 0.0 <= ty < 1.0
    }

    /** Blended across and then down. */
    function Blend(): Rgb
      requires Valid()
    {
      LerpRgb(LerpRgb(c00, c10, tx), LerpRgb(c01, c11, tx), ty)
    }
  }

  /** The code does not clamp here: the position must lie inside the rotated image. */
  function CornersAt(img: Image, fx: real, fy: real, rot: Rotation): (c: Corners)
    requires 0.0 <= fx < SrcW(img, rot) as real && 0.0 <= fy < SrcH(img, rot) as real
    ensures c.Valid()
  {
    var x0, y0 := fx.Floor, fy.Floor;
    var x1 := if x0 + 1 < SrcW(img, rot) then x0 + 1 else x0;
    var y1 := if y0 + 1 < SrcH(img, rot) then y0 + 1 else y0;
    Corners(PixelAt(img, x0, y0, rot), PixelAt(img, x1, y0, rot), PixelAt(img, x0, y1, rot), PixelAt(img, x1, y1, rot),
            fx - x0 as real, fy - y0 as real)
  }

  function SampleBilinear(img: Image, fx: real, fy: real, rot: Rotation): Rgb
    requires 0.0 <= fx < SrcW(img, rot) as real && 0.0 <= fy < SrcH(img, rot) as real
  {
    CornersAt(img, fx, fy, rot).Blend()
  }

  // ---- Scale to fit ----

  function Scale(fbW: nat, fbH: nat, srcW: nat, srcH: nat): (s: real)
    requires srcW > 0 && srcH > 0
    ensures s >= 0.0
  {
    var sx, sy := fbW as real / srcW as real, fbH as real / srcH as real;
    if sx < sy then sx else sy
  }

  lemma TimesQuotient(a: real, b: real)
    requires b > 0.0
    ensures b * (a / b) == a
  {
  }

  lemma MulOrder(k: real, a: real, b: real)
    requires k > 0.0
    ensures a <= b <==> k * a <= k * b
  {
    if a <= b {
      assert k * (b - a) >= 0.0;
    } else {
      assert k * (a - b) > 0.0;
    }
  }

  /** The scaled image fits, and fills the framebuffer in one direction. */
  lemma ScaleFits(fbW: nat, fbH: nat, srcW: nat, srcH: nat)
    requires srcW > 0 && srcH > 0
    ensures var s := Scale(fbW, fbH, srcW, srcH);
      && srcW as real * s <= fbW as real && srcH as real * s <= fbH as real
      && (srcW as real * s == fbW as real || srcH as real * s == fbH as real)
  {
    var sx, sy := fbW as real / srcW as real, fbH as real / srcH as real;
    TimesQuotient(fbW as real, srcW as real);
    TimesQuotient(fbH as real, srcH as real);
    MulOrder(srcW as real, sy, sx);
    MulOrder(srcH as real, sx, sy);
  }

  /** A scaled length, rounded down. */
  function Scaled(n: nat, s: real): (m: nat)
    requires s >= 0.0
    ensures m as real <= n as real * s < m as real + 1.0
  {
    (n as real * s).Floor
  }

  /** Where pixel k of the scaled image samples the source; at scale zero there are no pixels. */
  function Position(k: nat, s: real): real {
    if s > 0.0 then k as real / s else 0.0
  }

  /** Every pixel of the scaled image is sampled inside the source. */
  lemma SampleInside(k: nat, n: nat, s: real)
    requires s >= 0.0 && k < Scaled(n, s)
    ensures s > 0.0 && 0.0 <= Position(k, s) < n as real
  {
    assert s == 0.0 ==> n as real * s == 0.0;
    var q := k as real / s;
    TimesQuotient(k as real, s);
    MulOrder(s, n as real, q);
    MulOrder(s, 0.0, q);
  }

  function Positions(n: nat, s: real): (xs: seq<real>)
    requires s >= 0.0
    ensures |xs| == Scaled(n, s)
    ensures forall k :: 0 <= k < |xs| ==> xs[k] == Position(k, s) && 0.0 <= xs[k] < n as real
  {
    var xs := seq(Scaled(n, s), k requires 0 <= k => Position(k, s));
    assert forall k :: 0 <= k < |xs| ==> 0.0 <= xs[k] < n as real by {
      forall k | 0 <= k < |xs| {
        SampleInside(k, n, s);
      }
    }
    xs
  }

  /** The scaled image in the framebuffer: its offset, and the source position of every column and row. */
  datatype Placement = Placement(scale: real, x: nat, y: nat, xs: seq<real>, ys: seq<real>) {
    function Width(): nat {
      |xs|
    }

    function Height(): nat {
      |ys|
    }

    predicate Covers(dx: nat, dy: nat) {
      x <= dx < x + |xs| && y <= dy < y + |ys|
    }

    ghost predicate Samples(srcW: nat, srcH: nat) {
      && (forall i :: 0 <= i < |xs| ==> xs[i] == Position(i, scale) && 0.0 <= xs[i] < srcW as real)
      && (forall j :: 0 <= j < |ys| ==> ys[j] == Position(j, scale) && 0.0 <= ys[j] < srcH as real)
    }
  }

  /** How much of the free space comes first: none, all, or half of it, give or take a pixel. */
  function Offset(free: nat, align: Align): (x: nat)
    ensures x <= free
    ensures align.Start? ==> x == 0
    ensures align.End? ==> x == free
    ensures align.Center? ==> 0 <= (free - x) - x <= 1
  {
    match align
    case Start => 0
    case Center => free / 2
    case End => free
  }

  lemma ScaledFit(fbW: nat, fbH: nat, srcW: nat, srcH: nat)
    requires srcW > 0 && srcH > 0
    ensures var s := Scale(fbW, fbH, srcW, srcH);
      && Scaled(srcW, s) <= fbW && Scaled(srcH, s) <= fbH
      && (Scaled(srcW, s) == fbW || Scaled(srcH, s) == fbH)
  {
    ScaleFits(fbW, fbH, srcW, srcH);
    var s := Scale(fbW, fbH, srcW, srcH);
    var a, b := srcW as real * s, srcH as real * s;
    assert Scaled(srcW, s) == a.Floor && Scaled(srcH, s) == b.Floor;
  }

  /** The free space before and after the image. */
  predicate Aligned(align: Align, before: int, after: int) {
    match align
    case Start => before == 0
    case Center => 0 <= after - before <= 1
    case End => after == 0
  }

  function PlaceScaled(s: real, fbW: nat, fbH: nat, srcW: nat, srcH: nat, hAlign: Align, vAlign: Align): (p: Placement)
    requires s >= 0.0 && Scaled(srcW, s) <= fbW && Scaled(srcH, s) <= fbH
    ensures p.x + p.Width() <= fbW && p.y + p.Height() <= fbH
    ensures p.Width() == Scaled(srcW, s) && p.Height() == Scaled(srcH, s) && p.scale == s
    ensures p.Samples(srcW, srcH)
    ensures Aligned(hAlign, p.x, fbW - p.x - p.Width()) && Aligned(vAlign, p.y, fbH - p.y - p.Height())
  {
    var xs, ys := Positions(srcW, s), Positions(srcH, s);
    Placement(s, Offset(fbW - |xs|, hAlign), Offset(fbH - |ys|, vAlign), xs, ys)
  }

  /** The scaled image lies inside the framebuffer and reaches from edge to edge in one direction. */
  function Place(fbW: nat, fbH: nat, srcW: nat, srcH: nat, hAlign: Align, vAlign: Align): (p: Placement)
    requires srcW > 0 && srcH > 0
    ensures p.x + p.Width() <= fbW && p.y + p.Height() <= fbH
    ensures p.Width() == fbW || p.Height() == fbH
    ensures p.Samples(srcW, srcH) && p.scale == Scale(fbW, fbH, srcW, srcH)
    ensures p.Width() == Scaled(srcW, p.scale) && p.Height() == Scaled(srcH, p.scale)
    ensures hAlign.Start? ==> p.x == 0
    ensures hAlign.End? ==> p.x + p.Width() == fbW
    ensures hAlign.Center? ==> 0 <= (fbW - p.x - p.Width()) - p.x <= 1
    ensures vAlign.Start? ==> p.y == 0
    ensures vAlign.End? ==> p.y + p.Height() == fbH
    ensures vAlign.Center? ==> 0 <= (fbH - p.y - p.Height()) - p.y <= 1
  {
    ScaledFit(fbW, fbH, srcW, srcH);
    PlaceScaled(Scale(fbW, fbH, srcW, srcH), fbW, fbH, srcW, srcH, hAlign, vAlign)
  }

  lemma CrossMultiplied(a: nat, b: nat, m: nat, n: nat, x: real, y: real)
    requires m > 0 && n > 0 && m as real * x == a as real && n as real * y == b as real
    ensures x <= y <==> a * n <= b * m
  {
    var k := m as real * n as real;
    assert k > 0.0;
    MulOrder(k, x, y);
    assert k * x == a as real * n as real == (a * n) as real;
    assert k * y == b as real * m as real == (b * m) as real;
  }

  /** The scale in whole numbers: the direction that is short of space decides. */
  lemma ScaleIs(fbW: nat, fbH: nat, srcW: nat, srcH: nat)
    requires srcW > 0 && srcH > 0
    ensures var s := Scale(fbW, fbH, srcW, srcH);
      if fbW * srcH <= fbH * srcW then srcW as real * s == fbW as real else srcH as real * s == fbH as real
  {
    var sx, sy := fbW as real / srcW as real, fbH as real / srcH as real;
    TimesQuotient(fbW as real, srcW as real);
    TimesQuotient(fbH as real, srcH as real);
    CrossMultiplied(fbW, fbH, srcW, srcH, sx, sy);
  }

  lemma ScaledTimes(n: nat, s: real, a: nat, b: nat)
    requires s >= 0.0 && b > 0 && b as real * s == a as real
    ensures Scaled(n, s) * b <= n * a < (Scaled(n, s) + 1) * b
  {
    var m, v := Scaled(n, s), n as real * s;
    MulOrder(b as real, m as real, v);
    MulOrder(b as real, (m + 1) as real, v);
    assert b as real * v == n as real * (b as real * s) == (n * a) as real;
    assert b as real * m as real == (m * b) as real && b as real * (m + 1) as real == ((m + 1) * b) as real;
  }

  lemma ScaledFull(n: nat, s: real, m: nat)
    requires s >= 0.0 && n as real * s == m as real
    ensures Scaled(n, s) == m
  {
  }

  /** The sizes a scale leads to, where the first direction is the one that is filled. */
  lemma FillsAndKeeps(s: real, fb: nat, filled: nat, other: nat)
    requires s >= 0.0 && filled > 0 && filled as real * s == fb as real
    ensures Scaled(filled, s) == fb
    ensures Scaled(other, s) * filled <= other * fb < (Scaled(other, s) + 1) * filled
  {
    ScaledFull(filled, s, fb);
    ScaledTimes(other, s, fb, filled);
  }

  /** Both extents from the sizes: one direction is filled, the other keeps the aspect ratio, rounded down. */
  lemma PlaceKeepsAspect(fbW: nat, fbH: nat, srcW: nat, srcH: nat, hAlign: Align, vAlign: Align)
    requires srcW > 0 && srcH > 0
    ensures var p := Place(fbW, fbH, srcW, srcH, hAlign, vAlign);
      if fbW * srcH <= fbH * srcW
      then p.Width() == fbW && p.Height() * srcW <= srcH * fbW < (p.Height() + 1) * srcW
      else p.Height() == fbH && p.Width() * srcH <= srcW * fbH < (p.Width() + 1) * srcH
  {
    var p := Place(fbW, fbH, srcW, srcH, hAlign, vAlign);
    ScaleIs(fbW, fbH, srcW, srcH);
    if fbW * srcH <= fbH * srcW {
      FillsAndKeeps(p.scale, fbW, srcW, srcH);
    } else {
      FillsAndKeeps(p.scale, fbH, srcH, srcW);
    }
  }

  // ---- The frame ----

  function SampleAt(img: Image, interp: Interpolation, fx: real, fy: real, rot: Rotation): Rgb
    requires 0.0 <= fx < SrcW(img, rot) as real && 0.0 <= fy < SrcH(img, rot) as real
  {
    if interp.Bilinear? then SampleBilinear(img, fx, fy, rot) else SampleNearest(img, fx, fy, rot)
  }

  /** The word of framebuffer pixel (dx, dy): black off the scaled image. */
  function Drawn(img: Image, cfg: Config, p: Placement, dx: nat, dy: nat): Xrgb
    requires p.Samples(SrcW(img, cfg.rot), SrcH(img, cfg.rot))
  {
    if p.Covers(dx, dy) then SampleAt(img, cfg.interp, p.xs[dx - p.x], p.ys[dy - p.y], cfg.rot).Word() else BLACK
  }

  function Rendered(img: Image, cfg: Config, fbW: nat, fbH: nat, dx: nat, dy: nat): Xrgb {
    Drawn(img, cfg, Place(fbW, fbH, SrcW(img, cfg.rot), SrcH(img, cfg.rot), cfg.hAlign, cfg.vAlign), dx, dy)
  }

  method Clear(dst: array2<Xrgb>, fbW: nat, fbH: nat)
    requires fbH <= dst.Length0 && fbW <= dst.Length1
    modifies dst
    ensures forall y, x :: 0 <= y < dst.Length0 && 0 <= x < dst.Length1 ==>
      dst[y, x] == if y < fbH && x < fbW then BLACK else old(dst[y, x])
  {
    for j := 0 to fbH
      invariant forall y, x :: 0 <= y < dst.Length0 && 0 <= x < dst.Length1 ==>
        dst[y, x] == if y < j && x < fbW then BLACK else old(dst[y, x])
    {
      for i := 0 to fbW
        invariant forall y, x :: 0 <= y < dst.Length0 && 0 <= x < dst.Length1 ==>
          dst[y, x] == if (y < j && x < fbW) || (y == j && x < i) then BLACK else old(dst[y, x])
      {
        dst[j, i] := BLACK;
      }
    }
  }

  method SamplePixel(img: Image, cfg: Config, p: Placement, x: nat, y: nat, fy: real) returns (c: Xrgb)
    requires x < p.Width() && y < p.Height() && p.Samples(SrcW(img, cfg.rot), SrcH(img, cfg.rot)) && fy == p.ys[y]
    ensures c == Drawn(img, cfg, p, x + p.x, y + p.y)
  {
    var fx := Position(x, p.scale);
    assert fx == p.xs[x];
    c := SampleAt(img, cfg.interp, fx, fy, cfg.rot).Word();
  }

  /** One pass of the outer loop: row y of the scaled image. */
  method RenderRow(dst: array2<Xrgb>, img: Image, cfg: Config, p: Placement, y: nat)
    requires y < p.Height() && p.Samples(SrcW(img, cfg.rot), SrcH(img, cfg.rot))
    requires p.y + p.Height() <= dst.Length0 && p.x + p.Width() <= dst.Length1
    modifies dst
    ensures forall j, i :: 0 <= j < dst.Length0 && 0 <= i < dst.Length1 ==>
      dst[j, i] == if j == p.y + y && p.x <= i < p.x + p.Width() then Drawn(img, cfg, p, i, j) else old(dst[j, i])
  {
    var fy := Position(y, p.scale);
    assert fy == p.ys[y];
    for x := 0 to p.Width()
      invariant forall j, i :: 0 <= j < dst.Length0 && 0 <= i < dst.Length1 ==>
        dst[j, i] == if j == p.y + y && p.x <= i < p.x + x then Drawn(img, cfg, p, i, j) else old(dst[j, i])
    {
      var c := SamplePixel(img, cfg, p, x, y, fy);
      dst[y + p.y, x + p.x] := c;
    }
  }

  method RenderPlaced(dst: array2<Xrgb>, fbW: nat, fbH: nat, img: Image, cfg: Config, p: Placement)
    requires fbH <= dst.Length0 && fbW <= dst.Length1
    requires p.x + p.Width() <= fbW && p.y + p.Height() <= fbH && p.Samples(SrcW(img, cfg.rot), SrcH(img, cfg.rot))
    modifies dst
    ensures forall y, x :: 0 <= y < dst.Length0 && 0 <= x < dst.Length1 ==>
      dst[y, x] == if y < fbH && x < fbW then Drawn(img, cfg, p, x, y) else old(dst[y, x])
  {
    Clear(dst, fbW, fbH);
    for y := 0 to p.Height()
      invariant forall j, i :: 0 <= j < dst.Length0 && 0 <= i < dst.Length1 ==>
        dst[j, i] == if j < fbH && i < fbW
                     then if p.Covers(i, j) && j < p.y + y then Drawn(img, cfg, p, i, j) else BLACK
                     else old(dst[j, i])
    {
      RenderRow(dst, img, cfg, p, y);
    }
  }

  /** Black everywhere but on the scaled image; what lies between the width and the stride is untouched. */
  method Render(dst: array2<Xrgb>, fbW: nat, fbH: nat, img: Image, cfg: Config)
    requires fbH <= dst.Length0 && fbW <= dst.Length1
    modifies dst
    ensures forall y, x :: 0 <= y < dst.Length0 && 0 <= x < dst.Length1 ==>
      dst[y, x] == if y < fbH && x < fbW then Rendered(img, cfg, fbW, fbH, x, y) else old(dst[y, x])
  {
    var p := Place(fbW, fbH, SrcW(img, cfg.rot), SrcH(img, cfg.rot), cfg.hAlign, cfg.vAlign);
    RenderPlaced(dst, fbW, fbH, img, cfg, p);
  }

  // ---- Rotation ----

  function TurnedRow(img: Image, y: nat): (row: seq<Rgb>)
    requires y < img.w
    ensures |row| == img.h
  {
    seq(img.h, x requires 0 <= x < img.h => img.At(y, img.h - 1 - x))
  }

  /** The image turned a quarter clockwise: its left column, read upwards, becomes the top row. */
  function Turn(img: Image): (t: Image)
    ensures t.w == img.h && t.h == img.w
    ensures forall x, y :: 0 <= x < t.w && 0 <= y < t.h ==> t.At(x, y) == img.At(y, img.h - 1 - x)
  {
    var rows := seq(img.w, y requires 0 <= y < img.w => TurnedRow(img, y));
    assert forall y :: 0 <= y < img.w ==> |rows[y]| == img.h;
    Picture(img.h, img.w, rows)
  }

  function Turned(img: Image, rot: Rotation): (t: Image)
    ensures t.w == SrcW(img, rot) && t.h == SrcH(img, rot)
  {
    match rot
    case Rot0 => img
    case Rot90 => Turn(img)
    case Rot180 => Turn(Turn(img))
    case Rot270 => Turn(Turn(Turn(img)))
  }

  /** t is the image as the rotation shows it. */
  ghost predicate Shows(t: Image, img: Image, rot: Rotation) {
    && t.w == SrcW(img, rot) && t.h == SrcH(img, rot)
    && forall x, y :: 0 <= x < t.w && 0 <= y < t.h ==> t.At(x, y) == PixelAt(img, x, y, rot)
  }

  function Quarter(rot: Rotation): Rotation {
    match rot
    case Rot0 => Rot90
    case Rot90 => Rot180
    case Rot180 => Rot270
    case Rot270 => Rot0
  }

  /** One turn more is one rotation more, and four are none. */
  lemma TurnShows(t: Image, img: Image, rot: Rotation)
    requires Shows(t, img, rot)
    ensures Shows(Turn(t), img, Quarter(rot))
  {
    forall x, y | 0 <= x < t.h && 0 <= y < t.w ensures Turn(t).At(x, y) == PixelAt(img, x, y, Quarter(rot)) {
      assert t.At(y, t.h - 1 - x) == PixelAt(img, y, t.h - 1 - x, rot);
    }
  }

  lemma TurnedShows(img: Image, rot: Rotation)
    ensures Shows(Turned(img, rot), img, rot)
  {
    var one := Turn(img);
    TurnShows(img, img, Rot0);
    TurnShows(one, img, Rot90);
    TurnShows(Turn(one), img, Rot180);
  }

  lemma NearestOfTurned(t: Image, img: Image, fx: real, fy: real, rot: Rotation)
    requires fx >= 0.0 && fy >= 0.0 && Shows(t, img, rot)
    ensures SampleNearest(img, fx, fy, rot) == SampleNearest(t, fx, fy, Rot0)
  {
  }

  lemma CornersOfTurned(t: Image, img: Image, fx: real, fy: real, rot: Rotation)
    requires 0.0 <= fx < SrcW(img, rot) as real && 0.0 <= fy < SrcH(img, rot) as real && Shows(t, img, rot)
    ensures CornersAt(img, fx, fy, rot) == CornersAt(t, fx, fy, Rot0)
  {
  }

  lemma DrawnOfTurned(t: Image, img: Image, cfg: Config, p: Placement, dx: nat, dy: nat)
    requires p.Samples(SrcW(img, cfg.rot), SrcH(img, cfg.rot)) && Shows(t, img, cfg.rot)
    ensures Drawn(img, cfg, p, dx, dy) == Drawn(t, cfg.(rot := Rot0), p, dx, dy)
  {
    if p.Covers(dx, dy) {
      var fx, fy := p.xs[dx - p.x], p.ys[dy - p.y];
      NearestOfTurned(t, img, fx, fy, cfg.rot);
      CornersOfTurned(t, img, fx, fy, cfg.rot);
    }
  }

  /** Rendering with a rotation is rendering the turned image without one: same scale, place and pixels. */
  lemma RotationMeansTurning(img: Image, cfg: Config, fbW: nat, fbH: nat, dx: nat, dy: nat)
    ensures Rendered(img, cfg, fbW, fbH, dx, dy)
         == Rendered(Turned(img, cfg.rot), cfg.(rot := Rot0), fbW, fbH, dx, dy)
  {
    var p := Place(fbW, fbH, SrcW(img, cfg.rot), SrcH(img, cfg.rot), cfg.hAlign, cfg.vAlign);
    TurnedShows(img, cfg.rot);
    DrawnOfTurned(Turned(img, cfg.rot), img, cfg, p, dx, dy);
  }

  // ---- What is sampled ----

  lemma CellBounds(s: real, q: real, c: real, k: real)
    requires s > 0.0 && s * q == k && c <= q < c + 1.0
    ensures s * c <= k < s * (c + 1.0)
    ensures k >= 0.0 ==> q >= 0.0
  {
    MulOrder(s, c, q);
    MulOrder(s, c + 1.0, q);
    MulOrder(s, 0.0, q);
  }

  /** Source pixel c covers [s*c, s*(c+1)) in the scaled image. */
  ghost predicate CellHolds(s: real, c: int, k: nat) {
    s * c as real <= k as real < s * (c as real + 1.0)
  }

  lemma CellOf(k: nat, s: real)
    requires s > 0.0
    ensures Position(k, s) >= 0.0
    ensures CellHolds(s, Position(k, s).Floor, k)
  {
    var q := Position(k, s);
    TimesQuotient(k as real, s);
    CellBounds(s, q, q.Floor as real, k as real);
  }

  lemma NearestNeedsNoClamp(img: Image, fx: real, fy: real, rot: Rotation)
    requires 0.0 <= fx < SrcW(img, rot) as real && 0.0 <= fy < SrcH(img, rot) as real
    ensures SampleAt(img, Nearest, fx, fy, rot) == PixelAt(img, fx.Floor, fy.Floor, rot)
  {
  }

  /** Nearest takes the source pixel whose scaled cell holds the destination pixel: the clamp never acts. */
  lemma NearestTakesTheCell(img: Image, p: Placement, x: nat, y: nat, rot: Rotation) returns (sx: int, sy: int)
    requires x < p.Width() && y < p.Height() && p.Samples(SrcW(img, rot), SrcH(img, rot)) && p.scale > 0.0
    ensures 0 <= sx < SrcW(img, rot) && 0 <= sy < SrcH(img, rot)
    ensures CellHolds(p.scale, sx, x) && CellHolds(p.scale, sy, y)
    ensures SampleAt(img, Nearest, p.xs[x], p.ys[y], rot) == PixelAt(img, sx, sy, rot)
  {
    sx, sy := p.xs[x].Floor, p.ys[y].Floor;
    NearestNeedsNoClamp(img, p.xs[x], p.ys[y], rot);
    CellOf(x, p.scale);
    CellOf(y, p.scale);
  }

  predicate RgbOnTheWay(a: Rgb, b: Rgb, t: real, c: Rgb) {
    OnTheWay(a.r, b.r, t, c.r) && OnTheWay(a.g, b.g, t, c.g) && OnTheWay(a.b, b.b, t, c.b)
  }

  lemma LerpOfEquals(a: Rgb, t: real)
    requires 0.0 <= t < 1.0
    ensures LerpRgb(a, a, t) == a
  {
  }

  /** Where the picture does not change from row to row only the horizontal distance counts, and the other way round. */
  lemma BlendAlongOneAxis(c: Corners)
    requires c.Valid()
    ensures c.c00 == c.c01 && c.c10 == c.c11 ==> c.Blend() == LerpRgb(c.c00, c.c10, c.tx)
    ensures c.c00 == c.c10 && c.c01 == c.c11 ==> c.Blend() == LerpRgb(c.c00, c.c01, c.ty)
  {
    LerpOfEquals(LerpRgb(c.c00, c.c10, c.tx), c.ty);
    LerpOfEquals(c.c00, c.tx);
    LerpOfEquals(c.c01, c.tx);
  }

  /**
   A cell in whole numbers, where src pixels of the image are shown as fb of the framebuffer (ScaleIs says which):
   pixel k shows source pixel k * src / fb, rounded down.
   */
  lemma CellInWholes(s: real, c: int, k: nat, fb: nat, src: nat)
    requires src > 0 && s > 0.0 && src as real * s == fb as real && CellHolds(s, c, k)
    ensures fb * c <= k * src < fb * (c + 1)
  {
    var r := src as real;
    MulOrder(r, s * c as real, k as real);
    MulOrder(r, s * (c as real + 1.0), k as real);
    assert r * (s * c as real) == (r * s) * c as real == (fb * c) as real;
    assert r * (s * (c as real + 1.0)) == (r * s) * (c as real + 1.0) == (fb * (c + 1)) as real;
    assert r * k as real == (k * src) as real;
  }

  lemma LerpOnTheWay(a: Rgb, b: Rgb, t: real)
    requires 0.0 <= t < 1.0
    ensures RgbOnTheWay(a, b, t, LerpRgb(a, b, t))
  {
  }

  /**
   Bilinear, where both rows of pixels around the position are alike: every channel lies as far between the pixel
   to the left and the one to the right as the position does.
   */
  lemma BilinearAcross(img: Image, x: nat, y: nat, t: real, fy: real, rot: Rotation)
    requires x + 1 < SrcW(img, rot) && 0.0 <= t < 1.0 && y as real <= fy < y as real + 1.0 && y < SrcH(img, rot)
    requires y + 1 < SrcH(img, rot) ==>
      PixelAt(img, x, y + 1, rot) == PixelAt(img, x, y, rot) && PixelAt(img, x + 1, y + 1, rot) == PixelAt(img, x + 1, y, rot)
    ensures RgbOnTheWay(PixelAt(img, x, y, rot), PixelAt(img, x + 1, y, rot), t,
                        SampleAt(img, Bilinear, x as real + t, fy, rot))
  {
    var c := CornersAt(img, x as real + t, fy, rot);
    assert (x as real + t).Floor == x && fy.Floor == y;
    assert c.c00 == c.c01 == PixelAt(img, x, y, rot) && c.c10 == c.c11 == PixelAt(img, x + 1, y, rot) && c.tx == t;
    BlendAlongOneAxis(c);
    LerpOnTheWay(c.c00, c.c10, t);
  }

  /** The same from row to row. */
  lemma BilinearDown(img: Image, x: nat, y: nat, fx: real, t: real, rot: Rotation)
    requires y + 1 < SrcH(img, rot) && 0.0 <= t < 1.0 && x as real <= fx < x as real + 1.0 && x < SrcW(img, rot)
    requires x + 1 < SrcW(img, rot) ==>
      PixelAt(img, x + 1, y, rot) == PixelAt(img, x, y, rot) && PixelAt(img, x + 1, y + 1, rot) == PixelAt(img, x, y + 1, rot)
    ensures RgbOnTheWay(PixelAt(img, x, y, rot), PixelAt(img, x, y + 1, rot), t,
                        SampleAt(img, Bilinear, fx, y as real + t, rot))
  {
    var c := CornersAt(img, fx, y as real + t, rot);
    assert fx.Floor == x && (y as real + t).Floor == y;
    assert c.c00 == c.c10 == PixelAt(img, x, y, rot) && c.c01 == c.c11 == PixelAt(img, x, y + 1, rot) && c.ty == t;
    BlendAlongOneAxis(c);
    LerpOnTheWay(c.c00, c.c01, t);
  }

  ghost predicate Within(c: Rgb, lo: Rgb, hi: Rgb) {
    lo.r <= c.r <= hi.r && lo.g <= c.g <= hi.g && lo.b <= c.b <= hi.b
  }

  ghost predicate AllWithin(img: Image, lo: Rgb, hi: Rgb) {
    forall x, y :: 0 <= x < img.w && 0 <= y < img.h ==> Within(img.At(x, y), lo, hi)
  }

  ghost predicate HullWithin(c: Corners, lo: Rgb, hi: Rgb) {
    Within(c.c00, lo, hi) && Within(c.c10, lo, hi) && Within(c.c01, lo, hi) && Within(c.c11, lo, hi)
  }

  lemma CornersWithin(img: Image, fx: real, fy: real, rot: Rotation, lo: Rgb, hi: Rgb)
    requires 0.0 <= fx < SrcW(img, rot) as real && 0.0 <= fy < SrcH(img, rot) as real && AllWithin(img, lo, hi)
    ensures HullWithin(CornersAt(img, fx, fy, rot), lo, hi)
  {
  }

  lemma NearestWithin(img: Image, fx: real, fy: real, rot: Rotation, lo: Rgb, hi: Rgb)
    requires 0.0 <= fx < SrcW(img, rot) as real && 0.0 <= fy < SrcH(img, rot) as real && AllWithin(img, lo, hi)
    ensures Within(SampleNearest(img, fx, fy, rot), lo, hi)
  {
  }

  lemma LerpWithin(a: Rgb, b: Rgb, t: real, lo: Rgb, hi: Rgb)
    requires 0.0 <= t < 1.0 && Within(a, lo, hi) && Within(b, lo, hi)
    ensures Within(LerpRgb(a, b, t), lo, hi)
  {
  }

  lemma BlendWithin(c: Corners, lo: Rgb, hi: Rgb)
    requires c.Valid() && HullWithin(c, lo, hi)
    ensures Within(c.Blend(), lo, hi)
  {
    LerpWithin(c.c00, c.c10, c.tx, lo, hi);
    LerpWithin(c.c01, c.c11, c.tx, lo, hi);
    LerpWithin(LerpRgb(c.c00, c.c10, c.tx), LerpRgb(c.c01, c.c11, c.tx), c.ty, lo, hi);
  }

  /** No sample, blended or not, leaves the range of the image's own colours. */
  lemma SamplesStayWithin(img: Image, interp: Interpolation, fx: real, fy: real, rot: Rotation, lo: Rgb, hi: Rgb)
    requires 0.0 <= fx < SrcW(img, rot) as real && 0.0 <= fy < SrcH(img, rot) as real
    requires AllWithin(img, lo, hi)
    ensures Within(SampleAt(img, interp, fx, fy, rot), lo, hi)
  {
    CornersWithin(img, fx, fy, rot, lo, hi);
    BlendWithin(CornersAt(img, fx, fy, rot), lo, hi);
    NearestWithin(img, fx, fy, rot, lo, hi);
  }

  /**
   What a framebuffer pixel holds, told by the placement: the sampled colour as 0x00RRGGBB from the image's first
   column to its last and its first row to its last, and zero everywhere else.
   */
  lemma DrawnExactly(img: Image, cfg: Config, p: Placement, dx: nat, dy: nat)
    requires p.Samples(SrcW(img, cfg.rot), SrcH(img, cfg.rot))
    ensures Drawn(img, cfg, p, dx, dy) ==
      if dx < p.x || dy < p.y || dx >= p.x + p.Width() || dy >= p.y + p.Height() then Xrgb(0, 0, 0, 0)
      else var c := SampleAt(img, cfg.interp, p.xs[dx - p.x], p.ys[dy - p.y], cfg.rot); Xrgb(0, c.r, c.g, c.b)
  {
  }

  lemma SampleAtPixel(img: Image, interp: Interpolation, x: nat, y: nat, rot: Rotation)
    requires x < SrcW(img, rot) && y < SrcH(img, rot)
    ensures SampleAt(img, interp, x as real, y as real, rot) == PixelAt(img, x, y, rot)
  {
  }

  lemma OverItself(a: real)
    requires a > 0.0
    ensures a / a == 1.0
  {
    var q := a / a;
    TimesQuotient(a, a);
    assert a * q == a && a * 1.0 == a;
    MulOrder(a, q, 1.0);
    MulOrder(a, 1.0, q);
  }

  lemma UnitPlace(w: nat, h: nat, hAlign: Align, vAlign: Align)
    requires w > 0 && h > 0
    ensures var p := Place(w, h, w, h, hAlign, vAlign);
      && p.x == 0 && p.y == 0 && p.Width() == w && p.Height() == h
      && (forall i :: 0 <= i < w ==> p.xs[i] == i as real) && (forall j :: 0 <= j < h ==> p.ys[j] == j as real)
  {
    OverItself(w as real);
    OverItself(h as real);
    assert Scale(w, h, w, h) == 1.0;
  }

  /** An image already of the framebuffer's (rotated) size is copied pixel by pixel, with either interpolation. */
  lemma SameSizeCopies(img: Image, cfg: Config, dx: nat, dy: nat)
    requires dx < SrcW(img, cfg.rot) && dy < SrcH(img, cfg.rot)
    ensures Rendered(img, cfg, SrcW(img, cfg.rot), SrcH(img, cfg.rot), dx, dy) == PixelAt(img, dx, dy, cfg.rot).Word()
  {
    UnitPlace(SrcW(img, cfg.rot), SrcH(img, cfg.rot), cfg.hAlign, cfg.vAlign);
    SampleAtPixel(img, cfg.interp, dx, dy, cfg.rot);
  }
}
