/**
 The overlay of overlay.c: an SVG layer under an announcement, each rasterised once into a cache in upright
 orientation, dropped at its deadline, and blended over the framebuffer through the display's rotation.
 Rasterising is a function of source and size; allocation succeeds; the clock is an argument.
 */
module Overlay {
  import opened Wrappers
  import opened Modular
  import opened ImgRender

  datatype Rgba = Rgba(r: byte, g: byte, b: byte, a: byte)

  /** Cairo's pixel: colours already multiplied by alpha. */
  datatype Premultiplied = Premultiplied(r: byte, g: byte, b: byte, a: byte) {
    ghost predicate Valid() {
      r <= a && g <= a && b <= a
    }

    /** Every colour is divided by alpha, where that makes a difference. */
    function Straight(): (p: Rgba)
      requires Valid()
      ensures p.a == a
      ensures 0 < a < 255 ==> p.r * a <= r * 255 < (p.r + 1) * a
      ensures 0 < a < 255 ==> p.g * a <= g * 255 < (p.g + 1) * a
      ensures 0 < a < 255 ==> p.b * a <= b * 255 < (p.b + 1) * a
      ensures a == 0 || a == 255 ==> (p.r, p.g, p.b) == (r, g, b)
    {
      if a == 0 || a == 255 then Rgba(r, g, b, a) else Rgba(Divided(r, a), Divided(g, a), Divided(b, a), a)
    }
  }

  lemma DivBelow(n: nat, d: nat, q: nat)
    requires d > 0 && n < d * q
    ensures n / d < q
  {
    var e := n / d - q + 1;
    assert n == (n / d) * d + n % d;
    MultiplesAreFar(e, d);
    assert e * d == (n / d) * d - q * d + d;
  }

  /** Undoes the multiplication by alpha: no clamp is needed, and the colour is the largest that fits under c. */
  function Divided(c: byte, a: byte): (r: byte)
    requires 0 < a < 255 && c <= a
    ensures r * a <= c * 255 < (r + 1) * a
  {
    assert c * 255 / a <= 255 by {
      assert c * 255 <= a * 255;
      DivBelow(c * 255, a, 256);
    }
    c * 255 / a
  }

  type CairoPixel = p: Premultiplied | p.Valid() witness Premultiplied(0, 0, 0, 0)

  datatype Source = Svg(doc: string) | Text(text: string)

  /** What nanosvg and cairo draw at (x, y) of a canvas of the given width and height. */
  datatype Painter = Painter(svg: (string, nat, nat, nat, nat) -> Rgba, text: (string, nat, nat, nat, nat) -> CairoPixel) {
    function Pixel(src: Source, w: nat, h: nat, x: nat, y: nat): (p: Rgba)
      ensures src.Svg? ==> p == svg(src.doc, w, h, x, y)
      ensures src.Text? ==> p == text(src.text, w, h, x, y).Straight()
    {
      match src
      case Svg(doc) => svg(doc, w, h, x, y)
      case Text(t) => text(t, w, h, x, y).Straight()
    }
  }

  // ---- Blending ----

  lemma WeightsOrdered(c: int, f: int, a: byte)
    ensures c <= f ==> c * a <= f * a
    ensures f <= c ==> f * a <= c * a
  {
    assert c <= f ==> (f - c) * a >= 0;
    assert f <= c ==> (c - f) * a >= 0;
  }

  lemma MixedBounds(c: byte, f: byte, a: byte)
    ensures var lo, hi := if c < f then c else f, if c < f then f else c;
            lo * 255 <= c * a + f * (255 - a) <= hi * 255
  {
    WeightsOrdered(c, f, a);
    WeightsOrdered(c, f, 255 - a);
  }

  /** The average of overlay and frame, weighted by alpha and its complement, rounded down. */
  function Mixed(c: byte, f: byte, a: byte): (m: byte)
    ensures (if c < f then c else f) <= m <= (if c < f then f else c)
    ensures a == 0 ==> m == f
    ensures a == 255 ==> m == c
    ensures m * 255 <= c * a + f * (255 - a) < (m + 1) * 255
  {
    MixedBounds(c, f, a);
    (c * a + f * (255 - a)) / 255
  }

  /** An overlay pixel over a framebuffer pixel. */
  function Over(o: Rgba, f: Xrgb): Xrgb {
    if o.a == 0 then f
    else if o.a == 255 then Xrgb(255, o.r, o.g, o.b)
    else Xrgb(255, Mixed(o.r, f.r, o.a), Mixed(o.g, f.g, o.a), Mixed(o.b, f.b, o.a))
  }

  predicate Between(m: byte, c: byte, f: byte) {
    (c <= m <= f) || (f <= m <= c)
  }

  predicate WeightedBy(a: byte, c: byte, f: byte, m: byte) {
    m * 255 <= c * a + f * (255 - a) < (m + 1) * 255
  }

  /** Every channel ends up between overlay and frame, at the part of the way alpha says; a clear pixel changes nothing, an opaque one hides the frame. */
  lemma OverLiesBetween(o: Rgba, f: Xrgb)
    ensures var p := Over(o, f);
      && Between(p.r, o.r, f.r) && Between(p.g, o.g, f.g) && Between(p.b, o.b, f.b)
      && (o.a == 0 ==> p == f)
      && (o.a == 255 ==> (p.r, p.g, p.b) == (o.r, o.g, o.b))
      && (o.a != 0 ==> p.x == 255)
      && WeightedBy(o.a, o.r, f.r, p.r) && WeightedBy(o.a, o.g, f.g, p.g) && WeightedBy(o.a, o.b, f.b, p.b)
  {
  }

  // ---- The map from framebuffer to canvas ----

  /** The canvas the viewer sees upright. */
  function LogicalDims(w: nat, h: nat, rot: Rotation): (nat, nat) {
    if rot.Swaps() then (h, w) else (w, h)
  }

  function LogicalOf(dx: nat, dy: nat, lw: nat, lh: nat, rot: Rotation): (int, int) {
    match rot
    case Rot90 => (dy, lh - 1 - dx)
    case Rot180 => (lw - 1 - dx, lh - 1 - dy)
    case Rot270 => (lw - 1 - dy, dx)
    case Rot0 => (dx, dy)
  }

  /** The other way: where the framebuffer shows a canvas pixel. */
  function FrameOf(lx: nat, ly: nat, lw: nat, lh: nat, rot: Rotation): (int, int) {
    match rot
    case Rot90 => (lh - 1 - ly, lx)
    case Rot180 => (lw - 1 - lx, lh - 1 - ly)
    case Rot270 => (ly, lw - 1 - lx)
    case Rot0 => (lx, ly)
  }

  /** The map is a bijection onto the canvas: the bounds check in the loop never fires. */
  lemma CanvasBijection(w: nat, h: nat, rot: Rotation, dx: nat, dy: nat)
    requires dx < w && dy < h
    ensures var (lw, lh) := LogicalDims(w, h, rot);
            var (lx, ly) := LogicalOf(dx, dy, lw, lh, rot);
            0 <= lx < lw && 0 <= ly < lh && FrameOf(lx, ly, lw, lh, rot) == (dx, dy)
  {
  }

  lemma CanvasCovered(w: nat, h: nat, rot: Rotation, lx: nat, ly: nat)
    requires var (lw, lh) := LogicalDims(w, h, rot); lx < lw && ly < lh
    ensures var (lw, lh) := LogicalDims(w, h, rot);
            var (dx, dy) := FrameOf(lx, ly, lw, lh, rot);
            0 <= dx < w && 0 <= dy < h && LogicalOf(dx, dy, lw, lh, rot) == (lx, ly)
  {
  }

  /** Overlay and photo line up: an image of the canvas's size is shown where the overlay's pixels are. */
  lemma OverlayLinesUp(img: Image, cfg: Config, w: nat, h: nat, dx: nat, dy: nat)
    requires dx < w && dy < h && (img.w, img.h) == LogicalDims(w, h, cfg.rot)
    ensures var (lx, ly) := LogicalOf(dx, dy, img.w, img.h, cfg.rot);
            0 <= lx < img.w && 0 <= ly < img.h && Rendered(img, cfg, w, h, dx, dy) == img.At(lx, ly).Word()
  {
    SameSizeCopies(img, cfg, dx, dy);
  }

  /** What a framebuffer pixel becomes under a layer. */
  function Painted(p: Painter, src: Option<Source>, rot: Rotation, w: nat, h: nat, dx: nat, dy: nat, f: Xrgb): Xrgb
    requires dx < w && dy < h
  {
    if src.None? then f else
      var (lw, lh) := LogicalDims(w, h, rot);
      var (lx, ly) := LogicalOf(dx, dy, lw, lh, rot);
      Over(p.Pixel(src.value, lw, lh, lx, ly), f)
  }

  // ---- What the calls ask for ----

  /** An SVG argument: absent, not usable, or good. */
  datatype Parsed = Absent | Unusable | Parsed(doc: string)

  datatype Event =
    | SetSvg(svg: Parsed, timeout: nat, at: nat)
    | SetText(text: string, timeout: nat, at: nat)
    | Render(at: nat)

  const SECOND := 1_000_000_000

  /** The last time a layer was given a source, or cleared. */
  datatype Setting = Setting(src: Option<Source>, timeout: nat, at: nat) {
    /** What is to be drawn: the source, before its time is up. */
    function Due(now: nat): Option<Source> {
      if timeout == 0 || now < at + timeout * 1_000_000_000 then src else None
    }
  }

  function TextSource(text: string): Option<Source> {
    if text == "" then None else Some(Text(text))
  }

  function SvgSource(svg: Parsed): Option<Source>
    requires !svg.Unusable?
  {
    if svg.Absent? then None else Some(Svg(svg.doc))
  }

  /** What the last usable SVG call asked for: the document, or none. */
  function LastSvg(es: seq<Event>): Setting {
    if es == [] then Setting(None, 0, 0)
    else match es[|es| - 1]
      case SetSvg(Parsed(doc), timeout, at) => Setting(Some(Svg(doc)), timeout, at)
      case SetSvg(Absent, timeout, at) => Setting(None, timeout, at)
      case _ => LastSvg(es[..|es| - 1])
  }

  /** What the last text call asked for: the text, or none if it is empty. */
  function LastText(es: seq<Event>): Setting {
    if es == [] then Setting(None, 0, 0)
    else match es[|es| - 1]
      case SetText(text, timeout, at) => Setting(if text == "" then None else Some(Text(text)), timeout, at)
      case _ => LastText(es[..|es| - 1])
  }

  /**
   Renders read the clock one after the other, before they wait for the mutex: a set they then find done may carry
   a later time than theirs.
   */
  ghost predicate RendersOrdered(es: seq<Event>, now: nat) {
    && (forall i :: 0 <= i < |es| && es[i].Render? ==> es[i].at <= now)
    && (forall i, j :: 0 <= i < j < |es| && es[i].Render? && es[j].Render? ==> es[i].at <= es[j].at)
  }

  // ---- The layers ----

  /** A layer without its cache. */
  datatype Face = Face(src: Option<Source>, deadline: nat) {
    function ShownAt(now: nat): Option<Source> {
      if deadline != 0 && now >= deadline then None else src
    }

    function Expired(now: nat): Face {
      if src.Some? && deadline != 0 && now >= deadline then Face(None, 0) else this
    }

    /** The layer shows what is due, from now on. */
    ghost predicate Follows(s: Setting, now: nat) {
      forall t: nat :: t >= now ==> ShownAt(t) == s.Due(t)
    }
  }

  function Installed(src: Option<Source>, timeout: nat, now: nat): Face {
    Face(src, if src.Some? && timeout > 0 then now + timeout * SECOND else 0)
  }

  lemma InstalledFollows(src: Option<Source>, timeout: nat, at: nat, now: nat)
    ensures Installed(src, timeout, at).Follows(Setting(src, timeout, at), now)
  {
  }

  lemma ExpiredFollows(f: Face, s: Setting, before: nat, now: nat)
    requires f.Follows(s, before) && before <= now
    ensures f.Follows(s, now) && f.Expired(now).Follows(s, now)
    ensures f.Expired(now).src == s.Due(now)
  {
    assert f.ShownAt(now) == s.Due(now);
  }

  datatype Faces = Faces(svg: Face, text: Face)

  function Step(s: Faces, e: Event): Faces {
    match e
    case SetSvg(svg, timeout, at) =>
      if svg.Unusable? then s else s.(svg := Installed(SvgSource(svg), timeout, at))
    case SetText(text, timeout, at) => s.(text := Installed(TextSource(text), timeout, at))
    case Render(at) => Faces(s.svg.Expired(at), s.text.Expired(at))
  }

  function After(es: seq<Event>): Faces {
    if es == [] then Faces(Face(None, 0), Face(None, 0)) else Step(After(es[..|es| - 1]), es[|es| - 1])
  }

  /** After any run of calls, each layer shows what its last setting makes due: renders in between lose nothing. */
  lemma {:induction false} LayersFollowSettings(es: seq<Event>, now: nat)
    requires RendersOrdered(es, now)
    ensures After(es).svg.Follows(LastSvg(es), now)
    ensures After(es).text.Follows(LastText(es), now)
  {
    if es == [] {
    } else {
      var before, e := es[..|es| - 1], es[|es| - 1];
      var upTo := if e.Render? then e.at else now;
      assert RendersOrdered(before, upTo) by {
        forall i | 0 <= i < |before| && before[i].Render? ensures before[i].at <= upTo {
          assert before[i] == es[i];
        }
      }
      LayersFollowSettings(before, upTo);
      var s := After(before);
      match e
      case SetSvg(svg, timeout, at) =>
        if !svg.Unusable? {
          InstalledFollows(SvgSource(svg), timeout, at, now);
        }
      case SetText(text, timeout, at) =>
        InstalledFollows(TextSource(text), timeout, at, now);
      case Render(at) =>
        ExpiredFollows(s.svg, LastSvg(before), at, at);
        ExpiredFollows(s.text, LastText(before), at, at);
    }
  }

  /** The canvas-sized drawing of a source, with the rotation it was made for. */
  datatype Raster = Raster(w: nat, h: nat, rot: Rotation, rows: seq<seq<Rgba>>)

  ghost predicate IsDrawing(p: Painter, src: Source, r: Raster) {
    && |r.rows| == r.h && (forall y :: 0 <= y < r.h ==> |r.rows[y]| == r.w)
    && forall y, x :: 0 <= y < r.h && 0 <= x < r.w ==> r.rows[y][x] == p.Pixel(src, r.w, r.h, x, y)
  }

  class Layer {
    const painter: Painter
    var src: Option<Source>
    var cache: Option<Raster>
    var deadline: nat

    constructor (painter: Painter)
      ensures Valid() && Shape() == Face(None, 0) && this.painter == painter
    {
      this.painter := painter;
      src, cache, deadline := None, None, 0;
    }

    /** The cache, if there is one, is a drawing of the layer's source. */
    ghost predicate Valid()
      reads this
    {
      cache.Some? ==> src.Some? && IsDrawing(painter, src.value, cache.value)
    }

    ghost function Shape(): Face
      reads this
    {
      Face(src, deadline)
    }

    method Swap(newSrc: Option<Source>, timeout: nat, now: nat)
      modifies this
      ensures Valid() && Shape() == Installed(newSrc, timeout, now)
    {
      src := newSrc;
      cache := None;
      deadline := if newSrc.Some? && timeout > 0 then now + timeout * SECOND else 0;
    }

    method Expire(now: nat)
      requires Valid()
      modifies this
      ensures Valid() && Shape() == old(Shape()).Expired(now)
    {
      if src.Some? && deadline != 0 && now >= deadline {
        Swap(None, 0, now);
      }
    }

    method Fill(lw: nat, lh: nat, rot: Rotation)
      requires src.Some?
      modifies this
      ensures Valid() && Shape() == old(Shape())
      ensures cache.Some? && cache.value.w == lw && cache.value.h == lh && cache.value.rot == rot
    {
      var rows: seq<seq<Rgba>> := [];
      for y := 0 to lh
        invariant |rows| == y && Shape() == old(Shape())
        invariant forall j :: 0 <= j < y ==> |rows[j]| == lw
        invariant forall j, i :: 0 <= j < y && 0 <= i < lw ==> rows[j][i] == painter.Pixel(src.value, lw, lh, i, j)
      {
        var row := [];
        for x := 0 to lw
          invariant |row| == x && Shape() == old(Shape())
          invariant forall i :: 0 <= i < x ==> row[i] == painter.Pixel(src.value, lw, lh, i, y)
        {
          row := row + [painter.Pixel(src.value, lw, lh, x, y)];
        }
        rows := rows + [row];
      }
      cache := Some(Raster(lw, lh, rot, rows));
    }

    /** Blends the cache over the framebuffer; the caller made it for this size. */
    method Blit(fb: array2<Xrgb>, w: nat, h: nat, rot: Rotation)
      requires Valid() && cache.Some? && (cache.value.w, cache.value.h) == LogicalDims(w, h, rot)
      requires h <= fb.Length0 && w <= fb.Length1
      modifies fb
      ensures forall y, x :: 0 <= y < fb.Length0 && 0 <= x < fb.Length1 ==>
        fb[y, x] == if y < h && x < w then Painted(painter, src, rot, w, h, x, y, old(fb[y, x])) else old(fb[y, x])
    {
      for dy := 0 to h
        invariant forall y, x :: 0 <= y < fb.Length0 && 0 <= x < fb.Length1 ==>
          fb[y, x] == if y < dy && x < w then Painted(painter, src, rot, w, h, x, y, old(fb[y, x])) else old(fb[y, x])
      {
        BlitRow(fb, w, h, rot, dy);
      }
    }

    method BlitRow(fb: array2<Xrgb>, w: nat, h: nat, rot: Rotation, dy: nat)
      requires Valid() && cache.Some? && (cache.value.w, cache.value.h) == LogicalDims(w, h, rot)
      requires dy < h <= fb.Length0 && w <= fb.Length1
      modifies fb
      ensures forall y, x :: 0 <= y < fb.Length0 && 0 <= x < fb.Length1 ==>
        fb[y, x] == if y == dy && x < w then Painted(painter, src, rot, w, h, x, y, old(fb[y, x])) else old(fb[y, x])
    {
      var rows, lw, lh := cache.value.rows, cache.value.w, cache.value.h;
      for dx := 0 to w
        invariant forall y, x :: 0 <= y < fb.Length0 && 0 <= x < fb.Length1 ==>
          fb[y, x] == if y == dy && x < dx then Painted(painter, src, rot, w, h, x, y, old(fb[y, x])) else old(fb[y, x])
      {
        var (lx, ly) := LogicalOf(dx, dy, lw, lh, rot);
        CanvasBijection(w, h, rot, dx, dy);
        if !(0 <= lx < lw && 0 <= ly < lh) {
          continue;
        }
        var o := rows[ly][lx];
        assert Over(o, fb[dy, dx]) == Painted(painter, src, rot, w, h, dx, dy, fb[dy, dx]);
        fb[dy, dx] := Over(o, fb[dy, dx]);
      }
    }

    /** Draws the layer, reusing the cache when size and rotation still match. */
    method Draw(fb: array2<Xrgb>, w: nat, h: nat, rot: Rotation)
      requires Valid() && src.Some? && h <= fb.Length0 && w <= fb.Length1
      modifies this, fb
      ensures Valid() && Shape() == old(Shape())
      ensures forall y, x :: 0 <= y < fb.Length0 && 0 <= x < fb.Length1 ==>
        fb[y, x] == if y < h && x < w then Painted(painter, src, rot, w, h, x, y, old(fb[y, x])) else old(fb[y, x])
    {
      var (lw, lh) := LogicalDims(w, h, rot);
      if cache.None? || cache.value.w != lw || cache.value.h != lh || cache.value.rot != rot {
        Fill(lw, lh, rot);
      }
      Blit(fb, w, h, rot);
    }
  }

  /** One pixel after a render: the SVG that is due, then the announcement that is due. */
  function Composite(p: Painter, svg: Option<Source>, text: Option<Source>, rot: Rotation, w: nat, h: nat,
                     x: nat, y: nat, f: Xrgb): Xrgb
    requires x < w && y < h
  {
    Painted(p, text, rot, w, h, x, y, Painted(p, svg, rot, w, h, x, y, f))
  }

  /** The announcement is on top: where it is opaque it is all there is, where it is clear or absent the SVG shows. */
  lemma TextCoversSvg(p: Painter, svg: Option<Source>, text: Option<Source>, rot: Rotation, w: nat, h: nat,
                      x: nat, y: nat, f: Xrgb)
    requires x < w && y < h
    ensures var (lw, lh) := LogicalDims(w, h, rot);
            var (lx, ly) := LogicalOf(x, y, lw, lh, rot);
            var under := Painted(p, svg, rot, w, h, x, y, f);
            var c := Composite(p, svg, text, rot, w, h, x, y, f);
      && (text.None? ==> c == under)
      && (text.Some? ==>
            var o := p.Pixel(text.value, lw, lh, lx, ly);
            (o.a == 0 ==> c == under) && (o.a == 255 ==> c == Xrgb(255, o.r, o.g, o.b)))
  {
  }

  class Overlay {
    const painter: Painter
    const svgLayer: Layer
    const textLayer: Layer
    ghost var log: seq<Event>

    constructor (painter: Painter)
      ensures Valid() && log == [] && fresh(svgLayer) && fresh(textLayer) && this.painter == painter
    {
      this.painter := painter;
      svgLayer := new Layer(painter);
      textLayer := new Layer(painter);
      log := [];
    }

    /** The layers are what the calls so far have made of them. */
    ghost predicate Valid()
      reads this, svgLayer, textLayer
    {
      && svgLayer != textLayer && svgLayer.painter == painter && textLayer.painter == painter
      && svgLayer.Valid() && textLayer.Valid()
      && Faces(svgLayer.Shape(), textLayer.Shape()) == After(log)
    }

    method SetSvg(svg: Parsed, timeout: nat, now: nat)
      requires Valid()
      modifies this, svgLayer
      ensures Valid() && log == old(log) + [Event.SetSvg(svg, timeout, now)]
    {
      log := log + [Event.SetSvg(svg, timeout, now)];
      if svg.Unusable? {
        return;
      }
      svgLayer.Swap(SvgSource(svg), timeout, now);
    }

    method SetText(text: string, timeout: nat, now: nat)
      requires Valid()
      modifies this, textLayer
      ensures Valid() && log == old(log) + [Event.SetText(text, timeout, now)]
    {
      log := log + [Event.SetText(text, timeout, now)];
      textLayer.Swap(TextSource(text), timeout, now);
    }

    /** Whatever calls came before, every pixel gets exactly what their last settings make due now. */
    method Render(fb: array2<Xrgb>, w: nat, h: nat, rot: Rotation, now: nat)
      requires Valid() && RendersOrdered(log, now) && h <= fb.Length0 && w <= fb.Length1
      modifies this, svgLayer, textLayer, fb
      ensures Valid() && log == old(log) + [Event.Render(now)]
      ensures var svg, text := LastSvg(old(log)).Due(now), LastText(old(log)).Due(now);
        forall y, x :: 0 <= y < fb.Length0 && 0 <= x < fb.Length1 ==>
          fb[y, x] == if y < h && x < w then Composite(painter, svg, text, rot, w, h, x, y, old(fb[y, x])) else old(fb[y, x])
    {
      LayersFollowSettings(log, now);
      ExpiredFollows(svgLayer.Shape(), LastSvg(log), now, now);
      ExpiredFollows(textLayer.Shape(), LastText(log), now, now);
      log := log + [Event.Render(now)];
      svgLayer.Expire(now);
      textLayer.Expire(now);
      if svgLayer.src.Some? {
        svgLayer.Draw(fb, w, h, rot);
      }
      if textLayer.src.Some? {
        textLayer.Draw(fb, w, h, rot);
      }
    }
  }
}
