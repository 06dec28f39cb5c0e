/**
 The packing loop of eink.c: a one-bit surface, lowest bit leftmost and rows of stride bytes, becomes the
 panel's buffer of columns, highest bit first, each padded to whole bytes.
 */
module EinkPack {
  import opened Modular

  // ---- Bits of a byte, counted from the highest ----

  function Mask(k: nat): bv8
    requires k < 8
  {
    match k
    case 0 => 0x80
    case 1 => 0x40
    case 2 => 0x20
    case 3 => 0x10
    case 4 => 0x08
    case 5 => 0x04
    case 6 => 0x02
    case _ => 0x01
  }

  predicate Bit(b: bv8, k: nat)
    requires k < 8
  {
    b & Mask(k) != 0
  }

  function WithBit(b: bv8, k: nat, v: bool): bv8
    requires k < 8
  {
    if v then b | Mask(k) else b & !Mask(k)
  }

  /** The highest bit first, each mask half of the one before. */
  lemma MaskIsShift(k: nat)
    requires k < 7
    ensures Mask(0) == 0x80 && Mask(k + 1) == Mask(k) >> 1
  {
  }

  lemma WithBitSetsOne(b: bv8, k: nat, v: bool, j: nat)
    requires k < 8 && j < 8
    ensures Bit(WithBit(b, k, v), j) == if j == k then v else Bit(b, j)
  {
  }

  lemma BitsMakeTheByte(a: bv8, b: bv8)
    requires Bit(a, 0) == Bit(b, 0) && Bit(a, 1) == Bit(b, 1) && Bit(a, 2) == Bit(b, 2) && Bit(a, 3) == Bit(b, 3)
    requires Bit(a, 4) == Bit(b, 4) && Bit(a, 5) == Bit(b, 5) && Bit(a, 6) == Bit(b, 6) && Bit(a, 7) == Bit(b, 7)
    ensures a == b
  {
  }

  // ---- The surface ----

  /** Rows of stride bytes, as cairo lays them out. */
  datatype Bitmap = Bitmap(w: nat, h: nat, stride: nat, rows: seq<seq<bv8>>) {
    ghost predicate Valid() {
      w <= 8 * stride && |rows| == h && forall y :: 0 <= y < h ==> |rows[y]| == stride
    }

    predicate Pixel(x: nat, y: nat)
      requires Valid() && x < w && y < h
    {
      Bit(rows[y][x / 8], 7 - x % 8)
    }
  }

  type Surface = s: Bitmap | s.Valid() witness Bitmap(0, 0, 0, [])

  // ---- The panel's buffer ----

  /** As many bytes as a column of h bits needs. */
  function ByteHeight(h: nat): (bh: nat)
    ensures h <= 8 * bh < h + 8
  {
    (h + 7) / 8
  }

  /** Where column x starts: x * bh. */
  function Start(x: nat, bh: nat): nat {
    if x == 0 then 0 else Start(x - 1, bh) + bh
  }

  lemma {:induction false} StartIsProduct(x: nat, bh: nat)
    ensures Start(x, bh) == x * bh
  {
    if x == 0 {
    } else {
      StartIsProduct(x - 1, bh);
      assert (x - 1) * bh + bh == x * bh;
    }
  }

  /** Columns do not overlap. */
  lemma {:induction false} StartsApart(x: nat, y: nat, bh: nat)
    requires x < y
    ensures Start(x, bh) + bh <= Start(y, bh)
    decreases y
  {
    if x == y - 1 {
    } else {
      StartsApart(x, y - 1, bh);
    }
  }

  ghost predicate Shaped(cols: seq<seq<bv8>>, bh: nat, w: nat) {
    |cols| == w && forall x :: 0 <= x < w ==> |cols[x]| == bh
  }

  ghost predicate ColumnAt(col: seq<bv8>, buf: seq<bv8>, start: nat) {
    start + |col| <= |buf| && forall q: nat :: q < |col| ==> col[q] == buf[start + q]
  }

  /** The flat buffer as columns of bytes. */
  ghost predicate IsColumns(cols: seq<seq<bv8>>, buf: seq<bv8>, bh: nat, w: nat) {
    |buf| == Start(w, bh) && Shaped(cols, bh, w) && forall x: nat :: x < w ==> ColumnAt(cols[x], buf, Start(x, bh))
  }

  function Column(buf: seq<bv8>, bh: nat, w: nat, x: nat): (col: seq<bv8>)
    requires |buf| == Start(w, bh) && x < w
    ensures |col| == bh && ColumnAt(col, buf, Start(x, bh))
  {
    StartsApart(x, w, bh);
    buf[Start(x, bh)..Start(x, bh) + bh]
  }

  ghost function Columns(buf: seq<bv8>, bh: nat, w: nat): (cols: seq<seq<bv8>>)
    requires |buf| == Start(w, bh)
    ensures IsColumns(cols, buf, bh, w)
  {
    var cols := seq(w, x requires 0 <= x < w => Column(buf, bh, w, x));
    assert forall x: nat :: x < w ==> cols[x] == Column(buf, bh, w, x);
    cols
  }

  /** A byte written at its address changes that byte of that column and no other. */
  lemma WriteChangesOneByte(cols: seq<seq<bv8>>, buf: seq<bv8>, bh: nat, w: nat, x: nat, q: nat, b: bv8)
    requires IsColumns(cols, buf, bh, w) && x < w && q < bh
    ensures Start(x, bh) + q < |buf|
    ensures IsColumns(cols[x := cols[x][q := b]], buf[Start(x, bh) + q := b], bh, w)
  {
    StartsApart(x, w, bh);
    var cols', buf' := cols[x := cols[x][q := b]], buf[Start(x, bh) + q := b];
    forall x': nat | x' < w ensures ColumnAt(cols'[x'], buf', Start(x', bh)) {
      assert ColumnAt(cols[x'], buf, Start(x', bh));
      if x' < x {
        StartsApart(x', x, bh);
      } else if x < x' {
        StartsApart(x, x', bh);
      }
    }
  }

  lemma {:induction false} ColumnOf(i: nat, bh: nat, w: nat) returns (x: nat)
    requires i < Start(w, bh)
    ensures x < w && Start(x, bh) <= i < Start(x, bh) + bh
  {
    if i >= Start(w - 1, bh) {
      x := w - 1;
    } else {
      x := ColumnOf(i, bh, w - 1);
    }
  }

  /** The columns are the whole buffer. */
  lemma {:induction false} ColumnsDecide(cols: seq<seq<bv8>>, a: seq<bv8>, b: seq<bv8>, bh: nat, w: nat)
    requires IsColumns(cols, a, bh, w) && IsColumns(cols, b, bh, w)
    ensures a == b
  {
    forall i | 0 <= i < |a| ensures a[i] == b[i] {
      var x := ColumnOf(i, bh, w);
      assert cols[x][i - Start(x, bh)] == a[i];
      assert cols[x][i - Start(x, bh)] == b[i];
    }
  }

  // ---- What each bit is ----

  /** Bit p of column x. */
  predicate Stored(cols: seq<seq<bv8>>, x: nat, p: nat)
    requires x < |cols| && p < 8 * |cols[x]|
  {
    Bit(cols[x][p / 8], p % 8)
  }

  /** The bit that pixel (x, y) of the panel is to hold. */
  predicate PixelBit(s: Surface, flip: bool, invert: bool, x: nat, y: nat)
    requires x < s.w && y < s.h
  {
    s.Pixel(if flip then s.w - 1 - x else x, if flip then s.h - 1 - y else y) == invert
  }

  /** What the panel is sent for bit p of column x: the surface from the bottom up, then padding. */
  predicate Wanted(s: Surface, flip: bool, invert: bool, x: nat, p: nat)
    requires x < s.w
  {
    p < s.h && PixelBit(s, flip, invert, x, s.h - 1 - p)
  }

  /** The panel shows the surface: one bit for every pixel, zero for every padding bit. */
  ghost predicate Packed(cols: seq<seq<bv8>>, s: Surface, flip: bool, invert: bool)
    requires Shaped(cols, ByteHeight(s.h), s.w)
  {
    forall x: nat, p: nat :: x < s.w && p < 8 * ByteHeight(s.h) ==> Stored(cols, x, p) == Wanted(s, flip, invert, x, p)
  }

  /** Row y and those above it are still zero, but for the first n pixels of row y. */
  ghost predicate PackedSoFar(cols: seq<seq<bv8>>, s: Surface, flip: bool, invert: bool, y: nat, n: nat)
    requires Shaped(cols, ByteHeight(s.h), s.w)
  {
    forall x: nat, p: nat :: x < s.w && p < 8 * ByteHeight(s.h) ==>
      Stored(cols, x, p) == ((p >= s.h - y || (p == s.h - 1 - y && x < n)) && Wanted(s, flip, invert, x, p))
  }

  lemma ZeroBit(k: nat)
    requires k < 8
    ensures !Bit(0, k)
  {
  }

  lemma EmptyPacked(cols: seq<seq<bv8>>, buf: seq<bv8>, s: Surface, flip: bool, invert: bool)
    requires IsColumns(cols, buf, ByteHeight(s.h), s.w) && forall k :: 0 <= k < |buf| ==> buf[k] == 0
    ensures PackedSoFar(cols, s, flip, invert, 0, 0)
  {
    forall x: nat, p: nat | x < s.w && p < 8 * ByteHeight(s.h) ensures !Stored(cols, x, p) {
      ZeroBit(p % 8);
      assert cols[x][p / 8] == 0;
    }
  }

  /** The columns after pixel (x, y). */
  ghost function WithPixel(cols: seq<seq<bv8>>, s: Surface, flip: bool, invert: bool, y: nat, x: nat): (r: seq<seq<bv8>>)
    requires Shaped(cols, ByteHeight(s.h), s.w) && y < s.h && x < s.w
    ensures Shaped(r, ByteHeight(s.h), s.w)
  {
    var d := s.h - 1 - y;
    cols[x := cols[x][d / 8 := WithBit(cols[x][d / 8], d % 8, PixelBit(s, flip, invert, x, y))]]
  }

  lemma PixelAlone(cols: seq<seq<bv8>>, s: Surface, flip: bool, invert: bool, y: nat, n: nat, x: nat, p: nat)
    requires Shaped(cols, ByteHeight(s.h), s.w) && y < s.h && n < s.w && x < s.w && p < 8 * ByteHeight(s.h)
    ensures Stored(WithPixel(cols, s, flip, invert, y, n), x, p) ==
            if x == n && p == s.h - 1 - y then PixelBit(s, flip, invert, n, y) else Stored(cols, x, p)
  {
    var d := s.h - 1 - y;
    WithBitSetsOne(cols[n][d / 8], d % 8, PixelBit(s, flip, invert, n, y), p % 8);
  }

  /** One pass of the inner loop sets the bit of one pixel and disturbs no other. */
  lemma PixelPacked(cols: seq<seq<bv8>>, s: Surface, flip: bool, invert: bool, y: nat, n: nat)
    requires Shaped(cols, ByteHeight(s.h), s.w) && y < s.h && n < s.w && PackedSoFar(cols, s, flip, invert, y, n)
    ensures PackedSoFar(WithPixel(cols, s, flip, invert, y, n), s, flip, invert, y, n + 1)
  {
    forall x: nat, p: nat | x < s.w && p < 8 * ByteHeight(s.h)
      ensures Stored(WithPixel(cols, s, flip, invert, y, n), x, p) ==
              if x == n && p == s.h - 1 - y then PixelBit(s, flip, invert, n, y) else Stored(cols, x, p)
    {
      PixelAlone(cols, s, flip, invert, y, n, x, p);
    }
  }

  method PutBit(buf: array<bv8>, i: nat, k: nat, v: bool)
    requires i < buf.Length && k < 8
    modifies buf
    ensures buf[..] == old(buf[..])[i := WithBit(old(buf[i]), k, v)]
  {
    if v {
      buf[i] := buf[i] | Mask(k);
    } else {
      buf[i] := buf[i] & !Mask(k);
    }
  }

  /** The buffer sent to the panel shows the surface. */
  ghost predicate PacksInto(s: Surface, buf: seq<bv8>, flip: bool, invert: bool) {
    exists cols :: IsColumns(cols, buf, ByteHeight(s.h), s.w) && Packed(cols, s, flip, invert)
  }

  /** The body of the inner loop. */
  method PackPixel(s: Surface, buf: array<bv8>, flip: bool, invert: bool, y: nat, x: nat, ghost cols: seq<seq<bv8>>)
    requires y < s.h && x < s.w && IsColumns(cols, buf[..], ByteHeight(s.h), s.w)
    modifies buf
    ensures IsColumns(WithPixel(cols, s, flip, invert, y, x), buf[..], ByteHeight(s.h), s.w)
  {
    var destX := s.h - 1 - y;
    var v := PixelBit(s, flip, invert, x, y);
    StartIsProduct(x, ByteHeight(s.h));
    WriteChangesOneByte(cols, buf[..], ByteHeight(s.h), s.w, x, destX / 8, WithBit(cols[x][destX / 8], destX % 8, v));
    assert ColumnAt(cols[x], buf[..], Start(x, ByteHeight(s.h)));
    PutBit(buf, destX / 8 + x * ByteHeight(s.h), destX % 8, v);
  }

  method Pack(s: Surface, buf: array<bv8>, flip: bool, invert: bool)
    requires buf.Length == s.w * ByteHeight(s.h)
    modifies buf
    ensures PacksInto(s, buf[..], flip, invert)
  {
    for i := 0 to buf.Length
      invariant forall k :: 0 <= k < i ==> buf[k] == 0
    {
      buf[i] := 0;
    }
    StartIsProduct(s.w, ByteHeight(s.h));
    ghost var cols := Columns(buf[..], ByteHeight(s.h), s.w);
    EmptyPacked(cols, buf[..], s, flip, invert);
    for y := 0 to s.h
      invariant IsColumns(cols, buf[..], ByteHeight(s.h), s.w) && PackedSoFar(cols, s, flip, invert, y, 0)
    {
      for x := 0 to s.w
        invariant IsColumns(cols, buf[..], ByteHeight(s.h), s.w) && PackedSoFar(cols, s, flip, invert, y, x)
      {
        PixelPacked(cols, s, flip, invert, y, x);
        PackPixel(s, buf, flip, invert, y, x, cols);
        cols := WithPixel(cols, s, flip, invert, y, x);
      }
    }
  }

  // ---- What the panel shows ----

  /** The bits decide every byte. */
  lemma PackedIsUnique(c: seq<seq<bv8>>, d: seq<seq<bv8>>, bh: nat, w: nat)
    requires Shaped(c, bh, w) && Shaped(d, bh, w)
    requires forall x: nat, p: nat :: x < w && p < 8 * bh ==> Stored(c, x, p) == Stored(d, x, p)
    ensures c == d
  {
    forall x: nat, q: nat | x < w && q < bh ensures c[x][q] == d[x][q] {
      forall k | 0 <= k < 8 ensures Bit(c[x][q], k) == Bit(d[x][q], k) {
        assert Stored(c, x, 8 * q + k) == Stored(d, x, 8 * q + k);
      }
      BitsMakeTheByte(c[x][q], d[x][q]);
    }
    forall x | 0 <= x < w ensures c[x] == d[x] {
    }
  }

  lemma ShiftedBit(b: bv8, k: nat)
    requires k < 8
    ensures Bit(b, 7 - k) <==> (b >> k) & 1 == 1
  {
    match k
    case 0 =>
    case 1 =>
    case 2 =>
    case 3 =>
    case 4 =>
    case 5 =>
    case 6 =>
    case _ =>
  }

  /** A surface pixel is its bit of its byte, lowest first. */
  lemma PixelIsBit(s: Surface, x: nat, y: nat)
    requires x < s.w && y < s.h
    ensures s.Pixel(x, y) <==> (s.rows[y][x / 8] >> (x % 8)) & 1 == 1
  {
    ShiftedBit(s.rows[y][x / 8], x % 8);
  }

  lemma SameColumns(c: seq<seq<bv8>>, d: seq<seq<bv8>>, buf: seq<bv8>, bh: nat, w: nat)
    requires IsColumns(c, buf, bh, w) && IsColumns(d, buf, bh, w)
    ensures c == d
  {
    forall x: nat | x < w ensures c[x] == d[x] {
      assert ColumnAt(c[x], buf, Start(x, bh)) && ColumnAt(d[x], buf, Start(x, bh));
    }
  }

  /**
   Ink is zero: pixel (x, y) of the surface, counted from the far corner when flipped, is bit h - 1 - y of column x
   of the panel, and set there exactly when it is clear on the surface; inverted colours copy it.
   */
  lemma InkIsZero(buf: seq<bv8>, cols: seq<seq<bv8>>, s: Surface, flip: bool, invert: bool, x: nat, y: nat)
    requires IsColumns(cols, buf, ByteHeight(s.h), s.w) && PacksInto(s, buf, flip, invert) && x < s.w && y < s.h
    ensures Stored(cols, x, s.h - 1 - y) <==>
      (if flip then s.Pixel(s.w - 1 - x, s.h - 1 - y) else s.Pixel(x, y)) == invert
  {
    var c :| IsColumns(c, buf, ByteHeight(s.h), s.w) && Packed(c, s, flip, invert);
    SameColumns(c, cols, buf, ByteHeight(s.h), s.w);
    assert Stored(c, x, s.h - 1 - y) == Wanted(s, flip, invert, x, s.h - 1 - y);
  }

  /** Padding bits are zero. */
  lemma PaddingIsZero(buf: seq<bv8>, cols: seq<seq<bv8>>, s: Surface, flip: bool, invert: bool, x: nat, p: nat)
    requires IsColumns(cols, buf, ByteHeight(s.h), s.w) && PacksInto(s, buf, flip, invert)
    requires x < s.w && s.h <= p < 8 * ByteHeight(s.h)
    ensures !Stored(cols, x, p)
  {
    var c :| IsColumns(c, buf, ByteHeight(s.h), s.w) && Packed(c, s, flip, invert);
    SameColumns(c, cols, buf, ByteHeight(s.h), s.w);
    assert Stored(c, x, p) == Wanted(s, flip, invert, x, p);
  }

  ghost predicate PointReflected(t: Surface, s: Surface) {
    && t.w == s.w && t.h == s.h
    && forall x: nat, y: nat :: x < s.w && y < s.h ==> t.Pixel(x, y) == s.Pixel(s.w - 1 - x, s.h - 1 - y)
  }

  lemma FlippedBits(s: Surface, t: Surface, invert: bool)
    requires PointReflected(t, s)
    ensures forall x: nat, p: nat :: x < s.w ==> Wanted(s, true, invert, x, p) == Wanted(t, false, invert, x, p)
  {
  }

  /** The 180-degree mode sends, byte for byte, what the plain mode sends for the surface turned around its centre. */
  lemma FlipIsReflection(a: seq<bv8>, b: seq<bv8>, s: Surface, t: Surface, invert: bool)
    requires PointReflected(t, s) && PacksInto(s, a, true, invert) && PacksInto(t, b, false, invert)
    ensures a == b
  {
    var bh := ByteHeight(s.h);
    var c :| IsColumns(c, a, bh, s.w) && Packed(c, s, true, invert);
    var d :| IsColumns(d, b, bh, s.w) && Packed(d, t, false, invert);
    FlippedBits(s, t, invert);
    PackedIsUnique(c, d, bh, s.w);
    ColumnsDecide(c, a, b, bh, s.w);
  }

  /** Nothing of the picture is lost: two surfaces that pack alike have the same pixels. */
  lemma PackingLosesNothing(buf: seq<bv8>, s: Surface, t: Surface, flip: bool, invert: bool, x: nat, y: nat)
    requires t.w == s.w && t.h == s.h && x < s.w && y < s.h
    requires PacksInto(s, buf, flip, invert) && PacksInto(t, buf, flip, invert)
    ensures s.Pixel(x, y) == t.Pixel(x, y)
  {
    var bh := ByteHeight(s.h);
    var c :| IsColumns(c, buf, bh, s.w) && Packed(c, s, flip, invert);
    var d :| IsColumns(d, buf, bh, s.w) && Packed(d, t, flip, invert);
    SameColumns(c, d, buf, bh, s.w);
    var cx, p := if flip then s.w - 1 - x else x, if flip then y else s.h - 1 - y;
    assert Stored(c, cx, p) == Wanted(s, flip, invert, cx, p) == Wanted(t, flip, invert, cx, p);
  }
}
