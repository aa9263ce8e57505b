/** The framebuffer compositor (kernel/gfx/gfx.c): everything draws into a back buffer, a
    present copies a rectangle of it to the screen, and the mouse cursor exists only on the
    screen, painted over the copy. */
module Gfx {

  /** 0x00RRGGBB in 32 bits. */
  type Color = c: nat | c < 0x1_0000_0000

  datatype Point = Point(x: int, y: int)

  predicate InRect(p: Point, x: int, y: int, w: int, h: int) {
    x <= p.x < x + w && y <= p.y < y + h
  }

  // ---- pixels as video memory holds them ----

  /** A pixel as it can be read back: a 24-bit mode keeps its three low bytes. */
  function Stored(wide: bool, c: Color): Color {
    if wide then c else c % 0x100_0000
  }

  /** The three bytes of a pixel in a 24-bit mode are its blue, green and red. */
  lemma StoredBytes(c: Color)
    ensures Stored(true, c) == c && Stored(false, c) < 0x100_0000
    ensures Stored(false, c) % 256 == c % 256
    ensures Stored(false, c) / 256 % 256 == c / 256 % 256
    ensures Stored(false, c) / 65536 % 256 == c / 65536 % 256
  {
    var q, r := c / 0x100_0000, c % 0x100_0000;
    SameLowBytes(c, q, r);
  }

  lemma SameLowBytes(c: nat, q: nat, r: nat)
    requires c == q * 0x100_0000 + r && r < 0x100_0000
    ensures c % 256 == r % 256 && c / 256 % 256 == r / 256 % 256 && c / 65536 % 256 == r / 65536 % 256
  {
    assert c / 256 == q * 0x1_0000 + r / 256;
    assert c / 65536 == q * 256 + r / 65536;
  }

  function Rgb(red: nat, green: nat, blue: nat): Color
    requires red < 256 && green < 256 && blue < 256
  {
    red * 65536 + green * 256 + blue
  }

  // ---- the cursor ----

  const CUR_W: int := 11
  const CUR_H: int := 17

  /** The picture of the cursor: X is black, a dot is white, anything else is transparent. */
  type Shape = s: seq<string> | |s| == CUR_H && forall i | 0 <= i < |s| :: |s[i]| == CUR_W
    witness seq(CUR_H, _ => seq(CUR_W, _ => ' '))

  datatype Cursor = Cursor(on: bool, x: int, y: int)

  /** The character of the shape over point `p`; blank away from the cursor. */
  function ShapeAt(shape: Shape, c: Cursor, p: Point): char {
    if c.on && InRect(p, c.x, c.y, CUR_W, CUR_H) then shape[p.y - c.y][p.x - c.x] else ' '
  }

  /** The color seen at `p` when the pixel under it is `under`. */
  function Overlay(shape: Shape, c: Cursor, p: Point, under: Color): Color {
    match ShapeAt(shape, c, p)
    case 'X' => 0
    case '.' => 0xFF_FFFF
    case _ => under
  }

  /** Where the shape lies: 11 by 17 points from the cursor's position on. */
  lemma ShapeAtIs(shape: Shape, c: Cursor, p: Point)
    ensures c.on && c.x <= p.x < c.x + 11 && c.y <= p.y < c.y + 17 ==> ShapeAt(shape, c, p) == shape[p.y - c.y][p.x - c.x]
    ensures !(c.on && c.x <= p.x < c.x + 11 && c.y <= p.y < c.y + 17) ==> ShapeAt(shape, c, p) == ' '
  {}

  /** Black, white, and transparent. */
  lemma OverlayColors(shape: Shape, c: Cursor, p: Point, under: Color, sign: char)
    requires sign == ShapeAt(shape, c, p)
    ensures Overlay(shape, c, p, under) == if sign == 'X' then Rgb(0, 0, 0) else if sign == '.' then Rgb(255, 255, 255) else under
  {}

  // ---- the font ----

  const FONT_W: int := 8
  const FONT_H: int := 16
  const FONT_FIRST: char := ' '
  const FONT_LAST: char := '~'

  type Font = f: seq<seq<bv8>> | |f| == 95 && forall i | 0 <= i < |f| :: |f[i]| == 16 witness seq(95, _ => seq(16, _ => 0))

  /** The rows of a character; one that the font lacks looks like a question mark. */
  function Glyph(font: Font, c: char): (g: seq<bv8>)
    ensures |g| == FONT_H
  {
    var d := if c < FONT_FIRST || c > FONT_LAST then '?' else c;
    font[d as int - FONT_FIRST as int]
  }

  /** Bit `col` of a glyph row, the leftmost pixel in the highest bit. */
  predicate Inked(bits: bv8, col: nat)
    requires col < 8
  {
    bits & (0x80 >> col) != 0
  }

  /** The leftmost pixel is the highest bit: shifted down, it is the lowest. */
  lemma InkedIsBit(bits: bv8, col: nat)
    requires col < 8
    ensures Inked(bits, col) <==> (bits >> (7 - col)) & 1 == 1
  {
    if col < 4 { InkedLeft(bits, col); } else { InkedRight(bits, col); }
  }

  lemma InkedLeft(bits: bv8, col: nat)
    requires col < 4
    ensures Inked(bits, col) <==> (bits >> (7 - col)) & 1 == 1
  {
    match col
    case 0 => assert bits & 0x80 != 0 <==> (bits >> 7) & 1 == 1;
    case 1 => assert bits & 0x40 != 0 <==> (bits >> 6) & 1 == 1;
    case 2 => assert bits & 0x20 != 0 <==> (bits >> 5) & 1 == 1;
    case _ => assert bits & 0x10 != 0 <==> (bits >> 4) & 1 == 1;
  }

  lemma InkedRight(bits: bv8, col: nat)
    requires 4 <= col < 8
    ensures Inked(bits, col) <==> (bits >> (7 - col)) & 1 == 1
  {
    match col
    case 4 => assert bits & 0x08 != 0 <==> (bits >> 3) & 1 == 1;
    case 5 => assert bits & 0x04 != 0 <==> (bits >> 2) & 1 == 1;
    case 6 => assert bits & 0x02 != 0 <==> (bits >> 1) & 1 == 1;
    case _ => assert bits & 0x01 != 0 <==> (bits >> 0) & 1 == 1;
  }

  /** Characters from space to tilde have glyphs of their own, 95 of them in a row. */
  lemma GlyphIs(font: Font, c: char)
    ensures 32 <= c as int <= 126 ==> Glyph(font, c) == font[c as int - 32]
    ensures !(32 <= c as int <= 126) ==> Glyph(font, c) == font[63 - 32]
  {}

  // ---- the screen ----

  class Screen {
    const width: nat
    const height: nat
    /** 32 bits a pixel, or 24. */
    const wide: bool
    const font: Font
    const shape: Shape
    /** Both buffers by row and column. */
    const back: array2<Color>
    const front: array2<Color>
    /** Whether gfx_init found a usable framebuffer; without one every operation does nothing. */
    const ready: bool
    var cur: Cursor
    /** The points drawn to since they were last presented. */
    ghost var dirty: iset<Point>

    predicate OnScreen(p: Point) { 0 <= p.x < width && 0 <= p.y < height }

    ghost predicate Fits() {
      && back != front
      && back.Length0 == front.Length0 == height && back.Length1 == front.Length1 == width
    }

    /** The pixel that ought to be on screen at `p`. */
    ghost function Picture(p: Point): Color
      requires Fits() && OnScreen(p)
      reads this, back
    {
      Stored(wide, Overlay(shape, cur, p, back[p.y, p.x]))
    }

    /** Every point not drawn to since it was last presented shows the back buffer with the
        cursor over it. */
    ghost predicate Valid()
      reads this, back, front
    {
      Fits() && forall p | OnScreen(p) && p !in dirty :: front[p.y, p.x] == Picture(p)
    }

    /** The points of a rectangle that are on screen. */
    ghost function Visible(x: int, y: int, w: int, h: int): iset<Point> {
      iset p: Point | OnScreen(p) && InRect(p, x, y, w, h)
    }

    /** `gfx_init`, once it has its buffers; nothing has been presented yet. */
    constructor (width: nat, height: nat, wide: bool, font: Font, shape: Shape, ready: bool)
      ensures Valid() && this.font == font && this.shape == shape
      ensures this.width == width && this.height == height && this.wide == wide && this.ready == ready
      ensures !cur.on && dirty == Visible(0, 0, width, height) && fresh(back) && fresh(front)
    {
      this.width, this.height, this.wide := width, height, wide;
      this.font, this.shape, this.ready := font, shape, ready;
      back := new Color[height, width];
      front := new Color[height, width];
      cur := Cursor(false, 0, 0);
      new;
      dirty := Visible(0, 0, width, height);
    }

    /** `clip`: the part of a rectangle that is on screen, if there is one. */
    method Clip(x: int, y: int, w: int, h: int) returns (ok: bool, x1: int, y1: int, w1: int, h1: int)
      ensures ok <==> exists p :: OnScreen(p) && InRect(p, x, y, w, h)
      ensures ok ==> forall p :: InRect(p, x1, y1, w1, h1) <==> OnScreen(p) && InRect(p, x, y, w, h)
      ensures ok ==> x1 >= 0 && y1 >= 0 && w1 > 0 && h1 > 0 && x1 + w1 <= width && y1 + h1 <= height
      ensures ok ==> y1 + h1 == if y + h <= height then y + h else height
    {
      x1, y1, w1, h1 := x, y, w, h;
      if x1 < 0 { w1 := w1 + x1; x1 := 0; }
      if y1 < 0 { h1 := h1 + y1; y1 := 0; }
      if x1 + w1 > width { w1 := width - x1; }
      if y1 + h1 > height { h1 := height - y1; }
      ok := w1 > 0 && h1 > 0;
      if ok {
        assert OnScreen(Point(x1, y1)) && InRect(Point(x1, y1), x, y, w, h);
      }
    }

    /** `back` has changed exactly at the points of `where`, which are now dirty. */
    twostate predicate Drawn(where: iset<Point>)
      requires Fits()
      reads this, back
    {
      && dirty == old(dirty) + where
      && forall p | OnScreen(p) && p !in where :: back[p.y, p.x] == old(back[p.y, p.x])
    }

    /** Drawing keeps what is on screen. */
    twostate lemma DrawKeepsValid(where: iset<Point>)
      requires old(Valid()) && Drawn(where) && cur == old(cur) && unchanged(front)
      ensures Valid()
    {
      forall p | OnScreen(p) && p !in dirty
        ensures front[p.y, p.x] == Picture(p)
      {
        assert p !in where && p !in old(dirty);
      }
    }

    /** `gfx_fill_rect`. */
    method FillRect(x: int, y: int, w: int, h: int, color: Color)
      requires Valid()
      modifies this`dirty, back
      ensures Valid() && Drawn(if ready then Visible(x, y, w, h) else iset{})
      ensures ready ==> forall p | OnScreen(p) && InRect(p, x, y, w, h) :: back[p.y, p.x] == color
    {
      if !ready { return; }
      var ok, x1, y1, w1, h1 := Clip(x, y, w, h);
      if !ok {
        assert Visible(x, y, w, h) == iset{};
        return;
      }
      for row := y1 to y1 + h1
        invariant dirty == old(dirty)
        invariant forall p | OnScreen(p) ::
                    back[p.y, p.x] == if InRect(p, x1, y1, w1, row - y1) then color else old(back[p.y, p.x])
      {
        for i := 0 to w1
          invariant dirty == old(dirty)
          invariant forall p | OnScreen(p) ::
                      back[p.y, p.x] == if InRect(p, x1, y1, w1, row - y1) || InRect(p, x1, row, i, 1) then color
                                        else old(back[p.y, p.x])
        {
          back[row, x1 + i] := color;
        }
      }
      dirty := dirty + Visible(x, y, w, h);
      DrawKeepsValid(Visible(x, y, w, h));
    }

    /** `gfx_draw_char`: a character cell, clipped pixel by pixel. */
    method DrawChar(x: int, y: int, c: char, fg: Color, bg: Color)
      requires Valid()
      modifies this`dirty, back
      ensures Valid() && Drawn(if ready then Visible(x, y, FONT_W, FONT_H) else iset{})
      ensures ready ==> forall p | OnScreen(p) && InRect(p, x, y, FONT_W, FONT_H) ::
                back[p.y, p.x] == Ink(Glyph(font, c), p.x - x, p.y - y, fg, bg)
    {
      if !ready { return; }
      var glyph := Glyph(font, c);
      for row := 0 to FONT_H
        invariant dirty == old(dirty)
        invariant forall p | OnScreen(p) ::
                    back[p.y, p.x] == if InRect(p, x, y, FONT_W, row) then Ink(glyph, p.x - x, p.y - y, fg, bg)
                                      else old(back[p.y, p.x])
      {
        var py := y + row;
        if py < 0 || py >= height { continue; }
        var bits := glyph[row];
        for col := 0 to FONT_W
          invariant dirty == old(dirty)
          invariant forall p | OnScreen(p) ::
                      back[p.y, p.x] == if InRect(p, x, y, FONT_W, row) || InRect(p, x, py, col, 1)
                                        then Ink(glyph, p.x - x, p.y - y, fg, bg)
                                        else old(back[p.y, p.x])
        {
          var px := x + col;
          if px < 0 || px >= width { continue; }
          back[py, px] := if Inked(bits, col) then fg else bg;
        }
      }
      dirty := dirty + Visible(x, y, FONT_W, FONT_H);
      DrawKeepsValid(Visible(x, y, FONT_W, FONT_H));
    }

    /** `gfx_scroll_up`: the pixels of a rectangle move up by `dy` rows, in place and from
        the top; the rows set free are filled. Callers pass a distance that is not negative. */
    method ScrollUp(x: int, y: int, w: int, h: int, dy: int, bg: Color)
      requires Valid() && dy >= 0
      modifies this`dirty, back
      ensures Valid() && Drawn(if ready then Visible(x, y, w, h) else iset{})
      ensures ready ==> forall p | OnScreen(p) && InRect(p, x, y, w, h) ::
                back[p.y, p.x] == if p.y + dy < y + h && p.y + dy < height then old(back[p.y + dy, p.x]) else bg
    {
      if !ready { return; }
      var ok, x1, y1, w1, h1 := Clip(x, y, w, h);
      if !ok {
        assert Visible(x, y, w, h) == iset{};
        return;
      }
      ScrollClipped(x1, y1, w1, h1, dy, bg);
      assert Visible(x1, y1, w1, h1) == Visible(x, y, w, h);
    }

    /** The same for a rectangle that is on screen. */
    method ScrollClipped(x: nat, y: nat, w: nat, h: nat, dy: nat, bg: Color)
      requires Valid() && ready && x + w <= width && y + h <= height
      modifies this`dirty, back
      ensures Valid() && Drawn(Visible(x, y, w, h))
      ensures forall p | OnScreen(p) && InRect(p, x, y, w, h) ::
                back[p.y, p.x] == if p.y + dy < y + h then old(back[p.y + dy, p.x]) else bg
    {
      if dy >= h {
        FillRect(x, y, w, h, bg);
        return;
      }
      MoveUp(x, y, w, h, dy);
      FillRect(x, y + h - dy, w, dy, bg);
      assert Visible(x, y, w, h - dy) + Visible(x, y + h - dy, w, dy) == Visible(x, y, w, h);
    }

    /** The copy loop of gfx_scroll_up: every row is read before it is overwritten. */
    method MoveUp(x: nat, y: nat, w: nat, h: nat, dy: nat)
      requires Valid() && x + w <= width && y + h <= height && dy < h
      modifies this`dirty, back
      ensures Valid() && Drawn(Visible(x, y, w, h - dy))
      ensures forall p | OnScreen(p) && InRect(p, x, y, w, h - dy) :: back[p.y, p.x] == old(back[p.y + dy, p.x])
    {
      for row := y to y + h - dy
        invariant dirty == old(dirty)
        invariant forall p | OnScreen(p) ::
                    back[p.y, p.x] == if InRect(p, x, y, w, row - y) then old(back[p.y + dy, p.x]) else old(back[p.y, p.x])
      {
        for i := 0 to w
          invariant dirty == old(dirty)
          invariant forall p | OnScreen(p) ::
                      back[p.y, p.x] == if InRect(p, x, y, w, row - y) || InRect(p, x, row, i, 1) then old(back[p.y + dy, p.x])
                                        else old(back[p.y, p.x])
        {
          assert OnScreen(Point(x + i, row + dy));
          back[row, x + i] := back[row + dy, x + i];
        }
      }
      dirty := dirty + Visible(x, y, w, h - dy);
      DrawKeepsValid(Visible(x, y, w, h - dy));
    }

    /** `front_pixel`. */
    method FrontPixel(x: nat, y: nat, c: Color)
      requires Fits() && x < width && y < height
      modifies front
      ensures forall p | OnScreen(p) :: front[p.y, p.x] == if p == Point(x, y) then Stored(wide, c) else old(front[p.y, p.x])
    {
      front[y, x] := Stored(wide, c);
    }

    /** `overlay_cursor`: the part of the cursor inside a rectangle that is on screen. */
    method OverlayCursor(x: nat, y: nat, w: nat, h: nat)
      requires Fits() && x + w <= width && y + h <= height
      modifies front
      ensures forall p | OnScreen(p) ::
                front[p.y, p.x] == if InRect(p, x, y, w, h) then Overlay(shape, cur, p, old(front[p.y, p.x]))
                                   else old(front[p.y, p.x])
    {
      if !cur.on { return; }
      var x0 := if x > cur.x then x else cur.x;
      var y0 := if y > cur.y then y else cur.y;
      var x1 := if x + w < cur.x + CUR_W then x + w else cur.x + CUR_W;
      var y1 := if y + h < cur.y + CUR_H then y + h else cur.y + CUR_H;
      var py := y0;
      while py < y1
        invariant y0 <= py && (py <= y1 || py == y0)
        invariant forall p | OnScreen(p) ::
                    front[p.y, p.x] == if InRect(p, x0, y0, x1 - x0, py - y0) then Overlay(shape, cur, p, old(front[p.y, p.x]))
                                       else old(front[p.y, p.x])
      {
        OverlayRow(x0, x1, py);
        py := py + 1;
      }
    }

    /** One row of the cursor. */
    method OverlayRow(x0: int, x1: int, py: int)
      requires Fits() && cur.on && 0 <= py < height && cur.y <= py < cur.y + CUR_H
      requires 0 <= x0 && x1 <= width && cur.x <= x0 && x1 <= cur.x + CUR_W
      modifies front
      ensures forall p | OnScreen(p) ::
                front[p.y, p.x] == if InRect(p, x0, py, x1 - x0, 1) then Overlay(shape, cur, p, old(front[p.y, p.x]))
                                   else old(front[p.y, p.x])
    {
      var px := x0;
      while px < x1
        invariant x0 <= px && (px <= x1 || px == x0)
        invariant forall p | OnScreen(p) ::
                    front[p.y, p.x] == if InRect(p, x0, py, px - x0, 1) then Overlay(shape, cur, p, old(front[p.y, p.x]))
                                       else old(front[p.y, p.x])
      {
        OverlayPixel(px, py);
        px := px + 1;
      }
    }

    /** One pixel of the cursor: blanks are transparent. */
    method OverlayPixel(px: nat, py: nat)
      requires Fits() && px < width && py < height && cur.on && InRect(Point(px, py), cur.x, cur.y, CUR_W, CUR_H)
      modifies front
      ensures forall p | OnScreen(p) ::
                front[p.y, p.x] == if p == Point(px, py) then Overlay(shape, cur, p, old(front[p.y, p.x])) else old(front[p.y, p.x])
    {
      var c := shape[py - cur.y][px - cur.x];
      assert c == ShapeAt(shape, cur, Point(px, py));
      if c == 'X' {
        FrontPixel(px, py, 0);
      } else if c == '.' {
        FrontPixel(px, py, 0xFF_FFFF);
      }
    }

    /** The copy loop of gfx_present. */
    method CopyOut(x: nat, y: nat, w: nat, h: nat)
      requires Fits() && x + w <= width && y + h <= height
      modifies front
      ensures forall p | OnScreen(p) ::
                front[p.y, p.x] == if InRect(p, x, y, w, h) then Stored(wide, back[p.y, p.x]) else old(front[p.y, p.x])
    {
      for row := y to y + h
        invariant forall p | OnScreen(p) ::
                    front[p.y, p.x] == if InRect(p, x, y, w, row - y) then Stored(wide, back[p.y, p.x]) else old(front[p.y, p.x])
      {
        for i := 0 to w
          invariant forall p | OnScreen(p) ::
                      front[p.y, p.x] == if InRect(p, x, y, w, row - y) || InRect(p, x, row, i, 1)
                                         then Stored(wide, back[p.y, p.x]) else old(front[p.y, p.x])
        {
          FrontPixel(x + i, row, back[row, x + i]);
        }
      }
    }

    /** `gfx_present`: the visible part of the rectangle shows the picture; nothing else on
        screen changes, and a point outside is as stale as it was. */
    method Present(x: int, y: int, w: int, h: int)
      requires Fits()
      modifies this`dirty, front
      ensures dirty == if ready then old(dirty) - Visible(x, y, w, h) else old(dirty)
      ensures forall p | OnScreen(p) ::
                front[p.y, p.x] == if ready && InRect(p, x, y, w, h) then Picture(p) else old(front[p.y, p.x])
      ensures old(Valid()) ==> Valid()
    {
      if !ready { return; }
      dirty := dirty - Visible(x, y, w, h);
      var ok, x1, y1, w1, h1 := Clip(x, y, w, h);
      if !ok { return; }
      CopyOut(x1, y1, w1, h1);
      OverlayCursor(x1, y1, w1, h1);
    }

    /** `gfx_cursor_set`: the cursor moves. The old spot is presented first, already without
        it, then the new one. */
    method CursorSet(x: int, y: int)
      requires Valid()
      modifies this`cur, this`dirty, front
      ensures Valid() && cur == if ready then Cursor(true, x, y) else old(cur)
      ensures ready ==> dirty == old(dirty) - Visible(x, y, CUR_W, CUR_H) - Spot(old(cur))
    {
      if !ready { return; }
      var was := cur;
      cur := Cursor(true, x, y);
      if was.on { Present(was.x, was.y, CUR_W, CUR_H); }
      Present(x, y, CUR_W, CUR_H);
    }

    /** The visible points under a cursor. */
    ghost function Spot(c: Cursor): iset<Point> {
      if c.on then Visible(c.x, c.y, CUR_W, CUR_H) else iset{}
    }

    // ---- whole runs ----

    /** The points an operation draws to. */
    ghost function DrawnBy(op: Op): iset<Point> {
      match op
      case Fill(x, y, w, h, _) => Visible(x, y, w, h)
      case Char(x, y, _, _, _) => Visible(x, y, FONT_W, FONT_H)
      case Scroll(x, y, w, h, _, _) => Visible(x, y, w, h)
      case Show(_, _, _, _) => iset{}
      case Move(_, _) => iset{}
    }

    /** The points an operation presents when the cursor is `c`. */
    ghost function ShownBy(op: Op, c: Cursor): iset<Point> {
      match op
      case Fill(_, _, _, _, _) => iset{}
      case Char(_, _, _, _, _) => iset{}
      case Scroll(_, _, _, _, _, _) => iset{}
      case Show(x, y, w, h) => Visible(x, y, w, h)
      case Move(x, y) => Visible(x, y, CUR_W, CUR_H) + Spot(c)
    }

    /** The back buffer as a value. */
    ghost function Pixels(): imap<Point, Color>
      requires Fits()
      reads back
    {
      imap p: Point | OnScreen(p) :: back[p.y, p.x]
    }

    /** The color an operation gives to point `p` of the pixels `b`. */
    ghost function PaintAt(b: imap<Point, Color>, op: Op, p: Point): Color
      requires OnScreen(p) && forall q | OnScreen(q) :: q in b
    {
      match op
      case Fill(x, y, w, h, c) => if InRect(p, x, y, w, h) then c else b[p]
      case Char(x, y, c, fg, bg) =>
        if InRect(p, x, y, FONT_W, FONT_H) then Ink(Glyph(font, c), p.x - x, p.y - y, fg, bg) else b[p]
      case Scroll(x, y, w, h, dy, bg) =>
        var below := Point(p.x, p.y + dy);
        if !InRect(p, x, y, w, h) then b[p] else if InRect(below, x, y, w, h) && OnScreen(below) then b[below] else bg
      case Show(_, _, _, _) => b[p]
      case Move(_, _) => b[p]
    }

    ghost function Painted(b: imap<Point, Color>, op: Op): imap<Point, Color>
      requires forall q | OnScreen(q) :: q in b
    {
      imap p: Point | OnScreen(p) :: PaintAt(b, op, p)
    }

    /** The pixels after the first `n` operations. */
    ghost function PaintAfter(b: imap<Point, Color>, ops: seq<Op>, n: nat): (r: imap<Point, Color>)
      requires n <= |ops| && forall q | OnScreen(q) :: q in b
      ensures forall q | OnScreen(q) :: q in r
    {
      if n == 0 then b else Painted(PaintAfter(b, ops, n - 1), ops[n - 1])
    }

    /** The cursor after the first `n` operations: where the last move has put it. */
    ghost function CursorAfter(c: Cursor, ops: seq<Op>, n: nat): Cursor
      requires n <= |ops|
    {
      if n == 0 then c
      else if ops[n - 1].Move? then Cursor(true, ops[n - 1].x, ops[n - 1].y)
      else CursorAfter(c, ops, n - 1)
    }

    /** What the first `n` operations leave drawn but not presented. */
    ghost function DirtyAfter(d: iset<Point>, c: Cursor, ops: seq<Op>, n: nat): iset<Point>
      requires n <= |ops|
    {
      if n == 0 then d
      else DirtyAfter(d, c, ops, n - 1) + DrawnBy(ops[n - 1]) - ShownBy(ops[n - 1], CursorAfter(c, ops, n - 1))
    }

    /** Point `p` was drawn to by operation `i - 1`, or was dirty at the start for `i == 0`,
        and none of the operations from `i` to `n` has presented it. */
    ghost predicate DrawnSince(d: iset<Point>, c: Cursor, ops: seq<Op>, i: nat, n: nat, p: Point)
      requires i <= n <= |ops|
    {
      && (if i == 0 then p in d else p in DrawnBy(ops[i - 1]))
      && forall j :: i <= j < n ==> p !in ShownBy(ops[j], CursorAfter(c, ops, j))
    }

    /** The dirty points of a run are those drawn to since they were last presented. */
    lemma {:induction false} DirtyMeans(d: iset<Point>, c: Cursor, ops: seq<Op>, n: nat, p: Point)
      requires n <= |ops|
      ensures p in DirtyAfter(d, c, ops, n) <==> exists i :: 0 <= i <= n && DrawnSince(d, c, ops, i, n, p)
    {
      if n == 0 {
        assert DrawnSince(d, c, ops, 0, 0, p) <==> p in d;
      } else {
        DirtyMeans(d, c, ops, n - 1, p);
        DrawOrShow(ops[n - 1], CursorAfter(c, ops, n - 1), p);
        forall i | 0 <= i < n
          ensures DrawnSince(d, c, ops, i, n, p) <==> DrawnSince(d, c, ops, i, n - 1, p) && p !in ShownBy(ops[n - 1], CursorAfter(c, ops, n - 1))
        {
          SinceNext(d, c, ops, i, n, p);
        }
        assert DrawnSince(d, c, ops, n, n, p) <==> p in DrawnBy(ops[n - 1]);
        if p in DirtyAfter(d, c, ops, n) && p !in DrawnBy(ops[n - 1]) {
          var i :| 0 <= i <= n - 1 && DrawnSince(d, c, ops, i, n - 1, p);
          assert DrawnSince(d, c, ops, i, n, p);
        }
        forall i | 0 <= i <= n && DrawnSince(d, c, ops, i, n, p)
          ensures p in DirtyAfter(d, c, ops, n)
        {
          assert i < n ==> DrawnSince(d, c, ops, i, n - 1, p);
        }
      }
    }

    lemma SinceNext(d: iset<Point>, c: Cursor, ops: seq<Op>, i: nat, n: nat, p: Point)
      requires i < n <= |ops|
      ensures DrawnSince(d, c, ops, i, n, p) <==> DrawnSince(d, c, ops, i, n - 1, p) && p !in ShownBy(ops[n - 1], CursorAfter(c, ops, n - 1))
    {}

    lemma DrawOrShow(op: Op, c: Cursor, p: Point)
      ensures !(p in DrawnBy(op) && p in ShownBy(op, c))
    {}

    /** Any sequence of operations: the screen shows the picture wherever nothing was drawn
        since the last present, and so everywhere once all has been presented. */
    method Play(ops: seq<Op>)
      requires Valid() && ready
      modifies this`dirty, this`cur, back, front
      ensures Valid() && cur == CursorAfter(old(cur), ops, |ops|) && dirty == DirtyAfter(old(dirty), old(cur), ops, |ops|)
      ensures Pixels() == PaintAfter(old(Pixels()), ops, |ops|)
      ensures forall p | OnScreen(p) && p !in DirtyAfter(old(dirty), old(cur), ops, |ops|) ::
                front[p.y, p.x] == Stored(wide, Overlay(shape, CursorAfter(old(cur), ops, |ops|), p, PaintAfter(old(Pixels()), ops, |ops|)[p]))
    {
      for n := 0 to |ops|
        invariant Pixels() == PaintAfter(old(Pixels()), ops, n)
        invariant Valid() && cur == CursorAfter(old(cur), ops, n) && dirty == DirtyAfter(old(dirty), old(cur), ops, n)
      {
        Step(ops[n]);
      }
      assert forall p | OnScreen(p) :: back[p.y, p.x] == Pixels()[p];
    }

    method Step(op: Op)
      requires Valid() && ready
      modifies this`dirty, this`cur, back, front
      ensures Valid() && cur == (if op.Move? then Cursor(true, op.x, op.y) else old(cur))
      ensures dirty == old(dirty) + DrawnBy(op) - ShownBy(op, old(cur))
      ensures Pixels() == Painted(old(Pixels()), op)
    {
      ghost var b := Pixels();
      Perform(op);
      PaintedIs(Pixels(), b, op);
    }

    lemma PaintedIs(x: imap<Point, Color>, b: imap<Point, Color>, op: Op)
      requires forall q | OnScreen(q) :: q in b
      requires forall p :: p in x <==> OnScreen(p)
      requires forall p | OnScreen(p) :: x[p] == PaintAt(b, op, p)
      ensures x == Painted(b, op)
    {}

    method Perform(op: Op)
      requires Valid() && ready
      modifies this`dirty, this`cur, back, front
      ensures Valid() && cur == (if op.Move? then Cursor(true, op.x, op.y) else old(cur))
      ensures dirty == old(dirty) + DrawnBy(op) - ShownBy(op, old(cur))
      ensures forall p | OnScreen(p) :: back[p.y, p.x] == PaintAt(old(Pixels()), op, p)
    {
      match op
      case Fill(x, y, w, h, c) => FillRect(x, y, w, h, c);
      case Char(x, y, c, fg, bg) => DrawChar(x, y, c, fg, bg);
      case Scroll(x, y, w, h, dy, bg) => ScrollUp(x, y, w, h, dy, bg);
      case Show(x, y, w, h) => Present(x, y, w, h);
      case Move(x, y) => CursorSet(x, y);
    }
  }

  datatype Op =
    | Fill(x: int, y: int, w: int, h: int, color: Color)
    | Char(x: int, y: int, c: char, fg: Color, bg: Color)
    | Scroll(x: int, y: int, w: int, h: int, dy: nat, bg: Color)
    | Show(x: int, y: int, w: int, h: int)
    | Move(x: int, y: int)

  /** A pixel of a character cell. */
  function Ink(glyph: seq<bv8>, col: int, row: int, fg: Color, bg: Color): Color
    requires |glyph| == FONT_H && 0 <= col < FONT_W && 0 <= row < FONT_H
  {
    if Inked(glyph[row], col) then fg else bg
  }
}
