/** The geometry of the DXYN sprite draw: where each sprite cell lands on the 64x32 framebuffer,
    and the framebuffer and collision flag the draw produces, described pixel by pixel. */
module Sprites {
  import opened Hardware

  /** `pixel & (0x80 >> c)`: column c of a sprite row, counted from the most significant bit. */
  predicate SpriteBit(row: Byte, c: nat)
    requires c < 8
  {
    BitAnd(row, ColumnMask(c)) != 0
  }

  /** `0x80 >> c`: the bit of column c. */
  function ColumnMask(c: nat): Byte
    requires c < 8
  {
    if c == 0 then 0x80 else ColumnMask(c - 1) / 2
  }

  /** `gfx[pos] ^= 1`. */
  function Toggle(g: Byte): Byte
  {
    BitXor(g, 1)
  }

  /** On a cell that holds 0 or 1, toggling swaps the two. */
  lemma ToggleBit(g: Byte)
    requires g == 0 || g == 1
    ensures Toggle(g) == 1 - g
  {
    assert Bitwise(XorBits, 0, 0) == 0;
  }

  /** The framebuffer cell that sprite cell (r, c) lands on when the sprite is drawn at
      (vx, vy): `x_pixel + y_pixel * 64` with `x_pixel = (x + xline) % 64` and
      `y_pixel = (y + yline) % 32`, so columns and rows wrap independently. */
  function PixelIndex(vx: Byte, vy: Byte, r: nat, c: nat): nat
  {
    (vx + c) % ScreenWidth + ((vy + r) % ScreenHeight) * ScreenWidth
  }

  /** The sprite row that lands on framebuffer row `p / 64` when the sprite starts at row vy. */
  function RowAt(vy: Byte, p: int): nat
  {
    (p / ScreenWidth - vy) % ScreenHeight
  }

  /** The sprite column that lands on framebuffer column `p % 64` when the sprite starts at vx. */
  function ColumnAt(vx: Byte, p: int): nat
  {
    (p % ScreenWidth - vx) % ScreenWidth
  }

  /** Pixel p lies under a set cell of the sprite (one byte per row) drawn at (vx, vy). */
  ghost predicate Covers(sprite: seq<Byte>, vx: Byte, vy: Byte, p: int)
  {
    RowAt(vy, p) < |sprite| && ColumnAt(vx, p) < 8 && SpriteBit(sprite[RowAt(vy, p)], ColumnAt(vx, p))
  }

  /** On cells that hold 0 or 1, toggling swaps the two. */
  lemma ToggleBits()
    ensures forall g: Byte | g <= 1 :: Toggle(g) == 1 - g
  {
    forall g: Byte | g <= 1
      ensures Toggle(g) == 1 - g
    {
      ToggleBit(g);
    }
  }

  /** The framebuffer after the draw: every covered pixel toggled, every other pixel as before.
      On cells holding 0 or 1, the cells that change are exactly the covered ones, and they
      stay 0 or 1. */
  ghost function Drawn(gfx: seq<Byte>, sprite: seq<Byte>, vx: Byte, vy: Byte): (r: seq<Byte>)
    ensures |r| == |gfx|
    ensures forall p | 0 <= p < |gfx| && gfx[p] <= 1 :: r[p] <= 1 && (r[p] != gfx[p] <==> Covers(sprite, vx, vy, p))
  {
    ToggleBits();
    seq(|gfx|, p requires 0 <= p < |gfx| => if Covers(sprite, vx, vy, p) then Toggle(gfx[p]) else gfx[p])
  }

  /** The draw hits a pixel that was on: the collision that sets VF. On cells holding 0 or 1,
      that is exactly a pixel the draw turns off. */
  ghost predicate Collides(gfx: seq<Byte>, sprite: seq<Byte>, vx: Byte, vy: Byte)
    ensures (forall p | 0 <= p < |gfx| :: gfx[p] <= 1) ==>
      (Collides(gfx, sprite, vx, vy) <==> exists p | 0 <= p < |gfx| :: gfx[p] == 1 && Drawn(gfx, sprite, vx, vy)[p] == 0)
  {
    exists p | 0 <= p < |gfx| :: Covers(sprite, vx, vy, p) && gfx[p] == 1
  }

  /** Division with remainder by the screen dimensions. */
  lemma DivModScreen(a: int, b: int, q: int, r: int)
    requires b == ScreenHeight || b == ScreenWidth
    requires 0 <= r < b && a == q * b + r
    ensures a / b == q && a % b == r
  {
    if b == ScreenHeight {
    } else {
    }
  }

  /** Undoing a wrapped offset: `((base + d) % b - base) % b == d` for `d < b`. */
  lemma UnwrapOffset(base: int, d: int, b: int)
    requires b == ScreenHeight || b == ScreenWidth
    requires 0 <= base && 0 <= d < b
    ensures ((base + d) % b - base) % b == d
  {
    var k := (base + d) / b;
    DivModScreen(base + d, b, k, (base + d) % b);
    DivModScreen((base + d) % b - base, b, -k, d);
  }

  /** Sprite cell (r, c) lands on a framebuffer cell, in column (vx + c) % 64 and row
      (vy + r) % 32, and that cell maps back to (r, c). */
  lemma PixelIndexInverse(vx: Byte, vy: Byte, r: nat, c: nat)
    requires r < ScreenHeight && c < ScreenWidth
    ensures var p := PixelIndex(vx, vy, r, c);
      p < PixelCount && p % ScreenWidth == (vx + c) % ScreenWidth && p / ScreenWidth == (vy + r) % ScreenHeight &&
      RowAt(vy, p) == r && ColumnAt(vx, p) == c
  {
    var p := PixelIndex(vx, vy, r, c);
    DivModScreen(p, ScreenWidth, (vy + r) % ScreenHeight, (vx + c) % ScreenWidth);
    UnwrapOffset(vy, r, ScreenHeight);
    UnwrapOffset(vx, c, ScreenWidth);
  }

  /** Every framebuffer cell is where the sprite cell computed by RowAt and ColumnAt lands. */
  lemma PixelIndexOnto(vx: Byte, vy: Byte, p: int)
    requires 0 <= p < PixelCount
    ensures PixelIndex(vx, vy, RowAt(vy, p), ColumnAt(vx, p)) == p
  {
    var row, column := p / ScreenWidth, p % ScreenWidth;
    DivModScreen(p, ScreenWidth, row, column);
    var r, c := RowAt(vy, p), ColumnAt(vx, p);
    var j := (row - vy) / ScreenHeight;
    DivModScreen(row - vy, ScreenHeight, j, r);
    DivModScreen(vy + r, ScreenHeight, -j, row);
    var i := (column - vx) / ScreenWidth;
    DivModScreen(column - vx, ScreenWidth, i, c);
    DivModScreen(vx + c, ScreenWidth, -i, column);
  }

  /** Pixel p has already been handled when the loops of DXYN stand at row `row`, column `col`. */
  ghost predicate DrawnBefore(sprite: seq<Byte>, vx: Byte, vy: Byte, p: int, row: nat, col: nat)
  {
    Covers(sprite, vx, vy, p) &&
    (RowAt(vy, p) < row || (RowAt(vy, p) == row && ColumnAt(vx, p) < col))
  }

  /** Handling cell (row, col) adds exactly its own pixel, when its bit is set. */
  lemma DrawnBeforeNextColumn(sprite: seq<Byte>, vx: Byte, vy: Byte, row: nat, col: nat, p: int)
    requires row < |sprite| && |sprite| <= ScreenHeight && col < 8 && 0 <= p < PixelCount
    ensures DrawnBefore(sprite, vx, vy, p, row, col + 1) <==>
      DrawnBefore(sprite, vx, vy, p, row, col) ||
      (SpriteBit(sprite[row], col) && p == PixelIndex(vx, vy, row, col))
  {
    PixelIndexInverse(vx, vy, row, col);
    PixelIndexOnto(vx, vy, p);
  }

  /** Finishing a row is starting the next one. */
  lemma DrawnBeforeNextRow(sprite: seq<Byte>, vx: Byte, vy: Byte, row: nat, p: int)
    ensures DrawnBefore(sprite, vx, vy, p, row, 8) <==> DrawnBefore(sprite, vx, vy, p, row + 1, 0)
  {
  }

  /** Once every row has been handled, the handled pixels are exactly the covered ones. */
  lemma DrawnBeforeAll(sprite: seq<Byte>, vx: Byte, vy: Byte, p: int)
    ensures DrawnBefore(sprite, vx, vy, p, |sprite|, 0) <==> Covers(sprite, vx, vy, p)
  {
  }
  /** The framebuffer once the loops of DXYN stand at row `row`, column `col`. */
  ghost function PartlyDrawn(gfx: seq<Byte>, sprite: seq<Byte>, vx: Byte, vy: Byte, row: nat, col: nat): (r: seq<Byte>)
    ensures |r| == |gfx|
  {
    seq(|gfx|, p requires 0 <= p < |gfx| =>
      if DrawnBefore(sprite, vx, vy, p, row, col) then Toggle(gfx[p]) else gfx[p])
  }

  /** A pixel handled before row `row`, column `col` was on before the draw. */
  ghost predicate CollidesBefore(gfx: seq<Byte>, sprite: seq<Byte>, vx: Byte, vy: Byte, row: nat, col: nat)
  {
    exists p | 0 <= p < |gfx| :: DrawnBefore(sprite, vx, vy, p, row, col) && gfx[p] == 1
  }

  /** Before the first cell nothing is drawn and nothing has collided. */
  lemma PartlyDrawnStart(gfx: seq<Byte>, sprite: seq<Byte>, vx: Byte, vy: Byte)
    ensures PartlyDrawn(gfx, sprite, vx, vy, 0, 0) == gfx
    ensures !CollidesBefore(gfx, sprite, vx, vy, 0, 0)
  {
  }

  /** Handling cell (row, col) adds exactly its own pixel to the handled ones, when its bit
      is set; that pixel lies on the screen and had not been handled before. */
  lemma DrawnBeforeStep(sprite: seq<Byte>, vx: Byte, vy: Byte, row: nat, col: nat)
    requires row < |sprite| <= ScreenHeight && col < 8
    ensures var pos := PixelIndex(vx, vy, row, col);
      pos < PixelCount && !DrawnBefore(sprite, vx, vy, pos, row, col) &&
      forall p | 0 <= p < PixelCount ::
        DrawnBefore(sprite, vx, vy, p, row, col + 1) <==>
          DrawnBefore(sprite, vx, vy, p, row, col) || (SpriteBit(sprite[row], col) && p == pos)
  {
    PixelIndexInverse(vx, vy, row, col);
    forall p | 0 <= p < PixelCount
      ensures DrawnBefore(sprite, vx, vy, p, row, col + 1) <==>
        DrawnBefore(sprite, vx, vy, p, row, col) ||
        (SpriteBit(sprite[row], col) && p == PixelIndex(vx, vy, row, col))
    {
      DrawnBeforeNextColumn(sprite, vx, vy, row, col, p);
    }
  }

  /** Handling cell (row, col): if its bit is set, its pixel, still untouched, is toggled;
      otherwise nothing changes. */
  lemma PartlyDrawnNextColumn(gfx: seq<Byte>, sprite: seq<Byte>, vx: Byte, vy: Byte, row: nat, col: nat)
    requires |gfx| == PixelCount && row < |sprite| <= ScreenHeight && col < 8
    ensures var pos := PixelIndex(vx, vy, row, col);
      pos < PixelCount &&
      PartlyDrawn(gfx, sprite, vx, vy, row, col)[pos] == gfx[pos] &&
      PartlyDrawn(gfx, sprite, vx, vy, row, col + 1) ==
        (if SpriteBit(sprite[row], col)
         then PartlyDrawn(gfx, sprite, vx, vy, row, col)[pos := Toggle(gfx[pos])]
         else PartlyDrawn(gfx, sprite, vx, vy, row, col))
  {
    DrawnBeforeStep(sprite, vx, vy, row, col);
  }

  /** Handling cell (row, col) records a collision exactly when its bit is set and its pixel
      was on. */
  lemma CollidesBeforeNextColumn(gfx: seq<Byte>, sprite: seq<Byte>, vx: Byte, vy: Byte, row: nat, col: nat)
    requires |gfx| == PixelCount && row < |sprite| <= ScreenHeight && col < 8
    ensures var pos := PixelIndex(vx, vy, row, col);
      pos < PixelCount &&
      (CollidesBefore(gfx, sprite, vx, vy, row, col + 1) <==>
        CollidesBefore(gfx, sprite, vx, vy, row, col) || (SpriteBit(sprite[row], col) && gfx[pos] == 1))
  {
    var pos := PixelIndex(vx, vy, row, col);
    DrawnBeforeStep(sprite, vx, vy, row, col);
    if CollidesBefore(gfx, sprite, vx, vy, row, col + 1) {
      var p :| 0 <= p < |gfx| && DrawnBefore(sprite, vx, vy, p, row, col + 1) && gfx[p] == 1;
      assert DrawnBefore(sprite, vx, vy, p, row, col) || (SpriteBit(sprite[row], col) && p == pos);
    }
    if SpriteBit(sprite[row], col) && gfx[pos] == 1 {
      assert DrawnBefore(sprite, vx, vy, pos, row, col + 1);
    }
    if CollidesBefore(gfx, sprite, vx, vy, row, col) {
      var p :| 0 <= p < |gfx| && DrawnBefore(sprite, vx, vy, p, row, col) && gfx[p] == 1;
      assert DrawnBefore(sprite, vx, vy, p, row, col + 1);
    }
  }

  /** The end of a row is the start of the next one. */
  lemma PartlyDrawnNextRow(gfx: seq<Byte>, sprite: seq<Byte>, vx: Byte, vy: Byte, row: nat)
    ensures PartlyDrawn(gfx, sprite, vx, vy, row, 8) == PartlyDrawn(gfx, sprite, vx, vy, row + 1, 0)
    ensures CollidesBefore(gfx, sprite, vx, vy, row, 8) <==> CollidesBefore(gfx, sprite, vx, vy, row + 1, 0)
  {
    forall p | 0 <= p < |gfx|
      ensures DrawnBefore(sprite, vx, vy, p, row, 8) <==> DrawnBefore(sprite, vx, vy, p, row + 1, 0)
    {
      DrawnBeforeNextRow(sprite, vx, vy, row, p);
    }
  }

  /** After the last row the loops have produced exactly Drawn and Collides. */
  lemma PartlyDrawnAll(gfx: seq<Byte>, sprite: seq<Byte>, vx: Byte, vy: Byte)
    ensures PartlyDrawn(gfx, sprite, vx, vy, |sprite|, 0) == Drawn(gfx, sprite, vx, vy)
    ensures CollidesBefore(gfx, sprite, vx, vy, |sprite|, 0) <==> Collides(gfx, sprite, vx, vy)
  {
    forall p | 0 <= p < |gfx|
      ensures DrawnBefore(sprite, vx, vy, p, |sprite|, 0) <==> Covers(sprite, vx, vy, p)
    {
      DrawnBeforeAll(sprite, vx, vy, p);
    }
  }
}
