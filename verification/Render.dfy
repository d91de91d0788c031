/**
 Clipped drawing (libk/render.c): rows of an image, or of one colour, copied into a frame
 buffer at a position that may lie partly outside it.
 */
module Render {
  import opened Words

  // ---------------------------------------------------------------- clipping

  /** What is drawn along one axis: `len` cells from `start` on, taken from the image at `offset`. */
  datatype Axis = Nothing | Part(start: nat, offset: nat, len: nat)

  /** `CHECK_IMAGE_BOUNDS` along one axis, for a frame buffer of `extent` cells and an image of `size`
      cells at `pos`. */
  function Clip(extent: int, pos: int, size: int): Axis {
    if pos > extent || pos + size < 0 then Nothing
    else
      var offset := if pos < 0 then -pos else 0;
      var start := if pos < 0 then 0 else pos;
      var len := size - offset + if start + size > extent then extent - (start + size) else 0;
      if len <= 0 then Nothing else Part(start, offset, len)
  }

  predicate Draws(a: Axis, p: int) { a.Part? && a.start <= p < a.start + a.len }

  predicate Visible(extent: int, pos: int, size: int, p: int) { 0 <= p < extent && pos <= p < pos + size }

  /** What is drawn lies inside both the frame buffer and the image, and in the right place. */
  lemma ClipInside(extent: int, pos: int, size: int)
    requires extent >= 0
    ensures var a := Clip(extent, pos, size);
      a.Part? ==> a.start + a.len <= extent && a.offset + a.len <= size && a.start - a.offset == pos
    ensures forall p :: Draws(Clip(extent, pos, size), p) ==> Visible(extent, pos, size, p)
  {
  }

  /** Along one axis everything visible is drawn, unless the image both starts before the edge and is
      wider than the frame buffer: then the far end is cut twice. */
  lemma ClipExact(extent: int, pos: int, size: int)
    requires extent >= 0
    ensures pos >= 0 || size <= extent ==>
      forall p :: Draws(Clip(extent, pos, size), p) <==> Visible(extent, pos, size, p)
    ensures pos < 0 && size > extent ==>
      forall p :: Draws(Clip(extent, pos, size), p) <==> 0 <= p < extent + pos
  {
  }

  /** Some cell at all is visible. */
  predicate Overlaps(extent: int, pos: int, size: int) {
    size > 0 && extent > 0 && pos < extent && pos + size > 0
  }

  lemma OverlapWitness(extent: int, pos: int, size: int) returns (p: int)
    requires Overlaps(extent, pos, size)
    ensures Visible(extent, pos, size, p)
    ensures pos < 0 && size > extent ==> !Draws(Clip(extent, pos, size), p)
  {
    p := if pos < 0 then (if extent < pos + size then extent else pos + size) - 1 else pos;
  }

  // ------------------------------------------------------------------ screen

  /** An image or rectangle of `w` by `h` at (`x`, `y`). */
  datatype Placement = Placement(x: int, y: int, w: int, h: int)

  predicate Drawn(width: int, height: int, r: Placement, px: int, py: int) {
    && Clip(width, r.x, r.w).Part? && Clip(height, r.y, r.h).Part?
    && Draws(Clip(width, r.x, r.w), px) && Draws(Clip(height, r.y, r.h), py)
  }

  predicate OnScreen(width: int, height: int, r: Placement, px: int, py: int) {
    Visible(width, r.x, r.w, px) && Visible(height, r.y, r.h, py)
  }

  /** The visible part is drawn completely exactly if no axis is cut twice, or nothing is visible. */
  lemma DrawnExactly(width: int, height: int, r: Placement)
    requires width >= 0 && height >= 0
    ensures (forall px, py :: Drawn(width, height, r, px, py) <==> OnScreen(width, height, r, px, py))
      <==> (|| ((r.x >= 0 || r.w <= width) && (r.y >= 0 || r.h <= height))
            || !Overlaps(width, r.x, r.w) || !Overlaps(height, r.y, r.h))
    ensures forall px, py :: Drawn(width, height, r, px, py) ==> OnScreen(width, height, r, px, py)
  {
    ClipInside(width, r.x, r.w);
    ClipInside(height, r.y, r.h);
    ClipExact(width, r.x, r.w);
    ClipExact(height, r.y, r.h);
    if Overlaps(width, r.x, r.w) && Overlaps(height, r.y, r.h) {
      var px := OverlapWitness(width, r.x, r.w);
      var py := OverlapWitness(height, r.y, r.h);
      assert OnScreen(width, height, r, px, py);
    }
  }

  /** One column too wide and one to the left: the last column is visible and not drawn. */
  lemma WideImageIsCutTwice(width: int, height: int, r: Placement)
    requires width > 0 && height > 0 && r == Placement(-1, 0, width + 1, height)
    ensures OnScreen(width, height, r, width - 1, 0) && !Drawn(width, height, r, width - 1, 0)
  {
    ClipExact(width, r.x, r.w);
  }

  /** The cell of column `px` in row `py`. */
  function Cell(px: int, py: int, width: int): int { py * width + px }

  lemma CellBounds(px: int, py: int, width: int, height: int)
    requires 0 <= px < width && 0 <= py < height
    ensures 0 <= Cell(px, py, width) < width * height
  {
    MulLe(py + 1, height, width);
    MulLe(0, py, width);
  }

  lemma MulLe(a: int, b: int, c: int)
    requires a <= b && c >= 0
    ensures a * c <= b * c
  {
  }

  /** Cells of different rows are apart. */
  lemma RowsApart(px: int, py: int, row: int, width: int)
    requires 0 <= px < width && py != row
    ensures Cell(px, py, width) < Cell(0, row, width) || Cell(px, py, width) >= Cell(0, row + 1, width)
  {
    if py < row {
      MulLe(py + 1, row, width);
    } else {
      MulLe(row + 1, py, width);
    }
  }

  /** `mcpy32` of one row. */
  method CopyRow(dst: array<u32>, d: nat, src: seq<u32>, s: nat, count: nat)
    requires d + count <= dst.Length && s + count <= |src|
    modifies dst
    ensures forall i :: 0 <= i < dst.Length ==> dst[i] == if d <= i < d + count then src[s + (i - d)] else old(dst[i])
  {
    for k := 0 to count
      invariant forall i :: 0 <= i < dst.Length ==> dst[i] == if d <= i < d + k then src[s + (i - d)] else old(dst[i])
    {
      dst[d + k] := src[s + k];
    }
  }

  /** `mset32` of one row. */
  method FillRow(dst: array<u32>, d: nat, color: u32, count: nat)
    requires d + count <= dst.Length
    modifies dst
    ensures forall i :: 0 <= i < dst.Length ==> dst[i] == if d <= i < d + count then color else old(dst[i])
  {
    for k := 0 to count
      invariant forall i :: 0 <= i < dst.Length ==> dst[i] == if d <= i < d + k then color else old(dst[i])
    {
      dst[d + k] := color;
    }
  }

  /** C arithmetic on 32-bit integers does not overflow for this placement. */
  ghost predicate NoOverflow(width: int, height: int, r: Placement) {
    var lo, hi := -0x8000_0000, 0x7FFF_FFFF;
    && 0 <= width <= hi && 0 <= height <= hi && 0 <= width * height <= hi
    && lo < r.x <= hi && lo < r.y <= hi && lo <= r.w <= hi && lo <= r.h <= hi
    && lo <= r.x + r.w <= hi && lo <= r.y + r.h <= hi && lo <= r.w * r.h <= hi
  }

  /** Row `row` of the frame buffer, cells `start` to `start + len`, in terms of cells. */
  lemma InRow(px: int, py: int, width: int, row: int, start: int, len: int)
    requires 0 <= px < width && 0 <= start && start + len <= width
    ensures Cell(start, row, width) <= Cell(px, py, width) < Cell(start, row, width) + len
      <==> py == row && start <= px < start + len
  {
    if py != row {
      RowsApart(px, py, row, width);
      assert Cell(0, row + 1, width) == Cell(0, row, width) + width;
    }
  }

  lemma NextRow(px: int, py: int, width: int)
    ensures Cell(px, py + 1, width) == Cell(px, py, width) + width
  {
  }

  /** The pixel that an image at `r` puts in column `px` of row `py`. */
  ghost function Texel(image: seq<u32>, r: Placement, px: int, py: int): u32 {
    var c := Cell(px - r.x, py - r.y, r.w);
    if 0 <= c < |image| then image[c] else 0
  }

  /** Wherever something is drawn, that pixel is one of the image. */
  lemma TexelInImage(width: int, height: int, image: seq<u32>, r: Placement, px: int, py: int)
    requires width >= 0 && height >= 0 && Drawn(width, height, r, px, py) && |image| >= r.w * r.h
    ensures var c := (py - r.y) * r.w + (px - r.x); 0 <= c < |image| && Texel(image, r, px, py) == image[c]
  {
    ClipInside(width, r.x, r.w);
    ClipInside(height, r.y, r.h);
    CellBounds(px - r.x, py - r.y, r.w, r.h);
  }

  lemma CellShift(px: int, start: int, row: int, width: int)
    ensures Cell(px, row, width) == Cell(start, row, width) + (px - start)
  {
  }

  lemma RowTexel(width: int, height: int, image: seq<u32>, r: Placement, px: int, i: nat)
    requires width >= 0 && height >= 0 && |image| >= r.w * r.h
    requires var ax, ay := Clip(width, r.x, r.w), Clip(height, r.y, r.h);
      ax.Part? && ay.Part? && i < ay.len && Draws(ax, px)
    ensures var ax, ay := Clip(width, r.x, r.w), Clip(height, r.y, r.h);
      var c := Cell(ax.offset, ay.offset + i, r.w) + (px - ax.start);
      0 <= c < |image| && Texel(image, r, px, ay.start + i) == image[c]
  {
    var ax, ay := Clip(width, r.x, r.w), Clip(height, r.y, r.h);
    ClipInside(width, r.x, r.w);
    ClipInside(height, r.y, r.h);
    TexelInImage(width, height, image, r, px, ay.start + i);
    CellShift(px - r.x, ax.offset, ay.offset + i, r.w);
  }

  /** Which cell of the image a copied row puts at (`px`, `py`), if any. */
  lemma RowSource(width: int, height: int, image: seq<u32>, r: Placement, px: int, py: int, i: nat, v: int, m: int)
    requires 0 <= px < width && 0 <= py < height && |image| >= r.w * r.h
    requires var ax, ay := Clip(width, r.x, r.w), Clip(height, r.y, r.h);
      && ax.Part? && ay.Part? && i < ay.len
      && v == Cell(ax.start, ay.start + i, width) && m == Cell(ax.offset, ay.offset + i, r.w)
    ensures var ax, ay := Clip(width, r.x, r.w), Clip(height, r.y, r.h);
      var c := Cell(px, py, width);
      if py == ay.start + i && Draws(ax, px)
      then v <= c < v + ax.len && 0 <= m + (c - v) < |image| && Texel(image, r, px, py) == image[m + (c - v)]
      else !(v <= c < v + ax.len)
  {
    var ax, ay := Clip(width, r.x, r.w), Clip(height, r.y, r.h);
    ClipInside(width, r.x, r.w);
    InRow(px, py, width, ay.start + i, ax.start, ax.len);
    if py == ay.start + i && Draws(ax, px) {
      RowTexel(width, height, image, r, px, i);
      CellShift(px, ax.start, py, width);
    }
  }

  class FrameBuffer {
    const width: int
    const height: int
    const data: array<u32>

    ghost predicate Valid() { width >= 0 && height >= 0 && data.Length == width * height }

    constructor (width: int, height: int, data: array<u32>)
      requires width >= 0 && height >= 0 && data.Length == width * height
      ensures Valid() && this.width == width && this.height == height && this.data == data
    {
      this.width, this.height, this.data := width, height, data;
    }

    /** The pixel in column `px` of row `py`. */
    ghost function Pixel(px: int, py: int): u32
      requires Valid() && 0 <= px < width && 0 <= py < height
      reads data
    {
      CellBounds(px, py, width, height);
      data[Cell(px, py, width)]
    }

    /** Rows follow each other from top to bottom, pixels in them from left to right. */
    lemma PixelIs(px: int, py: int)
      requires Valid() && 0 <= px < width && 0 <= py < height
      ensures 0 <= py * width + px < data.Length && Pixel(px, py) == data[py * width + px]
    {
      CellBounds(px, py, width, height);
    }

    /** `render_rect`. */
    method Rect(r: Placement, color: u32)
      requires Valid() && NoOverflow(width, height, r)
      modifies data
      ensures forall px, py :: 0 <= px < width && 0 <= py < height ==>
        Pixel(px, py) == if Drawn(width, height, r, px, py) then color else old(Pixel(px, py))
    {
      var ax, ay := Clip(width, r.x, r.w), Clip(height, r.y, r.h);
      if ax == Nothing || ay == Nothing {
        return;
      }
      ClipInside(width, r.x, r.w);
      ClipInside(height, r.y, r.h);
      var v := Cell(ax.start, ay.start, width);
      for i := 0 to ay.len
        invariant v == Cell(ax.start, ay.start + i, width)
        invariant forall px, py :: 0 <= px < width && 0 <= py < height ==>
          Pixel(px, py) == if Draws(ax, px) && ay.start <= py < ay.start + i then color else old(Pixel(px, py))
      {
        var row := ay.start + i;
        CellBounds(ax.start, row, width, height);
        CellBounds(ax.start + ax.len - 1, row, width, height);
        label before:
        FillRow(data, v, color, ax.len);
        forall px, py | 0 <= px < width && 0 <= py < height
          ensures Pixel(px, py) == if py == row && Draws(ax, px) then color else old@before(Pixel(px, py))
        {
          CellBounds(px, py, width, height);
          InRow(px, py, width, row, ax.start, ax.len);
        }
        NextRow(ax.start, row, width);
        v := v + width;
      }
    }

    /** Row `i` of the visible part, whose cells start at `v` in the frame buffer and `m` in the image. */
    method PutRow(image: seq<u32>, r: Placement, ax: Axis, ay: Axis, i: nat, v: nat, m: nat)
      requires Valid() && ax == Clip(width, r.x, r.w) && ay == Clip(height, r.y, r.h) && ax.Part? && ay.Part?
      requires |image| >= r.w * r.h && i < ay.len
      requires v == Cell(ax.start, ay.start + i, width) && m == Cell(ax.offset, ay.offset + i, r.w)
      modifies data
      ensures forall px, py :: 0 <= px < width && 0 <= py < height ==>
        Pixel(px, py) == if py == ay.start + i && Draws(ax, px) then Texel(image, r, px, py) else old(Pixel(px, py))
    {
      var row := ay.start + i;
      ClipInside(width, r.x, r.w);
      ClipInside(height, r.y, r.h);
      CellBounds(ax.start + ax.len - 1, row, width, height);
      CellBounds(ax.offset + ax.len - 1, ay.offset + i, r.w, r.h);
      CopyRow(data, v, image, m, ax.len);
      forall px, py | 0 <= px < width && 0 <= py < height
        ensures Pixel(px, py) == if py == row && Draws(ax, px) then Texel(image, r, px, py) else old(Pixel(px, py))
      {
        CellBounds(px, py, width, height);
        RowSource(width, height, image, r, px, py, i, v, m);
      }
    }

    /** `render_put_image` of an image whose pixels are `image`, row by row. */
    method PutImage(image: seq<u32>, r: Placement)
      requires Valid() && NoOverflow(width, height, r)
      requires r.w > 0 && r.h > 0 ==> |image| >= r.w * r.h
      modifies data
      ensures forall px, py :: 0 <= px < width && 0 <= py < height ==>
        Pixel(px, py) == if Drawn(width, height, r, px, py) then Texel(image, r, px, py) else old(Pixel(px, py))
    {
      var ax, ay := Clip(width, r.x, r.w), Clip(height, r.y, r.h);
      if ax == Nothing || ay == Nothing {
        return;
      }
      ClipInside(width, r.x, r.w);
      ClipInside(height, r.y, r.h);
      var v := Cell(ax.start, ay.start, width);
      var m := Cell(ax.offset, ay.offset, r.w);
      for i := 0 to ay.len
        invariant v == Cell(ax.start, ay.start + i, width) && m == Cell(ax.offset, ay.offset + i, r.w)
        invariant forall px, py :: 0 <= px < width && 0 <= py < height ==>
          Pixel(px, py) ==
          if Draws(ax, px) && ay.start <= py < ay.start + i then Texel(image, r, px, py) else old(Pixel(px, py))
      {
        CellBounds(ax.start, ay.start + i, width, height);
        CellBounds(ax.offset, ay.offset + i, r.w, r.h);
        PutRow(image, r, ax, ay, i, v, m);
        NextRow(ax.start, ay.start + i, width);
        NextRow(ax.offset, ay.offset + i, r.w);
        v, m := v + width, m + r.w;
      }
    }
  }
}
