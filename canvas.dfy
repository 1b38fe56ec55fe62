/** The drawing surface the extractor paints on: a bitmap of colours with the
    two canvas operations it uses, clearing and filling an axis-aligned
    rectangle (SkiaSharp's `SKCanvas.Clear` and `SKCanvas.DrawRect` with the
    fill style and anti-aliasing off). */
module Canvas {
  import opened NesPalette

  /** Pixel (y, x) lies in the rectangle with top-left (top, left) and the
      given height and width. */
  predicate InRect(y: int, x: int, top: int, left: int, h: int, w: int)
  {
    top <= y < top + h && left <= x < left + w
  }

  /** `Clear`: every pixel becomes `c`. */
  method Clear(bmp: array2<Color>, c: Color)
    modifies bmp
    ensures forall y, x :: 0 <= y < bmp.Length0 && 0 <= x < bmp.Length1 ==> bmp[y, x] == c
  {
    for y := 0 to bmp.Length0
      invariant forall py, px :: 0 <= py < y && 0 <= px < bmp.Length1 ==> bmp[py, px] == c
    {
      for x := 0 to bmp.Length1
        invariant forall py, px :: 0 <= py < y && 0 <= px < bmp.Length1 ==> bmp[py, px] == c
        invariant forall px :: 0 <= px < x ==> bmp[y, px] == c
      {
        bmp[y, x] := c;
      }
    }
  }

  /** `DrawRect` with the fill style: the pixels of the rectangle become `c`,
      every other pixel is unchanged. The rectangle lies inside the bitmap. */
  method FillRect(bmp: array2<Color>, left: nat, top: nat, w: nat, h: nat, c: Color)
    requires top + h <= bmp.Length0 && left + w <= bmp.Length1
    modifies bmp
    ensures forall y, x :: 0 <= y < bmp.Length0 && 0 <= x < bmp.Length1 ==>
      bmp[y, x] == if InRect(y, x, top, left, h, w) then c else old(bmp[y, x])
  {
    for y := top to top + h
      invariant forall py, px :: 0 <= py < bmp.Length0 && 0 <= px < bmp.Length1 ==>
        bmp[py, px] == if InRect(py, px, top, left, y - top, w) then c else old(bmp[py, px])
    {
      for x := left to left + w
        invariant forall py, px :: 0 <= py < bmp.Length0 && 0 <= px < bmp.Length1 ==>
          bmp[py, px] == if InRect(py, px, top, left, y - top, w) || (py == y && left <= px < x) then c else old(bmp[py, px])
      {
        bmp[y, x] := c;
      }
    }
  }

  /** A value in the k-th block of `size` consecutive values has quotient k. */
  lemma DivInBlock(v: int, k: int, size: int)
    requires size > 0 && k * size <= v < k * size + size
    ensures v / size == k && v % size == v - k * size
  {
    var q, r := v / size, v % size;
    assert v == q * size + r && 0 <= r < size;
    if q < k {
      MulMonotone(q + 1, k, size);
    } else if q > k {
      MulMonotone(k + 1, q, size);
    }
  }

  lemma MulMonotone(a: int, b: int, c: int)
    requires a <= b && c >= 0
    ensures a * c <= b * c
  {
    assert b * c - a * c == (b - a) * c;
  }
}
