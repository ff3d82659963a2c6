/** The framebuffer as a flat sequence of RGB565 cells, row after row, each
    row `width` cells long: point `(x, y)` is cell `y * width + x`.  Every
    drawing routine writes a rectangle of cells from a row-major source of
    pixels; `Rect` is that write as a function of the old contents, and
    `Progressed` is the state part way through, in the order the routine's
    loops visit the cells. */
module Raster {

  /** A rectangle of `w` by `h` points at `(x, y)` on a framebuffer with
      rows of `width` cells. */
  datatype Area = Area(width: nat, x: nat, y: nat, w: nat, h: nat)
  {
    /** The rectangle does not run past the right end of a row. */
    predicate Fits()
    {
      width > 0 && x + w <= width
    }

    /** Cell index of point `(x + i, y + j)`. */
    function Index(i: nat, j: nat): nat
    {
      Offset(width, x + i, y + j)
    }

    predicate Contains(k: nat)
      requires width > 0
    {
      x <= k % width < x + w && y <= k / width < y + h
    }
  }

  /** The cell of point `(px, py)` on rows of `width` cells. */
  function Offset(width: nat, px: nat, py: nat): nat
  {
    py * width + px
  }

  /** Cell `row * width + col` lies in row `row`, column `col`. */
  lemma CellCoords(row: nat, col: nat, width: nat)
    requires col < width
    ensures (row * width + col) / width == row
    ensures (row * width + col) % width == col
  {
    var k := row * width + col;
    var q, r := k / width, k % width;
    assert k == q * width + r;
    assert (q - row) * width == col - r;
    MultipleBound(q - row, width);
  }

  /** A non-zero multiple of `width` is at least `width` away from zero. */
  lemma MultipleBound(d: int, width: int)
    requires width >= 0
    ensures d == 0 ==> d * width == 0
    ensures d >= 0 ==> d * width >= 0
    ensures d >= 1 ==> d * width >= width
    ensures d <= -1 ==> d * width <= -width
  {
    assert d * width - width == (d - 1) * width;
    assert d * width + width == (d + 1) * width;
  }

  /** A row-major position `i + j * w` inside a `w` by `h` source. */
  lemma SourceIndexBound(i: nat, j: nat, w: nat, h: nat)
    requires i < w && j < h
    ensures i + j * w < w * h
  {
    assert j * w <= (h - 1) * w;
  }

  /** Every point of a rectangle that fits its rows and ends above row
      `len / width` has a cell below `len`. */
  lemma IndexInside(a: Area, i: nat, j: nat, len: nat)
    requires a.Fits() && i < a.w && j < a.h && (a.y + a.h) * a.width <= len
    ensures a.Index(i, j) < len
  {
    var rows := a.h - j - 1;
    assert (a.y + a.h) * a.width == (a.y + j) * a.width + a.width + rows * a.width;
    assert rows * a.width >= 0;
  }

  /** The source pixel for cell `k` of the rectangle. */
  function SourcePixel<T>(a: Area, k: nat, src: seq<T>): T
    requires a.width > 0 && a.Contains(k) && |src| == a.w * a.h
  {
    var i, j := k % a.width - a.x, k / a.width - a.y;
    SourceIndexBound(i, j, a.w, a.h);
    src[i + j * a.w]
  }

  /** The rectangle's cells take the source pixels, every other cell stays. */
  function Rect<T>(before: seq<T>, a: Area, src: seq<T>): (after: seq<T>)
    requires a.width > 0 && |src| == a.w * a.h
    ensures |after| == |before|
    ensures forall k :: 0 <= k < |before| ==>
              after[k] == if a.Contains(k) then SourcePixel(a, k, src) else before[k]
  {
    seq(|before|, k requires 0 <= k < |before| =>
          if a.Contains(k) then SourcePixel(a, k, src) else before[k])
  }

  /** Point `(x + i, y + j)` shows source pixel `i + j * w`. */
  lemma RectPoint<T>(before: seq<T>, a: Area, src: seq<T>, i: nat, j: nat)
    requires a.Fits() && |src| == a.w * a.h
    requires i < a.w && j < a.h && a.Index(i, j) < |before|
    ensures i + j * a.w < |src|
    ensures Rect(before, a, src)[a.Index(i, j)] == src[i + j * a.w]
  {
    CellCoords(a.y + j, a.x + i, a.width);
    SourceIndexBound(i, j, a.w, a.h);
  }

  /** A point outside the rectangle keeps its colour. */
  lemma RectFrame<T>(before: seq<T>, a: Area, src: seq<T>, px: nat, py: nat)
    requires a.Fits() && |src| == a.w * a.h
    requires px < a.width && py * a.width + px < |before|
    requires !(a.x <= px < a.x + a.w && a.y <= py < a.y + a.h)
    ensures Rect(before, a, src)[py * a.width + px] == before[py * a.width + px]
  {
    CellCoords(py, px, a.width);
  }

  /** The position of cell `k` in the order the loops visit the rectangle:
      row after row, or column after column. */
  function Rank(a: Area, k: nat, colMajor: bool): nat
    requires a.width > 0 && a.Contains(k)
  {
    var i, j := k % a.width - a.x, k / a.width - a.y;
    if colMajor then i * a.h + j else j * a.w + i
  }

  /** A rank names one point of the rectangle. */
  lemma RankUnique(i: nat, j: nat, i': nat, j': nat, w: nat, h: nat, colMajor: bool)
    requires i < w && i' < w && j < h && j' < h
    requires if colMajor then i * h + j == i' * h + j' else j * w + i == j' * w + i'
    ensures i == i' && j == j'
  {
    if colMajor {
      CellCoords(i, j, h);
      CellCoords(i', j', h);
    } else {
      CellCoords(j, i, w);
      CellCoords(j', i', w);
    }
  }

  /** Every rank is below `w * h`. */
  lemma RankBound(a: Area, k: nat, colMajor: bool)
    requires a.width > 0 && a.Contains(k)
    ensures Rank(a, k, colMajor) < a.w * a.h
  {
    var i, j := k % a.width - a.x, k / a.width - a.y;
    if colMajor {
      SourceIndexBound(j, i, a.h, a.w);
    } else {
      SourceIndexBound(i, j, a.w, a.h);
    }
  }

  /** The first `p` cells in visiting order have their source pixel, every
      other cell its old colour. */
  ghost predicate Progressed<T>(cur: seq<T>, before: seq<T>, a: Area, src: seq<T>, p: nat, colMajor: bool)
    requires a.width > 0 && |src| == a.w * a.h
  {
    |cur| == |before|
    && forall k :: 0 <= k < |cur| ==>
         cur[k] == if a.Contains(k) && Rank(a, k, colMajor) < p then SourcePixel(a, k, src) else before[k]
  }

  lemma ProgressStart<T>(before: seq<T>, a: Area, src: seq<T>, colMajor: bool)
    requires a.width > 0 && |src| == a.w * a.h
    ensures Progressed(before, before, a, src, 0, colMajor)
  {
  }

  lemma ProgressDone<T>(cur: seq<T>, before: seq<T>, a: Area, src: seq<T>, colMajor: bool)
    requires a.width > 0 && |src| == a.w * a.h
    requires Progressed(cur, before, a, src, a.w * a.h, colMajor)
    ensures cur == Rect(before, a, src)
  {
    forall k | 0 <= k < |cur| && a.Contains(k) ensures Rank(a, k, colMajor) < a.w * a.h {
      RankBound(a, k, colMajor);
    }
  }

  /** A cell of the rectangle with the rank of point `(x + i, y + j)` is
      that point's cell. */
  lemma RankPins(a: Area, k: nat, colMajor: bool, i: nat, j: nat)
    requires a.Fits() && a.Contains(k) && i < a.w && j < a.h
    ensures Rank(a, k, colMajor) == (if colMajor then i * a.h + j else j * a.w + i) ==> k == a.Index(i, j)
  {
    var ci, cj := k % a.width - a.x, k / a.width - a.y;
    if Rank(a, k, colMajor) == (if colMajor then i * a.h + j else j * a.w + i) {
      RankUnique(ci, cj, i, j, a.w, a.h, colMajor);
      assert k == (k / a.width) * a.width + k % a.width;
    }
  }

  /** One cell after writing the cell of rank `p`. */
  lemma ProgressCell<T>(cur: seq<T>, before: seq<T>, a: Area, src: seq<T>, p: nat, colMajor: bool,
                     i: nat, j: nat, k: nat)
    requires a.Fits() && |src| == a.w * a.h
    requires Progressed(cur, before, a, src, p, colMajor)
    requires i < a.w && j < a.h && a.Index(i, j) < |cur|
    requires p == if colMajor then i * a.h + j else j * a.w + i
    requires i + j * a.w < |src| && k < |cur|
    ensures cur[a.Index(i, j) := src[i + j * a.w]][k]
            == if a.Contains(k) && Rank(a, k, colMajor) < p + 1 then SourcePixel(a, k, src) else before[k]
  {
    var idx := a.Index(i, j);
    if k == idx {
      CellCoords(a.y + j, a.x + i, a.width);
    } else if a.Contains(k) {
      RankPins(a, k, colMajor, i, j);
    }
  }

  /** Writing point `(x + i, y + j)`, the cell of rank `p`, advances the
      progress by one. */
  lemma ProgressStep<T>(cur: seq<T>, before: seq<T>, a: Area, src: seq<T>, p: nat, colMajor: bool,
                     i: nat, j: nat)
    requires a.Fits() && |src| == a.w * a.h
    requires Progressed(cur, before, a, src, p, colMajor)
    requires i < a.w && j < a.h && a.Index(i, j) < |cur|
    requires p == if colMajor then i * a.h + j else j * a.w + i
    ensures i + j * a.w < |src|
    ensures Progressed(cur[a.Index(i, j) := src[i + j * a.w]], before, a, src, p + 1, colMajor)
  {
    SourceIndexBound(i, j, a.w, a.h);
    var cur' := cur[a.Index(i, j) := src[i + j * a.w]];
    forall k | 0 <= k < |cur'|
      ensures cur'[k] == if a.Contains(k) && Rank(a, k, colMajor) < p + 1 then SourcePixel(a, k, src) else before[k]
    {
      ProgressCell(cur, before, a, src, p, colMajor, i, j, k);
    }
  }

  /** `r < w * h` leaves room for `r / h` below `w` and for `r / w` below
      `h`. */
  lemma QuotientBelow(r: nat, w: nat, h: nat)
    requires r < w * h
    ensures h > 0 && r / h < w && r % w < w && r / w < h
    ensures r == (r / h) * h + r % h && r % h < h
    ensures r == (r / w) * w + r % w
  {
    DivBelow(r, w, h);
    assert w * h == h * w;
    DivBelow(r, h, w);
  }

  /** Division by one side of a `w * h` count leaves a quotient below the
      other side. */
  lemma DivBelow(r: nat, w: nat, h: nat)
    requires r < w * h
    ensures h > 0 && r / h < w && r == (r / h) * h + r % h && r % h < h
  {
    MultipleBound(w, h);
    var q := r / h;
    assert r == q * h + r % h;
    assert (q - w) * h == q * h - w * h;
    MultipleBound(q - w, h);
  }

  /** The point of the rectangle visited at position `r`. */
  function RankPoint(a: Area, r: nat, colMajor: bool): (pt: (nat, nat))
    requires r < a.w * a.h
    ensures pt.0 < a.w && pt.1 < a.h
    ensures r == if colMajor then pt.0 * a.h + pt.1 else pt.1 * a.w + pt.0
  {
    QuotientBelow(r, a.w, a.h);
    if colMajor then (r / a.h, r % a.h) else (r % a.w, r / a.w)
  }

  /** The point the loops visit after `pt`: down the column (or along the
      row), and on to the top of the next column (start of the next row)
      after the last one. */
  function Advance(a: Area, pt: (nat, nat), colMajor: bool): (nat, nat)
  {
    if colMajor then (if pt.1 + 1 < a.h then (pt.0, pt.1 + 1) else (pt.0 + 1, 0))
    else (if pt.0 + 1 < a.w then (pt.0 + 1, pt.1) else (0, pt.1 + 1))
  }

  /** The point visited at step `r`, counting from `(0, 0)`. */
  function Visit(a: Area, r: nat, colMajor: bool): (nat, nat)
  {
    if r == 0 then (0, 0) else Advance(a, Visit(a, r - 1, colMajor), colMajor)
  }

  /** One step from the point of rank `r - 1` reaches the point of rank `r`. */
  lemma AdvanceRank(a: Area, r: nat, colMajor: bool)
    requires 0 < r < a.w * a.h
    ensures Advance(a, RankPoint(a, r - 1, colMajor), colMajor) == RankPoint(a, r, colMajor)
  {
    var pt := RankPoint(a, r - 1, colMajor);
    QuotientBelow(r, a.w, a.h);
    if colMajor {
      if pt.1 + 1 < a.h {
        CellCoords(pt.0, pt.1 + 1, a.h);
      } else {
        assert r == (pt.0 + 1) * a.h + 0;
        CellCoords(pt.0 + 1, 0, a.h);
      }
    } else {
      if pt.0 + 1 < a.w {
        CellCoords(pt.1, pt.0 + 1, a.w);
      } else {
        assert r == (pt.1 + 1) * a.w + 0;
        CellCoords(pt.1 + 1, 0, a.w);
      }
    }
  }

  /** Stepping from point to point visits the points in rank order. */
  lemma {:induction false} VisitIsRank(a: Area, r: nat, colMajor: bool)
    requires r < a.w * a.h
    ensures Visit(a, r, colMajor) == RankPoint(a, r, colMajor)
    decreases r
  {
    if r > 0 {
      VisitIsRank(a, r - 1, colMajor);
      AdvanceRank(a, r, colMajor);
    }
  }

  /** A rectangle whose rows all lie inside a buffer of `len` cells. */
  predicate Inside(a: Area, len: nat)
  {
    a.Fits() && (a.y + a.h) * a.width <= len
  }

  /** The buffer once the first `p` points in visiting order are written. */
  function Painted<T>(before: seq<T>, a: Area, src: seq<T>, p: nat, colMajor: bool): (cur: seq<T>)
    requires Inside(a, |before|) && |src| == a.w * a.h && p <= a.w * a.h
    ensures |cur| == |before|
    decreases p
  {
    if p == 0 then before
    else
      VisitIsRank(a, p - 1, colMajor);
      var pt := Visit(a, p - 1, colMajor);
      IndexInside(a, pt.0, pt.1, |before|);
      SourceIndexBound(pt.0, pt.1, a.w, a.h);
      Painted(before, a, src, p - 1, colMajor)[a.Index(pt.0, pt.1) := src[pt.0 + pt.1 * a.w]]
  }

  /** Nothing is written yet at the start. */
  lemma PaintStart<T>(before: seq<T>, a: Area, src: seq<T>, colMajor: bool)
    requires Inside(a, |before|) && |src| == a.w * a.h
    ensures Painted(before, a, src, 0, colMajor) == before
  {
  }

  /** Writing the source pixel of point `(x + i, y + j)`, the point of rank
      `p`, gives the buffer with `p + 1` points written. */
  lemma PaintStep<T>(before: seq<T>, a: Area, src: seq<T>, p: nat, colMajor: bool, i: nat, j: nat)
    requires Inside(a, |before|) && |src| == a.w * a.h
    requires i < a.w && j < a.h
    requires p == if colMajor then i * a.h + j else j * a.w + i
    ensures p < a.w * a.h && a.Index(i, j) < |before| && i + j * a.w < |src|
    ensures Painted(before, a, src, p, colMajor)[a.Index(i, j) := src[i + j * a.w]]
            == Painted(before, a, src, p + 1, colMajor)
  {
    IndexInside(a, i, j, |before|);
    SourceIndexBound(i, j, a.w, a.h);
    RankBoundAt(i, j, a.w, a.h, colMajor);
    VisitIsRank(a, p, colMajor);
    var pt := RankPoint(a, p, colMajor);
    RankUnique(pt.0, pt.1, i, j, a.w, a.h, colMajor);
  }

  /** The rank of a point of the rectangle is below `w * h`. */
  lemma RankBoundAt(i: nat, j: nat, w: nat, h: nat, colMajor: bool)
    requires i < w && j < h
    ensures (if colMajor then i * h + j else j * w + i) < w * h
  {
    if colMajor {
      SourceIndexBound(j, i, h, w);
    } else {
      SourceIndexBound(i, j, w, h);
    }
  }

  /** The recursive `Painted` has made the progress `Progressed` describes. */
  lemma {:induction false} PaintedProgressed<T>(before: seq<T>, a: Area, src: seq<T>, p: nat, colMajor: bool)
    requires Inside(a, |before|) && |src| == a.w * a.h && p <= a.w * a.h
    ensures Progressed(Painted(before, a, src, p, colMajor), before, a, src, p, colMajor)
    decreases p
  {
    if p > 0 {
      PaintedProgressed(before, a, src, p - 1, colMajor);
      VisitIsRank(a, p - 1, colMajor);
      var pt := RankPoint(a, p - 1, colMajor);
      IndexInside(a, pt.0, pt.1, |before|);
      ProgressStep(Painted(before, a, src, p - 1, colMajor), before, a, src, p - 1, colMajor, pt.0, pt.1);
    }
  }

  /** Once every point of the rectangle is written the buffer is `Rect`. */
  lemma PaintDone<T>(before: seq<T>, a: Area, src: seq<T>, colMajor: bool)
    requires Inside(a, |before|) && |src| == a.w * a.h
    ensures Painted(before, a, src, a.w * a.h, colMajor) == Rect(before, a, src)
  {
    PaintedProgressed(before, a, src, a.w * a.h, colMajor);
    ProgressDone(Painted(before, a, src, a.w * a.h, colMajor), before, a, src, colMajor);
  }
}
