/**
 * The grid layout of the landing page: the breakpoint that picks the row
 * count and padding, the uniform tile width, tile heights from the images'
 * aspect ratios, rows that wrap every `imgsPerRow` tiles, and the vertical
 * centring of the whole grid. The functions here are the specification that
 * `calculateLayout` and the passes of `draw` are proved against.
 */
module Layout {
  import opened Geometry

  const Breakpoint: real := 860.0
  const DesktopRow: nat := 12
  const MobileRow: nat := 4
  const PaddingDesktop: real := 20.0
  const PaddingMobile: real := 10.0

  /** `imgsPerRow` as chosen for a window width. */
  function PerRow(windowWidth: real): (k: nat)
    ensures k >= 1
  {
    if windowWidth < Breakpoint then MobileRow else DesktopRow
  }

  /** `padding` as chosen for a window width. */
  function Padding(windowWidth: real): (p: real)
    ensures p > 0.0
  {
    if windowWidth < Breakpoint then PaddingMobile else PaddingDesktop
  }

  /** The width every tile gets, which is also the ramp's `maxRes`. */
  function TileWidth(windowWidth: real): real
  {
    (windowWidth - Padding(windowWidth) * (PerRow(windowWidth) + 1) as real) / PerRow(windowWidth) as real
  }

  /** Every loaded image has a positive width and height. */
  predicate ValidImages(imgs: seq<Image>)
  {
    forall i :: 0 <= i < |imgs| ==> imgs[i].width > 0.0 && imgs[i].height > 0.0
  }

  /** The height of a tile of the given width showing `img`. */
  function TileHeight(tileWidth: real, img: Image): real
    requires img.width > 0.0 && img.height > 0.0
  {
    tileWidth / (img.width / img.height)
  }

  /** The tile sizes for a given tile width: that width, and each image's aspect ratio kept. */
  function SizesFor(tileWidth: real, imgs: seq<Image>): seq<Size>
    requires ValidImages(imgs)
  {
    seq(|imgs|, i requires 0 <= i < |imgs| => Size(tileWidth, TileHeight(tileWidth, imgs[i])))
  }

  /** The contents of `imgSizes` after a layout for this window width. */
  function TileSizes(windowWidth: real, imgs: seq<Image>): seq<Size>
    requires ValidImages(imgs)
  {
    SizesFor(TileWidth(windowWidth), imgs)
  }

  /** The tile heights, in image order. */
  function Heights(sizes: seq<Size>): (hs: seq<real>)
    ensures |hs| == |sizes|
  {
    seq(|sizes|, i requires 0 <= i < |sizes| => sizes[i].height)
  }

  function MinNat(a: nat, b: nat): (m: nat)
    ensures m <= a && m <= b && (m == a || m == b)
  {
    if a <= b then a else b
  }

  /** The running `rowHeight` of `calculateLayout`: it starts at 0 and takes p5's `max` with each height. */
  function RowMax(hs: seq<real>): real
  {
    if hs == [] then 0.0 else Max(RowMax(hs[..|hs| - 1]), hs[|hs| - 1])
  }

  /** The heights of row `r` when rows wrap every `k` tiles (empty past the last row). */
  function RowOf(hs: seq<real>, k: nat, r: nat): seq<real>
  {
    hs[MinNat(r * k, |hs|) .. MinNat(r * k + k, |hs|)]
  }

  /** The top of row `r` before centring: the earlier rows' heights, each followed by the padding. */
  function RowTop(hs: seq<real>, k: nat, p: real, r: nat): real
  {
    if r == 0 then 0.0 else RowTop(hs, k, p, r - 1) + RowMax(RowOf(hs, k, r - 1)) + p
  }

  /** The number of rows that `n` tiles fill. */
  function RowCount(n: nat, k: nat): nat
    requires k >= 1
  {
    if n == 0 then 0 else (n - 1) / k + 1
  }

  /** `totalContentHeight` of `calculateLayout`: the last row's top plus its height. */
  function ContentHeight(hs: seq<real>, k: nat, p: real): real
    requires k >= 1
  {
    if hs == [] then 0.0
    else RowTop(hs, k, p, RowCount(|hs|, k) - 1) + RowMax(RowOf(hs, k, RowCount(|hs|, k) - 1))
  }

  /** `startYOffset`: the shift that centres the grid vertically in the window. */
  function GridTop(windowHeight: real, hs: seq<real>, k: nat, p: real): real
    requires k >= 1
  {
    (windowHeight - ContentHeight(hs, k, p)) / 2.0
  }

  /** `p` added `n` times. */
  function Times(p: real, n: nat): real
  {
    if n == 0 then 0.0 else Times(p, n - 1) + p
  }

  lemma {:induction false} TimesIsProduct(p: real, n: nat)
    ensures Times(p, n) == p * n as real
  {
    if n > 0 {
      TimesIsProduct(p, n - 1);
      assert p * n as real == p * (n - 1) as real + p;
    }
  }

  /** The left edge of tile `i`: the padding, then one tile width plus padding per earlier column. */
  function ColumnX(p: real, w: real, k: nat, i: nat): real
    requires k >= 1
  {
    p + Times(w + p, i % k)
  }

  /**
   * The entries that the first pass of `calculateLayout` builds, before the
   * grid is centred, for `k` tiles per row, padding `p` and tile width `w`.
   */
  function RowEntries(k: nat, p: real, w: real, imgs: seq<Image>, links: seq<string>): seq<Entry>
    requires k >= 1 && ValidImages(imgs)
  {
    var hs := Heights(SizesFor(w, imgs));
    seq(|imgs|, i requires 0 <= i < |imgs| => Entry(ColumnX(p, w, k, i), RowTop(hs, k, p, i / k), w, hs[i], LinkAt(links, i)))
  }

  /** The entries moved down by `dy`. */
  function Shifted(es: seq<Entry>, dy: real): seq<Entry>
  {
    seq(|es|, i requires 0 <= i < |es| => es[i].(y := es[i].y + dy))
  }

  /** The contents of `imagePositions` after `calculateLayout` for the given window. */
  function Positions(windowWidth: real, windowHeight: real, imgs: seq<Image>, links: seq<string>): seq<Entry>
    requires ValidImages(imgs)
  {
    var k, p, w := PerRow(windowWidth), Padding(windowWidth), TileWidth(windowWidth);
    Shifted(RowEntries(k, p, w, imgs, links), GridTop(windowHeight, Heights(SizesFor(w, imgs)), k, p))
  }

  /** The heights of the first `rows` rows. */
  function FirstRowHeights(hs: seq<real>, k: nat, rows: nat): seq<real>
  {
    seq(rows, r requires 0 <= r < rows => RowMax(RowOf(hs, k, r)))
  }

  /** The per-row maxima that the measuring pass of `draw` collects in `rowHeights`. */
  function RowHeights(hs: seq<real>, k: nat): seq<real>
    requires k >= 1
  {
    FirstRowHeights(hs, k, RowCount(|hs|, k))
  }

  /** `rowHeights.reduce((acc, curr) => acc + curr, 0)`. */
  function Sum(s: seq<real>): real
  {
    if s == [] then 0.0 else Sum(s[..|s| - 1]) + s[|s| - 1]
  }

  /** `yOffset` of `draw`: centring from the summed row heights and `padding * (rowHeights.length - 1)`. */
  function DrawTop(windowHeight: real, rowHeights: seq<real>, p: real): real
  {
    (windowHeight - (Sum(rowHeights) + p * (|rowHeights| - 1) as real)) / 2.0
  }

  /** Extending a slice by one height takes p5's `max` with it. */
  lemma RowMaxSnoc(hs: seq<real>, a: nat, i: nat)
    requires a <= i < |hs|
    ensures RowMax(hs[a .. i + 1]) == Max(RowMax(hs[a .. i]), hs[i])
  {
    assert hs[a .. i + 1][..i - a] == hs[a .. i];
  }

  /** A row that starts inside the sequence is the slice from its start, cut at the end. */
  lemma RowOfInside(hs: seq<real>, k: nat, r: nat)
    requires r * k <= |hs|
    ensures RowOf(hs, k, r) == hs[r * k .. MinNat(r * k + k, |hs|)]
  {
  }

  // ---------------------------------------------------------------------
  // Properties of the layout.

  /** Exactly one row-count/padding pair is active, chosen by the breakpoint alone. */
  lemma BreakpointSelectsOnePair(windowWidth: real)
    ensures windowWidth < Breakpoint <==> PerRow(windowWidth) == MobileRow && Padding(windowWidth) == PaddingMobile
    ensures windowWidth >= Breakpoint <==> PerRow(windowWidth) == DesktopRow && Padding(windowWidth) == PaddingDesktop
  {
  }

  /** The tile width is positive exactly when the window is wider than all the paddings of a row. */
  lemma TileWidthPositive(windowWidth: real)
    ensures TileWidth(windowWidth) > 0.0 <==> windowWidth > Padding(windowWidth) * (PerRow(windowWidth) + 1) as real
  {
  }

  /** The row height is at least every height in the row and never negative; with positive heights it is one of them. */
  lemma {:induction false} RowHeightIsTallest(hs: seq<real>)
    ensures RowMax(hs) >= 0.0
    ensures forall j :: 0 <= j < |hs| ==> hs[j] <= RowMax(hs)
    ensures hs != [] && (forall j :: 0 <= j < |hs| ==> hs[j] > 0.0) ==> exists j :: 0 <= j < |hs| && RowMax(hs) == hs[j]
  {
    if hs != [] {
      var front := hs[..|hs| - 1];
      RowHeightIsTallest(front);
      assert forall j :: 0 <= j < |front| ==> front[j] == hs[j];
      if RowMax(hs) == hs[|hs| - 1] {
        assert 0 <= |hs| - 1 < |hs|;
      } else if front != [] && forall j :: 0 <= j < |hs| ==> hs[j] > 0.0 {
        var j :| 0 <= j < |front| && RowMax(front) == front[j];
        assert RowMax(hs) == hs[j];
      }
    }
  }

  /** A row ends, padding included, no lower than the top of any later row. */
  lemma {:induction false} RowTopBelow(hs: seq<real>, k: nat, p: real, r: nat, s: nat)
    requires p >= 0.0 && r < s
    ensures RowTop(hs, k, p, r) + RowMax(RowOf(hs, k, r)) + p <= RowTop(hs, k, p, s)
  {
    if s > r + 1 {
      RowTopBelow(hs, k, p, r, s - 1);
      RowHeightIsTallest(RowOf(hs, k, s - 1));
    }
  }

  /** Tile `i` lies in the row `i / k` of the height sequence, at position `i % k`. */
  lemma TileInRow(hs: seq<real>, k: nat, i: nat)
    requires k >= 1 && i < |hs|
    ensures (i / k) * k <= i
    ensures i % k < |RowOf(hs, k, i / k)| && RowOf(hs, k, i / k)[i % k] == hs[i]
  {
    assert i == (i / k) * k + i % k;
  }

  /** Every tile has the same width, and each tile's height-to-width ratio is its image's. */
  lemma AspectPreserved(windowWidth: real, windowHeight: real, imgs: seq<Image>, links: seq<string>, i: nat)
    requires ValidImages(imgs) && i < |imgs| && TileWidth(windowWidth) != 0.0
    ensures Positions(windowWidth, windowHeight, imgs, links)[i].width == TileWidth(windowWidth)
    ensures Positions(windowWidth, windowHeight, imgs, links)[i].height / Positions(windowWidth, windowHeight, imgs, links)[i].width
            == imgs[i].height / imgs[i].width
  {
    var w := TileWidth(windowWidth);
    TileSizeAt(windowWidth, windowHeight, imgs, links, i);
    SizeAt(w, imgs, i);
    QuotientRatio(w, imgs[i].width, imgs[i].height);
  }

  /** Entry `i` of the layout has the common tile width and tile `i`'s height: centring moves only `y`. */
  lemma TileSizeAt(windowWidth: real, windowHeight: real, imgs: seq<Image>, links: seq<string>, i: nat)
    requires ValidImages(imgs) && i < |imgs|
    ensures Positions(windowWidth, windowHeight, imgs, links)[i].width == TileWidth(windowWidth)
    ensures Positions(windowWidth, windowHeight, imgs, links)[i].height == Heights(TileSizes(windowWidth, imgs))[i]
  {
  }

  /** Dividing a width by an aspect ratio keeps the ratio. */
  lemma QuotientRatio(w: real, a: real, b: real)
    requires w != 0.0 && a > 0.0 && b > 0.0
    ensures (w / (a / b)) / w == b / a
  {
    assert w / (a / b) == w * b / a;
  }

  /** Size `i` for a tile width, unfolded; the aspect ratio it divides by is positive. */
  lemma SizeAt(w: real, imgs: seq<Image>, i: nat)
    requires ValidImages(imgs) && i < |imgs|
    ensures imgs[i].width / imgs[i].height > 0.0
    ensures |SizesFor(w, imgs)| == |imgs|
    ensures SizesFor(w, imgs)[i] == Size(w, w / (imgs[i].width / imgs[i].height))
    ensures Heights(SizesFor(w, imgs))[i] == w / (imgs[i].width / imgs[i].height)
  {
  }

  /** A full row, taken as the slice from its start, moves the next row's top down by its height plus the padding. */
  lemma NextRowTop(hs: seq<real>, k: nat, p: real, row: nat, start: nat)
    requires k >= 1 && start == row * k && start + k <= |hs|
    ensures RowTop(hs, k, p, row + 1) == RowTop(hs, k, p, row) + RowMax(hs[start .. start + k]) + p
    ensures start + k == (row + 1) * k
  {
    RowOfInside(hs, k, row);
  }

  /** Entry `i` of the layout, unfolded. */
  lemma LayoutAt(windowWidth: real, windowHeight: real, imgs: seq<Image>, links: seq<string>, i: nat)
    requires ValidImages(imgs) && i < |imgs|
    ensures var k, p, w := PerRow(windowWidth), Padding(windowWidth), TileWidth(windowWidth);
            var hs := Heights(TileSizes(windowWidth, imgs));
            var e := Positions(windowWidth, windowHeight, imgs, links)[i];
            e.x == ColumnX(p, w, k, i) && e.y == RowTop(hs, k, p, i / k) + GridTop(windowHeight, hs, k, p)
            && e.width == w && e.height == hs[i] && e.link == LinkAt(links, i)
  {
  }

  /** Two tiles of one row share a y, and the later one starts at least one padding after the earlier one ends. */
  lemma TilesInRowApart(windowWidth: real, windowHeight: real, imgs: seq<Image>, links: seq<string>, i: nat, j: nat)
    requires ValidImages(imgs) && TileWidth(windowWidth) > 0.0
    requires i < j < |imgs| && i / PerRow(windowWidth) == j / PerRow(windowWidth)
    ensures Positions(windowWidth, windowHeight, imgs, links)[i].y == Positions(windowWidth, windowHeight, imgs, links)[j].y
    ensures Positions(windowWidth, windowHeight, imgs, links)[i].x + Positions(windowWidth, windowHeight, imgs, links)[i].width
            + Padding(windowWidth) <= Positions(windowWidth, windowHeight, imgs, links)[j].x
  {
    var k, p, w := PerRow(windowWidth), Padding(windowWidth), TileWidth(windowWidth);
    LayoutAt(windowWidth, windowHeight, imgs, links, i);
    LayoutAt(windowWidth, windowHeight, imgs, links, j);
    assert i == (i / k) * k + i % k && j == (j / k) * k + j % k;
    ColumnsApart(p, w, k, i, j);
  }

  /** A later column starts at least one tile width plus padding after an earlier one. */
  lemma ColumnsApart(p: real, w: real, k: nat, i: nat, j: nat)
    requires k >= 1 && w + p >= 0.0 && i % k < j % k
    ensures ColumnX(p, w, k, i) + w + p <= ColumnX(p, w, k, j)
  {
    TimesGrows(w + p, i % k, j % k);
  }

  /** Adding a non-negative step more times gives at least one step more. */
  lemma {:induction false} TimesGrows(a: real, c1: nat, c2: nat)
    requires a >= 0.0 && c1 < c2
    ensures Times(a, c1) + a <= Times(a, c2)
  {
    if c1 + 1 < c2 {
      TimesGrows(a, c1, c2 - 1);
    }
  }

  /** A full row of tiles, with a padding before each and after the last, spans the window. */
  lemma WindowSpan(windowWidth: real)
    ensures windowWidth == Padding(windowWidth) + Times(TileWidth(windowWidth) + Padding(windowWidth), PerRow(windowWidth))
  {
    TimesIsProduct(TileWidth(windowWidth) + Padding(windowWidth), PerRow(windowWidth));
    if windowWidth < Breakpoint {
      assert PerRow(windowWidth) as real == 4.0;
    } else {
      assert PerRow(windowWidth) as real == 12.0;
    }
  }

  /** Every tile ends, padding included, within the window; a row's last column ends exactly at its edge. */
  lemma RowFitsWindow(windowWidth: real, windowHeight: real, imgs: seq<Image>, links: seq<string>, i: nat)
    requires ValidImages(imgs) && TileWidth(windowWidth) > 0.0 && i < |imgs|
    ensures Positions(windowWidth, windowHeight, imgs, links)[i].x + Positions(windowWidth, windowHeight, imgs, links)[i].width
            + Padding(windowWidth) <= windowWidth
    ensures i % PerRow(windowWidth) == PerRow(windowWidth) - 1 ==>
            Positions(windowWidth, windowHeight, imgs, links)[i].x + Positions(windowWidth, windowHeight, imgs, links)[i].width
            + Padding(windowWidth) == windowWidth
  {
    var k, p, w := PerRow(windowWidth), Padding(windowWidth), TileWidth(windowWidth);
    LayoutAt(windowWidth, windowHeight, imgs, links, i);
    WindowSpan(windowWidth);
    ColumnEnd(p, w, k, i);
  }

  /** Column `i % k` ends, padding included, at most `k` steps of tile width plus padding after the left padding. */
  lemma ColumnEnd(p: real, w: real, k: nat, i: nat)
    requires k >= 1 && w + p >= 0.0
    ensures ColumnX(p, w, k, i) + w + p <= p + Times(w + p, k)
    ensures i % k == k - 1 ==> ColumnX(p, w, k, i) + w + p == p + Times(w + p, k)
  {
    if i % k < k - 1 {
      TimesGrows(w + p, i % k + 1, k);
    }
  }

  /** The left edge of tile `i` in closed form: `padding + (i % k) * (width + padding)`. */
  lemma ColumnXClosedForm(p: real, w: real, k: nat, i: nat)
    requires k >= 1
    ensures ColumnX(p, w, k, i) == p + (i % k) as real * (w + p)
  {
    TimesIsProduct(w + p, i % k);
  }

  /** A tile ends, padding included, no lower than the top of any tile in a later row. */
  lemma RowsApart(windowWidth: real, windowHeight: real, imgs: seq<Image>, links: seq<string>, i: nat, j: nat)
    requires ValidImages(imgs) && i < |imgs| && j < |imgs| && i / PerRow(windowWidth) < j / PerRow(windowWidth)
    ensures Positions(windowWidth, windowHeight, imgs, links)[i].y + Positions(windowWidth, windowHeight, imgs, links)[i].height
            + Padding(windowWidth) <= Positions(windowWidth, windowHeight, imgs, links)[j].y
  {
    var k, p := PerRow(windowWidth), Padding(windowWidth);
    var hs := Heights(TileSizes(windowWidth, imgs));
    LayoutAt(windowWidth, windowHeight, imgs, links, i);
    LayoutAt(windowWidth, windowHeight, imgs, links, j);
    TileInRow(hs, k, i);
    RowHeightIsTallest(RowOf(hs, k, i / k));
    RowTopBelow(hs, k, p, i / k, j / k);
  }

  /** No point lies in two tiles of one layout, edges included. */
  lemma TilesDisjoint(windowWidth: real, windowHeight: real, imgs: seq<Image>, links: seq<string>, i: nat, j: nat, mx: real, my: real)
    requires ValidImages(imgs) && TileWidth(windowWidth) > 0.0 && i < |imgs| && j < |imgs|
    requires Contains(Positions(windowWidth, windowHeight, imgs, links)[i], mx, my)
    requires Contains(Positions(windowWidth, windowHeight, imgs, links)[j], mx, my)
    ensures i == j
  {
    var k := PerRow(windowWidth);
    if i / k == j / k {
      if i < j {
        TilesInRowApart(windowWidth, windowHeight, imgs, links, i, j);
      } else if j < i {
        TilesInRowApart(windowWidth, windowHeight, imgs, links, j, i);
      }
    } else if i / k < j / k {
      RowsApart(windowWidth, windowHeight, imgs, links, i, j);
    } else {
      RowsApart(windowWidth, windowHeight, imgs, links, j, i);
    }
  }

  /** Rows are never placed above the first one. */
  lemma {:induction false} RowTopNonNegative(hs: seq<real>, k: nat, p: real, r: nat)
    requires p >= 0.0
    ensures RowTop(hs, k, p, r) >= 0.0
  {
    if r > 0 {
      RowTopNonNegative(hs, k, p, r - 1);
      RowHeightIsTallest(RowOf(hs, k, r - 1));
    }
  }

  /** Every row ends no lower than the bottom of the content. */
  lemma RowEndsWithinContent(hs: seq<real>, k: nat, p: real, r: nat)
    requires k >= 1 && p >= 0.0 && hs != [] && r <= (|hs| - 1) / k
    ensures RowTop(hs, k, p, r) + RowMax(RowOf(hs, k, r)) <= ContentHeight(hs, k, p)
  {
    var last := (|hs| - 1) / k;
    if r < last {
      RowTopBelow(hs, k, p, r, last);
      RowHeightIsTallest(RowOf(hs, k, last));
    }
  }

  /** Every tile lies between the top of the first row and the bottom of the content. */
  lemma TileWithinContent(hs: seq<real>, k: nat, p: real, i: nat)
    requires k >= 1 && p >= 0.0 && i < |hs|
    ensures 0.0 <= RowTop(hs, k, p, i / k)
    ensures RowTop(hs, k, p, i / k) + hs[i] <= ContentHeight(hs, k, p)
  {
    DivMono(i, |hs| - 1, k);
    TileInRow(hs, k, i);
    RowHeightIsTallest(RowOf(hs, k, i / k));
    RowTopNonNegative(hs, k, p, i / k);
    RowEndsWithinContent(hs, k, p, i / k);
  }

  /** With positive heights, a non-empty row's height is the height of one of its tiles. */
  lemma TallestInRow(hs: seq<real>, k: nat, r: nat) returns (t: nat)
    requires k >= 1 && r * k < |hs|
    requires forall i :: 0 <= i < |hs| ==> hs[i] > 0.0
    ensures r * k <= t < r * k + k && t < |hs| && hs[t] == RowMax(RowOf(hs, k, r))
  {
    RowOfInside(hs, k, r);
    var row := RowOf(hs, k, r);
    assert forall j :: 0 <= j < |row| ==> row[j] == hs[r * k + j];
    RowHeightIsTallest(row);
    var j :| 0 <= j < |row| && RowMax(row) == row[j];
    t := r * k + j;
  }

  /** With positive heights, the tallest tile of the last row reaches the bottom of the content. */
  lemma LastRowReachesBottom(hs: seq<real>, k: nat, p: real) returns (t: nat)
    requires k >= 1 && hs != []
    requires forall i :: 0 <= i < |hs| ==> hs[i] > 0.0
    ensures t < |hs| && RowTop(hs, k, p, t / k) + hs[t] == ContentHeight(hs, k, p)
  {
    var last := (|hs| - 1) / k;
    DivModRange(|hs| - 1, k, last);
    t := TallestInRow(hs, k, last);
    DivModRange(t, k, last);
  }

  /**
   * The grid is centred: every tile lies between the first row's top and the
   * same distance above the window's bottom, and some tile of the last row
   * reaches that bottom bound.
   */
  lemma GridCentred(windowWidth: real, windowHeight: real, imgs: seq<Image>, links: seq<string>)
    requires ValidImages(imgs) && |imgs| > 0 && TileWidth(windowWidth) > 0.0
    ensures forall i :: 0 <= i < |imgs| ==>
      Positions(windowWidth, windowHeight, imgs, links)[0].y <= Positions(windowWidth, windowHeight, imgs, links)[i].y &&
      Bottom(Positions(windowWidth, windowHeight, imgs, links)[i]) <= windowHeight - Positions(windowWidth, windowHeight, imgs, links)[0].y
    ensures exists i :: 0 <= i < |imgs| && Bottom(Positions(windowWidth, windowHeight, imgs, links)[i])
                                            == windowHeight - Positions(windowWidth, windowHeight, imgs, links)[0].y
  {
    var k, p := PerRow(windowWidth), Padding(windowWidth);
    var hs := Heights(TileSizes(windowWidth, imgs));
    var L := Positions(windowWidth, windowHeight, imgs, links);
    LayoutAt(windowWidth, windowHeight, imgs, links, 0);
    forall i | 0 <= i < |imgs|
      ensures L[0].y <= L[i].y && Bottom(L[i]) <= windowHeight - L[0].y
    {
      LayoutAt(windowWidth, windowHeight, imgs, links, i);
      TileWithinContent(hs, k, p, i);
    }
    HeightsPositive(TileWidth(windowWidth), imgs);
    var t := LastRowReachesBottom(hs, k, p);
    LayoutAt(windowWidth, windowHeight, imgs, links, t);
    assert Bottom(L[t]) == windowHeight - L[0].y;
  }

  /** The tile heights of a layout are positive when the tile width is. */
  lemma HeightsPositive(w: real, imgs: seq<Image>)
    requires ValidImages(imgs) && w > 0.0
    ensures forall i :: 0 <= i < |imgs| ==> SizesFor(w, imgs)[i].height > 0.0
  {
    forall i | 0 <= i < |imgs| ensures SizesFor(w, imgs)[i].height > 0.0 {
      var r := imgs[i].width / imgs[i].height;
      assert r > 0.0;
      assert w / r > 0.0;
    }
  }

  /** Summing the first `rows` row heights with a padding between each gives the bottom of the last of them. */
  lemma {:induction false} RowSum(hs: seq<real>, k: nat, p: real, rows: nat)
    requires rows >= 1
    ensures Sum(FirstRowHeights(hs, k, rows)) + Times(p, rows - 1)
            == RowTop(hs, k, p, rows - 1) + RowMax(RowOf(hs, k, rows - 1))
  {
    var s := FirstRowHeights(hs, k, rows);
    assert Sum(s) == Sum(s[..rows - 1]) + s[rows - 1];
    if rows > 1 {
      RowSum(hs, k, p, rows - 1);
      assert s[..rows - 1] == FirstRowHeights(hs, k, rows - 1);
    } else {
      assert s[..0] == [];
    }
  }

  /** The centring pass of `draw` puts the grid's top where `calculateLayout` put it, whenever there is a tile. */
  lemma DrawTopAgrees(windowHeight: real, hs: seq<real>, k: nat, p: real)
    requires k >= 1 && hs != []
    ensures DrawTop(windowHeight, RowHeights(hs, k), p) == GridTop(windowHeight, hs, k, p)
  {
    var rows := RowCount(|hs|, k);
    var rh := RowHeights(hs, k);
    assert |rh| == rows >= 1;
    DrawTopByTimes(windowHeight, rh, p);
    RowSum(hs, k, p, rows);
  }

  /** `draw`'s centring of `n >= 1` measured rows, with the gaps as `n - 1` paddings. */
  lemma DrawTopByTimes(windowHeight: real, rowHeights: seq<real>, p: real)
    requires |rowHeights| >= 1
    ensures DrawTop(windowHeight, rowHeights, p) == (windowHeight - (Sum(rowHeights) + Times(p, |rowHeights| - 1))) / 2.0
  {
    var n: nat := |rowHeights| - 1;
    TimesIsProduct(p, n);
    assert Times(p, n) == p * n as real;
    assert DrawTop(windowHeight, rowHeights, p) == (windowHeight - (Sum(rowHeights) + p * n as real)) / 2.0;
  }

  /** With no tile, `draw` counts `padding * -1` into the grid height, so its top is half a padding lower. */
  lemma DrawTopWithoutTiles(windowHeight: real, k: nat, p: real)
    requires k >= 1
    ensures DrawTop(windowHeight, RowHeights([], k), p) == GridTop(windowHeight, [], k, p) + p / 2.0
  {
  }

  // ---------------------------------------------------------------------
  // Integer helpers for the row/column arithmetic.

  /** The quotient's multiple lies within one divisor below the dividend. */
  lemma DivBounds(i: nat, k: nat)
    requires k >= 1
    ensures (i / k) * k <= i < (i / k) * k + k
    ensures i % k == i - (i / k) * k
  {
    assert i == (i / k) * k + i % k;
  }

  /** A quotient and remainder are determined by bounds on the dividend. */
  lemma DivModRange(i: int, k: int, q: int)
    requires k >= 1 && q * k <= i < q * k + k
    ensures i / k == q && i % k == i - q * k
  {
    var e := i / k - q;
    assert e * k == i - q * k - i % k;
    MulSign(e, k);
  }

  /** A non-zero multiple of `k` is at least `k` away from zero. */
  lemma MulSign(a: int, k: int)
    requires k >= 1
    ensures a >= 1 ==> a * k >= k
    ensures a <= -1 ==> a * k <= -k
  {
    assert a * k - k == (a - 1) * k;
    assert a * k + k == (a + 1) * k;
  }

  /** Integer division by a positive number is monotonic. */
  lemma DivMono(a: nat, b: nat, k: int)
    requires k >= 1 && a <= b
    ensures a / k <= b / k
  {
    assert a == (a / k) * k + a % k && b == (b / k) * k + b % k;
    MulSign(a / k - b / k, k);
    assert (a / k - b / k) * k == (a / k) * k - (b / k) * k;
  }

  /** Index `i` with `i % k == 0`, past the current row's start, begins the next row. */
  lemma NewRowStarts(i: int, k: int, row: int)
    requires k >= 1 && row * k < i <= row * k + k && i % k == 0
    ensures i == row * k + k && i == (row + 1) * k
  {
    assert (row + 1) * k == row * k + k;
    if i < row * k + k {
      DivModRange(i, k, row);
    }
  }

  /** An index that does not start a new row stays within the current one. */
  lemma SameRowContinues(i: int, k: int, row: int)
    requires k >= 1 && row >= 0 && row * k <= i <= row * k + k
    requires i == 0 || i % k != 0
    ensures i < row * k + k
  {
    MulSign(row + 1, k);
    assert (row + 1) * k == row * k + k;
    if i == row * k + k {
      DivModRange(i, k, row + 1);
    }
  }
}
