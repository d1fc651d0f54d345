/**
 * The first pass of `calculateLayout`, step by step: the running variables
 * `xOffset`, `yOffset` and `rowHeight` of its `imgs.forEach`, and the entries
 * it writes. The lemmas here show that the pass computes the closed forms of
 * the `Layout` module: the column offset, the row top and the row height.
 */
module LayoutPass {
  import opened Geometry
  import opened Layout
  import opened Sequences

  /** The variables that the `forEach` callback of `calculateLayout` updates. */
  datatype Pass = Pass(x: real, y: real, rowHeight: real)

  /** The variables before the first tile. */
  function Start(p: real): Pass
  {
    Pass(p, 0.0, 0.0)
  }

  /** The wrap check at the head of the callback for tile `i`: a new row moves down by the row height and the padding. */
  function WrapCheck(k: nat, p: real, s: Pass, i: nat): Pass
    requires k >= 1
  {
    if i % k == 0 && i != 0 then Pass(p, s.y + s.rowHeight + p, 0.0) else s
  }

  /** The variables after the callback has run for the first `n` tiles, whose heights are `hs`. */
  function PassAfter(k: nat, p: real, w: real, hs: seq<real>, n: nat): Pass
    requires k >= 1 && n <= |hs|
  {
    if n == 0 then Start(p)
    else
      var s := WrapCheck(k, p, PassAfter(k, p, w, hs, n - 1), n - 1);
      Pass(s.x + w + p, s.y, Max(s.rowHeight, hs[n - 1]))
  }

  /** The entries that the callback writes for the first `n` tiles, in order. */
  function PassEntries(k: nat, p: real, w: real, hs: seq<real>, links: seq<string>, n: nat): seq<Entry>
    requires k >= 1 && n <= |hs|
  {
    if n == 0 then []
    else
      var s := WrapCheck(k, p, PassAfter(k, p, w, hs, n - 1), n - 1);
      PassEntries(k, p, w, hs, links, n - 1) + [Entry(s.x, s.y, w, hs[n - 1], LinkAt(links, n - 1))]
  }

  /** The row that the `n`th tile placed belongs to (0 before any tile). */
  function LastRow(n: nat, k: nat): nat
    requires k >= 1
  {
    if n == 0 then 0 else (n - 1) / k
  }

  /** How many tiles of that row have been placed after `n` tiles. */
  function Placed(n: nat, k: nat): nat
    requires k >= 1
  {
    if n == 0 then 0 else (n - 1) % k + 1
  }

  /**
   * Tile `n` opens a new row exactly when the tile before it was the last of
   * its row: then its row is one past the previous one; otherwise it shares
   * the previous tile's row, one column further on.
   */
  lemma WrapArith(n: nat, k: nat)
    requires k >= 1 && n >= 1
    ensures n % k == 0 ==> n / k == (n - 1) / k + 1 && (n - 1) % k == k - 1
    ensures n % k != 0 ==> n / k == (n - 1) / k && n % k == (n - 1) % k + 1
  {
    var prev := (n - 1) / k;
    DivBounds(n - 1, k);
    if n % k == 0 {
      NewRowStarts(n, k, prev);
      DivModRange(n, k, prev + 1);
    } else {
      SameRowContinues(n, k, prev);
      DivModRange(n, k, prev);
    }
  }

  /** A remainder never exceeds the number divided. */
  lemma ModBelow(i: nat, k: nat)
    requires k >= 1
    ensures i % k <= i
  {
    if i < k {
      DivModRange(i, k, 0);
    }
  }

  /**
   * After `n` tiles, `xOffset` is the padding plus one tile and padding per
   * tile placed in the current row, `yOffset` is the current row's top and
   * `rowHeight` its tallest tile so far; the wrap check before tile `n` moves
   * to tile `n`'s row, at column `n % k`.
   */
  lemma {:induction false} PassClosedForm(k: nat, p: real, w: real, hs: seq<real>, n: nat)
    requires k >= 1 && n <= |hs|
    ensures Placed(n, k) <= n
    ensures PassAfter(k, p, w, hs, n)
            == Pass(p + Times(w + p, Placed(n, k)), RowTop(hs, k, p, LastRow(n, k)), RowMax(hs[n - Placed(n, k) .. n]))
    ensures n < |hs| ==>
            n % k <= n &&
            WrapCheck(k, p, PassAfter(k, p, w, hs, n), n)
            == Pass(p + Times(w + p, n % k), RowTop(hs, k, p, n / k), RowMax(hs[n - n % k .. n]))
  {
    if n > 0 {
      PassClosedForm(k, p, w, hs, n - 1);
      ModBelow(n - 1, k);
      RowMaxSnoc(hs, n - Placed(n, k), n - 1);
    }
    if n < |hs| {
      WrapStep(k, p, w, hs, n);
    }
  }

  /** The wrap check before tile `n`, given the closed form after `n` tiles. */
  lemma WrapStep(k: nat, p: real, w: real, hs: seq<real>, n: nat)
    requires k >= 1 && n < |hs| && Placed(n, k) <= n
    requires PassAfter(k, p, w, hs, n)
             == Pass(p + Times(w + p, Placed(n, k)), RowTop(hs, k, p, LastRow(n, k)), RowMax(hs[n - Placed(n, k) .. n]))
    ensures n % k <= n
    ensures WrapCheck(k, p, PassAfter(k, p, w, hs, n), n)
            == Pass(p + Times(w + p, n % k), RowTop(hs, k, p, n / k), RowMax(hs[n - n % k .. n]))
  {
    if n > 0 {
      WrapArith(n, k);
      if n % k == 0 {
        WrapNewRow(k, p, hs, n);
      }
    }
  }

  /** When tile `n` opens a row, the previous row was full: the new row's top is below its tallest tile and the padding. */
  lemma WrapNewRow(k: nat, p: real, hs: seq<real>, n: nat)
    requires k >= 1 && 0 < n < |hs| && n % k == 0
    requires n / k == (n - 1) / k + 1 && (n - 1) % k == k - 1
    ensures Placed(n, k) == k <= n && LastRow(n, k) + 1 == n / k
    ensures RowTop(hs, k, p, n / k) == RowTop(hs, k, p, LastRow(n, k)) + RowMax(hs[n - Placed(n, k) .. n]) + p
  {
    DivBounds(n - 1, k);
    NextRowTop(hs, k, p, (n - 1) / k, n - k);
  }

  /** The entry written for tile `i`, after its wrap check, is entry `i` of the uncentred layout. */
  lemma PassEntryAt(k: nat, p: real, w: real, imgs: seq<Image>, links: seq<string>, i: nat)
    requires k >= 1 && ValidImages(imgs) && i < |imgs|
    ensures var hs := Heights(SizesFor(w, imgs));
            var s := WrapCheck(k, p, PassAfter(k, p, w, hs, i), i);
            Entry(s.x, s.y, w, hs[i], LinkAt(links, i)) == RowEntries(k, p, w, imgs, links)[i]
  {
    PassClosedForm(k, p, w, Heights(SizesFor(w, imgs)), i);
  }

  /** The entries the pass writes are the uncentred rows of the layout. */
  lemma {:induction false} PassEntriesAreRows(k: nat, p: real, w: real, imgs: seq<Image>, links: seq<string>, n: nat)
    requires k >= 1 && ValidImages(imgs) && n <= |imgs|
    ensures |Heights(SizesFor(w, imgs))| == |imgs|
    ensures PassEntries(k, p, w, Heights(SizesFor(w, imgs)), links, n) == RowEntries(k, p, w, imgs, links)[..n]
  {
    if n > 0 {
      var i := n - 1;
      PassEntriesAreRows(k, p, w, imgs, links, i);
      PassEntryAt(k, p, w, imgs, links, i);
      PrefixSnoc(RowEntries(k, p, w, imgs, links), i);
    }
  }

  /** After the last tile, `yOffset + rowHeight` is the height of the content. */
  lemma PassContentHeight(k: nat, p: real, w: real, hs: seq<real>)
    requires k >= 1
    ensures PassAfter(k, p, w, hs, |hs|).y + PassAfter(k, p, w, hs, |hs|).rowHeight == ContentHeight(hs, k, p)
  {
    PassClosedForm(k, p, w, hs, |hs|);
    if hs != [] {
      var row := (|hs| - 1) / k;
      DivBounds(|hs| - 1, k);
      RowOfInside(hs, k, row);
    }
  }

  // ---------------------------------------------------------------------
  // The measuring pass of `draw`.

  /**
   * When tile `i` closes a row, or is the last tile, the tiles placed in the
   * row of the tile before it are that whole row.
   */
  lemma RowFinished(hs: seq<real>, k: nat, i: nat)
    requires k >= 1 && 0 < i <= |hs| && (i % k == 0 || i == |hs|)
    ensures Placed(i, k) <= i
    ensures RowOf(hs, k, LastRow(i, k)) == hs[i - Placed(i, k) .. i]
  {
    RowBounds(i, k);
    RowOfInside(hs, k, LastRow(i, k));
  }

  /** The row of the tile before tile `i` starts `Placed(i, k)` tiles back and ends at tile `i` or later. */
  lemma RowBounds(i: nat, k: nat)
    requires k >= 1 && i > 0
    ensures LastRow(i, k) * k == i - Placed(i, k)
    ensures i <= LastRow(i, k) * k + k
    ensures i % k == 0 ==> i == LastRow(i, k) * k + k
  {
    DivBounds(i - 1, k);
    if i % k == 0 {
      WrapArith(i, k);
    }
  }

  /**
   * What the measuring pass knows after `i` tiles: one entry per row started
   * so far, the current row's tallest tile so far, and the maxima of the
   * finished rows before it.
   */
  ghost predicate Measured(hs: seq<real>, k: nat, i: nat, rowHeights: seq<real>)
    requires k >= 1 && i <= |hs|
  {
    && Placed(i, k) <= i
    && (i == 0 ==> rowHeights == [])
    && (i > 0 ==> |rowHeights| == LastRow(i, k) + 1 && rowHeights[LastRow(i, k)] == RowMax(hs[i - Placed(i, k) .. i]))
    && (i > 0 ==> rowHeights[..LastRow(i, k)] == FirstRowHeights(hs, k, LastRow(i, k)))
  }

  /** A tile that opens a new row appends its height as that row's first measurement. */
  lemma MeasureNewRow(hs: seq<real>, k: nat, i: nat, rowHeights: seq<real>)
    requires k >= 1 && 0 < i < |hs| && i % k == 0 && hs[i] > 0.0
    requires Measured(hs, k, i, rowHeights)
    ensures LastRow(i + 1, k) == LastRow(i, k) + 1
    ensures Measured(hs, k, i + 1, rowHeights + [hs[i]])
  {
    ModBelow(i, k);
    WrapArith(i, k);
    RowMaxSnoc(hs, i - Placed(i + 1, k) + 1, i);
    RowFinishedMax(hs, k, i, rowHeights);
    var r := rowHeights + [hs[i]];
    assert r[..LastRow(i + 1, k)] == rowHeights;
  }

  /**
   * A tile that continues the current row (or is the first tile) raises
   * that row's measurement to its height when taller; a row not yet written
   * reads as `undefined || 0`.
   */
  lemma MeasureSameRow(hs: seq<real>, k: nat, i: nat, rowHeights: seq<real>)
    requires k >= 1 && i < |hs| && !(i % k == 0 && i != 0) && hs[i] > 0.0
    requires Measured(hs, k, i, rowHeights)
    ensures LastRow(i + 1, k) == LastRow(i, k)
    ensures var row := LastRow(i, k);
            var current := if row < |rowHeights| then rowHeights[row] else 0.0;
            Measured(hs, k, i + 1,
                     if hs[i] > current then
                       (if row < |rowHeights| then rowHeights[row := hs[i]] else rowHeights + [hs[i]])
                     else rowHeights)
  {
    ModBelow(i, k);
    if i > 0 {
      WrapArith(i, k);
    }
    RowMaxSnoc(hs, i - Placed(i + 1, k) + 1, i);
    if i == 0 {
      assert LastRow(1, k) == 0 && Placed(1, k) == 1;
      assert hs[0 .. 1][..0] == [];
    }
  }

  /**
   * Collects the tallest tile of each row, as the first `forEach` of `draw`
   * does. A new row starts with its first tile's height; later tiles replace
   * it when taller. Reading a row not yet written gives `undefined || 0`.
   * The `xOffset` that this pass also advances is never read afterwards and
   * is not modelled.
   */
  method MeasureRows(sizes: seq<Size>, k: nat) returns (rowHeights: seq<real>)
    requires k >= 1
    requires forall i :: 0 <= i < |sizes| ==> sizes[i].height > 0.0
    ensures rowHeights == RowHeights(Heights(sizes), k)
  {
    ghost var hs := Heights(sizes);
    rowHeights := [];
    var currentRow: nat := 0;
    var i := 0;
    while i < |sizes|
      invariant 0 <= i <= |sizes|
      invariant currentRow == LastRow(i, k)
      invariant Measured(hs, k, i, rowHeights)
    {
      var height := sizes[i].height;
      if i % k == 0 && i != 0 {
        MeasureNewRow(hs, k, i, rowHeights);
        currentRow := currentRow + 1;
        // `rowHeights[currentRow] = height`, one past the end
        rowHeights := rowHeights + [height];
      } else {
        MeasureSameRow(hs, k, i, rowHeights);
        var current := if currentRow < |rowHeights| then rowHeights[currentRow] else 0.0;
        if height > current {
          rowHeights := if currentRow < |rowHeights| then rowHeights[currentRow := height] else rowHeights + [height];
        }
      }
      i := i + 1;
    }
    if |sizes| > 0 {
      RowFinishedMax(hs, k, |hs|, rowHeights);
    }
  }

  /** Once a row is finished, its measured height joins the heights of the rows before it. */
  lemma RowFinishedMax(hs: seq<real>, k: nat, i: nat, rowHeights: seq<real>)
    requires k >= 1 && 0 < i <= |hs| && (i % k == 0 || i == |hs|) && Placed(i, k) <= i
    requires |rowHeights| == LastRow(i, k) + 1
    requires rowHeights[LastRow(i, k)] == RowMax(hs[i - Placed(i, k) .. i])
    requires rowHeights[..LastRow(i, k)] == FirstRowHeights(hs, k, LastRow(i, k))
    ensures rowHeights == FirstRowHeights(hs, k, LastRow(i, k) + 1)
  {
    RowFinished(hs, k, i);
    var r := LastRow(i, k);
    assert rowHeights == rowHeights[..r] + [rowHeights[r]];
  }

  // ---------------------------------------------------------------------
  // The placing pass of `draw`.

  /**
   * The entries that the placing pass of `draw` pushes for tiles of width `w`
   * and heights `hs`: each tile's column and size, but the grid's top `top` as
   * its `y`, whatever its row.
   */
  function PushedEntries(k: nat, p: real, w: real, hs: seq<real>, links: seq<string>, top: real): seq<Entry>
    requires k >= 1
  {
    seq(|hs|, i requires 0 <= i < |hs| => Entry(ColumnX(p, w, k, i), top, w, hs[i], LinkAt(links, i)))
  }

  /** Where the placing pass of `draw` blits each tile: its column, and its row's top below the grid top `top`. */
  function BlitPoints(k: nat, p: real, w: real, hs: seq<real>, top: real): seq<Point>
    requires k >= 1
  {
    seq(|hs|, i requires 0 <= i < |hs| => Point(ColumnX(p, w, k, i), top + RowTop(hs, k, p, i / k)))
  }

  /** The variables of the second `forEach` of `draw`: `xOffset`, `currentRow` and `accumulatedHeight`. */
  datatype Blit = Blit(x: real, row: nat, y: real)

  /**
   * The wrap check at the head of that callback for tile `i`: a new row moves
   * down by the measured height of the row just finished and the padding.
   */
  function BlitWrap(k: nat, p: real, hs: seq<real>, b: Blit, i: nat): Blit
    requires k >= 1
  {
    if i % k == 0 && i != 0 then Blit(p, b.row + 1, b.y + RowMax(RowOf(hs, k, b.row)) + p) else b
  }

  /** The variables after the callback has run for the first `n` tiles, starting at the grid top `top`. */
  function BlitAfter(k: nat, p: real, w: real, hs: seq<real>, top: real, n: nat): Blit
    requires k >= 1 && n <= |hs|
  {
    if n == 0 then Blit(p, 0, top)
    else
      var b := BlitWrap(k, p, hs, BlitAfter(k, p, w, hs, top, n - 1), n - 1);
      Blit(b.x + w + p, b.row, b.y)
  }

  /** The points at which the first `n` tiles are blitted, in order. */
  function BlitTrace(k: nat, p: real, w: real, hs: seq<real>, top: real, n: nat): seq<Point>
    requires k >= 1 && n <= |hs|
  {
    if n == 0 then []
    else
      var b := BlitWrap(k, p, hs, BlitAfter(k, p, w, hs, top, n - 1), n - 1);
      BlitTrace(k, p, w, hs, top, n - 1) + [Point(b.x, b.y)]
  }

  /** The entries pushed for the first `n` tiles: their column, the grid top and their size. */
  function PushTrace(k: nat, p: real, w: real, hs: seq<real>, links: seq<string>, top: real, n: nat): seq<Entry>
    requires k >= 1 && n <= |hs|
  {
    if n == 0 then []
    else
      var b := BlitWrap(k, p, hs, BlitAfter(k, p, w, hs, top, n - 1), n - 1);
      PushTrace(k, p, w, hs, links, top, n - 1) + [Entry(b.x, top, w, hs[n - 1], LinkAt(links, n - 1))]
  }

  /** One more tile: the variables move one column on from the wrap check, and tile `i`'s point and entry are appended. */
  lemma BlitStep(k: nat, p: real, w: real, hs: seq<real>, links: seq<string>, top: real, i: nat)
    requires k >= 1 && i < |hs|
    ensures var b := BlitWrap(k, p, hs, BlitAfter(k, p, w, hs, top, i), i);
            && BlitAfter(k, p, w, hs, top, i + 1) == Blit(b.x + w + p, b.row, b.y)
            && BlitTrace(k, p, w, hs, top, i + 1) == BlitTrace(k, p, w, hs, top, i) + [Point(b.x, b.y)]
            && PushTrace(k, p, w, hs, links, top, i + 1)
               == PushTrace(k, p, w, hs, links, top, i) + [Entry(b.x, top, w, hs[i], LinkAt(links, i))]
  {
  }

  /**
   * After `n` tiles, `currentRow` is the last tile's row, `xOffset` the
   * padding plus one tile and padding per tile placed in that row, and
   * `accumulatedHeight` that row's top below the grid top; the wrap check
   * before tile `n` moves to tile `n`'s row and column.
   */
  lemma {:induction false} BlitClosedForm(k: nat, p: real, w: real, hs: seq<real>, top: real, n: nat)
    requires k >= 1 && n <= |hs|
    ensures BlitAfter(k, p, w, hs, top, n)
            == Blit(p + Times(w + p, Placed(n, k)), LastRow(n, k), top + RowTop(hs, k, p, LastRow(n, k)))
    ensures n < |hs| ==>
            BlitWrap(k, p, hs, BlitAfter(k, p, w, hs, top, n), n)
            == Blit(ColumnX(p, w, k, n), LastRow(n + 1, k), top + RowTop(hs, k, p, LastRow(n + 1, k)))
  {
    if n > 0 {
      BlitClosedForm(k, p, w, hs, top, n - 1);
    }
    if n < |hs| {
      BlitWrapStep(k, p, w, hs, top, n);
    }
  }

  /** The wrap check before tile `n`, given the closed form after `n` tiles. */
  lemma BlitWrapStep(k: nat, p: real, w: real, hs: seq<real>, top: real, n: nat)
    requires k >= 1 && n < |hs|
    requires BlitAfter(k, p, w, hs, top, n)
             == Blit(p + Times(w + p, Placed(n, k)), LastRow(n, k), top + RowTop(hs, k, p, LastRow(n, k)))
    ensures BlitWrap(k, p, hs, BlitAfter(k, p, w, hs, top, n), n)
            == Blit(ColumnX(p, w, k, n), LastRow(n + 1, k), top + RowTop(hs, k, p, LastRow(n + 1, k)))
  {
    if n > 0 {
      WrapArith(n, k);
      if n % k == 0 {
        BlitNewRow(k, p, hs, top, n);
      }
    }
  }

  /** A new row's top is the previous row's top, its tallest tile and the padding. */
  lemma BlitNewRow(k: nat, p: real, hs: seq<real>, top: real, n: nat)
    requires k >= 1 && n >= 1 && n / k == (n - 1) / k + 1
    ensures LastRow(n + 1, k) == LastRow(n, k) + 1
    ensures top + RowTop(hs, k, p, LastRow(n + 1, k))
            == top + RowTop(hs, k, p, LastRow(n, k)) + RowMax(RowOf(hs, k, LastRow(n, k))) + p
  {
  }

  /** The row that the wrap check before tile `i` finishes has been measured. */
  lemma BlitRowMeasured(k: nat, p: real, w: real, hs: seq<real>, top: real, i: nat)
    requires k >= 1 && 0 < i < |hs|
    ensures BlitAfter(k, p, w, hs, top, i).row < |RowHeights(hs, k)|
    ensures RowHeights(hs, k)[BlitAfter(k, p, w, hs, top, i).row] == RowMax(RowOf(hs, k, BlitAfter(k, p, w, hs, top, i).row))
  {
    BlitClosedForm(k, p, w, hs, top, i);
    DivMono(i - 1, |hs| - 1, k);
  }

  /**
   * The wrap check at the head of the placing callback: at the first tile of
   * every row but the first, return to the left padding and move down by the
   * finished row's measured height and the padding. This is one step of the
   * fold `BlitAfter`, whose closed form `BlitClosedForm` gives: tile `i` is
   * blitted at its column and at its row's top below the grid top `top`.
   */
  method WrapBlit(k: nat, p: real, ghost w: real, ghost hs: seq<real>, ghost top: real, rowHeights: seq<real>, i: nat,
                  xOffset: real, currentRow: nat, accumulatedHeight: real)
    returns (x: real, row: nat, y: real)
    requires k >= 1 && i < |hs| && rowHeights == RowHeights(hs, k)
    requires Blit(xOffset, currentRow, accumulatedHeight) == BlitAfter(k, p, w, hs, top, i)
    ensures Blit(x, row, y) == BlitWrap(k, p, hs, BlitAfter(k, p, w, hs, top, i), i)
  {
    x, row, y := xOffset, currentRow, accumulatedHeight;
    if i % k == 0 && i != 0 {
      BlitRowMeasured(k, p, w, hs, top, i);
      row := currentRow + 1;
      x := p;
      y := accumulatedHeight + rowHeights[row - 1] + p;
    }
  }

  /** The point at which tile `i` is blitted, after its wrap check, is its point in `BlitPoints`. */
  lemma BlitPointAt(k: nat, p: real, w: real, hs: seq<real>, top: real, i: nat)
    requires k >= 1 && i < |hs|
    ensures var b := BlitWrap(k, p, hs, BlitAfter(k, p, w, hs, top, i), i);
            Point(b.x, b.y) == BlitPoints(k, p, w, hs, top)[i]
  {
    BlitClosedForm(k, p, w, hs, top, i);
    assert LastRow(i + 1, k) == i / k;
  }

  /** The first `n` points blitted are the first `n` of `BlitPoints`: each tile's column and its row's top below the grid top. */
  lemma {:induction false} BlitTracePrefix(k: nat, p: real, w: real, hs: seq<real>, top: real, n: nat)
    requires k >= 1 && n <= |hs|
    ensures BlitTrace(k, p, w, hs, top, n) == BlitPoints(k, p, w, hs, top)[..n]
  {
    if n > 0 {
      BlitTracePrefix(k, p, w, hs, top, n - 1);
      BlitPointAt(k, p, w, hs, top, n - 1);
      var points := BlitPoints(k, p, w, hs, top);
      assert points[..n] == points[..n - 1] + [points[n - 1]];
    }
  }

  /** The first `n` entries pushed are the first `n` of `PushedEntries`: each tile's column and size, all at the grid top. */
  lemma {:induction false} PushTracePrefix(k: nat, p: real, w: real, hs: seq<real>, links: seq<string>, top: real, n: nat)
    requires k >= 1 && n <= |hs|
    ensures PushTrace(k, p, w, hs, links, top, n) == PushedEntries(k, p, w, hs, links, top)[..n]
  {
    if n > 0 {
      PushTracePrefix(k, p, w, hs, links, top, n - 1);
      BlitClosedForm(k, p, w, hs, top, n - 1);
      var entries := PushedEntries(k, p, w, hs, links, top);
      assert entries[..n] == entries[..n - 1] + [entries[n - 1]];
    }
  }

  /** Over all tiles, the points blitted are those of `BlitPoints`. */
  lemma BlitTraceIsBlitPoints(k: nat, p: real, w: real, hs: seq<real>, top: real)
    requires k >= 1
    ensures BlitTrace(k, p, w, hs, top, |hs|) == BlitPoints(k, p, w, hs, top)
  {
    BlitTracePrefix(k, p, w, hs, top, |hs|);
    assert BlitPoints(k, p, w, hs, top)[..|hs|] == BlitPoints(k, p, w, hs, top);
  }

  /** Over all tiles, the entries pushed are those of `PushedEntries`. */
  lemma PushTraceIsPushedEntries(k: nat, p: real, w: real, hs: seq<real>, links: seq<string>, top: real)
    requires k >= 1
    ensures PushTrace(k, p, w, hs, links, top, |hs|) == PushedEntries(k, p, w, hs, links, top)
  {
    PushTracePrefix(k, p, w, hs, links, top, |hs|);
    assert PushedEntries(k, p, w, hs, links, top)[..|hs|] == PushedEntries(k, p, w, hs, links, top);
  }
}
