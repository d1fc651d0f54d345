/**
 * The landing-page sketch: the globals of the p5 sketch held by one object,
 * `calculateLayout` (run at setup and on every window resize), the frame
 * routine `draw` (pixelation ramp, row measuring, tile placement, hover
 * cursor) and `mousePressed`. Pointer coordinates are parameters; the window
 * size is the state that `windowResized` changes.
 */
module LandingPage {
  import opened Wrappers
  import opened Geometry
  import opened Layout
  import opened HitTest
  import opened Sequences
  import opened LayoutPass
  import Ramp

  /** The entries that one frame of `draw` pushes onto `imagePositions` for the given window. */
  function FrameEntries(windowWidth: real, windowHeight: real, imgs: seq<Image>, links: seq<string>): seq<Entry>
    requires ValidImages(imgs)
  {
    var k, p, w := PerRow(windowWidth), Padding(windowWidth), TileWidth(windowWidth);
    var hs := Heights(TileSizes(windowWidth, imgs));
    PushedEntries(k, p, w, hs, links, DrawTop(windowHeight, RowHeights(hs, k), p))
  }

  /** Where one frame of `draw` blits each tile for the given window. */
  function Placements(windowWidth: real, windowHeight: real, imgs: seq<Image>): seq<Point>
    requires ValidImages(imgs)
  {
    var k, p, w := PerRow(windowWidth), Padding(windowWidth), TileWidth(windowWidth);
    var hs := Heights(TileSizes(windowWidth, imgs));
    BlitPoints(k, p, w, hs, DrawTop(windowHeight, RowHeights(hs, k), p))
  }

  /** The frame entries and points are those of the placing pass started at the frame's grid top. */
  lemma FrameIsPushed(windowWidth: real, windowHeight: real, imgs: seq<Image>, links: seq<string>, top: real)
    requires ValidImages(imgs)
    requires top == DrawTop(windowHeight, RowHeights(Heights(TileSizes(windowWidth, imgs)), PerRow(windowWidth)), Padding(windowWidth))
    ensures FrameEntries(windowWidth, windowHeight, imgs, links)
            == PushedEntries(PerRow(windowWidth), Padding(windowWidth), TileWidth(windowWidth), Heights(TileSizes(windowWidth, imgs)), links, top)
    ensures Placements(windowWidth, windowHeight, imgs)
            == BlitPoints(PerRow(windowWidth), Padding(windowWidth), TileWidth(windowWidth), Heights(TileSizes(windowWidth, imgs)), top)
  {
  }

  /** The link that a click opens: that of the first entry under the pointer. */
  function LinkUnder(es: seq<Entry>, mx: real, my: real): Option<Link>
  {
    match FirstHit(es, mx, my)
    case Some(i) => Some(es[i].link)
    case None => None
  }

  /**
   * Whenever there is a tile, `draw` blits every tile exactly where
   * `calculateLayout` recorded it: its own centring of the measured rows
   * lands on the same grid top.
   */
  lemma DrawnWhereLaidOut(windowWidth: real, windowHeight: real, imgs: seq<Image>, links: seq<string>, i: nat)
    requires ValidImages(imgs) && i < |imgs|
    ensures |Placements(windowWidth, windowHeight, imgs)| == |Positions(windowWidth, windowHeight, imgs, links)| == |imgs|
    ensures Placements(windowWidth, windowHeight, imgs)[i]
            == Point(Positions(windowWidth, windowHeight, imgs, links)[i].x, Positions(windowWidth, windowHeight, imgs, links)[i].y)
  {
    var k, p := PerRow(windowWidth), Padding(windowWidth);
    var hs := Heights(TileSizes(windowWidth, imgs));
    DrawTopAgrees(windowHeight, hs, k, p);
    LayoutAt(windowWidth, windowHeight, imgs, links, i);
  }

  /**
   * A click inside tile `i` of the layout opens that tile's link, whatever
   * entries were pushed after the layout: the tiles do not overlap and the
   * scan meets the layout's entries first.
   */
  lemma ClickOpensTileLink(windowWidth: real, windowHeight: real, imgs: seq<Image>, links: seq<string>,
                           pushed: seq<Entry>, i: nat, mx: real, my: real)
    requires ValidImages(imgs) && TileWidth(windowWidth) > 0.0 && i < |imgs|
    requires Contains(Positions(windowWidth, windowHeight, imgs, links)[i], mx, my)
    ensures LinkUnder(Positions(windowWidth, windowHeight, imgs, links) + pushed, mx, my) == Some(LinkAt(links, i))
  {
    var laidOut := Positions(windowWidth, windowHeight, imgs, links);
    FirstHitAppend(laidOut, pushed, mx, my);
    var j := FirstHit(laidOut, mx, my).value;
    TilesDisjoint(windowWidth, windowHeight, imgs, links, i, j, mx, my);
    LayoutAt(windowWidth, windowHeight, imgs, links, i);
    assert (laidOut + pushed)[i] == laidOut[i];
  }

  /** Five images whose tiles, 100 wide, are 200, 100, 50, 100 and 300 high. */
  function GapExample(): seq<Image>
  {
    [Image(100.0, 200.0), Image(100.0, 100.0), Image(100.0, 50.0), Image(100.0, 100.0), Image(100.0, 300.0)]
  }

  /** The grid of `GapExample` in a 450 by 1000 window: two rows, 200 and 300 high, the grid top at 245. */
  lemma GapExampleGrid()
    ensures ValidImages(GapExample())
    ensures PerRow(450.0) == 4 && Padding(450.0) == 10.0 && TileWidth(450.0) == 100.0
    ensures Heights(TileSizes(450.0, GapExample())) == [200.0, 100.0, 50.0, 100.0, 300.0]
    ensures RowTop([200.0, 100.0, 50.0, 100.0, 300.0], 4, 10.0, 1) == 210.0
    ensures GridTop(1000.0, [200.0, 100.0, 50.0, 100.0, 300.0], 4, 10.0) == 245.0
  {
    var imgs := GapExample();
    assert ValidImages(imgs);
    var k, p, w := PerRow(450.0), Padding(450.0), TileWidth(450.0);
    assert k == 4 && p == 10.0 && w == 100.0;
    var hs := Heights(TileSizes(450.0, imgs));
    assert hs == [200.0, 100.0, 50.0, 100.0, 300.0];
    assert RowOf(hs, k, 0) == [200.0, 100.0, 50.0, 100.0];
    assert RowMax([200.0, 100.0, 50.0, 100.0]) == 200.0 by {
      assert [200.0, 100.0, 50.0, 100.0][..3] == [200.0, 100.0, 50.0];
      assert [200.0, 100.0, 50.0][..2] == [200.0, 100.0];
      assert [200.0, 100.0][..1] == [200.0];
      assert [200.0][..0] == [];
    }
    assert RowOf(hs, k, 1) == [300.0];
    assert RowMax([300.0]) == 300.0 by {
      assert [300.0][..0] == [];
    }
    assert RowTop(hs, k, p, 1) == 210.0;
    assert RowCount(5, k) == 2;
  }

  /**
   * The entries that `draw` pushes with the grid top as their `y` catch
   * clicks where no tile is drawn. In a 450 by 1000 window (four tiles per
   * row, padding 10, tiles 100 wide), five images whose tiles are 200, 100,
   * 50, 100 and 300 high give two rows, the grid top at 245 and the second
   * row's top at 455. The point (50, 450) lies in the gap under tile 0 and is
   * in no laid-out tile, yet the entry pushed for tile 4 spans 245 to 545
   * there, so after one frame a click opens tile 4's link.
   */
  lemma PushedEntryOverGap(links: seq<string>)
    ensures ValidImages(GapExample())
    ensures LinkUnder(Positions(450.0, 1000.0, GapExample(), links), 50.0, 450.0) == None
    ensures LinkUnder(Positions(450.0, 1000.0, GapExample(), links) + FrameEntries(450.0, 1000.0, GapExample(), links), 50.0, 450.0)
            == Some(LinkAt(links, 4))
  {
    GapExampleGrid();
    var laid := Positions(450.0, 1000.0, GapExample(), links);
    var frame := FrameEntries(450.0, 1000.0, GapExample(), links);
    GapMissesLayout(links);
    GapHitsPush(links);
    FirstHitAppend(laid, frame, 50.0, 450.0);
    assert (laid + frame)[5 + 4] == frame[4];
  }

  /** No laid-out tile of `GapExample` contains (50, 450). */
  lemma GapMissesLayout(links: seq<string>)
    ensures ValidImages(GapExample())
    ensures |Positions(450.0, 1000.0, GapExample(), links)| == 5
    ensures FirstHit(Positions(450.0, 1000.0, GapExample(), links), 50.0, 450.0) == None
  {
    GapExampleGrid();
    var imgs := GapExample();
    var laid := Positions(450.0, 1000.0, imgs, links);
    forall i | 0 <= i < 5
      ensures !Contains(laid[i], 50.0, 450.0)
    {
      LayoutAt(450.0, 1000.0, imgs, links, i);
      TimesIsProduct(110.0, i % 4);
    }
  }

  /** Of the entries one frame pushes for `GapExample`, the first to contain (50, 450) is tile 4's. */
  lemma GapHitsPush(links: seq<string>)
    ensures ValidImages(GapExample())
    ensures |FrameEntries(450.0, 1000.0, GapExample(), links)| == 5
    ensures FirstHit(FrameEntries(450.0, 1000.0, GapExample(), links), 50.0, 450.0) == Some(4)
    ensures FrameEntries(450.0, 1000.0, GapExample(), links)[4].link == LinkAt(links, 4)
  {
    GapExampleGrid();
    var hs := [200.0, 100.0, 50.0, 100.0, 300.0];
    DrawTopAgrees(1000.0, hs, 4, 10.0);
    var frame := FrameEntries(450.0, 1000.0, GapExample(), links);
    forall i | 0 <= i < 5
      ensures frame[i] == Entry(ColumnX(10.0, 100.0, 4, i), 245.0, 100.0, hs[i], LinkAt(links, i))
    {
    }
    forall i | 0 <= i < 4
      ensures !Contains(frame[i], 50.0, 450.0)
    {
      TimesIsProduct(110.0, i % 4);
    }
    assert frame[4] == Entry(10.0, 245.0, 100.0, 300.0, LinkAt(links, 4));
    assert Contains(frame[4], 50.0, 450.0);
  }

  /** The state of the sketch: the globals that its handlers read and write. */
  class Sketch {
    const imgs: seq<Image>
    const imageLinks: seq<string>
    var windowWidth: real
    var windowHeight: real
    var imgSizes: seq<Size>
    var imgsPerRow: nat
    var padding: real
    var res: real
    var currentResSpeed: real
    var maxRes: real
    var imagePositions: seq<Entry>
    var cursor: Cursor

    /** The layout globals are those that `calculateLayout` computes for the current window. */
    predicate LaidOut()
      reads this
    {
      && ValidImages(imgs)
      && imgsPerRow == PerRow(windowWidth)
      && padding == Padding(windowWidth)
      && maxRes == TileWidth(windowWidth)
      && imgSizes == TileSizes(windowWidth, imgs)
      && |imagePositions| >= |imgs|
      && imagePositions[..|imgs|] == Positions(windowWidth, windowHeight, imgs, imageLinks)
    }

    /** `res` and `currentResSpeed` as a ramp state. */
    function RampState(): Ramp.State
      reads this
    {
      Ramp.State(res, currentResSpeed)
    }

    predicate Valid()
      reads this
    {
      LaidOut() && Ramp.Invariant(RampState())
    }

    /** `preload` and `setup`: the images and links are fixed, the canvas fills the window, the layout is computed. */
    constructor(images: seq<Image>, links: seq<string>, width: real, height: real)
      requires ValidImages(images)
      ensures Valid()
      ensures imgs == images && imageLinks == links && windowWidth == width && windowHeight == height
      ensures imagePositions == Positions(width, height, images, links)
      ensures RampState() == Ramp.Initial && cursor == Arrow
    {
      imgs := images;
      imageLinks := links;
      windowWidth := width;
      windowHeight := height;
      imgSizes := [];
      imgsPerRow := 0;
      padding := 0.0;
      res := Ramp.InitialRes;
      currentResSpeed := Ramp.InitialSpeed;
      maxRes := 0.0;
      imagePositions := [];
      cursor := Arrow;
      new;
      CalculateLayout();
    }

    /** `windowResized`: the window takes its new size and the layout is recomputed; the ramp is not reset. */
    method WindowResized(width: real, height: real)
      requires Valid()
      modifies this
      ensures Valid()
      ensures windowWidth == width && windowHeight == height
      ensures imagePositions == Positions(width, height, imgs, imageLinks)
      ensures RampState() == old(RampState()) && cursor == old(cursor)
    {
      windowWidth := width;
      windowHeight := height;
      CalculateLayout();
    }

    /**
     * `calculateLayout`: picks the row count and padding for the window
     * width and the tile width, places the tiles row by row, then shifts them
     * all down so that the grid is centred vertically.
     */
    method CalculateLayout()
      requires ValidImages(imgs) && |imgSizes| <= |imgs|
      modifies this`imgsPerRow, this`padding, this`maxRes, this`imgSizes, this`imagePositions
      ensures LaidOut()
      ensures imagePositions == Positions(windowWidth, windowHeight, imgs, imageLinks)
    {
      imgsPerRow := if windowWidth < Breakpoint then MobileRow else DesktopRow;
      padding := if windowWidth < Breakpoint then PaddingMobile else PaddingDesktop;
      var totalPadding := padding * (imgsPerRow + 1) as real;
      var totalAvailableWidth := windowWidth - totalPadding;
      var dynamicWidth := totalAvailableWidth / imgsPerRow as real;
      maxRes := dynamicWidth;
      assert dynamicWidth == TileWidth(windowWidth);
      var yOffset, rowHeight := PlaceTiles(dynamicWidth);
      var totalContentHeight := yOffset + rowHeight;
      var startYOffset := (windowHeight - totalContentHeight) / 2.0;
      assert startYOffset == GridTop(windowHeight, Heights(imgSizes), imgsPerRow, padding);
      CentreGrid(startYOffset);
      assert imagePositions == Positions(windowWidth, windowHeight, imgs, imageLinks);
      assert imagePositions[..|imgs|] == imagePositions;
    }

    /**
     * The `imgs.forEach` pass of `calculateLayout`: sizes each tile from its
     * image's aspect ratio, wraps to a new row every `imgsPerRow` tiles, and
     * records each tile's position relative to the grid's top. Returns the
     * last row's top and height.
     */
    method PlaceTiles(dynamicWidth: real) returns (yOffset: real, rowHeight: real)
      requires ValidImages(imgs) && |imgSizes| <= |imgs| && imgsPerRow >= 1
      modifies this`imgSizes, this`imagePositions
      ensures imgSizes == SizesFor(dynamicWidth, imgs)
      ensures imagePositions == RowEntries(imgsPerRow, padding, dynamicWidth, imgs, imageLinks)
      ensures yOffset + rowHeight == ContentHeight(Heights(imgSizes), imgsPerRow, padding)
    {
      ghost var k, p, w := imgsPerRow, padding, dynamicWidth;
      ghost var sizes := SizesFor(dynamicWidth, imgs);
      ghost var hs := Heights(sizes);
      assert |sizes| == |imgs|;
      var xOffset := padding;
      yOffset := 0.0;
      rowHeight := 0.0;
      imagePositions := [];
      var index := 0;
      while index < |imgs|
        modifies this`imgSizes, this`imagePositions
        invariant 0 <= index <= |imgs|
        invariant Pass(xOffset, yOffset, rowHeight) == PassAfter(k, p, w, hs, index)
        invariant index <= |imgSizes| <= |imgs|
        invariant imgSizes[..index] == sizes[..index]
        invariant imagePositions == PassEntries(k, p, w, hs, imageLinks, index)
      {
        ghost var wrapped := WrapCheck(k, p, Pass(xOffset, yOffset, rowHeight), index);
        if index % imgsPerRow == 0 && index != 0 {
          yOffset := yOffset + rowHeight + padding;
          rowHeight := 0.0;
          xOffset := padding;
        }
        assert Pass(xOffset, yOffset, rowHeight) == wrapped;
        var img := imgs[index];
        SizeAt(w, imgs, index);
        var aspectRatio := img.width / img.height;
        var dynamicHeight := dynamicWidth / aspectRatio;
        // `imgSizes[index] = ...` overwrites the size left by an earlier layout, or appends
        AssignExtendsPrefix(imgSizes, sizes, index);
        imgSizes := Assign(imgSizes, index, Size(dynamicWidth, dynamicHeight));
        rowHeight := Max(rowHeight, dynamicHeight);
        // `imagePositions` was emptied above, so `imagePositions[index] = ...` appends
        imagePositions := imagePositions + [Entry(xOffset, yOffset, dynamicWidth, dynamicHeight, LinkAt(imageLinks, index))];
        xOffset := xOffset + dynamicWidth + padding;
        index := index + 1;
      }
      assert imgSizes == sizes;
      PassEntriesAreRows(k, p, w, imgs, imageLinks, |imgs|);
      PassContentHeight(k, p, w, hs);
    }

    /** The `imagePositions.forEach` pass of `calculateLayout`: moves every entry down by `startYOffset`. */
    method CentreGrid(startYOffset: real)
      modifies this`imagePositions
      ensures imagePositions == Shifted(old(imagePositions), startYOffset)
    {
      var index := 0;
      while index < |imagePositions|
        invariant 0 <= index <= |imagePositions| == |old(imagePositions)|
        invariant forall j :: 0 <= j < index ==> imagePositions[j] == Shifted(old(imagePositions), startYOffset)[j]
        invariant forall j :: index <= j < |imagePositions| ==> imagePositions[j] == old(imagePositions)[j]
      {
        imagePositions := imagePositions[index := imagePositions[index].(y := imagePositions[index].y + startYOffset)];
        index := index + 1;
      }
    }

    /**
     * `draw`: one frame. The ramp takes a step, the rows are measured, the
     * tiles are blitted row by row from the centred top, each tile pushes an
     * entry onto `imagePositions`, and after each tile the cursor shows
     * whether the pointer is over any entry. Returns where the tiles were
     * blitted, in order.
     */
    method Draw(mouseX: real, mouseY: real) returns (drawn: seq<Point>)
      requires Valid() && maxRes > 0.0
      modifies this`res, this`currentResSpeed, this`imagePositions, this`cursor
      ensures Valid()
      ensures RampState() == Ramp.Step(old(RampState()), maxRes)
      ensures imagePositions == old(imagePositions) + FrameEntries(windowWidth, windowHeight, imgs, imageLinks)
      ensures drawn == Placements(windowWidth, windowHeight, imgs)
      ensures cursor == if |imgs| == 0 then old(cursor)
                        else if AnyContains(imagePositions, mouseX, mouseY) then Hand else Arrow
    {
      StepRamp();
      var rowHeights, yOffset := MeasureFrame();
      FrameIsPushed(windowWidth, windowHeight, imgs, imageLinks, yOffset);
      ghost var laidOut := imagePositions[..|imgs|];
      drawn := PlaceFrame(rowHeights, yOffset, mouseX, mouseY);
      assert imagePositions[..|imgs|] == laidOut;
    }

    /**
     * The measuring pass of `draw` and the grid top it centres from: the
     * tallest tile of each row, and half of what the rows and the paddings
     * between them leave of the window height.
     */
    method MeasureFrame() returns (rowHeights: seq<real>, yOffset: real)
      requires ValidImages(imgs) && imgsPerRow >= 1 && maxRes > 0.0
      requires imgSizes == SizesFor(maxRes, imgs)
      ensures rowHeights == RowHeights(Heights(imgSizes), imgsPerRow)
      ensures yOffset == DrawTop(windowHeight, rowHeights, padding)
    {
      HeightsPositive(maxRes, imgs);
      rowHeights := MeasureRows(imgSizes, imgsPerRow);
      ghost var top := DrawTop(windowHeight, rowHeights, padding);
      var totalGridHeight := Sum(rowHeights) + padding * (|rowHeights| - 1) as real;
      yOffset := (windowHeight - totalGridHeight) / 2.0;
      assert yOffset == top;
    }

    /** The pixelation ramp at the head of `draw`: the step speed grows, then `res` grows towards `maxRes`. */
    method StepRamp()
      requires Ramp.Invariant(RampState())
      modifies this`res, this`currentResSpeed
      ensures RampState() == Ramp.Step(old(RampState()), maxRes)
      ensures Ramp.Invariant(RampState())
    {
      Ramp.StepSpeed(RampState(), maxRes);
      if currentResSpeed < Ramp.MaxResSpeed {
        currentResSpeed := currentResSpeed + 1.0;
      }
      if res < maxRes {
        res := res + currentResSpeed;
        res := Min(res, maxRes);
      }
    }

    /**
     * The second `imgSizes.forEach` of `draw`: blits the tiles row by row,
     * moving down by each measured row height and the padding, pushes an
     * entry per tile whose `y` is the grid top `yOffset`, and after each tile
     * sets the cursor by whether the pointer is over any entry.
     */
    method PlaceFrame(rowHeights: seq<real>, yOffset: real, mouseX: real, mouseY: real) returns (drawn: seq<Point>)
      requires ValidImages(imgs) && imgsPerRow >= 1
      requires imgSizes == SizesFor(maxRes, imgs)
      requires rowHeights == RowHeights(Heights(imgSizes), imgsPerRow)
      modifies this`imagePositions, this`cursor
      ensures imagePositions == old(imagePositions) + PushedEntries(imgsPerRow, padding, maxRes, Heights(imgSizes), imageLinks, yOffset)
      ensures drawn == BlitPoints(imgsPerRow, padding, maxRes, Heights(imgSizes), yOffset)
      ensures cursor == if |imgs| == 0 then old(cursor)
                        else if AnyContains(imagePositions, mouseX, mouseY) then Hand else Arrow
    {
      var sizes, k, p := imgSizes, imgsPerRow, padding;
      ghost var w, hs, links := maxRes, Heights(imgSizes), imageLinks;
      ghost var before := imagePositions;
      var xOffset := p;
      var currentRow: nat := 0;
      var accumulatedHeight := yOffset;
      drawn := [];
      var i := 0;
      while i < |sizes|
        modifies this`imagePositions, this`cursor
        invariant 0 <= i <= |sizes| == |hs|
        invariant Blit(xOffset, currentRow, accumulatedHeight) == BlitAfter(k, p, w, hs, yOffset, i)
        invariant drawn == BlitTrace(k, p, w, hs, yOffset, i)
        invariant imagePositions == before + PushTrace(k, p, w, hs, links, yOffset, i)
        invariant cursor == if i == 0 then old(cursor)
                            else if AnyContains(imagePositions, mouseX, mouseY) then Hand else Arrow
      {
        var size := sizes[i];
        assert size == Size(w, hs[i]);
        ghost var wrapped := BlitWrap(k, p, hs, BlitAfter(k, p, w, hs, yOffset, i), i);
        BlitStep(k, p, w, hs, links, yOffset, i);
        xOffset, currentRow, accumulatedHeight := WrapBlit(k, p, w, hs, yOffset, rowHeights, i, xOffset, currentRow, accumulatedHeight);
        drawn := drawn + [Point(xOffset, accumulatedHeight)];
        var entry := Entry(xOffset, yOffset, size.width, size.height, LinkAt(imageLinks, i));
        assert entry == Entry(wrapped.x, yOffset, w, hs[i], LinkAt(links, i));
        assert before + PushTrace(k, p, w, hs, links, yOffset, i) + [entry]
            == before + PushTrace(k, p, w, hs, links, yOffset, i + 1);
        imagePositions := imagePositions + [entry];
        xOffset := xOffset + size.width + p;
        var isHovering := IsHovering(imagePositions, mouseX, mouseY);
        cursor := if isHovering then Hand else Arrow;
        i := i + 1;
      }
      BlitTraceIsBlitPoints(k, p, w, hs, yOffset);
      PushTraceIsPushedEntries(k, p, w, hs, imageLinks, yOffset);
    }

    /** In a laid-out sketch, a click inside a tile opens that tile's link, however many frames have pushed entries since. */
    lemma ClickOpensLink(mouseX: real, mouseY: real, i: nat)
      requires Valid() && TileWidth(windowWidth) > 0.0 && i < |imgs|
      requires Contains(Positions(windowWidth, windowHeight, imgs, imageLinks)[i], mouseX, mouseY)
      ensures LinkUnder(imagePositions, mouseX, mouseY) == Some(LinkAt(imageLinks, i))
    {
      assert imagePositions == imagePositions[..|imgs|] + imagePositions[|imgs|..];
      ClickOpensTileLink(windowWidth, windowHeight, imgs, imageLinks, imagePositions[|imgs|..], i, mouseX, mouseY);
    }

    /** `mousePressed`: the link of the first entry under the pointer is opened, if there is one. */
    method MousePressed(mouseX: real, mouseY: real) returns (target: Option<Link>)
      ensures target == LinkUnder(imagePositions, mouseX, mouseY)
    {
      target := None;
      var i := 0;
      while i < |imagePositions|
        invariant 0 <= i <= |imagePositions|
        invariant forall j :: 0 <= j < i ==> !Contains(imagePositions[j], mouseX, mouseY)
      {
        var e := imagePositions[i];
        if mouseX >= e.x && mouseX <= e.x + e.width && mouseY >= e.y && mouseY <= e.y + e.height {
          target := Some(e.link);
          break;
        }
        i := i + 1;
      }
    }
  }
}
