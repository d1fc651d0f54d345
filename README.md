# Landing-page grid sketch, modelled in Dafny

This project models the logic of `sketch.js`, the p5.js sketch behind the
landing page of a photography portfolio. Twelve photos are shown as a
wrapping grid of equal-width tiles that is centred in the window. Each tile
sharpens from a pixelated start as a global sampling resolution ramps up, and
clicking a tile opens its link. The model covers:

- `calculateLayout`: it picks the row count and the padding from a single
  breakpoint, gives every tile the same width, and takes each tile's height
  from its image's aspect ratio. It wraps rows every `imgsPerRow` tiles,
  records every tile in `imagePositions`, then moves every tile vertically by
  the same signed shift so the grid is centred. A grid taller than the window
  gets a negative shift: it overflows by the same amount above the top and
  below the bottom of the canvas.
- `draw`:
  - the pixelation ramp over `res` and `currentResSpeed`;
  - the measuring pass that collects each row's height;
  - the centring that recomputes the grid top;
  - the placing pass that blits the tiles row by row and pushes one entry per
    tile onto `imagePositions`;
  - the hover check that sets the cursor.
- `mousePressed`: the first entry under the pointer gives the link to open.
- `setup` and `windowResized`: both recompute the layout.

The sketch's globals are the fields of the class `LandingPage.Sketch`.
`imgs` and `imageLinks` are fixed after `preload`. The handlers are methods
that change those fields. Each method is proved against pure specification
functions:

- `Layout.Positions` gives every tile's rectangle and link after a layout.
- `LayoutPass.PassAfter` / `PassEntries` and `LayoutPass.BlitAfter` /
  `BlitTrace` / `PushTrace` follow the running variables of the two
  `forEach` loops step by step. Lemmas reduce them to closed forms:
  column `i % k`, row `i / k`, row top = earlier rows' tallest tiles plus
  paddings.
- `Ramp.Step` is one frame of the ramp.
- `HitTest.FirstHit` is the in-order scan for the entry under the pointer.

Numbers are exact `real`s. Pointer coordinates are parameters. The window
size is the pair of fields that `WindowResized` sets.

## Model

| member | source | states |
|---|---|---|
| Geometry.LinkAt | sketch.js:162 | `imageLinks[index]` is a link exactly when `index` is within the list, and then it is that element; past the end it is JavaScript's `undefined` |
| Geometry.Max | sketch.js:160 | p5's `max` is at least both arguments and equal to one of them |
| Geometry.Min | sketch.js:65 | p5's `min` is at most both arguments and equal to one of them |
| Sequences.Assign | sketch.js:158 | `imgSizes[index] = ...` on a list without holes puts the value at `index` (overwriting or appending) and leaves every other element as it was |
| Layout.PerRow | sketch.js:135 | whichever side of the breakpoint the window is on, `imgsPerRow` is at least 1, so the tile width's division and the row wrap are defined; which count is chosen is stated by `Layout.BreakpointSelectsOnePair` |
| Layout.Padding | sketch.js:136 | whichever side of the breakpoint the window is on, `padding` is positive; which padding is chosen is stated by `Layout.BreakpointSelectsOnePair` |
| Layout.BreakpointSelectsOnePair | sketch.js:135-136 | a width below 860 selects `mobileRow` with `paddingMobile`, a width of 860 or more selects `desktopRow` with `paddingDesktop`, and exactly one pair is active |
| Layout.TileWidthPositive | sketch.js:138-140 | the tile width is positive exactly when the window is wider than `padding * (imgsPerRow + 1)` |
| Layout.WindowSpan | sketch.js:138-140 | `imgsPerRow` tiles with a padding before each and one after the last span exactly the window width |
| Layout.ColumnXClosedForm | sketch.js:144-164 | tile `i` starts at `padding + (i mod imgsPerRow) * (width + padding)` |
| Layout.LayoutAt | sketch.js:144-172 | entry `i` of the layout has its column's x, its row's top plus the centring shift as y, the common tile width, its own height and `imageLinks[i]` |
| Layout.AspectPreserved | sketch.js:156-162 | every tile has the common width and keeps its image's height-to-width ratio |
| Layout.HeightsPositive | sketch.js:156-158 | with a positive tile width every tile height is positive |
| Layout.RowHeightIsTallest | sketch.js:146-160 | a row's height is never negative and at least each of its tiles' heights; with positive heights it is the height of one of them |
| Layout.RowTopBelow | sketch.js:150-152 | a row's bottom plus the padding is never below the top of any later row |
| Layout.TilesInRowApart | sketch.js:150-164 | two tiles of one row share a y, and the later one starts at least one padding after the earlier one ends |
| Layout.RowsApart | sketch.js:150-162 | a tile's bottom plus the padding is never below the top of a tile in a later row |
| Layout.TilesDisjoint | sketch.js:144-172 | no point, edges included, lies in two tiles of one layout |
| Layout.RowFitsWindow | sketch.js:138-164 | every tile ends, padding included, within the window, and the last column ends exactly at the window's edge |
| Layout.GridCentred | sketch.js:167-172 | after centring, every tile lies between the first row's top and the same distance above the window's bottom, and some tile of the last row reaches that bound |
| Layout.DrawTopAgrees | sketch.js:83-84 | whenever there is a tile, the grid top that `draw` computes from its measured rows equals the centring shift of `calculateLayout` |
| Layout.DrawTopWithoutTiles | sketch.js:83-84 | with no tile, `draw` counts `padding * -1` into the grid height, so its top is half a padding below the one of `calculateLayout` |
| LayoutPass.PassClosedForm | sketch.js:144-165 | after `n` tiles of the layout loop, `xOffset`, `yOffset` and `rowHeight` are the padding plus the tiles placed in the current row, that row's top, and its tallest tile so far; the wrap check before tile `n` moves to column `n % k` of row `n / k` |
| LayoutPass.PassEntriesAreRows | sketch.js:147-165 | the entries that the layout loop writes are the uncentred layout, one per image in order |
| LayoutPass.PassContentHeight | sketch.js:149-167 | after the last tile, `yOffset + rowHeight` is the height of the grid's content |
| LayoutPass.MeasureRows | sketch.js:67-81 | the measuring pass of `draw` yields exactly one height per row, namely that row's tallest tile |
| LayoutPass.BlitClosedForm | sketch.js:85-106 | after `n` tiles of the placing loop, `currentRow` is the last tile's row, `xOffset` the padding plus one tile width and padding per tile placed in that row, and `accumulatedHeight` its row's top below the grid top; before tile `n` the wrap check moves to tile `n`'s column and row |
| LayoutPass.WrapBlit | sketch.js:90-94 | at the first tile of every row but the first, the wrap check goes back to the padding, moves to the next row and adds the measured height of the finished row, read from `rowHeights[currentRow - 1]`, plus the padding: one step of `BlitWrap`, whose row heights are the rows' tallest tiles |
| LayoutPass.BlitRowMeasured | sketch.js:88-92 | the row whose height the wrap check adds, `rowHeights[currentRow - 1]`, has always been measured |
| LayoutPass.BlitTraceIsBlitPoints | sketch.js:85-106 | the tiles are blitted at their column and at their row's top below the grid top |
| LayoutPass.PushTraceIsPushedEntries | sketch.js:107 | the entries pushed per frame have each tile's column and size, but all have the grid top as y |
| HitTest.FirstHit | sketch.js:176-180 | the scan finds nothing exactly when no entry contains the pointer; otherwise it finds the first such entry |
| HitTest.IsHovering | sketch.js:110-122 | the hover loop reports a hit exactly when some entry contains the pointer |
| HitTest.FirstHitAppend | sketch.js:176-180 | entries appended later never take a hit away from earlier ones |
| HitTest.AnyContainsAppend | sketch.js:112-117 | the pointer is over a concatenation exactly when it is over one of its parts |
| Ramp.StepSpeed | sketch.js:60-62 | a frame keeps the speed in `[0, maxResSpeed + 1)`, makes it at least 1, and adds exactly 1 precisely when it was below `maxResSpeed`, leaving it unchanged otherwise |
| Ramp.SpeedSchedule | sketch.js:60-62 | from the initial state the speed is 1.1 after one frame and 2.1 from the second frame on |
| Ramp.ResNeverDecreases | sketch.js:63-66 | `res` never decreases, and it does not change once it is at or above `maxRes` |
| Ramp.StaysClamped | sketch.js:63-66 | a `res` at or below `maxRes` stays at or below it, and one equal to `maxRes` stays there |
| Ramp.RampProgress | sketch.js:60-66 | after `n` frames `res` is at least `min(maxRes, res + n)`, and never above `maxRes` if it started at or below |
| Ramp.RampCompletes | sketch.js:60-66 | starting at or below `maxRes`, `res` equals `maxRes` after as many frames as the gap |
| LandingPage.DrawnWhereLaidOut | sketch.js:85-106 | whenever there is a tile, `draw` blits every tile at the corner where `calculateLayout` recorded it |
| LandingPage.ClickOpensTileLink | sketch.js:175-182 | a click inside a laid-out tile opens that tile's link, whatever entries were pushed after the layout |
| LandingPage.PushedEntryOverGap | sketch.js:107 | in a 450 by 1000 window with tiles 200, 100, 50, 100 and 300 high, the point (50, 450) is in no laid-out tile, yet after one frame a click there opens `imageLinks[4]`, because the entry pushed for tile 4 sits at the grid top |
| LandingPage.Sketch.constructor | sketch.js:53-56 | after setup the layout matches the window, the ramp is at its initial state and the sketch invariant holds |
| LandingPage.Sketch.WindowResized | sketch.js:129-132 | a resize takes the new window size and rebuilds the layout for it, and leaves the ramp and cursor as they were |
| LandingPage.Sketch.CalculateLayout | sketch.js:134-173 | `imgsPerRow`, `padding`, `maxRes`, `imgSizes` and `imagePositions` become those of the specification layout for the current window |
| LandingPage.Sketch.PlaceTiles | sketch.js:144-165 | the layout loop fills `imgSizes` with the tile sizes and `imagePositions` with the uncentred layout, and returns the content height |
| LandingPage.Sketch.CentreGrid | sketch.js:170-172 | every entry moves vertically by the same signed centring shift (upwards when the grid is taller than the window), and nothing else changes |
| LandingPage.Sketch.Draw | sketch.js:58-127 | a frame steps the ramp and appends one entry per tile at the grid top. It returns the blit corners of the layout, keeps the sketch invariant, and, when there is a tile, leaves the cursor HAND exactly when the pointer is over some entry (with no tile the cursor is untouched) |
| LandingPage.Sketch.StepRamp | sketch.js:60-66 | the ramp globals take one step of the ramp and keep its invariant |
| LandingPage.Sketch.MeasureFrame | sketch.js:67-84 | `rowHeights` is the tallest tile per row and `yOffset` the grid top centred from them |
| LandingPage.Sketch.PlaceFrame | sketch.js:85-126 | the placing loop returns each tile's blit corner, appends the pushed entries in order, and sets the cursor by the hover check after the last tile |
| LandingPage.Sketch.ClickOpensLink | sketch.js:175-182 | in a laid-out sketch, however many frames have run, a click inside tile `i` opens `imageLinks[i]` |
| LandingPage.Sketch.MousePressed | sketch.js:175-182 | the link opened is that of the first entry containing the pointer, and none when no entry contains it |

## Left out

- `preload`, `loadImage`, `createCanvas`, `resizeCanvas` and `background` are platform I/O. The images' sizes and the links are constructor parameters, and so is the number of images, instead of `numImages = 12` and the literal link list.
- Rendering with `createGraphics`, `image`, `noSmooth` and `remove` is not modelled. `Draw` returns the corner at which each tile is blitted; the way `res` controls the pixelation is not modelled.
- `window.open` and `cursor(...)` are side effects. `MousePressed` returns the link to open, and the cursor is a field.
- `touchStarted` is not modelled. It reads `yOffset`, `columns` and `rowHeights`, which do not exist at global scope, so as written it throws.
- Numbers are exact reals. IEEE-754 rounding and wrap-around are not modelled.
- Every image is assumed to have a positive width and height (`Layout.ValidImages`). With a zero height the source divides by zero and produces `Infinity` or `NaN`, which reals cannot represent.
- LandingPage.Sketch.Draw: requires a positive tile width (`maxRes > 0`), so that every tile height is positive. With a height of 0 or less, the measuring pass can leave holes in `rowHeights` that the sum then skips; sequences without holes cannot model that.
- LayoutPass.MeasureRows: requires positive heights for the same reason. The `xOffset` that the measuring pass advances is never read, so it is not modelled.
- LandingPage.Sketch.CalculateLayout: requires `|imgSizes| <= |imgs|`. This always holds, because `imgs` is fixed after `preload` and only this method writes `imgSizes`.
- The hover check and the click test run over all of `imagePositions`, including the entries that `draw` pushes every frame with the grid top as y. The model keeps that push, so the list grows by one frame's entries per call of `Draw`.
- The pushed entries of tiles below the first row keep their own height but start at the grid top, so they cover points where no tile is drawn, such as the gaps between rows. A click or hover there opens or signals a tile's link (`LandingPage.PushedEntryOverGap`). The model keeps this behaviour as written rather than correcting it, because the code does not show whether the push was meant to go at the tile's row or to be dropped.
- The link list may be shorter than the image list. The source then stores `undefined`, which the model keeps as `Link.Undefined` rather than rejecting the mismatch as a configuration error.
- The sketch has no hover-raise animation, no per-tile or staggered ramp speeds and no snap threshold. The ramp is one global `res`. The hover cursor is set at every window width, not only on desktop. A resize keeps the ramp's progress, so after the window shrinks `res` can stay above the new, smaller `maxRes`; `res <= maxRes` is therefore not an invariant of `LandingPage.Sketch`. The model follows the code on each of these points.
