/**
 * Value types shared by the layout, the hit-test and the sketch state:
 * the loaded images' intrinsic sizes, the tile sizes kept in `imgSizes`,
 * the entries of `imagePositions`, and p5's `min`/`max`.
 */
module Geometry {

  /** Intrinsic pixel size of a loaded image (`img.width`, `img.height`). */
  datatype Image = Image(width: real, height: real)

  /** An entry of `imgSizes`: the displayed size of one tile. */
  datatype Size = Size(width: real, height: real)

  /**
   * The link stored with an entry. The sketch reads `imageLinks[index]`,
   * which is JavaScript's `undefined` when the link list is shorter than the
   * image list.
   */
  datatype Link = Url(url: string) | Undefined

  /** An entry of `imagePositions`: a tile rectangle and its link. */
  datatype Entry = Entry(x: real, y: real, width: real, height: real, link: Link)

  /** The lower edge of an entry's rectangle. */
  function Bottom(e: Entry): real
  {
    e.y + e.height
  }

  /** The top-left corner at which a tile is blitted by `image(...)`. */
  datatype Point = Point(x: real, y: real)

  /** Pointer appearance set by `cursor(HAND)` / `cursor(ARROW)`. */
  datatype Cursor = Arrow | Hand

  /** `imageLinks[i]`, or `undefined` past its end. */
  function LinkAt(links: seq<string>, i: nat): (l: Link)
    ensures l.Url? <==> i < |links|
    ensures l.Url? ==> l.url == links[i]
  {
    if i < |links| then Url(links[i]) else Undefined
  }

  /** p5's `max` on two numbers. */
  function Max(a: real, b: real): (m: real)
    ensures m >= a && m >= b
    ensures m == a || m == b
  {
    if a >= b then a else b
  }

  /** p5's `min` on two numbers. */
  function Min(a: real, b: real): (m: real)
    ensures m <= a && m <= b
    ensures m == a || m == b
  {
    if a <= b then a else b
  }

  /**
   * The containment test of the hover check and of `mousePressed`:
   * inclusive on all four edges.
   */
  predicate Contains(e: Entry, mx: real, my: real)
  {
    e.x <= mx <= e.x + e.width && e.y <= my <= e.y + e.height
  }
}
