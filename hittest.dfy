/**
 * Hit-testing of the pointer against `imagePositions`: the hover loop of
 * `draw` and the loop of `mousePressed` both scan the entries in order and
 * stop at the first rectangle that contains the pointer.
 */
module HitTest {
  import opened Wrappers
  import opened Geometry

  /** Some entry contains the pointer. */
  predicate AnyContains(es: seq<Entry>, mx: real, my: real)
  {
    exists i :: 0 <= i < |es| && Contains(es[i], mx, my)
  }

  /** The index at which an in-order scan of the entries stops, if any. */
  function FirstHit(es: seq<Entry>, mx: real, my: real): (r: Option<nat>)
    ensures r.None? <==> !AnyContains(es, mx, my)
    ensures r.Some? ==> r.value < |es| && Contains(es[r.value], mx, my)
    ensures r.Some? ==> forall j :: 0 <= j < r.value ==> !Contains(es[j], mx, my)
  {
    if es == [] then None
    else if Contains(es[0], mx, my) then Some(0)
    else
      match FirstHit(es[1..], mx, my)
      case None =>
        assert forall i :: 1 <= i < |es| ==> es[i] == es[1..][i - 1];
        None
      case Some(i) =>
        assert forall j :: 1 <= j <= i ==> es[j] == es[1..][j - 1];
        Some(i + 1)
  }

  /**
   * The hover loop: walks the entries and breaks at the first one under the
   * pointer. The caller sets `cursor(HAND)` when it reports a hit and
   * `cursor(ARROW)` otherwise.
   */
  method IsHovering(es: seq<Entry>, mx: real, my: real) returns (hovering: bool)
    ensures hovering <==> AnyContains(es, mx, my)
  {
    hovering := false;
    var i := 0;
    while i < |es|
      invariant 0 <= i <= |es|
      invariant forall j :: 0 <= j < i ==> !Contains(es[j], mx, my)
    {
      var e := es[i];
      if mx >= e.x && mx <= e.x + e.width && my >= e.y && my <= e.y + e.height {
        hovering := true;
        break;
      }
      i := i + 1;
    }
  }

  /** Entries appended after the ones scanned first never take a hit away from them. */
  lemma {:induction false} FirstHitAppend(es: seq<Entry>, extra: seq<Entry>, mx: real, my: real)
    ensures FirstHit(es + extra, mx, my)
            == match FirstHit(es, mx, my)
               case Some(i) => Some(i)
               case None =>
                 match FirstHit(extra, mx, my)
                 case Some(j) => Some(|es| + j)
                 case None => None
  {
    if es != [] {
      FirstHitAppend(es[1..], extra, mx, my);
      assert (es + extra)[1..] == es[1..] + extra;
    } else {
      assert es + extra == extra;
    }
  }

  /** The pointer is over the concatenation exactly when it is over one of the parts. */
  lemma AnyContainsAppend(es: seq<Entry>, extra: seq<Entry>, mx: real, my: real)
    ensures AnyContains(es + extra, mx, my) <==> AnyContains(es, mx, my) || AnyContains(extra, mx, my)
  {
    FirstHitAppend(es, extra, mx, my);
  }
}
