/**
 * Hit-testing of pointer positions against the three interaction rectangles of
 * the pet artwork (`checkBody` and `hitTest` of the animator).
 *
 * Pointer offsets are fractional numbers in the browser, so coordinates are `real`.
 */
module Regions {
  import opened Options

  datatype Point = Point(x: real, y: real)

  datatype Region = Pinch | Head | Body

  /** An axis-aligned box; every edge belongs to the box. */
  datatype Rect = Rect(left: real, top: real, right: real, bottom: real)

  /**
   * The keys of the boundary record in declaration order; `Object.keys`
   * enumerates them in this order, so it is also the priority order.
   */
  const Order: seq<Region> := [Pinch, Head, Body]

  /** The fixed rectangles assigned when a clip is loaded. */
  function Bounds(r: Region): (b: Rect)
    ensures b.left < b.right && b.top < b.bottom
  {
    match r
    case Pinch => Rect(149.0, 128.0, 149.0 + 56.0, 128.0 + 59.0)
    case Head => Rect(159.0, 16.0, 159.0 + 189.0, 16.0 + 178.0)
    case Body => Rect(166.0, 206.0, 166.0 + 163.0, 206.0 + 136.0)
  }

  /** `hitTest`: inclusive on all four edges. */
  predicate HitTest(p: Point, b: Rect)
    // a point left, right, above or below the box misses it
    ensures p.x < b.left || p.x > b.right || p.y < b.top || p.y > b.bottom ==> !HitTest(p, b)
    // a point on an edge of a non-empty box hits it
    ensures b.left <= b.right && b.top <= p.y <= b.bottom && (p.x == b.left || p.x == b.right) ==> HitTest(p, b)
    ensures b.top <= b.bottom && b.left <= p.x <= b.right && (p.y == b.top || p.y == b.bottom) ==> HitTest(p, b)
  {
    b.left <= p.x <= b.right && b.top <= p.y <= b.bottom
  }

  /** Index of the first region of `regions` whose rectangle contains `p`, or `|regions|`. */
  function FirstHit(regions: seq<Region>, p: Point): (k: nat)
    ensures k <= |regions|
    ensures k < |regions| ==> HitTest(p, Bounds(regions[k]))
    ensures forall i :: 0 <= i < k ==> !HitTest(p, Bounds(regions[i]))
  {
    if regions == [] then 0
    else if HitTest(p, Bounds(regions[0])) then 0
    else 1 + FirstHit(regions[1..], p)
  }

  /** `checkBody`: the first region in declaration order that contains `p`, if any. */
  function CheckBody(p: Point): (r: Option<Region>)
    ensures r == Some(Pinch) <==> HitTest(p, Bounds(Pinch))
    ensures r == Some(Head) <==> !HitTest(p, Bounds(Pinch)) && HitTest(p, Bounds(Head))
    ensures r == Some(Body) <==>
              !HitTest(p, Bounds(Pinch)) && !HitTest(p, Bounds(Head)) && HitTest(p, Bounds(Body))
    ensures r.None? <==> forall g: Region :: !HitTest(p, Bounds(g))
  {
    var k := FirstHit(Order, p);
    assert Order[0] == Pinch && Order[1] == Head && Order[2] == Body;
    if k < |Order| then Some(Order[k]) else None
  }

  /** Every corner of every rectangle is classified as inside some region. */
  lemma CornersAreInside(g: Region)
    ensures CheckBody(Point(Bounds(g).left, Bounds(g).top)).Some?
    ensures CheckBody(Point(Bounds(g).right, Bounds(g).top)).Some?
    ensures CheckBody(Point(Bounds(g).left, Bounds(g).bottom)).Some?
    ensures CheckBody(Point(Bounds(g).right, Bounds(g).bottom)).Some?
  {
  }

  /**
   * The body rectangle is disjoint from the other two, so a point is classified
   * as `Body` exactly when it lies in the body rectangle; a point in both the
   * pinch and the head rectangle is classified as `Pinch`.
   */
  lemma BodyIsUnambiguous(p: Point)
    ensures CheckBody(p) == Some(Body) <==> HitTest(p, Bounds(Body))
    ensures HitTest(p, Bounds(Pinch)) && HitTest(p, Bounds(Head)) ==> CheckBody(p) == Some(Pinch)
  {
  }
}
