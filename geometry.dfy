/**
  The deterministic geometry of the IoU-range sampler (src/main.rs): the scalar
  `max`/`min` helpers, boxes and their width/height/centre form, the
  coordinate-order normalisation and the intersection-over-union of a box
  against the fixed reference rectangle, and the centre offsets of get_box.
  Coordinates are reals: the program's f32 rounding is not modelled.
 */
module Geometry {

  datatype Option<T> = None | Some(value: T)

  /** A box `(x1, y1, x2, y2)`; its corners are in no particular order until normalised. */
  datatype Box = Box(x1: real, y1: real, x2: real, y2: real)

  /** Width, height and centre of a box, in the order get_whxy returns them. */
  datatype Whxy = Whxy(w: real, h: real, cx: real, cy: real)

  function Max(a: real, b: real): (r: real)
    ensures r == a || r == b
    ensures a <= r && b <= r
  {
    if a > b then a else b
  }

  function Min(a: real, b: real): (r: real)
    ensures r == a || r == b
    ensures r <= a && r <= b
  {
    if a > b then b else a
  }

  predicate Ordered(b: Box) {
    b.x1 <= b.x2 && b.y1 <= b.y2
  }

  /** The box that a width, height and centre describe: the inverse of GetWhxy. */
  function Corners(d: Whxy): Box {
    Box(d.cx - 0.5 * d.w, d.cy - 0.5 * d.h, d.cx + 0.5 * d.w, d.cy + 0.5 * d.h)
  }

  /** get_whxy: width, height and centre of a box. */
  function GetWhxy(b: Box): (r: Whxy)
    ensures Corners(r) == b
    ensures Ordered(b) ==> 0.0 <= r.w && 0.0 <= r.h
    ensures Ordered(b) ==> b.x1 <= r.cx <= b.x2 && b.y1 <= r.cy <= b.y2
  {
    var h := b.y2 - b.y1;
    var w := b.x2 - b.x1;
    Whxy(w, h, b.x1 + 0.5 * w, b.y1 + 0.5 * h)
  }

  /** The two conditional swaps that open compute_iou, as a function of the box. */
  function Normalized(b: Box): (r: Box)
    ensures Ordered(r)
    ensures (r.x1 == b.x1 && r.x2 == b.x2) || (r.x1 == b.x2 && r.x2 == b.x1)
    ensures (r.y1 == b.y1 && r.y2 == b.y2) || (r.y1 == b.y2 && r.y2 == b.y1)
    ensures Ordered(b) ==> r == b
  {
    var (x1, x2) := if b.x1 > b.x2 then (b.x2, b.x1) else (b.x1, b.x2);
    var (y1, y2) := if b.y1 > b.y2 then (b.y2, b.y1) else (b.y1, b.y2);
    Box(x1, y1, x2, y2)
  }

  /** Normalising twice is normalising once. */
  lemma NormalizedIdempotent(b: Box)
    ensures Normalized(Normalized(b)) == Normalized(b)
  {
  }

  /** Area of a box, as compute_iou computes it for the candidate box. */
  function Area(b: Box): (r: real)
    ensures Ordered(b) ==> 0.0 <= r
    ensures b.x1 < b.x2 && b.y1 < b.y2 ==> 0.0 < r
  {
    var w, h := b.x2 - b.x1, b.y2 - b.y1;
    if 0.0 <= w && 0.0 <= h then
      MulMono(0.0, 0.0, w, h);
      w * h
    else
      w * h
  }

  /**
    The reference area exactly as compute_iou computes it: the width term
    subtracts the reference's y1 where its x1 belongs, so it differs from the
    true area by (x1 - y1) times the height.
   */
  function RefArea(rect: Box): (r: real)
    ensures r == Area(rect) + (rect.x1 - rect.y1) * (rect.y2 - rect.y1)
  {
    (rect.x2 - rect.y1) * (rect.y2 - rect.y1)
  }

  /** The overlap of two boxes: the larger first corners and the smaller second corners. */
  function Intersection(b: Box, rect: Box): (r: Box)
    ensures b.x1 <= r.x1 && rect.x1 <= r.x1 && b.y1 <= r.y1 && rect.y1 <= r.y1
    ensures r.x2 <= b.x2 && r.x2 <= rect.x2 && r.y2 <= b.y2 && r.y2 <= rect.y2
    ensures (r.x1 == b.x1 || r.x1 == rect.x1) && (r.y1 == b.y1 || r.y1 == rect.y1)
    ensures (r.x2 == b.x2 || r.x2 == rect.x2) && (r.y2 == b.y2 || r.y2 == rect.y2)
  {
    Box(Max(b.x1, rect.x1), Max(b.y1, rect.y1), Min(b.x2, rect.x2), Min(b.y2, rect.y2))
  }

  /** The open intervals (lo1, hi1) and (lo2, hi2) are non-empty and share a point. */
  predicate IntervalsMeet(lo1: real, hi1: real, lo2: real, hi2: real) {
    lo1 < hi1 && lo2 < hi2 && lo1 < hi2 && lo2 < hi1
  }

  /** The interiors of two boxes, taken with their corners as given, share a point. */
  predicate Overlap(b: Box, rect: Box) {
    IntervalsMeet(b.x1, b.x2, rect.x1, rect.x2) && IntervalsMeet(b.y1, b.y2, rect.y1, rect.y2)
  }

  /**
    The IoU denominator (reference area + box area - intersection) is non-zero
    whenever the boxes overlap; where it is zero the f32 program divides by zero.
   */
  predicate IouDefined(rect: Box, b: Box) {
    Overlap(b, rect) ==> RefArea(rect) + Area(b) - Area(Intersection(b, rect)) != 0.0
  }

  /** A positive line-63 area keeps the denominator positive for every box. */
  lemma PositiveRefAreaDefined(rect: Box, b: Box)
    requires RefArea(rect) > 0.0
    ensures IouDefined(rect, b)
  {
    if Overlap(b, rect) {
      IntersectionArea(b, rect);
    }
  }

  /**
    The value compute_iou returns for a box whose corners it has already
    swapped into order: None when the intersection is empty on either axis,
    otherwise intersection / (reference area + box area - intersection).
    The value is positive when the line-63 area is; it can be negative otherwise.
   */
  function Iou(rect: Box, b: Box): (r: Option<real>)
    requires IouDefined(rect, b)
    ensures r.Some? <==> Overlap(b, rect)
    ensures r.Some? && RefArea(rect) > 0.0 ==> 0.0 < r.value
  {
    var i := Intersection(b, rect);
    IntersectionNonEmpty(b, rect);
    if i.x2 - i.x1 <= 0.0 || i.y2 - i.y1 <= 0.0 then
      None
    else
      IntersectionArea(b, rect);
      Some(IouRatio(Area(i), RefArea(rect), Area(b)))
  }

  /** intersection / (refArea + boxArea - intersection), for an intersection inside the box. */
  function IouRatio(inter: real, refArea: real, boxArea: real): (r: real)
    requires refArea + boxArea - inter != 0.0
    ensures 0.0 < inter <= boxArea && 0.0 < refArea ==> 0.0 < r
    ensures 0.0 < inter <= boxArea && inter <= refArea ==> r <= 1.0
    ensures 0.0 < inter <= boxArea && inter <= refArea && r == 1.0 ==> inter == boxArea == refArea
  {
    var union := refArea + boxArea - inter;
    RatioAtMostOne(inter, union);
    inter / union
  }

  /** The intersection is non-empty on both axes exactly when the boxes overlap. */
  lemma IntersectionNonEmpty(b: Box, rect: Box)
    ensures var i := Intersection(b, rect);
      (i.x2 - i.x1 > 0.0 && i.y2 - i.y1 > 0.0) <==> Overlap(b, rect)
  {
  }

  /** A non-empty intersection has positive area no larger than either box's. */
  lemma IntersectionArea(b: Box, rect: Box)
    requires Overlap(b, rect)
    ensures 0.0 < Area(Intersection(b, rect))
    ensures Area(Intersection(b, rect)) <= Area(b) && Area(Intersection(b, rect)) <= Area(rect)
  {
    var i := Intersection(b, rect);
    IntersectionNonEmpty(b, rect);
    AreaWithin(i, b);
    AreaWithin(i, rect);
  }

  /**
    A box with positive sides nested inside another has positive area no
    larger than the other's, and equal area only when the two are the same box.
   */
  lemma AreaWithin(i: Box, b: Box)
    requires i.x1 < i.x2 && i.y1 < i.y2
    requires b.x1 <= i.x1 && i.x2 <= b.x2 && b.y1 <= i.y1 && i.y2 <= b.y2
    ensures 0.0 < Area(i) <= Area(b)
    ensures Area(i) == Area(b) ==> i == b
  {
    var iw, ih, bw, bh := i.x2 - i.x1, i.y2 - i.y1, b.x2 - b.x1, b.y2 - b.y1;
    assert Area(i) == iw * ih && Area(b) == bw * bh;
    MulMono(iw, ih, bw, bh);
    assert 0.0 < iw * ih;
    if iw * ih == bw * bh {
      MulEqual(iw, ih, bw, bh);
    }
  }

  /** A positive ratio; at most 1 when the numerator is at most the denominator, and 1 only when they agree. */
  lemma RatioAtMostOne(n: real, d: real)
    requires d != 0.0
    ensures 0.0 < n && 0.0 < d ==> 0.0 < n / d
    ensures 0.0 < n <= d ==> n / d <= 1.0
    ensures n / d == 1.0 <==> n == d
  {
    assert n / d * d == n;
    if n == d {
      assert (n / d - 1.0) * d == 0.0;
    }
  }

  lemma MulMono(a: real, b: real, c: real, d: real)
    requires 0.0 <= a <= c && 0.0 <= b <= d
    ensures a * b <= c * d
  {
    assert a * b <= c * b;
  }

  /** Equal products of factors bounded as below force equal factors. */
  lemma MulEqual(a: real, b: real, c: real, d: real)
    requires 0.0 < a <= c && 0.0 < b <= d && a * b == c * d
    ensures a == c && b == d
  {
    MulMono(a, b, c, b);
    MulMono(c, b, c, d);
    assert (c - a) * b == 0.0;
    assert c * (d - b) == 0.0;
  }

  /** When the reference's x1 equals its y1, the line-63 formula is the true area. */
  lemma RefAreaIsArea(rect: Box)
    requires rect.x1 == rect.y1
    ensures RefArea(rect) == Area(rect)
  {
  }

  /** IoU never exceeds 1 when the reference area formula gives the true area. */
  lemma IouAtMostOne(rect: Box, b: Box)
    requires RefArea(rect) > 0.0 && rect.x1 == rect.y1
    ensures IouDefined(rect, b)
    ensures Iou(rect, b).Some? ==> Iou(rect, b).value <= 1.0
  {
    PositiveRefAreaDefined(rect, b);
    if Overlap(b, rect) {
      IntersectionArea(b, rect);
    }
  }

  /**
    For an ordered reference whose x1 equals its y1, IoU is exactly 1 for the
    reference itself and for no other box.
   */
  lemma IouOneIffReference(rect: Box, b: Box)
    requires Ordered(rect) && rect.x1 == rect.y1 && RefArea(rect) > 0.0
    ensures IouDefined(rect, b)
    ensures Iou(rect, b) == Some(1.0) <==> b == rect
  {
    PositiveRefAreaDefined(rect, b);
    var i := Intersection(b, rect);
    IntersectionNonEmpty(b, rect);
    RefAreaIsArea(rect);
    if b == rect {
      assert i == rect;
      AreaWithin(rect, rect);
      var a := Area(rect);
      assert Iou(rect, b) == Some(IouRatio(a, a, a));
      assert 0.0 < a && a + a - a == a;
      RatioAtMostOne(a, a);
    }
    if Iou(rect, b) == Some(1.0) {
      AreaWithin(i, b);
      AreaWithin(i, rect);
      assert IouRatio(Area(i), RefArea(rect), Area(b)) == 1.0;
    }
  }

  /**
    With the reference (0, 5, 10, 10), whose x1 differs from its y1, the
    line-63 formula gives 25 instead of 50 and the reference scores IoU 2
    against itself.
   */
  lemma RefAreaDefectExample()
    ensures IouDefined(Box(0.0, 5.0, 10.0, 10.0), Box(0.0, 5.0, 10.0, 10.0))
    ensures Iou(Box(0.0, 5.0, 10.0, 10.0), Box(0.0, 5.0, 10.0, 10.0)) == Some(2.0)
  {
  }

  /**
    The reference (0, 20, 10, 30) has line-63 area (10 - 20) * (30 - 20) = -100,
    so against itself the denominator is -100 and the IoU is -1.
   */
  lemma NegativeIouExample()
    ensures IouDefined(Box(0.0, 20.0, 10.0, 30.0), Box(0.0, 20.0, 10.0, 30.0))
    ensures Iou(Box(0.0, 20.0, 10.0, 30.0), Box(0.0, 20.0, 10.0, 30.0)) == Some(-1.0)
  {
  }

  /** A box outside the reference (0, 0, 10, 10) has no IoU. */
  lemma DisjointExample()
    ensures IouDefined(Box(0.0, 0.0, 10.0, 10.0), Normalized(Box(20.0, 20.0, 30.0, 30.0)))
    ensures Iou(Box(0.0, 0.0, 10.0, 10.0), Normalized(Box(20.0, 20.0, 30.0, 30.0))) == None
  {
  }

  /**
    The dx and dy of get_box: how far the reference centre lies from the box
    centre, in units of the box's width and height. Moving the box centre by
    these amounts lands on the reference centre.
   */
  function CentreOffset(b: Box, rect: Box): (d: (real, real))
    requires b.x2 - b.x1 != 0.0 && b.y2 - b.y1 != 0.0
    ensures GetWhxy(b).cx + d.0 * GetWhxy(b).w == GetWhxy(rect).cx
    ensures GetWhxy(b).cy + d.1 * GetWhxy(b).h == GetWhxy(rect).cy
  {
    var c := GetWhxy(b);
    var rc := GetWhxy(rect);
    ((rc.cx - c.cx) / c.w, (rc.cy - c.cy) / c.h)
  }

  /** A box with the reference's centre has zero offsets. */
  lemma CentreOffsetSameCentre(b: Box, rect: Box)
    requires b.x2 - b.x1 != 0.0 && b.y2 - b.y1 != 0.0
    requires GetWhxy(b).cx == GetWhxy(rect).cx && GetWhxy(b).cy == GetWhxy(rect).cy
    ensures CentreOffset(b, rect) == (0.0, 0.0)
  {
  }

  /** The box moved by tx along x and ty along y. */
  function Translated(b: Box, tx: real, ty: real): Box {
    Box(b.x1 + tx, b.y1 + ty, b.x2 + tx, b.y2 + ty)
  }

  /**
    Sign convention: seen from a copy of the reference moved by (tx, ty), the
    reference lies -tx widths and -ty heights away; for instance the box
    (5, 5, 15, 15) against the reference (0, 0, 10, 10) gives (-0.5, -0.5).
   */
  lemma CentreOffsetOfTranslate(rect: Box, tx: real, ty: real)
    requires rect.x2 - rect.x1 != 0.0 && rect.y2 - rect.y1 != 0.0
    ensures CentreOffset(Translated(rect, tx, ty), rect)
         == (-tx / (rect.x2 - rect.x1), -ty / (rect.y2 - rect.y1))
  {
    var b := Translated(rect, tx, ty);
    var c, rc := GetWhxy(b), GetWhxy(rect);
    assert c.w == rc.w && c.h == rc.h;
    assert rc.cx - c.cx == -tx && rc.cy - c.cy == -ty;
  }
}
