/**
  The sampler object of src/main.rs (`random_box`): the fixed reference
  rectangle, the five running ranges, compute_iou, and one attempt of
  get_box. The random draws and f32::ln are supplied by the caller.
 */
module Sampler {
  import opened Geometry
  import opened Ranges

  /** get_box keeps a drawn box only when its IoU exceeds this. */
  const ACCEPT_THRESHOLD: real := 0.8

  /** The caller's box tuple, which compute_iou reorders through `&mut`. */
  class BoxCell {
    var x1: real
    var y1: real
    var x2: real
    var y2: real

    function Value(): Box
      reads this
    {
      Box(x1, y1, x2, y2)
    }

    constructor (b: Box)
      ensures Value() == b
    {
      x1, y1, x2, y2 := b.x1, b.y1, b.x2, b.y2;
    }
  }

  class RandomBox {
    const low: real
    const up: real
    const rect: Box
    const iouRange: RangeCell
    const dxRange: RangeCell
    const dyRange: RangeCell
    const dwRange: RangeCell
    const dhRange: RangeCell

    /** The five ranges are separate tuples. */
    ghost predicate Valid() {
      && iouRange != dxRange && iouRange != dyRange && iouRange != dwRange && iouRange != dhRange
      && dxRange != dyRange && dxRange != dwRange && dxRange != dhRange
      && dyRange != dwRange && dyRange != dhRange
      && dwRange != dhRange
    }

    /** random_box::new: every range starts at the sentinel (999, -1). */
    constructor (low: real, up: real, rect: Box)
      ensures Valid()
      ensures this.low == low && this.up == up && this.rect == rect
      ensures fresh(iouRange) && fresh(dxRange) && fresh(dyRange) && fresh(dwRange) && fresh(dhRange)
      ensures iouRange.Value() == SENTINEL && dxRange.Value() == SENTINEL && dyRange.Value() == SENTINEL
      ensures dwRange.Value() == SENTINEL && dhRange.Value() == SENTINEL
    {
      this.low := low;
      this.up := up;
      this.rect := rect;
      iouRange := new RangeCell(SENTINEL);
      dxRange := new RangeCell(SENTINEL);
      dyRange := new RangeCell(SENTINEL);
      dwRange := new RangeCell(SENTINEL);
      dhRange := new RangeCell(SENTINEL);
    }

    /**
      compute_iou: put the box's corners in order in place, then return its IoU
      against the reference, or None when they do not overlap; a returned
      IoU is folded into the IoU range, and nothing else of the sampler changes.
     */
    method ComputeIou(bbox: BoxCell) returns (r: Option<real>)
      requires Valid() && IouDefined(rect, Normalized(bbox.Value()))
      modifies bbox, iouRange
      ensures bbox.Value() == Normalized(old(bbox.Value()))
      ensures r == Iou(rect, bbox.Value())
      ensures r.Some? ==> iouRange.Value() == Folded(old(iouRange.Value()), r.value)
      ensures r.None? ==> iouRange.Value() == old(iouRange.Value())
    {
      if bbox.x1 > bbox.x2 {
        var tmp := bbox.x1;
        bbox.x1 := bbox.x2;
        bbox.x2 := tmp;
      }
      if bbox.y1 > bbox.y2 {
        var tmp := bbox.y1;
        bbox.y1 := bbox.y2;
        bbox.y2 := tmp;
      }
      var b := bbox.Value();
      var rectArea := RefArea(rect);
      var boxArea := Area(b);

      var x1 := Max(b.x1, rect.x1);
      var y1 := Max(b.y1, rect.y1);

      var x2 := Min(b.x2, rect.x2);
      var y2 := Min(b.y2, rect.y2);

      IntersectionNonEmpty(b, rect);
      if x2 - x1 <= 0.0 || y2 - y1 <= 0.0 {
        return None;
      }

      var intersection := Area(Box(x1, y1, x2, y2));
      var iou := intersection / (rectArea + boxArea - intersection);
      WriteToRange(iou, iouRange);
      r := Some(iou);
    }

    /**
      One pass of get_box's retry loop on the drawn box `candidate`: compute_iou,
      accepted when it returns an IoU above 0.8; then, when accepted, the
      offsets and range updates that end get_box. `ln` stands for f32::ln.
      An accepted box has positive width and height, so its offsets are finite.
     */
    method GetBoxAttempt(candidate: BoxCell, ln: real -> real) returns (accepted: bool)
      requires Valid() && IouDefined(rect, Normalized(candidate.Value()))
      modifies candidate, iouRange, dxRange, dyRange, dwRange, dhRange
      ensures candidate.Value() == Normalized(old(candidate.Value()))
      ensures var iou := Iou(rect, candidate.Value());
        && accepted == (iou.Some? && iou.value > ACCEPT_THRESHOLD)
        && iouRange.Value() == if iou.Some? then Folded(old(iouRange.Value()), iou.value) else old(iouRange.Value())
      ensures accepted ==> Overlap(candidate.Value(), rect)
      ensures accepted ==>
        var b := candidate.Value();
        && dxRange.Value() == Folded(old(dxRange.Value()), CentreOffset(b, rect).0)
        && dyRange.Value() == Folded(old(dyRange.Value()), CentreOffset(b, rect).1)
        && dwRange.Value() == Folded(old(dwRange.Value()), ln(GetWhxy(rect).w / GetWhxy(b).w))
        && dhRange.Value() == Folded(old(dhRange.Value()), ln(GetWhxy(rect).h / GetWhxy(b).h))
      ensures !accepted ==>
        && dxRange.Value() == old(dxRange.Value()) && dyRange.Value() == old(dyRange.Value())
        && dwRange.Value() == old(dwRange.Value()) && dhRange.Value() == old(dhRange.Value())
    {
      var iou := ComputeIou(candidate);
      accepted := iou.Some? && iou.value > ACCEPT_THRESHOLD;
      if accepted {
        var b := candidate.Value();
        var c := GetWhxy(b);
        var rc := GetWhxy(rect);

        var (dx, dy) := CentreOffset(b, rect);
        var dw := ln(rc.w / c.w);
        var dh := ln(rc.h / c.h);

        WriteToRange(dx, dxRange);
        WriteToRange(dy, dyRange);
        WriteToRange(dw, dwRange);
        WriteToRange(dh, dhRange);
      }
    }
  }
}
