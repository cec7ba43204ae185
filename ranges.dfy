/**
  Running (min, max) ranges and write_to_range (src/main.rs:98-104). A range
  starts at the sentinel (999, -1) and is folded in place one value at a time;
  the fold is an if / else-if, so one call moves at most one bound.
 */
module Ranges {
  import opened Geometry

  /** A `(min, max)` pair; nothing keeps lo <= hi. */
  datatype Range = Range(lo: real, hi: real)

  /** The value every range of the sampler starts from. */
  const SENTINEL := Range(999.0, -1.0)

  predicate Proper(r: Range) {
    r.lo <= r.hi
  }

  /** The range after one write_to_range call with `v`. */
  function Folded(r: Range, v: real): (s: Range)
    ensures s.lo == Min(r.lo, v)
    ensures r.hi <= s.hi <= Max(r.hi, v)
    ensures r.lo <= v ==> s.hi == Max(r.hi, v)
    ensures s.lo == r.lo || s.hi == r.hi
    ensures v < r.lo ==> s == Range(v, r.hi)
    ensures r.lo <= v <= r.hi ==> s == r
    ensures Proper(r) ==> s == Range(Min(r.lo, v), Max(r.hi, v))
  {
    if v < r.lo then Range(v, r.hi)
    else if v > r.hi then Range(r.lo, v)
    else r
  }

  /** The range after write_to_range with each of `vs` in turn. */
  function FoldAll(r: Range, vs: seq<real>): Range
    decreases |vs|
  {
    if vs == [] then r else Folded(FoldAll(r, vs[..|vs| - 1]), vs[|vs| - 1])
  }

  /** Across a run, the minimum never rises and the maximum never falls. */
  lemma {:induction false} FoldAllMonotone(r: Range, vs: seq<real>, i: nat)
    requires i <= |vs|
    ensures FoldAll(r, vs).lo <= FoldAll(r, vs[..i]).lo
    ensures FoldAll(r, vs).hi >= FoldAll(r, vs[..i]).hi
    decreases |vs|
  {
    if i < |vs| {
      var init := vs[..|vs| - 1];
      assert init[..i] == vs[..i];
      FoldAllMonotone(r, init, i);
    } else {
      assert vs[..i] == vs;
    }
  }

  /** The minimum of a run is exact: the smallest of the start and every value folded. */
  lemma {:induction false} FoldAllLo(r: Range, vs: seq<real>)
    ensures FoldAll(r, vs).lo <= r.lo
    ensures forall k :: 0 <= k < |vs| ==> FoldAll(r, vs).lo <= vs[k]
    ensures FoldAll(r, vs).lo == r.lo || exists k :: 0 <= k < |vs| && FoldAll(r, vs).lo == vs[k]
    decreases |vs|
  {
    if vs != [] {
      var init := vs[..|vs| - 1];
      FoldAllLo(r, init);
      assert forall k :: 0 <= k < |init| ==> init[k] == vs[k];
      if FoldAll(r, vs).lo != r.lo && FoldAll(r, vs).lo != vs[|vs| - 1] {
        var k :| 0 <= k < |init| && FoldAll(r, init).lo == init[k];
        assert FoldAll(r, vs).lo == vs[k];
      }
    }
  }

  /**
    From a proper range the fold is exact: the result is proper, covers every
    value folded, and its maximum is the start's or one of the values.
   */
  lemma {:induction false} FoldAllProper(r: Range, vs: seq<real>)
    requires Proper(r)
    ensures Proper(FoldAll(r, vs))
    ensures FoldAll(r, vs).hi >= r.hi
    ensures forall k :: 0 <= k < |vs| ==> FoldAll(r, vs).lo <= vs[k] <= FoldAll(r, vs).hi
    ensures FoldAll(r, vs).hi == r.hi || exists k :: 0 <= k < |vs| && FoldAll(r, vs).hi == vs[k]
    decreases |vs|
  {
    if vs != [] {
      var init := vs[..|vs| - 1];
      FoldAllProper(r, init);
      assert forall k :: 0 <= k < |init| ==> init[k] == vs[k];
      if FoldAll(r, vs).hi != r.hi && FoldAll(r, vs).hi != vs[|vs| - 1] {
        var k :| 0 <= k < |init| && FoldAll(r, init).hi == init[k];
        assert FoldAll(r, vs).hi == vs[k];
      }
    }
  }

  /**
    A run in which every value is below the current minimum, i.e. a strictly
    decreasing run starting below r.lo, only ever lowers the minimum: the
    maximum keeps its starting value even when every value exceeds it.
   */
  lemma {:induction false} DecreasingRunKeepsHi(r: Range, vs: seq<real>)
    requires vs != [] ==> vs[0] < r.lo
    requires forall k :: 0 < k < |vs| ==> vs[k] < vs[k - 1]
    ensures FoldAll(r, vs) == Range(if vs == [] then r.lo else vs[|vs| - 1], r.hi)
    decreases |vs|
  {
    if vs != [] {
      var init := vs[..|vs| - 1];
      DecreasingRunKeepsHi(r, init);
    }
  }

  /**
    From the sentinel, the IoU values 0.9, 0.85 leave the range at (0.85, -1):
    its maximum lies below every value seen.
   */
  lemma SentinelDecreasingRun()
    ensures FoldAll(SENTINEL, [0.9, 0.85]) == Range(0.85, -1.0)
  {
    DecreasingRunKeepsHi(SENTINEL, [0.9, 0.85]);
  }

  /** The `(f32, f32)` tuple that write_to_range updates through `&mut`. */
  class RangeCell {
    var lo: real
    var hi: real

    function Value(): Range
      reads this
    {
      Range(lo, hi)
    }

    constructor (init: Range)
      ensures Value() == init
    {
      lo := init.lo;
      hi := init.hi;
    }
  }

  /** write_to_range: widen the lower bound, or else the upper bound, in place. */
  method WriteToRange(value: real, range: RangeCell)
    modifies range
    ensures range.Value() == Folded(old(range.Value()), value)
  {
    if value < range.lo {
      range.lo := value;
    } else if value > range.hi {
      range.hi := value;
    }
  }
}
