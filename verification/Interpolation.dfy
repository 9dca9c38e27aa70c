/**
 `interpolate`: a value between two samples of a log, found by binary search and
 clamped at both ends. Arithmetic is exact.
 */
module Interpolation {

  predicate Sorted(times: seq<real>) {
    forall i, j :: 0 <= i <= j < |times| ==> times[i] <= times[j]
  }

  function Blend(from: real, to: real, weight: real): real {
    from * (1.0 - weight) + to * weight
  }

  /** The point of the chord between two samples. */
  function Chord(low: real, high: real, from: real, to: real, t: real): real
    requires low < high
  {
    Blend(from, to, (t - low) / (high - low))
  }

  /** `t` lies in the half-open segment after sample `k`. */
  predicate InSegment(times: seq<real>, t: real, k: nat) {
    k + 1 < |times| && times[k] <= t < times[k + 1]
  }

  /** The last sample from `k` on that is not later than `t`, found one by one. */
  function Scan(times: seq<real>, t: real, k: nat): (r: nat)
    requires k < |times| && times[k] <= t && t < times[|times| - 1]
    ensures k <= r && InSegment(times, t, r)
    decreases |times| - k
  {
    if times[k + 1] <= t then Scan(times, t, k + 1) else k
  }

  /** The simple form: clamp, or the chord of the segment the scan finds. */
  function Interpolated(times: seq<real>, values: seq<real>, t: real): real
    requires 0 < |times| == |values|
  {
    if t <= times[0] then values[0]
    else if t >= times[|times| - 1] then values[|times| - 1]
    else
      var k := Scan(times, t, 0);
      Chord(times[k], times[k + 1], values[k], values[k + 1], t)
  }

  lemma LaterSegment(times: seq<real>, t: real, j: nat, k: nat)
    requires Sorted(times) && j < k && InSegment(times, t, k)
    ensures times[j + 1] <= t
  {
    assert times[j + 1] <= times[k];
  }

  lemma SegmentIsUnique(times: seq<real>, t: real, j: nat, k: nat)
    requires Sorted(times) && InSegment(times, t, j) && InSegment(times, t, k)
    ensures j == k
  {
    if j < k {
      LaterSegment(times, t, j, k);
    } else if k < j {
      LaterSegment(times, t, k, j);
    }
  }

  /**
   The binary search.  On any times at all it ends on a segment around `t`, so the span
   it divides by is positive and the source's test for an empty one never fires; on
   sorted times it returns what the scan returns.
   */
  method Interpolate(times: seq<real>, values: seq<real>, t: real) returns (v: real)
    requires 0 < |times| == |values|
    ensures times[0] < t < times[|times| - 1] ==>
              exists k: nat :: InSegment(times, t, k) && v == Chord(times[k], times[k + 1], values[k], values[k + 1], t)
    ensures Sorted(times) ==> v == Interpolated(times, values, t)
  {
    if t <= times[0] {
      return values[0];
    }
    if t >= times[|times| - 1] {
      return values[|times| - 1];
    }
    hide Blend;
    var low: nat, high: nat := 0, |times| - 1;
    while high - low > 1
      invariant 0 <= low < high < |times|
      invariant times[low] <= t < times[high]
    {
      var mid := (low + high) / 2;
      if times[mid] <= t {
        low := mid;
      } else {
        high := mid;
      }
    }
    var span := times[high] - times[low];
    if span <= 0.0 {
      assert false;
    }
    v := Weighted(values[low], values[high], t - times[low], span);
    assert InSegment(times, t, low) && v == Chord(times[low], times[low + 1], values[low], values[low + 1], t);
    hide Chord;
    if Sorted(times) {
      SegmentIsUnique(times, t, low, Scan(times, t, 0));
    }
  }

  /** The last two lines of the source. */
  method Weighted(from: real, to: real, part: real, span: real) returns (v: real)
    requires span > 0.0
    ensures v == Blend(from, to, part / span)
  {
    var weight := part / span;
    v := from * (1.0 - weight) + to * weight;
  }

  // ---------------------------------------------------------------------------
  // One chord
  // ---------------------------------------------------------------------------

  lemma SignOfProduct(x: real, span: real)
    requires span > 0.0
    ensures x * span >= 0.0 <==> x >= 0.0
  {
    if x < 0.0 {
      assert -x * span > 0.0;
    }
  }

  lemma QuotientGrows(a: real, b: real, span: real)
    requires span > 0.0 && a <= b
    ensures a / span <= b / span
  {
    var (p, q) := (a / span, b / span);
    assert (q - p) * span == b - a;
    SignOfProduct(q - p, span);
  }

  lemma OverItself(span: real)
    requires span > 0.0
    ensures 0.0 / span == 0.0 && span / span == 1.0
  {
  }

  lemma WeightIsFraction(low: real, high: real, t: real)
    requires low < high && low <= t <= high
    ensures 0.0 <= (t - low) / (high - low) <= 1.0
  {
    var span := high - low;
    QuotientGrows(0.0, t - low, span);
    QuotientGrows(t - low, span, span);
    OverItself(span);
  }

  lemma Scaled(x: real, y: real, w: real, u: real)
    requires x <= y && w <= u
    ensures (y - x) * w <= (y - x) * u
  {
    var (d, e) := (y - x, u - w);
    assert d * e >= 0.0;
    assert d * (w + e) == d * w + d * e;
  }

  lemma BlendIsOffset(from: real, to: real, w: real)
    ensures Blend(from, to, w) == from + (to - from) * w == from - (from - to) * w
  {
  }

  lemma BlendStaysBetween(from: real, to: real, w: real)
    requires 0.0 <= w <= 1.0
    ensures from <= to ==> from <= Blend(from, to, w) <= to
    ensures to <= from ==> to <= Blend(from, to, w) <= from
  {
    BlendIsOffset(from, to, w);
    hide Blend;
    if from <= to {
      Scaled(from, to, 0.0, w);
      Scaled(from, to, w, 1.0);
    }
    if to <= from {
      Scaled(to, from, 0.0, w);
      Scaled(to, from, w, 1.0);
    }
  }

  /** A chord stays between its ends. */
  lemma ChordStaysBetween(low: real, high: real, from: real, to: real, t: real)
    requires low < high && low <= t <= high
    ensures from <= to ==> from <= Chord(low, high, from, to, t) <= to
    ensures to <= from ==> to <= Chord(low, high, from, to, t) <= from
  {
    hide Blend;
    WeightIsFraction(low, high, t);
    BlendStaysBetween(from, to, (t - low) / (high - low));
  }

  lemma ChordGrows(low: real, high: real, from: real, to: real, t: real, u: real)
    requires low < high && from <= to && t <= u
    ensures Chord(low, high, from, to, t) <= Chord(low, high, from, to, u)
  {
    hide Blend;
    QuotientGrows(t - low, u - low, high - low);
    var (wt, wu) := ((t - low) / (high - low), (u - low) / (high - low));
    Scaled(from, to, wt, wu);
    BlendIsOffset(from, to, wt);
    BlendIsOffset(from, to, wu);
  }

  lemma ChordStarts(low: real, high: real, from: real, to: real)
    requires low < high
    ensures Chord(low, high, from, to, low) == from
  {
    OverItself(high - low);
  }

  lemma BlendOfLine(low: real, high: real, slope: real, offset: real, w: real, t: real)
    requires t == low + w * (high - low)
    ensures Blend(slope * low + offset, slope * high + offset, w) == slope * t + offset
  {
    var (from, rise, part) := (slope * low + offset, slope * (high - low), w * (high - low));
    assert slope * high + offset == from + rise;
    BlendIsOffset(from, from + rise, w);
    hide Blend;
    assert rise * w == slope * part;
    assert slope * (low + part) == slope * low + slope * part;
  }

  lemma ChordOfLine(low: real, high: real, slope: real, offset: real, t: real)
    requires low < high
    ensures Chord(low, high, slope * low + offset, slope * high + offset, t) == slope * t + offset
  {
    hide Blend;
    var w := (t - low) / (high - low);
    assert w * (high - low) == t - low;
    BlendOfLine(low, high, slope, offset, w, t);
  }

  // ---------------------------------------------------------------------------
  // The whole log
  // ---------------------------------------------------------------------------

  /** Of the samples that share its time this one is returned: the first at the start, otherwise the last. */
  predicate Kept(times: seq<real>, k: nat)
    requires k < |times|
  {
    if times[k] == times[0] then k == 0
    else if times[k] == times[|times| - 1] then k == |times| - 1
    else k + 1 < |times| && times[k] < times[k + 1]
  }

  /**
   A kept sample is returned at its own time, whatever the values.
   */
  lemma ExactAtSamples(times: seq<real>, values: seq<real>, k: nat)
    requires Sorted(times) && k < |times| == |values| && Kept(times, k)
    ensures Interpolated(times, values, times[k]) == values[k]
  {
    if times[0] < times[k] < times[|times| - 1] {
      SegmentIsUnique(times, times[k], k, Scan(times, times[k], 0));
      ChordStarts(times[k], times[k + 1], values[k], values[k + 1]);
      hide Chord;
    }
  }

  /** On strictly increasing times every sample is returned at its own time. */
  lemma ExactWhenIncreasing(times: seq<real>, values: seq<real>, k: nat)
    requires k < |times| == |values| && forall i, j :: 0 <= i < j < |times| ==> times[i] < times[j]
    ensures Interpolated(times, values, times[k]) == values[k]
  {
    hide Interpolated;
    ExactAtSamples(times, values, k);
  }

  /** ... and a sample that is not kept is not: some values tell the difference. */
  lemma OnlyKeptSamplesAreExact(times: seq<real>, k: nat)
    requires Sorted(times) && k < |times|
    ensures Kept(times, k) <==>
            forall values: seq<real> :: |values| == |times| ==> Interpolated(times, values, times[k]) == values[k]
  {
    if Kept(times, k) {
      forall values: seq<real> | |values| == |times| ensures Interpolated(times, values, times[k]) == values[k] {
        ExactAtSamples(times, values, k);
      }
    } else {
      var kept := KeptPeer(times, k);
      var values := seq(|times|, i => if i == k then 1.0 else 0.0);
      ExactAtSamples(times, values, kept);
      assert Interpolated(times, values, times[k]) == values[kept] == 0.0 != values[k];
    }
  }

  lemma {:induction false} KeptPeer(times: seq<real>, k: nat) returns (kept: nat)
    requires Sorted(times) && k < |times|
    ensures kept < |times| && times[kept] == times[k] && Kept(times, kept)
    decreases |times| - k
  {
    if times[k] == times[0] {
      kept := 0;
    } else if times[k] == times[|times| - 1] {
      kept := |times| - 1;
    } else if times[k] < times[k + 1] {
      kept := k;
    } else {
      kept := KeptPeer(times, k + 1);
    }
  }

  /** Between two neighbouring samples the result lies between their values. */
  lemma StaysBetween(times: seq<real>, values: seq<real>, t: real, k: nat)
    requires Sorted(times) && |times| == |values| && InSegment(times, t, k) && times[0] < t
    ensures var v := Interpolated(times, values, t);
            (values[k] <= v <= values[k + 1]) || (values[k + 1] <= v <= values[k])
  {
    SegmentIsUnique(times, t, k, Scan(times, t, 0));
    ChordStaysBetween(times[k], times[k + 1], values[k], values[k + 1], t);
    hide Chord;
  }

  /** Rising values keep the result between the values around it. */
  lemma RisingBetween(times: seq<real>, values: seq<real>, t: real, k: nat)
    requires Sorted(times) && Sorted(values) && |times| == |values| && InSegment(times, t, k)
    requires times[0] < t
    ensures values[k] <= Interpolated(times, values, t) <= values[k + 1]
  {
    StaysBetween(times, values, t, k);
    hide Interpolated;
  }

  /** Rising values are interpolated by a rising function. */
  lemma Monotone(times: seq<real>, values: seq<real>, t: real, u: real)
    requires Sorted(times) && Sorted(values) && 0 < |times| == |values| && t <= u
    ensures Interpolated(times, values, t) <= Interpolated(times, values, u)
  {
    var n := |times| - 1;
    if times[0] < t && u < times[n] {
      MonotoneInside(times, values, t, u);
    } else if times[0] < t < times[n] {
      var k := Scan(times, t, 0);
      RisingBetween(times, values, t, k);
      assert values[k + 1] <= values[n];
    } else if times[0] < u < times[n] {
      var k := Scan(times, u, 0);
      RisingBetween(times, values, u, k);
      assert values[0] <= values[k];
    }
  }

  lemma MonotoneInside(times: seq<real>, values: seq<real>, t: real, u: real)
    requires Sorted(times) && Sorted(values) && 0 < |times| == |values|
    requires times[0] < t <= u < times[|times| - 1]
    ensures Interpolated(times, values, t) <= Interpolated(times, values, u)
  {
    var (j, k) := (Scan(times, t, 0), Scan(times, u, 0));
    if j == k {
      ChordGrows(times[k], times[k + 1], values[k], values[k + 1], t, u);
      hide Chord;
    } else {
      if k < j {
        LaterSegment(times, t, k, j);
      }
      RisingBetween(times, values, t, j);
      RisingBetween(times, values, u, k);
      hide Interpolated, Chord;
      assert values[j + 1] <= values[k];
    }
  }

  /** A log of a straight line is read back as that line, clamped to its ends. */
  lemma LineIsReproduced(times: seq<real>, values: seq<real>, slope: real, offset: real, t: real)
    requires Sorted(times) && 0 < |times| == |values|
    requires forall k :: 0 <= k < |times| ==> values[k] == slope * times[k] + offset
    ensures var within := if t < times[0] then times[0] else if t > times[|times| - 1] then times[|times| - 1] else t;
            Interpolated(times, values, t) == slope * within + offset
  {
    if times[0] < t < times[|times| - 1] {
      var k := Scan(times, t, 0);
      ChordOfLine(times[k], times[k + 1], slope, offset, t);
      hide Chord;
    }
  }
}
