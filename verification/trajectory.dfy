/** The per-run trajectory pipeline.

    A run's log yields pixel samples on a 1500×1500 field (already flipped
    so that row 0 is the top, and truncated to whole pixels). The samples
    at the reset point (750, 1450) are dropped; the rest are binned into a
    15×15 grid of 100×100-pixel cells, and stamped into a 1500×1500 canvas
    where each 6×6 neighbourhood records the index of the sample, later
    samples overwriting earlier ones.
 */
module Trajectory {

  /** Side of the pixel field and of the path canvas. */
  const CanvasSize: int := 1500
  /** Side of the visit-count grid and width of one of its cells in pixels. */
  const Bins: int := 15
  const BinWidth: int := 100
  /** The reset artefact, as truncated flipped coordinates. */
  const ResetX: int := 750
  const ResetY: int := 1450
  /** A stamp covers offsets -Reach .. Reach - 1 on each axis. */
  const Reach: int := 3

  /** One sample: truncated pixel column `x` and flipped, truncated pixel row `y`. */
  datatype Sample = Sample(x: nat, y: nat)

  predicate IsReset(s: Sample) {
    s.x == ResetX && s.y == ResetY
  }

  // ---------------------------------------------------------------------------
  // Filtering the log
  // ---------------------------------------------------------------------------

  /** The samples that survive the reset filter, in log order. */
  function Kept(raw: seq<Sample>): seq<Sample>
  {
    if raw == [] then []
    else if IsReset(raw[|raw| - 1]) then Kept(raw[..|raw| - 1])
    else Kept(raw[..|raw| - 1]) + [raw[|raw| - 1]]
  }

  /** A sample survives exactly when it is in the log and is not the reset point. */
  lemma {:induction false} KeptMembers(raw: seq<Sample>, s: Sample)
    ensures s in Kept(raw) <==> s in raw && !IsReset(s)
  {
    if raw != [] {
      var init := raw[..|raw| - 1];
      KeptMembers(init, s);
      assert raw == init + [raw[|raw| - 1]];
    }
  }

  /** Filtering a log split in two filters each part, keeping their order. */
  lemma {:induction false} KeptAppend(a: seq<Sample>, b: seq<Sample>)
    ensures Kept(a + b) == Kept(a) + Kept(b)
    decreases |b|
  {
    if b == [] {
      assert a + b == a;
    } else {
      var b' := b[..|b| - 1];
      assert (a + b)[..|a + b| - 1] == a + b';
      assert (a + b)[|a + b| - 1] == b[|b| - 1];
      KeptAppend(a, b');
    }
  }

  /** A log without the reset point passes the filter unchanged. */
  lemma {:induction false} KeptWithoutReset(raw: seq<Sample>)
    requires forall i :: 0 <= i < |raw| ==> !IsReset(raw[i])
    ensures Kept(raw) == raw
  {
    if raw != [] {
      var init := raw[..|raw| - 1];
      assert forall i :: 0 <= i < |init| ==> init[i] == raw[i];
      KeptWithoutReset(init);
      assert raw == init + [raw[|raw| - 1]];
    }
  }

  /** The sample-reading loop: appends every sample that is not the reset point. */
  method FilterSamples(raw: seq<Sample>) returns (samples: seq<Sample>)
    ensures samples == Kept(raw)
  {
    samples := [];
    for i := 0 to |raw|
      invariant samples == Kept(raw[..i])
    {
      assert raw[..i + 1][..i] == raw[..i];
      var s := raw[i];
      if s.x == ResetX && s.y == ResetY {
        continue;
      }
      samples := samples + [s];
    }
    assert raw[..|raw|] == raw;
  }

  // ---------------------------------------------------------------------------
  // Binning into visit counts
  // ---------------------------------------------------------------------------

  predicate InField(s: Sample) {
    s.x < CanvasSize && s.y < CanvasSize
  }

  /** The sample falls into grid cell (r, c): row from `y`, column from `x`. */
  predicate InBin(s: Sample, r: int, c: int) {
    s.y / BinWidth == r && s.x / BinWidth == c
  }

  /** Number of samples that fall into grid cell (r, c). */
  function CountIn(samples: seq<Sample>, r: int, c: int): nat
  {
    if samples == [] then 0
    else CountIn(samples[..|samples| - 1], r, c) + (if InBin(samples[|samples| - 1], r, c) then 1 else 0)
  }

  /** Counting over a split sequence adds the counts of the parts. */
  lemma {:induction false} CountInAppend(a: seq<Sample>, b: seq<Sample>, r: int, c: int)
    ensures CountIn(a + b, r, c) == CountIn(a, r, c) + CountIn(b, r, c)
    decreases |b|
  {
    if b == [] {
      assert a + b == a;
    } else {
      var b' := b[..|b| - 1];
      assert (a + b)[..|a + b| - 1] == a + b';
      assert (a + b)[|a + b| - 1] == b[|b| - 1];
      CountInAppend(a, b', r, c);
    }
  }

  /** One more sample adds exactly 1 to its own cell and leaves every other cell alone. */
  lemma BinStep(samples: seq<Sample>, s: Sample, r: int, c: int)
    ensures CountIn(samples + [s], r, c) == CountIn(samples, r, c) + (if InBin(s, r, c) then 1 else 0)
  {
    assert (samples + [s])[..|samples|] == samples;
  }

  /** The counts depend only on which samples occur, not on their order. */
  lemma {:induction false} CountInPermutation(s: seq<Sample>, t: seq<Sample>, r: int, c: int)
    requires multiset(s) == multiset(t)
    ensures CountIn(s, r, c) == CountIn(t, r, c)
    decreases |s|
  {
    if s == [] {
      assert |t| == |multiset(t)| == 0;
    } else {
      var p := s[|s| - 1];
      var s' := s[..|s| - 1];
      assert s == s' + [p];
      assert p in multiset(t);
      var k :| 0 <= k < |t| && t[k] == p;
      var t' := t[..k] + t[k + 1..];
      assert t == t[..k] + [p] + t[k + 1..];
      assert multiset(t) == multiset(t[..k]) + multiset{p} + multiset(t[k + 1..]);
      assert multiset(t') == multiset(t[..k]) + multiset(t[k + 1..]);
      assert multiset(s) == multiset(s') + multiset{p};
      assert multiset(s') == multiset(s) - multiset{p};
      assert multiset(t') == multiset(t) - multiset{p};
      CountInPermutation(s', t', r, c);
      CountInAppend(t[..k] + [p], t[k + 1..], r, c);
      CountInAppend(t[..k], [p], r, c);
      CountInAppend(t[..k], t[k + 1..], r, c);
      BinStep(s', p, r, c);
      assert CountIn([p], r, c) == (if InBin(p, r, c) then 1 else 0) by {
        assert [p][..0] == [];
      }
    }
  }

  /** Sum of the counts of cells (r, 0) .. (r, n - 1). */
  function RowTotal(samples: seq<Sample>, r: int, n: nat): nat
  {
    if n == 0 then 0 else RowTotal(samples, r, n - 1) + CountIn(samples, r, n - 1)
  }

  /** Sum of the counts of rows 0 .. m - 1 of the grid. */
  function GridTotal(samples: seq<Sample>, m: nat): nat
  {
    if m == 0 then 0 else GridTotal(samples, m - 1) + RowTotal(samples, m - 1, Bins)
  }

  lemma {:induction false} RowTotalStep(samples: seq<Sample>, s: Sample, r: int, n: nat)
    ensures RowTotal(samples + [s], r, n) ==
      RowTotal(samples, r, n) + (if s.y / BinWidth == r && s.x / BinWidth < n then 1 else 0)
  {
    if n > 0 {
      RowTotalStep(samples, s, r, n - 1);
      BinStep(samples, s, r, n - 1);
    }
  }

  lemma {:induction false} GridTotalStep(samples: seq<Sample>, s: Sample, m: nat)
    requires InField(s)
    ensures GridTotal(samples + [s], m) == GridTotal(samples, m) + (if s.y / BinWidth < m then 1 else 0)
  {
    if m > 0 {
      GridTotalStep(samples, s, m - 1);
      RowTotalStep(samples, s, m - 1, Bins);
    }
  }

  /** Every in-field sample is counted exactly once: the grid sums to the number of samples. */
  lemma {:induction false} GridTotalIsLength(samples: seq<Sample>)
    requires forall i :: 0 <= i < |samples| ==> InField(samples[i])
    ensures GridTotal(samples, Bins) == |samples|
  {
    if samples == [] {
      GridTotalEmpty(Bins);
    } else {
      var init := samples[..|samples| - 1];
      assert samples == init + [samples[|samples| - 1]];
      GridTotalIsLength(init);
      GridTotalStep(init, samples[|samples| - 1], Bins);
    }
  }

  lemma {:induction false} GridTotalEmpty(m: nat)
    ensures GridTotal([], m) == 0
  {
    if m > 0 {
      GridTotalEmpty(m - 1);
      RowTotalEmpty(m - 1, Bins);
    }
  }

  lemma {:induction false} RowTotalEmpty(r: int, n: nat)
    ensures RowTotal([], r, n) == 0
  {
    if n > 0 {
      RowTotalEmpty(r, n - 1);
    }
  }

  /** Dropping the reset samples changes only the reset point's cell, by the number dropped. */
  lemma {:induction false} FilterOnlyTouchesResetBin(raw: seq<Sample>, r: int, c: int)
    ensures CountIn(raw, r, c) ==
      CountIn(Kept(raw), r, c) + (if r == ResetY / BinWidth && c == ResetX / BinWidth then |raw| - |Kept(raw)| else 0)
  {
    if raw != [] {
      var init := raw[..|raw| - 1];
      var s := raw[|raw| - 1];
      FilterOnlyTouchesResetBin(init, r, c);
      KeptLength(init);
      if !IsReset(s) {
        BinStep(Kept(init), s, r, c);
      }
    }
  }

  lemma {:induction false} KeptLength(raw: seq<Sample>)
    ensures |Kept(raw)| <= |raw|
  {
    if raw != [] {
      KeptLength(raw[..|raw| - 1]);
    }
  }

  /** The counting loop: one increment per sample in the cell that holds it. */
  method BinSamples(samples: seq<Sample>) returns (counts: array2<int>)
    requires forall i :: 0 <= i < |samples| ==> InField(samples[i])
    ensures fresh(counts) && counts.Length0 == Bins && counts.Length1 == Bins
    ensures forall r, c :: 0 <= r < Bins && 0 <= c < Bins ==> counts[r, c] == CountIn(samples, r, c)
  {
    counts := new int[Bins, Bins]((_, _) => 0);
    for i := 0 to |samples|
      invariant forall r, c :: 0 <= r < Bins && 0 <= c < Bins ==> counts[r, c] == CountIn(samples[..i], r, c)
    {
      var s := samples[i];
      assert samples[..i + 1] == samples[..i] + [s];
      forall r, c | 0 <= r < Bins && 0 <= c < Bins
        ensures CountIn(samples[..i + 1], r, c) == CountIn(samples[..i], r, c) + (if InBin(s, r, c) then 1 else 0)
      {
        BinStep(samples[..i], s, r, c);
      }
      counts[s.y / BinWidth, s.x / BinWidth] := counts[s.y / BinWidth, s.x / BinWidth] + 1;
    }
    assert samples[..|samples|] == samples;
  }

  // ---------------------------------------------------------------------------
  // Stamping the path canvas
  // ---------------------------------------------------------------------------

  /** The whole 6×6 neighbourhood of the sample lies on the canvas. */
  predicate InStampRange(s: Sample) {
    Reach <= s.x <= CanvasSize - Reach && Reach <= s.y <= CanvasSize - Reach
  }

  /** Pixel (r, c) lies in the sample's neighbourhood [y-3, y+2] × [x-3, x+2]. */
  predicate Covers(s: Sample, r: int, c: int) {
    s.y - Reach <= r < s.y + Reach && s.x - Reach <= c < s.x + Reach
  }

  /** Canvas value at (r, c): the index of the last sample covering it, 0 if none does. */
  function LastCover(samples: seq<Sample>, r: int, c: int): (v: nat)
    ensures samples != [] ==> v < |samples|
  {
    if samples == [] then 0
    else if Covers(samples[|samples| - 1], r, c) then |samples| - 1
    else LastCover(samples[..|samples| - 1], r, c)
  }

  /** The pixel holds the index of the last sample whose neighbourhood covers it. */
  lemma {:induction false} LastCoverAt(samples: seq<Sample>, r: int, c: int, i: int)
    requires 0 <= i < |samples| && Covers(samples[i], r, c)
    requires forall j :: i < j < |samples| ==> !Covers(samples[j], r, c)
    ensures LastCover(samples, r, c) == i
    decreases |samples|
  {
    if i < |samples| - 1 {
      var init := samples[..|samples| - 1];
      assert init[i] == samples[i];
      LastCoverAt(init, r, c, i);
    }
  }

  /** A pixel that no sample covers stays 0. */
  lemma {:induction false} UncoveredStaysZero(samples: seq<Sample>, r: int, c: int)
    requires forall j :: 0 <= j < |samples| ==> !Covers(samples[j], r, c)
    ensures LastCover(samples, r, c) == 0
  {
    if samples != [] {
      var init := samples[..|samples| - 1];
      assert forall j :: 0 <= j < |init| ==> init[j] == samples[j];
      UncoveredStaysZero(init, r, c);
    }
  }

  /** Writes `v` into every pixel of the sample's neighbourhood and nowhere else. */
  method Stamp(canvas: array2<int>, s: Sample, v: int)
    requires canvas.Length0 == CanvasSize && canvas.Length1 == CanvasSize
    requires InStampRange(s)
    modifies canvas
    ensures forall r, c :: 0 <= r < CanvasSize && 0 <= c < CanvasSize ==>
      canvas[r, c] == if Covers(s, r, c) then v else old(canvas[r, c])
  {
    for dx := -Reach to Reach
      invariant forall r, c :: 0 <= r < CanvasSize && 0 <= c < CanvasSize ==>
        canvas[r, c] ==
          if s.y - Reach <= r < s.y + dx && s.x - Reach <= c < s.x + Reach then v else old(canvas[r, c])
    {
      for dy := -Reach to Reach
        invariant forall r, c :: 0 <= r < CanvasSize && 0 <= c < CanvasSize ==>
          canvas[r, c] ==
            if (s.y - Reach <= r < s.y + dx && s.x - Reach <= c < s.x + Reach) ||
               (r == s.y + dx && s.x - Reach <= c < s.x + dy)
            then v else old(canvas[r, c])
      {
        canvas[s.y + dx, s.x + dy] := v;
      }
    }
  }

  /** The path loop: stamps each sample's index, in order, on a zeroed canvas. */
  method StampTrajectory(samples: seq<Sample>) returns (canvas: array2<int>)
    requires forall i :: 0 <= i < |samples| ==> InStampRange(samples[i])
    ensures fresh(canvas) && canvas.Length0 == CanvasSize && canvas.Length1 == CanvasSize
    ensures forall r, c :: 0 <= r < CanvasSize && 0 <= c < CanvasSize ==>
      canvas[r, c] == LastCover(samples, r, c)
  {
    canvas := new int[CanvasSize, CanvasSize]((_, _) => 0);
    for i := 0 to |samples|
      invariant forall r, c :: 0 <= r < CanvasSize && 0 <= c < CanvasSize ==>
        canvas[r, c] == LastCover(samples[..i], r, c)
    {
      assert samples[..i + 1][..i] == samples[..i];
      Stamp(canvas, samples[i], i);
    }
    assert samples[..|samples|] == samples;
  }

  // ---------------------------------------------------------------------------
  // One run
  // ---------------------------------------------------------------------------

  /** A run: filter the log, bin the kept samples and stamp their path. */
  method ProcessRun(raw: seq<Sample>) returns (samples: seq<Sample>, counts: array2<int>, canvas: array2<int>)
    requires forall i :: 0 <= i < |raw| && !IsReset(raw[i]) ==> InStampRange(raw[i])
    ensures samples == Kept(raw)
    ensures forall i :: 0 <= i < |samples| ==> !IsReset(samples[i])
    ensures fresh(counts) && counts.Length0 == Bins && counts.Length1 == Bins
    ensures forall r, c :: 0 <= r < Bins && 0 <= c < Bins ==> counts[r, c] == CountIn(samples, r, c)
    ensures GridTotal(samples, Bins) == |samples|
    ensures fresh(canvas) && canvas.Length0 == CanvasSize && canvas.Length1 == CanvasSize
    ensures forall r, c :: 0 <= r < CanvasSize && 0 <= c < CanvasSize ==>
      canvas[r, c] == LastCover(samples, r, c)
  {
    samples := FilterSamples(raw);
    forall i | 0 <= i < |samples|
      ensures !IsReset(samples[i]) && InStampRange(samples[i]) && InField(samples[i])
    {
      KeptMembers(raw, samples[i]);
    }
    GridTotalIsLength(samples);
    counts := BinSamples(samples);
    canvas := StampTrajectory(samples);
  }
}
