/**
 * The automatic resolution planner of the worker: given the source
 * dimensions and the video bitrate budget it picks a maximum output height
 * (the width is left for the scaler to derive) by walking a fixed ladder of
 * canonical heights from the top and taking the first rung, no taller than
 * the source, whose bitrate per megapixel clears a fixed floor.
 *
 * Python floats are modelled as exact reals.
 */
module AutoResolution {
  import opened Wrappers

  /** `(max_width, max_height)`; `None` means unconstrained. */
  datatype Resolution = Resolution(maxWidth: Option<int>, maxHeight: Option<int>)

  /** The canonical heights, tallest first. */
  const Ladder: seq<int> := [2160, 1440, 1080, 720, 480, 360, 240]

  /** Minimum acceptable video bitrate per megapixel of frame (kbps/MPix). */
  const MinKbpsPerMpix: real := 700.0

  /** The default for `min_height`. */
  const DefaultMinHeight: int := 240

  /** Python truthiness of an optional integer: present and non-zero. */
  predicate Truthy(x: Option<int>) {
    x.Some? && x.value != 0
  }

  /** The source dimensions are usable: both present and positive. */
  predicate HasDimensions(origWidth: Option<int>, origHeight: Option<int>) {
    Truthy(origWidth) && Truthy(origHeight) && origWidth.value > 0 && origHeight.value > 0
  }

  /** Frame area in megapixels when the `w`x`oh` source is scaled to height
      `h`, keeping the aspect ratio. */
  function Megapixels(w: int, oh: int, h: int): real
    requires oh > 0
  {
    (w as real * (h as real / oh as real) * h as real) / 1000000.0
  }

  /** One iteration of the ladder walk accepts rung `h`: it is no taller
      than the source, its area is positive and the budget per megapixel
      reaches the floor. */
  predicate RungQualifies(h: int, w: int, oh: int, target: real)
    requires oh > 0
  {
    && h <= oh
    && Megapixels(w, oh, h) > 0.0
    && target / Megapixels(w, oh, h) >= MinKbpsPerMpix
  }

  /** The walk from position `i`: the index of the first qualifying rung,
      or `|rungs|` when the loop finishes without a `break`. */
  function FirstQualifying(rungs: seq<int>, w: int, oh: int, target: real, i: nat): (k: nat)
    requires oh > 0 && i <= |rungs|
    ensures i <= k <= |rungs|
    ensures k < |rungs| ==> RungQualifies(rungs[k], w, oh, target)
    ensures forall j :: i <= j < k ==> !RungQualifies(rungs[j], w, oh, target)
    decreases |rungs| - i
  {
    if i == |rungs| then i
    else if RungQualifies(rungs[i], w, oh, target) then i
    else FirstQualifying(rungs, w, oh, target, i + 1)
  }

  /** `choose_auto_resolution`. The source bitrate argument is accepted
      and never read. */
  function ChooseAutoResolution(
    origWidth: Option<int>,
    origHeight: Option<int>,
    origVideoKbps: Option<real>,
    targetVideoKbps: real,
    minHeight: int,
    explicitTargetHeight: Option<int>
  ): (r: Resolution)
    ensures r.maxWidth == None
    ensures r.maxHeight == None <==> !HasDimensions(origWidth, origHeight)
    ensures r.maxHeight.Some? ==> r.maxHeight.value >= minHeight
  {
    if !HasDimensions(origWidth, origHeight) then Resolution(None, None)
    else if Truthy(explicitTargetHeight) then
      Resolution(None, Some(Max(minHeight, explicitTargetHeight.value)))
    else
      var w := origWidth.value;
      var oh := origHeight.value;
      if (w * oh) as real / 1000000.0 <= 0.0 then Resolution(None, None)
      else if targetVideoKbps <= 0.0 then Resolution(None, Some(minHeight))
      else
        var k := FirstQualifying(Ladder, w, oh, targetVideoKbps, 0);
        var chosen := if k < |Ladder| then Ladder[k] else minHeight;
        Resolution(None, Some(Max(chosen, minHeight)))
  }

  // ---------------------------------------------------------------------
  // The branches in front of the ladder walk
  // ---------------------------------------------------------------------

  /** Missing, zero or negative dimensions leave the output unconstrained,
      whatever the other arguments are. */
  lemma NoDimensionsUnconstrained(
    origWidth: Option<int>, origHeight: Option<int>, origVideoKbps: Option<real>,
    targetVideoKbps: real, minHeight: int, explicitTargetHeight: Option<int>)
    requires origWidth.None? || origHeight.None? || origWidth.value <= 0 || origHeight.value <= 0
    ensures ChooseAutoResolution(origWidth, origHeight, origVideoKbps, targetVideoKbps,
                                 minHeight, explicitTargetHeight) == Resolution(None, None)
  {
  }

  /** A truthy explicit height wins over the heuristic and is only raised to
      the floor; an explicit height of zero falls through to the heuristic. */
  lemma ExplicitHeightWins(
    w: int, oh: int, origVideoKbps: Option<real>, targetVideoKbps: real,
    minHeight: int, explicit: Option<int>)
    requires w > 0 && oh > 0
    ensures explicit.Some? && explicit.value != 0 ==>
      ChooseAutoResolution(Some(w), Some(oh), origVideoKbps, targetVideoKbps, minHeight, explicit)
        == Resolution(None, Some(Max(minHeight, explicit.value)))
    ensures explicit == Some(0) ==>
      ChooseAutoResolution(Some(w), Some(oh), origVideoKbps, targetVideoKbps, minHeight, explicit)
        == ChooseAutoResolution(Some(w), Some(oh), origVideoKbps, targetVideoKbps, minHeight, None)
  {
  }

  /** A non-positive budget yields the floor height. */
  lemma NoBudgetGivesFloor(
    w: int, oh: int, origVideoKbps: Option<real>, targetVideoKbps: real, minHeight: int)
    requires w > 0 && oh > 0 && targetVideoKbps <= 0.0
    ensures ChooseAutoResolution(Some(w), Some(oh), origVideoKbps, targetVideoKbps, minHeight, None)
      == Resolution(None, Some(minHeight))
  {
  }

  /** The source bitrate is never consulted. */
  lemma SourceBitrateIgnored(
    origWidth: Option<int>, origHeight: Option<int>, a: Option<real>, b: Option<real>,
    targetVideoKbps: real, minHeight: int, explicitTargetHeight: Option<int>)
    ensures ChooseAutoResolution(origWidth, origHeight, a, targetVideoKbps, minHeight, explicitTargetHeight)
         == ChooseAutoResolution(origWidth, origHeight, b, targetVideoKbps, minHeight, explicitTargetHeight)
  {
  }

  /** The `<= 0` area guards before and inside the walk never fire for
      positive dimensions and ladder rungs. */
  lemma AreaGuardsAreDead(w: int, oh: int, h: int)
    requires w > 0 && oh > 0 && h > 0
    ensures (w * oh) as real / 1000000.0 > 0.0
    ensures Megapixels(w, oh, h) > 0.0
  {
    var W, O, H := w as real, oh as real, h as real;
    assert H / O > 0.0;
    assert W * (H / O) > 0.0;
    assert W * (H / O) * H > 0.0;
  }

  // ---------------------------------------------------------------------
  // The density test without division
  // ---------------------------------------------------------------------

  /** The density test is the cross-multiplied comparison
      `target * orig_height * 10^6 >= 700 * orig_width * h^2`. */
  lemma {:induction false} QualifiesCrossMultiplied(h: int, w: int, oh: int, target: real)
    requires w > 0 && oh > 0 && h > 0
    ensures RungQualifies(h, w, oh, target) <==>
      h <= oh && target * (oh as real) * 1000000.0 >= MinKbpsPerMpix * (w as real) * (h as real) * (h as real)
  {
    var W, O, H := w as real, oh as real, h as real;
    var mp := Megapixels(w, oh, h);
    AreaGuardsAreDead(w, oh, h);
    assert (H / O) * O == H;
    assert mp * (O * 1000000.0) == W * H * H by {
      calc {
        mp * (O * 1000000.0);
        (W * (H / O) * H) / 1000000.0 * (O * 1000000.0);
        W * ((H / O) * O) * H;
        W * H * H;
      }
    }
    assert target / mp * mp == target;
    if target / mp >= MinKbpsPerMpix {
      assert target >= MinKbpsPerMpix * mp;
      assert target * (O * 1000000.0) >= MinKbpsPerMpix * mp * (O * 1000000.0);
    }
    if target * (O * 1000000.0) >= MinKbpsPerMpix * (W * H * H) {
      assert MinKbpsPerMpix * (W * H * H) == (MinKbpsPerMpix * mp) * (O * 1000000.0);
      assert target >= MinKbpsPerMpix * mp;
      assert target / mp >= MinKbpsPerMpix;
    }
  }

  /** Qualifying rungs are closed downwards: a shorter positive height never
      has less bitrate per megapixel. */
  lemma ShorterRungAlsoQualifies(h: int, h': int, w: int, oh: int, target: real)
    requires w > 0 && oh > 0 && 0 < h' <= h
    requires RungQualifies(h, w, oh, target)
    ensures RungQualifies(h', w, oh, target)
  {
    QualifiesCrossMultiplied(h, w, oh, target);
    QualifiesCrossMultiplied(h', w, oh, target);
    var W, H, H' := w as real, h as real, h' as real;
    ScaledSquareMono(W, H', H);
  }

  /** `w·a²` grows with `a` for non-negative `w` and `a`. */
  lemma ScaledSquareMono(w: real, a: real, b: real)
    requires 0.0 <= w && 0.0 <= a <= b
    ensures w * a * a <= w * b * b
  {
    assert a * a <= a * b;
    assert a * b <= b * b;
    assert w * (a * a) <= w * (b * b);
  }

  /** A larger budget never makes a rung stop qualifying. */
  lemma LargerBudgetStillQualifies(h: int, w: int, oh: int, t1: real, t2: real)
    requires w > 0 && oh > 0 && h > 0 && t1 <= t2
    requires RungQualifies(h, w, oh, t1)
    ensures RungQualifies(h, w, oh, t2)
  {
    QualifiesCrossMultiplied(h, w, oh, t1);
    QualifiesCrossMultiplied(h, w, oh, t2);
    assert t1 * (oh as real) <= t2 * (oh as real);
  }

  // ---------------------------------------------------------------------
  // What the walk selects
  // ---------------------------------------------------------------------

  /** The ladder is strictly descending and every rung is positive. */
  lemma LadderDescending()
    ensures forall i, j :: 0 <= i < j < |Ladder| ==> Ladder[i] > Ladder[j]
    ensures forall i :: 0 <= i < |Ladder| ==> Ladder[i] > 0
  {
  }

  /** `h` is the tallest ladder rung the walk would accept. */
  ghost predicate IsTallestQualifying(h: int, w: int, oh: int, target: real)
    requires oh > 0
  {
    && h in Ladder
    && RungQualifies(h, w, oh, target)
    && forall h' :: h' in Ladder && h' > h ==> !RungQualifies(h', w, oh, target)
  }

  /** No rung of the ladder is accepted. */
  ghost predicate NoRungQualifies(w: int, oh: int, target: real)
    requires oh > 0
  {
    forall h :: h in Ladder ==> !RungQualifies(h, w, oh, target)
  }

  /** The heuristic height, stated without the walk: the tallest qualifying
      rung raised to the floor, or the floor when no rung qualifies. */
  lemma {:induction false} HeuristicPicksTallestQualifyingRung(
    w: int, oh: int, origVideoKbps: Option<real>, target: real, minHeight: int)
    requires w > 0 && oh > 0 && target > 0.0
    ensures forall h :: IsTallestQualifying(h, w, oh, target) ==>
      ChooseAutoResolution(Some(w), Some(oh), origVideoKbps, target, minHeight, None)
        == Resolution(None, Some(Max(h, minHeight)))
    ensures NoRungQualifies(w, oh, target) ==>
      ChooseAutoResolution(Some(w), Some(oh), origVideoKbps, target, minHeight, None)
        == Resolution(None, Some(minHeight))
  {
    LadderDescending();
    AreaGuardsAreDead(w, oh, 1);
    var k := FirstQualifying(Ladder, w, oh, target, 0);
    forall h | IsTallestQualifying(h, w, oh, target)
      ensures ChooseAutoResolution(Some(w), Some(oh), origVideoKbps, target, minHeight, None)
        == Resolution(None, Some(Max(h, minHeight)))
    {
      var p :| 0 <= p < |Ladder| && Ladder[p] == h;
      assert k <= p;
      assert Ladder[k] in Ladder;
      assert k == p;
    }
    assert k < |Ladder| ==> Ladder[k] in Ladder;
  }

  /** The walk never upscales: a result above the source height comes only
      from the `min_height` floor. */
  lemma NeverAboveSourceExceptFloor(
    w: int, oh: int, origVideoKbps: Option<real>, target: real, minHeight: int)
    requires w > 0 && oh > 0
    ensures
      var r := ChooseAutoResolution(Some(w), Some(oh), origVideoKbps, target, minHeight, None);
      r.maxHeight.Some? && r.maxHeight.value <= Max(oh, minHeight)
  {
    AreaGuardsAreDead(w, oh, 1);
  }

  /** A larger budget never lowers the chosen height. */
  lemma {:induction false} HeightMonotoneInBudget(
    w: int, oh: int, origVideoKbps: Option<real>, t1: real, t2: real, minHeight: int)
    requires w > 0 && oh > 0 && t1 <= t2
    ensures
      ChooseAutoResolution(Some(w), Some(oh), origVideoKbps, t1, minHeight, None).maxHeight.value
        <= ChooseAutoResolution(Some(w), Some(oh), origVideoKbps, t2, minHeight, None).maxHeight.value
  {
    AreaGuardsAreDead(w, oh, 1);
    LadderDescending();
    if t1 > 0.0 {
      var k1 := FirstQualifying(Ladder, w, oh, t1, 0);
      var k2 := FirstQualifying(Ladder, w, oh, t2, 0);
      if k1 < |Ladder| {
        LargerBudgetStillQualifies(Ladder[k1], w, oh, t1, t2);
        assert k2 <= k1;
      }
    }
  }

  // ---------------------------------------------------------------------
  // Concrete cases
  // ---------------------------------------------------------------------

  /** 1920x1080 at 8000 kbps keeps 1080. */
  lemma FullHdWithAmpleBudget()
    ensures ChooseAutoResolution(Some(1920), Some(1080), Some(15000.0), 8000.0, DefaultMinHeight, None)
      == Resolution(None, Some(1080))
  {
    QualifiesCrossMultiplied(1080, 1920, 1080, 8000.0);
    assert FirstQualifying(Ladder, 1920, 1080, 8000.0, 2) == 2;
    assert FirstQualifying(Ladder, 1920, 1080, 8000.0, 0) == 2;
  }

  /** 3840x2160 at 2500 kbps drops to 1080: 2160 and 1440 are starved. */
  lemma UhdWithLowBudget()
    ensures ChooseAutoResolution(Some(3840), Some(2160), Some(12000.0), 2500.0, DefaultMinHeight, None)
      == Resolution(None, Some(1080))
  {
    QualifiesCrossMultiplied(2160, 3840, 2160, 2500.0);
    QualifiesCrossMultiplied(1440, 3840, 2160, 2500.0);
    QualifiesCrossMultiplied(1080, 3840, 2160, 2500.0);
    assert FirstQualifying(Ladder, 3840, 2160, 2500.0, 2) == 2;
    assert FirstQualifying(Ladder, 3840, 2160, 2500.0, 0) == 2;
  }

  /** 640x360 at 200 kbps with a 360 floor gives 360. */
  lemma SmallSourceRespectsFloor()
    ensures ChooseAutoResolution(Some(640), Some(360), Some(800.0), 200.0, 360, None)
      == Resolution(None, Some(360))
  {
    QualifiesCrossMultiplied(360, 640, 360, 200.0);
    assert FirstQualifying(Ladder, 640, 360, 200.0, 5) == 5;
    assert FirstQualifying(Ladder, 640, 360, 200.0, 0) == 5;
  }

  /** An explicit 720 on a 4K source gives 720. */
  lemma ExplicitOverridesOnUhd()
    ensures ChooseAutoResolution(Some(3840), Some(2160), Some(8000.0), 2000.0, DefaultMinHeight, Some(720))
      == Resolution(None, Some(720))
  {
  }

  /** A source shorter than every rung is given the 240 floor, which is
      taller than the source. */
  lemma TinySourceRaisedToFloor()
    ensures ChooseAutoResolution(Some(320), Some(180), None, 1000.0, DefaultMinHeight, None)
      == Resolution(None, Some(240))
  {
    assert FirstQualifying(Ladder, 320, 180, 1000.0, 0) == |Ladder|;
  }
}
