/** A filter on the outer coordinate that keeps everything, against no filter at all. */
module PlanAgreement {
  import opened Options
  import opened Selection
  import opened Partition
  import opened BoxProduct
  import opened FanOut
  import opened ScanPlan
  import opened ScanCover

  ghost function OuterName(scan: Scan): string
    requires OuterCoord(scan).Some?
  {
    scan.coords[OuterCoord(scan).value].name
  }

  /** The scan with an outer filter that keeps the whole axis. */
  ghost function KeepAll(scan: Scan): Scan
    requires OuterCoord(scan).Some?
  {
    scan.(filtered := scan.filtered + {OuterName(scan)}, outer := Resolved(Range(0, OuterLen(scan.dataVars[0]))))
  }

  /** Some splittable inner axis is named like the outer coordinate. */
  ghost predicate NamesOuter(scan: Scan)
    requires OuterCoord(scan).Some?
  {
    exists a :: 0 <= a < |scan.dataVars[0].shape| && Splittable(scan, a) && scan.coords[SplitCoord(scan, a)].name == OuterName(scan)
  }

  lemma SameOuterPieces(scan: Scan)
    requires OuterCoord(scan).Some? && scan.outer.Unfiltered?
    ensures OuterPieces(KeepAll(scan)) == OuterPieces(scan) && OuterSel(KeepAll(scan)) == OuterSel(scan)
  {
    var v := scan.dataVars[0];
    PlannersAgree(OuterLen(v), OuterChunk(v), scan.target);
  }

  lemma {:induction false} SameCandidates(v: VarMeta, axis: nat, coords: seq<CoordMeta>, filtered: set<string>, name: string)
    requires forall a :: axis <= a < |v.shape| && AxisCandidate(v, a, coords, filtered).Some? ==>
               coords[CoordIndexForAxis(v, a, coords).value].name != name
    ensures CandidatesFrom(v, axis, coords, filtered + {name}) == CandidatesFrom(v, axis, coords, filtered)
    decreases |v.shape| - axis
  {
    if axis < |v.shape| {
      SameCandidates(v, axis + 1, coords, filtered, name);
      SameCandidate(v, axis, coords, filtered, name);
    }
  }

  lemma SameCandidate(v: VarMeta, a: nat, coords: seq<CoordMeta>, filtered: set<string>, name: string)
    requires a < |v.shape|
    requires AxisCandidate(v, a, coords, filtered).Some? ==> coords[CoordIndexForAxis(v, a, coords).value].name != name
    ensures AxisCandidate(v, a, coords, filtered + {name}) == AxisCandidate(v, a, coords, filtered)
  {
  }

  lemma SamePlan(scan: Scan)
    requires OuterCoord(scan).Some? && scan.outer.Unfiltered? && (!NamesOuter(scan) || OuterLen(scan.dataVars[0]) == 0)
    ensures Plan(KeepAll(scan)) == Plan(scan)
  {
    SameOuterPieces(scan);
    if OuterLen(scan.dataVars[0]) == 0 {
      EmptyPlan(scan);
      EmptyPlan(KeepAll(scan));
    } else {
      var v := scan.dataVars[0];
      forall a | 1 <= a < |v.shape| && AxisCandidate(v, a, scan.coords, scan.filtered).Some?
        ensures scan.coords[CoordIndexForAxis(v, a, scan.coords).value].name != OuterName(scan)
      {
        assert Splittable(scan, a) && SplitCoord(scan, a) == CoordIndexForAxis(v, a, scan.coords).value;
      }
      SameCandidates(v, 1, scan.coords, scan.filtered, OuterName(scan));
    }
  }

  /** At the full target, an axis named like the outer coordinate is split by one plan only. */
  lemma OtherPlan(scan: Scan, base: seq<CoordSelection>)
    requires WellFormed(scan, base) && scan.outer.Unfiltered? && scan.limit.None? && !scan.virtualizarr
    requires NamesOuter(scan) && OuterLen(scan.dataVars[0]) > 0 && scan.target == FullTarget(scan)
    ensures Plan(KeepAll(scan)) != Plan(scan)
  {
    var kept := KeepAll(scan);
    var a :| 0 <= a < |scan.dataVars[0].shape| && Splittable(scan, a) && scan.coords[SplitCoord(scan, a)].name == OuterName(scan);
    FullySplit(scan, base, a, 0);
    var ax := FullSplit(AxisCandidate(scan.dataVars[0], a, scan.coords, scan.filtered).value);
    var i :| 0 <= i < |PlanAxes(scan)| && PlanAxes(scan)[i] == ax;
    PlanNonEmpty(scan, base);
    if Plan(kept) == Plan(scan) {
      SameCoords(scan, kept, i);
      KeepsSplitNames(kept, base, i);
      assert false;
    }
  }

  lemma SameCoords(s: Scan, t: Scan, i: nat)
    requires OuterCoord(s).Some? && OuterCoord(t).Some? && OuterValid(s) && OuterValid(t) && Plan(s) == Plan(t) != [] && i < |PlanAxes(s)|
    ensures i < |PlanAxes(t)| && PlanAxes(t)[i].coord == PlanAxes(s)[i].coord
  {
    var spec := Plan(s)[0];
    PlanSpecs(s, spec);
    PlanSpecs(t, spec);
    assert spec.extra[i].0 == PlanAxes(s)[i].coord;
  }

  lemma KeepsSplitNames(kept: Scan, base: seq<CoordSelection>, i: nat)
    requires WellFormed(kept, base) && i < |PlanAxes(kept)|
    ensures PlanAxes(kept)[i].coord < |kept.coords| && kept.coords[PlanAxes(kept)[i].coord].name !in kept.filtered
  {
    PlanAxesFacts(kept, base);
  }

  /**
   A filter that keeps the whole outer axis plans exactly like no filter, at every target, if and
   only if the axis is empty or no splittable inner axis is named like the outer coordinate.
   */
  lemma KeepAllPlansIff(scan: Scan, base: seq<CoordSelection>)
    requires WellFormed(scan, base) && scan.outer.Unfiltered? && scan.limit.None? && !scan.virtualizarr
    ensures (forall target: nat :: Plan(KeepAll(Aimed(scan, target))) == Plan(Aimed(scan, target)))
            <==> OuterLen(scan.dataVars[0]) == 0 || !NamesOuter(scan)
  {
    if OuterLen(scan.dataVars[0]) == 0 || !NamesOuter(scan) {
      forall target: nat ensures Plan(KeepAll(Aimed(scan, target))) == Plan(Aimed(scan, target)) {
        AimedNames(scan, target);
        SamePlan(Aimed(scan, target));
      }
    } else {
      var s := Aimed(scan, FullTarget(scan));
      AimedNames(scan, FullTarget(scan));
      AimedAlike(scan, base, {}, FullTarget(scan), Origin(base));
      OtherPlan(s, base);
    }
  }

  ghost function Origin(base: seq<CoordSelection>): (cell: seq<nat>)
    ensures |cell| == |base|
  {
    seq(|base|, _ => 0)
  }

  lemma AimedNames(scan: Scan, target: nat)
    requires OuterCoord(scan).Some?
    ensures OuterCoord(Aimed(scan, target)) == OuterCoord(scan) && (NamesOuter(Aimed(scan, target)) <==> NamesOuter(scan))
  {
    var s := Aimed(scan, target);
    assert forall a :: Splittable(s, a) <==> Splittable(scan, a);
    assert forall a :: Splittable(s, a) ==> SplitCoord(s, a) == SplitCoord(scan, a);
  }
}
