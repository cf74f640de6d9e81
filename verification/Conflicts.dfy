/** When a resolved list can still contain routes that overlap: the exact condition on its input. */
module Conflicts {
  import opened Options
  import opened Paths
  import opened Resolution
  import opened Precedence
  import opened LastWinsRule

  /** The first specific-method route at path `p` after the last any-method one there. */
  function RunLeader(rs: seq<Route>, p: string): (r: Option<Route>)
    ensures r.Some? ==> r.value in rs && PathOf(r.value) == p && !IsAny(r.value)
  {
    if rs == [] then None
    else
      var earlier, r := RunLeader(rs[..|rs| - 1], p), rs[|rs| - 1];
      if PathOf(r) != p then earlier
      else if IsAny(r) then None
      else if earlier.Some? then earlier
      else Some(r)
  }

  /** A specific-method route that comes after a run leader of another method. */
  predicate Trails(rs: seq<Route>, i: nat)
    requires i < |rs|
  {
    var leader := RunLeader(rs[..i], PathOf(rs[i]));
    !IsAny(rs[i]) && leader.Some? && SlotOf(leader.value) != SlotOf(rs[i])
  }

  /** No path ends on an any-method route, or on a run led by the method of an earlier trailing
      route, when it has trailing routes. */
  ghost predicate Clean(rs: seq<Route>) {
    forall i :: 0 <= i < |rs| && Trails(rs, i) ==>
      var leader := RunLeader(rs, PathOf(rs[i]));
      leader.Some? && SlotOf(leader.value) != SlotOf(rs[i])
  }

  // ---- the shape of a layer ------------------------------------------------------

  /** Entry `j` is the first at its path. */
  predicate IsFirst(ordered: seq<Route>, j: nat)
    requires j < |ordered|
  {
    forall k :: 0 <= k < j ==> PathOf(ordered[k]) != PathOf(ordered[j])
  }

  /** The first entry at a path has the method of the current run's leader, or none. */
  ghost predicate FirstsLead(rs: seq<Route>, ordered: seq<Route>) {
    forall j :: 0 <= j < |ordered| && IsFirst(ordered, j) ==>
      var leader := RunLeader(rs, PathOf(ordered[j]));
      if leader.Some? then SlotOf(ordered[j]) == SlotOf(leader.value) else IsAny(ordered[j])
  }

  /** Every other entry is in the slot of a trailing route. */
  ghost predicate OthersTrail(rs: seq<Route>, ordered: seq<Route>) {
    forall j :: 0 <= j < |ordered| && !IsFirst(ordered, j) ==>
      exists i :: 0 <= i < |rs| && Trails(rs, i) && SlotOf(rs[i]) == SlotOf(ordered[j])
  }

  /** No later entry is in the slot of one that is not first at its path. */
  ghost predicate OthersDiffer(ordered: seq<Route>) {
    forall j, k :: 0 <= j < k < |ordered| && !IsFirst(ordered, j) ==> SlotOf(ordered[j]) != SlotOf(ordered[k])
  }

  /** Every trailing route's slot has an entry that is not first at its path. */
  ghost predicate TrailsKept(rs: seq<Route>, ordered: seq<Route>) {
    forall i :: 0 <= i < |rs| && Trails(rs, i) ==>
      exists j :: 0 <= j < |ordered| && !IsFirst(ordered, j) && SlotOf(ordered[j]) == SlotOf(rs[i])
  }

  ghost predicate Shaped(rs: seq<Route>, ordered: seq<Route>) {
    FirstsLead(rs, ordered) && OthersTrail(rs, ordered) && OthersDiffer(ordered) && TrailsKept(rs, ordered)
  }

  /** The first entry at the path of `r`, or one past the end. */
  function FirstAt(ordered: seq<Route>, p: string): (h: nat)
    ensures h <= |ordered|
    ensures h < |ordered| ==> PathOf(ordered[h]) == p
    ensures forall j :: 0 <= j < h ==> PathOf(ordered[j]) != p
  {
    if ordered == [] || PathOf(ordered[0]) == p then 0 else 1 + FirstAt(ordered[1..], p)
  }

  lemma {:induction false} LeaderNeedsPath(rs: seq<Route>, p: string)
    requires p !in PathSet(rs)
    ensures RunLeader(rs, p) == None
  {
    hide PathOf;
    if rs != [] {
      var front := rs[..|rs| - 1];
      assert PathOf(rs[|rs| - 1]) in PathSet(rs);
      forall i | 0 <= i < |front| ensures PathOf(front[i]) != p {
        assert PathOf(rs[i]) in PathSet(rs);
      }
      LeaderNeedsPath(front, p);
    }
  }

  lemma TrailsStep(front: seq<Route>, r: Route)
    ensures forall i :: 0 <= i < |front| ==> Trails(front + [r], i) == Trails(front, i)
  {
    hide PathOf, SlotOf, IsAny, RunLeader;
    forall i | 0 <= i < |front| ensures Trails(front + [r], i) == Trails(front, i) {
      assert (front + [r])[..i] == front[..i] && (front + [r])[i] == front[i];
    }
  }

  /** The leaders after one more route. */
  lemma LeaderStep(front: seq<Route>, r: Route, p: string)
    ensures RunLeader(front + [r], p)
         == if PathOf(r) != p then RunLeader(front, p)
            else if IsAny(r) then None
            else if RunLeader(front, p).Some? then RunLeader(front, p)
            else Some(r)
  {
    hide PathOf, IsAny;
    assert (front + [r])[..|front|] == front;
  }

  /** `r` overlaps the first entry at its path unless it trails. */
  lemma LeadsOrTrails(front: seq<Route>, r: Route)
    requires FirstsLead(front, Layer(front)) && PathOf(r) in PathSet(front)
    ensures var h := FirstAt(Layer(front), PathOf(r));
            && h < |Layer(front)|
            && IsFirst(Layer(front), h)
            && (Overlaps(Layer(front)[h], r) <==> !Trails(front + [r], |front|))
  {
    hide NormalPath, Fold, Overlaps, Layer;
    LayerKeepsPaths(front);
    var ordered := Layer(front);
    var h := FirstAt(ordered, PathOf(r));
    assert exists j :: 0 <= j < |ordered| && PathOf(ordered[j]) == PathOf(r);
    OverlapIff(ordered[h], r);
    assert (front + [r])[..|front|] == front;
    var leader := RunLeader(front, PathOf(r));
    if leader.Some? {
      OverlapIff(ordered[h], leader.value);
    }
  }

  /** Replacing an entry by one at the same path moves no first entry. */
  lemma SameFirsts(ordered: seq<Route>, i: nat, r: Route)
    requires i < |ordered| && PathOf(r) == PathOf(ordered[i])
    ensures forall j :: 0 <= j < |ordered| ==> IsFirst(ordered[i := r], j) == IsFirst(ordered, j)
    ensures forall j :: 0 <= j < |ordered| ==> PathOf(ordered[i := r][j]) == PathOf(ordered[j])
  {
    hide PathOf;
    var after := ordered[i := r];
    assert forall j :: 0 <= j < |ordered| ==> PathOf(after[j]) == PathOf(ordered[j]);
  }

  /** `PathOf` and `IsAny` follow the slot. */
  lemma SlotDetermines(a: Route, b: Route)
    requires SlotOf(a) == SlotOf(b)
    ensures PathOf(a) == PathOf(b) && IsAny(a) == IsAny(b)
  {
    hide NormalPath, Fold;
    OverlapIff(a, b);
  }

  lemma FirstsAppended(ordered: seq<Route>, r: Route)
    ensures forall j :: 0 <= j < |ordered| ==> IsFirst(ordered + [r], j) == IsFirst(ordered, j)
    ensures IsFirst(ordered + [r], |ordered|) <==> forall j :: 0 <= j < |ordered| ==> PathOf(ordered[j]) != PathOf(r)
  {
    hide PathOf;
    var after := ordered + [r];
    assert forall j :: 0 <= j < |ordered| ==> after[j] == ordered[j];
  }

  lemma NotFirst(ordered: seq<Route>, h: nat, k: nat)
    requires h < k < |ordered| && PathOf(ordered[h]) == PathOf(ordered[k])
    ensures !IsFirst(ordered, k)
  {
  }

  /** How one placement may change the entries that are not first: it leaves their slots alone, except
      that a trailing route gets one, entry `k`. */
  ghost predicate OthersStep(front: seq<Route>, r: Route, ordered: seq<Route>, after: seq<Route>, k: nat) {
    var trails := Trails(front + [r], |front|);
    && |ordered| <= |after| <= |ordered| + 1
    && (forall j :: 0 <= j < |ordered| ==>
          IsFirst(after, j) == IsFirst(ordered, j) && (!IsFirst(ordered, j) ==> SlotOf(after[j]) == SlotOf(ordered[j])))
    && (trails ==> k < |after| && !IsFirst(after, k) && SlotOf(after[k]) == SlotOf(r))
    && (|after| > |ordered| && !IsFirst(after, |ordered|) ==>
          trails && k == |ordered| && forall j :: 0 <= j < |ordered| ==> SlotOf(ordered[j]) != SlotOf(r))
  }

  lemma StepOthersTrail(front: seq<Route>, r: Route, ordered: seq<Route>, after: seq<Route>, k: nat)
    requires OthersTrail(front, ordered) && OthersStep(front, r, ordered, after, k)
    ensures OthersTrail(front + [r], after)
  {
    hide PathOf, SlotOf, IsFirst, Trails;
    var rs := front + [r];
    TrailsStep(front, r);
    forall j | 0 <= j < |after| && !IsFirst(after, j)
      ensures exists i :: 0 <= i < |rs| && Trails(rs, i) && SlotOf(rs[i]) == SlotOf(after[j])
    {
      if j < |ordered| {
        var i :| 0 <= i < |front| && Trails(front, i) && SlotOf(front[i]) == SlotOf(ordered[j]);
        assert Trails(rs, i) && rs[i] == front[i];
      } else {
        assert Trails(rs, |front|) && rs[|front|] == r;
      }
    }
  }

  lemma StepTrailsKept(front: seq<Route>, r: Route, ordered: seq<Route>, after: seq<Route>, k: nat)
    requires TrailsKept(front, ordered) && OthersStep(front, r, ordered, after, k)
    ensures TrailsKept(front + [r], after)
  {
    hide PathOf, SlotOf, IsFirst, Trails;
    var rs := front + [r];
    TrailsStep(front, r);
    forall i | 0 <= i < |rs| && Trails(rs, i)
      ensures exists j :: 0 <= j < |after| && !IsFirst(after, j) && SlotOf(after[j]) == SlotOf(rs[i])
    {
      if i < |front| {
        assert Trails(front, i) && rs[i] == front[i];
        var j :| 0 <= j < |ordered| && !IsFirst(ordered, j) && SlotOf(ordered[j]) == SlotOf(front[i]);
        assert !IsFirst(after, j) && SlotOf(after[j]) == SlotOf(ordered[j]);
      } else {
        assert !IsFirst(after, k) && rs[i] == r;
      }
    }
  }

  lemma StepOthersDiffer(front: seq<Route>, r: Route, ordered: seq<Route>, after: seq<Route>, k: nat)
    requires OthersDiffer(ordered) && OthersStep(front, r, ordered, after, k)
    ensures OthersDiffer(after)
  {
    hide PathOf, SlotOf, IsFirst, Trails;
    forall j, m | 0 <= j < m < |after| && !IsFirst(after, j) ensures SlotOf(after[j]) != SlotOf(after[m]) {
      if IsFirst(after, m) {
        FirstDiffers(after, j, m);
      } else if m < |ordered| {
        assert SlotOf(ordered[j]) != SlotOf(ordered[m]);
      } else {
        assert SlotOf(ordered[j]) != SlotOf(r);
      }
    }
  }

  lemma FirstDiffers(ordered: seq<Route>, j: nat, m: nat)
    requires j < m < |ordered| && IsFirst(ordered, m)
    ensures SlotOf(ordered[j]) != SlotOf(ordered[m])
  {
    hide NormalPath, Fold;
    assert PathOf(ordered[j]) != PathOf(ordered[m]);
  }

  lemma StepShape(front: seq<Route>, r: Route, ordered: seq<Route>, after: seq<Route>, k: nat)
    requires Shaped(front, ordered) && OthersStep(front, r, ordered, after, k) && FirstsLead(front + [r], after)
    ensures Shaped(front + [r], after)
  {
    hide FirstsLead, OthersTrail, OthersDiffer, TrailsKept, OthersStep;
    StepOthersTrail(front, r, ordered, after, k);
    StepTrailsKept(front, r, ordered, after, k);
    StepOthersDiffer(front, r, ordered, after, k);
  }

  // The first entries, case by case.

  /** A route that does not trail is its path's first entry afterwards. */
  lemma FirstsTaken(front: seq<Route>, r: Route, ordered: seq<Route>, after: seq<Route>, h: nat)
    requires FirstsLead(front, ordered) && !Trails(front + [r], |front|)
    requires h < |after| && after[h] == r && |ordered| <= |after| <= |ordered| + 1
    requires forall j :: 0 <= j < |after| && j != h && IsFirst(after, j) ==>
               j < |ordered| && IsFirst(ordered, j) && after[j] == ordered[j] && PathOf(ordered[j]) != PathOf(r)
    ensures FirstsLead(front + [r], after)
  {
    hide PathOf, SlotOf, IsAny, RunLeader, IsFirst, Trails;
    LeaderMatches(front, r);
    forall j | 0 <= j < |after| && IsFirst(after, j)
      ensures var leader := RunLeader(front + [r], PathOf(after[j]));
              if leader.Some? then SlotOf(after[j]) == SlotOf(leader.value) else IsAny(after[j])
    {
      LeaderStep(front, r, PathOf(after[j]));
    }
  }

  lemma LeaderMatches(front: seq<Route>, r: Route)
    requires !Trails(front + [r], |front|)
    ensures IsAny(r) || RunLeader(front, PathOf(r)) == None || SlotOf(RunLeader(front, PathOf(r)).value) == SlotOf(r)
  {
    hide PathOf, SlotOf, IsAny, RunLeader;
    assert (front + [r])[..|front|] == front;
  }

  /** A trailing route changes no leader. */
  lemma FirstsKept(front: seq<Route>, r: Route, ordered: seq<Route>, after: seq<Route>)
    requires FirstsLead(front, ordered) && Trails(front + [r], |front|)
    requires |ordered| <= |after|
    requires forall j :: 0 <= j < |after| && IsFirst(after, j) ==>
               j < |ordered| && IsFirst(ordered, j) && after[j] == ordered[j]
    ensures FirstsLead(front + [r], after)
  {
    hide PathOf, SlotOf, IsAny, RunLeader, IsFirst, Trails;
    TrailingFacts(front, r);
    forall j | 0 <= j < |after| && IsFirst(after, j)
      ensures RunLeader(front + [r], PathOf(after[j])) == RunLeader(front, PathOf(ordered[j]))
    {
      LeaderStep(front, r, PathOf(after[j]));
    }
  }

  lemma TrailingFacts(front: seq<Route>, r: Route)
    requires Trails(front + [r], |front|)
    ensures !IsAny(r) && RunLeader(front, PathOf(r)).Some?
  {
    hide PathOf, SlotOf, IsAny, RunLeader;
    assert (front + [r])[..|front|] == front;
  }

  /** Placing a route at a path of its own keeps the shape. */
  lemma StepNewPath(front: seq<Route>, r: Route)
    requires Shaped(front, Layer(front)) && PathOf(r) !in PathSet(front)
    ensures Shaped(front + [r], Place(Layer(front), r))
  {
    hide Layer, Overlaps, PathOf, SlotOf, IsFirst, Trails, RunLeader, OthersTrail, OthersDiffer, TrailsKept, FirstsLead;
    var ordered := Layer(front);
    LayerKeepsPaths(front);
    forall j | 0 <= j < |ordered| ensures PathOf(ordered[j]) != PathOf(r) && !Overlaps(ordered[j], r) {
      assert PathOf(ordered[j]) in PathSet(ordered);
      OverlapIff(ordered[j], r);
    }
    FirstOverlapIs(ordered, r, |ordered|);
    LeaderNeedsPath(front, PathOf(r));
    FirstsAppended(ordered, r);
    if Trails(front + [r], |front|) {
      TrailingFacts(front, r);
    }
    FirstsTaken(front, r, ordered, ordered + [r], |ordered|);
    StepShape(front, r, ordered, ordered + [r], 0);
  }

  /** Placing a route that leads its path replaces the first entry there, and keeps the shape. */
  lemma StepLeads(front: seq<Route>, r: Route)
    requires Shaped(front, Layer(front)) && PathOf(r) in PathSet(front) && !Trails(front + [r], |front|)
    ensures Shaped(front + [r], Place(Layer(front), r))
  {
    hide Layer, Overlaps, PathOf, SlotOf, IsFirst, Trails, OthersTrail, OthersDiffer, TrailsKept, FirstsLead, IsAny;
    var ordered := Layer(front);
    LeadsOrTrails(front, r);
    var h := FirstAt(ordered, PathOf(r));
    forall j | 0 <= j < h ensures !Overlaps(ordered[j], r) {
      OverlapIff(ordered[j], r);
    }
    FirstOverlapIs(ordered, r, h);
    SameFirsts(ordered, h, r);
    forall j | 0 <= j < |ordered| && j != h && IsFirst(ordered, j) ensures PathOf(ordered[j]) != PathOf(r) {
      if h < j {
        assert PathOf(ordered[h]) == PathOf(r);
        FirstPath(ordered, h, j);
      }
    }
    FirstsTaken(front, r, ordered, ordered[h := r], h);
    StepShape(front, r, ordered, ordered[h := r], 0);
  }

  lemma FirstPath(ordered: seq<Route>, h: nat, j: nat)
    requires h < j < |ordered| && IsFirst(ordered, j)
    ensures PathOf(ordered[h]) != PathOf(ordered[j])
  {
  }

  /** Placing a trailing route replaces the entry in its slot or adds one, and keeps the shape. */
  lemma StepTrails(front: seq<Route>, r: Route)
    requires Shaped(front, Layer(front)) && PathOf(r) in PathSet(front) && Trails(front + [r], |front|)
    ensures Shaped(front + [r], Place(Layer(front), r))
  {
    hide Layer, Overlaps, PathOf, SlotOf, IsFirst, Trails, OthersTrail, OthersDiffer, TrailsKept, FirstsLead, IsAny;
    var ordered := Layer(front);
    TrailingSpot(front, r);
    var k := FirstOverlap(ordered, r);
    if k < |ordered| {
      SameFirsts(ordered, k, r);
    } else {
      FirstsAppended(ordered, r);
    }
    FirstsKept(front, r, ordered, Place(ordered, r));
    StepShape(front, r, ordered, Place(ordered, r), k);
  }

  /** A trailing route first overlaps the entry in its own slot, which is not first at its path. */
  lemma TrailingSpot(front: seq<Route>, r: Route)
    requires Shaped(front, Layer(front)) && PathOf(r) in PathSet(front) && Trails(front + [r], |front|)
    ensures var ordered, k := Layer(front), FirstOverlap(Layer(front), r);
            if k < |ordered| then !IsFirst(ordered, k) && SlotOf(ordered[k]) == SlotOf(r) && PathOf(ordered[k]) == PathOf(r)
            else (forall j :: 0 <= j < |ordered| ==> SlotOf(ordered[j]) != SlotOf(r))
                 && exists j :: 0 <= j < |ordered| && PathOf(ordered[j]) == PathOf(r)
  {
    hide Layer, Overlaps, PathOf, SlotOf, IsFirst, Trails, OthersDiffer, TrailsKept, FirstsLead, IsAny;
    var ordered := Layer(front);
    LeadsOrTrails(front, r);
    TrailingFacts(front, r);
    var h, k := FirstAt(ordered, PathOf(r)), FirstOverlap(ordered, r);
    if k < |ordered| {
      OverlapIff(ordered[k], r);
      NotFirst(ordered, h, k);
      OthersSpecific(front, ordered, k);
    } else {
      forall j | 0 <= j < |ordered| ensures SlotOf(ordered[j]) != SlotOf(r) {
        OverlapIff(ordered[j], r);
      }
    }
  }

  lemma OthersSpecific(rs: seq<Route>, ordered: seq<Route>, j: nat)
    requires OthersTrail(rs, ordered) && j < |ordered| && !IsFirst(ordered, j)
    ensures !IsAny(ordered[j])
  {
    hide PathOf, SlotOf, IsAny, IsFirst, RunLeader;
    var i :| 0 <= i < |rs| && Trails(rs, i) && SlotOf(rs[i]) == SlotOf(ordered[j]);
    SlotDetermines(rs[i], ordered[j]);
  }

  lemma ShapeOfNone()
    ensures Shaped([], [])
  {
  }

  /** The shape of every layer. */
  lemma {:induction false} LayerShape(rs: seq<Route>)
    ensures Shaped(rs, Layer(rs))
  {
    hide PathOf, SlotOf, Place, Trails, Shaped, PathSet;
    ShapeOfNone();
    if rs != [] {
      var front, r := rs[..|rs| - 1], rs[|rs| - 1];
      LayerShape(front);
      assert rs == front + [r];
      if PathOf(r) !in PathSet(front) {
        StepNewPath(front, r);
      } else if Trails(rs, |front|) {
        StepTrails(front, r);
      } else {
        StepLeads(front, r);
      }
    }
  }

  // ---- the theorem -------------------------------------------------------------------

  /** A layer is free of overlaps exactly when its input is clean. */
  lemma LayerNonOverlappingIff(rs: seq<Route>)
    ensures NonOverlapping(Layer(rs)) <==> Clean(rs)
  {
    hide Layer, Overlaps, Shaped, Clean, NonOverlapping;
    LayerShape(rs);
    if Clean(rs) {
      CleanSuffices(rs, Layer(rs));
    }
    if NonOverlapping(Layer(rs)) {
      CleanNeeded(rs, Layer(rs));
    }
  }

  lemma FirstExists(ordered: seq<Route>, k: nat) returns (h: nat)
    requires k < |ordered|
    ensures h <= k && PathOf(ordered[h]) == PathOf(ordered[k]) && IsFirst(ordered, h)
    ensures !IsFirst(ordered, k) ==> h < k
  {
    hide PathOf;
    h := FirstAt(ordered, PathOf(ordered[k]));
  }

  lemma CleanSuffices(rs: seq<Route>, ordered: seq<Route>)
    requires Shaped(rs, ordered) && Clean(rs)
    ensures NonOverlapping(ordered)
  {
    hide NormalPath, Fold, Overlaps, RunLeader, IsAny, Trails, PathOf, SlotOf, IsFirst;
    forall j, k | 0 <= j < k < |ordered| ensures !Overlaps(ordered[j], ordered[k]) {
      OverlapIff(ordered[j], ordered[k]);
      if PathOf(ordered[j]) == PathOf(ordered[k]) {
        NotFirst(ordered, j, k);
        OthersSpecific(rs, ordered, k);
        if !IsFirst(ordered, j) {
          OthersSpecific(rs, ordered, j);
        } else {
          var i :| 0 <= i < |rs| && Trails(rs, i) && SlotOf(rs[i]) == SlotOf(ordered[k]);
          SlotDetermines(rs[i], ordered[k]);
          var leader := RunLeader(rs, PathOf(rs[i]));
          assert leader.Some? && SlotOf(leader.value) != SlotOf(rs[i]);
          SlotDetermines(ordered[j], leader.value);
        }
      }
    }
  }

  lemma CleanNeeded(rs: seq<Route>, ordered: seq<Route>)
    requires Shaped(rs, ordered) && NonOverlapping(ordered)
    ensures Clean(rs)
  {
    hide NormalPath, Fold, Overlaps, RunLeader, IsAny, Trails, PathOf, SlotOf, IsFirst;
    forall i | 0 <= i < |rs| && Trails(rs, i)
      ensures RunLeader(rs, PathOf(rs[i])).Some? && SlotOf(RunLeader(rs, PathOf(rs[i])).value) != SlotOf(rs[i])
    {
      var k :| 0 <= k < |ordered| && !IsFirst(ordered, k) && SlotOf(ordered[k]) == SlotOf(rs[i]);
      SlotDetermines(ordered[k], rs[i]);
      var h := FirstExists(ordered, k);
      assert !Overlaps(ordered[h], ordered[k]);
      OverlapIff(ordered[h], ordered[k]);
    }
  }

  /** Not mixing any-method and specific-method routes at one path is enough. */
  lemma UnmixedIsClean(rs: seq<Route>)
    requires Unmixed(rs)
    ensures Clean(rs)
  {
    hide Clean, Layer, Unmixed, NonOverlapping, LastWins;
    UnmixedIsLastWins(rs);
    LayerNonOverlappingIff(rs);
  }

  // ---- presets below user routes -------------------------------------------------------

  /** What of the user routes keeps a preset out: one at its path, with the preset or the end of the
      path's routes taking any method, or the last run's leader or a trailing route in its slot. */
  ghost predicate Shadowed(user: seq<Route>, r: Route) {
    && PathOf(r) in PathSet(user)
    && (|| IsAny(r)
        || RunLeader(user, PathOf(r)) == None
        || SlotOf(RunLeader(user, PathOf(r)).value) == SlotOf(r)
        || exists i :: 0 <= i < |user| && Trails(user, i) && SlotOf(user[i]) == SlotOf(r))
  }

  /** A preset overlaps a user route that survives exactly when the user routes shadow it. */
  lemma ShadowedIff(user: seq<Route>, r: Route)
    ensures OverlapsAny(Layer(user), r) <==> Shadowed(user, r)
  {
    hide PathOf, SlotOf, IsAny, Overlaps, RunLeader, Trails, Layer, IsFirst, Shadowed;
    LayerShape(user);
    LayerKeepsPaths(user);
    if OverlapsAny(Layer(user), r) {
      var j :| 0 <= j < |Layer(user)| && Overlaps(Layer(user)[j], r);
      OverlapShadows(user, Layer(user), r, j);
    }
    if Shadowed(user, r) {
      ShadowOverlaps(user, Layer(user), r);
    }
  }

  lemma OverlapShadows(user: seq<Route>, ordered: seq<Route>, r: Route, j: nat)
    requires Shaped(user, ordered) && PathSet(ordered) == PathSet(user)
    requires j < |ordered| && Overlaps(ordered[j], r)
    ensures Shadowed(user, r)
  {
    hide PathOf, SlotOf, IsAny, Overlaps, RunLeader, Trails, IsFirst, OthersDiffer, TrailsKept;
    OverlapIff(ordered[j], r);
    assert PathOf(ordered[j]) in PathSet(ordered);
    var leader := RunLeader(user, PathOf(r));
    if !IsFirst(ordered, j) {
      OthersSpecific(user, ordered, j);
    } else if leader.Some? {
      SlotDetermines(ordered[j], leader.value);
    }
  }

  /** The first entry at its path overlaps a shadowed preset unless only a trailing route shadows it. */
  lemma FirstOverlapped(user: seq<Route>, ordered: seq<Route>, r: Route) returns (h: nat)
    requires FirstsLead(user, ordered) && PathOf(r) in PathSet(ordered)
    ensures h < |ordered|
    ensures IsAny(r) || RunLeader(user, PathOf(r)) == None || SlotOf(RunLeader(user, PathOf(r)).value) == SlotOf(r) ==>
              Overlaps(ordered[h], r)
  {
    hide PathOf, SlotOf, IsAny, Overlaps, RunLeader, IsFirst;
    var k :| 0 <= k < |ordered| && PathOf(ordered[k]) == PathOf(r);
    h := FirstExists(ordered, k);
    OverlapIff(ordered[h], r);
  }

  lemma ShadowOverlaps(user: seq<Route>, ordered: seq<Route>, r: Route)
    requires Shaped(user, ordered) && PathSet(ordered) == PathSet(user) && Shadowed(user, r)
    ensures OverlapsAny(ordered, r)
  {
    hide PathOf, SlotOf, IsAny, Overlaps, RunLeader, Trails, IsFirst, OthersDiffer, FirstsLead, OthersTrail;
    var h := FirstOverlapped(user, ordered, r);
    if !Overlaps(ordered[h], r) {
      var i :| 0 <= i < |user| && Trails(user, i) && SlotOf(user[i]) == SlotOf(r);
      var j :| 0 <= j < |ordered| && !IsFirst(ordered, j) && SlotOf(ordered[j]) == SlotOf(user[i]);
      OverlapIff(ordered[j], r);
    }
  }

  /** The presets that the user routes do not shadow. */
  ghost function Unshadowed(user: seq<Route>, presets: seq<Route>): seq<Route> {
    if presets == [] then []
    else
      var last := presets[|presets| - 1];
      Unshadowed(user, presets[..|presets| - 1]) + if Shadowed(user, last) then [] else [last]
  }

  lemma {:induction false} AdmittedIsUnshadowed(user: seq<Route>, presets: seq<Route>)
    ensures Admitted(presets, Layer(user)) == Unshadowed(user, presets)
  {
    hide Shadowed, OverlapsAny, Layer;
    if presets != [] {
      AdmittedIsUnshadowed(user, presets[..|presets| - 1]);
      ShadowedIff(user, presets[|presets| - 1]);
    }
  }

  /** The result of resolution is free of overlaps exactly when the user list and the presets it does
      not shadow are both clean; and exactly then resolving it again changes nothing. */
  lemma ResolvedNonOverlappingIff(user: seq<Route>, presets: seq<Route>)
    ensures NonOverlapping(Resolved(user, presets)) <==> Clean(user) && Clean(Unshadowed(user, presets))
    ensures Resolved(Resolved(user, presets), []) == Resolved(user, presets)
       <==> Clean(user) && Clean(Unshadowed(user, presets))
  {
    hide Overlaps, Layer, Admitted, Clean, NonOverlapping, Unshadowed;
    AdmittedIsUnshadowed(user, presets);
    LayersNonOverlapping(user, presets);
    LayerNonOverlappingIff(user);
    LayerNonOverlappingIff(Admitted(presets, Layer(user)));
    Untouched(Resolved(user, presets));
    LayerFixedIff(Resolved(user, presets));
  }

  /** Three routes at one path that resolve to two overlapping ones, and a fourth that makes two
      entries in one slot: the resolution stops at the first overlap. */
  lemma MixedRoutesCanOverlap(get: Route, post: Route, any: Route)
    requires get.path == post.path == any.path
    requires get.verb == "GET" && post.verb == "POST" && any.verb == ""
    ensures Resolved([get, post, any], []) == [any, post]
    ensures !NonOverlapping(Resolved([get, post, any], []))
    ensures Resolved([get, post, any, post], []) == [post, post]
  {
    hide NormalPath;
    assert Fold("GET") != Fold("POST") by {
      assert |Fold("GET")| == 3 && |Fold("POST")| == 4;
    }
    assert !Overlaps(get, post) && Overlaps(get, any) && Overlaps(any, post);
    var r1, r2, r3, r4 := [get], [get, post], [get, post, any], [get, post, any, post];
    assert r4[..3] == r3 && r3[..2] == r2 && r2[..1] == r1 && r1[..0] == [];
    assert Layer(r1) == [get];
    FirstOverlapIs([get], post, 1);
    assert Layer(r2) == [get, post];
    FirstOverlapIs([get, post], any, 0);
    assert Layer(r3) == [any, post];
    FirstOverlapIs([any, post], post, 0);
    assert Layer(r4) == [post, post];
    Untouched(r3);
    Untouched(r4);
    assert Overlaps(Layer(r3)[0], Layer(r3)[1]);
  }
}
