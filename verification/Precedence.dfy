/** What route precedence promises, and exactly when it keeps it. */
module Precedence {
  import opened Paths
  import opened Resolution

  /** The slot of a route: its normalised path and its method up to case. */
  type Slot = (string, string)

  function PathOf(r: Route): string {
    NormalPath(r.path)
  }

  function SlotOf(r: Route): Slot {
    (PathOf(r), Fold(r.verb))
  }

  lemma OverlapIff(a: Route, b: Route)
    ensures Overlaps(a, b)
       <==> PathOf(a) == PathOf(b) && (IsAny(a) || IsAny(b) || SlotOf(a) == SlotOf(b))
    ensures SlotOf(a) == SlotOf(b) ==> Overlaps(a, b) && IsAny(a) == IsAny(b)
  {
    hide NormalPath;
    assert |Fold(a.verb)| == |a.verb| && |Fold(b.verb)| == |b.verb|;
  }

  ghost predicate NonOverlapping(rs: seq<Route>) {
    forall i, j :: 0 <= i < j < |rs| ==> !Overlaps(rs[i], rs[j])
  }

  // ---- what any resolution keeps -------------------------------------------------

  function PathSet(rs: seq<Route>): set<string> {
    set i | 0 <= i < |rs| :: PathOf(rs[i])
  }

  lemma {:induction false} LayerElements(rs: seq<Route>)
    ensures forall i :: 0 <= i < |Layer(rs)| ==> Layer(rs)[i] in rs
  {
    hide Overlaps, FirstOverlap;
    if rs != [] {
      LayerElements(rs[..|rs| - 1]);
    }
  }

  /** Placing a route never loses a path. */
  lemma PlaceKeepsPaths(ordered: seq<Route>, r: Route)
    ensures PathSet(Place(ordered, r)) == PathSet(ordered) + {PathOf(r)}
  {
    hide NormalPath, Fold;
    var i, after := FirstOverlap(ordered, r), Place(ordered, r);
    if i < |ordered| {
      OverlapIff(ordered[i], r);
      assert forall j :: 0 <= j < |ordered| ==> PathOf(after[j]) == PathOf(ordered[j]);
      assert PathOf(after[i]) == PathOf(r);
    } else {
      assert forall j :: 0 <= j < |ordered| ==> after[j] == ordered[j];
      assert after[|ordered|] == r;
    }
  }

  lemma {:induction false} LayerKeepsPaths(rs: seq<Route>)
    ensures PathSet(Layer(rs)) == PathSet(rs)
  {
    hide NormalPath, Fold, Place;
    if rs != [] {
      var front, r := rs[..|rs| - 1], rs[|rs| - 1];
      LayerKeepsPaths(front);
      PlaceKeepsPaths(Layer(front), r);
      assert forall i :: 0 <= i < |front| ==> front[i] == rs[i];
    }
  }

  /** The newest route of a layer is always in it. */
  lemma NewestSurvives(rs: seq<Route>)
    requires rs != []
    ensures rs[|rs| - 1] in Layer(rs)
  {
    hide Overlaps;
    var ordered, r := Layer(rs[..|rs| - 1]), rs[|rs| - 1];
    var i := FirstOverlap(ordered, r);
    assert Place(ordered, r)[i] == r;
  }

  /** Every path served before resolution is served after it, and no other. */
  lemma PathsConserved(user: seq<Route>, presets: seq<Route>)
    ensures PathSet(Resolved(user, presets)) == PathSet(user) + PathSet(presets)
  {
    hide NormalPath, Fold;
    var top := Layer(user);
    var below := Admitted(presets, top);
    LayerKeepsPaths(user);
    LayerKeepsPaths(below);
    AdmittedKeepsPaths(presets, top);
    ConcatPaths(top, Layer(below));
  }

  lemma ConcatPaths(a: seq<Route>, b: seq<Route>)
    ensures PathSet(a + b) == PathSet(a) + PathSet(b)
  {
    hide NormalPath, Fold;
    assert forall i :: 0 <= i < |a| ==> (a + b)[i] == a[i];
    assert forall i :: 0 <= i < |b| ==> (a + b)[|a| + i] == b[i];
  }

  lemma {:induction false} AdmittedKeepsPaths(rs: seq<Route>, above: seq<Route>)
    ensures PathSet(above) + PathSet(Admitted(rs, above)) == PathSet(above) + PathSet(rs)
  {
    hide NormalPath, Fold, Overlaps, OverlapsAny;
    if rs != [] {
      var front, r := rs[..|rs| - 1], rs[|rs| - 1];
      AdmittedKeepsPaths(front, above);
      assert rs == front + [r];
      ConcatPaths(front, [r]);
      if OverlapsAny(above, r) {
        SharedPath(above, r);
        assert PathSet([r]) == {PathOf(r)};
        assert Admitted(front, above) + [] == Admitted(front, above);
      } else {
        ConcatPaths(Admitted(front, above), [r]);
      }
    }
  }

  lemma SharedPath(above: seq<Route>, r: Route)
    requires OverlapsAny(above, r)
    ensures PathOf(r) in PathSet(above)
  {
    hide NormalPath, Fold;
    var i :| 0 <= i < |above| && Overlaps(above[i], r);
    OverlapIff(above[i], r);
  }

  /** Presets never alter, displace or overlap a surviving user route: the result is the user routes
      resolved on their own, followed by routes of which each is a preset overlapping none of them,
      resolved on their own. */
  lemma UserRoutesUntouched(user: seq<Route>, presets: seq<Route>)
    ensures var top := Resolved(user, []);
            && Resolved(user, presets) == top + Resolved(Admitted(presets, top), [])
            && (forall i, j :: 0 <= i < |top| <= j < |Resolved(user, presets)| ==>
                  !Overlaps(Resolved(user, presets)[i], Resolved(user, presets)[j]))
  {
    hide Overlaps, Layer, FirstOverlap;
    var top := Layer(user);
    var below := Admitted(presets, top);
    assert Admitted([], Layer(user)) == Admitted([], Layer(below)) == [];
    LayerOfNone();
    assert top + [] == top && Layer(below) + [] == Layer(below);
    LayerElements(below);
    var all := Resolved(user, presets);
    forall i, j | 0 <= i < |top| <= j < |all| ensures !Overlaps(all[i], all[j]) {
      var r := Layer(below)[j - |top|];
      assert all[j] == r && r in below;
      var k :| 0 <= k < |below| && below[k] == r;
      assert !OverlapsAny(top, below[k]);
    }
  }

  lemma LayerOfNone()
    ensures Layer([]) == []
  {
  }

  // ---- resolving twice -------------------------------------------------------------

  lemma PrefixNonOverlapping(front: seq<Route>, r: Route)
    ensures NonOverlapping(front + [r])
       <==> NonOverlapping(front) && forall j :: 0 <= j < |front| ==> !Overlaps(front[j], r)
  {
    hide Overlaps;
    var rs := front + [r];
    if NonOverlapping(rs) {
      forall i, j | 0 <= i < j < |front| ensures !Overlaps(front[i], front[j]) {
        assert !Overlaps(rs[i], rs[j]);
      }
      forall j | 0 <= j < |front| ensures !Overlaps(front[j], r) {
        assert !Overlaps(rs[j], rs[|front|]);
      }
    }
  }

  /** Resolving a list again changes nothing exactly when no two of its routes overlap. */
  lemma {:induction false} LayerFixedIff(rs: seq<Route>)
    ensures Layer(rs) == rs <==> NonOverlapping(rs)
  {
    hide Overlaps, FirstOverlap, NonOverlapping;
    if rs == [] {
      NoneOverlap();
    } else {
      var front, r := rs[..|rs| - 1], rs[|rs| - 1];
      LayerFixedIff(front);
      assert rs == front + [r];
      PrefixNonOverlapping(front, r);
      if Layer(rs) == rs {
        assert |Layer(front)| == |front| && Layer(rs) == Layer(front) + [r];
        assert Layer(front) == Layer(rs)[..|front|] == front;
      }
      if NonOverlapping(rs) {
        FirstOverlapIs(front, r, |front|);
      }
    }
  }

  lemma NoneOverlap()
    ensures NonOverlapping([])
  {
  }
}
