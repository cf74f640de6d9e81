/** Last-wins precedence: where it holds, and the exact condition under which it does. */
module LastWinsRule {
  import opened Paths
  import opened Resolution
  import opened Precedence

  /** No path carries both a route for any method and a route for one. */
  ghost predicate Unmixed(rs: seq<Route>) {
    forall i, j :: 0 <= i < |rs| && 0 <= j < |rs| && PathOf(rs[i]) == PathOf(rs[j]) ==> IsAny(rs[i]) == IsAny(rs[j])
  }

  /** The slots of `rs` in the order they first appear. */
  function Slots(rs: seq<Route>): seq<Slot> {
    if rs == [] then []
    else
      var front, r := rs[..|rs| - 1], rs[|rs| - 1];
      if SlotOf(r) in Slots(front) then Slots(front) else Slots(front) + [SlotOf(r)]
  }

  lemma {:induction false} SlotsDiffer(rs: seq<Route>)
    ensures forall i, j :: 0 <= i < j < |Slots(rs)| ==> Slots(rs)[i] != Slots(rs)[j]
  {
    hide SlotOf;
    if rs != [] {
      SlotsDiffer(rs[..|rs| - 1]);
    }
  }

  lemma {:induction false} SlotsHold(rs: seq<Route>, i: nat)
    requires i < |rs|
    ensures SlotOf(rs[i]) in Slots(rs)
  {
    hide SlotOf;
    if i < |rs| - 1 {
      SlotsHold(rs[..|rs| - 1], i);
    }
  }

  /** The last route of `rs` in slot `k`. */
  function LastIn(rs: seq<Route>, k: Slot): (r: Route)
    requires k in Slots(rs)
    ensures r in rs && SlotOf(r) == k
  {
    if SlotOf(rs[|rs| - 1]) == k then rs[|rs| - 1] else LastIn(rs[..|rs| - 1], k)
  }

  /** The last route of every slot, slots in the order they first appear. */
  function LastWins(rs: seq<Route>): (r: seq<Route>)
    ensures |r| == |Slots(rs)|
  {
    seq(|Slots(rs)|, i requires 0 <= i < |Slots(rs)| => LastIn(rs, Slots(rs)[i]))
  }

  lemma UnmixedFront(rs: seq<Route>)
    requires rs != [] && Unmixed(rs)
    ensures Unmixed(rs[..|rs| - 1])
  {
    hide PathOf, IsAny;
    var front := rs[..|rs| - 1];
    forall i, j | 0 <= i < |front| && 0 <= j < |front| && PathOf(front[i]) == PathOf(front[j])
      ensures IsAny(front[i]) == IsAny(front[j])
    {
      assert front[i] == rs[i] && front[j] == rs[j];
    }
  }

  /** Among unmixed routes, overlapping is sharing a slot. */
  lemma OverlapIsSlot(rs: seq<Route>, a: Route, b: Route)
    requires Unmixed(rs) && a in rs && b in rs
    ensures Overlaps(a, b) <==> SlotOf(a) == SlotOf(b)
  {
    hide NormalPath, Fold, Overlaps;
    OverlapIff(a, b);
  }

  lemma SlotsExtend(front: seq<Route>, r: Route)
    ensures Slots(front + [r]) == if SlotOf(r) in Slots(front) then Slots(front) else Slots(front) + [SlotOf(r)]
  {
    hide SlotOf;
    assert (front + [r])[..|front|] == front;
  }

  lemma LastInExtends(front: seq<Route>, r: Route, slot: Slot)
    ensures slot in Slots(front + [r]) <==> slot in Slots(front) || slot == SlotOf(r)
    ensures slot == SlotOf(r) ==> LastIn(front + [r], slot) == r
    ensures slot in Slots(front) && slot != SlotOf(r) ==> LastIn(front + [r], slot) == LastIn(front, slot)
  {
    hide SlotOf;
    assert (front + [r])[..|front|] == front;
  }

  lemma LastWinsAt(rs: seq<Route>, i: nat)
    requires i < |Slots(rs)|
    ensures LastWins(rs)[i] == LastIn(rs, Slots(rs)[i])
    ensures SlotOf(LastWins(rs)[i]) == Slots(rs)[i] && LastWins(rs)[i] in rs
  {
    hide SlotOf, LastIn, Slots;
  }

  /** A further route takes over its slot, or opens one. */
  lemma LastWinsExtends(front: seq<Route>, r: Route, k: nat)
    requires k <= |Slots(front)|
    requires if k < |Slots(front)| then Slots(front)[k] == SlotOf(r) else SlotOf(r) !in Slots(front)
    ensures LastWins(front + [r]) == if k < |Slots(front)| then LastWins(front)[k := r] else LastWins(front) + [r]
  {
    hide SlotOf, LastIn, Slots, LastWins;
    var slots := Slots(front);
    SlotsExtend(front, r);
    SlotsDiffer(front);
    forall i | 0 <= i < |slots|
      ensures LastWins(front + [r])[i] == if i == k then r else LastWins(front)[i]
    {
      LastWinsAt(front, i);
      LastWinsAt(front + [r], i);
      LastInExtends(front, r, slots[i]);
    }
    LastInExtends(front, r, SlotOf(r));
    if k == |slots| {
      LastWinsAt(front + [r], k);
    }
  }

  /** Appending a route to last-wins is placing it. */
  lemma LastWinsStep(front: seq<Route>, r: Route)
    requires Unmixed(front + [r])
    ensures LastWins(front + [r]) == Place(LastWins(front), r)
  {
    hide Overlaps, SlotOf, Unmixed, FirstOverlap, LastIn, Slots;
    var rs, slots, was := front + [r], Slots(front), LastWins(front);
    forall i | 0 <= i < |was| ensures Overlaps(was[i], r) <==> slots[i] == SlotOf(r) {
      LastWinsAt(front, i);
      OverlapIsSlot(rs, was[i], r);
    }
    var k := FirstOverlap(was, r);
    LastWinsExtends(front, r, k);
  }

  lemma LastWinsNone()
    ensures LastWins([]) == []
  {
  }

  lemma {:induction false} UnmixedIsLastWins(rs: seq<Route>)
    requires Unmixed(rs)
    ensures Layer(rs) == LastWins(rs)
    ensures NonOverlapping(Layer(rs))
  {
    hide Overlaps, SlotOf, PathOf, Place, LastWins, Slots, Unmixed;
    LastWinsNone();
    if rs != [] {
      var front, r := rs[..|rs| - 1], rs[|rs| - 1];
      UnmixedFront(rs);
      UnmixedIsLastWins(front);
      assert rs == front + [r];
      LastWinsStep(front, r);
    }
    SlotsDiffer(rs);
    forall i, j | 0 <= i < j < |Layer(rs)| ensures !Overlaps(Layer(rs)[i], Layer(rs)[j]) {
      LastWinsAt(rs, i);
      LastWinsAt(rs, j);
      OverlapIsSlot(rs, LastWins(rs)[i], LastWins(rs)[j]);
    }
  }

  /** Last-wins over mixed routes overlaps itself, so no resolution free of overlaps can equal it. */
  lemma MixedLastWinsOverlaps(rs: seq<Route>)
    requires !Unmixed(rs)
    ensures !NonOverlapping(LastWins(rs))
  {
    hide PathOf, SlotOf, IsAny, Overlaps, Slots, LastWins;
    var i, j :| 0 <= i < |rs| && 0 <= j < |rs| && PathOf(rs[i]) == PathOf(rs[j]) && IsAny(rs[i]) != IsAny(rs[j]);
    var a := SlotIndex(rs, i);
    var b := SlotIndex(rs, j);
    MixedPairOverlaps(rs[i], rs[j], LastWins(rs)[a], LastWins(rs)[b]);
    if a < b {
      assert Overlaps(LastWins(rs)[a], LastWins(rs)[b]);
    } else {
      assert Overlaps(LastWins(rs)[b], LastWins(rs)[a]);
    }
  }

  lemma SlotIndex(rs: seq<Route>, i: nat) returns (a: nat)
    requires i < |rs|
    ensures a < |LastWins(rs)| && SlotOf(LastWins(rs)[a]) == SlotOf(rs[i])
  {
    hide SlotOf, Slots, LastWins;
    SlotsHold(rs, i);
    a :| 0 <= a < |Slots(rs)| && Slots(rs)[a] == SlotOf(rs[i]);
    LastWinsAt(rs, a);
  }

  lemma MixedPairOverlaps(a: Route, b: Route, x: Route, y: Route)
    requires PathOf(a) == PathOf(b) && IsAny(a) != IsAny(b)
    requires SlotOf(x) == SlotOf(a) && SlotOf(y) == SlotOf(b)
    ensures Overlaps(x, y) && Overlaps(y, x) && x != y
  {
    hide NormalPath, Fold, Overlaps;
    OverlapIff(x, a);
    OverlapIff(y, b);
    OverlapIff(x, y);
    OverlapIff(y, x);
  }

  /** One layer is last-wins and free of overlaps exactly when it is unmixed. */
  lemma LayerIsLastWinsIff(rs: seq<Route>)
    ensures Layer(rs) == LastWins(rs) && NonOverlapping(Layer(rs)) <==> Unmixed(rs)
  {
    hide Overlaps, Layer, LastWins, Unmixed, NonOverlapping;
    if Unmixed(rs) {
      UnmixedIsLastWins(rs);
    } else {
      MixedLastWinsOverlaps(rs);
    }
  }

  // ---- both layers -------------------------------------------------------------------

  /** Over an unmixed user list, the presets admitted are those overlapping no user route at all. */
  lemma {:induction false} AdmittedByInputs(presets: seq<Route>, user: seq<Route>)
    requires Unmixed(user)
    ensures Admitted(presets, Layer(user)) == Admitted(presets, user)
  {
    hide Overlaps, OverlapsAny, Layer, Unmixed;
    if presets != [] {
      AdmittedByInputs(presets[..|presets| - 1], user);
      SameOverlaps(user, presets[|presets| - 1]);
    }
  }

  lemma SameOverlaps(user: seq<Route>, r: Route)
    requires Unmixed(user)
    ensures OverlapsAny(Layer(user), r) == OverlapsAny(user, r)
  {
    hide NormalPath, Fold, Overlaps, Unmixed, Layer, PathOf, SlotOf, Slots, LastWins;
    UnmixedIsLastWins(user);
    var layer := LastWins(user);
    if OverlapsAny(layer, r) {
      var i :| 0 <= i < |layer| && Overlaps(layer[i], r);
      LastWinsAt(user, i);
    }
    if OverlapsAny(user, r) {
      var i :| 0 <= i < |user| && Overlaps(user[i], r);
      var k := SlotIndex(user, i);
      SlotMatesOverlap(layer[k], user[i], r);
    }
  }

  lemma SlotMatesOverlap(a: Route, b: Route, r: Route)
    requires SlotOf(a) == SlotOf(b)
    ensures Overlaps(a, r) == Overlaps(b, r)
  {
    hide NormalPath, Fold, Overlaps;
    OverlapIff(a, b);
    OverlapIff(a, r);
    OverlapIff(b, r);
  }

  /** The precedence theorem: the result is free of overlaps and is the last user route of every slot
      in order of first appearance, followed by the same for the presets that overlap no user route,
      exactly when neither the user list nor those presets mix any-method and specific-method routes at
      one path. What presets do at paths the user routes own does not matter. */
  lemma ResolvedIsLastWinsIff(user: seq<Route>, presets: seq<Route>)
    ensures (Resolved(user, presets) == LastWins(user) + LastWins(Admitted(presets, user))
             && NonOverlapping(Resolved(user, presets)))
       <==> Unmixed(user) && Unmixed(Admitted(presets, user))
  {
    hide Overlaps, Layer, Admitted, LastWins, Unmixed;
    var below := Admitted(presets, user);
    var first, second := LastWins(user), LastWins(below);
    if Unmixed(user) && Unmixed(below) {
      AdmittedByInputs(presets, user);
      UnmixedIsLastWins(user);
      UnmixedIsLastWins(below);
      UserRoutesUntouched(user, presets);
      LayersNonOverlapping(user, presets);
    } else if Resolved(user, presets) == first + second && NonOverlapping(Resolved(user, presets)) {
      PartsNonOverlapping(first, second);
      if !Unmixed(user) {
        MixedLastWinsOverlaps(user);
      } else {
        MixedLastWinsOverlaps(below);
      }
    }
  }

  lemma PartsNonOverlapping(a: seq<Route>, b: seq<Route>)
    requires NonOverlapping(a + b)
    ensures NonOverlapping(a) && NonOverlapping(b)
  {
    hide Overlaps;
    forall i, j | 0 <= i < j < |a| ensures !Overlaps(a[i], a[j]) {
      assert (a + b)[i] == a[i] && (a + b)[j] == a[j];
    }
    forall i, j | 0 <= i < j < |b| ensures !Overlaps(b[i], b[j]) {
      assert (a + b)[|a| + i] == b[i] && (a + b)[|a| + j] == b[j];
    }
  }

  /** Overlaps in the result lie within one of its layers. */
  lemma LayersNonOverlapping(user: seq<Route>, presets: seq<Route>)
    ensures NonOverlapping(Resolved(user, presets))
       <==> NonOverlapping(Layer(user)) && NonOverlapping(Layer(Admitted(presets, Layer(user))))
  {
    hide Overlaps, Layer, Admitted;
    var top := Layer(user);
    var below := Layer(Admitted(presets, top));
    if NonOverlapping(top + below) {
      PartsNonOverlapping(top, below);
    }
    if NonOverlapping(top) && NonOverlapping(below) {
      UserRoutesUntouched(user, presets);
      Untouched(user);
      forall i, j | 0 <= i < j < |top + below| ensures !Overlaps((top + below)[i], (top + below)[j]) {
        if j < |top| {
          assert !Overlaps(top[i], top[j]);
        } else if i >= |top| {
          assert !Overlaps(below[i - |top|], below[j - |top|]);
        }
      }
    }
  }

  lemma Untouched(user: seq<Route>)
    ensures Resolved(user, []) == Layer(user)
  {
    LayerOfNone();
  }

  /** In particular: if neither list mixes the two kinds of route at one path, the result is last-wins in
      both parts and free of overlaps, and resolving it again changes nothing. */
  lemma UnmixedResolves(user: seq<Route>, presets: seq<Route>)
    requires Unmixed(user) && Unmixed(presets)
    ensures Resolved(user, presets) == LastWins(user) + LastWins(Admitted(presets, user))
    ensures NonOverlapping(Resolved(user, presets))
    ensures Resolved(Resolved(user, presets), []) == Resolved(user, presets)
  {
    hide Overlaps, Layer, Admitted, LastWins, Unmixed, NonOverlapping, Resolved;
    UnmixedSome(Admitted(presets, user), presets);
    ResolvedIsLastWinsIff(user, presets);
    Untouched(Resolved(user, presets));
    LayerFixedIff(Resolved(user, presets));
  }

  lemma UnmixedSome(some: seq<Route>, rs: seq<Route>)
    requires Unmixed(rs) && forall i :: 0 <= i < |some| ==> some[i] in rs
    ensures Unmixed(some)
  {
    hide PathOf, IsAny;
    forall i, j | 0 <= i < |some| && 0 <= j < |some| && PathOf(some[i]) == PathOf(some[j])
      ensures IsAny(some[i]) == IsAny(some[j])
    {
      var a :| 0 <= a < |rs| && rs[a] == some[i];
      var b :| 0 <= b < |rs| && rs[b] == some[j];
    }
  }
}
