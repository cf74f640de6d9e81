/** Route precedence: `overlaps` and `Resolve` of internal/routes. */
module Resolution {
  import opened Paths

  /** What precedence looks at in a compiled route, and what tells one route from another. */
  datatype Route = Route(path: string, verb: string, status: int, source: string)

  /** A route without a method takes any. */
  predicate IsAny(r: Route) {
    r.verb == ""
  }

  predicate SamePath(a: Route, b: Route) {
    NormalPath(a.path) == NormalPath(b.path)
  }

  predicate Overlaps(a: Route, b: Route) {
    SamePath(a, b) && (a.verb == "" || b.verb == "" || EqualFold(a.verb, b.verb))
  }

  /** Two routes overlap exactly when their paths normalise alike and their methods are the same up to
      case, or one of them has none. */
  lemma OverlapsIff(a: Route, b: Route)
    ensures Overlaps(a, b)
       <==> && NormalPath(a.path) == NormalPath(b.path)
            && (|| a.verb == "" || b.verb == ""
                || (|a.verb| == |b.verb| && forall i :: 0 <= i < |a.verb| ==> SameLetter(a.verb[i], b.verb[i])))
  {
    hide NormalPath, EqualFold;
    EqualFoldIff(a.verb, b.verb);
  }

  /** In particular, routes whose paths differ in the name of a parameter overlap like routes at one
      path. */
  lemma RenamedOverlap(a: Route, b: Route, before: string, name: string, other: string, after: string)
    requires '/' !in name && '/' !in other && (after == "" || after[0] == '/')
    requires a.path == before + ("/" + ("{" + name + "}" + after)) && b.path == before + ("/" + ("{" + other + "}" + after))
    ensures Overlaps(a, b) <==> Overlaps(a, b.(path := a.path))
    ensures a.verb == b.verb || a.verb == "" || b.verb == "" ==> Overlaps(a, b)
  {
    hide NormalPath, EqualFold;
    RenamedParameter(before, name, other, after);
    EqualFoldIff(a.verb, b.verb);
  }

  predicate OverlapsAny(rs: seq<Route>, r: Route) {
    exists i :: 0 <= i < |rs| && Overlaps(rs[i], r)
  }

  // ---- one layer ---------------------------------------------------------------

  /** The first entry `r` overlaps, or one past the end. */
  function FirstOverlap(ordered: seq<Route>, r: Route): (i: nat)
    ensures i <= |ordered|
    ensures i < |ordered| ==> Overlaps(ordered[i], r)
    ensures forall j :: 0 <= j < i ==> !Overlaps(ordered[j], r)
  {
    if ordered == [] || Overlaps(ordered[0], r) then 0 else 1 + FirstOverlap(ordered[1..], r)
  }

  /** Replaces the first entry `r` overlaps, or appends `r`. */
  function Place(ordered: seq<Route>, r: Route): seq<Route> {
    var i := FirstOverlap(ordered, r);
    if i < |ordered| then ordered[i := r] else ordered + [r]
  }

  /** The entries left by placing `rs` one after another. */
  function Layer(rs: seq<Route>): (ordered: seq<Route>)
    ensures |ordered| <= |rs|
  {
    if rs == [] then [] else Place(Layer(rs[..|rs| - 1]), rs[|rs| - 1])
  }

  /** The entries of `rs` that overlap nothing in `above`. */
  function Admitted(rs: seq<Route>, above: seq<Route>): (r: seq<Route>)
    ensures forall i :: 0 <= i < |r| ==> r[i] in rs && !OverlapsAny(above, r[i])
  {
    if rs == [] then []
    else
      var last := rs[|rs| - 1];
      Admitted(rs[..|rs| - 1], above) + if OverlapsAny(above, last) then [] else [last]
  }

  /** What `Resolve` leaves: the user layer untouched, then a layer of the presets that overlap nothing
      in it. */
  function Resolved(user: seq<Route>, presets: seq<Route>): seq<Route> {
    Layer(user) + Layer(Admitted(presets, Layer(user)))
  }

  ghost predicate MarksExactly(marks: map<int, bool>, n: nat) {
    forall i :: (i in marks <==> 0 <= i < n) && (i in marks ==> marks[i])
  }

  /** The first phase of `Resolve`: a later user route replaces the first entry it overlaps. */
  method PlaceUserRoutes(userRoutes: seq<Route>) returns (ordered: seq<Route>, fromUser: map<int, bool>)
    ensures ordered == Layer(userRoutes)
    ensures MarksExactly(fromUser, |ordered|)
  {
    hide Overlaps, FirstOverlap;
    ordered, fromUser := [], map[];
    for u := 0 to |userRoutes|
      invariant ordered == Layer(userRoutes[..u])
      invariant MarksExactly(fromUser, |ordered|)
    {
      var r := userRoutes[u];
      assert userRoutes[..u + 1][..u] == userRoutes[..u];
      var replaced := false;
      ghost var before := ordered;
      for i := 0 to |ordered|
        invariant !replaced && ordered == before && MarksExactly(fromUser, |before|)
        invariant forall j :: 0 <= j < i ==> !Overlaps(before[j], r)
      {
        var existing := ordered[i];
        if Overlaps(existing, r) {
          ordered := ordered[i := r];
          fromUser := fromUser[i := true];
          replaced := true;
          FirstOverlapIs(before, r, i);
          break;
        }
      }
      if !replaced {
        FirstOverlapIs(before, r, |before|);
        fromUser := fromUser[|ordered| := true];
        ordered := ordered + [r];
      }
    }
    assert userRoutes[..|userRoutes|] == userRoutes;
  }

  /** `Resolve`: places the user routes, then lets presets replace only presets. */
  method Resolve(userRoutes: seq<Route>, presetRoutes: seq<Route>) returns (ordered: seq<Route>)
    ensures ordered == Resolved(userRoutes, presetRoutes)
  {
    hide Overlaps, OverlapsAny, Place, Admitted;
    var fromUser;
    ordered, fromUser := PlaceUserRoutes(userRoutes);
    ghost var top := ordered;
    ghost var below: seq<Route> := [];
    AdmittedNone(top);
    for p := 0 to |presetRoutes|
      invariant below == Layer(Admitted(presetRoutes[..p], top))
      invariant ordered == top + below
    {
      var r := presetRoutes[p];
      var replaced, skip := false, false;
      ghost var before := ordered;
      for i := 0 to |ordered|
        invariant !replaced && !skip && ordered == before
        invariant forall j :: 0 <= j < i ==> !Overlaps(before[j], r)
      {
        var existing := ordered[i];
        if Overlaps(existing, r) {
          if i in fromUser && fromUser[i] {
            skip := true;
            OverlapsAt(top, r, i);
            break;
          }
          ordered := ordered[i := r];
          replaced := true;
          PlaceBelow(top, below, r, i);
          below := Place(below, r);
          break;
        }
      }
      if !replaced && !skip {
        PlaceBelow(top, below, r, |before|);
        ordered := ordered + [r];
        below := Place(below, r);
      }
      AdmittedStep(presetRoutes, p, top);
    }
    assert presetRoutes[..|presetRoutes|] == presetRoutes;
  }

  lemma {:induction false} FirstOverlapIs(ordered: seq<Route>, r: Route, i: nat)
    requires i <= |ordered|
    requires i < |ordered| ==> Overlaps(ordered[i], r)
    requires forall j :: 0 <= j < i ==> !Overlaps(ordered[j], r)
    ensures FirstOverlap(ordered, r) == i
  {
    hide Overlaps;
    var k := FirstOverlap(ordered, r);
    assert k < |ordered| ==> Overlaps(ordered[k], r);
  }

  lemma OverlapsAt(top: seq<Route>, r: Route, i: nat)
    requires i < |top| && Overlaps(top[i], r)
    ensures OverlapsAny(top, r)
  {
  }

  /** A route that first overlaps past the end of `top` is placed in the layer below it. */
  lemma PlaceBelow(top: seq<Route>, below: seq<Route>, r: Route, i: nat)
    requires |top| <= i <= |top + below|
    requires i < |top + below| ==> Overlaps((top + below)[i], r)
    requires forall j :: 0 <= j < i ==> !Overlaps((top + below)[j], r)
    ensures !OverlapsAny(top, r)
    ensures top + Place(below, r) == if i < |top + below| then (top + below)[i := r] else top + below + [r]
  {
    hide Overlaps, FirstOverlap;
    forall j | 0 <= j < |top| ensures !Overlaps(top[j], r) {
      assert top[j] == (top + below)[j];
    }
    forall j | 0 <= j < i - |top| ensures !Overlaps(below[j], r) {
      assert below[j] == (top + below)[|top| + j];
    }
    FirstOverlapIs(below, r, i - |top|);
  }

  lemma AdmittedNone(top: seq<Route>)
    ensures Admitted([], top) == []
  {
  }

  lemma AdmittedStep(presets: seq<Route>, p: nat, top: seq<Route>)
    requires p < |presets|
    ensures var r := presets[p];
            var had := Admitted(presets[..p], top);
            Layer(Admitted(presets[..p + 1], top)) == if OverlapsAny(top, r) then Layer(had) else Place(Layer(had), r)
  {
    hide OverlapsAny;
    assert presets[..p + 1][..p] == presets[..p];
    var had, r := Admitted(presets[..p], top), presets[p];
    assert had + [] == had;
    assert (had + [r])[..|had|] == had;
  }
}
