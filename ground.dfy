/**
 * GhostGround.cs: the "virtual ground", a list of grid positions, the
 * elements found on it, its two corners and six sides, and the operations that
 * grow or shrink it by one layer.
 *
 * The physics world is a `Scene`: the elements that still exist with their
 * positions, and the colliders `Physics.OverlapSphere` reports at each probed
 * point, in order. Elements are indices. The prefab callbacks are not called:
 * `Grow` returns the positions it hands to `InstantiateElement` and `Reduce`
 * the elements it hands to `DestroyElement`.
 *
 * Nothing ties the two halves of a `Scene` together. A collider that a query
 * reports but `placed` does not list counts as destroyed: it is not alive, and
 * its position reads as the origin.
 */
module Ground {
  import opened Collections
  import opened Vectors

  /**
   * `placed` maps every element that still exists to its position; `colliders`
   * lists what an overlap query reports at a point (nothing when absent).
   */
  datatype Scene = Scene(placed: map<nat, Vec3>, colliders: map<Vec3, seq<nat>>)

  /** `Physics.OverlapSphere(p, ...)`: the colliders found at `p`, in order. */
  function Overlap(scene: Scene, p: Vec3): seq<nat> {
    if p in scene.colliders then scene.colliders[p] else []
  }

  /** The element has not been destroyed (Unity's `!= null`). */
  predicate Alive(scene: Scene, e: nat) {
    e in scene.placed
  }

  /** `transform.position`; a destroyed element is never asked for its position. */
  function Position(scene: Scene, e: nat): Vec3 {
    if e in scene.placed then scene.placed[e] else Origin
  }

  /** `colliders[0]` of an overlap query at `p`, if there is any collider. */
  function FirstHit(scene: Scene, p: Vec3): Option<nat> {
    var hits := Overlap(scene, p);
    if |hits| > 0 then Some(hits[0]) else None
  }

  // ---------------------------------------------------------------------------
  // CollectElements

  /**
   * The elements `CollectElements` gathers from the ground positions `ps`: at
   * each position only the first collider is looked at (once per collider
   * found), and an element already gathered is not added again.
   */
  function Collected(ps: seq<Vec3>, scene: Scene): seq<nat> {
    if ps == [] then []
    else
      var prev := Collected(ps[..|ps| - 1], scene);
      match FirstHit(scene, ps[|ps| - 1])
      case Some(e) => AddIfAbsent(prev, e)
      case None => prev
  }

  /** An element is collected exactly when it is the first collider found at some ground position. */
  lemma {:induction false} CollectedMembers(ps: seq<Vec3>, scene: Scene)
    ensures forall e :: e in Collected(ps, scene) ==> exists i :: 0 <= i < |ps| && FirstHit(scene, ps[i]) == Some(e)
    ensures forall i :: 0 <= i < |ps| && FirstHit(scene, ps[i]).Some? ==> FirstHit(scene, ps[i]).value in Collected(ps, scene)
  {
    if ps != [] {
      var init := ps[..|ps| - 1];
      CollectedMembers(init, scene);
      assert forall i :: 0 <= i < |init| ==> ps[i] == init[i];
    }
  }

  /** An element is gathered at most once. */
  lemma {:induction false} CollectedNoDuplicates(ps: seq<Vec3>, scene: Scene)
    ensures NoDuplicates(Collected(ps, scene))
  {
    if ps != [] {
      var prev := Collected(ps[..|ps| - 1], scene);
      CollectedNoDuplicates(ps[..|ps| - 1], scene);
      match FirstHit(scene, ps[|ps| - 1])
      case Some(e) => AddIfAbsentFacts(prev, e);
      case None =>
    }
  }

  lemma CollectedSnoc(ps: seq<Vec3>, i: nat, scene: Scene)
    requires i < |ps|
    ensures Collected(ps[..i + 1], scene) ==
      match FirstHit(scene, ps[i])
      case Some(e) => AddIfAbsent(Collected(ps[..i], scene), e)
      case None => Collected(ps[..i], scene)
  {
    assert ps[..i + 1][..i] == ps[..i];
  }

  /** The corner comparator: `a.x < n.x || a.y < n.y || a.z < n.z` (`>` for the upper corner). */
  predicate Beats(a: Vec3, n: Vec3, lower: bool) {
    if lower then a.x < n.x || a.y < n.y || a.z < n.z
    else a.x > n.x || a.y > n.y || a.z > n.z
  }

  /** `groundElements.Aggregate((a, n) => Beats(a, n) ? a : n)`. */
  function Corner(es: seq<nat>, scene: Scene, lower: bool): nat
    requires |es| > 0
  {
    if |es| == 1 then es[0]
    else
      var a := Corner(es[..|es| - 1], scene, lower);
      var n := es[|es| - 1];
      if Beats(Position(scene, a), Position(scene, n), lower) then a else n
  }

  /** A corner is one of the elements. */
  lemma {:induction false} CornerIsElement(es: seq<nat>, scene: Scene, lower: bool)
    requires |es| > 0
    ensures Corner(es, scene, lower) in es
  {
    if |es| > 1 {
      CornerIsElement(es[..|es| - 1], scene, lower);
    }
  }

  /**
   * The comparator is not an order, so in general a corner is only some
   * element; on a row of elements (all sharing y and z) the lower corner has
   * the least x and the upper corner the greatest.
   */
  lemma {:induction false} CornerOnRow(es: seq<nat>, scene: Scene, lower: bool)
    requires |es| > 0
    requires forall e :: e in es ==>
      Position(scene, e).y == Position(scene, es[0]).y && Position(scene, e).z == Position(scene, es[0]).z
    ensures forall e :: e in es ==>
      var c := Position(scene, Corner(es, scene, lower)).x;
      if lower then c <= Position(scene, e).x else Position(scene, e).x <= c
  {
    if |es| > 1 {
      var init := es[..|es| - 1];
      assert init[0] == es[0];
      CornerOnRow(init, scene, lower);
      CornerIsElement(init, scene, lower);
      assert es == init + [es[|es| - 1]];
    }
  }

  /** The coordinates along `axis` of the elements `es`, in order. */
  function Coords(es: seq<nat>, scene: Scene, axis: Axis): seq<real> {
    if es == [] then [] else Coords(es[..|es| - 1], scene, axis) + [Coord(Position(scene, es[|es| - 1]), axis)]
  }

  lemma {:induction false} CoordsOfElements(es: seq<nat>, scene: Scene, axis: Axis)
    ensures |Coords(es, scene, axis)| == |es|
    ensures forall k :: 0 <= k < |es| ==> Coords(es, scene, axis)[k] == Coord(Position(scene, es[k]), axis)
  {
    if es != [] {
      CoordsOfElements(es[..|es| - 1], scene, axis);
    }
  }

  /** `Where(x => x.position.axis == level)`: the elements of `es` at that coordinate, in order. */
  function AtCoord(es: seq<nat>, scene: Scene, axis: Axis, level: real): seq<nat> {
    if es == [] then []
    else
      var e := es[|es| - 1];
      AtCoord(es[..|es| - 1], scene, axis, level) + (if Coord(Position(scene, e), axis) == level then [e] else [])
  }

  /** Exactly the elements at coordinate `level` are kept, in their order in `es`. */
  lemma {:induction false} AtCoordMembers(es: seq<nat>, scene: Scene, axis: Axis, level: real)
    ensures forall e :: e in AtCoord(es, scene, axis, level) ==> e in es && Coord(Position(scene, e), axis) == level
    ensures forall e :: e in es && Coord(Position(scene, e), axis) == level ==> e in AtCoord(es, scene, axis, level)
    ensures Subsequence(AtCoord(es, scene, axis, level), es)
  {
    if es != [] {
      var init, e := es[..|es| - 1], es[|es| - 1];
      var prev := AtCoord(init, scene, axis, level);
      AtCoordMembers(init, scene, axis, level);
      assert es == init + [e];
      if Coord(Position(scene, e), axis) == level {
        assert AtCoord(es, scene, axis, level) == prev + [e];
        SubsequenceKeep(prev, init, e);
      } else {
        assert prev != [] ==> prev[|prev| - 1] in prev;
        assert AtCoord(es, scene, axis, level) == prev;
        SubsequenceSkip(prev, init, e);
      }
    }
  }

  /** The side of `es` facing the positive (`up`) or negative end of `axis`. */
  function Side(es: seq<nat>, scene: Scene, axis: Axis, up: bool): seq<nat>
    requires |es| > 0
  {
    AtCoord(es, scene, axis, Extremum(Coords(es, scene, axis), up))
  }

  /**
   * A side is never empty, keeps the order of `es` and its freedom from
   * duplicates, and an element belongs to it exactly when no other element
   * lies further along the axis in that direction.
   */
  lemma SideIsOuterLayer(es: seq<nat>, scene: Scene, axis: Axis, up: bool)
    requires |es| > 0
    ensures |Side(es, scene, axis, up)| > 0
    ensures Subsequence(Side(es, scene, axis, up), es)
    ensures NoDuplicates(es) ==> NoDuplicates(Side(es, scene, axis, up))
    ensures forall e :: e in Side(es, scene, axis, up) ==> e in es
    ensures forall e :: e in es ==>
      (e in Side(es, scene, axis, up) <==> forall f :: f in es ==>
         if up then Coord(Position(scene, f), axis) <= Coord(Position(scene, e), axis)
         else Coord(Position(scene, e), axis) <= Coord(Position(scene, f), axis))
  {
    var cs := Coords(es, scene, axis);
    CoordsOfElements(es, scene, axis);
    var m := Extremum(cs, up);
    ExtremumIsExtreme(cs, up);
    AtCoordMembers(es, scene, axis, m);
    SubsequenceFacts(Side(es, scene, axis, up), es);
    var k :| 0 <= k < |cs| && cs[k] == m;
    assert es[k] in Side(es, scene, axis, up);
    forall f | f in es
      ensures Coord(Position(scene, f), axis) in cs
    {
      var j :| 0 <= j < |es| && es[j] == f;
      assert cs[j] == Coord(Position(scene, f), axis);
    }
  }

  /** Both corners are elements, and every side is non-empty and keeps the order of `es`. */
  lemma LayersShape(es: seq<nat>, scene: Scene)
    requires |es| > 0
    ensures Corner(es, scene, true) in es && Corner(es, scene, false) in es
    ensures forall axis, up :: |Side(es, scene, axis, up)| > 0 && Subsequence(Side(es, scene, axis, up), es)
  {
    CornerIsElement(es, scene, true);
    CornerIsElement(es, scene, false);
    forall axis, up
      ensures |Side(es, scene, axis, up)| > 0 && Subsequence(Side(es, scene, axis, up), es)
    {
      SideIsOuterLayer(es, scene, axis, up);
    }
  }

  // ---------------------------------------------------------------------------
  // Grow

  /** The cell one step along `dir` from element `e`, snapped. */
  function Neighbour(scene: Scene, e: nat, dir: Vec3, g: real): Vec3
    requires g != 0.0
  {
    SnapVector(Add(Position(scene, e), Scale(dir, g)), g)
  }

  /** The neighbour cells `Grow` visits: one per element that still exists, in order. */
  function GrowTargets(es: seq<nat>, scene: Scene, dir: Vec3, g: real): seq<Vec3>
    requires g != 0.0
  {
    if es == [] then []
    else
      var last := es[|es| - 1];
      GrowTargets(es[..|es| - 1], scene, dir, g) + (if Alive(scene, last) then [Neighbour(scene, last, dir, g)] else [])
  }

  /** Exactly the neighbours of the elements that still exist are visited. */
  lemma {:induction false} GrowTargetsMembers(es: seq<nat>, scene: Scene, dir: Vec3, g: real)
    requires g != 0.0
    ensures forall p :: p in GrowTargets(es, scene, dir, g) ==>
      exists e :: e in es && Alive(scene, e) && p == Neighbour(scene, e, dir, g)
    ensures forall e :: e in es && Alive(scene, e) ==> Neighbour(scene, e, dir, g) in GrowTargets(es, scene, dir, g)
  {
    if es != [] {
      var init := es[..|es| - 1];
      GrowTargetsMembers(init, scene, dir, g);
      assert es == init + [es[|es| - 1]];
    }
  }

  lemma GrowTargetsSnoc(es: seq<nat>, i: nat, scene: Scene, dir: Vec3, g: real)
    requires i < |es| && g != 0.0
    ensures GrowTargets(es[..i + 1], scene, dir, g) ==
      GrowTargets(es[..i], scene, dir, g) + (if Alive(scene, es[i]) then [Neighbour(scene, es[i], dir, g)] else [])
  {
    assert es[..i + 1][..i] == es[..i];
  }

  /** The cells among `ps` where the overlap query finds nothing, in order. */
  function FreeCells(ps: seq<Vec3>, scene: Scene): seq<Vec3> {
    if ps == [] then []
    else
      var p := ps[|ps| - 1];
      FreeCells(ps[..|ps| - 1], scene) + (if |Overlap(scene, p)| == 0 then [p] else [])
  }

  /** Exactly the cells where nothing is found are kept. */
  lemma {:induction false} FreeCellsMembers(ps: seq<Vec3>, scene: Scene)
    ensures forall p :: p in FreeCells(ps, scene) <==> p in ps && |Overlap(scene, p)| == 0
  {
    if ps != [] {
      FreeCellsMembers(ps[..|ps| - 1], scene);
      assert ps == ps[..|ps| - 1] + [ps[|ps| - 1]];
    }
  }

  lemma FreeCellsSnoc(ps: seq<Vec3>, p: Vec3, scene: Scene)
    ensures FreeCells(ps + [p], scene) == FreeCells(ps, scene) + (if |Overlap(scene, p)| == 0 then [p] else [])
  {
    assert (ps + [p])[..|ps|] == ps;
  }

  /** The coordinates along `axis` of the positions `ps`, in order. */
  function PointCoords(ps: seq<Vec3>, axis: Axis): seq<real> {
    if ps == [] then [] else PointCoords(ps[..|ps| - 1], axis) + [Coord(ps[|ps| - 1], axis)]
  }

  lemma {:induction false} PointCoordsOfPositions(ps: seq<Vec3>, axis: Axis)
    ensures |PointCoords(ps, axis)| == |ps|
    ensures forall k :: 0 <= k < |ps| ==> PointCoords(ps, axis)[k] == Coord(ps[k], axis)
  {
    if ps != [] {
      PointCoordsOfPositions(ps[..|ps| - 1], axis);
    }
  }

  /** `Where(x => x.axis == level)` on positions. */
  function PointsAt(ps: seq<Vec3>, axis: Axis, level: real): seq<Vec3> {
    if ps == [] then []
    else
      var p := ps[|ps| - 1];
      PointsAt(ps[..|ps| - 1], axis, level) + (if Coord(p, axis) == level then [p] else [])
  }

  /** Exactly the positions at coordinate `level` are kept, in their order in `ps`. */
  lemma {:induction false} PointsAtMembers(ps: seq<Vec3>, axis: Axis, level: real)
    ensures forall p :: p in PointsAt(ps, axis, level) <==> p in ps && Coord(p, axis) == level
    ensures Subsequence(PointsAt(ps, axis, level), ps)
  {
    if ps != [] {
      var init, p := ps[..|ps| - 1], ps[|ps| - 1];
      var prev := PointsAt(init, axis, level);
      PointsAtMembers(init, axis, level);
      assert ps == init + [p];
      if Coord(p, axis) == level {
        assert PointsAt(ps, axis, level) == prev + [p];
        SubsequenceKeep(prev, init, p);
      } else {
        assert prev != [] ==> prev[|prev| - 1] in prev;
        assert PointsAt(ps, axis, level) == prev;
        SubsequenceSkip(prev, init, p);
      }
    }
  }

  /**
   * The candidates `Grow` keeps: those at the extreme nearest the ground
   * along the first non-zero axis of `dir` (least x for +x, greatest x for -x,
   * and so on). A zero direction keeps them all.
   */
  function FrontLayer(cands: seq<Vec3>, dir: Vec3): seq<Vec3> {
    if |cands| == 0 then []
    else
      match FirstNonZero(dir)
      case None => cands
      case Some(h) => PointsAt(cands, h.axis, Extremum(PointCoords(cands, h.axis), !h.positive))
  }

  /**
   * The front layer is a subsequence of the candidates, non-empty when there
   * are candidates, keeps every candidate for the zero direction, and
   * otherwise holds exactly the candidates that no other candidate is behind
   * along the growth axis.
   */
  lemma FrontLayerIsNearest(cands: seq<Vec3>, dir: Vec3)
    ensures Subsequence(FrontLayer(cands, dir), cands)
    ensures forall p :: p in FrontLayer(cands, dir) ==> p in cands
    ensures |FrontLayer(cands, dir)| > 0 <==> |cands| > 0
    ensures FirstNonZero(dir).None? ==> FrontLayer(cands, dir) == cands
    ensures FirstNonZero(dir).Some? ==>
      var h := FirstNonZero(dir).value;
      forall p :: p in cands ==>
        (p in FrontLayer(cands, dir) <==> forall q :: q in cands ==>
           if h.positive then Coord(p, h.axis) <= Coord(q, h.axis) else Coord(q, h.axis) <= Coord(p, h.axis))
  {
    SubsequenceOfItself(cands);
    if |cands| > 0 && FirstNonZero(dir).Some? {
      var h := FirstNonZero(dir).value;
      var cs := PointCoords(cands, h.axis);
      PointCoordsOfPositions(cands, h.axis);
      var m := Extremum(cs, !h.positive);
      ExtremumIsExtreme(cs, !h.positive);
      PointsAtMembers(cands, h.axis, m);
      var k :| 0 <= k < |cs| && cs[k] == m;
      assert cands[k] in FrontLayer(cands, dir);
      forall q | q in cands
        ensures Coord(q, h.axis) in cs
      {
        var j :| 0 <= j < |cands| && cands[j] == q;
        assert cs[j] == Coord(q, h.axis);
      }
    }
  }

  // ---------------------------------------------------------------------------
  // Reduce

  /**
   * The elements `Reduce` queues for destruction: for each side element that
   * still exists, the first collider found at its position, once per collider
   * found there.
   */
  function Victims(side: seq<nat>, scene: Scene): seq<nat> {
    if side == [] then []
    else
      var e := side[|side| - 1];
      var hits := Overlap(scene, Position(scene, e));
      Victims(side[..|side| - 1], scene) + (if Alive(scene, e) && |hits| > 0 then Repeat(hits[0], |hits|) else [])
  }

  /**
   * Only the first collider at an existing side element's position is ever
   * queued, and each such collider is queued.
   */
  lemma {:induction false} VictimsMembers(side: seq<nat>, scene: Scene)
    ensures forall v :: v in Victims(side, scene) ==>
      exists e :: e in side && Alive(scene, e) && FirstHit(scene, Position(scene, e)) == Some(v)
    ensures forall e :: e in side && Alive(scene, e) && FirstHit(scene, Position(scene, e)).Some? ==>
      FirstHit(scene, Position(scene, e)).value in Victims(side, scene)
  {
    if side != [] {
      var init := side[..|side| - 1];
      var e := side[|side| - 1];
      VictimsMembers(init, scene);
      assert side == init + [e];
      var hits := Overlap(scene, Position(scene, e));
      if Alive(scene, e) && |hits| > 0 {
        RepeatMembers(hits[0], |hits|);
      }
    }
  }

  lemma VictimsSnoc(side: seq<nat>, i: nat, scene: Scene)
    requires i < |side|
    ensures Victims(side[..i + 1], scene) == Victims(side[..i], scene) +
      (var hits := Overlap(scene, Position(scene, side[i]));
       if Alive(scene, side[i]) && |hits| > 0 then Repeat(hits[0], |hits|) else [])
  {
    assert side[..i + 1][..i] == side[..i];
  }

  /** The cell behind element `v`, against `dir`, snapped. */
  function Behind(scene: Scene, v: nat, dir: Vec3, g: real): Vec3
    requires g != 0.0
  {
    SnapVector(Add(Position(scene, v), Scale(Scale(dir, -1.0), g)), g)
  }

  /** One behind position per queued element, in order. */
  function Behinds(vs: seq<nat>, scene: Scene, dir: Vec3, g: real): seq<Vec3>
    requires g != 0.0
  {
    if vs == [] then [] else Behinds(vs[..|vs| - 1], scene, dir, g) + [Behind(scene, vs[|vs| - 1], dir, g)]
  }

  lemma BehindsSnoc(vs: seq<nat>, v: nat, scene: Scene, dir: Vec3, g: real)
    requires g != 0.0
    ensures Behinds(vs + [v], scene, dir, g) == Behinds(vs, scene, dir, g) + [Behind(scene, v, dir, g)]
  {
    assert (vs + [v])[..|vs|] == vs;
  }

  /** Queuing one more element adds the cell behind it to the ground, unless it is there already. */
  lemma QueueStep(ground: seq<Vec3>, queued: seq<nat>, v: nat, scene: Scene, dir: Vec3, g: real)
    requires g != 0.0
    ensures AppendAbsent(ground, Behinds(queued + [v], scene, dir, g)) ==
      AddIfAbsent(AppendAbsent(ground, Behinds(queued, scene, dir, g)), Behind(scene, v, dir, g))
  {
    BehindsSnoc(queued, v, scene, dir, g);
    AppendAbsentStep(ground, Behinds(queued, scene, dir, g), Behind(scene, v, dir, g));
  }

  /**
   * `Reduce` queues the first collider once per collider found: with two
   * colliders at a side element's cell, the first is queued twice and the
   * second never.
   */
  lemma ReduceQueuesFirstColliderTwice()
    ensures Victims([1], Scene(map[1 := Origin], map[Origin := [7, 8]])) == [7, 7]
  {
    var scene := Scene(map[1 := Origin], map[Origin := [7, 8]]);
    assert Overlap(scene, Position(scene, 1)) == [7, 8];
    assert [1][..0] == [];
    assert Repeat(7, 2) == [7, 7];
  }

  // ---------------------------------------------------------------------------
  // The scanning loops of the component

  /** The loop of `CollectElements` that gathers the elements standing on the ground. */
  method GatherElements(positions: seq<Vec3>, scene: Scene) returns (elements: seq<nat>)
    ensures elements == Collected(positions, scene)
  {
    elements := [];
    for i := 0 to |positions|
      invariant elements == Collected(positions[..i], scene)
    {
      var colliders := Overlap(scene, positions[i]);
      ghost var before := elements;
      for j := 0 to |colliders|
        invariant j == 0 ==> elements == before
        invariant j > 0 ==> elements == AddIfAbsent(before, colliders[0])
      {
        if colliders[0] !in elements {
          elements := elements + [colliders[0]];
        }
      }
      CollectedSnoc(positions, i, scene);
    }
    assert positions[..|positions|] == positions;
  }

  /**
   * The loop of `Grow`: visits the neighbour cell of every element that still
   * exists, keeps the free ones as candidates and adds each cell to the ground.
   */
  method ScanGrowth(toGrow: seq<nat>, ground: seq<Vec3>, scene: Scene, direction: Vec3, g: real)
    returns (canBeGrown: seq<Vec3>, positions: seq<Vec3>)
    requires g != 0.0
    ensures canBeGrown == FreeCells(GrowTargets(toGrow, scene, direction, g), scene)
    ensures positions == AppendAbsent(ground, GrowTargets(toGrow, scene, direction, g))
  {
    positions := ground;
    canBeGrown := [];
    for i := 0 to |toGrow|
      invariant canBeGrown == FreeCells(GrowTargets(toGrow[..i], scene, direction, g), scene)
      invariant positions == AppendAbsent(ground, GrowTargets(toGrow[..i], scene, direction, g))
    {
      ghost var before := GrowTargets(toGrow[..i], scene, direction, g);
      GrowTargetsSnoc(toGrow, i, scene, direction, g);
      if !Alive(scene, toGrow[i]) {
        assert before + [] == before;
        continue;
      }
      var newPosition := Neighbour(scene, toGrow[i], direction, g);
      FreeCellsSnoc(before, newPosition, scene);
      if |Overlap(scene, newPosition)| < 1 {
        canBeGrown := canBeGrown + [newPosition];
      }
      AppendAbsentStep(ground, before, newPosition);
      if newPosition !in positions {
        positions := positions + [newPosition];
      }
    }
    assert toGrow[..|toGrow|] == toGrow;
  }

  /**
   * The inner loop of `Reduce` for one side element: queues the first
   * collider found once per collider, adding the cell behind it to the ground.
   */
  method QueueFirst(colliders: seq<nat>, toDestroy0: seq<nat>, positions0: seq<Vec3>, ground: seq<Vec3>,
                    scene: Scene, direction: Vec3, g: real)
    returns (toDestroy: seq<nat>, positions: seq<Vec3>)
    requires g != 0.0 && |colliders| > 0
    requires positions0 == AppendAbsent(ground, Behinds(toDestroy0, scene, direction, g))
    ensures toDestroy == toDestroy0 + Repeat(colliders[0], |colliders|)
    ensures positions == AppendAbsent(ground, Behinds(toDestroy, scene, direction, g))
  {
    toDestroy, positions := toDestroy0, positions0;
    for j := 0 to |colliders|
      invariant toDestroy == toDestroy0 + Repeat(colliders[0], j)
      invariant positions == AppendAbsent(ground, Behinds(toDestroy, scene, direction, g))
    {
      RepeatSnoc(toDestroy0, colliders[0], j);
      var behind := Behind(scene, colliders[0], direction, g);
      QueueStep(ground, toDestroy, colliders[0], scene, direction, g);
      if behind !in positions {
        positions := positions + [behind];
      }
      toDestroy := toDestroy + [colliders[0]];
    }
  }

  /**
   * The loop of `Reduce`: queues the first collider at each existing side
   * element's position once per collider found there, adding the cell behind
   * each queued element to the ground.
   */
  method QueueVictims(toReduce: seq<nat>, ground: seq<Vec3>, scene: Scene, direction: Vec3, g: real)
    returns (toDestroy: seq<nat>, positions: seq<Vec3>)
    requires g != 0.0
    ensures toDestroy == Victims(toReduce, scene)
    ensures positions == AppendAbsent(ground, Behinds(toDestroy, scene, direction, g))
  {
    positions := ground;
    toDestroy := [];
    for i := 0 to |toReduce|
      invariant toDestroy == Victims(toReduce[..i], scene)
      invariant positions == AppendAbsent(ground, Behinds(toDestroy, scene, direction, g))
    {
      VictimsSnoc(toReduce, i, scene);
      var colliders := Overlap(scene, Position(scene, toReduce[i]));
      if !Alive(scene, toReduce[i]) || |colliders| == 0 {
        assert toDestroy + [] == toDestroy;
        continue;
      }
      toDestroy, positions := QueueFirst(colliders, toDestroy, positions, ground, scene, direction, g);
    }
    assert toReduce[..|toReduce|] == toReduce;
  }

  // ---------------------------------------------------------------------------
  // The component

  class GhostGround {
    var gridSize: real
    var groundPositions: seq<Vec3>
    var groundElements: seq<nat>
    var corners: seq<nat>
    var xSideUp: seq<nat>
    var xSideDown: seq<nat>
    var ySideUp: seq<nat>
    var ySideDown: seq<nat>
    var zSideUp: seq<nat>
    var zSideDown: seq<nat>

    constructor ()
      ensures gridSize == 1.0 && groundPositions == [] && groundElements == []
    {
      gridSize := 1.0;
      groundPositions, groundElements, corners := [], [], [];
      xSideUp, xSideDown, ySideUp, ySideDown, zSideUp, zSideDown := [], [], [], [], [], [];
    }

    /** The side list `Reduce` works on for a direction; none for the zero vector. */
    function SideFacing(h: Option<Heading>): seq<nat>
      reads this`xSideUp, this`xSideDown, this`ySideUp, this`ySideDown, this`zSideUp, this`zSideDown
    {
      match h
      case None => []
      case Some(Heading(X, true)) => xSideUp
      case Some(Heading(X, false)) => xSideDown
      case Some(Heading(Y, true)) => ySideUp
      case Some(Heading(Y, false)) => ySideDown
      case Some(Heading(Z, true)) => zSideUp
      case Some(Heading(Z, false)) => zSideDown
    }

    method SetupGrid(positions: seq<Vec3>, size: real)
      modifies this`groundPositions, this`gridSize
      ensures groundPositions == positions && gridSize == size
    {
      groundPositions := positions;
      gridSize := size;
    }

    /** Appends `position` unless it is already part of the ground. */
    method AddGroundPosition(position: Vec3)
      modifies this`groundPositions
      ensures groundPositions == AddIfAbsent(old(groundPositions), position)
      ensures position in groundPositions && groundPositions[..|old(groundPositions)|] == old(groundPositions)
      ensures NoDuplicates(old(groundPositions)) ==> NoDuplicates(groundPositions)
    {
      if position !in groundPositions {
        groundPositions := groundPositions + [position];
      }
    }

    /**
     * Gathers the elements on the ground and, when there is at least one,
     * recomputes the corners and the six sides.
     */
    method CollectElements(scene: Scene)
      modifies this`groundElements, this`corners, this`xSideUp, this`xSideDown,
        this`ySideUp, this`ySideDown, this`zSideUp, this`zSideDown
      ensures groundElements == Collected(groundPositions, scene)
      ensures |groundElements| == 0 ==>
        corners == old(corners) && xSideUp == old(xSideUp) && xSideDown == old(xSideDown) &&
        ySideUp == old(ySideUp) && ySideDown == old(ySideDown) &&
        zSideUp == old(zSideUp) && zSideDown == old(zSideDown)
      ensures |groundElements| > 0 ==> LayersAgree(scene)
    {
      groundElements := GatherElements(groundPositions, scene);
      if |groundElements| < 1 {
        return;
      }
      UpdateLayers(scene);
    }

    /** The corners and the six sides are those of the gathered elements. */
    predicate LayersAgree(scene: Scene)
      reads this
      requires |groundElements| > 0
    {
      corners == [Corner(groundElements, scene, true), Corner(groundElements, scene, false)] &&
      xSideUp == Side(groundElements, scene, X, true) && xSideDown == Side(groundElements, scene, X, false) &&
      ySideUp == Side(groundElements, scene, Y, true) && ySideDown == Side(groundElements, scene, Y, false) &&
      zSideUp == Side(groundElements, scene, Z, true) && zSideDown == Side(groundElements, scene, Z, false)
    }

    /**
     * The corner and side half of `CollectElements`, once there is at least
     * one element: both corners are elements, and each side is a non-empty
     * part of the elements, in their order, at the extreme of its axis.
     */
    method UpdateLayers(scene: Scene)
      requires |groundElements| > 0
      modifies this`corners, this`xSideUp, this`xSideDown, this`ySideUp, this`ySideDown, this`zSideUp, this`zSideDown
      ensures LayersAgree(scene)
      ensures corners[0] in groundElements && corners[1] in groundElements
      ensures |xSideUp| > 0 && Subsequence(xSideUp, groundElements)
      ensures |xSideDown| > 0 && Subsequence(xSideDown, groundElements)
      ensures |ySideUp| > 0 && Subsequence(ySideUp, groundElements)
      ensures |ySideDown| > 0 && Subsequence(ySideDown, groundElements)
      ensures |zSideUp| > 0 && Subsequence(zSideUp, groundElements)
      ensures |zSideDown| > 0 && Subsequence(zSideDown, groundElements)
    {
      var es := groundElements;
      var min, max := Corner(es, scene, true), Corner(es, scene, false);

      var xMax, xMin := Extremum(Coords(es, scene, X), true), Extremum(Coords(es, scene, X), false);
      var xUp, xDown := AtCoord(es, scene, X, xMax), AtCoord(es, scene, X, xMin);
      assert xUp == Side(es, scene, X, true) && xDown == Side(es, scene, X, false);

      var yMax, yMin := Extremum(Coords(es, scene, Y), true), Extremum(Coords(es, scene, Y), false);
      var yUp, yDown := AtCoord(es, scene, Y, yMax), AtCoord(es, scene, Y, yMin);
      assert yUp == Side(es, scene, Y, true) && yDown == Side(es, scene, Y, false);

      var zMax, zMin := Extremum(Coords(es, scene, Z), true), Extremum(Coords(es, scene, Z), false);
      var zUp, zDown := AtCoord(es, scene, Z, zMax), AtCoord(es, scene, Z, zMin);
      assert zUp == Side(es, scene, Z, true) && zDown == Side(es, scene, Z, false);

      LayersShape(es, scene);
      corners, xSideUp, xSideDown, ySideUp, ySideDown, zSideUp, zSideDown :=
        [min, max], xUp, xDown, yUp, yDown, zUp, zDown;
    }

    /**
     * Adds the neighbour cell along `direction` of every existing element to
     * the ground and returns the free cells of the front layer, the positions
     * handed to `InstantiateElement`.
     */
    method Grow(direction: Vec3, scene: Scene) returns (spawn: seq<Vec3>)
      requires gridSize != 0.0
      modifies this`groundPositions
      ensures groundPositions ==
        AppendAbsent(old(groundPositions), GrowTargets(groundElements, scene, direction, gridSize))
      ensures spawn == FrontLayer(FreeCells(GrowTargets(groundElements, scene, direction, gridSize), scene), direction)
    {
      var canBeGrown, positions := ScanGrowth(groundElements, groundPositions, scene, direction, gridSize);
      groundPositions := positions;

      if |canBeGrown| < 1 {
        return [];
      }

      if direction.x > 0.0 {
        var xMin := Extremum(PointCoords(canBeGrown, X), false);
        canBeGrown := PointsAt(canBeGrown, X, xMin);
      } else if direction.x < 0.0 {
        var xMax := Extremum(PointCoords(canBeGrown, X), true);
        canBeGrown := PointsAt(canBeGrown, X, xMax);
      } else if direction.y > 0.0 {
        var yMin := Extremum(PointCoords(canBeGrown, Y), false);
        canBeGrown := PointsAt(canBeGrown, Y, yMin);
      } else if direction.y < 0.0 {
        var yMax := Extremum(PointCoords(canBeGrown, Y), true);
        canBeGrown := PointsAt(canBeGrown, Y, yMax);
      } else if direction.z > 0.0 {
        var zMin := Extremum(PointCoords(canBeGrown, Z), false);
        canBeGrown := PointsAt(canBeGrown, Z, zMin);
      } else if direction.z < 0.0 {
        var zMax := Extremum(PointCoords(canBeGrown, Z), true);
        canBeGrown := PointsAt(canBeGrown, Z, zMax);
      }
      spawn := canBeGrown;
    }

    /**
     * Queues the elements on the side facing `direction` for destruction,
     * recording the cell behind each one as ground first; returns the queued
     * elements, in the order `onDestroy` receives them.
     */
    method Reduce(direction: Vec3, scene: Scene) returns (destroyed: seq<nat>)
      requires gridSize != 0.0
      modifies this`groundPositions
      ensures destroyed == Victims(old(SideFacing(FirstNonZero(direction))), scene)
      ensures groundPositions == AppendAbsent(old(groundPositions), Behinds(destroyed, scene, direction, gridSize))
      ensures direction == Origin ==> destroyed == [] && groundPositions == old(groundPositions)
    {
      var toReduce: seq<nat> := [];
      if direction.x > 0.0 { toReduce := xSideUp; }
      else if direction.x < 0.0 { toReduce := xSideDown; }
      else if direction.y > 0.0 { toReduce := ySideUp; }
      else if direction.y < 0.0 { toReduce := ySideDown; }
      else if direction.z > 0.0 { toReduce := zSideUp; }
      else if direction.z < 0.0 { toReduce := zSideDown; }
      assert toReduce == SideFacing(FirstNonZero(direction));

      var toDestroy, positions := QueueVictims(toReduce, groundPositions, scene, direction, gridSize);
      groundPositions := positions;
      destroyed := toDestroy;
    }
  }
}
