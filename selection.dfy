/**
 * GhostGridSelection.cs: editor commands that grow the current selection to
 * every 2D collider connected to it through neighbours under the same parent,
 * and variants that keep one row, one column or one side of the result.
 *
 * Objects are indices. The scene is a `World`: each object's parent and
 * position, which objects carry a 2D collider, and what
 * `Physics2D.OverlapCircleAll` reports around each object (with the radius
 * and layer mask `Select2D` computes from the first selected object, once
 * the colliders under its parent are switched on). Unity's static
 * `Selection` is the class `EditorSelection`.
 */
module Selection {
  import opened Collections
  import opened Vectors

  datatype World = World(
    parent: map<nat, nat>,
    position: map<nat, Vec3>,
    colliders: set<nat>,
    around: map<nat, seq<nat>>)

  /** `transform.parent`: `None` for an object at the root of the scene. */
  function ParentOf(w: World, e: nat): Option<nat> {
    if e in w.parent then Some(w.parent[e]) else None
  }

  function PositionOf(w: World, e: nat): Vec3 {
    if e in w.position then w.position[e] else Origin
  }

  /** The colliders the circle query reports around `e`, in order. */
  function Around(w: World, e: nat): seq<nat> {
    if e in w.around then w.around[e] else []
  }

  /** Every object a circle query can report. */
  function Universe(w: World): set<nat> {
    set e, x | e in w.around && x in w.around[e] :: x
  }

  lemma AroundInUniverse(w: World, e: nat)
    ensures forall x :: x in Around(w, e) ==> x in Universe(w)
  {
  }

  /** `.Where(x => x.transform.parent == parent)`. */
  function Children(xs: seq<nat>, w: World, parent: Option<nat>): seq<nat> {
    if xs == [] then []
    else
      var prev := Children(xs[..|xs| - 1], w, parent);
      if ParentOf(w, xs[|xs| - 1]) == parent then prev + [xs[|xs| - 1]] else prev
  }

  lemma {:induction false} ChildrenMembers(xs: seq<nat>, w: World, parent: Option<nat>)
    ensures forall x :: x in Children(xs, w, parent) <==> x in xs && ParentOf(w, x) == parent
  {
    if xs != [] {
      ChildrenMembers(xs[..|xs| - 1], w, parent);
      assert xs == xs[..|xs| - 1] + [xs[|xs| - 1]];
    }
  }

  /** `.Where(x => !list.Contains(x))`: the elements of `xs` not in `s`, in order. */
  function Unlisted(xs: seq<nat>, s: seq<nat>): seq<nat> {
    if xs == [] then []
    else
      var prev := Unlisted(xs[..|xs| - 1], s);
      if xs[|xs| - 1] in s then prev else prev + [xs[|xs| - 1]]
  }

  lemma {:induction false} UnlistedMembers(xs: seq<nat>, s: seq<nat>)
    ensures forall x :: x in Unlisted(xs, s) <==> x in xs && x !in s
  {
    if xs != [] {
      UnlistedMembers(xs[..|xs| - 1], s);
      assert xs == xs[..|xs| - 1] + [xs[|xs| - 1]];
    }
  }

  // ---------------------------------------------------------------------------
  // The first brothers (lines 48-57)

  /**
   * For each selected object in turn, the objects around it that share its
   * parent and are not listed yet; each batch is materialised before it is
   * added, so the check only looks at earlier batches.
   */
  function FirstBrothers(w: World, sel: seq<nat>): seq<nat> {
    if sel == [] then []
    else
      var prev := FirstBrothers(w, sel[..|sel| - 1]);
      var s := sel[|sel| - 1];
      prev + Unlisted(Children(Around(w, s), w, ParentOf(w, s)), prev)
  }

  /** The first brothers are exactly the objects around some selected object that share its parent. */
  lemma {:induction false} FirstBrothersMembers(w: World, sel: seq<nat>)
    ensures forall b :: b in FirstBrothers(w, sel) <==>
      exists i :: 0 <= i < |sel| && b in Around(w, sel[i]) && ParentOf(w, b) == ParentOf(w, sel[i])
  {
    if sel != [] {
      var init, s := sel[..|sel| - 1], sel[|sel| - 1];
      FirstBrothersMembers(w, init);
      var prev := FirstBrothers(w, init);
      ChildrenMembers(Around(w, s), w, ParentOf(w, s));
      UnlistedMembers(Children(Around(w, s), w, ParentOf(w, s)), prev);
      forall b
        ensures b in FirstBrothers(w, sel) <==>
          exists i :: 0 <= i < |sel| && b in Around(w, sel[i]) && ParentOf(w, b) == ParentOf(w, sel[i])
      {
        if exists i :: 0 <= i < |sel| && b in Around(w, sel[i]) && ParentOf(w, b) == ParentOf(w, sel[i]) {
          var i :| 0 <= i < |sel| && b in Around(w, sel[i]) && ParentOf(w, b) == ParentOf(w, sel[i]);
          if i < |init| {
            assert init[i] == sel[i];
          }
        }
        if b in prev {
          var i :| 0 <= i < |init| && b in Around(w, init[i]) && ParentOf(w, b) == ParentOf(w, init[i]);
          assert sel[i] == init[i];
        }
      }
    }
  }

  /** The loop of lines 49-57. */
  method GatherBrothers(w: World, sel: seq<nat>) returns (brothersAround: seq<nat>)
    ensures brothersAround == FirstBrothers(w, sel)
  {
    brothersAround := [];
    for i := 0 to |sel|
      invariant brothersAround == FirstBrothers(w, sel[..i])
    {
      assert sel[..i + 1][..i] == sel[..i];
      var s := sel[i];
      var batch := Unlisted(Children(Around(w, s), w, ParentOf(w, s)), brothersAround);
      brothersAround := brothersAround + batch;
    }
    assert sel[..|sel|] == sel;
  }

  // ---------------------------------------------------------------------------
  // The expansion rounds (lines 61-89)

  /** The objects around `c` under the parent `p`: what the probe of `c` can add. */
  function Brothers(w: World, p: nat, c: nat): seq<nat> {
    Children(Around(w, c), w, Some(p))
  }

  lemma BrothersMembers(w: World, p: nat, c: nat)
    ensures forall x :: x in Brothers(w, p, c) <==> x in Around(w, c) && ParentOf(w, x) == Some(p)
  {
    ChildrenMembers(Around(w, c), w, Some(p));
  }

  /** Every object the probe of `c` can add is already in `found`. */
  predicate Covers(w: World, p: nat, c: nat, found: seq<nat>) {
    forall y :: y in Brothers(w, p, c) ==> y in found
  }

  /** The state after one round: the count it detected and the two lists it grew. */
  datatype Probe = Probe(detected: nat, toBeSelected: seq<nat>, alreadyChecked: seq<nat>)

  /**
   * One round over `brothers`: each is marked checked, the objects around it
   * under `p` that are not yet in `toBeSelected` are counted, and `AddRange`
   * re-runs the lazy query, adding each of them once.
   */
  function Round(w: World, p: nat, brothers: seq<nat>, toBeSelected: seq<nat>, alreadyChecked: seq<nat>): Probe {
    if brothers == [] then Probe(0, toBeSelected, alreadyChecked)
    else
      var r := Round(w, p, brothers[..|brothers| - 1], toBeSelected, alreadyChecked);
      var b := brothers[|brothers| - 1];
      var around := Brothers(w, p, b);
      Probe(r.detected + |Unlisted(around, r.toBeSelected)|,
            AppendAbsent(r.toBeSelected, around),
            AddIfAbsent(r.alreadyChecked, b))
  }

  /** Everything the probes of `bs` can find, one batch after another. */
  function AllBrothers(w: World, p: nat, bs: seq<nat>): seq<nat> {
    if bs == [] then [] else AllBrothers(w, p, bs[..|bs| - 1]) + Brothers(w, p, bs[|bs| - 1])
  }

  /** What the probe of each of `bs` finds is among them. */
  lemma {:induction false} AllBrothersCover(w: World, p: nat, bs: seq<nat>)
    ensures forall b, y :: b in bs && y in Brothers(w, p, b) ==> y in AllBrothers(w, p, bs)
  {
    if bs != [] {
      AllBrothersCover(w, p, bs[..|bs| - 1]);
      assert bs == bs[..|bs| - 1] + [bs[|bs| - 1]];
    }
  }

  /** Everything found is a child of `p` that a circle query reported. */
  lemma {:induction false} AllBrothersFound(w: World, p: nat, bs: seq<nat>)
    ensures forall y :: y in AllBrothers(w, p, bs) ==> ParentOf(w, y) == Some(p) && y in Universe(w)
  {
    if bs != [] {
      AllBrothersFound(w, p, bs[..|bs| - 1]);
      BrothersMembers(w, p, bs[|bs| - 1]);
      AroundInUniverse(w, bs[|bs| - 1]);
    }
  }

  /** A set that holds what each probe finds holds everything found. */
  lemma {:induction false} AllBrothersWithin(w: World, p: nat, bs: seq<nat>, s: set<nat>)
    requires forall b, y :: b in bs && y in Brothers(w, p, b) ==> y in s
    ensures forall y :: y in AllBrothers(w, p, bs) ==> y in s
  {
    if bs != [] {
      AllBrothersWithin(w, p, bs[..|bs| - 1], s);
      assert bs[|bs| - 1] in bs;
    }
  }

  /** What a round lists: what was listed before, and what the probes of its brothers found. */
  lemma {:induction false} RoundFound(w: World, p: nat, brothers: seq<nat>, toBeSelected: seq<nat>, alreadyChecked: seq<nat>)
    ensures var r := Round(w, p, brothers, toBeSelected, alreadyChecked);
      forall y :: y in r.toBeSelected <==> y in toBeSelected || y in AllBrothers(w, p, brothers)
  {
    if brothers != [] {
      var init, b := brothers[..|brothers| - 1], brothers[|brothers| - 1];
      RoundFound(w, p, init, toBeSelected, alreadyChecked);
      var r0 := Round(w, p, init, toBeSelected, alreadyChecked);
      AppendAbsentMembers(r0.toBeSelected, Brothers(w, p, b));
    }
  }

  /** A round detects something exactly when it lists an object that was not listed. */
  lemma {:induction false} RoundDetects(w: World, p: nat, brothers: seq<nat>, toBeSelected: seq<nat>, alreadyChecked: seq<nat>)
    ensures var r := Round(w, p, brothers, toBeSelected, alreadyChecked);
      r.detected > 0 <==> exists y :: y in r.toBeSelected && y !in toBeSelected
  {
    if brothers != [] {
      var init, b := brothers[..|brothers| - 1], brothers[|brothers| - 1];
      RoundDetects(w, p, init, toBeSelected, alreadyChecked);
      RoundFound(w, p, init, toBeSelected, alreadyChecked);
      var r0 := Round(w, p, init, toBeSelected, alreadyChecked);
      var around := Brothers(w, p, b);
      var found := AppendAbsent(r0.toBeSelected, around);
      AppendAbsentMembers(r0.toBeSelected, around);
      UnlistedMembers(around, r0.toBeSelected);
      if |Unlisted(around, r0.toBeSelected)| > 0 {
        var y := Unlisted(around, r0.toBeSelected)[0];
        assert y in Unlisted(around, r0.toBeSelected);
        assert y in found && y !in toBeSelected;
      }
      if exists y :: y in found && y !in toBeSelected {
        var y :| y in found && y !in toBeSelected;
        if y !in r0.toBeSelected {
          assert y in Unlisted(around, r0.toBeSelected);
        }
      }
    }
  }

  /** A round checks exactly its brothers, on top of what was checked. */
  lemma {:induction false} RoundChecked(w: World, p: nat, brothers: seq<nat>, toBeSelected: seq<nat>, alreadyChecked: seq<nat>)
    ensures var r := Round(w, p, brothers, toBeSelected, alreadyChecked);
      forall x :: x in r.alreadyChecked <==> x in alreadyChecked || x in brothers
  {
    if brothers != [] {
      var init, b := brothers[..|brothers| - 1], brothers[|brothers| - 1];
      RoundChecked(w, p, init, toBeSelected, alreadyChecked);
      AddIfAbsentFacts(Round(w, p, init, toBeSelected, alreadyChecked).alreadyChecked, b);
      assert brothers == init + [b];
    }
  }

  /** A round that keeps `toBeSelected` free of duplicates, and extends it. */
  lemma {:induction false} RoundExtends(w: World, p: nat, brothers: seq<nat>, toBeSelected: seq<nat>, alreadyChecked: seq<nat>)
    ensures var r := Round(w, p, brothers, toBeSelected, alreadyChecked);
      |toBeSelected| <= |r.toBeSelected| && r.toBeSelected[..|toBeSelected|] == toBeSelected
    ensures NoDuplicates(toBeSelected) ==> NoDuplicates(Round(w, p, brothers, toBeSelected, alreadyChecked).toBeSelected)
  {
    if brothers != [] {
      var init := brothers[..|brothers| - 1];
      RoundExtends(w, p, init, toBeSelected, alreadyChecked);
      var r0 := Round(w, p, init, toBeSelected, alreadyChecked);
      var around := Brothers(w, p, brothers[|brothers| - 1]);
      AppendAbsentExtends(r0.toBeSelected, around);
      var r := AppendAbsent(r0.toBeSelected, around);
      assert r[..|toBeSelected|] == r[..|r0.toBeSelected|][..|toBeSelected|];
    }
  }

  /** The objects `s` holds, as a set. */
  function Listed(s: seq<nat>): set<nat> {
    set x | x in s
  }

  /** A round that detects something leaves fewer objects of the world unlisted. */
  lemma RoundShrinks(w: World, p: nat, brothers: seq<nat>, toBeSelected: seq<nat>, alreadyChecked: seq<nat>)
    requires Round(w, p, brothers, toBeSelected, alreadyChecked).detected > 0
    ensures Universe(w) - Listed(Round(w, p, brothers, toBeSelected, alreadyChecked).toBeSelected)
      < Universe(w) - Listed(toBeSelected)
  {
    RoundDetects(w, p, brothers, toBeSelected, alreadyChecked);
    RoundFound(w, p, brothers, toBeSelected, alreadyChecked);
    var r := Round(w, p, brothers, toBeSelected, alreadyChecked);
    AllBrothersFound(w, p, brothers);
    var y :| y in r.toBeSelected && y !in toBeSelected;
    assert y in Universe(w) - Listed(toBeSelected);
  }

  /**
   * The `while (true)` loop: rounds run until one detects nothing; the next
   * round probes the listed objects not checked yet.
   */
  function Expand(w: World, p: nat, brothers: seq<nat>, toBeSelected: seq<nat>, alreadyChecked: seq<nat>): seq<nat>
    decreases Universe(w) - Listed(toBeSelected)
  {
    var r := Round(w, p, brothers, toBeSelected, alreadyChecked);
    if r.detected < 1 then r.toBeSelected
    else
      RoundShrinks(w, p, brothers, toBeSelected, alreadyChecked);
      Expand(w, p, Unlisted(r.toBeSelected, r.alreadyChecked), r.toBeSelected, r.alreadyChecked)
  }

  /** The result never lists an object twice. */
  lemma {:induction false} ExpandNoDuplicates(w: World, p: nat, brothers: seq<nat>, toBeSelected: seq<nat>, alreadyChecked: seq<nat>)
    requires NoDuplicates(toBeSelected)
    ensures NoDuplicates(Expand(w, p, brothers, toBeSelected, alreadyChecked))
    decreases Universe(w) - Listed(toBeSelected)
  {
    var r := Round(w, p, brothers, toBeSelected, alreadyChecked);
    RoundExtends(w, p, brothers, toBeSelected, alreadyChecked);
    if r.detected >= 1 {
      RoundShrinks(w, p, brothers, toBeSelected, alreadyChecked);
      ExpandNoDuplicates(w, p, Unlisted(r.toBeSelected, r.alreadyChecked), r.toBeSelected, r.alreadyChecked);
    }
  }

  /** Every object the rounds add has the parent `p`. */
  lemma {:induction false} ExpandSiblings(w: World, p: nat, brothers: seq<nat>, toBeSelected: seq<nat>, alreadyChecked: seq<nat>)
    requires forall y :: y in toBeSelected ==> ParentOf(w, y) == Some(p)
    ensures forall y :: y in Expand(w, p, brothers, toBeSelected, alreadyChecked) ==> ParentOf(w, y) == Some(p)
    decreases Universe(w) - Listed(toBeSelected)
  {
    var r := Round(w, p, brothers, toBeSelected, alreadyChecked);
    RoundFound(w, p, brothers, toBeSelected, alreadyChecked);
    AllBrothersFound(w, p, brothers);
    if r.detected >= 1 {
      RoundShrinks(w, p, brothers, toBeSelected, alreadyChecked);
      ExpandSiblings(w, p, Unlisted(r.toBeSelected, r.alreadyChecked), r.toBeSelected, r.alreadyChecked);
    }
  }

  /**
   * On termination the result is closed: every object around a checked, a
   * pending or a selected object, under `p`, is selected.
   */
  lemma {:induction false} ExpandClosed(w: World, p: nat, brothers: seq<nat>, toBeSelected: seq<nat>, alreadyChecked: seq<nat>)
    requires forall c :: c in alreadyChecked ==> Covers(w, p, c, toBeSelected)
    requires forall x :: x in toBeSelected ==> x in alreadyChecked || x in brothers
    ensures var e := Expand(w, p, brothers, toBeSelected, alreadyChecked);
      forall c :: c in alreadyChecked || c in brothers || c in e ==> Covers(w, p, c, e)
    decreases Universe(w) - Listed(toBeSelected)
  {
    var r := Round(w, p, brothers, toBeSelected, alreadyChecked);
    RoundFound(w, p, brothers, toBeSelected, alreadyChecked);
    RoundDetects(w, p, brothers, toBeSelected, alreadyChecked);
    RoundChecked(w, p, brothers, toBeSelected, alreadyChecked);
    AllBrothersCover(w, p, brothers);
    assert forall c :: c in alreadyChecked || c in brothers ==> Covers(w, p, c, r.toBeSelected);
    if r.detected >= 1 {
      RoundShrinks(w, p, brothers, toBeSelected, alreadyChecked);
      var next := Unlisted(r.toBeSelected, r.alreadyChecked);
      UnlistedMembers(r.toBeSelected, r.alreadyChecked);
      ExpandClosed(w, p, next, r.toBeSelected, r.alreadyChecked);
    }
  }

  /**
   * The result is the least closed set: any set that holds what the probes of
   * `brothers` find and is closed under probing holds the whole result.
   */
  lemma {:induction false} ExpandLeast(w: World, p: nat, brothers: seq<nat>, toBeSelected: seq<nat>, alreadyChecked: seq<nat>, s: set<nat>)
    requires forall b :: b in brothers ==> forall y :: y in Brothers(w, p, b) ==> y in s
    requires forall x :: x in s ==> forall y :: y in Brothers(w, p, x) ==> y in s
    requires forall y :: y in toBeSelected ==> y in s
    ensures forall y :: y in Expand(w, p, brothers, toBeSelected, alreadyChecked) ==> y in s
    decreases Universe(w) - Listed(toBeSelected)
  {
    var r := Round(w, p, brothers, toBeSelected, alreadyChecked);
    RoundFound(w, p, brothers, toBeSelected, alreadyChecked);
    AllBrothersWithin(w, p, brothers, s);
    if r.detected >= 1 {
      RoundShrinks(w, p, brothers, toBeSelected, alreadyChecked);
      var next := Unlisted(r.toBeSelected, r.alreadyChecked);
      UnlistedMembers(r.toBeSelected, r.alreadyChecked);
      ExpandLeast(w, p, next, r.toBeSelected, r.alreadyChecked, s);
    }
  }

  /** One round of the loop: the inner `for` of lines 67-80. */
  method ProbeRound(w: World, p: nat, brothersAround: seq<nat>, toBeSelected0: seq<nat>, alreadyChecked0: seq<nat>)
    returns (detected: nat, toBeSelected: seq<nat>, alreadyChecked: seq<nat>)
    ensures Probe(detected, toBeSelected, alreadyChecked) == Round(w, p, brothersAround, toBeSelected0, alreadyChecked0)
  {
    detected, toBeSelected, alreadyChecked := 0, toBeSelected0, alreadyChecked0;
    for i := 0 to |brothersAround|
      invariant Probe(detected, toBeSelected, alreadyChecked) == Round(w, p, brothersAround[..i], toBeSelected0, alreadyChecked0)
    {
      assert brothersAround[..i + 1][..i] == brothersAround[..i];
      var b := brothersAround[i];
      if b !in alreadyChecked {
        alreadyChecked := alreadyChecked + [b];
      }
      var around := Brothers(w, p, b);
      detected := detected + |Unlisted(around, toBeSelected)|;
      toBeSelected := AppendAbsent(toBeSelected, around);
    }
    assert brothersAround[..|brothersAround|] == brothersAround;
  }

  /** The `while (true)` loop of lines 63-89. */
  method ExpandSelection(w: World, p: nat, firstBrothers: seq<nat>) returns (toBeSelected: seq<nat>)
    ensures toBeSelected == Expand(w, p, firstBrothers, [], [])
  {
    var brothersAround := firstBrothers;
    var alreadyChecked: seq<nat> := [];
    toBeSelected := [];
    while true
      invariant Expand(w, p, brothersAround, toBeSelected, alreadyChecked) == Expand(w, p, firstBrothers, [], [])
      decreases Universe(w) - Listed(toBeSelected)
    {
      var detected, selected, checked := ProbeRound(w, p, brothersAround, toBeSelected, alreadyChecked);
      if detected < 1 {
        return selected;
      }
      RoundShrinks(w, p, brothersAround, toBeSelected, alreadyChecked);
      toBeSelected, alreadyChecked := selected, checked;
      brothersAround := Unlisted(toBeSelected, alreadyChecked);
    }
  }

  // ---------------------------------------------------------------------------
  // The commands

  /** Unity's editor selection: the selected objects, in order, and the active one. */
  class EditorSelection {
    var objects: seq<nat>
    var active: Option<nat>

    constructor (objects: seq<nat>, active: Option<nat>)
      ensures this.objects == objects && this.active == active
    {
      this.objects := objects;
      this.active := active;
    }
  }

  /**
   * What `Select2D` does: it returns null when nothing is selected or the
   * first selected object has no parent, throws when that object has no 2D
   * collider, and otherwise returns the objects it selected.
   */
  datatype Select2DResult = NoParent | MissingCollider | Objects(objects: seq<nat>)

  /** The closure `Select2D` computes from a selection whose first object has the parent `p`. */
  function Closure(w: World, sel: seq<nat>, p: nat): seq<nat> {
    Expand(w, p, FirstBrothers(w, sel), [], [])
  }

  /**
   * The closure lists no object twice, holds only children of `p`, holds every
   * object under `p` around a first brother or around one of its own objects,
   * and lies inside every set with those two properties.
   */
  lemma ClosureIsLeast(w: World, sel: seq<nat>, p: nat, s: set<nat>)
    ensures NoDuplicates(Closure(w, sel, p))
    ensures forall y :: y in Closure(w, sel, p) ==> ParentOf(w, y) == Some(p)
    ensures forall c :: c in FirstBrothers(w, sel) || c in Closure(w, sel, p) ==> Covers(w, p, c, Closure(w, sel, p))
    ensures (forall c, y :: (c in FirstBrothers(w, sel) || c in s) && y in Brothers(w, p, c) ==> y in s) ==>
      forall y :: y in Closure(w, sel, p) ==> y in s
  {
    var b0 := FirstBrothers(w, sel);
    ExpandNoDuplicates(w, p, b0, [], []);
    ExpandSiblings(w, p, b0, [], []);
    ExpandClosed(w, p, b0, [], []);
    if forall c, y :: (c in b0 || c in s) && y in Brothers(w, p, c) ==> y in s {
      ExpandLeast(w, p, b0, [], [], s);
    }
  }

  /** `Select2D`: replaces the selection by the closure and returns it. */
  method Select2D(sel: EditorSelection, w: World) returns (r: Select2DResult)
    modifies sel`objects
    ensures var cur := old(sel.objects);
      if |cur| == 0 || ParentOf(w, cur[0]).None? then r == NoParent
      else if cur[0] !in w.colliders then r == MissingCollider
      else r == Objects(Closure(w, cur, ParentOf(w, cur[0]).value))
    ensures r.Objects? ==> sel.objects == r.objects
    ensures !r.Objects? ==> sel.objects == old(sel.objects)
  {
    var currentSelection := sel.objects;
    if !(|currentSelection| > 0 && ParentOf(w, currentSelection[0]).Some?) {
      return NoParent;
    }
    if currentSelection[0] !in w.colliders {
      return MissingCollider;
    }
    var p := ParentOf(w, currentSelection[0]).value;
    var brothersAround := GatherBrothers(w, currentSelection);
    var toBeSelected := ExpandSelection(w, p, brothersAround);
    sel.objects := toBeSelected;
    return Objects(toBeSelected);
  }

  // ---------------------------------------------------------------------------
  // Row and column variants (Select2DX, Select2DY)

  /** How a menu command ended: normally, or with a `NullReferenceException`. */
  datatype Completion = Completed | NullReference

  /** The objects of `all` whose coordinate on `axis` equals `level`, in order. */
  function AtLevel(all: seq<nat>, w: World, axis: Axis, level: real): seq<nat> {
    if all == [] then []
    else
      var prev := AtLevel(all[..|all| - 1], w, axis, level);
      var x := all[|all| - 1];
      if Coord(PositionOf(w, x), axis) == level then prev + [x] else prev
  }

  /** Exactly the objects of `all` at `level` are kept, in their order in `all`. */
  lemma {:induction false} AtLevelMembers(all: seq<nat>, w: World, axis: Axis, level: real)
    ensures forall x :: x in AtLevel(all, w, axis, level) <==> x in all && Coord(PositionOf(w, x), axis) == level
    ensures Subsequence(AtLevel(all, w, axis, level), all)
  {
    if all != [] {
      var init, x := all[..|all| - 1], all[|all| - 1];
      var prev := AtLevel(init, w, axis, level);
      AtLevelMembers(init, w, axis, level);
      assert all == init + [x];
      if Coord(PositionOf(w, x), axis) == level {
        SubsequenceKeep(prev, init, x);
      } else {
        assert prev != [] ==> prev[|prev| - 1] in prev;
        SubsequenceSkip(prev, init, x);
      }
    }
  }

  /**
   * For each object of `current` in turn, the objects of `all` level with it
   * on `axis`, appended one batch after another.
   */
  function Along(all: seq<nat>, current: seq<nat>, w: World, axis: Axis): seq<nat> {
    if current == [] then []
    else
      Along(all, current[..|current| - 1], w, axis)
        + AtLevel(all, w, axis, Coord(PositionOf(w, current[|current| - 1]), axis))
  }

  /** An object is kept exactly when it is in `all` and level with some object of `current`. */
  lemma {:induction false} AlongMembers(all: seq<nat>, current: seq<nat>, w: World, axis: Axis)
    ensures forall x :: x in Along(all, current, w, axis) <==>
      x in all && exists i :: 0 <= i < |current| && Coord(PositionOf(w, x), axis) == Coord(PositionOf(w, current[i]), axis)
  {
    if current != [] {
      var init, c := current[..|current| - 1], current[|current| - 1];
      AlongMembers(all, init, w, axis);
      AtLevelMembers(all, w, axis, Coord(PositionOf(w, c), axis));
      forall x
        ensures x in Along(all, current, w, axis) <==>
          x in all && exists i :: 0 <= i < |current| && Coord(PositionOf(w, x), axis) == Coord(PositionOf(w, current[i]), axis)
      {
        if exists i :: 0 <= i < |current| && Coord(PositionOf(w, x), axis) == Coord(PositionOf(w, current[i]), axis) {
          var i :| 0 <= i < |current| && Coord(PositionOf(w, x), axis) == Coord(PositionOf(w, current[i]), axis);
          if i < |init| {
            assert init[i] == current[i];
          }
        }
        if x in Along(all, init, w, axis) {
          var i :| 0 <= i < |init| && Coord(PositionOf(w, x), axis) == Coord(PositionOf(w, init[i]), axis);
          assert current[i] == init[i];
        }
      }
    }
  }

  /** Two selected objects on one row list every object of that row twice. */
  lemma AlongRepeats()
    ensures var w := World(map[], map[0 := Origin, 1 := Origin], {}, map[]);
      Along([0], [0, 1], w, Y) == [0, 0]
  {
    var w := World(map[], map[0 := Origin, 1 := Origin], {}, map[]);
    assert [0][..0] == [] && [0, 1][..1] == [0];
    assert PositionOf(w, 0) == Origin && PositionOf(w, 1) == Origin;
    assert AtLevel([0], w, Y, 0.0) == [0];
    assert Along([0], [0], w, Y) == [0];
  }

  /** The `for` loop of lines 109-114 (and 131-136). */
  method GatherAlong(all: seq<nat>, current: seq<nat>, w: World, axis: Axis) returns (toBeSelected: seq<nat>)
    ensures toBeSelected == Along(all, current, w, axis)
  {
    toBeSelected := [];
    for i := 0 to |current|
      invariant toBeSelected == Along(all, current[..i], w, axis)
    {
      assert current[..i + 1][..i] == current[..i];
      toBeSelected := toBeSelected + AtLevel(all, w, axis, Coord(PositionOf(w, current[i]), axis));
    }
    assert current[..|current|] == current;
  }

  /**
   * `Select2DX` (`axis == Y`: the rows of the selected objects) and
   * `Select2DY` (`axis == X`: their columns). The result of `Select2D` is
   * dereferenced without a null check.
   */
  method Select2DLine(sel: EditorSelection, w: World, axis: Axis) returns (c: Completion)
    modifies sel`objects
    ensures var cur := old(sel.objects);
      if |cur| == 0 || ParentOf(w, cur[0]).None? || cur[0] !in w.colliders then
        c == NullReference && sel.objects == cur
      else
        var all := Closure(w, cur, ParentOf(w, cur[0]).value);
        c == Completed && sel.objects == if |all| > 0 then Along(all, cur, w, axis) else all
  {
    var currentSelection := sel.objects;
    var allOfThem := Select2D(sel, w);
    if !allOfThem.Objects? {
      return NullReference;
    }
    if |allOfThem.objects| > 0 {
      var toBeSelected := GatherAlong(allOfThem.objects, currentSelection, w, axis);
      sel.objects := toBeSelected;
    }
    return Completed;
  }

  // ---------------------------------------------------------------------------
  // Side variants (Select2DAllLeft, Right, Up, Down)

  datatype Side = Left | Right | Up | Down

  /** The coordinate test of each variant against the active object's position `a`. */
  predicate OnSide(side: Side, v: Vec3, a: Vec3) {
    match side
    case Left => v.x <= a.x
    case Right => v.x >= a.x
    case Up => v.y >= a.y
    case Down => v.y <= a.y
  }

  /** `all.Where(x => OnSide(...))`: the objects of `all` on `side` of `a`, in order. */
  function Beside(all: seq<nat>, w: World, side: Side, a: Vec3): seq<nat> {
    if all == [] then []
    else
      var prev := Beside(all[..|all| - 1], w, side, a);
      var x := all[|all| - 1];
      if OnSide(side, PositionOf(w, x), a) then prev + [x] else prev
  }

  /** The filter keeps exactly the objects on the side, and all of `all` when every object is on it. */
  lemma {:induction false} BesideMembers(all: seq<nat>, w: World, side: Side, a: Vec3)
    ensures forall x :: x in Beside(all, w, side, a) <==> x in all && OnSide(side, PositionOf(w, x), a)
    ensures (forall x :: x in all ==> OnSide(side, PositionOf(w, x), a)) ==> Beside(all, w, side, a) == all
  {
    if all != [] {
      BesideMembers(all[..|all| - 1], w, side, a);
      assert all == all[..|all| - 1] + [all[|all| - 1]];
    }
  }

  /** The filter never reorders: its result is a subsequence of `all`, so no longer than it. */
  lemma {:induction false} BesideKeepsOrder(all: seq<nat>, w: World, side: Side, a: Vec3)
    ensures Subsequence(Beside(all, w, side, a), all)
    ensures |Beside(all, w, side, a)| <= |all|
  {
    if all != [] {
      var init, x := all[..|all| - 1], all[|all| - 1];
      var prev := Beside(init, w, side, a);
      BesideKeepsOrder(init, w, side, a);
      assert all == init + [x];
      if OnSide(side, PositionOf(w, x), a) {
        SubsequenceKeep(prev, init, x);
      } else {
        if prev != [] {
          BesideMembers(init, w, side, a);
          assert prev[|prev| - 1] in prev;
        }
        SubsequenceSkip(prev, init, x);
      }
    }
    SubsequenceFacts(Beside(all, w, side, a), all);
  }

  /**
   * `Select2DAllLeft`/`Right`/`Up`/`Down`: the closure, restricted to one side
   * of the object that was active before it was computed. A missing active
   * object is dereferenced once there is something to filter.
   */
  method Select2DAll(sel: EditorSelection, w: World, side: Side) returns (c: Completion)
    modifies sel`objects
    ensures var cur := old(sel.objects);
      if |cur| == 0 || ParentOf(w, cur[0]).None? then
        c == Completed && sel.objects == cur
      else if cur[0] !in w.colliders then
        c == NullReference && sel.objects == cur
      else
        var all := Closure(w, cur, ParentOf(w, cur[0]).value);
        if old(sel.active).None? && |all| > 0 then
          c == NullReference && sel.objects == all
        else
          c == Completed &&
          sel.objects == if old(sel.active).None? then all else Beside(all, w, side, PositionOf(w, old(sel.active).value))
  {
    var selected := sel.active;
    var allOfThem := Select2D(sel, w);
    match allOfThem
    case NoParent =>
      return Completed;
    case MissingCollider =>
      return NullReference;
    case Objects(all) =>
      if selected.None? {
        if |all| > 0 {
          return NullReference;
        }
        sel.objects := all;
        return Completed;
      }
      sel.objects := Beside(all, w, side, PositionOf(w, selected.value));
      return Completed;
  }
}
