/**
 * GhostGrid.cs: snapping a grid's hierarchy to the virtual grid, moving
 * overlapped children under the "[GhostGrid:Overlapped]" holder, and the
 * static registry of enabled grids.
 *
 * The hierarchy that `GetComponentsInChildren<Transform>()` returns is an
 * array of element records; an element's identity is its index there, and
 * its parent is another index, the holder, or something outside the grid.
 */
module Grid {
  import opened Collections
  import opened Vectors

  /** Where a transform hangs: under the element at `index`, under the holder, or elsewhere. */
  datatype Parent = Node(index: nat) | Overlapped | Outside

  datatype Element = Element(position: Vec3, parent: Parent)

  // ---------------------------------------------------------------------------
  // Snapping

  function Parents(s: seq<Element>): seq<Parent> {
    seq(|s|, k requires 0 <= k < |s| => s[k].parent)
  }

  /**
   * Element j hangs below element i: following parent links up from j reaches
   * i. `GetComponentsInChildren` lists every parent before its children, so
   * only links to an earlier index are followed.
   */
  predicate Below(ps: seq<Parent>, j: int, i: int)
    decreases j
  {
    0 <= j < |ps| && ps[j].Node? && ps[j].index < j && (ps[j].index == i || Below(ps, ps[j].index, i))
  }

  lemma {:induction false} BelowIsLater(ps: seq<Parent>, j: int, i: int)
    ensures Below(ps, j, i) ==> i < j
    decreases j
  {
    if Below(ps, j, i) && ps[j].index != i {
      BelowIsLater(ps, ps[j].index, i);
    }
  }

  /**
   * Setting the world position of element i to `p`: Unity carries every
   * element below i along by the same offset.
   */
  function MoveTo(s: seq<Element>, i: nat, p: Vec3): (r: seq<Element>)
    requires i < |s|
    ensures |r| == |s|
  {
    var ps, d := Parents(s), Sub(p, s[i].position);
    seq(|s|, k requires 0 <= k < |s| =>
      if k == i || Below(ps, k, i) then s[k].(position := Add(s[k].position, d)) else s[k])
  }

  /**
   * The moved element lands on `p`, the elements below it keep their offsets
   * to it, nothing else moves, and no parent link changes.
   */
  lemma MoveToFacts(s: seq<Element>, i: nat, p: Vec3)
    requires i < |s|
    ensures Parents(MoveTo(s, i, p)) == Parents(s)
    ensures MoveTo(s, i, p)[i].position == p
    ensures forall k :: 0 <= k < |s| && Below(Parents(s), k, i) ==>
      Sub(MoveTo(s, i, p)[k].position, p) == Sub(s[k].position, s[i].position)
    ensures forall k :: 0 <= k < |s| && k != i && !Below(Parents(s), k, i) ==> MoveTo(s, i, p)[k] == s[k]
  {
    assert Parents(MoveTo(s, i, p)) == Parents(s);
  }

  /** Elements listed before the moved one stay where they are. */
  lemma MoveToKeepsEarlier(s: seq<Element>, i: nat, p: Vec3, k: nat)
    requires k < i < |s|
    ensures MoveTo(s, i, p)[k] == s[k]
  {
    BelowIsLater(Parents(s), k, i);
  }

  /** The hierarchy after the first n iterations of `SnapAll`'s loop. */
  function SnapLoop(s: seq<Element>, n: nat, g: real): (r: seq<Element>)
    requires g != 0.0 && n <= |s|
    ensures |r| == |s|
  {
    if n == 0 then s
    else
      var t := SnapLoop(s, n - 1, g);
      MoveTo(t, n - 1, SnapVector(t[n - 1].position, g))
  }

  /** The hierarchy after `SnapAll`. */
  function Snapped(s: seq<Element>, g: real): seq<Element>
    requires g != 0.0
  {
    SnapLoop(s, |s|, g)
  }

  lemma {:induction false} SnapLoopKeepsParents(s: seq<Element>, n: nat, g: real)
    requires g != 0.0 && n <= |s|
    ensures Parents(SnapLoop(s, n, g)) == Parents(s)
  {
    if n > 0 {
      SnapLoopKeepsParents(s, n - 1, g);
      var t := SnapLoop(s, n - 1, g);
      MoveToFacts(t, n - 1, SnapVector(t[n - 1].position, g));
    }
  }

  /**
   * After n iterations, every element before n sits where its own iteration
   * put it: on the grid point nearest to where the moves of its ancestors had
   * left it. Later iterations only move elements after them.
   */
  lemma {:induction false} SnapLoopSettled(s: seq<Element>, n: nat, g: real)
    requires g != 0.0 && n <= |s|
    ensures forall k :: 0 <= k < n ==>
      SnapLoop(s, n, g)[k].position == SnapVector(SnapLoop(s, k, g)[k].position, g)
  {
    if n > 0 {
      SnapLoopSettled(s, n - 1, g);
      var t := SnapLoop(s, n - 1, g);
      var p := SnapVector(t[n - 1].position, g);
      var r := MoveTo(t, n - 1, p);
      assert SnapLoop(s, n, g) == r;
      forall k | 0 <= k < n
        ensures r[k].position == SnapVector(SnapLoop(s, k, g)[k].position, g)
      {
        if k < n - 1 {
          MoveToKeepsEarlier(t, n - 1, p, k);
        } else {
          assert r[k].position == p;
        }
      }
    }
  }

  /**
   * `SnapAll` keeps every parent link, and every element ends on a grid point:
   * the one nearest to, and within half a cell of, where the snapping of its
   * ancestors had carried it.
   */
  lemma SnappedOnGrid(s: seq<Element>, g: real)
    requires g != 0.0
    ensures |Snapped(s, g)| == |s| && Parents(Snapped(s, g)) == Parents(s)
    ensures forall k :: 0 <= k < |s| ==>
      var p, q := Snapped(s, g)[k].position, SnapLoop(s, k, g)[k].position;
      GridPoint(p, g) && p == SnapVector(q, g) &&
      Abs(p.x - q.x) <= Abs(g) / 2.0 && Abs(p.y - q.y) <= Abs(g) / 2.0 && Abs(p.z - q.z) <= Abs(g) / 2.0
  {
    SnapLoopKeepsParents(s, |s|, g);
    SnapLoopSettled(s, |s|, g);
    assert GridPoint(Origin, g);
    forall k | 0 <= k < |s|
      ensures var q := SnapLoop(s, k, g)[k].position;
        GridPoint(SnapVector(q, g), g) && Abs(SnapVector(q, g).x - q.x) <= Abs(g) / 2.0 &&
        Abs(SnapVector(q, g).y - q.y) <= Abs(g) / 2.0 && Abs(SnapVector(q, g).z - q.z) <= Abs(g) / 2.0
    {
      SnapVectorNearest(SnapLoop(s, k, g)[k].position, g, Origin);
    }
  }

  /**
   * An element with no ancestor among the elements before it (the grid's root,
   * or a flat hierarchy) is snapped from its own position.
   */
  lemma RootSnapsInPlace(s: seq<Element>, k: nat, g: real)
    requires g != 0.0 && k < |s|
    requires forall j :: !Below(Parents(s), k, j)
    ensures Snapped(s, g)[k].position == SnapVector(s[k].position, g)
  {
    SnapLoopSettled(s, |s|, g);
    SnapLoopAhead(s, k, k, g);
  }

  /** Iterations before n move an element at or after n only when it hangs below one of them. */
  lemma {:induction false} SnapLoopAhead(s: seq<Element>, n: nat, k: nat, g: real)
    requires g != 0.0 && n <= k < |s|
    requires forall j :: !Below(Parents(s), k, j)
    ensures SnapLoop(s, n, g)[k] == s[k]
  {
    if n > 0 {
      SnapLoopAhead(s, n - 1, k, g);
      var t := SnapLoop(s, n - 1, g);
      SnapLoopKeepsParents(s, n - 1, g);
      assert !Below(Parents(t), k, n - 1);
    }
  }

  /** The first iteration of the example below: the root snaps to 0 and carries its child to 0.45. */
  lemma ChildFollowsParentFirst()
    ensures SnapLoop([Element(Vec3(0.45, 0.0, 0.0), Outside), Element(Vec3(0.9, 0.0, 0.0), Node(0))], 1, 1.0)
      == [Element(Origin, Outside), Element(Vec3(0.45, 0.0, 0.0), Node(0))]
  {
    var half := Vec3(0.45, 0.0, 0.0);
    var s := [Element(half, Outside), Element(Vec3(0.9, 0.0, 0.0), Node(0))];
    assert SnapVector(half, 1.0) == Origin by {
      assert Round(0.45) == 0;
    }
    assert Parents(s) == [Outside, Node(0)];
    assert Below(Parents(s), 1, 0);
    assert MoveTo(s, 0, Origin) == [Element(Origin, Outside), Element(half, Node(0))];
  }

  /**
   * A child follows its parent: with a cell of 1, a root at x = 0.45 snaps to
   * 0 and carries its child from 0.9 to 0.45, which then snaps to 0, a whole
   * 0.9 from where the child started.
   */
  lemma ChildFollowsParent()
    ensures var s := [Element(Vec3(0.45, 0.0, 0.0), Outside), Element(Vec3(0.9, 0.0, 0.0), Node(0))];
      Snapped(s, 1.0)[0].position == Origin && Snapped(s, 1.0)[1].position == Origin
  {
    var half := Vec3(0.45, 0.0, 0.0);
    var s := [Element(half, Outside), Element(Vec3(0.9, 0.0, 0.0), Node(0))];
    var t := [Element(Origin, Outside), Element(half, Node(0))];
    ChildFollowsParentFirst();
    assert SnapVector(half, 1.0) == Origin by {
      assert Round(0.45) == 0;
    }
    assert Parents(t) == [Outside, Node(0)];
    assert !Below(Parents(t), 0, 1);
    assert SnapLoop(s, 2, 1.0) == MoveTo(t, 1, Origin);
  }

  /** On a hierarchy whose elements all sit on grid points, the loop moves nothing. */
  lemma {:induction false} SnapLoopOnGrid(s: seq<Element>, n: nat, g: real)
    requires g != 0.0 && n <= |s|
    requires forall k :: 0 <= k < |s| ==> GridPoint(s[k].position, g)
    ensures SnapLoop(s, n, g) == s
  {
    if n > 0 {
      SnapLoopOnGrid(s, n - 1, g);
      var p := s[n - 1].position;
      SnapAxisKeepsGridValue(p.x, g);
      SnapAxisKeepsGridValue(p.y, g);
      SnapAxisKeepsGridValue(p.z, g);
      assert SnapVector(p, g) == p;
      assert MoveTo(s, n - 1, p) == s;
    }
  }

  /** A second `SnapAll` moves nothing. */
  lemma SnappedIdempotent(s: seq<Element>, g: real)
    requires g != 0.0
    ensures Snapped(Snapped(s, g), g) == Snapped(s, g)
  {
    SnappedOnGrid(s, g);
    SnapLoopOnGrid(Snapped(s, g), |s|, g);
  }

  // ---------------------------------------------------------------------------
  // Overlap exclusion

  /**
   * The pair (i, j) is counted by `ExcludeOverlappedChildren`: j comes after i,
   * both sit at the same position, and i is not j's direct parent.
   */
  predicate Hides(s: seq<Element>, i: int, j: int) {
    0 <= i < j < |s| && s[j].position == s[i].position && s[j].parent != Node(i)
  }

  /** Element i is moved to the holder: some later element hides it. */
  predicate Excluded(s: seq<Element>, i: int) {
    exists j | 0 <= j < |s| :: Hides(s, i, j)
  }

  /** The hierarchy after exclusion: excluded elements hang under the holder. */
  function AfterExclusion(s: seq<Element>): (r: seq<Element>)
    ensures |r| == |s|
    ensures forall k :: 0 <= k < |s| ==> r[k].position == s[k].position
    ensures forall k :: 0 <= k < |s| ==> r[k].parent == if Excluded(s, k) then Overlapped else s[k].parent
  {
    seq(|s|, k requires 0 <= k < |s| => if Excluded(s, k) then s[k].(parent := Overlapped) else s[k])
  }

  /** Element i as the exclusion loop leaves it: moved when its row of pairs is not empty. */
  function Moved(s: seq<Element>, i: nat): Element
    requires i < |s|
  {
    if Row(s, i, |s|) > 0 then s[i].(parent := Overlapped) else s[i]
  }

  /** Number of k < j with `Hides(s, i, k)`. */
  function Row(s: seq<Element>, i: int, j: nat): nat {
    if j == 0 then 0 else Row(s, i, j - 1) + (if Hides(s, i, j - 1) then 1 else 0)
  }

  /** Number of counted pairs whose first element is below i. */
  function Pairs(s: seq<Element>, i: nat): nat {
    if i == 0 then 0 else Pairs(s, i - 1) + Row(s, i - 1, |s|)
  }

  /** The count `ExcludeOverlappedChildren` returns. */
  function OverlapPairs(s: seq<Element>): nat {
    Pairs(s, |s|)
  }

  /** Number of excluded elements below i. */
  function ExcludedBelow(s: seq<Element>, i: nat): nat {
    if i == 0 then 0 else ExcludedBelow(s, i - 1) + (if Excluded(s, i - 1) then 1 else 0)
  }

  lemma {:induction false} RowPositive(s: seq<Element>, i: int, j: nat)
    ensures Row(s, i, j) > 0 <==> exists k :: 0 <= k < j && Hides(s, i, k)
  {
    if j > 0 {
      RowPositive(s, i, j - 1);
    }
  }

  /** Element i is excluded exactly when its row of pairs is not empty. */
  lemma ExcludedIffRow(s: seq<Element>, i: int)
    ensures Excluded(s, i) <==> Row(s, i, |s|) > 0
  {
    RowPositive(s, i, |s|);
  }

  lemma {:induction false} ExcludedBelowPairs(s: seq<Element>, i: nat)
    ensures ExcludedBelow(s, i) <= Pairs(s, i)
    ensures Pairs(s, i) == 0 <==> forall k :: 0 <= k < i ==> !Excluded(s, k)
  {
    if i > 0 {
      ExcludedBelowPairs(s, i - 1);
      ExcludedIffRow(s, i - 1);
    }
  }

  /** The returned count is at least the number of moved elements. */
  lemma ExclusionsAtMostPairs(s: seq<Element>)
    ensures ExcludedBelow(s, |s|) <= OverlapPairs(s)
  {
    ExcludedBelowPairs(s, |s|);
  }

  /** The count is 0 exactly when no element is moved. */
  lemma NoPairsIffNoExclusion(s: seq<Element>)
    ensures OverlapPairs(s) == 0 <==> forall k :: 0 <= k < |s| ==> !Excluded(s, k)
  {
    ExcludedBelowPairs(s, |s|);
  }

  /** Pairwise distinct positions: nothing moves and the count is 0. */
  lemma DistinctPositionsStay(s: seq<Element>)
    requires forall i, j :: 0 <= i < j < |s| ==> s[i].position != s[j].position
    ensures OverlapPairs(s) == 0
    ensures AfterExclusion(s) == s
  {
    NoPairsIffNoExclusion(s);
  }

  /**
   * No position is emptied: some element at the position of element i, at i
   * or after it, keeps its parent.
   */
  lemma {:induction false} SurvivorAtPosition(s: seq<Element>, i: nat)
    requires i < |s|
    ensures exists k :: i <= k < |s| && s[k].position == s[i].position && !Excluded(s, k)
    decreases |s| - i
  {
    if Excluded(s, i) {
      var j :| 0 <= j < |s| && Hides(s, i, j);
      SurvivorAtPosition(s, j);
    }
  }

  /** The last element at a position keeps its parent and its place. */
  lemma LastAtPositionStays(s: seq<Element>, k: nat)
    requires k < |s|
    requires forall j :: k < j < |s| ==> s[j].position != s[k].position
    ensures !Excluded(s, k) && AfterExclusion(s)[k] == s[k]
  {
  }

  /** Three parentless elements at one position: three pairs, two moved. */
  lemma PairsCanExceedExclusions()
    ensures var p := Element(Origin, Outside);
      OverlapPairs([p, p, p]) == 3 && ExcludedBelow([p, p, p], 3) == 2
  {
    var p := Element(Origin, Outside);
    var s := [p, p, p];
    assert Hides(s, 0, 1) && Hides(s, 0, 2) && Hides(s, 1, 2);
    assert forall k :: !Hides(s, 2, k) && (k <= 1 ==> !Hides(s, 1, k)) && (k <= 0 ==> !Hides(s, 0, k));
    assert Row(s, 0, 1) == 0;
    assert Row(s, 0, 2) == 1;
    assert Row(s, 0, 3) == 2;
    assert Row(s, 1, 1) == 0;
    assert Row(s, 1, 2) == 0;
    assert Row(s, 1, 3) == 1;
    assert Row(s, 2, 1) == 0;
    assert Row(s, 2, 2) == 0;
    assert Row(s, 2, 3) == 0;
    assert Pairs(s, 1) == 2;
    assert Pairs(s, 2) == 3;
    assert Pairs(s, 3) == 3;
    assert Excluded(s, 0) && Excluded(s, 1) && !Excluded(s, 2);
    assert ExcludedBelow(s, 1) == 1;
    assert ExcludedBelow(s, 2) == 2;
    assert ExcludedBelow(s, 3) == 2;
  }

  /** A child at its parent's position does not push the parent out. */
  lemma ParentKeepsChildAtSamePosition(v: Vec3)
    ensures var s := [Element(v, Outside), Element(v, Node(0))];
      OverlapPairs(s) == 0 && AfterExclusion(s) == s
  {
    var s := [Element(v, Outside), Element(v, Node(0))];
    assert !Excluded(s, 0) && !Excluded(s, 1);
    assert Row(s, 0, 1) == 0 && Row(s, 0, 2) == 0;
    assert Row(s, 1, 1) == 0 && Row(s, 1, 2) == 0;
    assert Pairs(s, 1) == 0 && Pairs(s, 2) == 0;
    assert AfterExclusion(s)[0] == s[0] && AfterExclusion(s)[1] == s[1];
  }

  // ---------------------------------------------------------------------------
  // The component

  class GhostGrid {
    var gridSize: real
    var quantity: int
    var autoSnapEnabled: bool

    constructor ()
      ensures gridSize == 1.0 && quantity == 0 && !autoSnapEnabled
    {
      gridSize := 1.0;
      quantity := 0;
      autoSnapEnabled := false;
    }

    /**
     * Snaps every element of the hierarchy, parents first, when the cell size
     * is positive. Writing an element's position moves everything below it.
     */
    method SnapAll(children: array<Element>)
      modifies this`quantity, children
      ensures gridSize <= 0.0 ==> quantity == old(quantity) && children[..] == old(children[..])
      ensures gridSize > 0.0 ==> quantity == children.Length
      ensures gridSize > 0.0 ==> children[..] == Snapped(old(children[..]), gridSize)
    {
      if gridSize > 0.0 {
        quantity := children.Length;
        ghost var s := children[..];
        var ps := Parents(children[..]);
        for i := 0 to quantity
          invariant quantity == children.Length
          invariant children[..] == SnapLoop(s, i, gridSize)
        {
          SnapLoopKeepsParents(s, i, gridSize);
          var here := children[i].position;
          var shift := Sub(SnapVector(here, gridSize), here);
          // The transform and its descendants move together.
          forall k | 0 <= k < children.Length && (k == i || Below(ps, k, i)) {
            children[k] := children[k].(position := Add(children[k].position, shift));
          }
          assert children[..] == MoveTo(SnapLoop(s, i, gridSize), i, SnapVector(here, gridSize));
        }
      }
    }

    /**
     * Moves every element that a later element overlaps under the holder and
     * returns the number of overlapping pairs found.
     */
    method ExcludeOverlappedChildren(children: array<Element>) returns (excludedCount: int)
      modifies this`quantity, children
      ensures quantity == children.Length
      ensures children[..] == AfterExclusion(old(children[..]))
      ensures excludedCount == OverlapPairs(old(children[..]))
    {
      ghost var s := children[..];
      var safeChildren: seq<nat> := [];
      excludedCount := 0;
      quantity := children.Length;
      var i: nat := 0;
      while i < quantity
        invariant i <= quantity == children.Length == |s|
        invariant forall k :: k in safeChildren <==> 0 <= k < i
        invariant forall k :: 0 <= k < i ==> children[k] == Moved(s, k)
        invariant forall k :: i <= k < quantity ==> children[k] == s[k]
        invariant excludedCount == Pairs(s, i)
      {
        // The elements up to i are never counted against i.
        safeChildren := safeChildren + [i];
        ghost var before := children[..];
        var j: nat := 0;
        while j < quantity
          invariant j <= quantity == children.Length == |s|
          invariant forall k :: k in safeChildren <==> 0 <= k <= i
          invariant children[..] == before[i := if Row(s, i, j) > 0 then s[i].(parent := Overlapped) else s[i]]
          invariant excludedCount == Pairs(s, i) + Row(s, i, j)
        {
          if i == j {
            // the element itself
          } else if children[j].parent == Node(i) {
            // a direct child of element i
          } else if children[i].position == children[j].position {
            if j !in safeChildren {
              children[i] := children[i].(parent := Overlapped);
              excludedCount := excludedCount + 1;
            }
          }
          j := j + 1;
        }
        i := i + 1;
      }
      forall k | 0 <= k < |s| {
        ExcludedIffRow(s, k);
      }
      assert children[..] == AfterExclusion(s);
    }
  }

  // ---------------------------------------------------------------------------
  // Registry of enabled grids (the static `others` list)

  class Registry {
    /** `None` until the first grid is enabled (the list is created lazily). */
    var others: Option<seq<GhostGrid>>

    constructor ()
      ensures others == None
    {
      others := None;
    }

    function Listed(): seq<GhostGrid>
      reads this
    {
      if others.None? then [] else others.value
    }

    function Members(): set<GhostGrid>
      reads this
    {
      set g | g in Listed()
    }

    /** `OnEnable`: creates the list if needed and registers the grid once. */
    method OnEnable(grid: GhostGrid)
      modifies this
      ensures others == Some(AddIfAbsent(old(Listed()), grid))
      ensures grid in Listed()
      ensures NoDuplicates(old(Listed())) ==> NoDuplicates(Listed())
    {
      if others.None? {
        others := Some([]);
      }
      if grid !in others.value {
        others := Some(others.value + [grid]);
      }
    }

    /**
     * `OnDisable`: unregisters the grid. Before any grid was enabled the list
     * does not exist, and the source dereferences null; that case is reported.
     */
    method OnDisable(grid: GhostGrid) returns (nullDereference: bool)
      modifies this
      ensures nullDereference <==> old(others).None?
      ensures nullDereference ==> others == old(others)
      ensures !nullDereference ==> others == Some(RemoveFirst(old(Listed()), grid))
      ensures NoDuplicates(old(Listed())) ==> NoDuplicates(Listed()) && grid !in Listed()
    {
      if others.None? {
        return true;
      }
      nullDereference := false;
      if grid in others.value {
        others := Some(RemoveFirst(others.value, grid));
      }
    }

    /** `DisableAllGrids`: switches auto snap off on every registered grid. */
    method DisableAllGrids()
      modifies Members()
      ensures forall g :: g in Members() ==> !g.autoSnapEnabled
      ensures forall g :: g in Members() ==> g.gridSize == old(g.gridSize) && g.quantity == old(g.quantity)
    {
      if others.None? {
        return;
      }
      var list := others.value;
      for i := 0 to |list|
        invariant forall k :: 0 <= k < i ==> !list[k].autoSnapEnabled
        invariant forall g :: g in Members() ==> g.gridSize == old(g.gridSize) && g.quantity == old(g.quantity)
      {
        list[i].autoSnapEnabled := false;
      }
    }
  }
}
