# GhostGrid, modelled in Dafny

GhostGrid is a Unity editor tool for laying out level pieces on a grid. This
project models the tool's engine-independent logic and proves what that logic
promises:

- **Grid** (`grid.dfy`, `vectors.dfy`). `GhostGrid.GetSnapVector` moves each
  axis to its nearest multiple of the cell size. `SnapAll` snaps the transforms
  in hierarchy order, parents before children. Setting a transform's position
  carries its whole subtree along, so a child is snapped from where its
  parent's move left it. `ExcludeOverlappedChildren` moves children that share a position onto
  an "Overlapped" holder and counts the overlapping pairs. The static `others`
  registry holds the enabled grids.
- **Virtual ground** (`ground.dfy`). `GhostGround` keeps a list of ground
  positions without duplicates. It collects the elements standing on those
  positions and finds each element's corner and its outer layer ("side") on
  every axis. `Grow` adds a layer in a direction. `Reduce` removes the side
  that faces a direction.
- **Autotiler** (`tiler.dfy`). `GhostGridTiler.TileAll` probes the four
  neighbours of every collider. A first-match chain maps each up/right/down/left
  mask to a tile kind. Each tile is named by its index, left-padded to width 4.
- **Adjacent selection** (`selection.dfy`). `Select2D` grows the editor
  selection to every connected brother collider: a reachability closure over
  the "around" relation, limited to one parent. The X and Y line commands
  and the Left, Right, Up and Down commands filter that closure.
- **Shared list idioms** (`collections.dfy`). The C# list idioms the tool uses:
  a `Contains`-guarded `Add`, `Remove`, and LINQ `Aggregate`.

Scene objects are natural-number indices. Positions are exact `real` vectors.
Unity's physics queries (`Physics.OverlapSphere`, `Physics2D.Raycast`,
`Physics2D.OverlapCircleAll`) are injected as maps from positions or queries
to the colliders they return. Methods that create or destroy objects return
the positions to instantiate or the objects to destroy.

Where the loop's behaviour and the comment beside it disagree, the model
follows the code. In `ExcludeOverlappedChildren`, the comment at
`GhostGrid.cs:124` says the first child at a position is the safe one. The
loop actually keeps the last one and moves the earlier ones.

## Model

| member | source | states |
|---|---|---|
| Vectors.Round | GhostGrid.cs:99-101 | defines `Mathf.Round` as the floor of `r + 1/2`; its properties are `RoundNearest` and `RoundInteger` |
| Vectors.SnapAxis | GhostGrid.cs:99-101 | defines one axis of `GetSnapVector`, `Round(a / g) * g`; its properties are the `SnapAxis…` lemmas |
| Vectors.SnapVector | GhostGrid.cs:97-104 | defines `GetSnapVector` axis by axis; its properties are `SnapVectorNearest` and `SnapVectorIdempotent` |
| Vectors.RoundNearest | GhostGrid.cs:99-101 | `Round(r)` is within 1/2 of `r`, and no integer is closer to `r` |
| Vectors.RoundInteger | GhostGrid.cs:99-101 | rounding an integer returns it |
| Vectors.SnapAxisOnGrid | GhostGrid.cs:97-104 | the snapped value of one axis is an integer multiple of the cell size |
| Vectors.SnapAxisWithinHalf | GhostGrid.cs:97-104 | one snapped axis moves by at most half a cell |
| Vectors.SnapAxisNearest | GhostGrid.cs:97-104 | no multiple of the cell size is closer to the input than the snapped axis |
| Vectors.SnapAxisKeepsGridValue | GhostGrid.cs:97-104 | a value already on the grid is not moved |
| Vectors.SnapVectorNearest | GhostGrid.cs:97-104 | the snapped vector is a grid point, within half a cell of the input on every axis, and no grid point is closer on any axis |
| Vectors.SnapVectorIdempotent | GhostGrid.cs:99-101 | snapping an already snapped vector returns it unchanged |
| Vectors.FirstNonZero | GhostGround.cs:229-258 | the x, then y, then z sign dispatch: no heading exactly for the zero vector; otherwise the chosen axis is non-zero, every earlier axis is zero, and the sign matches |
| Grid.MoveTo | GhostGrid.cs:88 | defines setting a transform's world position: it and every transform below it shift by the same offset |
| Grid.MoveToFacts | GhostGrid.cs:88 | setting a transform's position puts it exactly there, moves every transform below it by the same offset, and changes nothing else, parent links included |
| Grid.MoveToKeepsEarlier | GhostGrid.cs:83-88 | a move never reaches a transform listed before the moved one, because children come after their parents |
| Grid.SnapLoop | GhostGrid.cs:86-89 | defines the hierarchy after the first n iterations of the loop, each moving transform i to the snap of its current position |
| Grid.Snapped | GhostGrid.cs:79-91 | defines the hierarchy after the whole loop; its properties are the lemmas below |
| Grid.SnapLoopKeepsParents | GhostGrid.cs:86-89 | the loop never changes a parent link |
| Grid.SnapLoopSettled | GhostGrid.cs:86-89 | after n iterations, every transform before n is where its own iteration put it: later iterations only move transforms after it |
| Grid.SnappedOnGrid | GhostGrid.cs:83-89 | every transform ends on a grid point: the nearest one to, and within half a cell of, where the moves of its ancestors had left it |
| Grid.RootSnapsInPlace | GhostGrid.cs:86-89 | a transform with no ancestor in the list is snapped from its own starting position |
| Grid.SnapLoopAhead | GhostGrid.cs:86-89 | earlier iterations leave a transform without ancestors in the list untouched |
| Grid.ChildFollowsParent | GhostGrid.cs:86-89 | with cell 1, a root at x = 0.45 and its child at 0.9 both end at 0: the child moves 0.9, more than half a cell |
| Grid.SnapLoopOnGrid | GhostGrid.cs:86-89 | on a hierarchy already on grid points, the loop moves nothing |
| Grid.SnappedIdempotent | GhostGrid.cs:79-91 | a second `SnapAll` changes nothing |
| Grid.Hides | GhostGrid.cs:128-148 | defines the pairs the inner loop counts: a later transform at the same position whose parent is not the earlier one (earlier ones are already in `safeChildren`) |
| Grid.Excluded | GhostGrid.cs:141-148 | defines which transforms are moved: those hidden by some later transform |
| Grid.OverlapPairs | GhostGrid.cs:117-154 | defines the returned count as the number of hiding pairs; related to the moves by `ExclusionsAtMostPairs` and `NoPairsIffNoExclusion` |
| Grid.AfterExclusion | GhostGrid.cs:122-151 | exclusion keeps every position; a child's parent becomes the holder exactly when the child is excluded, and is unchanged otherwise |
| Grid.ExcludedIffRow | GhostGrid.cs:122-151 | child i is excluded iff the inner loop finds a later child at the same position whose parent is not i |
| Grid.ExclusionsAtMostPairs | GhostGrid.cs:141-154 | the number of moved children never exceeds the returned pair count |
| Grid.NoPairsIffNoExclusion | GhostGrid.cs:141-154 | the returned count is 0 exactly when no child is moved |
| Grid.DistinctPositionsStay | GhostGrid.cs:111-155 | with all positions distinct, the count is 0 and no child changes |
| Grid.SurvivorAtPosition | GhostGrid.cs:122-151 | no position is emptied: some transform at or after i at i's position keeps its parent |
| Grid.LastAtPositionStays | GhostGrid.cs:122-151 | the last transform at a position is never moved and comes out unchanged |
| Grid.PairsCanExceedExclusions | GhostGrid.cs:117-154 | three children at one point give 3 pairs but only 2 moved children |
| Grid.ParentKeepsChildAtSamePosition | GhostGrid.cs:135-137 | a direct parent and its child at one position are not an overlap |
| Grid.GhostGrid.constructor | GhostGrid.cs:31-35 | default cell size 1, quantity 0, auto-snap off |
| Grid.GhostGrid.SnapAll | GhostGrid.cs:79-91 | with cell size <= 0 nothing changes; otherwise quantity is the child count and the children become `Snapped`: each is moved to the snap of its current position in list order, its subtree following it |
| Grid.GhostGrid.ExcludeOverlappedChildren | GhostGrid.cs:111-155 | the children become `AfterExclusion` of the old children, and the count returned is the number of overlapping pairs |
| Grid.Registry.constructor | GhostGrid.cs:38 | the registry starts out not created |
| Grid.Registry.OnEnable | GhostGrid.cs:57-65 | creates the list if needed and adds the grid only if absent, so the list stays duplicate-free |
| Grid.Registry.OnDisable | GhostGrid.cs:68-73 | reports the null dereference exactly when the list was never created; otherwise removes the first occurrence, so the grid is gone from a duplicate-free list |
| Grid.Registry.DisableAllGrids | GhostGrid.cs:229-240 | every registered grid has auto-snap off; nothing else of theirs changes |
| Collections.Subsequence | GhostGround.cs:97-117 | defines "keeps the order": `r` is `s` with some elements dropped (what a LINQ `Where` returns) |
| Collections.SubsequenceFacts | GhostGround.cs:97-117 | a subsequence is no longer than the list, holds only its elements, and has no duplicates when the list has none |
| Collections.AddIfAbsent | GhostGround.cs:124-128 | defines the `Contains`-guarded `Add`; its properties are `AddIfAbsentFacts` |
| Collections.AddIfAbsentFacts | GhostGround.cs:124-128 | a `Contains`-guarded `Add` holds the old elements plus the new one, extends the list by at most one, and keeps it duplicate-free |
| Collections.RemoveFirst | GhostGrid.cs:72 | `List.Remove` shortens the list by one when the element is present, leaves it alone otherwise, and removes exactly that element from a duplicate-free list |
| Collections.AppendAbsent | GhostGround.cs:219-220 | defines the guarded `Add` applied to each value in turn |
| Collections.AppendAbsentMembers | GhostGround.cs:219-220 | adding many values with the guard gives exactly the old and the new values |
| Collections.AppendAbsentExtends | GhostGround.cs:219-220 | the guarded additions keep the old list as a prefix and keep it duplicate-free |
| Collections.Extremum | GhostGround.cs:97-117 | defines the `Aggregate` fold that keeps the accumulator only when it strictly beats the next value |
| Collections.ExtremumIsExtreme | GhostGround.cs:97-117 | the `Aggregate` fold returns one of the values, and no value lies beyond it |
| Ground.Collected | GhostGround.cs:66-76 | defines the gathered list: the first collider at each ground position, added when absent |
| Ground.CollectedMembers | GhostGround.cs:66-76 | an element is collected exactly when it is the first collider found at some ground position |
| Ground.CollectedNoDuplicates | GhostGround.cs:66-76 | the collected elements hold no duplicates |
| Ground.Corner | GhostGround.cs:85-91 | defines the corner `Aggregate` whose comparator keeps the accumulator when it is smaller (larger for the upper corner) on any one of x, y or z |
| Ground.CornerIsElement | GhostGround.cs:85-91 | each corner is one of the collected elements |
| Ground.CornerOnRow | GhostGround.cs:85-87 | on a single row along x, the min and max corners are the smallest and largest x |
| Ground.AtCoordMembers | GhostGround.cs:97-117 | the `Where` filter keeps exactly the elements at the given coordinate, in their original order |
| Ground.Side | GhostGround.cs:97-117 | defines a side as the elements at the extreme coordinate of an axis |
| Ground.SideIsOuterLayer | GhostGround.cs:97-117 | each side is non-empty, keeps the elements' order (a subsequence) and their freedom from duplicates, and holds exactly the elements that no element lies beyond on its axis and direction |
| Ground.GrowTargets | GhostGround.cs:202-211 | defines the cells visited: the snapped neighbour of each element that still exists |
| Ground.GrowTargetsMembers | GhostGround.cs:202-211 | the grow targets are exactly the snapped neighbours of the existing elements |
| Ground.FreeCells | GhostGround.cs:213-216 | defines the free cells: the targets where the overlap query finds nothing |
| Ground.FreeCellsMembers | GhostGround.cs:213-216 | the candidates are exactly the targets where nothing is found |
| Ground.PointsAtMembers | GhostGround.cs:229-258 | the `Where` filter keeps exactly the positions at the given coordinate, in their original order |
| Ground.FrontLayer | GhostGround.cs:228-258 | defines the filter chain on the first non-zero axis of the direction |
| Ground.FrontLayerIsNearest | GhostGround.cs:225-258 | the filtered candidates are a subsequence of the candidates, non-empty when there are any; a zero direction keeps all; otherwise exactly the candidates nearest the ground along the growth axis are kept |
| Ground.Victims | GhostGround.cs:287-306 | defines the queue: for each live side element, its position's first collider once per collider there |
| Ground.VictimsMembers | GhostGround.cs:287-306 | only the first collider at a live side element's position is queued, and every such collider is queued |
| Ground.Behind | GhostGround.cs:299 | defines the behind cell: the snapped position one cell against the direction |
| Ground.Behinds | GhostGround.cs:294-305 | defines one behind cell per queued collider, in order |
| Ground.ReduceQueuesFirstColliderTwice | GhostGround.cs:294-305 | two colliders at one position make `Reduce` queue the first one twice |
| Ground.GatherElements | GhostGround.cs:66-76 | the gather loop computes `Collected` of the positions |
| Ground.ScanGrowth | GhostGround.cs:202-221 | the grow loop yields the free targets and the positions extended by every target, in order, without repeats |
| Ground.QueueFirst | GhostGround.cs:294-305 | one position's inner loop queues the first collider once per collider and records its behind position each time |
| Ground.QueueVictims | GhostGround.cs:287-306 | the reduce loop queues `Victims` of the side and records a behind position for each queued collider |
| Ground.GhostGround.constructor | GhostGround.cs:16-32 | starts with cell size 1 and no positions or elements |
| Ground.GhostGround.SetupGrid | GhostGround.cs:55-60 | stores the given positions and cell size |
| Ground.GhostGround.AddGroundPosition | GhostGround.cs:124-128 | adds the position only when absent: the old order is kept as a prefix and a duplicate-free list stays so |
| Ground.GhostGround.CollectElements | GhostGround.cs:63-118 | the elements become `Collected` of the positions; with none found, corners and sides are left as they were; otherwise corners and all six sides agree with the new elements |
| Ground.LayersShape | GhostGround.cs:85-117 | for a non-empty element list, both corners are elements and every side is non-empty and keeps the elements' order |
| Ground.GhostGround.UpdateLayers | GhostGround.cs:85-117 | corners and all six sides are recomputed from the current elements (`Corner` and `Side`); both corners are elements, and each side is a non-empty subsequence of the elements |
| Ground.GhostGround.Grow | GhostGround.cs:197-264 | the positions are extended by every grow target; what is spawned is the front layer of the free targets, so nothing when none is free |
| Ground.GhostGround.Reduce | GhostGround.cs:270-312 | destroys `Victims` of the side chosen by the first non-zero axis, records their behind positions, and does nothing for the zero direction |
| Tiler.Classify | Tools/GhostGridTiler.cs:101-129 | every one of the 16 masks gets a tile kind, and each kind is chosen exactly under the mask condition of its branch |
| Tiler.DecimalString | Tools/GhostGridTiler.cs:134 | defines `i + ""`: the decimal digits without leading zeros |
| Tiler.DecimalDigits | Tools/GhostGridTiler.cs:134 | an index's decimal string is non-empty and all digits |
| Tiler.DecimalRoundTrip | Tools/GhostGridTiler.cs:134 | parsing the decimal string of `n` gives `n` back |
| Tiler.DecimalWidth | Tools/GhostGridTiler.cs:134 | a number below 10^k has at most k digits |
| Tiler.PadLeft | Tools/GhostGridTiler.cs:134 | defines `String.PadLeft` |
| Tiler.PadLeftShape | Tools/GhostGridTiler.cs:134 | `PadLeft` gives the longer of the string and the width, the string at the end, and spaces before it |
| Tiler.TrimPadLeft | Tools/GhostGridTiler.cs:134 | stripping the leading spaces from a padded string that did not start with one gives the string back |
| Tiler.TileName | Tools/GhostGridTiler.cs:134 | defines a tile's name: its index, padded to 4 |
| Tiler.TileNameRoundTrip | Tools/GhostGridTiler.cs:134 | a tile's index can be read back from its name |
| Tiler.TileNamesDistinct | Tools/GhostGridTiler.cs:134 | different indices give different names |
| Tiler.TileNameWidth | Tools/GhostGridTiler.cs:134 | below 10000 a name is exactly 4 characters: spaces, then the decimal index |
| Tiler.ProbeIgnoresSelf | Tools/GhostGridTiler.cs:82-97 | a probe cast with only collider i disabled hits iff its ray crosses a collider other than i |
| Tiler.TileAt | Tools/GhostGridTiler.cs:74-136 | defines collider i's tile: the kind its four probes select, at its snapped origin, named after i |
| Tiler.TilesUpTo | Tools/GhostGridTiler.cs:71-137 | defines the tiles of the first n iterations, a mask with no kind adding none, as `tile != null` does |
| Tiler.TilesOnePerCollider | Tools/GhostGridTiler.cs:71-137 | the first n probe iterations make n tiles, tile k being collider k's |
| Tiler.EnableAll | Tools/GhostGridTiler.cs:59-61 | every collider under the target is enabled |
| Tiler.ProbeAll | Tools/GhostGridTiler.cs:71-137 | the probe loop makes one tile per collider, each probed with only its own collider disabled, and leaves every collider enabled |
| Tiler.GhostGridTiler.constructor | Tools/GhostGridTiler.cs:13-19 | the inspector defaults: layer 0, z layer -5, snap 3.99 |
| Tiler.GhostGridTiler.TileAll | Tools/GhostGridTiler.cs:33-159 | with no colliders it returns 0 and tiles nothing; otherwise it sets the layer, tiles every collider, leaves all colliders enabled, deactivates the target, adds the grid, and returns the collider count |
| Tiler.TileAllNamesDistinct | Tools/GhostGridTiler.cs:71-137 | one tile per collider, and no two tiles share a name |
| Selection.FirstBrothers | GhostGridSelection.cs:48-57 | defines the first-brothers list, one filtered batch per selected object |
| Selection.FirstBrothersMembers | GhostGridSelection.cs:48-57 | the first brothers are exactly the objects around some selected object that share its parent |
| Selection.GatherBrothers | GhostGridSelection.cs:48-57 | the first-brothers loop computes `FirstBrothers` |
| Selection.Round | GhostGridSelection.cs:64-80 | defines one detection pass: the count, the grown selection and the grown checked list |
| Selection.RoundFound | GhostGridSelection.cs:61-80 | after a round, the selection holds the old one plus every brother under the parent around a probed object |
| Selection.RoundDetects | GhostGridSelection.cs:76-84 | a round detects something exactly when it adds a new object |
| Selection.RoundChecked | GhostGridSelection.cs:67-69 | after a round, the checked objects are the old ones plus the probed ones |
| Selection.RoundExtends | GhostGridSelection.cs:72-79 | a round only appends, and the selection never holds duplicates |
| Selection.RoundShrinks | GhostGridSelection.cs:61-89 | a round that detects something leaves fewer objects unselected, so the loop ends |
| Selection.Expand | GhostGridSelection.cs:61-89 | defines the `while (true)` loop: rounds until one detects nothing, each next one over the unchecked objects |
| Selection.ExpandNoDuplicates | GhostGridSelection.cs:72-79 | the final selection holds no duplicates |
| Selection.ExpandSiblings | GhostGridSelection.cs:73 | every selected object shares the first selected object's parent |
| Selection.ExpandClosed | GhostGridSelection.cs:61-89 | on termination, every brother around every checked or selected object is selected |
| Selection.ExpandLeast | GhostGridSelection.cs:61-89 | the selection lies inside any set that is closed under brothers and contains the first brothers' brothers |
| Selection.ProbeRound | GhostGridSelection.cs:64-80 | one pass of the detection loop computes `Round` |
| Selection.ExpandSelection | GhostGridSelection.cs:59-89 | the `while` loop computes `Expand` from the first brothers |
| Selection.Closure | GhostGridSelection.cs:47-89 | defines the closure: `Expand` from the first brothers with empty lists |
| Selection.ClosureIsLeast | GhostGridSelection.cs:22-95 | the result is duplicate-free, holds only children of the parent, is closed under brothers, and is the least such set |
| Selection.Select2D | GhostGridSelection.cs:22-96 | no parent or no selection gives null; a missing collider fails; otherwise the selection becomes the closure and is returned |
| Selection.AtLevelMembers | GhostGridSelection.cs:109-114 | the per-object filter keeps exactly the closure objects level with it, in their closure order |
| Selection.Along | GhostGridSelection.cs:109-114 | defines the X/Y result: one filtered batch per selected object, appended |
| Selection.AlongMembers | GhostGridSelection.cs:109-114 | an object is kept exactly when it is in the closure and level with some selected object |
| Selection.AlongRepeats | GhostGridSelection.cs:109-114 | an object level with two selected objects is selected twice |
| Selection.GatherAlong | GhostGridSelection.cs:109-114 | the loop computes `Along` |
| Selection.Select2DLine | GhostGridSelection.cs:100-140 | a null closure is dereferenced; an empty closure stays selected; otherwise the selection becomes the closure filtered by each selected object's row (X command) or column (Y command) |
| Selection.Beside | GhostGridSelection.cs:144-196 | defines the side filter as `Where` over the coordinate test of the variant |
| Selection.BesideMembers | GhostGridSelection.cs:144-196 | the side filter keeps exactly the closure objects on that side of the active object, and all of them when all are on it |
| Selection.BesideKeepsOrder | GhostGridSelection.cs:144-196 | the side filter keeps the closure's order (a subsequence), so it never makes the selection longer |
| Selection.Select2DAll | GhostGridSelection.cs:144-196 | with no parent or no selection the selection is left unchanged; a missing collider fails; with no active object a non-empty closure fails; otherwise the selection becomes the closure filtered to the side |
| Selection.EditorSelection.constructor | GhostGridSelection.cs:25 | the editor selection holds the given objects and active object |

## Left out

- Floating point: coordinates are exact reals. `v / g * g` is not rounded and `Vector3 ==` is exact.
- Vectors.Round: halfway cases round up, while Unity's `Mathf.Round` rounds them to the even integer. The nearest-integer and identity-on-integers properties hold either way.
- Vectors.SnapVector and every member that snaps require a non-zero cell size. The source divides by it and gets infinities or NaN, which are not modelled.
- Grid.GhostGrid.ExcludeOverlappedChildren: the "Overlapped" holder is assumed to lie outside the grid's hierarchy. `GetOrCreateTransform` is not part of this model, and neither are the holder's parent, z placement and layer.
- Grid.GhostGrid: `quantity` and the excluded count are unbounded integers, where the source uses 32-bit `int` that could wrap.
- The `Update` per-frame hook, the menu items and their validation, `Debug.Log`, and the editor-only purge and snap-selected commands are user interface, so they are not modelled.
- Ground: the overlap radius (`OverlapSphereRatio`) and the layer masks are folded into the injected scene queries. `SetupGrid`'s layer argument is not stored.
- Ground.GhostGround.CollectElements: the corner comparator at `GhostGround.cs:86-87` is not an order. Beyond being an element, a corner is specified only for elements on one row along x.
- Ground.GhostGround.Grow and Ground.GhostGround.Reduce: the scene does not change while they run. Spawns and destroys are returned for the caller to perform, and the `onInstantiate` / `onDestroy` callbacks are not modelled.
- Ground.GhostGround.SetupGrid: stores a copy of the positions. The source keeps the caller's `List` itself, so `AddGroundPosition`, `Grow` and `Reduce` also grow the caller's list; that aliasing is not modelled.
- Ground: `DestroyAllElements`, `Fill`, `SetMaterial`, the re-check inside `InstantiateElement`, and the `GhostGround.g` singleton lookup are not modelled. Only the operations above are.
- Ground: a destroyed (null) element is modelled as not alive and is skipped, as the `== null` checks do. Otherwise, positions of elements that no longer exist are not modelled.
- Tiler.GhostGridTiler.TileAll: requires that there is not exactly one collider. With one collider, the read of `colliders[1]` at `Tools/GhostGridTiler.cs:65` throws.
- Tiler.GhostGridTiler.TileAll: the random prefab variant and the random z offset come from `Random.Range`. The z offsets are a parameter, and the prefab choice is not modelled.
- Tiler: the tiles and the generated grid are returned as values. Which object the tiles hang under is not modelled. The ray length is modelled as `colliders[1]`'s half width times 1.2 (`RayLength`); which colliders a ray crosses is injected.
- Tiler.GhostGridTiler.TileAll: the existing tile parent is destroyed and a new one is created (`Tools/GhostGridTiler.cs:52-54`, via `GetOrCreateTransform`). The model keeps no tile parent, so this replacement is not modelled.
- Tiler.GhostGridTiler.TileAll: the tile parent's GameObject layer is set to the target's layer (`Tools/GhostGridTiler.cs:56`). This is not modelled; `TileGrid.layer` is the ray mask given to the generated grid, not that layer.
- Tiler.GhostGridTiler.TileAll: the source sets a `layer` on the generated `GhostGrid`, but the class in `GhostGrid.cs` declares no such field. The model records the layer, cell size and z on a `TileGrid` value instead of a `GhostGrid` object.
- Tiler.Classify: the chain ends in "no tile" after its last branch, and the contract proves that case never happens.
- Selection.Select2D: the enabling of the parent's colliders (`GhostGridSelection.cs:31-33`) and the circle radius are folded into the injected "around" relation. Colliders are not restored, as in the source.
- Selection: how Unity recomputes the active object after `Selection.objects` is assigned is not modelled. The active object is an input.
- Loops over scene data (gathering, growing, queueing, probing and the selection rounds) live in their own methods beside the classes, over values. The class methods call them and assign their fields once.
