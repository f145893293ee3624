/**
 * Tools/GhostGridTiler.cs: replaces every 2D collider under a target object
 * by a tile whose kind depends on which of its four neighbours are present.
 *
 * The colliders are records holding their position and their half width; the
 * `enabled` flag of each one is an array that `TileAll` toggles. A
 * `Physics2D.Raycast` is answered by a `Physics` value listing, for each
 * query, the colliders the ray crosses; the ray reports a hit when one of
 * them is enabled. The z offsets drawn by `Random.Range` are a parameter; the
 * prefab variant it draws is not modelled.
 */
module Tiler {
  import opened Collections
  import opened Vectors

  // ---------------------------------------------------------------------------
  // Classification

  /** Which neighbours the four rays found: `surrounded.x`, `.y`, `.z` and `.w`. */
  datatype Mask = Mask(up: bool, right: bool, down: bool, left: bool)

  /** The six prefab lists a tile is drawn from. */
  datatype TileKind = UpLeft | UpMiddle | UpRight | Center | Down | Alone

  /**
   * The first-match-wins `if`/`else if` chain of `TileAll`. No tile is made
   * when no branch matches; every one of the 16 masks matches one, and the
   * contract gives each kind the exact set of masks that selects it.
   */
  function Classify(m: Mask): (k: Option<TileKind>)
    ensures k.Some?
    ensures k == Some(UpLeft) <==> !m.up && m.right && !m.left
    ensures k == Some(UpMiddle) <==> !m.up && ((m.right && m.left) || (!m.right && m.down && !m.left))
    ensures k == Some(UpRight) <==> !m.up && !m.right && m.left
    ensures k == Some(Alone) <==> !m.up && !m.right && !m.down && !m.left
    ensures k == Some(Center) <==> m.up && m.down
    ensures k == Some(Down) <==> m.up && !m.down
  {
    if !m.up && m.right && !m.left then Some(UpLeft)
    else if !m.up && m.right && m.left then Some(UpMiddle)
    else if !m.up && !m.right && m.left then Some(UpRight)
    else if !m.up && !m.right && m.down && !m.left then Some(UpMiddle)
    else if !m.up && !m.right && !m.down && !m.left then Some(Alone)
    else if m.up && m.down then Some(Center)
    else if m.up then Some(Down)
    else None
  }

  // ---------------------------------------------------------------------------
  // Tile names: `(i + "").PadLeft(4)`

  /** The decimal digit for `d`. */
  function Digit(d: nat): char
    requires d < 10
  {
    (48 + d) as char
  }

  /** `int.ToString()` of a non-negative number: its decimal digits, without leading zeros. */
  function DecimalString(n: nat): string {
    if n < 10 then [Digit(n)] else DecimalString(n / 10) + [Digit(n % 10)]
  }

  /** Reads a string of decimal digits back as a number. */
  function ParseDecimal(s: string): nat {
    if s == [] then 0
    else
      var d := s[|s| - 1] as int - 48;
      ParseDecimal(s[..|s| - 1]) * 10 + (if 0 <= d then d else 0)
  }

  function Pow10(k: nat): nat {
    if k == 0 then 1 else 10 * Pow10(k - 1)
  }

  /** The decimal string is not empty and holds digits only. */
  lemma {:induction false} DecimalDigits(n: nat)
    ensures |DecimalString(n)| >= 1
    ensures forall c :: c in DecimalString(n) ==> '0' <= c <= '9'
  {
    if n >= 10 {
      DecimalDigits(n / 10);
    }
  }

  /** Parsing the decimal string gives the number back. */
  lemma {:induction false} DecimalRoundTrip(n: nat)
    ensures ParseDecimal(DecimalString(n)) == n
  {
    if n >= 10 {
      DecimalRoundTrip(n / 10);
      var s := DecimalString(n);
      assert s[..|s| - 1] == DecimalString(n / 10);
    }
  }

  /** A number below `10^k` has at most `k` digits. */
  lemma {:induction false} DecimalWidth(n: nat, k: nat)
    requires 1 <= k && n < Pow10(k)
    ensures |DecimalString(n)| <= k
  {
    if n >= 10 {
      DecimalWidth(n / 10, k - 1);
    }
  }

  /** `String.PadLeft(width)`: spaces in front of `s` up to `width` characters. */
  function PadLeft(s: string, width: nat): string
    decreases width - |s|
  {
    if |s| >= width then s else PadLeft([' '] + s, width)
  }

  /** The padded string ends with `s`, holds only spaces before it, and has `width` characters unless `s` is longer. */
  lemma {:induction false} PadLeftShape(s: string, width: nat)
    ensures var r := PadLeft(s, width);
      |r| == (if |s| >= width then |s| else width) &&
      r[|r| - |s|..] == s &&
      forall k :: 0 <= k < |r| - |s| ==> r[k] == ' '
    decreases width - |s|
  {
    if |s| < width {
      PadLeftShape([' '] + s, width);
      var r := PadLeft(s, width);
      assert r[|r| - |s| - 1..] == [' '] + s;
      assert r[|r| - |s|..] == r[|r| - |s| - 1..][1..];
    }
  }

  /** Drops the spaces at the front of `s`. */
  function TrimLeadingSpaces(s: string): string {
    if s != [] && s[0] == ' ' then TrimLeadingSpaces(s[1..]) else s
  }

  /** Trimming removes exactly the spaces put in front of a string that does not start with one. */
  lemma {:induction false} TrimSpaces(spaces: string, s: string)
    requires forall k :: 0 <= k < |spaces| ==> spaces[k] == ' '
    requires s == [] || s[0] != ' '
    ensures TrimLeadingSpaces(spaces + s) == s
  {
    if spaces != [] {
      TrimSpaces(spaces[1..], s);
      assert (spaces + s)[1..] == spaces[1..] + s;
    }
  }

  /** Trimming undoes the padding of a string that does not start with a space. */
  lemma TrimPadLeft(s: string, width: nat)
    requires s == [] || s[0] != ' '
    ensures TrimLeadingSpaces(PadLeft(s, width)) == s
  {
    PadLeftShape(s, width);
    var r := PadLeft(s, width);
    assert r == r[..|r| - |s|] + s;
    TrimSpaces(r[..|r| - |s|], s);
  }

  /** The name a tile gets: its loop index, in decimal, right-aligned in four characters. */
  function TileName(i: nat): string {
    PadLeft(DecimalString(i), 4)
  }

  /** Recovers the index from a tile name. */
  function ParseTileName(name: string): nat {
    ParseDecimal(TrimLeadingSpaces(name))
  }

  /** The index can be read back from the name. */
  lemma TileNameRoundTrip(i: nat)
    ensures ParseTileName(TileName(i)) == i
  {
    DecimalDigits(i);
    assert DecimalString(i)[0] in DecimalString(i);
    TrimPadLeft(DecimalString(i), 4);
    DecimalRoundTrip(i);
  }

  /** Tiles with different indices get different names. */
  lemma TileNamesDistinct(i: nat, j: nat)
    requires i != j
    ensures TileName(i) != TileName(j)
  {
    TileNameRoundTrip(i);
    TileNameRoundTrip(j);
  }

  /** Below 10000 a name is four characters: spaces, then the digits of the index. */
  lemma TileNameWidth(i: nat)
    requires i < 10000
    ensures |TileName(i)| == 4
    ensures TileName(i)[4 - |DecimalString(i)|..] == DecimalString(i)
    ensures forall k :: 0 <= k < 4 - |DecimalString(i)| ==> TileName(i)[k] == ' '
  {
    assert Pow10(1) == 10 && Pow10(2) == 100 && Pow10(3) == 1000;
    assert Pow10(4) == 10000;
    DecimalWidth(i, 4);
    PadLeftShape(DecimalString(i), 4);
  }

  // ---------------------------------------------------------------------------
  // Probing

  /** The four directions `TileAll` casts a ray in. */
  datatype Ray = RayUp | RayRight | RayDown | RayLeft

  /** A `Physics2D.Raycast(origin, direction, length, layer)` call. */
  datatype Query = Query(origin: Vec3, ray: Ray, length: real, layer: bv32)

  /**
   * For each query, the colliders its ray crosses, none when absent. Indices
   * below the number of colliders under the target name those colliders; any
   * other index is a collider elsewhere in the scene, which stays enabled.
   */
  datatype Physics = Physics(crossed: map<Query, seq<nat>>)

  /** A collider under the target: its position and its half width (`bounds.extents.x`). */
  datatype Collider = Collider(position: Vec3, extentX: real)

  function Crossed(physics: Physics, q: Query): seq<nat> {
    if q in physics.crossed then physics.crossed[q] else []
  }

  /** The ray hits something: an enabled collider lies on it. */
  predicate Raycast(physics: Physics, q: Query, enabled: seq<bool>) {
    exists c :: c in Crossed(physics, q) && (c < |enabled| ==> enabled[c])
  }

  /** The enabled flags while collider `i` is being probed: every collider but `i`. */
  function AllBut(n: nat, i: nat): seq<bool> {
    seq(n, k => k != i)
  }

  /** A probe never sees the collider that casts it, and sees every other one. */
  lemma ProbeIgnoresSelf(physics: Physics, q: Query, n: nat, i: nat)
    requires i < n
    ensures Raycast(physics, q, AllBut(n, i)) <==> exists c :: c in Crossed(physics, q) && c != i
  {
    if exists c :: c in Crossed(physics, q) && c != i {
      var c :| c in Crossed(physics, q) && c != i;
      assert c < n ==> AllBut(n, i)[c];
    }
  }

  /** The snapped probe origin of collider `i`: its position with the drawn z. */
  function ProbeOrigin(colliders: seq<Collider>, zs: seq<real>, g: real, i: nat): Vec3
    requires g != 0.0 && i < |colliders| && i < |zs|
  {
    SnapVector(colliders[i].position.(z := zs[i]), g)
  }

  /** The mask the four rays of collider `i` give while only `i` is disabled. */
  function ProbeMask(physics: Physics, origin: Vec3, length: real, layer: bv32, n: nat, i: nat): Mask {
    var flags := AllBut(n, i);
    Mask(Raycast(physics, Query(origin, RayUp, length, layer), flags),
         Raycast(physics, Query(origin, RayRight, length, layer), flags),
         Raycast(physics, Query(origin, RayDown, length, layer), flags),
         Raycast(physics, Query(origin, RayLeft, length, layer), flags))
  }

  /** A tile made by `TileAll`: its prefab list, where it is placed, and its name. */
  datatype Tile = Tile(kind: TileKind, position: Vec3, name: string)

  /** Everything a probe depends on besides the collider's index. */
  datatype Probing = Probing(colliders: seq<Collider>, zs: seq<real>, physics: Physics, length: real, layer: bv32, g: real)

  predicate WellFormed(p: Probing) {
    |p.zs| == |p.colliders| && p.g != 0.0
  }

  /** The mask collider `i`'s four probes find, from its snapped origin. */
  function MaskAt(p: Probing, i: nat): Mask
    requires WellFormed(p) && i < |p.colliders|
  {
    ProbeMask(p.physics, ProbeOrigin(p.colliders, p.zs, p.g, i), p.length, p.layer, |p.colliders|, i)
  }

  /**
   * The tile made for collider `i`: the kind its mask selects, at its snapped
   * origin, named after `i`. `Classify` covers every mask, so there always is one.
   */
  function TileAt(p: Probing, i: nat): Tile
    requires WellFormed(p) && i < |p.colliders|
  {
    Tile(Classify(MaskAt(p, i)).value, ProbeOrigin(p.colliders, p.zs, p.g, i), TileName(i))
  }

  /** The tiles made for the first `n` colliders, in order; a mask with no kind adds none. */
  function TilesUpTo(p: Probing, n: nat): seq<Tile>
    requires WellFormed(p) && n <= |p.colliders|
  {
    if n == 0 then []
    else if Classify(MaskAt(p, n - 1)).Some? then TilesUpTo(p, n - 1) + [TileAt(p, n - 1)]
    else TilesUpTo(p, n - 1)
  }

  /** Some branch of the chain always matches, so collider `n` adds its tile to those before it. */
  lemma TilesUpToSnoc(p: Probing, n: nat)
    requires WellFormed(p) && n < |p.colliders|
    ensures TilesUpTo(p, n + 1) == TilesUpTo(p, n) + [TileAt(p, n)]
  {
  }

  /** Every collider gets exactly one tile, in index order. */
  lemma {:induction false} TilesOnePerCollider(p: Probing, n: nat)
    requires WellFormed(p) && n <= |p.colliders|
    ensures |TilesUpTo(p, n)| == n
    ensures forall k :: 0 <= k < n ==> TilesUpTo(p, n)[k] == TileAt(p, k)
  {
    if n > 0 {
      TilesOnePerCollider(p, n - 1);
      TilesUpToSnoc(p, n - 1);
      var all, prev := TilesUpTo(p, n), TilesUpTo(p, n - 1);
      forall k | 0 <= k < n
        ensures all[k] == TileAt(p, k)
      {
        if k < n - 1 {
          assert all[k] == prev[k];
        } else {
          assert all[k] == TileAt(p, n - 1);
        }
      }
    }
  }

  /** The length of every ray: the second collider's half width, plus a fifth of it. */
  function RayLength(colliders: seq<Collider>): real
    requires |colliders| >= 2
  {
    colliders[1].extentX * 1.2
  }

  // ---------------------------------------------------------------------------
  // The loops of TileAll

  /** `for (i...) colliders[i].enabled = true;` */
  method EnableAll(enabled: array<bool>)
    modifies enabled
    ensures forall k :: 0 <= k < enabled.Length ==> enabled[k]
  {
    for i := 0 to enabled.Length
      invariant forall k :: 0 <= k < i ==> enabled[k]
    {
      enabled[i] := true;
    }
  }

  /**
   * The probing loop: collider `i` is disabled for its four rays and enabled
   * again, and the tile its mask selects is made and named after `i`.
   */
  method ProbeAll(p: Probing, enabled: array<bool>) returns (tiles: seq<Tile>)
    requires WellFormed(p) && enabled.Length == |p.colliders|
    requires forall k :: 0 <= k < enabled.Length ==> enabled[k]
    modifies enabled
    ensures forall k :: 0 <= k < enabled.Length ==> enabled[k]
    ensures tiles == TilesUpTo(p, |p.colliders|)
  {
    var n := |p.colliders|;
    tiles := [];
    for i := 0 to n
      invariant forall k :: 0 <= k < n ==> enabled[k]
      invariant tiles == TilesUpTo(p, i)
    {
      var origin := SnapVector(p.colliders[i].position.(z := p.zs[i]), p.g);
      enabled[i] := false;
      assert enabled[..] == AllBut(n, i);
      var up := Raycast(p.physics, Query(origin, RayUp, p.length, p.layer), enabled[..]);
      var right := Raycast(p.physics, Query(origin, RayRight, p.length, p.layer), enabled[..]);
      var down := Raycast(p.physics, Query(origin, RayDown, p.length, p.layer), enabled[..]);
      var left := Raycast(p.physics, Query(origin, RayLeft, p.length, p.layer), enabled[..]);
      enabled[i] := true;
      match Classify(Mask(up, right, down, left))
      case Some(kind) =>
        tiles := tiles + [Tile(kind, origin, TileName(i))];
      case None =>
    }
  }

  // ---------------------------------------------------------------------------
  // The component

  /** The `GhostGrid` added to the tiles' parent, and the parent's z. */
  datatype TileGrid = TileGrid(layer: bv32, gridSize: real, z: real)

  class GhostGridTiler {
    var childrenCount: int
    var layer: bv32
    var zLayer: real
    var snapToGrid: real
    /** Whether the target object is active. */
    var targetActive: bool
    /** The grid made by the last tiling, if any. */
    var generated: Option<TileGrid>

    constructor ()
      ensures childrenCount == 0 && layer == 0 && zLayer == -5.0 && snapToGrid == 3.99
      ensures !targetActive && generated == None
    {
      childrenCount := 0;
      layer := 0;
      zLayer := -5.0;
      snapToGrid := 3.99;
      targetActive := false;
      generated := None;
    }

    /**
     * `TileAll`: tiles the colliders under the target in index order and
     * returns how many there are. The ray length is read from the second
     * collider, so a single collider is outside what the code can handle.
     */
    method TileAll(colliders: seq<Collider>, enabled: array<bool>, zs: seq<real>, physics: Physics, targetLayer: nat)
      returns (count: int, tiles: seq<Tile>)
      requires enabled.Length == |colliders| == |zs|
      requires |colliders| != 1
      requires targetLayer < 32
      requires snapToGrid != 0.0
      modifies this, enabled
      ensures count == childrenCount == |colliders|
      ensures zLayer == old(zLayer) && snapToGrid == old(snapToGrid)
      ensures |colliders| == 0 ==>
        tiles == [] && targetActive && layer == old(layer) && generated == old(generated)
      ensures |colliders| > 0 ==> layer == if old(layer) == 0 then 1 << targetLayer else old(layer)
      ensures |colliders| > 0 ==> !targetActive && generated == Some(TileGrid(layer, snapToGrid, zLayer))
      ensures |colliders| > 0 ==> forall k :: 0 <= k < enabled.Length ==> enabled[k]
      ensures |colliders| > 0 ==>
        tiles == TilesUpTo(Probing(colliders, zs, physics, RayLength(colliders), layer, snapToGrid), |colliders|)
    {
      targetActive := true;
      childrenCount := |colliders|;
      if |colliders| < 1 {
        return 0, [];
      }
      EnableAll(enabled);
      var rayLength := colliders[1].extentX * 1.2;
      var mask := if layer == 0 then 1 << targetLayer else layer;
      var p := Probing(colliders, zs, physics, rayLength, mask, snapToGrid);
      tiles := ProbeAll(p, enabled);
      layer, targetActive, generated := mask, false, Some(TileGrid(mask, snapToGrid, zLayer));
      assert p == Probing(colliders, zs, physics, RayLength(colliders), layer, snapToGrid);
      count := childrenCount;
    }
  }

  /** The probing loop makes one tile per collider and names them all differently. */
  lemma TileAllNamesDistinct(p: Probing)
    requires WellFormed(p)
    ensures |TilesUpTo(p, |p.colliders|)| == |p.colliders|
    ensures forall a, b :: 0 <= a < b < |p.colliders| ==>
      TilesUpTo(p, |p.colliders|)[a].name != TilesUpTo(p, |p.colliders|)[b].name
  {
    TilesOnePerCollider(p, |p.colliders|);
    forall a, b | 0 <= a < b < |p.colliders|
      ensures TilesUpTo(p, |p.colliders|)[a].name != TilesUpTo(p, |p.colliders|)[b].name
    {
      TileNamesDistinct(a, b);
    }
  }
}
