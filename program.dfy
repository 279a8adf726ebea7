/**
 * Program.Process: files classified by the file-name patterns are loaded into shared holders and
 * registered, by map name, in a MapInfo as tiles (main pattern, at a transformed grid point) or
 * as the fallback tile (fallback pattern). Every non-empty map is then composited cell by cell
 * into one DirectBitmap and saved as a PNG.
 */
module Merge {
  import opened Arith
  import opened Drawing
  import opened RefCount
  import opened MapInfos
  import opened Png
  import opened Idat
  import opened DirectBitmaps
  import opened Compositing

  // ---------------------------------------------------------------------------------------
  // Map definitions and the coordinate transform
  // ---------------------------------------------------------------------------------------

  /**
   * MapDefinition: whether there is a fallback pattern, and how a parsed (x, y) becomes a grid
   * point. The patterns themselves are not modelled: each file comes already classified.
   */
  datatype MapDefinition = MapDefinition(hasFallback: bool, flipXY: bool, negX: bool, negY: bool)

  /** Mode "1" (UI_Map tiles with a UI_Map..._None fallback). */
  const UiMap: MapDefinition := MapDefinition(true, true, true, true)

  /** Mode "2" (BigWorldTerrain tiles, no fallback). */
  const Terrain: MapDefinition := MapDefinition(false, false, false, true)

  /** Unchecked C# negation of an `int`. */
  function Neg32(n: int): int {
    Wrap32(-n)
  }

  /** On `int` values negation is exact except at int.MinValue, which is its own negation. */
  lemma Neg32Value(n: int)
    requires IsInt32(n)
    ensures Neg32(n) == if n == MinInt32 then MinInt32 else -n
  {
    if n == MinInt32 {
      assert Wrap32(-n) == (-n - MinInt32) % TwoTo32 + MinInt32;
    }
  }

  function Flipped(flip: bool, p: Point): Point {
    if flip then Point(p.y, p.x) else p
  }

  function NegatedX(neg: bool, p: Point): Point {
    if neg then p.(x := Neg32(p.x)) else p
  }

  function NegatedY(neg: bool, p: Point): Point {
    if neg then p.(y := Neg32(p.y)) else p
  }

  /** The grid point of a tile: first the swap, then the negation of x, then that of y. */
  function Transformed(def: MapDefinition, p: Point): Point {
    NegatedY(def.negY, NegatedX(def.negX, Flipped(def.flipXY, p)))
  }

  /** The transform as Process performs it, one reassignment of x or y at a time. */
  method Transform(def: MapDefinition, x0: int, y0: int) returns (x: int, y: int)
    ensures Point(x, y) == Transformed(def, Point(x0, y0))
  {
    x, y := x0, y0;
    if def.flipXY {
      x, y := y, x;
    }
    if def.negX {
      x := Wrap32(-x);
    }
    if def.negY {
      y := Wrap32(-y);
    }
  }

  /** Mode "1" maps the tile (x, y) to the grid point (-y, -x). */
  lemma UiMapTransform(p: Point)
    requires IsInt32(p.x) && IsInt32(p.y) && p.x != MinInt32 && p.y != MinInt32
    ensures Transformed(UiMap, p) == Point(-p.y, -p.x)
  {
    Neg32Value(p.x);
    Neg32Value(p.y);
  }

  /** Mode "2" maps the tile (x, y) to the grid point (x, -y). */
  lemma TerrainTransform(p: Point)
    requires IsInt32(p.x) && IsInt32(p.y) && p.y != MinInt32
    ensures Transformed(Terrain, p) == Point(p.x, -p.y)
  {
    Neg32Value(p.y);
  }

  /** Distinct tiles never land on the same grid point, under any definition. */
  lemma TransformInjective(def: MapDefinition, p: Point, q: Point)
    requires IsInt32(p.x) && IsInt32(p.y) && IsInt32(q.x) && IsInt32(q.y)
    requires Transformed(def, p) == Transformed(def, q)
    ensures p == q
  {
    Neg32Value(p.x);
    Neg32Value(p.y);
    Neg32Value(q.x);
    Neg32Value(q.y);
  }

  /** Both modes' transforms undo themselves, so the grid point determines the file's (x, y). */
  lemma ModesInvolutive(p: Point)
    requires IsInt32(p.x) && IsInt32(p.y)
    ensures Transformed(UiMap, Transformed(UiMap, p)) == p
    ensures Transformed(Terrain, Transformed(Terrain, p)) == p
  {
    Neg32Value(p.x);
    Neg32Value(p.y);
    Neg32Value(Neg32(p.x));
    Neg32Value(Neg32(p.y));
  }

  // ---------------------------------------------------------------------------------------
  // Registration
  // ---------------------------------------------------------------------------------------

  /** A main-pattern match: the map name and the parsed (x, y). */
  datatype Tile = Tile(name: string, x: int, y: int)

  /**
   * One file of the input directory: its image, its main match (absent when the pattern did not
   * match or x or y did not parse) and the map name of its fallback match.
   */
  datatype FileEntry = FileEntry(image: Image, main: Option<Tile>, fallback: Option<string>)

  /**
   * The `bitmaps` dictionary with its keys in insertion order (the order a Dictionary that is
   * never removed from enumerates them in), and the holders created so far, by id.
   */
  datatype Registry = Registry(names: seq<string>, grids: map<string, Grid>, holders: seq<Holder>)

  predicate Distinct(names: seq<string>) {
    forall i, j :: 0 <= i < j < |names| ==> names[i] != names[j]
  }

  ghost predicate RegistryOk(r: Registry) {
    Distinct(r.names) && (forall n :: n in r.grids <==> n in r.names) &&
    (forall n :: n in r.grids ==> RefsWithin(r.grids[n], |r.holders|))
  }

  const EmptyGrid: Grid := Grid(map[], None)

  /** `bitmaps.TryGetValue(name)`, with a new MapInfo when the name is not there yet. */
  function GroupOf(grids: map<string, Grid>, name: string): Grid {
    if name in grids then grids[name] else EmptyGrid
  }

  /** The keys after `bitmaps.Add(name, ...)` for a name not yet there. */
  function Named(names: seq<string>, name: string): seq<string> {
    if name in names then names else names + [name]
  }

  /** `new DisposableHolder<Bitmap>(new Bitmap(file))`: the new holder gets the next id. */
  function AddHolder(r: Registry, image: Image): Registry {
    r.(holders := r.holders + [NewHolder(image)])
  }

  /** `bmp.Increase(); info.Fallback = bmp;` for the map `name`. */
  function AsFallback(r: Registry, name: string, id: nat): Registry
    requires RegistryOk(r) && id < |r.holders|
  {
    var g := GroupOf(r.grids, name);
    var hs := Acquired(r.holders, Some(id));
    Registry(Named(r.names, name), r.grids[name := g.(fallback := Some(id))],
             Acquired(Released(hs, g.fallback), Some(id)))
  }

  /** `bmp.Increase(); info[x, y] = bmp;` for the map `name`. */
  function AsTile(r: Registry, name: string, p: Point, id: nat): Registry
    requires RegistryOk(r) && id < |r.holders|
  {
    var g := GroupOf(r.grids, name);
    Registry(Named(r.names, name), r.grids[name := WithCell(g, p, Some(id))], Acquired(r.holders, Some(id)))
  }

  /** The map name of the fallback match, when the definition has a fallback pattern. */
  function FallbackName(def: MapDefinition, f: FileEntry): Option<string> {
    if def.hasFallback then f.fallback else None
  }

  /** A file is loaded when the main or the fallback pattern matched it. */
  predicate Loaded(def: MapDefinition, f: FileEntry) {
    f.main.Some? || FallbackName(def, f).Some?
  }

  /** Storing grid g under `name` keeps the registry well formed when g refers to known holders. */
  lemma StoreOk(r: Registry, name: string, g: Grid, hs: seq<Holder>)
    requires RegistryOk(r) && |r.holders| <= |hs| && RefsWithin(g, |hs|)
    ensures RegistryOk(Registry(Named(r.names, name), r.grids[name := g], hs))
  {
    var names := Named(r.names, name);
    if name !in r.names {
      forall i, j | 0 <= i < j < |names|
        ensures names[i] != names[j]
      {
        if j == |r.names| {
          assert names[i] == r.names[i];
        }
      }
    }
  }

  /** The new holder's id and shares after AddHolder: the fallback match, if any. */
  function FallbackPhase(def: MapDefinition, r: Registry, f: FileEntry, id: nat): (r': Registry)
    requires RegistryOk(r) && id < |r.holders|
    ensures RegistryOk(r') && |r'.holders| == |r.holders|
  {
    var fb := FallbackName(def, f);
    if fb.Some? then
      var g := GroupOf(r.grids, fb.value);
      StoreOk(r, fb.value, g.(fallback := Some(id)), r.holders);
      AsFallback(r, fb.value, id)
    else r
  }

  /** Then the main match, if any, at its transformed grid point. */
  function TilePhase(def: MapDefinition, r: Registry, f: FileEntry, id: nat): (r': Registry)
    requires RegistryOk(r) && id < |r.holders|
    ensures RegistryOk(r') && |r'.holders| == |r.holders|
  {
    if f.main.Some? then
      var t := f.main.value;
      var p := Transformed(def, Point(t.x, t.y));
      StoreOk(r, t.name, WithCell(GroupOf(r.grids, t.name), p, Some(id)), r.holders);
      AsTile(r, t.name, p, id)
    else r
  }

  /** A new holder keeps the registry well formed. */
  lemma AddHolderOk(r: Registry, image: Image)
    requires RegistryOk(r)
    ensures RegistryOk(AddHolder(r, image))
  {
    var r1 := AddHolder(r, image);
    forall n | n in r1.grids
      ensures RefsWithin(r1.grids[n], |r1.holders|)
    {
      assert RefsWithin(r.grids[n], |r.holders|);
    }
  }

  /** What registering one file does to the registry. */
  function RegisterFile(def: MapDefinition, r: Registry, f: FileEntry): (r': Registry)
    requires RegistryOk(r)
    ensures RegistryOk(r')
    ensures |r'.holders| == |r.holders| + (if Loaded(def, f) then 1 else 0)
  {
    if !Loaded(def, f) then r
    else
      AddHolderOk(r, f.image);
      var id := |r.holders|;
      TilePhase(def, FallbackPhase(def, AddHolder(r, f.image), f, id), f, id)
  }

  /** The registry after all files, in directory order. */
  function RegisterAll(def: MapDefinition, files: seq<FileEntry>): (r: Registry)
    ensures RegistryOk(r)
  {
    if files == [] then Registry([], map[], [])
    else RegisterFile(def, RegisterAll(def, files[..|files| - 1]), files[|files| - 1])
  }

  // ---------------------------------------------------------------------------------------
  // Shares: every holder keeps enough shares for the references to it
  // ---------------------------------------------------------------------------------------

  /**
   * The shares a grid's references to holder `id` account for: one per key holding it, two for
   * the fallback slot (the explicit Increase in Process and the one in the Fallback setter).
   */
  function NeedOf(g: Grid, id: nat): nat {
    |HoldingIn(g.cells, g.cells.Keys, id)| + 2 * FallbackShare(g.fallback, id)
  }

  /** The shares all the named grids account for. */
  function Need(grids: map<string, Grid>, names: seq<string>, id: nat): nat
    decreases |names|
  {
    if names == [] then 0 else NeedOf(GroupOf(grids, names[0]), id) + Need(grids, names[1..], id)
  }

  /**
   * Nothing is disposed yet, and every holder has at least the shares the grids' references to
   * it account for.
   */
  ghost predicate Reserve(r: Registry) {
    forall id :: 0 <= id < |r.holders| ==>
      r.holders[id].disposals == 0 && r.holders[id].count >= Need(r.grids, r.names, id)
  }

  /** No grid refers to holder `id`. */
  ghost predicate Unreferenced(r: Registry, id: nat) {
    forall n :: n in r.grids ==>
      r.grids[n].fallback != Some(id) && forall p :: p in r.grids[n].cells ==> r.grids[n].cells[p] != id
  }

  /** No key of any grid holds `id` (it may be a fallback). */
  ghost predicate NoCellHolds(r: Registry, id: nat) {
    forall n :: n in r.grids ==> forall p :: p in r.grids[n].cells ==> r.grids[n].cells[p] != id
  }

  lemma {:induction false} NeedSnoc(grids: map<string, Grid>, names: seq<string>, n: string, id: nat)
    ensures Need(grids, names + [n], id) == Need(grids, names, id) + NeedOf(GroupOf(grids, n), id)
    decreases |names|
  {
    if names == [] {
      assert Need(grids, [n], id) == NeedOf(GroupOf(grids, n), id) + Need(grids, [], id);
    } else {
      assert (names + [n])[1..] == names[1..] + [n];
      NeedSnoc(grids, names[1..], n, id);
    }
  }

  lemma {:induction false} NeedOutside(grids: map<string, Grid>, names: seq<string>, n: string, g: Grid, id: nat)
    requires n !in names
    ensures Need(grids[n := g], names, id) == Need(grids, names, id)
    decreases |names|
  {
    if names != [] {
      NeedOutside(grids, names[1..], n, g, id);
    }
  }

  lemma {:induction false} NeedUpdate(grids: map<string, Grid>, names: seq<string>, n: string, g: Grid, id: nat)
    requires Distinct(names) && n in names
    ensures Need(grids[n := g], names, id) + NeedOf(GroupOf(grids, n), id) == Need(grids, names, id) + NeedOf(g, id)
    decreases |names|
  {
    if names[0] == n {
      assert n !in names[1..] by {
        forall i | 0 <= i < |names[1..]|
          ensures names[1..][i] != n
        {
          assert names[1..][i] == names[i + 1];
        }
      }
      NeedOutside(grids, names[1..], n, g, id);
    } else {
      NeedUpdate(grids, names[1..], n, g, id);
    }
  }

  /** Replacing the grid of map `n` (adding the name if it is new) changes the need by the difference. */
  lemma NeedReplace(grids: map<string, Grid>, names: seq<string>, n: string, g: Grid, id: nat)
    requires Distinct(names) && (n in grids ==> n in names)
    ensures Need(grids[n := g], Named(names, n), id) + NeedOf(GroupOf(grids, n), id) == Need(grids, names, id) + NeedOf(g, id)
  {
    if n in names {
      NeedUpdate(grids, names, n, g, id);
    } else {
      NeedSnoc(grids[n := g], names, n, id);
      NeedOutside(grids, names, n, g, id);
      assert HoldingIn(EmptyGrid.cells, EmptyGrid.cells.Keys, id) == {};
    }
  }

  lemma {:induction false} NeedAtLeast(grids: map<string, Grid>, names: seq<string>, n: string, id: nat)
    requires n in names
    ensures Need(grids, names, id) >= NeedOf(GroupOf(grids, n), id)
    decreases |names|
  {
    if names[0] != n {
      NeedAtLeast(grids, names[1..], n, id);
    }
  }

  lemma {:induction false} NeedUnreferenced(r: Registry, names: seq<string>, id: nat)
    requires Unreferenced(r, id)
    ensures Need(r.grids, names, id) == 0
    decreases |names|
  {
    if names != [] {
      var g := GroupOf(r.grids, names[0]);
      assert HoldingIn(g.cells, g.cells.Keys, id) == {};
      NeedUnreferenced(r, names[1..], id);
    }
  }

  /** Storing a holder no key held under key p: one more reference to it, one fewer to p's old tile. */
  lemma NeedOfTile(g: Grid, p: Point, id: nat, x: nat)
    requires forall q :: q in g.cells ==> g.cells[q] != id
    ensures NeedOf(WithCell(g, p, Some(id)), x) + (if p in g.cells && g.cells[p] == x then 1 else 0) ==
      NeedOf(g, x) + (if x == id then 1 else 0)
  {
    var c' := WithCell(g, p, Some(id)).cells;
    var before := HoldingIn(g.cells, g.cells.Keys, x);
    var after := HoldingIn(c', c'.Keys, x);
    if x == id {
      assert before == {};
      assert after == {p};
    } else if p in g.cells && g.cells[p] == x {
      assert after == before - {p};
    } else {
      assert after == before;
    }
  }

  lemma NeedOfFallback(g: Grid, id: nat, x: nat)
    ensures NeedOf(g.(fallback := Some(id)), x) + 2 * FallbackShare(g.fallback, x) ==
      NeedOf(g, x) + 2 * FallbackShare(Some(id), x)
  {
  }

  /** The new holder, once registered as a fallback, has two shares and the reserve still holds. */
  lemma FallbackReserve(def: MapDefinition, r: Registry, f: FileEntry, id: nat)
    requires RegistryOk(r) && Reserve(r) && id < |r.holders|
    requires Unreferenced(r, id) && r.holders[id].count == 0
    ensures Reserve(FallbackPhase(def, r, f, id)) && NoCellHolds(FallbackPhase(def, r, f, id), id)
    ensures FallbackPhase(def, r, f, id).holders[id] ==
      r.holders[id].(count := if FallbackName(def, f).Some? then 2 else 0)
  {
    var r' := FallbackPhase(def, r, f, id);
    var fb := FallbackName(def, f);
    if fb.Some? {
      var name := fb.value;
      var g := GroupOf(r.grids, name);
      var g' := g.(fallback := Some(id));
      var hs1 := Acquired(r.holders, Some(id));
      assert r' == AsFallback(r, name, id);
      assert g.fallback != Some(id);
      forall x | 0 <= x < |r'.holders|
        ensures r'.holders[x].disposals == 0 && r'.holders[x].count >= Need(r'.grids, r'.names, x)
      {
        NeedReplace(r.grids, r.names, name, g', x);
        NeedOfFallback(g, id, x);
        if x == id {
          NeedUnreferenced(r, r.names, id);
        } else if g.fallback == Some(x) {
          NeedAtLeast(r.grids, r.names, name, x);
          DecreaseShared(hs1[x]);
        }
      }
    }
  }

  /** The new holder, once stored under a key, has one more share and the reserve still holds. */
  lemma TileReserve(def: MapDefinition, r: Registry, f: FileEntry, id: nat)
    requires RegistryOk(r) && Reserve(r) && id < |r.holders|
    requires NoCellHolds(r, id)
    ensures Reserve(TilePhase(def, r, f, id))
    ensures TilePhase(def, r, f, id).holders[id] ==
      r.holders[id].(count := r.holders[id].count + if f.main.Some? then 1 else 0)
  {
    if f.main.Some? {
      var t := f.main.value;
      var name := t.name;
      var p := Transformed(def, Point(t.x, t.y));
      var g := GroupOf(r.grids, name);
      var g' := WithCell(g, p, Some(id));
      var r' := TilePhase(def, r, f, id);
      assert r' == AsTile(r, name, p, id);
      forall x | 0 <= x < |r'.holders|
        ensures r'.holders[x].disposals == 0 && r'.holders[x].count >= Need(r'.grids, r'.names, x)
      {
        NeedReplace(r.grids, r.names, name, g', x);
        NeedOfTile(g, p, id, x);
      }
    }
  }

  /**
   * Registering a file keeps the reserve. A file that neither pattern matched adds nothing; any
   * other gets a new holder with one share per main match and two for a fallback match.
   */
  lemma RegisterFileReserve(def: MapDefinition, r: Registry, f: FileEntry)
    requires RegistryOk(r) && Reserve(r)
    ensures Reserve(RegisterFile(def, r, f))
    ensures !Loaded(def, f) ==> RegisterFile(def, r, f) == r
    ensures Loaded(def, f) ==> RegisterFile(def, r, f).holders[|r.holders|] == Holder(f.image,
      (if FallbackName(def, f).Some? then 2 else 0) + (if f.main.Some? then 1 else 0), 0)
  {
    if Loaded(def, f) {
      var id := |r.holders|;
      var r1 := AddHolder(r, f.image);
      AddHolderReserve(r, f.image);
      FallbackReserve(def, r1, f, id);
      TileReserve(def, FallbackPhase(def, r1, f, id), f, id);
    }
  }

  /** A new holder: nothing refers to it yet, and the reserve still holds. */
  lemma AddHolderReserve(r: Registry, image: Image)
    requires RegistryOk(r) && Reserve(r)
    ensures RegistryOk(AddHolder(r, image)) && Reserve(AddHolder(r, image))
    ensures Unreferenced(AddHolder(r, image), |r.holders|)
  {
    var r1 := AddHolder(r, image);
    var id := |r.holders|;
    AddHolderOk(r, image);
    assert Unreferenced(r1, id);
    forall x | 0 <= x < |r1.holders|
      ensures r1.holders[x].disposals == 0 && r1.holders[x].count >= Need(r1.grids, r1.names, x)
    {
      if x == id {
        NeedUnreferenced(r1, r1.names, id);
      }
    }
  }

  lemma {:induction false} RegisterAllReserve(def: MapDefinition, files: seq<FileEntry>)
    ensures Reserve(RegisterAll(def, files))
    decreases |files|
  {
    if files != [] {
      RegisterAllReserve(def, files[..|files| - 1]);
      RegisterFileReserve(def, RegisterAll(def, files[..|files| - 1]), files[|files| - 1]);
    }
  }

  // ---------------------------------------------------------------------------------------
  // Registration, imperatively: the dictionary of MapInfo objects and the holders
  // ---------------------------------------------------------------------------------------

  /**
   * The dictionary `bitmaps` as the program holds it: its keys in insertion order, one MapInfo
   * object per key (no two keys share one), with the grids and holders of the registry `r`.
   */
  ghost predicate Tracks(names: seq<string>, groups: map<string, MapInfo>, arena: Arena, r: Registry)
    reads groups.Values, arena
  {
    names == r.names && arena.holders == r.holders &&
    (forall n :: n in groups <==> n in r.grids) &&
    (forall n :: n in groups ==> groups[n].State() == r.grids[n]) &&
    Unshared(groups)
  }

  /** No two keys share a MapInfo object. */
  predicate Unshared(groups: map<string, MapInfo>) {
    forall n, m :: n in groups && m in groups && n != m ==> groups[n] != groups[m]
  }

  /** The registry once `name` is a key: a new map gets an empty grid. */
  function Entered(r: Registry, name: string): (r': Registry)
    requires RegistryOk(r)
    ensures RegistryOk(r') && r'.holders == r.holders && name in r'.grids
  {
    StoreOk(r, name, GroupOf(r.grids, name), r.holders);
    Registry(Named(r.names, name), r.grids[name := GroupOf(r.grids, name)], r.holders)
  }

  /** `bitmaps.TryGetValue(name, out info)`, adding a new MapInfo under `name` when it fails. */
  method GetOrAdd(names: seq<string>, groups: map<string, MapInfo>, arena: Arena, name: string, ghost r: Registry)
    returns (names': seq<string>, groups': map<string, MapInfo>, info: MapInfo)
    requires RegistryOk(r) && Tracks(names, groups, arena, r)
    ensures Tracks(names', groups', arena, Entered(r, name))
    ensures name in groups' && info == groups'[name]
    ensures forall n :: n in groups ==> n in groups' && groups'[n] == groups[n]
    ensures forall n :: n in groups' && n !in groups ==> fresh(groups'[n])
  {
    if name in groups {
      names', groups', info := names, groups, groups[name];
    } else {
      info := new MapInfo();
      names', groups' := names + [name], groups[name := info];
    }
  }

  /** `bmp.Increase()`: one more share of holder `id`; no MapInfo changes. */
  method IncreaseHolder(arena: Arena, id: nat, ghost names: seq<string>, ghost groups: map<string, MapInfo>,
                        ghost r: Registry)
    requires Tracks(names, groups, arena, r) && id < |r.holders|
    modifies arena
    ensures Tracks(names, groups, arena, r.(holders := Acquired(r.holders, Some(id))))
  {
    arena.Increase(id);
  }

  /** `info.Fallback = bmp` on the MapInfo under `name`; the other MapInfo objects keep their state. */
  method SetFallbackOf(info: MapInfo, arena: Arena, id: nat, ghost names: seq<string>,
                       ghost groups: map<string, MapInfo>, ghost r: Registry, ghost name: string)
    requires Tracks(names, groups, arena, r) && name in groups && groups[name] == info
    requires RefsWithin(r.grids[name], |r.holders|) && id < |r.holders|
    modifies info, arena
    ensures Tracks(names, groups, arena, r.(grids := r.grids[name := r.grids[name].(fallback := Some(id))],
      holders := Acquired(Released(r.holders, r.grids[name].fallback), Some(id))))
  {
    info.SetFallback(arena, Some(id));
    forall n | n in groups && n != name
      ensures groups[n].State() == r.grids[n]
    {
      assert groups[n] != info;
    }
  }

  /** `info[x, y] = bmp` on the MapInfo under `name`; the other MapInfo objects keep their state. */
  method SetCellOf(info: MapInfo, arena: Arena, x: int, y: int, id: nat, ghost names: seq<string>,
                   ghost groups: map<string, MapInfo>, ghost r: Registry, ghost name: string)
    requires Tracks(names, groups, arena, r) && name in groups && groups[name] == info
    modifies info
    ensures Tracks(names, groups, arena, r.(grids := r.grids[name := WithCell(r.grids[name], Point(x, y), Some(id))]))
  {
    info.Set(x, y, Some(id));
    forall n | n in groups && n != name
      ensures groups[n].State() == r.grids[n]
    {
      assert groups[n] != info;
    }
  }

  /** Entering `name`, one share for holder `id` and then the Fallback assignment make AsFallback. */
  lemma FallbackStored(r: Registry, name: string, id: nat)
    requires RegistryOk(r) && id < |r.holders|
    ensures var r1 := Entered(r, name);
      var r2 := r1.(holders := Acquired(r1.holders, Some(id)));
      r2.(grids := r2.grids[name := r2.grids[name].(fallback := Some(id))],
          holders := Acquired(Released(r2.holders, r2.grids[name].fallback), Some(id)))
      == AsFallback(r, name, id)
  {
  }

  /** Entering `name`, one share for holder `id` and then the indexer assignment make AsTile. */
  lemma TileStored(r: Registry, name: string, p: Point, id: nat)
    requires RegistryOk(r) && id < |r.holders|
    ensures var r1 := Entered(r, name);
      var r2 := r1.(holders := Acquired(r1.holders, Some(id)));
      r2.(grids := r2.grids[name := WithCell(r2.grids[name], p, Some(id))]) == AsTile(r, name, p, id)
  {
  }

  /** `bmp.Increase(); info.Fallback = bmp;` for the fallback match, if any. */
  method StoreFallback(def: MapDefinition, f: FileEntry, arena: Arena, names: seq<string>,
                       groups: map<string, MapInfo>, id: nat, ghost r: Registry)
    returns (names': seq<string>, groups': map<string, MapInfo>)
    requires RegistryOk(r) && Tracks(names, groups, arena, r) && id < |r.holders|
    modifies arena, groups.Values
    ensures Tracks(names', groups', arena, FallbackPhase(def, r, f, id))
    ensures forall n :: n in groups ==> n in groups' && groups'[n] == groups[n]
    ensures forall n :: n in groups' && n !in groups ==> fresh(groups'[n])
  {
    names', groups' := names, groups;
    var fallback := FallbackName(def, f);
    if fallback.Some? {
      var name := fallback.value;
      var info;
      names', groups', info := GetOrAdd(names, groups, arena, name, r);
      ghost var r1 := Entered(r, name);
      IncreaseHolder(arena, id, names', groups', r1);
      ghost var r2 := r1.(holders := Acquired(r1.holders, Some(id)));
      SetFallbackOf(info, arena, id, names', groups', r2, name);
      FallbackStored(r, name, id);
      assert FallbackPhase(def, r, f, id) == AsFallback(r, name, id);
    }
  }

  /** `bmp.Increase(); info[x, y] = bmp;` for the main match, if any, at its transformed point. */
  method StoreTile(def: MapDefinition, f: FileEntry, arena: Arena, names: seq<string>,
                   groups: map<string, MapInfo>, id: nat, ghost r: Registry)
    returns (names': seq<string>, groups': map<string, MapInfo>)
    requires RegistryOk(r) && Tracks(names, groups, arena, r) && id < |r.holders|
    modifies arena, groups.Values
    ensures Tracks(names', groups', arena, TilePhase(def, r, f, id))
    ensures forall n :: n in groups ==> n in groups' && groups'[n] == groups[n]
    ensures forall n :: n in groups' && n !in groups ==> fresh(groups'[n])
  {
    names', groups' := names, groups;
    if f.main.Some? {
      var x, y := Transform(def, f.main.value.x, f.main.value.y);
      var name := f.main.value.name;
      var info;
      names', groups', info := GetOrAdd(names, groups, arena, name, r);
      ghost var r1 := Entered(r, name);
      IncreaseHolder(arena, id, names', groups', r1);
      ghost var r2 := r1.(holders := Acquired(r1.holders, Some(id)));
      SetCellOf(info, arena, x, y, id, names', groups', r2, name);
      TileStored(r, name, Point(x, y), id);
      assert TilePhase(def, r, f, id) == AsTile(r, name, Point(x, y), id);
    }
  }

  /**
   * The body of the first loop of Process for one file: a file either pattern matched is loaded
   * into a new holder, registered as a fallback and then as a tile.
   */
  method RegisterOne(def: MapDefinition, f: FileEntry, arena: Arena, names: seq<string>,
                     groups: map<string, MapInfo>, ghost r: Registry)
    returns (names': seq<string>, groups': map<string, MapInfo>)
    requires RegistryOk(r) && Tracks(names, groups, arena, r)
    modifies arena, groups.Values
    ensures Tracks(names', groups', arena, RegisterFile(def, r, f))
    ensures forall n :: n in groups ==> n in groups' && groups'[n] == groups[n]
    ensures forall n :: n in groups' && n !in groups ==> fresh(groups'[n])
  {
    names', groups' := names, groups;
    if f.main.Some? || FallbackName(def, f).Some? {
      var id := arena.Add(f.image);
      AddHolderOk(r, f.image);
      ghost var r1 := AddHolder(r, f.image);
      var names1, groups1 := StoreFallback(def, f, arena, names, groups, id, r1);
      names', groups' := StoreTile(def, f, arena, names1, groups1, id, FallbackPhase(def, r1, f, id));
    }
  }

  /** The first loop of Process: every file of the directory, in order. */
  method Register(def: MapDefinition, files: seq<FileEntry>)
    returns (arena: Arena, names: seq<string>, groups: map<string, MapInfo>)
    ensures Tracks(names, groups, arena, RegisterAll(def, files))
    ensures fresh(arena) && forall n :: n in groups ==> fresh(groups[n])
  {
    arena := new Arena();
    names, groups := [], map[];
    var i := 0;
    while i < |files|
      invariant 0 <= i <= |files|
      invariant fresh(arena) && forall n :: n in groups ==> fresh(groups[n])
      invariant Tracks(names, groups, arena, RegisterAll(def, files[..i]))
    {
      assert files[..i + 1][..i] == files[..i];
      names, groups := RegisterOne(def, files[i], arena, names, groups, RegisterAll(def, files[..i]));
      i := i + 1;
    }
    assert files[..|files|] == files;
  }

  // ---------------------------------------------------------------------------------------
  // Merging: every map with a stored tile becomes one PNG file
  // ---------------------------------------------------------------------------------------

  /** The approxIDATSize Process passes to SavePNG: 16 MiB. */
  const IdatChunkSize: int := 16777216

  /** One saved map: its name, its size in cells and in pixels, and the bytes of its PNG file. */
  datatype Output = Output(name: string, columns: int, rows: int, width: int, height: int, png: seq<byte>)

  /**
   * Process's `int` arithmetic is exact for the map: the cell size is positive and the merged
   * image has at most int.MaxValue pixels.
   */
  ghost predicate Fits(g: Grid, images: seq<Image>)
    requires RefsWithin(g, |images|)
  {
    g.cells != map[] ==> FitsAt(Box(g.cells.Keys).0, Box(g.cells.Keys).1, UnitSizeOf(g, images).value)
  }

  /** A merged image from lt to rb in cells of `size` pixels has at most int.MaxValue pixels. */
  predicate FitsAt(lt: Point, rb: Point, size: int) {
    lt.x <= rb.x && lt.y <= rb.y && 0 < size && ((rb.x - lt.x + 1) * size) * ((rb.y - lt.y + 1) * size) <= MaxInt32
  }

  ghost predicate AllFit(r: Registry) {
    RegistryOk(r) && forall n :: n in r.grids ==> Fits(r.grids[n], Images(r.holders))
  }

  /**
   * The output for a grid drawn in the rectangle of grid points from `lt` to `rb`, in cells of
   * `size` pixels.
   */
  ghost function MergedAt(name: string, g: Grid, images: seq<Image>, resample: Resampler, deflate: Deflate, crc: Crc32,
                          lt: Point, rb: Point, size: int): Output
    requires RefsWithin(g, |images|) && lt.x <= rb.x && lt.y <= rb.y && 0 < size
  {
    var columns, rows := rb.x - lt.x + 1, rb.y - lt.y + 1;
    MulMonotone(1, columns, 1, size);
    MulMonotone(1, rows, 1, size);
    var w, h := columns * size, rows * size;
    Output(name, columns, rows, w, h, PngFile(Composite(g, images, resample, lt, size, w, h), w, h, deflate, IdatChunkSize, crc))
  }

  /**
   * The output for the map `name`, which has a stored tile: the bounding box of its keys, one
   * cell per grid point in it, each cell as large as the longest tile side.
   */
  ghost function Merged(name: string, g: Grid, images: seq<Image>, resample: Resampler, deflate: Deflate,
                        crc: Crc32): Output
    requires RefsWithin(g, |images|) && g.cells != map[] && Fits(g, images)
  {
    MergedAt(name, g, images, resample, deflate, crc, Box(g.cells.Keys).0, Box(g.cells.Keys).1,
             UnitSizeOf(g, images).value)
  }

  /** The outputs for the maps `names`, in order; a map with no stored tile has none. */
  ghost function MergedAll(r: Registry, names: seq<string>, resample: Resampler, deflate: Deflate, crc: Crc32): seq<Output>
    requires AllFit(r) && forall n :: n in names ==> n in r.grids
    decreases |names|
  {
    if names == [] then []
    else
      var n := names[|names| - 1];
      var done := MergedAll(r, names[..|names| - 1], resample, deflate, crc);
      if r.grids[n].cells == map[] then done
      else done + [Merged(n, r.grids[n], Images(r.holders), resample, deflate, crc)]
  }

  /**
   * The shares a map leaves behind once the loop has passed it: a skipped map (no stored tile)
   * keeps all of them, a merged map those of its fallback, which Dispose releases only once.
   */
  function KeptOf(g: Grid, id: nat): nat {
    if g.cells == map[] then NeedOf(g, id) else FallbackShare(g.fallback, id)
  }

  function Kept(grids: map<string, Grid>, names: seq<string>, id: nat): nat
    decreases |names|
  {
    if names == [] then 0 else Kept(grids, names[..|names| - 1], id) + KeptOf(GroupOf(grids, names[|names| - 1]), id)
  }

  /** The shares holder `id` still has to have after the first i maps. */
  function Owed(grids: map<string, Grid>, names: seq<string>, i: nat, id: nat): nat
    requires i <= |names|
  {
    Need(grids, names[i..], id) + Kept(grids, names[..i], id)
  }

  /** Every holder still owed shares is undisposed and has at least those shares. */
  ghost predicate Live(hs: seq<Holder>, grids: map<string, Grid>, names: seq<string>, i: nat)
    requires i <= |names|
  {
    forall id :: 0 <= id < |hs| && Owed(grids, names, i, id) > 0 ==>
      hs[id].disposals == 0 && hs[id].count >= Owed(grids, names, i, id)
  }

  /** Passing map i trades the shares it needs for the shares it keeps. */
  lemma OwedStep(grids: map<string, Grid>, names: seq<string>, i: nat, id: nat)
    requires i < |names|
    ensures Owed(grids, names, i + 1, id) + NeedOf(GroupOf(grids, names[i]), id) ==
      Owed(grids, names, i, id) + KeptOf(GroupOf(grids, names[i]), id)
  {
    assert names[i..][1..] == names[i + 1..];
    assert names[..i + 1][..i] == names[..i];
  }

  /** Before the loop, the reserve the registration built is what is owed. */
  lemma LiveStart(r: Registry)
    requires Reserve(r)
    ensures Live(r.holders, r.grids, r.names, 0)
  {
    assert r.names[0..] == r.names;
  }

  /** A map with no stored tile is skipped: the holders stay as they are. */
  lemma LiveSkip(hs: seq<Holder>, grids: map<string, Grid>, names: seq<string>, i: nat)
    requires i < |names| && Live(hs, grids, names, i) && GroupOf(grids, names[i]).cells == map[]
    ensures Live(hs, grids, names, i + 1)
  {
    forall id | 0 <= id < |hs| && Owed(grids, names, i + 1, id) > 0
      ensures hs[id].disposals == 0 && hs[id].count >= Owed(grids, names, i + 1, id)
    {
      OwedStep(grids, names, i, id);
    }
  }

  /** Every holder a key refers to is owed a share. */
  lemma NeedOfHeld(g: Grid, p: Point)
    requires p in g.cells
    ensures NeedOf(g, g.cells[p]) >= 1
  {
    assert p in HoldingIn(g.cells, g.cells.Keys, g.cells[p]);
  }

  /**
   * A map with a stored tile is merged: every tile it shows is undisposed, and after its Dispose
   * every holder owed shares still has them.
   */
  lemma LiveMerge(hs: seq<Holder>, grids: map<string, Grid>, names: seq<string>, i: nat)
    requires i < |names| && Live(hs, grids, names, i)
    requires GroupOf(grids, names[i]).cells != map[] && RefsWithin(GroupOf(grids, names[i]), |hs|)
    ensures Alive(GroupOf(grids, names[i]), hs)
    ensures Live(ReleasedAll(GroupOf(grids, names[i]), hs), grids, names, i + 1)
  {
    var g := GroupOf(grids, names[i]);
    forall p | p in g.cells
      ensures hs[g.cells[p]].disposals == 0
    {
      NeedOfHeld(g, p);
      OwedStep(grids, names, i, g.cells[p]);
    }
    if g.fallback.Some? {
      OwedStep(grids, names, i, g.fallback.value);
    }
    var hs' := ReleasedAll(g, hs);
    forall id | 0 <= id < |hs'| && Owed(grids, names, i + 1, id) > 0
      ensures hs'[id].disposals == 0 && hs'[id].count >= Owed(grids, names, i + 1, id)
    {
      OwedStep(grids, names, i, id);
      if Shares(g, id) == 0 {
        assert hs'[id] == DecreasedN(hs[id], 0);
      } else {
        ReleasedAllShares(g, hs, id);
      }
    }
  }

  lemma {:induction false} KeptAtLeast(grids: map<string, Grid>, names: seq<string>, n: string, id: nat)
    requires n in names
    ensures Kept(grids, names, id) >= KeptOf(GroupOf(grids, n), id)
    decreases |names|
  {
    if names[|names| - 1] != n {
      assert n in names[..|names| - 1] by {
        var k :| 0 <= k < |names| && names[k] == n;
        assert names[..|names| - 1][k] == n;
      }
      KeptAtLeast(grids, names[..|names| - 1], n, id);
    }
  }

  /** Holder `id` is some map's fallback. */
  ghost predicate IsFallback(r: Registry, id: nat) {
    exists n :: n in r.grids && r.grids[n].fallback == Some(id)
  }

  /** After the loop, every fallback still holds a share, so its value was never disposed. */
  lemma FallbackKept(hs: seq<Holder>, r: Registry, id: nat)
    requires RegistryOk(r) && Live(hs, r.grids, r.names, |r.names|)
    requires id < |hs| && IsFallback(r, id)
    ensures hs[id].disposals == 0
  {
    var n :| n in r.grids && r.grids[n].fallback == Some(id);
    KeptAtLeast(r.grids, r.names, n, id);
    assert r.names[|r.names|..] == [];
    assert r.names[..|r.names|] == r.names;
  }

  /** One more map: its output, if it has a stored tile, follows those of the maps before it. */
  lemma MergedAllSnoc(r: Registry, names: seq<string>, i: nat, resample: Resampler, deflate: Deflate, crc: Crc32)
    requires AllFit(r) && i < |names| && forall n :: n in names ==> n in r.grids
    ensures forall n :: n in names[..i] ==> n in r.grids
    ensures forall n :: n in names[..i + 1] ==> n in r.grids
    ensures MergedAll(r, names[..i + 1], resample, deflate, crc) == MergedAll(r, names[..i], resample, deflate, crc) +
      if r.grids[names[i]].cells == map[] then []
      else [Merged(names[i], r.grids[names[i]], Images(r.holders), resample, deflate, crc)]
  {
    assert names[..i + 1][..i] == names[..i];
  }

  /** `info.Dispose()` on a MapInfo whose grid is g, with the holders at hs. */
  method Release(info: MapInfo, arena: Arena, ghost g: Grid, ghost hs: seq<Holder>)
    requires info.State() == g && arena.holders == hs && RefsWithin(g, |hs|)
    modifies arena
    ensures arena.holders == ReleasedAll(g, hs)
  {
    info.Dispose(arena);
  }

  /** new DirectBitmap(width, height) for the bounding box, with every cell drawn into it. */
  method Render(info: MapInfo, arena: Arena, lt: Point, rb: Point, size: int, resample: Resampler)
    returns (dbmp: DirectBitmap)
    requires FitsAt(lt, rb, size)
    requires RefsWithin(info.State(), |arena.holders|) && Alive(info.State(), arena.holders)
    ensures fresh(dbmp) && fresh(dbmp.bits) && dbmp.Valid() && !dbmp.disposed
    ensures dbmp.width == (rb.x - lt.x + 1) * size && dbmp.height == (rb.y - lt.y + 1) * size
    ensures dbmp.bits[..] == Composite(info.State(), Images(arena.holders), resample, lt, size, dbmp.width, dbmp.height)
  {
    var columns, rows := rb.x - lt.x + 1, rb.y - lt.y + 1;
    MulMonotone(1, columns, 1, size);
    MulMonotone(1, rows, 1, size);
    dbmp := new DirectBitmap(columns * size, rows * size);
    Compose(dbmp, info, arena, lt, rb, size, resample);
  }

  /** The using block around File.Create and SavePNG, then the disposal of the bitmap. */
  method Save(dbmp: DirectBitmap, deflate: Deflate, crc: Crc32) returns (data: seq<byte>)
    requires dbmp.Valid()
    modifies dbmp
    ensures dbmp.Valid() && dbmp.disposed
    ensures data == PngFile(old(dbmp.bits[..]), dbmp.width, dbmp.height, deflate, IdatChunkSize, crc)
  {
    var fs := new OutputStream();
    dbmp.SavePNG(fs, deflate, IdatChunkSize, crc);
    ghost var file := PngFile(dbmp.bits[..], dbmp.width, dbmp.height, deflate, IdatChunkSize, crc);
    assert fs.data == [] + file;
    assert [] + file == file;
    data := fs.data;
    dbmp.Dispose();
  }

  /**
   * The body of the second loop of Process for a map with a stored tile: the merged image is
   * composed, the MapInfo disposed, and the image saved as a PNG.
   */
  method SaveMerged(name: string, info: MapInfo, arena: Arena, resample: Resampler, deflate: Deflate, crc: Crc32)
    returns (output: Output)
    requires RefsWithin(info.State(), |arena.holders|) && info.cells != map[]
    requires Fits(info.State(), Images(arena.holders)) && Alive(info.State(), arena.holders)
    modifies arena
    ensures output == Merged(name, old(info.State()), Images(old(arena.holders)), resample, deflate, crc)
    ensures arena.holders == ReleasedAll(old(info.State()), old(arena.holders))
  {
    ghost var g, images := info.State(), Images(arena.holders);
    var lt, rb := info.LTRB();
    var size := info.UnitSize(Images(arena.holders)).value;
    assert lt == Box(g.cells.Keys).0 && rb == Box(g.cells.Keys).1;
    var dbmp := Render(info, arena, lt, rb, size, resample);
    ghost var pixels := dbmp.bits[..];
    assert pixels == Composite(g, images, resample, lt, size, dbmp.width, dbmp.height);
    assert |pixels| == dbmp.width * dbmp.height;
    assert dbmp.bits as object != arena && arena != dbmp as object;
    Release(info, arena, g, old(arena.holders));
    assert dbmp.bits[..] == pixels;
    var data := Save(dbmp, deflate, crc);
    assert data == PngFile(pixels, dbmp.width, dbmp.height, deflate, IdatChunkSize, crc);
    output := Output(name, rb.x - lt.x + 1, rb.y - lt.y + 1, dbmp.width, dbmp.height, data);
    assert output == MergedAt(name, g, images, resample, deflate, crc, lt, rb, size);
  }

  /** The body of the second loop of Process: a map with no stored tile is skipped. */
  method MergeOne(name: string, info: MapInfo, arena: Arena, resample: Resampler, deflate: Deflate, crc: Crc32,
                  ghost names: seq<string>, ghost i: nat, ghost r: Registry)
    returns (output: Option<Output>)
    requires AllFit(r) && i < |names| && names == r.names && names[i] == name && name in r.grids
    requires info.State() == r.grids[name] && Images(arena.holders) == Images(r.holders)
    requires Live(arena.holders, r.grids, names, i)
    modifies arena
    ensures Images(arena.holders) == Images(r.holders) && Live(arena.holders, r.grids, names, i + 1)
    ensures output == if r.grids[name].cells == map[] then None
      else Some(Merged(name, r.grids[name], Images(r.holders), resample, deflate, crc))
  {
    if info.IsEmpty() {
      LiveSkip(arena.holders, r.grids, names, i);
      return None;
    }
    LiveMerge(arena.holders, r.grids, names, i);
    var merged := SaveMerged(name, info, arena, resample, deflate, crc);
    output := Some(merged);
  }

  /**
   * Process: registers every file, then merges every map with a stored tile, in the order its
   * name was first seen. Every fallback's value is left undisposed.
   */
  method Process(def: MapDefinition, files: seq<FileEntry>, resample: Resampler, deflate: Deflate, crc: Crc32)
    returns (outputs: seq<Output>, ghost released: seq<Holder>)
    requires AllFit(RegisterAll(def, files))
    ensures outputs == MergedAll(RegisterAll(def, files), RegisterAll(def, files).names, resample, deflate, crc)
    ensures |released| == |RegisterAll(def, files).holders|
    ensures forall id :: 0 <= id < |released| && IsFallback(RegisterAll(def, files), id) ==> released[id].disposals == 0
  {
    ghost var r := RegisterAll(def, files);
    RegisterAllReserve(def, files);
    var arena, names, groups := Register(def, files);
    LiveStart(r);
    outputs := [];
    var i := 0;
    while i < |names|
      invariant 0 <= i <= |names| && names == r.names
      invariant forall n :: n in groups <==> n in r.grids
      invariant forall n :: n in groups ==> groups[n].State() == r.grids[n]
      invariant Images(arena.holders) == Images(r.holders)
      invariant Live(arena.holders, r.grids, names, i)
      invariant outputs == MergedAll(r, names[..i], resample, deflate, crc)
    {
      var name := names[i];
      var output := MergeOne(name, groups[name], arena, resample, deflate, crc, names, i, r);
      MergedAllSnoc(r, names, i, resample, deflate, crc);
      if output.Some? {
        outputs := outputs + [output.value];
      }
      i := i + 1;
    }
    released := arena.holders;
    assert names[..|names|] == names;
    forall id | 0 <= id < |released| && IsFallback(r, id)
      ensures released[id].disposals == 0
    {
      FallbackKept(released, r, id);
    }
  }
}
