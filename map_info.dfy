/**
 * MapInfo: the tiles of one map, keyed by grid point, plus an optional fallback tile shown
 * where no tile is stored. Tiles are holders in an Arena, referred to by id; a holder id can
 * sit under several keys and in several grids.
 */
module MapInfos {
  import opened Arith
  import opened Drawing
  import opened RefCount

  /** The contents of a MapInfo: `_map` and the Fallback slot. */
  datatype Grid = Grid(cells: map<Point, nat>, fallback: Option<nat>)

  /** Every holder id the grid refers to is below n. */
  predicate RefsWithin(g: Grid, n: nat) {
    (forall p :: p in g.cells ==> g.cells[p] < n) && (g.fallback.Some? ==> g.fallback.value < n)
  }

  /** The indexer's getter: the tile stored at p, or the fallback when there is none. */
  function Lookup(g: Grid, p: Point): Option<nat> {
    if p in g.cells then Some(g.cells[p]) else g.fallback
  }

  /** The indexer's setter: stores a tile at p, or removes the entry at p for null. */
  function WithCell(g: Grid, p: Point, value: Option<nat>): Grid {
    if value.Some? then g.(cells := g.cells[p := value.value]) else g.(cells := g.cells - {p})
  }

  /** After setting p, p shows the new tile (the fallback if it was removed); nothing else moves. */
  lemma LookupAfterSet(g: Grid, p: Point, value: Option<nat>, q: Point)
    ensures Lookup(WithCell(g, p, value), q) ==
      if q != p then Lookup(g, q) else if value.Some? then value else g.fallback
    ensures WithCell(g, p, value).fallback == g.fallback
  {
  }

  /** `holder?.Decrease()` on the arena. */
  function Released(hs: seq<Holder>, o: Option<nat>): (r: seq<Holder>)
    requires o.Some? ==> o.value < |hs|
    ensures |r| == |hs|
    ensures forall id :: 0 <= id < |hs| && o != Some(id) ==> r[id] == hs[id]
  {
    if o.Some? then hs[o.value := Decreased(hs[o.value])] else hs
  }

  /** `holder?.Increase()` on the arena. */
  function Acquired(hs: seq<Holder>, o: Option<nat>): (r: seq<Holder>)
    requires o.Some? ==> o.value < |hs|
    ensures |r| == |hs|
    ensures forall id :: 0 <= id < |hs| && o != Some(id) ==> r[id] == hs[id]
  {
    if o.Some? then hs[o.value := Increased(hs[o.value])] else hs
  }

  /**
   * Setting the Fallback to the holder it already holds, when that holder has one share left,
   * disposes the holder and then keeps it as the fallback, dead.
   */
  lemma ReassignLastShare(hs: seq<Holder>, id: nat)
    requires id < |hs| && hs[id].count == 1
    ensures Acquired(Released(hs, Some(id)), Some(id))[id] == Holder(hs[id].value, -1, hs[id].disposals + 1)
  {
  }

  /** Replacing the Fallback by another holder moves one share from the old one to the new one. */
  lemma ReplaceFallback(hs: seq<Holder>, old_: nat, new_: nat)
    requires old_ < |hs| && new_ < |hs| && old_ != new_
    requires hs[old_].count >= 2 && hs[new_].count >= 0
    ensures Acquired(Released(hs, Some(old_)), Some(new_))[old_] == hs[old_].(count := hs[old_].count - 1)
    ensures Acquired(Released(hs, Some(old_)), Some(new_))[new_] == hs[new_].(count := hs[new_].count + 1)
  {
  }

  /** The keys among `keys` whose tile is holder `id`. */
  function HoldingIn(cells: map<Point, nat>, keys: set<Point>, id: nat): set<Point> {
    set p | p in keys && p in cells && cells[p] == id
  }

  /** 1 when the fallback slot holds `id`. */
  function FallbackShare(fallback: Option<nat>, id: nat): nat {
    if fallback == Some(id) then 1 else 0
  }

  /** How many Decrease calls Dispose makes on holder `id`: one per key holding it, one for the fallback. */
  function Shares(g: Grid, id: nat): nat {
    |HoldingIn(g.cells, g.cells.Keys, id)| + FallbackShare(g.fallback, id)
  }

  /** The arena after Dispose: every holder decreased once per share the grid has of it. */
  function ReleasedAll(g: Grid, hs: seq<Holder>): (r: seq<Holder>)
    ensures |r| == |hs| && Images(r) == Images(hs)
  {
    seq(|hs|, id requires 0 <= id < |hs| => DecreasedN(hs[id], Shares(g, id)))
  }

  /** `hs` is `hs0` after the fallback and the keys in `done` released their shares. */
  ghost predicate ReleasedFor(hs: seq<Holder>, hs0: seq<Holder>, g: Grid, done: set<Point>) {
    |hs| == |hs0| &&
    forall id :: 0 <= id < |hs| ==>
      hs[id] == DecreasedN(hs0[id], FallbackShare(g.fallback, id) + |HoldingIn(g.cells, done, id)|)
  }

  /** One more key released. */
  lemma ReleaseStep(hs: seq<Holder>, hs0: seq<Holder>, g: Grid, done: set<Point>, p: Point)
    requires ReleasedFor(hs, hs0, g, done)
    requires p in g.cells && p !in done && g.cells[p] < |hs|
    ensures ReleasedFor(hs[g.cells[p] := Decreased(hs[g.cells[p]])], hs0, g, done + {p})
  {
    var hs' := hs[g.cells[p] := Decreased(hs[g.cells[p]])];
    forall id | 0 <= id < |hs'|
      ensures hs'[id] == DecreasedN(hs0[id], FallbackShare(g.fallback, id) + |HoldingIn(g.cells, done + {p}, id)|)
    {
      var k := FallbackShare(g.fallback, id) + |HoldingIn(g.cells, done, id)|;
      if id == g.cells[p] {
        assert HoldingIn(g.cells, done + {p}, id) == HoldingIn(g.cells, done, id) + {p};
        DecreasedNSnoc(hs0[id], k);
      } else {
        assert HoldingIn(g.cells, done + {p}, id) == HoldingIn(g.cells, done, id);
      }
    }
  }

  /** The fallback released, no key yet. */
  lemma ReleaseStart(hs0: seq<Holder>, g: Grid)
    requires g.fallback.Some? ==> g.fallback.value < |hs0|
    ensures ReleasedFor(Released(hs0, g.fallback), hs0, g, {})
  {
    var hs := Released(hs0, g.fallback);
    forall id | 0 <= id < |hs|
      ensures hs[id] == DecreasedN(hs0[id], FallbackShare(g.fallback, id) + |HoldingIn(g.cells, {}, id)|)
    {
      assert HoldingIn(g.cells, {}, id) == {};
      DecreasedNSnoc(hs0[id], 0);
    }
  }

  /** All keys released: the arena is ReleasedAll. */
  lemma ReleaseDone(hs: seq<Holder>, hs0: seq<Holder>, g: Grid)
    requires ReleasedFor(hs, hs0, g, g.cells.Keys)
    ensures hs == ReleasedAll(g, hs0)
  {
  }

  /**
   * A holder the grid holds under k keys and not as fallback, with more than k shares, loses
   * exactly k shares on Dispose and stays alive; with exactly k shares it is disposed once.
   */
  lemma ReleasedAllShares(g: Grid, hs: seq<Holder>, id: nat)
    requires id < |hs| && hs[id].count >= Shares(g, id) >= 1
    ensures hs[id].count > Shares(g, id) ==>
      ReleasedAll(g, hs)[id] == hs[id].(count := hs[id].count - Shares(g, id))
    ensures hs[id].count == Shares(g, id) ==>
      ReleasedAll(g, hs)[id] == Holder(hs[id].value, -1, hs[id].disposals + 1)
  {
    if hs[id].count > Shares(g, id) {
      DecreasedNShared(hs[id], Shares(g, id));
    } else {
      DecreasedNAll(hs[id], Shares(g, id));
    }
  }

  /** Every key lies in the rectangle [lt, rb], and each of the four sides is reached by a key. */
  ghost predicate BoundingBox(keys: set<Point>, lt: Point, rb: Point) {
    (forall p :: p in keys ==> lt.x <= p.x <= rb.x && lt.y <= p.y <= rb.y) &&
    (exists p :: p in keys && p.x == lt.x) && (exists p :: p in keys && p.y == lt.y) &&
    (exists p :: p in keys && p.x == rb.x) && (exists p :: p in keys && p.y == rb.y)
  }

  /** The bounding box of a set of keys is unique, whatever order the keys are visited in. */
  lemma BoundingBoxUnique(keys: set<Point>, lt: Point, rb: Point, lt': Point, rb': Point)
    requires BoundingBox(keys, lt, rb) && BoundingBox(keys, lt', rb')
    ensures lt == lt' && rb == rb'
  {
    var a :| a in keys && a.x == lt.x;
    var b :| b in keys && b.x == lt'.x;
    var c :| c in keys && c.y == lt.y;
    var d :| d in keys && d.y == lt'.y;
    var e :| e in keys && e.x == rb.x;
    var f :| f in keys && f.x == rb'.x;
    var g :| g in keys && g.y == rb.y;
    var h :| h in keys && h.y == rb'.y;
  }

  /** The bounding box grows by one key. */
  lemma BoundingBoxAdd(keys: set<Point>, lt: Point, rb: Point, p: Point)
    requires BoundingBox(keys, lt, rb)
    ensures BoundingBox(keys + {p}, Point(Min(lt.x, p.x), Min(lt.y, p.y)), Point(Max(rb.x, p.x), Max(rb.y, p.y)))
  {
    var a :| a in keys && a.x == lt.x;
    var c :| c in keys && c.y == lt.y;
    var e :| e in keys && e.x == rb.x;
    var g :| g in keys && g.y == rb.y;
    assert a in keys + {p} && c in keys + {p} && e in keys + {p} && g in keys + {p};
    assert p in keys + {p};
  }

  /** The largest element of a non-empty set. */
  function MaxOf(s: set<int>): (m: int)
    requires s != {}
    ensures m in s && forall x :: x in s ==> x <= m
  {
    HasMax(s);
    var m :| m in s && forall x :: x in s ==> x <= m; m
  }

  lemma HasMax(s: set<int>)
    requires s != {}
    ensures exists m :: m in s && forall x :: x in s ==> x <= m
    decreases |s|
  {
    assert !(forall x :: x !in s) by {
      if forall x :: x !in s {
        assert false;
      }
    }
    var y :| y in s;
    if s == {y} {
      assert forall x :: x in s ==> x <= y;
    } else {
      HasMax(s - {y});
      var m :| m in s - {y} && forall x :: x in s - {y} ==> x <= m;
      var top := if y <= m then m else y;
      forall x | x in s
        ensures x <= top
      {
        if x != y {
          assert x in s - {y};
        }
      }
      assert top in s;
    }
  }

  /** The bounding box of a non-empty set of keys, as (left-top, right-bottom). */
  ghost function Box(keys: set<Point>): (r: (Point, Point))
    requires keys != {}
    ensures BoundingBox(keys, r.0, r.1)
    ensures r.0.x <= r.1.x && r.0.y <= r.1.y
    decreases keys
  {
    assert !(forall p :: p !in keys) by {
      if forall p :: p !in keys {
        assert false;
      }
    }
    var q :| q in keys;
    if keys == {q} then (q, q)
    else
      var rest := Box(keys - {q});
      BoundingBoxAdd(keys - {q}, rest.0, rest.1, q);
      assert keys - {q} + {q} == keys;
      (Point(Min(rest.0.x, q.x), Min(rest.0.y, q.y)), Point(Max(rest.1.x, q.x), Max(rest.1.y, q.y)))
  }

  /** The tile images of the holders, by id. */
  function Images(hs: seq<Holder>): (r: seq<Image>)
    ensures |r| == |hs| && forall id :: 0 <= id < |hs| ==> r[id] == hs[id].value
  {
    seq(|hs|, id requires 0 <= id < |hs| => hs[id].value)
  }

  /** The longer side of a tile. */
  function Side(image: Image): int {
    Max(image.width, image.height)
  }

  /**
   * The longest tile side over the stored tiles (not the fallback). None stands for the
   * exception LINQ's Max throws on an empty grid.
   */
  function UnitSizeOf(g: Grid, images: seq<Image>): (r: Option<int>)
    requires RefsWithin(g, |images|)
    ensures r.None? <==> g.cells == map[]
    ensures r.Some? ==> forall p :: p in g.cells ==> Side(images[g.cells[p]]) <= r.value
    ensures r.Some? ==> exists p :: p in g.cells && Side(images[g.cells[p]]) == r.value
  {
    if |g.cells| == 0 then None
    else
      var sides := set p | p in g.cells :: Side(images[g.cells[p]]);
      assert forall p :: p in g.cells ==> Side(images[g.cells[p]]) in sides;
      var p :| p in g.cells;
      Some(MaxOf(sides))
  }

  class MapInfo {
    /** `_map`: grid point to holder id. */
    var cells: map<Point, nat>
    var fallback: Option<nat>

    function State(): Grid
      reads this
    {
      Grid(cells, fallback)
    }

    constructor ()
      ensures State() == Grid(map[], None)
    {
      cells := map[];
      fallback := None;
    }

    /**
     * LTRB: the smallest and largest x and y over the keys, visited in whatever order the
     * dictionary yields them; ((0,0), (0,0)) when there are none. The fallback plays no part.
     */
    method LTRB() returns (lt: Point, rb: Point)
      ensures cells == map[] ==> lt == Point(0, 0) && rb == Point(0, 0)
      ensures cells != map[] ==> (lt, rb) == Box(cells.Keys)
    {
      lt, rb := Point(0, 0), Point(0, 0);
      var first := true;
      var todo := cells.Keys;
      while todo != {}
        invariant todo <= cells.Keys
        invariant first <==> todo == cells.Keys
        invariant first ==> lt == Point(0, 0) && rb == Point(0, 0)
        invariant !first ==> BoundingBox(cells.Keys - todo, lt, rb)
        decreases todo
      {
        var p :| p in todo;
        if first {
          lt, rb := p, p;
          first := false;
          assert cells.Keys - (todo - {p}) == {p};
        } else {
          BoundingBoxAdd(cells.Keys - todo, lt, rb, p);
          lt := lt.(x := Min(lt.x, p.x));
          lt := lt.(y := Min(lt.y, p.y));
          rb := rb.(x := Max(rb.x, p.x));
          rb := rb.(y := Max(rb.y, p.y));
          assert cells.Keys - (todo - {p}) == (cells.Keys - todo) + {p};
        }
        todo := todo - {p};
      }
      if cells != map[] {
        assert cells.Keys - todo == cells.Keys;
        var box := Box(cells.Keys);
        BoundingBoxUnique(cells.Keys, lt, rb, box.0, box.1);
      } else {
        assert cells.Keys == {};
      }
    }

    /** UnitSize: the longest side over the stored tiles' images. */
    function UnitSize(images: seq<Image>): (r: Option<int>)
      reads this
      requires RefsWithin(State(), |images|)
      ensures r == UnitSizeOf(State(), images)
    {
      UnitSizeOf(State(), images)
    }

    function IsEmpty(): (r: bool)
      reads this
      ensures r <==> cells == map[]
    {
      |cells| == 0
    }

    /** this[x, y] get. */
    function Get(x: int, y: int): (r: Option<nat>)
      reads this
      ensures Point(x, y) in cells ==> r == Some(cells[Point(x, y)])
      ensures Point(x, y) !in cells ==> r == fallback
    {
      Lookup(State(), Point(x, y))
    }

    /** this[x, y] set: stores or removes the entry; no holder's count changes. */
    method Set(x: int, y: int, value: Option<nat>)
      modifies this
      ensures State() == WithCell(old(State()), Point(x, y), value)
      ensures Get(x, y) == if value.Some? then value else fallback
    {
      if value.None? {
        cells := cells - {Point(x, y)};
      } else {
        cells := cells[Point(x, y) := value.value];
      }
    }

    /** The Fallback setter: releases the old holder, takes a share of the new one, stores it. */
    method SetFallback(arena: Arena, value: Option<nat>)
      requires RefsWithin(State(), |arena.holders|)
      requires value.Some? ==> value.value < |arena.holders|
      modifies this, arena
      ensures cells == old(cells) && fallback == value
      ensures arena.holders == Acquired(Released(old(arena.holders), old(fallback)), value)
    {
      if fallback.Some? {
        arena.Decrease(fallback.value);
      }
      if value.Some? {
        arena.Increase(value.value);
      }
      fallback := value;
    }

    /** Dispose: one Decrease for the fallback, then one for every stored entry. */
    method Dispose(arena: Arena)
      requires RefsWithin(State(), |arena.holders|)
      modifies arena
      ensures arena.holders == ReleasedAll(State(), old(arena.holders))
    {
      ghost var hs0 := arena.holders;
      if fallback.Some? {
        arena.Decrease(fallback.value);
      }
      ReleaseStart(hs0, State());
      var todo := cells.Keys;
      while todo != {}
        invariant todo <= cells.Keys
        invariant ReleasedFor(arena.holders, hs0, State(), cells.Keys - todo)
        decreases todo
      {
        var p :| p in todo;
        ReleaseStep(arena.holders, hs0, State(), cells.Keys - todo, p);
        arena.Decrease(cells[p]);
        assert cells.Keys - (todo - {p}) == (cells.Keys - todo) + {p};
        todo := todo - {p};
      }
      assert cells.Keys - todo == cells.Keys;
      ReleaseDone(arena.holders, hs0, State());
    }
  }
}
