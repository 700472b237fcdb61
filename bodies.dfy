/**
 * The bodies of the physics world as seen by the game logic: an id assigned by
 * the engine, a label (a pizza of some level, or a wall), a position, a velocity,
 * a radius, and the static and sensor flags. The world itself is the sequence of
 * its bodies in insertion order.
 */
module Bodies {
  import opened Wrappers
  import opened Catalog

  datatype Kind = Pizza(level: Level) | Boundary

  datatype Body = Body(
    id: nat,
    kind: Kind,
    x: real,
    y: real,
    vx: real,
    vy: real,
    radius: real,
    isStatic: bool,
    isSensor: bool)

  /** Whether the body is the piece the player is currently aiming. */
  predicate IsCurrent(b: Body, current: Option<nat>)
  {
    current == Some(b.id)
  }

  /** The arithmetic mean of two coordinates: halfway between them. */
  function Mid(a: real, b: real): (m: real)
    ensures m - a == b - m
    ensures a <= b ==> a <= m <= b
    ensures b <= a ==> b <= m <= a
  {
    (a + b) / 2.0
  }

  /**
   * A new dynamic, solid pizza of the given level at (x, y), at rest, with the
   * table radius scaled to the display; nothing when the level has no table entry.
   */
  function CreatePizza(id: nat, x: real, y: real, level: int, scaleFactor: real): (r: Option<Body>)
    ensures r.Some? <==> 1 <= level <= MaxLevel
    ensures r.Some? ==> && r.value.id == id && r.value.kind == Pizza(level)
                        && r.value.x == x && r.value.y == y
                        && r.value.vx == 0.0 && r.value.vy == 0.0
                        && r.value.radius == RadiusOf(level) as real * scaleFactor
                        && !r.value.isStatic && !r.value.isSensor
  {
    match DefinitionFor(level)
    case None => None
    case Some(def) =>
      Some(Body(id, Pizza(def.level), x, y, 0.0, 0.0, def.radius as real * scaleFactor, false, false))
  }

  /** The body made static and a sensor, as a freshly spawned piece is. */
  function StaticSensor(b: Body): (r: Body)
    ensures r.isStatic && r.isSensor
    ensures r.(isStatic := b.isStatic, isSensor := b.isSensor) == b
  {
    b.(isStatic := true, isSensor := true)
  }

  /** The world without the bodies carrying the given id; removing an absent id changes nothing. */
  function RemoveBody(bs: seq<Body>, id: nat): (r: seq<Body>)
    ensures |r| <= |bs|
  {
    if bs == [] then []
    else if bs[0].id == id then RemoveBody(bs[1..], id)
    else [bs[0]] + RemoveBody(bs[1..], id)
  }

  /** Removal keeps exactly the bodies carrying another id. */
  lemma {:induction false} RemoveBodyMembers(bs: seq<Body>, id: nat)
    ensures forall b :: b in RemoveBody(bs, id) <==> b in bs && b.id != id
  {
    if bs != [] {
      RemoveBodyMembers(bs[1..], id);
      forall b ensures b in RemoveBody(bs, id) <==> b in bs && b.id != id {
        assert b in bs <==> b == bs[0] || b in bs[1..];
      }
    }
  }

  /** Removing an id no body carries changes nothing. */
  lemma {:induction false} RemoveAbsent(bs: seq<Body>, id: nat)
    requires forall b :: b in bs ==> b.id != id
    ensures RemoveBody(bs, id) == bs
  {
    if bs != [] {
      forall b | b in bs[1..] ensures b.id != id {
        assert b in bs;
      }
      RemoveAbsent(bs[1..], id);
      assert bs == [bs[0]] + bs[1..];
    }
  }

  /** The first body carrying the given id, if any. */
  function Lookup(bs: seq<Body>, id: nat): (r: Option<Body>)
    ensures r.Some? ==> r.value in bs && r.value.id == id
  {
    if bs == [] then None
    else if bs[0].id == id then Some(bs[0])
    else Lookup(bs[1..], id)
  }

  /** The world with the bodies carrying the given id moved horizontally to x. */
  function SetX(bs: seq<Body>, id: nat, x: real): (r: seq<Body>)
    ensures |r| == |bs|
  {
    if bs == [] then []
    else [if bs[0].id == id then bs[0].(x := x) else bs[0]] + SetX(bs[1..], id, x)
  }

  /** The world with the bodies carrying the given id made dynamic and solid at x. */
  function Release(bs: seq<Body>, id: nat, x: real): (r: seq<Body>)
    ensures |r| == |bs|
  {
    if bs == [] then []
    else [if bs[0].id == id then bs[0].(x := x, isStatic := false, isSensor := false) else bs[0]]
         + Release(bs[1..], id, x)
  }

  /** The aimed piece is in the world, a pizza, and held static as a sensor. */
  predicate Held(bs: seq<Body>, id: nat)
  {
    var found := Lookup(bs, id);
    found.Some? && found.value.kind.Pizza? && found.value.isStatic && found.value.isSensor
  }

  /** Every body in the world has an id below n: ids the engine has already handed out. */
  predicate IdsBelow(bs: seq<Body>, n: nat)
  {
    forall b :: b in bs ==> b.id < n
  }

  /** Moving, releasing or removing bodies hands out no new id. */
  lemma {:induction false} UpdatesKeepIds(bs: seq<Body>, id: nat, x: real, n: nat)
    requires IdsBelow(bs, n)
    ensures IdsBelow(SetX(bs, id, x), n)
    ensures IdsBelow(Release(bs, id, x), n)
    ensures IdsBelow(RemoveBody(bs, id), n)
  {
    if bs != [] {
      assert IdsBelow(bs[1..], n) by {
        forall b | b in bs[1..] ensures b.id < n { assert b in bs; }
      }
      UpdatesKeepIds(bs[1..], id, x, n);
    }
  }

  /** A lookup finds nothing exactly when no body of the world carries the id. */
  lemma {:induction false} LookupMissing(bs: seq<Body>, id: nat)
    ensures Lookup(bs, id).None? <==> forall b :: b in bs ==> b.id != id
  {
    if bs != [] && bs[0].id != id {
      LookupMissing(bs[1..], id);
      assert forall b :: b in bs ==> b == bs[0] || b in bs[1..];
    }
  }

  /** Removing another id leaves the lookup of this one as it was. */
  lemma {:induction false} LookupRemoveOther(bs: seq<Body>, removed: nat, id: nat)
    requires removed != id
    ensures Lookup(RemoveBody(bs, removed), id) == Lookup(bs, id)
  {
    if bs != [] {
      LookupRemoveOther(bs[1..], removed, id);
      if bs[0].id != removed {
        assert RemoveBody(bs, removed)[1..] == RemoveBody(bs[1..], removed);
      }
    }
  }

  /** Appending a body does not hide a body already in the world. */
  lemma {:induction false} LookupAppend(bs: seq<Body>, n: Body, id: nat)
    requires Lookup(bs, id).Some?
    ensures Lookup(bs + [n], id) == Lookup(bs, id)
  {
    if bs[0].id != id {
      assert (bs + [n])[1..] == bs[1..] + [n];
      LookupAppend(bs[1..], n, id);
    }
  }

  /** A body appended under an id nobody else carries is the one found under that id. */
  lemma {:induction false} LookupAppendFresh(bs: seq<Body>, n: Body)
    requires forall b :: b in bs ==> b.id != n.id
    ensures Lookup(bs + [n], n.id) == Some(n)
  {
    if bs != [] {
      assert (bs + [n])[1..] == bs[1..] + [n];
      LookupAppendFresh(bs[1..], n);
    }
  }

  /** A body carrying the next id to hand out is found by that id once added, and the bound moves up by one. */
  lemma AppendNext(bs: seq<Body>, n: Body)
    requires IdsBelow(bs, n.id)
    ensures IdsBelow(bs + [n], n.id + 1)
    ensures Lookup(bs + [n], n.id) == Some(n)
  {
    LookupAppendFresh(bs, n);
  }

  /** Moving bodies changes the x of those carrying the id and nothing else, in place. */
  lemma {:induction false} SetXEffect(bs: seq<Body>, id: nat, x: real)
    ensures forall i :: 0 <= i < |bs| ==>
      SetX(bs, id, x)[i] == if bs[i].id == id then bs[i].(x := x) else bs[i]
  {
    if bs != [] {
      SetXEffect(bs[1..], id, x);
    }
  }

  /** Releasing changes the bodies carrying the id, and only those, in place. */
  lemma {:induction false} ReleaseEffect(bs: seq<Body>, id: nat, x: real)
    ensures forall i :: 0 <= i < |bs| ==>
      Release(bs, id, x)[i]
        == if bs[i].id == id then bs[i].(x := x, isStatic := false, isSensor := false) else bs[i]
  {
    if bs != [] {
      ReleaseEffect(bs[1..], id, x);
    }
  }

  /** Moving the body with the given id is seen by its lookup. */
  lemma {:induction false} LookupSetX(bs: seq<Body>, id: nat, x: real)
    requires Lookup(bs, id).Some?
    ensures Lookup(SetX(bs, id, x), id) == Some(Lookup(bs, id).value.(x := x))
  {
    if bs[0].id != id {
      LookupSetX(bs[1..], id, x);
    }
  }

  /** Releasing the body with the given id is seen by its lookup. */
  lemma {:induction false} LookupRelease(bs: seq<Body>, id: nat, x: real)
    requires Lookup(bs, id).Some?
    ensures Lookup(Release(bs, id, x), id)
         == Some(Lookup(bs, id).value.(x := x, isStatic := false, isSensor := false))
  {
    if bs[0].id != id {
      LookupRelease(bs[1..], id, x);
    }
  }
}
