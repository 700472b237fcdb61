/**
 * The game session: the module-level state of the game (score, high score, game-over
 * flag, the piece being aimed, the drop cooldown flag, the merge lock map) together with
 * the world it acts on, and the operations that change them step by step.
 */
module Game {
  import opened Wrappers
  import opened Catalog
  import opened Bodies
  import Spawn
  import Merge
  import Pointer

  /** Spawn height as a fraction of the canvas height. */
  const SpawnHeightFraction: real := 0.1

  /** Vertical search step of spawn placement, in unscaled pixels. */
  const SpawnStep: real := 30.0

  /**
   * Wall-crossing loss policy: a pizza other than the aimed piece whose centre is left
   * of the left wall's centre or right of the right wall's centre.
   */
  predicate Escaped(b: Body, canvasWidth: real, current: Option<nat>)
  {
    && b.kind.Pizza?
    && !IsCurrent(b, current)
    && (b.x < Pointer.WallCenterInset || b.x > canvasWidth - Pointer.WallCenterInset)
  }

  function MaxInt(a: int, b: int): int
  {
    if a >= b then a else b
  }

  class Session {
    /** Canvas size and display scale; resizing is not modelled. */
    const width: real
    const height: real
    const scaleFactor: real

    /** The engine's world, in insertion order, and the id the engine gives the next body. */
    var bodies: seq<Body>
    var nextId: nat

    var score: int
    var highScore: int
    var isGameOver: bool
    var currentPizza: Option<nat>
    var disableDrop: bool
    var pendingMerges: map<nat, bool>

    /** Drop cooldown timers scheduled and not yet fired. */
    var pendingCooldowns: nat

    ghost predicate Valid()
      reads this
    {
      && scaleFactor > 0.0
      && 0 <= score <= highScore
      && Merge.WellFormed(MergeView(), currentPizza)
      && (currentPizza.Some? ==> !isGameOver)
    }

    /** The part of the state a collision batch works on. */
    function MergeView(): Merge.MergeState
      reads this
    {
      Merge.MergeState(bodies, score, nextId, pendingMerges)
    }

    /** Scaled radius of the aimed piece, or 0 when there is none. */
    function CurrentRadius(): (r: real)
      reads this
      requires Valid()
      ensures currentPizza.None? ==> r == 0.0
      ensures currentPizza.Some? ==> r >= 40.0 * scaleFactor
    {
      if currentPizza.None? then 0.0
      else
        var radius := RadiusOf(Lookup(bodies, currentPizza.value).value.kind.level) as real;
        assert radius * scaleFactor >= 40.0 * scaleFactor by { assert radius >= 40.0 && scaleFactor > 0.0; }
        radius * scaleFactor
    }

    /**
     * The new piece of the given level has been added at the end of the world, static
     * and a sensor, centred horizontally, at the height spawn placement settles on, and
     * it is now the aimed piece.
     */
    ghost predicate Spawned(oldBodies: seq<Body>, oldNextId: nat, level: Level, occupied: real -> bool)
      reads this
    {
      && nextId == oldNextId + 1
      && currentPizza == Some(oldNextId)
      && |bodies| == |oldBodies| + 1
      && bodies[..|oldBodies|] == oldBodies
      && var p := bodies[|oldBodies|];
         && CreatePizza(oldNextId, width / 2.0, p.y, level, scaleFactor).Some?
         && p == StaticSensor(CreatePizza(oldNextId, width / 2.0, p.y, level, scaleFactor).value)
         && Spawn.IsSpawnY(p.y, height * SpawnHeightFraction, RadiusOf(level) as real * scaleFactor,
                           SpawnStep * scaleFactor, occupied)
    }

    /** The state of the module before the first start: no world, nothing scheduled. */
    constructor (width: real, height: real, scaleFactor: real, storedHighScore: int)
      requires scaleFactor > 0.0 && storedHighScore >= 0
      ensures Valid()
      ensures this.width == width && this.height == height && this.scaleFactor == scaleFactor
      ensures bodies == [] && nextId == 0
      ensures score == 0 && highScore == storedHighScore && !isGameOver
      ensures currentPizza == None && !disableDrop && pendingMerges == map[] && pendingCooldowns == 0
    {
      this.width := width;
      this.height := height;
      this.scaleFactor := scaleFactor;
      bodies := [];
      nextId := 0;
      score := 0;
      highScore := storedHighScore;
      isGameOver := false;
      currentPizza := None;
      disableDrop := false;
      pendingMerges := map[];
      pendingCooldowns := 0;
    }

    /** Raises the high score to the score when the score beats it. */
    method UpdateScoreUI()
      modifies this
      ensures highScore == MaxInt(old(highScore), score)
      ensures bodies == old(bodies) && nextId == old(nextId) && score == old(score)
      ensures isGameOver == old(isGameOver) && currentPizza == old(currentPizza)
      ensures disableDrop == old(disableDrop) && pendingMerges == old(pendingMerges)
      ensures pendingCooldowns == old(pendingCooldowns)
    {
      if score > highScore {
        highScore := score;
      }
    }

    /**
     * Start or restart: reset the score and the flags, clear the lock map, start from a
     * fresh world, and spawn the first piece. Timers scheduled before survive.
     */
    method Init(level: int)
      requires Valid() && currentPizza == None
      requires 1 <= level <= StartingLevels
      modifies this
      ensures Valid()
      ensures !isGameOver && score == 0 && !disableDrop && pendingMerges == map[]
      ensures highScore == old(highScore) && pendingCooldowns == old(pendingCooldowns)
      ensures nextId == old(nextId) + 1 && currentPizza == Some(old(nextId))
      ensures bodies == [StaticSensor(CreatePizza(old(nextId), width / 2.0, height * SpawnHeightFraction,
                                                  level, scaleFactor).value)]
    {
      isGameOver := false;
      score := 0;
      disableDrop := false;
      pendingMerges := map[];
      UpdateScoreUI();
      bodies := [];
      var noPizza := (y: real) => false;
      SpawnNextPizza(level, noPizza);
    }

    /**
     * Adds a new aimed piece of the given level (the random draw) at the top centre,
     * placed by spawn placement against the occupancy query; nothing once the game is over.
     */
    method SpawnNextPizza(level: int, occupied: real -> bool)
      requires Valid()
      requires 1 <= level <= StartingLevels
      modifies this
      ensures Valid()
      ensures old(isGameOver) ==> unchanged(this)
      ensures !old(isGameOver) ==> Spawned(old(bodies), old(nextId), level, occupied)
      ensures score == old(score) && highScore == old(highScore) && isGameOver == old(isGameOver)
      ensures disableDrop == old(disableDrop) && pendingMerges == old(pendingMerges)
      ensures pendingCooldowns == old(pendingCooldowns)
    {
      if isGameOver {
        return;
      }
      var nextLevel := level;
      var desiredY := height * SpawnHeightFraction;
      var pizzaRadius := RadiusOf(nextLevel) as real * scaleFactor;
      var safeY;
      ghost var probes;
      safeY, probes := Spawn.FindSafeSpawnY(desiredY, pizzaRadius, SpawnStep * scaleFactor, occupied);
      var pizza := StaticSensor(CreatePizza(nextId, width / 2.0, safeY, nextLevel, scaleFactor).value);
      AddAimed(pizza);
    }

    /** Adds the static sensor piece carrying the next id to the world and aims it. */
    method AddAimed(pizza: Body)
      requires Valid() && !isGameOver
      requires pizza.id == nextId && pizza.kind.Pizza? && pizza.isStatic && pizza.isSensor
      modifies this
      ensures Valid()
      ensures bodies == old(bodies) + [pizza] && bodies[..|old(bodies)|] == old(bodies)
      ensures nextId == old(nextId) + 1 && currentPizza == Some(old(nextId))
      ensures score == old(score) && highScore == old(highScore) && isGameOver == old(isGameOver)
      ensures disableDrop == old(disableDrop) && pendingMerges == old(pendingMerges)
      ensures pendingCooldowns == old(pendingCooldowns)
    {
      var world := bodies + [pizza];
      AppendNext(bodies, pizza);
      assert world[..|bodies|] == bodies;
      currentPizza := Some(nextId);
      nextId := nextId + 1;
      bodies := world;
    }

    /**
     * Releases the aimed piece at x, keeping its height: it becomes dynamic and solid,
     * is no longer aimed, drops are disabled and the cooldown timer is scheduled.
     * Nothing happens without an aimed piece, during the cooldown, or after the game ended.
     */
    method DropCurrentPizza(x: real)
      requires Valid()
      modifies this
      ensures Valid()
      ensures old(currentPizza.None? || disableDrop || isGameOver) ==> unchanged(this)
      ensures !old(currentPizza.None? || disableDrop || isGameOver) ==>
        && disableDrop && currentPizza == None
        && bodies == Release(old(bodies), old(currentPizza).value, x)
        && Lookup(bodies, old(currentPizza).value)
           == Some(old(Lookup(bodies, currentPizza.value)).value.(x := x, isStatic := false, isSensor := false))
        && pendingCooldowns == old(pendingCooldowns) + 1
      ensures score == old(score) && highScore == old(highScore) && isGameOver == old(isGameOver)
      ensures nextId == old(nextId) && pendingMerges == old(pendingMerges)
    {
      if currentPizza.None? || disableDrop || isGameOver {
        return;
      }
      var id := currentPizza.value;
      var released := Release(bodies, id, x);
      LookupRelease(bodies, id, x);
      UpdatesKeepIds(bodies, id, x, nextId);
      assert Merge.WellFormed(Merge.MergeState(released, score, nextId, pendingMerges), None);
      bodies := released;
      currentPizza := None;
      disableDrop := true;
      pendingCooldowns := pendingCooldowns + 1;
    }

    /**
     * A drop cooldown timer fires: drops are enabled again and the next piece, of the
     * drawn level, is spawned unless the game is over. The timer belongs to no particular
     * game, so one scheduled before a restart fires in the new game.
     */
    method CooldownElapsed(level: int, occupied: real -> bool)
      requires Valid() && pendingCooldowns > 0
      requires 1 <= level <= StartingLevels
      modifies this
      ensures Valid()
      ensures !disableDrop && pendingCooldowns == old(pendingCooldowns) - 1
      ensures old(isGameOver) ==> bodies == old(bodies) && nextId == old(nextId) && currentPizza == old(currentPizza)
      ensures !old(isGameOver) ==> Spawned(old(bodies), old(nextId), level, occupied)
      ensures score == old(score) && highScore == old(highScore) && isGameOver == old(isGameOver)
      ensures pendingMerges == old(pendingMerges)
    {
      pendingCooldowns := pendingCooldowns - 1;
      disableDrop := false;
      SpawnNextPizza(level, occupied);
    }

    /**
     * Ends the game once: sets the game-over flag and takes the aimed piece, if any,
     * out of the world. A second call changes nothing.
     */
    method EndGame()
      requires Valid()
      modifies this
      ensures Valid()
      ensures old(isGameOver) ==> unchanged(this)
      ensures isGameOver && currentPizza == None
      ensures bodies == if !old(isGameOver) && old(currentPizza).Some?
                        then RemoveBody(old(bodies), old(currentPizza).value) else old(bodies)
      ensures old(currentPizza).Some? ==> Lookup(bodies, old(currentPizza).value) == None
      ensures score == old(score) && highScore == old(highScore) && nextId == old(nextId)
      ensures disableDrop == old(disableDrop) && pendingMerges == old(pendingMerges)
      ensures pendingCooldowns == old(pendingCooldowns)
    {
      if isGameOver {
        return;
      }
      isGameOver := true;
      if currentPizza.Some? {
        UpdatesKeepIds(bodies, currentPizza.value, 0.0, nextId);
        RemoveBodyMembers(bodies, currentPizza.value);
        LookupMissing(RemoveBody(bodies, currentPizza.value), currentPizza.value);
        bodies := RemoveBody(bodies, currentPizza.value);
        currentPizza := None;
      }
    }

    /**
     * The per-step loss check under the wall-crossing policy: the game ends exactly when
     * some pizza other than the aimed piece has crossed a wall centre.
     */
    method CheckGameOver()
      requires Valid()
      modifies this
      ensures Valid()
      ensures old(isGameOver) ==> unchanged(this)
      ensures !old(isGameOver) ==>
        (isGameOver <==> exists b :: b in old(bodies) && Escaped(b, width, old(currentPizza)))
      ensures !isGameOver ==> unchanged(this)
      ensures isGameOver && !old(isGameOver) ==>
        && currentPizza == None
        && bodies == (if old(currentPizza).Some? then RemoveBody(old(bodies), old(currentPizza).value) else old(bodies))
      ensures score == old(score) && highScore == old(highScore) && nextId == old(nextId)
      ensures disableDrop == old(disableDrop) && pendingMerges == old(pendingMerges)
      ensures pendingCooldowns == old(pendingCooldowns)
    {
      if isGameOver {
        return;
      }
      for i := 0 to |bodies|
        invariant unchanged(this)
        invariant forall j :: 0 <= j < i ==> !Escaped(bodies[j], width, currentPizza)
      {
        var pizza := bodies[i];
        if !pizza.kind.Pizza? || IsCurrent(pizza, currentPizza) {
          continue;
        }
        if pizza.x < Pointer.WallCenterInset || pizza.x > width - Pointer.WallCenterInset {
          assert pizza in bodies && Escaped(pizza, width, currentPizza);
          EndGame();
          return;
        }
      }
    }

    /**
     * One batch of collision-start pairs: each pair, in order, is merged when it is
     * mergeable and neither id is locked; the lock map is emptied again within the
     * same pair. Nothing happens once the game is over.
     */
    method HandleCollision(pairs: seq<Merge.Pair>)
      requires Valid()
      modifies this
      ensures Valid()
      ensures old(isGameOver) ==> unchanged(this)
      ensures MergeView() == Merge.ProcessPairs(old(MergeView()), pairs, currentPizza, scaleFactor)
              || old(isGameOver)
      ensures highScore == MaxInt(old(highScore), score)
      ensures isGameOver == old(isGameOver) && currentPizza == old(currentPizza)
      ensures disableDrop == old(disableDrop) && pendingCooldowns == old(pendingCooldowns)
    {
      if isGameOver {
        return;
      }
      for i := 0 to |pairs|
        invariant Valid()
        invariant MergeView() == Merge.ProcessPairs(old(MergeView()), pairs[..i], currentPizza, scaleFactor)
        invariant highScore == MaxInt(old(highScore), score)
        invariant isGameOver == old(isGameOver) && currentPizza == old(currentPizza)
        invariant disableDrop == old(disableDrop) && pendingCooldowns == old(pendingCooldowns)
      {
        assert pairs[..i + 1][..i] == pairs[..i];
        var bodyA, bodyB := pairs[i].a, pairs[i].b;
        if bodyA.id in pendingMerges || bodyB.id in pendingMerges {
          continue;
        }
        if bodyA.kind.Pizza? && bodyB.kind.Pizza? && bodyA.kind.level == bodyB.kind.level
           && bodyA.kind.level < MaxLevel
        {
          if IsCurrent(bodyA, currentPizza) || IsCurrent(bodyB, currentPizza) {
            continue;
          }
          MergePair(bodyA, bodyB);
        }
      }
      assert pairs[..|pairs|] == pairs;
    }

    /**
     * The accepted branch of the collision loop: lock both ids, award the score of the
     * next level, remove both inputs, unlock, add the merged pizza and refresh the high score.
     */
    method MergePair(bodyA: Body, bodyB: Body)
      requires Valid()
      requires Merge.Accepts(MergeView(), Merge.Pair(bodyA, bodyB), currentPizza)
      modifies this
      ensures Valid()
      ensures MergeView() == Merge.MergeStep(old(MergeView()), Merge.Pair(bodyA, bodyB), currentPizza, scaleFactor)
      ensures highScore == MaxInt(old(highScore), score)
      ensures isGameOver == old(isGameOver) && currentPizza == old(currentPizza)
      ensures disableDrop == old(disableDrop) && pendingCooldowns == old(pendingCooldowns)
    {
      var pair := Merge.Pair(bodyA, bodyB);
      ghost var before := MergeView();
      ghost var after := Merge.MergeStep(before, pair, currentPizza, scaleFactor);
      Merge.MergeStepKeepsWorld(before, pair, currentPizza, scaleFactor);
      Merge.MergeAccepted(before, pair, currentPizza, scaleFactor);
      Merge.LockUnlock(pendingMerges, bodyA.id, bodyB.id);
      var locked := pendingMerges[bodyA.id := true][bodyB.id := true];
      var gained := score + ScoreOf(Merge.ResultLevel(pair));
      var remaining := RemoveBody(RemoveBody(bodies, bodyA.id), bodyB.id);
      var newPizza := Merge.MergedPizza(pair, nextId, scaleFactor);
      assert after == Merge.MergeState(remaining + [newPizza], gained, nextId + 1, locked - {bodyA.id} - {bodyB.id});
      pendingMerges := locked;
      score := gained;
      bodies := remaining;
      pendingMerges := pendingMerges - {bodyA.id} - {bodyB.id};
      nextId := nextId + 1;
      bodies := bodies + [newPizza];
      UpdateScoreUI();
    }

    /**
     * Pointer movement: the aimed piece follows the clamped pointer horizontally.
     * Nothing happens without an aimed piece or after the game ended.
     */
    method OnPointerMove(pointerX: real)
      requires Valid()
      modifies this
      ensures Valid()
      ensures old(currentPizza.None? || isGameOver) ==> unchanged(this)
      ensures !old(currentPizza.None? || isGameOver) ==>
        && bodies == SetX(old(bodies), old(currentPizza).value,
                          Pointer.ClampX(pointerX, width, scaleFactor, old(CurrentRadius())))
        && Lookup(bodies, old(currentPizza).value)
           == Some(old(Lookup(bodies, currentPizza.value)).value.(
                     x := Pointer.ClampX(pointerX, width, scaleFactor, old(CurrentRadius()))))
      ensures currentPizza == old(currentPizza) && isGameOver == old(isGameOver)
      ensures score == old(score) && highScore == old(highScore) && nextId == old(nextId)
      ensures disableDrop == old(disableDrop) && pendingMerges == old(pendingMerges)
      ensures pendingCooldowns == old(pendingCooldowns)
    {
      if currentPizza.None? || isGameOver {
        return;
      }
      var x := Pointer.ClampX(pointerX, width, scaleFactor, CurrentRadius());
      LookupSetX(bodies, currentPizza.value, x);
      UpdatesKeepIds(bodies, currentPizza.value, x, nextId);
      bodies := SetX(bodies, currentPizza.value, x);
    }

    /**
     * Click or touch release: outside the cooldown and before the game ends, the clamped
     * pointer position is handed to the drop (which itself ignores a missing aimed piece).
     */
    method OnRelease(pointerX: real)
      requires Valid()
      modifies this
      ensures Valid()
      ensures old(currentPizza.None? || disableDrop || isGameOver) ==> unchanged(this)
      ensures !old(currentPizza.None? || disableDrop || isGameOver) ==>
        && disableDrop && currentPizza == None
        && bodies == Release(old(bodies), old(currentPizza).value,
                             Pointer.ClampX(pointerX, width, scaleFactor, old(CurrentRadius())))
        && pendingCooldowns == old(pendingCooldowns) + 1
      ensures score == old(score) && highScore == old(highScore) && isGameOver == old(isGameOver)
      ensures nextId == old(nextId) && pendingMerges == old(pendingMerges)
    {
      if isGameOver || disableDrop {
        return;
      }
      var x := Pointer.ClampX(pointerX, width, scaleFactor, CurrentRadius());
      DropCurrentPizza(x);
    }
  }

  /**
   * A drop cooldown timer scheduled before a restart fires in the new game: the piece the
   * restart spawned stays in the world, static and a sensor, next to a second aimed piece.
   */
  method StaleCooldownAfterRestart(width: real, height: real, scaleFactor: real, x: real)
    returns (s: Session)
    requires scaleFactor > 0.0
    ensures |s.bodies| == 2 && s.bodies[0].id != s.bodies[1].id
    ensures s.bodies[0].isStatic && s.bodies[0].isSensor && s.bodies[1].isStatic && s.bodies[1].isSensor
    ensures s.currentPizza == Some(s.bodies[1].id)
  {
    s := new Session(width, height, scaleFactor, 0);
    s.Init(1);
    s.DropCurrentPizza(x);
    s.EndGame();
    s.Init(2);
    s.CooldownElapsed(3, (y: real) => false);
  }
}
