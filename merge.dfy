/**
 * The merge rule applied to one batch of collision pairs, as a function of the part
 * of the session it changes: the world, the score, the next body id and the lock map.
 * Each pair is a snapshot of two bodies as the engine reports them; a body may already
 * have been removed by an earlier pair of the same batch.
 */
module Merge {
  import opened Wrappers
  import opened Catalog
  import opened Bodies

  datatype Pair = Pair(a: Body, b: Body)

  datatype MergeState = MergeState(bodies: seq<Body>, score: int, nextId: nat, locks: map<nat, bool>)

  /**
   * Two pizzas of the same level below the top level, neither of which is the piece
   * the player is aiming.
   */
  predicate Mergeable(p: Pair, current: Option<nat>)
  {
    && p.a.kind.Pizza? && p.b.kind.Pizza?
    && p.a.kind.level == p.b.kind.level
    && p.a.kind.level < MaxLevel
    && !IsCurrent(p.a, current) && !IsCurrent(p.b, current)
  }

  /**
   * The level a mergeable pair produces: one above its inputs, and always a level the
   * table has a row for, so looking its score up never misses.
   */
  function ResultLevel(p: Pair): (l: Level)
    requires p.a.kind.Pizza? && p.a.kind.level < MaxLevel
    ensures l == p.a.kind.level + 1
    ensures DefinitionFor(l).Some? && DefinitionFor(l).value.level == l
    ensures DefinitionFor(l).value.score == ScoreOf(l)
  {
    p.a.kind.level + 1
  }

  /** The pizza a merge creates: one level up, at the midpoint, with the mean velocity, dynamic and solid. */
  function MergedPizza(p: Pair, id: nat, scaleFactor: real): (m: Body)
    requires p.a.kind.Pizza? && p.a.kind.level < MaxLevel
    ensures m.id == id && m.kind == Pizza(p.a.kind.level + 1)
    ensures m.x - p.a.x == p.b.x - m.x && m.y - p.a.y == p.b.y - m.y
    ensures m.vx - p.a.vx == p.b.vx - m.vx && m.vy - p.a.vy == p.b.vy - m.vy
    ensures m.radius == RadiusOf(p.a.kind.level + 1) as real * scaleFactor
    ensures !m.isStatic && !m.isSensor
  {
    var created := CreatePizza(id, Mid(p.a.x, p.b.x), Mid(p.a.y, p.b.y), ResultLevel(p), scaleFactor);
    created.value.(vx := Mid(p.a.vx, p.b.vx), vy := Mid(p.a.vy, p.b.vy))
  }

  /** A pair is taken when neither id is locked and the pair is mergeable. */
  predicate Accepts(s: MergeState, p: Pair, current: Option<nat>)
  {
    p.a.id !in s.locks && p.b.id !in s.locks && Mergeable(p, current)
  }

  /**
   * One pair of the batch: if taken, lock both ids, award the score of the next level,
   * remove both inputs, unlock both ids and add the merged pizza; otherwise nothing.
   */
  function MergeStep(s: MergeState, p: Pair, current: Option<nat>, scaleFactor: real): (r: MergeState)
    ensures r.locks == s.locks
    ensures r.score >= s.score
    ensures r != s <==> Accepts(s, p, current)
    ensures !Accepts(s, p, current) ==> r == s
  {
    if p.a.id in s.locks || p.b.id in s.locks then s
    else if !Mergeable(p, current) then s
    else
      var locked := s.locks[p.a.id := true][p.b.id := true];
      var newLevel := ResultLevel(p);
      var remaining := RemoveBody(RemoveBody(s.bodies, p.a.id), p.b.id);
      var unlocked := locked - {p.a.id} - {p.b.id};
      LockUnlock(s.locks, p.a.id, p.b.id);
      MergeState(remaining + [MergedPizza(p, s.nextId, scaleFactor)],
                 s.score + ScoreOf(newLevel), s.nextId + 1, unlocked)
  }

  /** Locking two free ids and unlocking them again gives back the lock map. */
  lemma LockUnlock(locks: map<nat, bool>, a: nat, b: nat)
    requires a !in locks && b !in locks
    ensures locks[a := true][b := true] - {a} - {b} == locks
  {
    var unlocked := locks[a := true][b := true] - {a} - {b};
    assert unlocked.Keys == locks.Keys;
  }

  /** The pairs of a batch processed in the order the engine reports them. */
  function ProcessPairs(s: MergeState, pairs: seq<Pair>, current: Option<nat>, scaleFactor: real): (r: MergeState)
    ensures r.locks == s.locks
    ensures r.score >= s.score
    ensures r.nextId >= s.nextId
    decreases |pairs|
  {
    if pairs == [] then s
    else MergeStep(ProcessPairs(s, pairs[..|pairs| - 1], current, scaleFactor), pairs[|pairs| - 1], current, scaleFactor)
  }

  /** Score earned by a batch: the next level's score for every mergeable pair. */
  function BatchGain(pairs: seq<Pair>, current: Option<nat>): (g: int)
    ensures g >= 0
    decreases |pairs|
  {
    if pairs == [] then 0
    else
      var last := pairs[|pairs| - 1];
      BatchGain(pairs[..|pairs| - 1], current)
      + (if Mergeable(last, current) then ScoreOf(ResultLevel(last)) else 0)
  }

  /** Number of mergeable pairs in a batch. */
  function MergeCount(pairs: seq<Pair>, current: Option<nat>): (n: nat)
    ensures n <= |pairs|
    decreases |pairs|
  {
    if pairs == [] then 0
    else MergeCount(pairs[..|pairs| - 1], current) + (if Mergeable(pairs[|pairs| - 1], current) then 1 else 0)
  }

  /** An accepted pair: both inputs gone, one new pizza one level up, score raised by that level's score. */
  lemma MergeAccepted(s: MergeState, p: Pair, current: Option<nat>, scaleFactor: real)
    requires Accepts(s, p, current)
    ensures var r := MergeStep(s, p, current, scaleFactor);
      && r.score == s.score + ScoreOf(p.a.kind.level + 1)
      && r.nextId == s.nextId + 1
      && r.locks == s.locks
      && r.bodies == RemoveBody(RemoveBody(s.bodies, p.a.id), p.b.id) + [MergedPizza(p, s.nextId, scaleFactor)]
  {
  }

  /**
   * After an accepted merge the world holds exactly the bodies it held before other than
   * the two inputs, and the merged pizza.
   */
  lemma MergeMembership(s: MergeState, p: Pair, current: Option<nat>, scaleFactor: real)
    requires Accepts(s, p, current)
    ensures forall b :: b in MergeStep(s, p, current, scaleFactor).bodies <==>
      (b in s.bodies && b.id != p.a.id && b.id != p.b.id) || b == MergedPizza(p, s.nextId, scaleFactor)
  {
    MergeAccepted(s, p, current, scaleFactor);
    RemoveBodyMembers(s.bodies, p.a.id);
    RemoveBodyMembers(RemoveBody(s.bodies, p.a.id), p.b.id);
  }

  /**
   * The state between two pairs: no lock held, every body's id already handed out,
   * and the aimed piece, if any, held static as a sensor in the world.
   */
  predicate WellFormed(s: MergeState, current: Option<nat>)
  {
    && s.locks == map[]
    && IdsBelow(s.bodies, s.nextId)
    && (current.Some? ==> Held(s.bodies, current.value))
  }

  /**
   * A merge keeps the state well formed: the lock map is empty again, the aimed piece
   * is never taken out of the world and the pizza added carries an id no body had.
   */
  lemma MergeStepKeepsWorld(s: MergeState, p: Pair, current: Option<nat>, scaleFactor: real)
    requires WellFormed(s, current)
    ensures WellFormed(MergeStep(s, p, current, scaleFactor), current)
  {
    if Accepts(s, p, current) {
      var removedA := RemoveBody(s.bodies, p.a.id);
      var remaining := RemoveBody(removedA, p.b.id);
      UpdatesKeepIds(s.bodies, p.a.id, 0.0, s.nextId);
      UpdatesKeepIds(removedA, p.b.id, 0.0, s.nextId);
      assert IdsBelow(remaining + [MergedPizza(p, s.nextId, scaleFactor)], s.nextId + 1);
      if current.Some? {
        LookupRemoveOther(s.bodies, p.a.id, current.value);
        LookupRemoveOther(removedA, p.b.id, current.value);
        LookupAppend(remaining, MergedPizza(p, s.nextId, scaleFactor), current.value);
      }
    }
  }

  /**
   * With no lock held, which pairs merge depends only on the pairs: the score rises by
   * the batch gain and one id is used per mergeable pair, whatever the world holds.
   */
  lemma {:induction false} BatchEffect(s: MergeState, pairs: seq<Pair>, current: Option<nat>, scaleFactor: real)
    requires s.locks == map[]
    ensures ProcessPairs(s, pairs, current, scaleFactor).score == s.score + BatchGain(pairs, current)
    ensures ProcessPairs(s, pairs, current, scaleFactor).nextId == s.nextId + MergeCount(pairs, current)
    decreases |pairs|
  {
    if pairs != [] {
      BatchEffect(s, pairs[..|pairs| - 1], current, scaleFactor);
    }
  }

  /** A batch with no mergeable pair leaves the world, the score and the ids alone. */
  lemma {:induction false} NoMergeablePairs(s: MergeState, pairs: seq<Pair>, current: Option<nat>, scaleFactor: real)
    requires forall i :: 0 <= i < |pairs| ==> !Mergeable(pairs[i], current)
    ensures ProcessPairs(s, pairs, current, scaleFactor) == s
    decreases |pairs|
  {
    if pairs != [] {
      NoMergeablePairs(s, pairs[..|pairs| - 1], current, scaleFactor);
    }
  }

  /**
   * The lock map does not stop a body that appears in two pairs of one batch: when
   * (a, b) and (a, c) are both mergeable, both merges happen, a is consumed twice,
   * the score rises twice and two pizzas are created. (Bodies the engine reports were
   * created earlier, so their ids are below the next id.)
   */
  lemma SharedBodyMergesTwice(s: MergeState, a: Body, b: Body, c: Body, current: Option<nat>, scaleFactor: real)
    requires s.locks == map[]
    requires Mergeable(Pair(a, b), current) && Mergeable(Pair(a, c), current)
    requires a.id < s.nextId && c.id < s.nextId
    ensures var r := ProcessPairs(s, [Pair(a, b), Pair(a, c)], current, scaleFactor);
      && r.score == s.score + 2 * ScoreOf(a.kind.level + 1)
      && r.nextId == s.nextId + 2
      && MergedPizza(Pair(a, b), s.nextId, scaleFactor) in r.bodies
      && MergedPizza(Pair(a, c), s.nextId + 1, scaleFactor) in r.bodies
  {
    var pairs := [Pair(a, b), Pair(a, c)];
    var first := MergeStep(s, Pair(a, b), current, scaleFactor);
    var second := MergeStep(first, Pair(a, c), current, scaleFactor);
    assert ProcessPairs(s, pairs, current, scaleFactor) == second by {
      assert pairs[..1] == [Pair(a, b)] && pairs[..1][..0] == [];
      assert ProcessPairs(s, pairs[..1], current, scaleFactor) == first;
    }
    var m1 := MergedPizza(Pair(a, b), s.nextId, scaleFactor);
    assert first.score == s.score + ScoreOf(a.kind.level + 1) && first.nextId == s.nextId + 1
        && m1 in first.bodies by {
      MergeAccepted(s, Pair(a, b), current, scaleFactor);
    }
    assert second.score == first.score + ScoreOf(a.kind.level + 1) && second.nextId == first.nextId + 1
        && m1 in second.bodies && MergedPizza(Pair(a, c), s.nextId + 1, scaleFactor) in second.bodies by {
      MergeAccepted(first, Pair(a, c), current, scaleFactor);
      RemoveBodyMembers(first.bodies, a.id);
      RemoveBodyMembers(RemoveBody(first.bodies, a.id), c.id);
    }
  }
}
