/**
 * Spawn placement: the search for a height at which a new piece does not overlap a
 * pizza already in the world. The search keeps x fixed and probes upward from the
 * desired height in fixed steps, at most MaxAttempts times; it gives up and keeps the
 * desired height when the next candidate would lie above the top (less than the
 * radius) or the probes run out. Occupancy is the engine's point query, taken as a
 * predicate on the candidate height.
 */
module Spawn {
  const MaxAttempts: nat := 20

  /** The candidate height probed at attempt k. */
  function ProbeY(desiredY: real, yIncrement: real, k: nat): real
  {
    desiredY - k as real * yIncrement
  }

  /** Candidates move up by exactly one increment per attempt. */
  lemma ProbeYStep(desiredY: real, yIncrement: real, k: nat)
    ensures ProbeY(desiredY, yIncrement, k + 1) == ProbeY(desiredY, yIncrement, k) - yIncrement
  {
  }

  /** Later candidates are never lower than earlier ones. */
  lemma ProbeYAntitone(desiredY: real, yIncrement: real, j: nat, k: nat)
    requires yIncrement > 0.0 && j <= k
    ensures ProbeY(desiredY, yIncrement, k) <= ProbeY(desiredY, yIncrement, j)
  {
    assert ProbeY(desiredY, yIncrement, j) - ProbeY(desiredY, yIncrement, k)
        == (k - j) as real * yIncrement;
  }

  /** The k-th step above the desired height is inside the field and free. */
  ghost predicate Acceptable(desiredY: real, radius: real, yIncrement: real, occupied: real -> bool, k: nat)
  {
    1 <= k < MaxAttempts
    && radius <= ProbeY(desiredY, yIncrement, k)
    && !occupied(ProbeY(desiredY, yIncrement, k))
  }

  /** Step k is acceptable and no smaller step is. */
  ghost predicate FirstAcceptable(desiredY: real, radius: real, yIncrement: real, occupied: real -> bool, k: nat)
  {
    Acceptable(desiredY, radius, yIncrement, occupied, k)
    && forall j: nat :: 1 <= j < k ==> !Acceptable(desiredY, radius, yIncrement, occupied, j)
  }

  /**
   * The height the search settles on: the desired height when it is free; otherwise
   * the first acceptable step above it; otherwise, as a fallback, the desired height.
   */
  ghost predicate IsSpawnY(y: real, desiredY: real, radius: real, yIncrement: real, occupied: real -> bool)
  {
    if !occupied(desiredY) then y == desiredY
    else if exists k: nat :: FirstAcceptable(desiredY, radius, yIncrement, occupied, k) then
      exists k: nat :: FirstAcceptable(desiredY, radius, yIncrement, occupied, k)
                       && y == ProbeY(desiredY, yIncrement, k)
    else y == desiredY
  }

  /**
   * Probes the desired height and then steps upward; returns the first free height,
   * or the desired height if the top is reached or the attempts run out. The ghost
   * result lists the heights probed, in order.
   */
  method FindSafeSpawnY(desiredY: real, radius: real, yIncrement: real, occupied: real -> bool)
    returns (y: real, ghost probes: seq<real>)
    requires yIncrement > 0.0
    ensures IsSpawnY(y, desiredY, radius, yIncrement, occupied)
    ensures 1 <= |probes| <= MaxAttempts
    ensures forall k :: 0 <= k < |probes| ==> probes[k] == ProbeY(desiredY, yIncrement, k)
  {
    var safeY := desiredY;
    probes := [];
    for attempt := 0 to MaxAttempts
      invariant safeY == ProbeY(desiredY, yIncrement, attempt)
      invariant |probes| == attempt
      invariant forall k :: 0 <= k < attempt ==> probes[k] == ProbeY(desiredY, yIncrement, k)
      invariant attempt > 0 ==> occupied(desiredY) && radius <= safeY
      invariant forall j: nat :: 1 <= j < attempt ==> !Acceptable(desiredY, radius, yIncrement, occupied, j)
    {
      probes := probes + [safeY];
      if !occupied(safeY) {
        y := safeY;
        if attempt > 0 {
          assert FirstAcceptable(desiredY, radius, yIncrement, occupied, attempt);
        }
        return;
      }
      ProbeYStep(desiredY, yIncrement, attempt);
      safeY := safeY - yIncrement;
      if safeY < radius {
        forall k: nat | k > attempt
          ensures !Acceptable(desiredY, radius, yIncrement, occupied, k)
        {
          ProbeYAntitone(desiredY, yIncrement, attempt + 1, k);
        }
        y := desiredY;
        return;
      }
    }
    y := desiredY;
  }

  /** The search result is determined: the specification admits one height only. */
  lemma SpawnYUnique(y1: real, y2: real, desiredY: real, radius: real, yIncrement: real, occupied: real -> bool)
    requires IsSpawnY(y1, desiredY, radius, yIncrement, occupied)
    requires IsSpawnY(y2, desiredY, radius, yIncrement, occupied)
    ensures y1 == y2
  {
    if occupied(desiredY) && exists k: nat :: FirstAcceptable(desiredY, radius, yIncrement, occupied, k) {
      var k1: nat :| FirstAcceptable(desiredY, radius, yIncrement, occupied, k1)
                     && y1 == ProbeY(desiredY, yIncrement, k1);
      var k2: nat :| FirstAcceptable(desiredY, radius, yIncrement, occupied, k2)
                     && y2 == ProbeY(desiredY, yIncrement, k2);
      assert k1 == k2;
    }
  }

  /** The piece is never placed below the desired height. */
  lemma SpawnYAtMostDesired(y: real, desiredY: real, radius: real, yIncrement: real, occupied: real -> bool)
    requires yIncrement > 0.0
    requires IsSpawnY(y, desiredY, radius, yIncrement, occupied)
    ensures y <= desiredY
  {
    if occupied(desiredY) && exists k: nat :: FirstAcceptable(desiredY, radius, yIncrement, occupied, k) {
      var k: nat :| FirstAcceptable(desiredY, radius, yIncrement, occupied, k)
                    && y == ProbeY(desiredY, yIncrement, k);
      ProbeYAntitone(desiredY, yIncrement, 0, k);
    }
  }

  /** Either the result is free and inside the field, or it is the desired height itself. */
  lemma SpawnYFreeOrFallback(y: real, desiredY: real, radius: real, yIncrement: real, occupied: real -> bool)
    requires IsSpawnY(y, desiredY, radius, yIncrement, occupied)
    ensures y == desiredY || (!occupied(y) && radius <= y)
  {
  }

  /** When the desired height is taken but the step above is free and inside the field, that step is chosen. */
  lemma OneStepUp(y: real, desiredY: real, radius: real, yIncrement: real, occupied: real -> bool)
    requires occupied(desiredY)
    requires radius <= desiredY - yIncrement && !occupied(desiredY - yIncrement)
    requires IsSpawnY(y, desiredY, radius, yIncrement, occupied)
    ensures y == desiredY - yIncrement
  {
    assert FirstAcceptable(desiredY, radius, yIncrement, occupied, 1);
    SpawnYUnique(y, desiredY - yIncrement, desiredY, radius, yIncrement, occupied);
  }
}
