/** The reward engine: the experience-points counter, the level derived from
    it, and the level-up signal raised when a completion crosses a multiple of
    100 points. */
module Rewards {
  import opened Wrappers

  /** Points granted for a completion and taken back for an un-completion. */
  const Step: nat := 10

  /** Points per level. */
  const PointsPerLevel: nat := 100

  /** The displayed level, `floor(points / 100) + 1`: level `l` covers the
      hundred points from `(l - 1) * 100` up to, not including, `l * 100`. */
  function Level(points: nat): (l: nat)
    ensures l >= 1
    ensures (l - 1) * PointsPerLevel <= points < l * PointsPerLevel
  {
    points / PointsPerLevel + 1
  }

  /** Level is the only `l` that brackets `points` in this way. */
  lemma LevelUnique(points: nat, l: nat)
    requires l >= 1 && (l - 1) * PointsPerLevel <= points < l * PointsPerLevel
    ensures Level(points) == l
  {
  }

  /** What one toggle does to the counter: the new total, and the level to
      announce in the level-up popup when the level went up. */
  datatype Reward = Reward(points: nat, levelUp: Option<nat>)

  /** `handleRewards(isDone)`: a completion adds 10 points, an un-completion
      takes 10 away but never below zero; a level-up is signalled exactly when
      the new level exceeds the old one, and only a completion can cause one,
      by exactly one level. */
  function HandleRewards(points: nat, isDone: bool): (r: Reward)
    ensures isDone ==> r.points == points + Step
    ensures !isDone ==> r.points + Step >= points && r.points <= points
    ensures !isDone && points >= Step ==> r.points == points - Step
    ensures !isDone && points < Step ==> r.points == 0
    ensures r.levelUp.Some? <==> Level(r.points) > Level(points)
    ensures r.levelUp.Some? ==> isDone && r.levelUp.value == Level(r.points) == Level(points) + 1
  {
    var newPoints: nat := if isDone then points + Step else if points >= Step then points - Step else 0;
    var newLevel := Level(newPoints);
    if newLevel > Level(points) then
      LevelUnique(newPoints, Level(points) + 1);
      Reward(newPoints, Some(newLevel))
    else
      Reward(newPoints, None)
  }

  /** A toggle levels up exactly when it is a completion made with the last
      ten points of a level still to earn. */
  lemma LevelUpCharacterised(points: nat, isDone: bool)
    ensures HandleRewards(points, isDone).levelUp.Some?
            <==> isDone && points % PointsPerLevel >= PointsPerLevel - Step
  {
    var q, m := points / PointsPerLevel, points % PointsPerLevel;
    assert points == q * PointsPerLevel + m;
    if isDone && m >= PointsPerLevel - Step {
      LevelUnique(points + Step, q + 2);
    } else if isDone {
      LevelUnique(points + Step, q + 1);
    }
  }

  /** An un-completion never raises the level and lowers it by at most one. */
  lemma UncompleteLosesAtMostOneLevel(points: nat)
    ensures var p := HandleRewards(points, false).points;
      Level(p) <= Level(points) <= Level(p) + 1
  {
  }

  /** Completing then un-completing a task restores the counter. */
  lemma CompleteThenUncomplete(points: nat)
    ensures HandleRewards(HandleRewards(points, true).points, false).points == points
  {
  }

  /** Un-completing then completing restores the counter when there were at
      least ten points to take; from below ten it ends at exactly ten. */
  lemma UncompleteThenComplete(points: nat)
    ensures var p := HandleRewards(HandleRewards(points, false).points, true).points;
      if points >= Step then p == points else p == Step
  {
  }

  /** From 95 points a completion reaches 105 and level 2, with a popup. */
  lemma LevelUpExample()
    ensures HandleRewards(95, true) == Reward(105, Some(2))
    ensures Level(95) == 1
  {
  }
}
