/** Points and levels. One point per whole minute tracked; levels have cumulative
    thresholds that start at 100 points and grow by a per-level increment. */
module Gamification {

  /** `Math.floor(seconds / 60)`: the number of whole minutes, rounded down also for negative input. */
  function CalculatePoints(seconds: int): (p: int)
    ensures p * 60 <= seconds < (p + 1) * 60
  {
    seconds / 60
  }

  lemma CalculatePointsMonotone(a: int, b: int)
    requires a <= b
    ensures CalculatePoints(a) <= CalculatePoints(b)
  {
  }

  /** The increment added to the cumulative threshold when a level is reached,
      `Math.floor(100 * Math.pow(1.15, level - 1))` in floating point. The model takes it
      as a parameter and relies only on it being at least 100. */
  ghost predicate ValidIncrement(inc: int -> int) {
    forall level :: inc(level) >= 100
  }

  /** Cumulative points at which `level` is reached: 0 for level 1, 100 for level 2, and
      the threshold of the previous level plus that level's increment from then on. */
  function Threshold(level: nat, inc: int -> int): int
    requires level >= 1
  {
    if level == 1 then 0
    else if level == 2 then 100
    else Threshold(level - 1, inc) + inc(level - 1)
  }

  /** Every level costs at least 100 more points than the previous one. */
  lemma {:induction false} ThresholdGrows(level: nat, inc: int -> int)
    requires level >= 1 && ValidIncrement(inc)
    ensures Threshold(level + 1, inc) >= Threshold(level, inc) + 100
    ensures Threshold(level, inc) >= 100 * (level - 1)
    decreases level
  {
    if level > 1 {
      ThresholdGrows(level - 1, inc);
    }
  }

  lemma {:induction false} ThresholdMonotone(a: nat, b: nat, inc: int -> int)
    requires 1 <= a <= b && ValidIncrement(inc)
    ensures Threshold(a, inc) <= Threshold(b, inc)
    ensures a < b ==> Threshold(a, inc) < Threshold(b, inc)
    decreases b - a
  {
    if a < b {
      ThresholdMonotone(a + 1, b, inc);
      ThresholdGrows(a, inc);
    }
  }

  /** `points` lies in the band of `level`. */
  predicate InBand(points: int, level: nat, inc: int -> int)
    requires level >= 1
  {
    Threshold(level, inc) <= points < Threshold(level + 1, inc)
  }

  /** The result of `calculateLevel`. The percentage is kept as the integer pair it is
      computed from: `progress = pointsInCurrentLevel / pointsToNextLevel * 100`. */
  datatype LevelInfo = LevelInfo(level: int, pointsForNextLevel: int, pointsInCurrentLevel: int, pointsToNextLevel: int)

  /** `calculateLevel`: climbs the thresholds until the next one is above `points`. */
  method CalculateLevel(points: int, inc: int -> int) returns (r: LevelInfo)
    requires ValidIncrement(inc)
    ensures points < 0 ==> r == LevelInfo(1, 100, 0, 100)
    ensures points >= 0 ==> r.level >= 1 && InBand(points, r.level, inc)
    ensures points >= 0 ==> r.pointsForNextLevel == Threshold(r.level + 1, inc)
    ensures points >= 0 ==> r.pointsInCurrentLevel == points - Threshold(r.level, inc)
    ensures points >= 0 ==> r.pointsToNextLevel == Threshold(r.level + 1, inc) - Threshold(r.level, inc)
    ensures points >= 0 ==> r.level <= 1 + points / 100
    ensures 0 <= r.pointsInCurrentLevel < r.pointsToNextLevel
  {
    if points < 0 {
      return LevelInfo(1, 100, 0, 100);
    }
    var level: nat := 1;
    var requiredPoints := 100;
    var pointsAtLevelStart := 0;
    while points >= requiredPoints
      invariant level >= 1
      invariant pointsAtLevelStart == Threshold(level, inc) <= points
      invariant requiredPoints == Threshold(level + 1, inc)
      invariant 100 * (level - 1) <= pointsAtLevelStart
      decreases points - requiredPoints
    {
      ThresholdGrows(level + 1, inc);
      level := level + 1;
      pointsAtLevelStart := requiredPoints;
      requiredPoints := requiredPoints + inc(level);
    }
    ThresholdGrows(level, inc);
    r := LevelInfo(level, requiredPoints, points - pointsAtLevelStart, requiredPoints - pointsAtLevelStart);
  }

  /** A number of points lies in exactly one band, so the level is a function of the points. */
  lemma LevelIsUnique(points: int, l1: nat, l2: nat, inc: int -> int)
    requires l1 >= 1 && l2 >= 1 && ValidIncrement(inc)
    requires InBand(points, l1, inc) && InBand(points, l2, inc)
    ensures l1 == l2
  {
    if l1 < l2 {
      ThresholdMonotone(l1 + 1, l2, inc);
    } else if l2 < l1 {
      ThresholdMonotone(l2 + 1, l1, inc);
    }
  }

  /** More points never give a lower level. */
  lemma LevelMonotone(p1: int, p2: int, l1: nat, l2: nat, inc: int -> int)
    requires p1 <= p2 && l1 >= 1 && l2 >= 1 && ValidIncrement(inc)
    requires InBand(p1, l1, inc) && InBand(p2, l2, inc)
    ensures l1 <= l2
  {
    if l2 < l1 {
      ThresholdMonotone(l2 + 1, l1, inc);
    }
  }

  /** 0 to 99 points are level 1 and exactly 100 points are level 2, whatever the increments. */
  lemma FirstLevels(points: int, level: nat, inc: int -> int)
    requires level >= 1 && ValidIncrement(inc) && InBand(points, level, inc)
    ensures 0 <= points < 100 ==> level == 1
    ensures points == 100 ==> level == 2
  {
    ThresholdGrows(2, inc);
    if 0 <= points < 100 {
      LevelIsUnique(points, level, 1, inc);
    } else if points == 100 {
      LevelIsUnique(points, level, 2, inc);
    }
  }

  /** With the floating-point increment of level 2 (`Math.floor(100 * 1.15)` is 114, not 115),
      level 2 ends at 214 cumulative points. */
  lemma SecondLevelBand(points: int, level: nat, inc: int -> int)
    requires level >= 1 && ValidIncrement(inc) && inc(2) == 114 && InBand(points, level, inc)
    ensures level == 2 <==> 100 <= points < 214
  {
    ThresholdGrows(2, inc);
    if 100 <= points < 214 {
      LevelIsUnique(points, level, 2, inc);
    }
  }
}
