/**
  The XP and level arithmetic of lesson completion (controllers/StudentController.js,
  the lines after "Update user XP"): the reward defaults to 10 when the lesson's
  reward is missing or zero, and the level is `floor(xp / 100) + 1`.
 */
module Xp {
  import opened Js
  import opened Schema

  const XpPerLevel := 100

  /** `lesson.xp_reward || 10` */
  function XpEarned(reward: Option<int>): (r: int)
    ensures r != 0
    ensures reward.Some? && reward.value != 0 ==> r == reward.value
    ensures reward.None? || reward.value == 0 ==> r == DefaultLessonReward
  {
    IntOr(reward, DefaultLessonReward)
  }

  /** `Math.floor(xp / 100) + 1`: the level is the one whose 100-XP band holds `xp`. */
  function LevelFor(xp: int): (l: int)
    ensures (l - 1) * XpPerLevel <= xp < l * XpPerLevel
  {
    xp / XpPerLevel + 1
  }

  /** What one completion does to a user's XP and level, and what the response reports. */
  datatype Award = Award(xpEarned: int, newXp: int, newLevel: int, leveledUp: bool)

  /** The arithmetic of one completion from the stored `xp`, `level` and the lesson's reward. */
  function ApplyCompletion(xp: Option<int>, level: Option<int>, reward: Option<int>): (a: Award)
  {
    var earned := XpEarned(reward);
    var newXp := IntOr(xp, DefaultXp) + earned;
    var newLevel := LevelFor(newXp);
    Award(earned, newXp, newLevel, newLevel > IntOr(level, DefaultLevel))
  }

  /** No one with non-negative XP is below level 1. */
  lemma LevelAtLeastOne(xp: int)
    requires xp >= 0
    ensures LevelFor(xp) >= 1
  {
  }

  /** More XP never means a lower level. */
  lemma LevelMonotone(a: int, b: int)
    requires a <= b
    ensures LevelFor(a) <= LevelFor(b)
  {
  }

  /**
    With a missing or non-negative reward, a completion strictly raises XP, and the new level is
    at least the level the old XP implies (a stored level above that can still be lowered).
   */
  lemma CompletionRaisesXp(xp: Option<int>, level: Option<int>, reward: Option<int>)
    requires reward.None? || reward.value >= 0
    ensures ApplyCompletion(xp, level, reward).newXp > IntOr(xp, DefaultXp)
    ensures ApplyCompletion(xp, level, reward).newLevel >= LevelFor(IntOr(xp, DefaultXp))
  {
    var a := ApplyCompletion(xp, level, reward);
    LevelMonotone(IntOr(xp, DefaultXp), a.newXp);
  }

  /**
    The reported `leveledUp` flag compares the new level with the stored one (1 when missing
    or zero); when the stored level agrees with the stored XP, it is raised exactly when the
    new XP enters a higher 100-XP band.
   */
  lemma LeveledUpMeaning(xp: Option<int>, level: Option<int>, reward: Option<int>)
    ensures var a := ApplyCompletion(xp, level, reward);
      a.leveledUp <==> a.newLevel > IntOr(level, DefaultLevel)
    ensures var a := ApplyCompletion(xp, level, reward);
      IntOr(level, DefaultLevel) == LevelFor(IntOr(xp, DefaultXp)) ==>
        (a.leveledUp <==> a.newXp / XpPerLevel > IntOr(xp, DefaultXp) / XpPerLevel)
  {
  }

  /** The two worked examples: 90 XP + 15 reaches level 2; 105 XP + a zero reward (10) stays at level 2. */
  lemma CompletionExamples()
    ensures ApplyCompletion(Some(90), Some(1), Some(15)) == Award(15, 105, 2, true)
    ensures ApplyCompletion(Some(105), Some(2), Some(0)) == Award(10, 115, 2, false)
    ensures ApplyCompletion(None, None, None) == Award(10, 10, 1, false)
  {
  }
}
