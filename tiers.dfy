/** The missing-person escalation ladder (main.py:386-392) and the per-evaluation
    tier loop that fires at most one tier (main.py:661-676). Times are milliseconds. */
module Tiers {
  import opened Common

  /** One rung of the ladder: an unseen pool person missing for `thresholdMs` or more
      is escalated to `level`. */
  datatype Tier = Tier(thresholdMs: int, level: nat)

  const MaxLevel: nat := 5

  /** The ladder, in the order the tier loop visits it: 20 s, 25 s, 30 s, 35 s, 40 s. */
  const Ladder: seq<Tier> := [Tier(20000, 1), Tier(25000, 2), Tier(30000, 3), Tier(35000, 4), Tier(40000, 5)]

  /** The threshold of tier `level`: 20 s for level 1, five seconds more per level. */
  function Threshold(level: nat): (ms: int)
    requires 1 <= level <= MaxLevel
    ensures exists i :: 0 <= i < |Ladder| && Ladder[i] == Tier(ms, level)
  {
    assert Ladder[level - 1] == Tier(15000 + 5000 * level, level);
    15000 + 5000 * level
  }

  /** The tier loop for one evaluation of an unseen person whose current level is
      `level`: it visits the ladder in order and fires the first tier whose threshold
      is met and whose level is above the current one, then stops. Because thresholds
      grow with the level, this fires exactly the next tier, `level + 1`, and only when
      its own threshold is met; a jump past several thresholds still moves one step. */
  method NextTier(level: nat, timeMissingMs: int) returns (fired: Option<Tier>)
    ensures fired.Some? <==> level < MaxLevel && timeMissingMs >= Threshold(level + 1)
    ensures fired.Some? ==> fired.value == Tier(Threshold(level + 1), level + 1)
  {
    fired := None;
    var i := 0;
    while i < |Ladder|
      invariant 0 <= i <= |Ladder|
      invariant forall j :: 0 <= j < i ==> !(timeMissingMs >= Ladder[j].thresholdMs && level < Ladder[j].level)
    {
      var tier := Ladder[i];
      if timeMissingMs >= tier.thresholdMs && level < tier.level {
        fired := Some(tier);
        break;
      }
      i := i + 1;
    }
  }
}
