/**
 * Experience and levels (src/player/PlayerExperienceManager.ts): level `L` needs
 * (10 L)^2 experience points, the level is the largest one reached (at least 1,
 * at most the maximum level), and stored experience never exceeds what the
 * maximum level needs.
 */
module Experience {

  import opened Wrappers
  import opened Config

  /** The experience a player needs to reach `level`: (10 * level)^2. */
  function NecessaryExperienceForLevel(level: nat): nat
  {
    (level * 10) * (level * 10)
  }

  lemma SquareStrict(x: nat, y: nat)
    requires x < y
    ensures x * x < y * y
  {
    assert x * x <= x * y;
    assert x * y < y * y;
  }

  /** A higher level needs strictly more experience. */
  lemma NecessaryStrict(a: nat, b: nat)
    requires a < b
    ensures NecessaryExperienceForLevel(a) < NecessaryExperienceForLevel(b)
  {
    SquareStrict(a * 10, b * 10);
  }

  lemma NecessaryMonotone(a: nat, b: nat)
    requires a <= b
    ensures NecessaryExperienceForLevel(a) <= NecessaryExperienceForLevel(b)
  {
    if a < b {
      NecessaryStrict(a, b);
    }
  }

  /** The highest level at or above `from` whose requirement `xp` meets. */
  function RootFrom(xp: nat, from: nat): (l: nat)
    requires NecessaryExperienceForLevel(from) <= xp
    ensures from <= l
    ensures NecessaryExperienceForLevel(l) <= xp < NecessaryExperienceForLevel(l + 1)
    decreases xp - NecessaryExperienceForLevel(from)
  {
    NecessaryStrict(from, from + 1);
    if NecessaryExperienceForLevel(from + 1) <= xp then RootFrom(xp, from + 1) else from
  }

  /** `floor(0.1 * sqrt(xp))` on integers: the highest level whose requirement `xp` meets. */
  function RootLevel(xp: nat): (l: nat)
    ensures NecessaryExperienceForLevel(l) <= xp < NecessaryExperienceForLevel(l + 1)
  {
    RootFrom(xp, 0)
  }

  /** Any level whose requirement `xp` meets is at most `RootLevel(xp)`. */
  lemma RootAtLeast(xp: nat, l: nat)
    requires NecessaryExperienceForLevel(l) <= xp
    ensures l <= RootLevel(xp)
  {
    var r := RootLevel(xp);
    if r < l {
      if r + 1 < l {
        NecessaryStrict(r + 1, l);
      }
    }
  }

  /** `RootLevel(xp)` is the only level reached by `xp` whose successor is not. */
  lemma RootLevelUnique(xp: nat, l: nat)
    requires NecessaryExperienceForLevel(l) <= xp < NecessaryExperienceForLevel(l + 1)
    ensures RootLevel(xp) == l
  {
    var r := RootLevel(xp);
    RootAtLeast(xp, l);
    if l < r {
      if l + 1 < r {
        NecessaryStrict(l + 1, r);
      }
    }
  }

  /**
   * `calculateLevel`'s formula: `max(1, floor(0.1 * sqrt(xp)))`, lowered to the
   * maximum level when there is one and the formula exceeds it. The level is
   * reached by `xp` (or is 1), and the next level is not (or the cap stops it).
   */
  function LevelFor(xp: nat, maxLevel: Option<nat>): (l: nat)
    ensures maxLevel.Some? ==> l <= maxLevel.value
    ensures maxLevel.None? || maxLevel.value >= 1 ==> l >= 1
    ensures l == 1 || NecessaryExperienceForLevel(l) <= xp
    ensures xp < NecessaryExperienceForLevel(l + 1) || (maxLevel.Some? && l == maxLevel.value)
  {
    var root := RootLevel(xp);
    var newLevel := if root < 1 then 1 else root;
    if maxLevel.Some? && newLevel > maxLevel.value then
      NecessaryMonotone(maxLevel.value, root);
      maxLevel.value
    else
      newLevel
  }

  /** More experience never means a lower level. */
  lemma {:induction false} LevelMonotone(xp: nat, more: nat, maxLevel: Option<nat>)
    requires xp <= more
    ensures LevelFor(xp, maxLevel) <= LevelFor(more, maxLevel)
  {
    RootAtLeast(more, RootLevel(xp));
  }

  /** `setExperience`'s cap: at most the experience the maximum level needs. */
  function CappedExperience(xp: nat, maxLevel: Option<nat>): (r: nat)
    ensures r <= xp
    ensures maxLevel.Some? ==> r <= NecessaryExperienceForLevel(maxLevel.value)
    ensures r == xp || (maxLevel.Some? && r == NecessaryExperienceForLevel(maxLevel.value))
  {
    if maxLevel.Some? && xp >= NecessaryExperienceForLevel(maxLevel.value) then
      NecessaryExperienceForLevel(maxLevel.value)
    else
      xp
  }

  /** Capping the experience never changes the level it gives. */
  lemma CappedKeepsLevel(xp: nat, maxLevel: Option<nat>)
    ensures LevelFor(CappedExperience(xp, maxLevel), maxLevel) == LevelFor(xp, maxLevel)
  {
    if maxLevel.Some? && xp >= NecessaryExperienceForLevel(maxLevel.value) {
      var m := maxLevel.value;
      RootAtLeast(xp, m);
      RootAtLeast(NecessaryExperienceForLevel(m), m);
    }
  }

  /** Capping twice is capping once. */
  lemma CappedIdempotent(xp: nat, maxLevel: Option<nat>)
    ensures CappedExperience(CappedExperience(xp, maxLevel), maxLevel) == CappedExperience(xp, maxLevel)
  {
  }

  /** With the game's maximum level, experience stops at 1,000,000 and that amount gives level 100. */
  lemma MaximumLevelReached()
    ensures NecessaryExperienceForLevel(MaxLevel) == 1000000
    ensures LevelFor(1000000, Some(MaxLevel)) == MaxLevel
    ensures forall xp: nat :: CappedExperience(xp, Some(MaxLevel)) <= 1000000
  {
    RootAtLeast(1000000, MaxLevel);
  }

  /** Level 1 runs up to 399 experience points, level 2 starts at 400. */
  lemma FirstLevels()
    ensures LevelFor(0, Some(MaxLevel)) == 1 && LevelFor(399, Some(MaxLevel)) == 1
    ensures LevelFor(400, Some(MaxLevel)) == 2
  {
    RootLevelUnique(0, 0);
    RootLevelUnique(399, 1);
    RootLevelUnique(400, 2);
  }

  /**
   * A player's experience and level. `level` is the value `calculateLevel` last
   * stored; `loaded` says whether the persisted experience has arrived.
   */
  class PlayerExperienceManager {
    var experience: nat
    var level: nat
    const maxLevel: Option<nat>
    var loaded: bool

    /** The level is the one the experience gives, and the experience is within the cap. */
    ghost predicate Valid()
      reads this
    {
      && level == LevelFor(experience, maxLevel)
      && (maxLevel.Some? ==> experience <= NecessaryExperienceForLevel(maxLevel.value))
    }

    /** A new manager: no experience, level 1, the game's maximum level, nothing loaded. */
    constructor ()
      ensures Valid() && !loaded
      ensures experience == 0 && level == 1 && maxLevel == Some(MaxLevel)
    {
      experience := 0;
      maxLevel := Some(MaxLevel);
      loaded := false;
      level := 0;
      new;
      CalculateLevel();
      FirstLevels();
    }

    method CalculateLevel()
      modifies this`level
      ensures level == LevelFor(experience, maxLevel)
    {
      var root := RootLevel(experience);
      var newLevel := if root < 1 then 1 else root;
      if maxLevel.Some? && newLevel > maxLevel.value {
        level := maxLevel.value;
        return;
      }
      level := newLevel;
    }

    /** Stores `xp`, capped, and the level that `xp` itself gives. */
    method SetExperience(xp: nat)
      modifies this`experience, this`level
      ensures Valid()
      ensures experience == CappedExperience(xp, maxLevel) && level == LevelFor(xp, maxLevel)
    {
      experience := xp;
      if maxLevel.Some? && experience >= NecessaryExperienceForLevel(maxLevel.value) {
        experience := NecessaryExperienceForLevel(maxLevel.value);
      }
      CalculateLevel();
      CappedKeepsLevel(xp, maxLevel);
    }

    /** Adding experience is setting the sum; the level never drops. */
    method AddExperience(amount: nat)
      requires Valid()
      modifies this`experience, this`level
      ensures Valid()
      ensures experience == CappedExperience(old(experience) + amount, maxLevel)
      ensures level == LevelFor(old(experience) + amount, maxLevel) && old(level) <= level
    {
      LevelMonotone(experience, experience + amount, maxLevel);
      SetExperience(experience + amount);
    }

    /** The experience the next level needs; it is always more than the player has. */
    function NecessaryExperienceForNextLevel(): (r: nat)
      requires Valid()
      reads this
      ensures experience < r
    {
      NecessaryStrict(level, level + 1);
      NecessaryExperienceForLevel(level + 1)
    }

    /** The persisted data arrived: its experience (0 when absent) is set and the manager is loaded. */
    method Load(persisted: Option<nat>)
      modifies this`experience, this`level, this`loaded
      ensures Valid() && loaded
      ensures var xp := if persisted.Some? then persisted.value else 0;
        experience == CappedExperience(xp, maxLevel) && level == LevelFor(xp, maxLevel)
    {
      var xp := if persisted.Some? then persisted.value else 0;
      SetExperience(xp);
      loaded := true;
    }

    /** The record `save` writes: the experience, or nothing before the load finished. */
    method Save() returns (r: Option<nat>)
      ensures r.None? <==> !loaded
      ensures r.Some? ==> r.value == experience
    {
      if !loaded {
        return None;
      }
      return Some(experience);
    }
  }
}
