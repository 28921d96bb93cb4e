// A combatant: health and mana with clamping, the gambit rule list and the
// per-tick decision machine (commit -> start delay -> cast timer -> execute),
// and the level/experience counters.

datatype UnitWeakness = None | Fire | Wind | Water | Electricity

/** The Unity tag of the unit's game object. */
datatype UnitTag = PlayerTag | EnemyTag | Untagged

/** A point of the scene; only squared distances are ever compared. */
datatype Position = Position(x: real, y: real, z: real)

/** Mathf.Clamp: `min` below, `max` above, the value itself in between. */
function Clamp(value: real, min: real, max: real): (r: real)
  ensures min <= max ==> min <= r <= max
  ensures min <= value <= max ==> r == value
  ensures value < min ==> r == min
  ensures min <= max < value ==> r == max
{
  if value < min then min else if value > max then max else value
}

/** Health as a percentage of the maximum (Unit.GetHealthPercentage). */
function Percentage(health: real, maximum: real): (p: real)
  requires maximum > 0.0
  ensures health < 0.0 <==> p < 0.0
  ensures 0.0 <= health <= maximum ==> 0.0 <= p <= 100.0
{
  health / maximum * 100.0
}

/** C#'s `(int)` cast of a float: truncation toward zero. */
function Truncate(x: real): (r: int)
  ensures x >= 0.0 ==> 0 <= r && r as real <= x < r as real + 1.0
  ensures x < 0.0 ==> r <= 0 && r as real - 1.0 < x <= r as real
{
  if x >= 0.0 then x.Floor else -((-x).Floor)
}

/** CalculateStartExperience: experience at which level `lv` starts. */
function StartExperience(lv: int): (r: int)
  ensures r >= 0
{
  lv * lv * 10
}

lemma {:induction false} StartExperienceGrows(lv: int)
  requires lv >= 0
  ensures StartExperience(lv) + 10 <= StartExperience(lv + 1)
{
  assert (lv + 1) * (lv + 1) == lv * lv + 2 * lv + 1;
}

/** The counters ChangeLevel and IncreaseExperience work on. */
datatype Progress = Progress(level: int, startExperience: int, currentExperience: int,
                             nextLevelExperience: int, maximumHealth: real)

/** The maximum health after reaching `level`: (int)(max + 8 * level + 0.6 * level^2). */
function LevelUpHealth(maximumHealth: real, level: int): (r: real)
  ensures level >= 1 ==> r > maximumHealth
{
  var res := maximumHealth + (level * 8) as real + 0.6 * (level * level) as real;
  assert level >= 1 ==> level * level >= 1;
  Truncate(res) as real
}

/** Unit.ChangeLevel on the counters. */
function ChangeLevelOf(p: Progress, levelToBecome: int): (q: Progress)
  ensures q.level == levelToBecome
  ensures q.startExperience == q.currentExperience == StartExperience(levelToBecome)
  ensures q.nextLevelExperience == StartExperience(levelToBecome + 1)
  ensures levelToBecome >= 1 ==> q.maximumHealth > p.maximumHealth
{
  Progress(levelToBecome, StartExperience(levelToBecome), StartExperience(levelToBecome),
           StartExperience(levelToBecome + 1), LevelUpHealth(p.maximumHealth, levelToBecome))
}

/** Unit.IncreaseExperience as written: the remainder is taken after
    ChangeLevel has reset the counters, so it is negative and the recursive
    call never levels up again. Returns the counters and the level-up flag. */
function GainAsWritten(p: Progress, exp: int): (Progress, bool)
  requires p.level >= 0
  decreases if p.currentExperience + exp > p.nextLevelExperience then 1 else 0
{
  var cur := p.currentExperience + exp;
  if cur > p.nextLevelExperience then
    var q := ChangeLevelOf(p, p.level + 1);
    var remainder := q.currentExperience - q.nextLevelExperience;
    StartExperienceGrows(p.level + 1);
    (GainAsWritten(q, remainder).0, true)
  else
    (p.(currentExperience := cur), false)
}

/** However large the grant, the code as written raises the level by at most one,
    reports a level-up exactly when the threshold is passed, and after a level-up
    leaves the experience below the new level's starting value. */
lemma {:induction false} GainAsWrittenOneLevel(p: Progress, exp: int)
  requires p.level >= 0
  ensures var (r, up) := GainAsWritten(p, exp);
    && up == (p.currentExperience + exp > p.nextLevelExperience)
    && r.level == (if up then p.level + 1 else p.level)
    && r.maximumHealth >= p.maximumHealth
    && (up ==> r.currentExperience == 2 * StartExperience(p.level + 1) - StartExperience(p.level + 2))
    && (up ==> r.currentExperience < r.startExperience)
{
  if p.currentExperience + exp > p.nextLevelExperience {
    var q := ChangeLevelOf(p, p.level + 1);
    var remainder := q.currentExperience - q.nextLevelExperience;
    StartExperienceGrows(p.level + 1);
    assert q.currentExperience + remainder <= q.nextLevelExperience;
    assert GainAsWritten(q, remainder).0 == q.(currentExperience := q.currentExperience + remainder);
  }
}

/** The evidently intended IncreaseExperience: the surplus over the threshold
    is carried into the next level, and levelling repeats while it still
    passes the next threshold. */
function GainIntended(p: Progress, exp: int): (Progress, bool)
  requires p.level >= 0
  decreases p.currentExperience + exp - p.nextLevelExperience
{
  var total := p.currentExperience + exp;
  if total > p.nextLevelExperience then
    var q := ChangeLevelOf(p, p.level + 1);
    StartExperienceGrows(p.level + 1);
    (GainIntended(q, total - p.nextLevelExperience).0, true)
  else
    (p.(currentExperience := total), false)
}

/** The intended version loses no experience: the counter ends at the old value
    plus the grant, below the next threshold, after as many level-ups as needed. */
lemma {:induction false} GainIntendedKeepsExperience(p: Progress, exp: int)
  requires p.level >= 0 && p.nextLevelExperience == StartExperience(p.level + 1)
  ensures var (r, up) := GainIntended(p, exp);
    && r.currentExperience == p.currentExperience + exp
    && r.currentExperience <= r.nextLevelExperience
    && r.nextLevelExperience == StartExperience(r.level + 1)
    && up == (p.currentExperience + exp > p.nextLevelExperience)
    && (up ==> r.level > p.level && r.startExperience == StartExperience(r.level))
    && (up ==> r.startExperience < r.currentExperience)
    && (!up ==> r.level == p.level)
  decreases p.currentExperience + exp - p.nextLevelExperience
{
  var total := p.currentExperience + exp;
  if total > p.nextLevelExperience {
    var q := ChangeLevelOf(p, p.level + 1);
    StartExperienceGrows(p.level + 1);
    GainIntendedKeepsExperience(q, total - p.nextLevelExperience);
  }
}

/** A grant of 500 at level 3 with 90 experience: the code as written ends at
    level 4 with 70 experience (below that level's start of 160); the intended
    carry-over ends at level 7 with all 590. */
lemma ExperienceFindingExample()
  ensures GainAsWritten(Progress(3, 90, 90, 160, 100.0), 500).0.level == 4
  ensures GainAsWritten(Progress(3, 90, 90, 160, 100.0), 500).0.currentExperience == 70
  ensures GainIntended(Progress(3, 90, 90, 160, 100.0), 500).0.level == 7
  ensures GainIntended(Progress(3, 90, 90, 160, 100.0), 500).0.currentExperience == 590
{
  var p := Progress(3, 90, 90, 160, 100.0);
  GainAsWrittenOneLevel(p, 500);
  GainIntendedKeepsExperience(p, 500);
  var r := GainIntended(p, 500).0;
  var l := r.level;
  assert 10 * (l + 1) * (l + 1) >= 590 && 10 * l * l < 590 && l >= 0;
  assert 0 <= l <= 6 ==> (l + 1) * (l + 1) <= 7 * 7;
  assert l >= 8 ==> l * l >= 8 * 8;
}

class Unit {
  // level and experience
  var level: int
  var startExperience: int
  var currentExperience: int
  var nextLevelExperience: int

  // core
  var isGambitsEnabled: bool
  const name: string
  var health: real
  var healthPercentage: real
  var maximumHealth: real
  var mana: real
  var maximumMana: real

  // properties, set in the scene and never written by the engine
  const weakness: UnitWeakness
  const strength: int
  const magic: int
  const skill: int
  const speed: int
  const luck: int
  const defense: int
  const resistance: int
  const tag: UnitTag
  const position: Position

  var isLeader: bool
  var startDelay: real
  var startDelayCache: real
  var timeToAttack: real
  var maxTimeToAttack: real

  var currentValidatedRule: GambitRule?
  var gambitRules: seq<GambitRule>

  /** Set by HandleDeath's Destroy; Unity then compares the object equal to null. */
  var destroyed: bool

  /** Health and mana lie in [0, maximum]; the maximum health is positive. */
  ghost predicate Valid()
    reads this`maximumHealth, this`health, this`maximumMana, this`mana, this`level
  {
    && maximumHealth > 0.0 && 0.0 <= health <= maximumHealth
    && maximumMana >= 0.0 && 0.0 <= mana <= maximumMana
    && level >= 0
  }

  /** The scene's inspector values followed by Unit.Start. */
  constructor (name: string, tag: UnitTag, position: Position, weakness: UnitWeakness,
               strength: int, magic: int, skill: int, speed: int, luck: int,
               defense: int, resistance: int, level: int, maximumHealth: real,
               maximumMana: real, startDelay: real)
    requires maximumHealth > 0.0 && maximumMana >= 0.0 && level >= 0
    ensures Valid() && !destroyed
    ensures this.name == name && this.tag == tag && this.position == position
    ensures this.weakness == weakness && this.strength == strength && this.magic == magic
    ensures this.skill == skill && this.speed == speed && this.luck == luck
    ensures this.defense == defense && this.resistance == resistance
    ensures this.level == level && this.maximumHealth == maximumHealth && this.maximumMana == maximumMana
    ensures health == maximumHealth && mana == maximumMana && healthPercentage == 100.0
    ensures this.startDelay == startDelay && startDelayCache == startDelay
    ensures currentValidatedRule == null && gambitRules == [] && !isLeader && isGambitsEnabled
    ensures timeToAttack == 0.0 && maxTimeToAttack == 0.0
    ensures startExperience == currentExperience == StartExperience(level)
    ensures nextLevelExperience == StartExperience(level + 1)
  {
    this.name, this.tag, this.position, this.weakness := name, tag, position, weakness;
    this.strength, this.magic, this.skill, this.speed, this.luck := strength, magic, skill, speed, luck;
    this.defense, this.resistance := defense, resistance;
    this.level := level;
    startExperience := StartExperience(level);
    currentExperience := StartExperience(level);
    nextLevelExperience := StartExperience(level + 1);
    isGambitsEnabled := true;
    this.maximumHealth, this.maximumMana := maximumHealth, maximumMana;
    isLeader := false;
    this.startDelay := startDelay;
    timeToAttack, maxTimeToAttack := 0.0, 0.0;
    currentValidatedRule := null;
    gambitRules := [];
    destroyed := false;
    new;
    // Start()
    health := maximumHealth;
    mana := maximumMana;
    healthPercentage := GetHealthPercentage();
    assert health / maximumHealth == 1.0;
    startDelayCache := this.startDelay;
  }

  function Counters(): Progress
    reads this`level, this`startExperience, this`currentExperience, this`nextLevelExperience, this`maximumHealth
  {
    Progress(level, startExperience, currentExperience, nextLevelExperience, maximumHealth)
  }

  /*************** HEALTH AND MANA ***********/

  function GetHealthPercentage(): (p: real)
    reads this`health, this`maximumHealth
    requires maximumHealth > 0.0
    ensures p == Percentage(health, maximumHealth)
  {
    health / maximumHealth * 100.0
  }

  /** Adds `value` to the health. The percentage is taken from the unclamped
      sum, so an overkill leaves it negative while the health is clamped to 0. */
  method ChangeHealth(value: int)
    requires Valid()
    modifies this`health, this`healthPercentage
    ensures Valid()
    ensures health == Clamp(old(health) + value as real, 0.0, maximumHealth)
    ensures healthPercentage == Percentage(old(health) + value as real, maximumHealth)
  {
    health := health + value as real;
    healthPercentage := GetHealthPercentage();
    health := Clamp(health, 0.0, maximumHealth);
  }

  method ChangeMana(value: int)
    requires Valid()
    modifies this`mana
    ensures Valid()
    ensures mana == Clamp(old(mana) + value as real, 0.0, maximumMana)
  {
    mana := mana + value as real;
    mana := Clamp(mana, 0.0, maximumMana);
  }

  /** Adds `percentage` percent of the maximum health, clamped like ChangeHealth. */
  method ChangeHealthRelative(percentage: int)
    requires Valid()
    modifies this`health, this`healthPercentage
    ensures Valid()
    ensures health == Clamp(old(health) + maximumHealth * (percentage as real / 100.0), 0.0, maximumHealth)
    ensures healthPercentage == Percentage(old(health) + maximumHealth * (percentage as real / 100.0), maximumHealth)
  {
    var v := percentage as real / 100.0;
    var fromMax := maximumHealth * v;
    health := health + fromMax;
    healthPercentage := GetHealthPercentage();
    health := Clamp(health, 0.0, maximumHealth);
  }

  /*************** LEVEL AND EXPERIENCE ***********/

  method ChangeLevel(levelToBecome: int)
    requires Valid() && levelToBecome >= 1
    modifies this`level, this`startExperience, this`currentExperience,
             this`nextLevelExperience, this`maximumHealth
    ensures Valid()
    ensures Counters() == ChangeLevelOf(old(Counters()), levelToBecome)
  {
    level := levelToBecome;
    startExperience := StartExperience(level);
    currentExperience := StartExperience(level);
    nextLevelExperience := StartExperience(level + 1);
    maximumHealth := LevelUpHealth(maximumHealth, level);
  }

  method IncreaseOneLevel()
    requires Valid()
    modifies this`level, this`startExperience, this`currentExperience,
             this`nextLevelExperience, this`maximumHealth
    ensures Valid()
    ensures Counters() == ChangeLevelOf(old(Counters()), old(level) + 1)
  {
    ChangeLevel(level + 1);
  }

  /** The evidently intended IncreaseExperience: the surplus over the
      threshold is carried into the new level, which may pass the next
      threshold in turn. */
  method IncreaseExperienceCarryingOver(exp: int) returns (levelUp: bool)
    requires Valid()
    modifies this`level, this`startExperience, this`currentExperience,
             this`nextLevelExperience, this`maximumHealth
    ensures Valid()
    ensures (Counters(), levelUp) == GainIntended(old(Counters()), exp)
    decreases currentExperience + exp - nextLevelExperience
  {
    ghost var p := Counters();
    levelUp := false;
    currentExperience := currentExperience + exp;
    if currentExperience > nextLevelExperience {
      levelUp := true;
      var remainder := currentExperience - nextLevelExperience;
      IncreaseOneLevel();
      assert Counters() == ChangeLevelOf(p, p.level + 1);
      StartExperienceGrows(level);
      var _ := IncreaseExperienceCarryingOver(remainder);
    }
  }

  /** Adds experience; returns whether the threshold was passed. The
      remainder is taken after the level-up has reset the counters, so the
      recursive call never levels again (GainAsWrittenOneLevel). */
  method IncreaseExperience(exp: int) returns (levelUp: bool)
    requires Valid()
    modifies this`level, this`startExperience, this`currentExperience,
             this`nextLevelExperience, this`maximumHealth
    ensures Valid()
    ensures (Counters(), levelUp) == GainAsWritten(old(Counters()), exp)
    decreases if currentExperience + exp > nextLevelExperience then 1 else 0
  {
    levelUp := false;
    currentExperience := currentExperience + exp;
    if currentExperience > nextLevelExperience {
      levelUp := true;
      IncreaseOneLevel();
      var remainder := currentExperience - nextLevelExperience;
      StartExperienceGrows(level);
      var _ := IncreaseExperience(remainder);
    }
  }

  /*************** GAMBITS ***********/

  /** The conditions of this unit's rules: what a rule scan may change. */
  function RuleConditions(): set<GambitTargetCondition>
    reads this`gambitRules, gambitRules`targetCondition
  {
    set r | r in gambitRules && r.targetCondition != null :: r.targetCondition
  }

  /** The condition that trying rule `i` evaluates: none for a disabled rule. */
  function TriedCondition(i: nat): set<GambitTargetCondition>
    reads this`gambitRules, gambitRules`isEnabled, gambitRules`targetCondition
    requires i < |gambitRules|
  {
    if gambitRules[i].isEnabled && gambitRules[i].targetCondition != null then {gambitRules[i].targetCondition} else {}
  }

  /** What ValidateNextRuleFromGambits needs of the rule list to scan it
      without a null dereference or an out-of-range index (see ScanReady). */
  ghost predicate RulesReady(gm: GameManager)
    reads this`gambitRules, gambitRules`isEnabled, gambitRules`targetCondition, gambitRules`gambitAction
    reads gm`currentPartyMembers, gm`currentEnemies, gm`units, gm`rules, gm`conditions
    reads gm.units`maximumHealth, gm.units`health, gm.units`maximumMana, gm.units`mana, gm.units`level
    reads gm.units`gambitRules, gm.units`currentValidatedRule, gm.units`isLeader
    reads gm.rules`targetCondition, gm.rules`gambitAction
    reads gm.conditions`resultUnit, gm.conditions`currentIndex, gm.conditions`currentAction
    requires gm.Valid()
  {
    ScanReady(gambitRules, gm, ViewOf(gm))
  }

  /** Clears any commitment so that the next tick scans the rules again. */
  method GambitsChanged()
    modifies this`currentValidatedRule
    ensures currentValidatedRule == null
  {
    currentValidatedRule := null;
  }

  /** Clears the commitment, then commits to the first rule in list order
      that is enabled, whose condition is met, and whose mana cost is covered.
      A disabled rule's condition is not evaluated; the mana check comes after
      the condition has run. `met[j]` records what rule j's evaluation
      returned (false when it was not evaluated); `k` is the committed index,
      or |gambitRules| when nothing qualified. Called without a commitment,
      as GambitLoop does, it is exactly the scan Scan describes. */
  method ValidateNextRuleFromGambits(gm: GameManager) returns (ghost k: nat, ghost met: seq<bool>)
    requires gm.Valid() && this in gm.units && RulesReady(gm)
    modifies this`currentValidatedRule, this`timeToAttack, this`maxTimeToAttack
    modifies RuleConditions()`resultUnit, RuleConditions()`currentIndex, RuleConditions()`currentAction
    ensures gm.Valid()
    ensures ScanOutcome(gambitRules, met, mana, k)
    ensures old(currentValidatedRule) == null ==>
      var s := old(Scan(gambitRules, [], this, gm, mana, ViewOf(gm)));
      k == s.k && met == s.met && ViewOf(gm) == s.view
    ensures k < |gambitRules| ==>
      && currentValidatedRule == gambitRules[k]
      && timeToAttack == maxTimeToAttack == CastDuration(gambitRules[k].gambitAction, speed)
    ensures k == |gambitRules| ==>
      currentValidatedRule == null && timeToAttack == old(timeToAttack) && maxTimeToAttack == old(maxTimeToAttack)
  {
    DropCommitment(gm);
    k, met := ScanAndCommit(gm);
  }

  /** The scan of ValidateNextRuleFromGambits once the commitment is
      cleared: Scan from the current state, then the commitment to the
      rule it found. */
  method ScanAndCommit(gm: GameManager) returns (ghost k: nat, ghost met: seq<bool>)
    requires gm.Valid() && this in gm.units && RulesReady(gm)
    modifies this`currentValidatedRule, this`timeToAttack, this`maxTimeToAttack
    modifies RuleConditions()`resultUnit, RuleConditions()`currentIndex, RuleConditions()`currentAction
    ensures gm.Valid()
    ensures ScanOutcome(gambitRules, met, mana, k)
    ensures var s := old(Scan(gambitRules, [], this, gm, mana, ViewOf(gm)));
      k == s.k && met == s.met && ViewOf(gm) == s.view
    ensures k < |gambitRules| ==>
      && currentValidatedRule == gambitRules[k]
      && timeToAttack == maxTimeToAttack == CastDuration(gambitRules[k].gambitAction, speed)
    ensures k == |gambitRules| ==>
      && currentValidatedRule == old(currentValidatedRule)
      && timeToAttack == old(timeToAttack) && maxTimeToAttack == old(maxTimeToAttack)
  {
    ScanSound(gambitRules, [], this, gm, mana, ViewOf(gm));
    var found, i;
    found, i, met := ScanRules(gm);
    k := i;
    if found {
      Commit(gambitRules[i], gm, met, k);
    }
  }

  /** The loop of ValidateNextRuleFromGambits: the index of the first rule
      that qualifies (or |gambitRules|), and what each evaluation returned,
      as Scan computes them from the conditions' state before the loop. */
  method ScanRules(gm: GameManager) returns (found: bool, k: nat, ghost met: seq<bool>)
    requires gm.Valid() && this in gm.units && RulesReady(gm)
    modifies RuleConditions()`resultUnit, RuleConditions()`currentIndex, RuleConditions()`currentAction
    ensures gm.Valid()
    ensures var s := old(Scan(gambitRules, [], this, gm, mana, ViewOf(gm)));
      k == s.k && met == s.met && ViewOf(gm) == s.view
    ensures found <==> k < |gambitRules|
    ensures found ==> gambitRules[k].targetCondition != null && gambitRules[k].gambitAction != null
  {
    ghost var s0 := Scan(gambitRules, [], this, gm, mana, ViewOf(gm));
    var i;
    ghost var trace;
    found, i, trace := ScanLoop(s0, gm);
    k := if found then i - 1 else i;
    met := s0.met;
  }

  /** The loop itself: rule by rule until one qualifies or none is left. */
  method ScanLoop(ghost s0: ScanResult, gm: GameManager) returns (found: bool, i: nat, ghost trace: seq<bool>)
    requires ScanProgress([], false, s0, gm)
    modifies RuleConditions()`resultUnit, RuleConditions()`currentIndex, RuleConditions()`currentAction
    ensures |trace| == i && ScanProgress(trace, found, s0, gm)
    ensures !found ==> i == |gambitRules|
  {
    trace := [];
    i := 0;
    found := false;
    while i < |gambitRules| && !found
      invariant |trace| == i && ScanProgress(trace, found, s0, gm)
    {
      var m;
      found, m := ScanStep(i, trace, s0, gm);
      trace := trace + [m];
      i := i + 1;
    }
  }

  /** Where the loop of ScanRules stands after the rules in `trace`: `s0`
      is the whole scan from its start; while nothing qualified, the rest
      of it is Scan from the current state, and once a rule qualified, the
      state is the one the scan ends in. */
  ghost predicate ScanProgress(trace: seq<bool>, found: bool, s0: ScanResult, gm: GameManager)
    reads this`gambitRules, this`mana, gambitRules`isEnabled, gambitRules`targetCondition, gambitRules`gambitAction
    reads gm`currentPartyMembers, gm`currentEnemies, gm`units, gm`rules, gm`conditions
    reads gm.units`maximumHealth, gm.units`health, gm.units`maximumMana, gm.units`mana, gm.units`level
    reads gm.units`gambitRules, gm.units`currentValidatedRule, gm.units`isLeader, gm.units`healthPercentage
    reads gm.rules`targetCondition, gm.rules`gambitAction
    reads gm.conditions`resultUnit, gm.conditions`currentIndex, gm.conditions`currentAction
  {
    && gm.Valid() && this in gm.units && |trace| <= |gambitRules| && RulesReady(gm)
    && (!found ==> ScanPrefix(gambitRules, trace, mana, false)
                   && s0 == Scan(gambitRules, trace, this, gm, mana, ViewOf(gm)))
    && (found ==> && |trace| > 0 && s0.k == |trace| - 1 && s0.view == ViewOf(gm)
                  && gambitRules[|trace| - 1].targetCondition != null
                  && gambitRules[|trace| - 1].gambitAction != null)
  }

  /** One turn of the loop of ScanRules: TryRule, seen as the next step of
      the scan. */
  method ScanStep(i: nat, ghost trace: seq<bool>, ghost s0: ScanResult, gm: GameManager) returns (ok: bool, met: bool)
    requires i == |trace| < |gambitRules| && ScanProgress(trace, false, s0, gm)
    modifies TriedCondition(i)`resultUnit, TriedCondition(i)`currentIndex, TriedCondition(i)`currentAction
    ensures ScanProgress(trace + [met], ok, s0, gm)
  {
    ok, met := TryNext(i, trace, s0, gm);
  }

  /** TryRule on rule `i` after the rules of `trace`, seen as the next step
      of Scan. */
  method TryNext(i: nat, ghost trace: seq<bool>, ghost s0: ScanResult, gm: GameManager) returns (ok: bool, met: bool)
    requires gm.Valid() && this in gm.units && i == |trace| < |gambitRules| && RulesReady(gm)
    requires ScanPrefix(gambitRules, trace, mana, false) && s0 == Scan(gambitRules, trace, this, gm, mana, ViewOf(gm))
    modifies TriedCondition(i)`resultUnit, TriedCondition(i)`currentIndex, TriedCondition(i)`currentAction
    ensures gm.Valid() && this in gm.units && |trace + [met]| <= |gambitRules| && RulesReady(gm)
    ensures !ok ==> ScanPrefix(gambitRules, trace + [met], mana, false)
                    && s0 == Scan(gambitRules, trace + [met], this, gm, mana, ViewOf(gm))
    ensures ok ==> && |trace + [met]| > 0 && s0.k == |trace + [met]| - 1 && s0.view == ViewOf(gm)
                   && gambitRules[|trace + [met]| - 1].targetCondition != null
                   && gambitRules[|trace + [met]| - 1].gambitAction != null
  {
    ScanUnfold(gambitRules, trace, this, gm, mana, ViewOf(gm));
    ghost var decided;
    ok, met, decided := ReadyTryRule(i, gm);
  }

  /** TryRule, together with the fact that the rules stay ready for the
      rest of the scan. */
  method ReadyTryRule(i: nat, gm: GameManager) returns (ok: bool, met: bool, ghost decided: Binding)
    requires gm.Valid() && this in gm.units && i < |gambitRules| && RulesReady(gm)
    modifies TriedCondition(i)`resultUnit, TriedCondition(i)`currentIndex, TriedCondition(i)`currentAction
    ensures gm.Valid() && RulesReady(gm)
    ensures old(TryStep(gambitRules, i, this, gm, mana, ViewOf(gm))) == Step(ok, decided, ViewOf(gm))
    ensures met == decided.Met?
  {
    ghost var step := TryStep(gambitRules, i, this, gm, mana, ViewOf(gm));
    TryStepSound(gambitRules, i, this, gm, mana, ViewOf(gm));
    ok, met, decided := TryRule(i, gm);
    assert UsesLeaderTargets(gambitRules) ==> LeaderTargetsBoundIn(gm, step.view);
  }

  /** The test of one rule in the scan: enabled, condition met (evaluated
      only for an enabled rule), and mana enough for the action. It is the
      step TryStep describes, and what the condition decides is its
      Evaluate in the state the scan has reached. */
  method TryRule(i: nat, gm: GameManager) returns (ok: bool, met: bool, ghost decided: Binding)
    requires gm.Valid() && this in gm.units && i < |gambitRules| && RulesReady(gm)
    modifies TriedCondition(i)`resultUnit, TriedCondition(i)`currentIndex, TriedCondition(i)`currentAction
    ensures gm.Valid()
    ensures old(TryStep(gambitRules, i, this, gm, mana, ViewOf(gm))) == Step(ok, decided, ViewOf(gm))
    ensures met == decided.Met?
    ensures !gambitRules[i].isEnabled ==> !met && !ok
    ensures gambitRules[i].isEnabled ==>
      && decided == old(gambitRules[i].targetCondition.Evaluate(this, gambitRules[i], gm))
      && ok == (met && mana >= gambitRules[i].gambitAction.mpCost as real)
    ensures RulesComplete(gambitRules, gm)
  {
    var rule := gambitRules[i];
    ok, met, decided := false, false, NotMet;
    if rule.isEnabled {
      assert rule in gambitRules;
      met, decided := rule.targetCondition.IsConditionMet(this, rule, gm);
      ok := met && mana >= rule.gambitAction.mpCost as real;
    }
  }

  /** Clears the commitment, as the scan does before it looks at any rule. */
  method DropCommitment(ghost gm: GameManager)
    requires gm.Valid() && this in gm.units
    modifies this`currentValidatedRule
    ensures currentValidatedRule == null
    ensures gm.Valid()
    ensures old(RulesReady(gm)) ==> RulesReady(gm)
    ensures old(currentValidatedRule) == null && old(RulesReady(gm)) ==>
      old(Scan(gambitRules, [], this, gm, mana, ViewOf(gm))) == Scan(gambitRules, [], this, gm, mana, ViewOf(gm))
  {
    currentValidatedRule := null;
  }

  /** Commits to `rule` and starts its cast timer. */
  method Commit(rule: GambitRule, gm: GameManager, ghost met: seq<bool>, ghost k: nat)
    requires gm.Valid() && this in gm.units && rule in gambitRules
    requires rule.targetCondition != null && rule.gambitAction != null
    modifies this`currentValidatedRule, this`timeToAttack, this`maxTimeToAttack
    ensures gm.Valid() && ViewOf(gm) == old(ViewOf(gm))
    ensures old(ScanOutcome(gambitRules, met, mana, k)) ==> ScanOutcome(gambitRules, met, mana, k)
    ensures currentValidatedRule == rule
    ensures timeToAttack == maxTimeToAttack == CastDuration(rule.gambitAction, speed)
  {
    currentValidatedRule := rule;
    timeToAttack := CastDuration(rule.gambitAction, speed);
    maxTimeToAttack := timeToAttack;
  }

  /** What one tick of the decision machine did to the unit, apart from the
      scan and the action's effect: `committed` is the rule in force after
      the scan, `target` what its condition had bound and `executed` whether
      the action ran; `cvr0`, `bound0`, `mana0`, `startDelay0` and
      `timeToAttack0` are the commitment, its condition's bound unit, the mana
      and the timers before the tick. */
  ghost predicate LoopEffect(dt: real, committed: GambitRule?, target: Unit?, executed: bool,
                             cvr0: GambitRule?, bound0: Unit?, mana0: real, startDelay0: real,
                             timeToAttack0: real, gm: GameManager)
    reads this`currentValidatedRule, this`startDelay, this`timeToAttack, this`mana, this`maximumMana
    reads this`startDelayCache, this`gambitRules, gm`units, target
    reads if committed != null then {committed} else {}
  {
    && (committed != null ==> committed.targetCondition != null && committed.gambitAction != null)
    && (target != null ==> committed != null && target in gm.units)
    && (executed ==> Present(target))
    // with a commitment nothing is evaluated and the target is the one already bound
    && (cvr0 != null ==> committed == cvr0 && target == bound0)
    // without one, the rule committed to qualified
    && (cvr0 == null && committed != null ==>
          committed in gambitRules && committed.isEnabled && mana0 >= committed.gambitAction.mpCost as real)
    // no usable target: the commitment is dropped, the start delay and mana are
    // left alone, and the cast timer keeps what a fresh commitment set
    && (!Present(target) ==>
          && currentValidatedRule == null && !executed && startDelay == startDelay0 && mana == mana0
          && timeToAttack == (if cvr0 == null && committed != null then CastDuration(committed.gambitAction, speed)
                              else timeToAttack0))
    // a present target: the timers count down from the (possibly fresh) cast
    && (Present(target) ==>
          var cast := if cvr0 == null then CastDuration(committed.gambitAction, speed) else timeToAttack0;
          var tick := Countdown(Timers(startDelay0, cast), dt, startDelayCache);
          && executed == tick.1 && startDelay == tick.0.startDelay && timeToAttack == tick.0.timeToAttack
          && (!executed ==> currentValidatedRule == committed && mana == mana0)
          && (executed ==> currentValidatedRule == null
                           && mana == Clamp(mana0 - committed.gambitAction.mpCost as real, 0.0, maximumMana)))
  }

  /** One tick of the decision machine (see LoopEffect). */
  method GambitLoop(dt: real, gm: GameManager, roll: DamageRoll)
    returns (ghost committed: GambitRule?, ghost target: Unit?, ghost executed: bool)
    requires gm.Valid() && this in gm.units && RulesReady(gm)
    requires ValidRoll(roll, strength, level)
    modifies this`currentValidatedRule, this`timeToAttack, this`maxTimeToAttack, this`startDelay, this`mana
    modifies RuleConditions()`resultUnit, RuleConditions()`currentIndex, RuleConditions()`currentAction
    modifies gm.units`health, gm.units`healthPercentage
    modifies gm`intents, gm`logText, gm`logVisible, gm`logDisplayTime
    ensures gm.Valid()
    ensures unchanged(this`destroyed, gm`currentEnemies, gm`currentPartyMembers)
    ensures LoopEffect(dt, committed, target, executed, old(currentValidatedRule), old(BoundTarget()),
                       old(mana), old(startDelay), old(timeToAttack), gm)
    // without a commitment: the rule and the target are those of the scan
    ensures old(currentValidatedRule) == null ==>
      var s := old(Scan(gambitRules, [], this, gm, mana, ViewOf(gm)));
      && committed == (if s.k < |gambitRules| then gambitRules[s.k] else null)
      && target == (if s.k < |gambitRules| && s.committed.Met? then s.committed.target else null)
    // the action's effect on its target and on the presentation state, and
    // nobody else's health moves
    ensures executed ==> Applied(committed.gambitAction, target, old(target.health), old(target.healthPercentage),
                                 old(gm.intents), old(gm.LogState()), roll, gm)
    ensures !executed ==> gm.intents == old(gm.intents) && gm.LogState() == old(gm.LogState())
    ensures forall u :: u in old(gm.units) && (!executed || u != target) ==>
      u.health == old(u.health) && u.healthPercentage == old(u.healthPercentage)
  {
    ghost var cvr0, bound0, mana0, startDelay0, timeToAttack0 :=
      currentValidatedRule, BoundTarget(), mana, startDelay, timeToAttack;
    Choose(gm);
    committed, target, executed := Proceed(dt, gm, roll, cvr0, bound0, mana0, startDelay0, timeToAttack0);
  }

  /** Where Choose leaves the unit, given the commitment, its bound unit, the
      mana and the timers before the tick: a commitment held is kept with its
      target and timer, a new one qualified and has its cast timer started,
      and nothing else moved. */
  ghost predicate Chosen(cvr0: GambitRule?, bound0: Unit?, mana0: real, startDelay0: real, timeToAttack0: real)
    reads this`currentValidatedRule, this`timeToAttack, this`mana, this`startDelay, this`gambitRules
    reads if currentValidatedRule != null then {currentValidatedRule} else {}
    reads if currentValidatedRule != null then currentValidatedRule.targetCondition else null
  {
    && mana == mana0 && startDelay == startDelay0
    && (currentValidatedRule != null ==>
          currentValidatedRule.targetCondition != null && currentValidatedRule.gambitAction != null)
    && (cvr0 != null ==> currentValidatedRule == cvr0 && BoundTarget() == bound0 && timeToAttack == timeToAttack0)
    && (cvr0 == null && currentValidatedRule != null ==>
          && currentValidatedRule in gambitRules && currentValidatedRule.isEnabled
          && mana0 >= currentValidatedRule.gambitAction.mpCost as real
          && timeToAttack == CastDuration(currentValidatedRule.gambitAction, speed))
    && (cvr0 == null && currentValidatedRule == null ==> timeToAttack == timeToAttack0)
  }

  /** The rest of GambitLoop once Choose has run (see Act), seen from the
      state before Choose. */
  method Proceed(dt: real, gm: GameManager, roll: DamageRoll, ghost cvr0: GambitRule?, ghost bound0: Unit?,
                 ghost mana0: real, ghost startDelay0: real, ghost timeToAttack0: real)
    returns (ghost committed: GambitRule?, ghost target: Unit?, ghost executed: bool)
    requires gm.Valid() && this in gm.units
    requires ValidRoll(roll, strength, level)
    requires Chosen(cvr0, bound0, mana0, startDelay0, timeToAttack0)
    modifies this`currentValidatedRule, this`timeToAttack, this`startDelay, this`mana
    modifies gm.units`health, gm.units`healthPercentage
    modifies gm`intents, gm`logText, gm`logVisible, gm`logDisplayTime
    ensures gm.Valid()
    ensures unchanged(this`destroyed, gm`currentEnemies, gm`currentPartyMembers)
    ensures committed == old(currentValidatedRule) && target == old(BoundTarget())
    ensures LoopEffect(dt, committed, target, executed, cvr0, bound0, mana0, startDelay0, timeToAttack0, gm)
    ensures executed ==> Applied(committed.gambitAction, target, old(target.health), old(target.healthPercentage),
                                 old(gm.intents), old(gm.LogState()), roll, gm)
    ensures !executed ==> gm.intents == old(gm.intents) && gm.LogState() == old(gm.LogState())
    ensures forall u :: u in old(gm.units) && (!executed || u != target) ==>
      u.health == old(u.health) && u.healthPercentage == old(u.healthPercentage)
  {
    committed := currentValidatedRule;
    target, executed := Act(dt, gm, roll);
  }

  /** The unit the commitment's condition has bound, if there is a commitment. */
  function BoundTarget(): Unit?
    reads this`currentValidatedRule, currentValidatedRule, if currentValidatedRule != null then currentValidatedRule.targetCondition else null
  {
    if currentValidatedRule != null && currentValidatedRule.targetCondition != null
    then currentValidatedRule.targetCondition.resultUnit else null
  }

  /** The first line of GambitLoop: a unit without a commitment scans its
      rules; one with a commitment evaluates nothing. */
  method Choose(gm: GameManager)
    requires gm.Valid() && this in gm.units && RulesReady(gm)
    modifies this`currentValidatedRule, this`timeToAttack, this`maxTimeToAttack
    modifies RuleConditions()`resultUnit, RuleConditions()`currentIndex, RuleConditions()`currentAction
    ensures gm.Valid()
    ensures unchanged(this`destroyed, gm`currentEnemies, gm`currentPartyMembers)
    ensures old(currentValidatedRule) == null ==>
      var s := old(Scan(gambitRules, [], this, gm, mana, ViewOf(gm)));
      && currentValidatedRule == (if s.k < |gambitRules| then gambitRules[s.k] else null)
      && ViewOf(gm) == s.view
      && (s.k < |gambitRules| ==> s.committed.Met? && currentValidatedRule.targetCondition.resultUnit == s.committed.target)
    ensures old(currentValidatedRule) == null && currentValidatedRule != null ==>
      && currentValidatedRule in gambitRules && currentValidatedRule.isEnabled
      && mana >= currentValidatedRule.gambitAction.mpCost as real
      && timeToAttack == CastDuration(currentValidatedRule.gambitAction, speed)
    ensures currentValidatedRule == null ==> timeToAttack == old(timeToAttack)
    ensures unchanged(gm) && unchanged(this`mana, this`startDelay)
    ensures unchanged(gm.units`health, gm.units`healthPercentage)
    ensures old(currentValidatedRule) != null ==>
      && currentValidatedRule == old(currentValidatedRule) && timeToAttack == old(timeToAttack)
      && forall c :: c in old(RuleConditions()) ==> unchanged(c)
  {
    if currentValidatedRule == null {
      ChooseByScan(gm);
    }
  }

  /** Choose for a unit without a commitment: the scan, and what it commits to. */
  method ChooseByScan(gm: GameManager)
    requires gm.Valid() && this in gm.units && RulesReady(gm)
    modifies this`currentValidatedRule, this`timeToAttack, this`maxTimeToAttack
    modifies RuleConditions()`resultUnit, RuleConditions()`currentIndex, RuleConditions()`currentAction
    ensures gm.Valid()
    ensures old(currentValidatedRule) == null ==>
      var s := old(Scan(gambitRules, [], this, gm, mana, ViewOf(gm)));
      && currentValidatedRule == (if s.k < |gambitRules| then gambitRules[s.k] else null)
      && ViewOf(gm) == s.view
      && (s.k < |gambitRules| ==> s.committed.Met? && currentValidatedRule.targetCondition.resultUnit == s.committed.target)
    ensures currentValidatedRule != null ==>
      && currentValidatedRule in gambitRules && currentValidatedRule.isEnabled
      && mana >= currentValidatedRule.gambitAction.mpCost as real
      && timeToAttack == CastDuration(currentValidatedRule.gambitAction, speed)
    ensures currentValidatedRule == null ==> timeToAttack == old(timeToAttack)
  {
    ScanSound(gambitRules, [], this, gm, mana, ViewOf(gm));
    var _, _ := ValidateNextRuleFromGambits(gm);
  }

  /** The rest of GambitLoop: with a present target the timers run (see
      Advance); without one the commitment is dropped. */
  method Act(dt: real, gm: GameManager, roll: DamageRoll) returns (ghost target: Unit?, ghost executed: bool)
    requires gm.Valid() && this in gm.units
    requires ValidRoll(roll, strength, level)
    modifies this`currentValidatedRule, this`timeToAttack, this`startDelay, this`mana
    modifies gm.units`health, gm.units`healthPercentage
    modifies gm`intents, gm`logText, gm`logVisible, gm`logDisplayTime
    ensures gm.Valid()
    ensures target == (if old(currentValidatedRule) != null then old(currentValidatedRule).targetCondition.resultUnit else null)
    ensures target != null ==> target in gm.units
    ensures !Present(target) ==>
      && currentValidatedRule == null && !executed
      && startDelay == old(startDelay) && mana == old(mana) && timeToAttack == old(timeToAttack)
    ensures Present(target) ==>
      var tick := Countdown(Timers(old(startDelay), old(timeToAttack)), dt, startDelayCache);
      && executed == tick.1 && startDelay == tick.0.startDelay && timeToAttack == tick.0.timeToAttack
      && (!executed ==> currentValidatedRule == old(currentValidatedRule) && mana == old(mana))
      && (executed ==>
            && currentValidatedRule == null
            && mana == Clamp(old(mana) - old(currentValidatedRule).gambitAction.mpCost as real, 0.0, maximumMana)
            && Applied(old(currentValidatedRule).gambitAction, target, old(target.health), old(target.healthPercentage),
                       old(gm.intents), old(gm.LogState()), roll, gm))
    ensures !executed ==> gm.intents == old(gm.intents) && gm.LogState() == old(gm.LogState())
    ensures forall u :: u in old(gm.units) && (!executed || u != target) ==>
      u.health == old(u.health) && u.healthPercentage == old(u.healthPercentage)
  {
    var rule := currentValidatedRule;
    var bound := if rule != null then rule.targetCondition.resultUnit else null;
    target, executed := bound, false;
    if rule != null && bound != null && !bound.destroyed {
      var done := Advance(dt, bound, gm, roll);
      executed := done;
    } else {
      DropCommitment(gm);
    }
  }

  /** The timers of a commitment whose target is present: the start delay
      runs down first, then the cast timer; when that expires the action runs. */
  method Advance(dt: real, target: Unit, gm: GameManager, roll: DamageRoll) returns (executed: bool)
    requires gm.Valid() && this in gm.units && target in gm.units
    requires currentValidatedRule != null
    requires ValidRoll(roll, strength, level)
    modifies this`currentValidatedRule, this`timeToAttack, this`startDelay, this`mana
    modifies target`health, target`healthPercentage
    modifies gm`intents, gm`logText, gm`logVisible, gm`logDisplayTime
    ensures gm.Valid()
    ensures var tick := Countdown(Timers(old(startDelay), old(timeToAttack)), dt, startDelayCache);
      executed == tick.1 && startDelay == tick.0.startDelay && timeToAttack == tick.0.timeToAttack
    ensures !executed ==>
      && currentValidatedRule == old(currentValidatedRule) && mana == old(mana)
      && target.health == old(target.health) && target.healthPercentage == old(target.healthPercentage)
      && gm.intents == old(gm.intents) && gm.LogState() == old(gm.LogState())
    ensures executed ==>
      && currentValidatedRule == null
      && mana == Clamp(old(mana) - old(currentValidatedRule).gambitAction.mpCost as real, 0.0, maximumMana)
      && Applied(old(currentValidatedRule).gambitAction, target, old(target.health), old(target.healthPercentage),
                 old(gm.intents), old(gm.LogState()), roll, gm)
  {
    executed := false;
    startDelay := startDelay - dt;
    if startDelay > 0.01 {
      return;
    }
    timeToAttack := timeToAttack - dt;
    if timeToAttack <= 0.0 {
      Execute(target, gm, roll);
      executed := true;
    }
  }

  /** The committed action runs on `target`, its cost is paid, and the unit
      goes back to choosing. */
  method Execute(target: Unit, gm: GameManager, roll: DamageRoll)
    requires gm.Valid() && this in gm.units && target in gm.units
    requires currentValidatedRule != null
    requires ValidRoll(roll, strength, level)
    modifies this`currentValidatedRule, this`timeToAttack, this`startDelay, this`mana
    modifies target`health, target`healthPercentage
    modifies gm`intents, gm`logText, gm`logVisible, gm`logDisplayTime
    ensures gm.Valid()
    ensures currentValidatedRule == null && timeToAttack == 0.0 && startDelay == startDelayCache
    ensures mana == Clamp(old(mana) - old(currentValidatedRule).gambitAction.mpCost as real, 0.0, maximumMana)
    ensures Applied(old(currentValidatedRule).gambitAction, target, old(target.health), old(target.healthPercentage),
                    old(gm.intents), old(gm.LogState()), roll, gm)
  {
    var action := currentValidatedRule.gambitAction;
    Perform(action, target, gm, roll);
    Reset(gm);
  }

  /** After an action: no commitment, the cast timer at zero and the start
      delay back at its scene value. */
  method Reset(ghost gm: GameManager)
    requires gm.Valid() && this in gm.units
    modifies this`currentValidatedRule, this`timeToAttack, this`startDelay
    ensures gm.Valid()
    ensures currentValidatedRule == null && timeToAttack == 0.0 && startDelay == startDelayCache
  {
    currentValidatedRule := null;
    timeToAttack := 0.0;
    startDelay := startDelayCache;
  }

  /** What `action`, used by this unit, has done to `target` and to the
      presentation state: its health and percentage from `h0` and `p0`, the
      intents it appended to `intents0`, and the combat log (unchanged from
      `log0` for an action that does not log). */
  ghost predicate Applied(action: GambitAction, target: Unit, h0: real, p0: real, intents0: seq<Intent>,
                          log0: (bool, string, real), roll: DamageRoll, gm: GameManager)
    reads this`level, target`health, target`healthPercentage, target`maximumHealth
    reads gm`intents, gm`logVisible, gm`logText, gm`logDisplayTime
  {
    && target.maximumHealth > 0.0
    && target.health == HealthAfter(action, this, target, h0, target.maximumHealth, roll, gm)
    && target.healthPercentage == PercentageAfter(action, this, target, h0, target.maximumHealth, p0, roll, gm)
    && gm.intents == intents0 + ActionIntents(action, this, target, roll, gm)
    && (Logs(action) ==> gm.CombatLogShows(name, action.name))
    && (!Logs(action) ==> gm.LogState() == log0)
  }

  /** DoAction followed by paying the action's mana cost. */
  method Perform(action: GambitAction, target: Unit, gm: GameManager, roll: DamageRoll)
    requires gm.Valid() && this in gm.units && target in gm.units
    requires action.kind == AttackKind ==> ValidRoll(roll, strength, level)
    modifies this`mana, target`health, target`healthPercentage
    modifies gm`intents, gm`logText, gm`logVisible, gm`logDisplayTime
    ensures gm.Valid()
    ensures mana == Clamp(old(mana) - action.mpCost as real, 0.0, maximumMana)
    ensures target.health == HealthAfter(action, this, target, old(target.health), target.maximumHealth, roll, gm)
    ensures target.healthPercentage
            == PercentageAfter(action, this, target, old(target.health), target.maximumHealth,
                               old(target.healthPercentage), roll, gm)
    ensures gm.intents == old(gm.intents) + ActionIntents(action, this, target, roll, gm)
    ensures Logs(action) ==> gm.CombatLogShows(name, action.name)
    ensures !Logs(action) ==> gm.LogState() == old(gm.LogState())
  {
    action.DoAction(this, target, gm, roll);
    ChangeMana(-action.mpCost);
  }

  /** Unit.AddGambitRule: appends to the rule list. */
  method AddGambitRule(rule: GambitRule)
    modifies this`gambitRules
    ensures gambitRules == old(gambitRules) + [rule]
  {
    gambitRules := gambitRules + [rule];
  }

  /** Unit.Update: a frozen game changes nothing; a unit at zero health
      handles its death and skips the gambit loop; otherwise the percentage is
      refreshed and the gambit loop runs when gambits are enabled. */
  method Update(dt: real, gm: GameManager, roll: DamageRoll)
    returns (ghost committed: GambitRule?, ghost target: Unit?, ghost executed: bool)
    requires gm.Valid() && this in gm.units && RulesReady(gm) && !destroyed
    requires ValidRoll(roll, strength, level)
    modifies this`currentValidatedRule, this`timeToAttack, this`maxTimeToAttack, this`startDelay, this`mana
    modifies this`healthPercentage, this`destroyed
    modifies RuleConditions()`resultUnit, RuleConditions()`currentIndex, RuleConditions()`currentAction
    modifies gm.units`health, gm.units`healthPercentage
    modifies gm`intents, gm`logText, gm`logVisible, gm`logDisplayTime
    modifies gm`currentPartyMembers, gm`currentEnemies
    ensures gm.Valid()
    ensures old(gm.isGameplayFrozen) ==>
      unchanged(this) && unchanged(gm) && (forall u :: u in old(gm.units) ==> unchanged(u)) && !executed
    ensures !old(gm.isGameplayFrozen) && old(health) <= 0.0 ==>
      && destroyed && gm.intents == old(gm.intents) + [DamageText("15 Exp.", this)] && !executed
      && gm.currentEnemies == (if tag == EnemyTag then RemoveFirst(old(gm.currentEnemies), this) else old(gm.currentEnemies))
      && gm.currentPartyMembers == (if tag == PlayerTag then RemoveFirst(old(gm.currentPartyMembers), this)
                                    else old(gm.currentPartyMembers))
      && currentValidatedRule == old(currentValidatedRule) && mana == old(mana)
      && startDelay == old(startDelay) && timeToAttack == old(timeToAttack)
    ensures !old(gm.isGameplayFrozen) && old(health) > 0.0 ==>
      && !destroyed && gm.currentEnemies == old(gm.currentEnemies)
      && gm.currentPartyMembers == old(gm.currentPartyMembers)
      && (!isGambitsEnabled ==> unchanged(gm) && currentValidatedRule == old(currentValidatedRule) && !executed
                                && health == old(health) && healthPercentage == Percentage(health, maximumHealth))
      && (isGambitsEnabled ==> LoopEffect(dt, committed, target, executed, old(currentValidatedRule),
                                          old(BoundTarget()), old(mana), old(startDelay), old(timeToAttack), gm))
      && (isGambitsEnabled && executed ==>
            Applied(committed.gambitAction, target, old(target.health),
                    if target == this then Percentage(old(health), maximumHealth) else old(target.healthPercentage),
                    old(gm.intents), old(gm.LogState()), roll, gm))
      && (!executed ==> gm.intents == old(gm.intents) && gm.LogState() == old(gm.LogState()))
      && (forall u :: u in old(gm.units) && u != this && (!executed || u != target) ==>
            u.health == old(u.health) && u.healthPercentage == old(u.healthPercentage))
      && (!executed || target != this ==> health == old(health) && healthPercentage == Percentage(health, maximumHealth))
  {
    if gm.isGameplayFrozen {
      committed, target, executed := null, null, false;
    } else if health <= 0.0 {
      committed, target, executed := null, null, false;
      HandleDeath(gm);
    } else {
      committed, target, executed := Live(dt, gm, roll);
    }
  }

  /** The rest of Update for a living unit: the percentage is refreshed and
      the gambit loop runs when gambits are enabled. With gambits enabled, what
      GambitLoop promises holds, seen from before the refresh: the unit's own
      percentage is the refreshed one unless the action has just rewritten it. */
  method Live(dt: real, gm: GameManager, roll: DamageRoll)
    returns (ghost committed: GambitRule?, ghost target: Unit?, ghost executed: bool)
    requires gm.Valid() && this in gm.units && RulesReady(gm)
    requires ValidRoll(roll, strength, level)
    modifies this`currentValidatedRule, this`timeToAttack, this`maxTimeToAttack, this`startDelay, this`mana
    modifies this`healthPercentage
    modifies RuleConditions()`resultUnit, RuleConditions()`currentIndex, RuleConditions()`currentAction
    modifies gm.units`health, gm.units`healthPercentage
    modifies gm`intents, gm`logText, gm`logVisible, gm`logDisplayTime
    ensures gm.Valid()
    ensures unchanged(this`destroyed, gm`currentEnemies, gm`currentPartyMembers)
    ensures !isGambitsEnabled ==>
      && unchanged(gm) && currentValidatedRule == old(currentValidatedRule) && !executed
      && health == old(health) && healthPercentage == Percentage(health, maximumHealth)
    ensures isGambitsEnabled ==> LoopEffect(dt, committed, target, executed, old(currentValidatedRule),
                                            old(BoundTarget()), old(mana), old(startDelay), old(timeToAttack), gm)
    ensures isGambitsEnabled && executed ==>
      Applied(committed.gambitAction, target, old(target.health),
              if target == this then Percentage(old(health), maximumHealth) else old(target.healthPercentage),
              old(gm.intents), old(gm.LogState()), roll, gm)
    ensures !executed ==> gm.intents == old(gm.intents) && gm.LogState() == old(gm.LogState())
    ensures forall u :: u in old(gm.units) && u != this && (!executed || u != target) ==>
      u.health == old(u.health) && u.healthPercentage == old(u.healthPercentage)
    ensures !executed || target != this ==> health == old(health) && healthPercentage == Percentage(health, maximumHealth)
  {
    RefreshPercentage(gm);
    committed, target, executed := LoopIfEnabled(dt, gm, roll);
  }

  /** The gambit loop when gambits are enabled; nothing otherwise. */
  method LoopIfEnabled(dt: real, gm: GameManager, roll: DamageRoll)
    returns (ghost committed: GambitRule?, ghost target: Unit?, ghost executed: bool)
    requires gm.Valid() && this in gm.units && RulesReady(gm)
    requires ValidRoll(roll, strength, level)
    modifies this`currentValidatedRule, this`timeToAttack, this`maxTimeToAttack, this`startDelay, this`mana
    modifies RuleConditions()`resultUnit, RuleConditions()`currentIndex, RuleConditions()`currentAction
    modifies gm.units`health, gm.units`healthPercentage
    modifies gm`intents, gm`logText, gm`logVisible, gm`logDisplayTime
    ensures gm.Valid()
    ensures unchanged(this`destroyed, gm`currentEnemies, gm`currentPartyMembers)
    ensures !isGambitsEnabled ==> unchanged(gm) && unchanged(this) && !executed && forall u :: u in gm.units ==> unchanged(u)
    ensures isGambitsEnabled ==> LoopEffect(dt, committed, target, executed, old(currentValidatedRule),
                                            old(BoundTarget()), old(mana), old(startDelay), old(timeToAttack), gm)
    ensures executed ==> Applied(committed.gambitAction, target, old(target.health), old(target.healthPercentage),
                                 old(gm.intents), old(gm.LogState()), roll, gm)
    ensures !executed ==> gm.intents == old(gm.intents) && gm.LogState() == old(gm.LogState())
    ensures forall u :: u in old(gm.units) && (!executed || u != target) ==>
      u.health == old(u.health) && u.healthPercentage == old(u.healthPercentage)
  {
    committed, target, executed := null, null, false;
    if isGambitsEnabled {
      committed, target, executed := GambitLoop(dt, gm, roll);
    }
  }

  /** Update's refresh of the displayed percentage; nothing the scan reads
      changes. */
  method RefreshPercentage(gm: GameManager)
    requires gm.Valid() && this in gm.units
    modifies this`healthPercentage
    ensures healthPercentage == Percentage(health, maximumHealth)
    ensures gm.Valid() && (old(RulesReady(gm)) ==> RulesReady(gm))
    ensures BoundTarget() == old(BoundTarget())
    ensures unchanged(this`destroyed, gm`currentEnemies, gm`currentPartyMembers)
  {
    healthPercentage := GetHealthPercentage();
  }

  /** Unit.HandleDeath: the experience text, removal from its roster, Destroy. */
  method HandleDeath(gm: GameManager)
    requires gm.Valid() && this in gm.units
    modifies this`destroyed, gm`intents, gm`currentPartyMembers, gm`currentEnemies
    ensures gm.Valid() && destroyed
    ensures gm.intents == old(gm.intents) + [DamageText("15 Exp.", this)]
    ensures gm.currentEnemies == (if tag == EnemyTag then RemoveFirst(old(gm.currentEnemies), this) else old(gm.currentEnemies))
    ensures gm.currentPartyMembers == (if tag == PlayerTag then RemoveFirst(old(gm.currentPartyMembers), this) else old(gm.currentPartyMembers))
  {
    gm.SpawnDamageText("15 Exp.", this);
    gm.RemoveUnitFromList(this);
    destroyed := true;
  }
}

/** The cast timer a commitment starts: the action's cast time scaled by
    the unit's speed. */
function CastDuration(action: GambitAction, speed: int): real
{
  action.castTime * speed as real
}

/** Rule `r` may be committed to: enabled, its condition just returned
    `met`, and `mana` covers its cost. */
predicate Qualifies(r: GambitRule, met: bool, mana: real)
  reads r`isEnabled, r`gambitAction
{
  r.isEnabled && met && r.gambitAction != null && mana >= r.gambitAction.mpCost as real
}

/** What a scan over `rules` produced: `met` records each evaluation, `k` is
    the first rule that qualifies (or |rules|), and only enabled rules up to
    `k` were evaluated. */
ghost predicate ScanOutcome(rules: seq<GambitRule>, met: seq<bool>, mana: real, k: nat)
  reads rules`isEnabled, rules`gambitAction
{
  && |met| == |rules|
  && k == FirstQualifying(rules, met, mana, 0)
  && forall j :: 0 <= j < |met| && met[j] ==> rules[j].isEnabled && j <= k
}

/** Some enabled rule of `rules` holds a TargetIsHealthAt condition. */
ghost predicate UsesLeaderTargets(rules: seq<GambitRule>)
  reads rules`isEnabled, rules`targetCondition
{
  exists r :: r in rules && r.isEnabled && r.targetCondition != null && r.targetCondition.kind.LeaderTargetHealthAt?
}

/** What a scan of `rules` needs when the conditions are as `v` says: every
    enabled rule has a scene condition and an action, TargetAny has a party
    to index, and while a TargetIsHealthAt rule is enabled every leader's
    target is bound. */
ghost predicate ScanReady(rules: seq<GambitRule>, gm: GameManager, v: View)
  reads rules`isEnabled, rules`targetCondition, rules`gambitAction
  reads gm`currentPartyMembers, gm`currentEnemies, gm`units, gm`rules, gm`conditions
  reads gm.units`currentValidatedRule, gm.units`isLeader, gm.rules`targetCondition
  requires Closed(gm) && ViewReady(gm, v)
{
  && RulesComplete(rules, gm)
  && (UsesLeaderTargets(rules) ==> LeaderTargetsBoundIn(gm, v))
}

/** Every enabled rule has a scene condition and an action, and TargetAny
    has a party to index. */
ghost predicate RulesComplete(rules: seq<GambitRule>, gm: GameManager)
  reads rules`isEnabled, rules`targetCondition, rules`gambitAction, gm`currentPartyMembers, gm`conditions
{
  forall r :: r in rules && r.isEnabled ==>
    && r.targetCondition != null && r.gambitAction != null
    && r.targetCondition in gm.conditions && r.targetCondition.Indexable(gm)
}

/** One rule tried by the scan: whether it qualifies, what its condition
    decided (NotMet for a disabled rule, whose condition is not evaluated),
    and the view of the conditions afterwards. */
datatype Step = Step(ok: bool, decided: Binding, view: View)

/** Trying rule `i` of `rules` for `instigator`, holding `mana`, when the
    conditions are as `v` says. TryStepSound states what it yields. */
ghost function TryStep(rules: seq<GambitRule>, i: nat, instigator: Unit, gm: GameManager, mana: real, v: View): Step
  reads rules`isEnabled, rules`targetCondition, rules`gambitAction
  reads gm`currentPartyMembers, gm`currentEnemies, gm`units, gm`rules, gm`conditions
  reads gm.units`currentValidatedRule, gm.units`isLeader, gm.units`healthPercentage, gm.rules`targetCondition
  requires Closed(gm) && ViewReady(gm, v) && instigator in gm.units && i < |rules| && ScanReady(rules, gm, v)
{
  var r := rules[i];
  if !r.isEnabled then Step(false, NotMet, v)
  else
    var c := r.targetCondition;
    assert r in rules;
    var b := c.Decision(instigator, r, gm, v);
    Step(b.Met? && mana >= r.gambitAction.mpCost as real, b,
         v[c := After(c, v[c], r.gambitAction, |gm.currentPartyMembers|, b)])
}

/** A step qualifies exactly when its rule does; a disabled rule leaves
    the view alone; an enabled one changes only its own condition, storing
    the target it found; and the scan can go on from the new view. */
lemma TryStepSound(rules: seq<GambitRule>, i: nat, instigator: Unit, gm: GameManager, mana: real, v: View)
  requires Closed(gm) && ViewReady(gm, v) && instigator in gm.units && i < |rules| && ScanReady(rules, gm, v)
  ensures var s := TryStep(rules, i, instigator, gm, mana, v);
    && ViewReady(gm, s.view) && ScanReady(rules, gm, s.view)
    && s.ok == Qualifies(rules[i], s.decided.Met?, mana)
    && (!rules[i].isEnabled ==> s == Step(false, NotMet, v))
    && (rules[i].isEnabled ==>
          && rules[i].targetCondition in s.view
          && (s.decided.Met? ==> s.view[rules[i].targetCondition].resultUnit == s.decided.target)
          && (forall c :: c in v && c != rules[i].targetCondition ==> c in s.view && s.view[c] == v[c]))
{
  var r := rules[i];
  if r.isEnabled {
    var c := r.targetCondition;
    assert r in rules;
    var b := c.Decision(instigator, r, gm, v);
    RebindKeepsBound(gm, v, c, After(c, v[c], r.gambitAction, |gm.currentPartyMembers|, b));
  }
}

/** What a scan produced: the committed index `k` (|rules| when nothing
    qualified), what each rule's condition returned (false where it was not
    evaluated), the decision of the committed rule's condition, and the view
    the scan leaves. */
datatype ScanResult = ScanResult(k: nat, met: seq<bool>, committed: Binding, view: View)

/** The scan of ValidateNextRuleFromGambits, continued after the rules whose
    evaluations `trace` records, none of which qualified: each rule is tried
    against the view the previous ones left, and the scan stops at the first
    one that qualifies. ScanSound states what it yields. */
ghost function Scan(rules: seq<GambitRule>, trace: seq<bool>, instigator: Unit, gm: GameManager, mana: real, v: View)
  : ScanResult
  reads rules`isEnabled, rules`targetCondition, rules`gambitAction
  reads gm`currentPartyMembers, gm`currentEnemies, gm`units, gm`rules, gm`conditions
  reads gm.units`currentValidatedRule, gm.units`isLeader, gm.units`healthPercentage, gm.rules`targetCondition
  requires Closed(gm) && ViewReady(gm, v) && instigator in gm.units && ScanReady(rules, gm, v)
  requires ScanPrefix(rules, trace, mana, false)
  decreases |rules| - |trace|
{
  if |trace| == |rules| then ScanResult(|rules|, trace, NotMet, v)
  else
    var st := TryStep(rules, |trace|, instigator, gm, mana, v);
    TryStepSound(rules, |trace|, instigator, gm, mana, v);
    if st.ok then ScanResult(|trace|, trace + [true] + seq(|rules| - |trace| - 1, _ => false), st.decided, st.view)
    else
      ScanPrefixExtend(rules, trace, mana, st.decided.Met?, st.ok);
      Scan(rules, trace + [st.decided.Met?], instigator, gm, mana, st.view)
}

/** One step of Scan: the rule at the end of `trace` is tried; if it
    qualifies the scan stops there, otherwise it goes on from the view the
    step left. */
lemma ScanUnfold(rules: seq<GambitRule>, trace: seq<bool>, instigator: Unit, gm: GameManager, mana: real, v: View)
  requires Closed(gm) && ViewReady(gm, v) && instigator in gm.units && ScanReady(rules, gm, v)
  requires ScanPrefix(rules, trace, mana, false) && |trace| < |rules|
  ensures var st := TryStep(rules, |trace|, instigator, gm, mana, v);
    var s := Scan(rules, trace, instigator, gm, mana, v);
    && ViewReady(gm, st.view) && ScanReady(rules, gm, st.view)
    && (st.ok ==> s.k == |trace| && s.view == st.view && rules[|trace|].isEnabled)
    && (!st.ok ==> ScanPrefix(rules, trace + [st.decided.Met?], mana, false)
                   && s == Scan(rules, trace + [st.decided.Met?], instigator, gm, mana, st.view))
{
  var st := TryStep(rules, |trace|, instigator, gm, mana, v);
  TryStepSound(rules, |trace|, instigator, gm, mana, v);
  ScanPrefixExtend(rules, trace, mana, st.decided.Met?, st.ok);
}

/** The scan commits to the first qualifying rule after `trace` (ScanOutcome),
    keeps the evaluations already made, leaves a view in which the committed
    rule's condition holds the target it found, and does not stop before
    the end of `trace`. */
lemma {:induction false} ScanSound(rules: seq<GambitRule>, trace: seq<bool>, instigator: Unit, gm: GameManager,
                                   mana: real, v: View)
  requires Closed(gm) && ViewReady(gm, v) && instigator in gm.units && ScanReady(rules, gm, v)
  requires ScanPrefix(rules, trace, mana, false)
  ensures var s := Scan(rules, trace, instigator, gm, mana, v);
    && ScanOutcome(rules, s.met, mana, s.k) && |trace| <= s.k
    && s.met[..|trace|] == trace
    && ViewReady(gm, s.view)
    && (s.k < |rules| ==>
          && rules[s.k].isEnabled && rules[s.k].targetCondition in s.view && s.committed.Met?
          && s.view[rules[s.k].targetCondition].resultUnit == s.committed.target)
  decreases |rules| - |trace|
{
  var s := Scan(rules, trace, instigator, gm, mana, v);
  if |trace| == |rules| {
    FirstQualifyingIs(rules, trace, mana, |rules|);
  } else {
    var st := TryStep(rules, |trace|, instigator, gm, mana, v);
    TryStepSound(rules, |trace|, instigator, gm, mana, v);
    ScanPrefixExtend(rules, trace, mana, st.decided.Met?, st.ok);
    if st.ok {
      FirstQualifyingIs(rules, s.met, mana, |trace|);
      assert s.met[..|trace|] == trace;
    } else {
      var trace' := trace + [st.decided.Met?];
      ScanSound(rules, trace', instigator, gm, mana, st.view);
      assert s.met[..|trace|] == s.met[..|trace'|][..|trace|];
    }
  }
}

/** The two timers of a commitment. */
datatype Timers = Timers(startDelay: real, timeToAttack: real)

/** One tick of a commitment whose target is present: the start delay runs
    down first; once it is at most 0.01 the cast timer runs down as well, and
    when that reaches zero the action fires and the timers are reset, the
    start delay to `cache`. Yields the new timers and whether it fired. */
function Countdown(t: Timers, dt: real, cache: real): (r: (Timers, bool))
  ensures r.1 <==> t.startDelay - dt <= 0.01 && t.timeToAttack - dt <= 0.0
  ensures r.1 ==> r.0 == Timers(cache, 0.0)
  ensures !r.1 ==> r.0.startDelay == t.startDelay - dt
  ensures !r.1 ==> r.0.timeToAttack == (if t.startDelay - dt > 0.01 then t.timeToAttack else t.timeToAttack - dt)
{
  var delay := t.startDelay - dt;
  if delay > 0.01 then (Timers(delay, t.timeToAttack), false)
  else if t.timeToAttack - dt <= 0.0 then (Timers(cache, 0.0), true)
  else (Timers(delay, t.timeToAttack - dt), false)
}

/** Up to `n` ticks of Countdown, stopping at the one that fires. */
function CountdownRun(t: Timers, dt: real, cache: real, n: nat): (r: (Timers, bool))
  ensures n == 0 ==> !r.1
  decreases n
{
  if n == 0 then (t, false)
  else
    var step := Countdown(t, dt, cache);
    if step.1 then step else CountdownRun(step.0, dt, cache, n - 1)
}

/** The time a commitment still has to wait: what is left of the start
    delay above 0.01, and what is left of the cast. */
function Remaining(t: Timers): (w: real)
  ensures w >= 0.0
{
  (if t.startDelay > 0.01 then t.startDelay - 0.01 else 0.0) + (if t.timeToAttack > 0.0 then t.timeToAttack else 0.0)
}

/** With a fixed positive tick, a commitment whose target stays present
    fires within n + 1 ticks once n ticks cover what it still has to wait. */
lemma {:induction false} CountdownFires(t: Timers, dt: real, cache: real, n: nat)
  requires dt > 0.0 && n as real * dt >= Remaining(t)
  ensures CountdownRun(t, dt, cache, n + 1).1
  decreases n
{
  var next := Countdown(t, dt, cache).0;
  if !Countdown(t, dt, cache).1 {
    assert n > 0;
    assert Remaining(next) <= Remaining(t) - dt;
    assert (n - 1) as real * dt == n as real * dt - dt;
    CountdownFires(next, dt, cache, n - 1);
  }
}

/** The first rule, at or after `from`, that qualifies. */
function FirstQualifying(rules: seq<GambitRule>, met: seq<bool>, mana: real, from: nat): (k: nat)
  reads rules`isEnabled, rules`gambitAction
  requires |met| == |rules| && from <= |rules|
  ensures from <= k <= |rules|
  ensures k < |rules| ==> Qualifies(rules[k], met[k], mana)
  ensures forall j :: from <= j < k ==> !Qualifies(rules[j], met[j], mana)
  decreases |rules| - from
{
  if from == |rules| then from
  else if Qualifies(rules[from], met[from], mana) then from
  else FirstQualifying(rules, met, mana, from + 1)
}

/** What a scan that has tried the first |trace| rules knows: a condition
    that was met belongs to an enabled rule, no rule before the last one tried
    qualified, and `found` says whether the last one did. */
ghost predicate ScanPrefix(rules: seq<GambitRule>, trace: seq<bool>, mana: real, found: bool)
  reads rules`isEnabled, rules`gambitAction
{
  && |trace| <= |rules|
  && (forall j :: 0 <= j < |trace| && trace[j] ==> rules[j].isEnabled)
  && (forall j :: 0 <= j < |trace| - 1 ==> !Qualifies(rules[j], trace[j], mana))
  && (|trace| == 0 ==> !found)
  && (|trace| > 0 ==> found == Qualifies(rules[|trace| - 1], trace[|trace| - 1], mana))
}

/** Trying one more rule after a scan that found nothing extends the prefix. */
lemma ScanPrefixExtend(rules: seq<GambitRule>, trace: seq<bool>, mana: real, m: bool, ok: bool)
  requires ScanPrefix(rules, trace, mana, false) && |trace| < |rules|
  requires m ==> rules[|trace|].isEnabled
  requires ok == Qualifies(rules[|trace|], m, mana)
  ensures ScanPrefix(rules, trace + [m], mana, ok)
{
}

/** A rule that qualifies with none qualifying before it is the first. */
lemma FirstQualifyingIs(rules: seq<GambitRule>, met: seq<bool>, mana: real, k: nat)
  requires |met| == |rules| && k <= |rules|
  requires forall j :: 0 <= j < k ==> !Qualifies(rules[j], met[j], mana)
  requires k < |rules| ==> Qualifies(rules[k], met[k], mana)
  ensures FirstQualifying(rules, met, mana, 0) == k
{
}

/** Unity's `u != null` for a unit reference: not null and not destroyed. */
predicate Present(u: Unit?)
  reads u
{
  u != null && !u.destroyed
}
