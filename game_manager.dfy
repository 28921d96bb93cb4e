// The roster and targeting service: the two ordered rosters, in-range
// filtering, side selection by tag, removal, the damage formula, the default
// rule setup, the combat log and the gambit-panel freeze flag.

/** A C# List<Unit> reference that may be null (GetNearestInRange returns
    null rather than an empty list). */
datatype UnitList = Null | Found(units: seq<Unit>)

/** The radius GetNearestUnitsInRangeBasedOnSourceTag searches with. */
const TargetingRange: real := 10.0

function SquaredDistance(a: Position, b: Position): (d: real)
  ensures d >= 0.0
{
  (a.x - b.x) * (a.x - b.x) + (a.y - b.y) * (a.y - b.y) + (a.z - b.z) * (a.z - b.z)
}

/** Vector3.Distance(source, u) < range, compared on squares (range >= 0). */
predicate InRange(source: Unit, u: Unit, range: real)
{
  SquaredDistance(source.position, u.position) < range * range
}

/** The units of `list` within `range` of `source`, in list order. */
function InRangeFilter(source: Unit, list: seq<Unit>, range: real): (r: seq<Unit>)
  ensures |r| <= |list|
  ensures forall u :: u in r ==> u in list && InRange(source, u, range)
  ensures forall u :: u in list && InRange(source, u, range) ==> u in r
{
  if |list| == 0 then []
  else
    InRangeFilter(source, list[..|list| - 1], range)
      + (if InRange(source, list[|list| - 1], range) then [list[|list| - 1]] else [])
}

/** Filtering a concatenation filters each part and keeps them in order, so
    the filter keeps the roster's order. */
lemma {:induction false} InRangeFilterAppend(source: Unit, a: seq<Unit>, b: seq<Unit>, range: real)
  ensures InRangeFilter(source, a + b, range) == InRangeFilter(source, a, range) + InRangeFilter(source, b, range)
  decreases |b|
{
  if |b| > 0 {
    var b' := b[..|b| - 1];
    assert (a + b)[..|a + b| - 1] == a + b';
    assert (a + b)[|a + b| - 1] == b[|b| - 1];
    InRangeFilterAppend(source, a, b', range);
  } else {
    assert a + b == a;
  }
}

/** Filtering an already filtered list changes nothing. */
lemma {:induction false} InRangeFilterIdempotent(source: Unit, list: seq<Unit>, range: real)
  ensures InRangeFilter(source, InRangeFilter(source, list, range), range) == InRangeFilter(source, list, range)
  decreases |list|
{
  if |list| > 0 {
    var init := list[..|list| - 1];
    var last := list[|list| - 1];
    InRangeFilterIdempotent(source, init, range);
    var f := InRangeFilter(source, init, range);
    var tail := if InRange(source, last, range) then [last] else [];
    InRangeFilterAppend(source, f, tail, range);
    if InRange(source, last, range) {
      assert InRangeFilter(source, [last], range) == InRangeFilter(source, [], range) + [last];
    }
  }
}

/** GetNearestInRange: the in-range units, or null when there are none. */
function NearestIn(source: Unit, list: seq<Unit>, range: real): (r: UnitList)
  ensures r.Found? ==> |r.units| > 0 && r.units == InRangeFilter(source, list, range)
  ensures r.Null? <==> forall u :: u in list ==> !InRange(source, u, range)
{
  var f := InRangeFilter(source, list, range);
  if |f| > 0 then
    assert f[0] in f;
    Found(f)
  else
    Null
}

/** The roster a unit fights against: enemies for a player, the party for an
    enemy, nobody for any other tag. */
function OpposingRoster(source: Unit, gm: GameManager): seq<Unit>
  reads gm`currentEnemies, gm`currentPartyMembers
{
  if source.tag == PlayerTag then gm.currentEnemies
  else if source.tag == EnemyTag then gm.currentPartyMembers
  else []
}

/** GetNearestUnitsInRangeBasedOnSourceTag. */
function NearestUnitsFor(source: Unit, gm: GameManager): (r: UnitList)
  reads gm`currentEnemies, gm`currentPartyMembers
  ensures source.tag == Untagged ==> r == Null
  ensures r.Found? ==> r.units == InRangeFilter(source, OpposingRoster(source, gm), TargetingRange)
  ensures r.Null? <==> forall u :: u in OpposingRoster(source, gm) ==> !InRange(source, u, TargetingRange)
{
  if source.tag == PlayerTag then NearestIn(source, gm.currentEnemies, TargetingRange)
  else if source.tag == EnemyTag then NearestIn(source, gm.currentPartyMembers, TargetingRange)
  else Null
}

/** List<T>.Remove: drops the first occurrence of `x`, if any. */
function RemoveFirst(s: seq<Unit>, x: Unit): (r: seq<Unit>)
  ensures x !in s ==> r == s
  ensures forall y :: y in r ==> y in s
{
  if |s| == 0 then s
  else if s[0] == x then s[1..]
  else [s[0]] + RemoveFirst(s[1..], x)
}

/** The index of the first occurrence of `x` in `s`. */
function IndexOf(s: seq<Unit>, x: Unit): (i: nat)
  requires x in s
  ensures i < |s| && s[i] == x && x !in s[..i]
{
  if s[0] == x then 0
  else
    var i := IndexOf(s[1..], x);
    assert s[..i + 1] == [s[0]] + s[1..][..i];
    i + 1
}

/** Removal takes out exactly the first occurrence and keeps the rest in order. */
lemma {:induction false} RemoveFirstCutsFirstOccurrence(s: seq<Unit>, x: Unit)
  requires x in s
  ensures RemoveFirst(s, x) == s[..IndexOf(s, x)] + s[IndexOf(s, x) + 1..]
{
  if s[0] != x {
    var t := s[1..];
    RemoveFirstCutsFirstOccurrence(t, x);
    var i, j := IndexOf(s, x), IndexOf(t, x);
    assert s[..i] == [s[0]] + t[..j];
    assert s[i + 1..] == t[j + 1..];
  }
}

/** Removal takes exactly one copy of a unit on the list out of the roster. */
lemma {:induction false} RemoveFirstMultiset(s: seq<Unit>, x: Unit)
  requires x in s
  ensures multiset(RemoveFirst(s, x)) == multiset(s) - multiset{x}
{
  RemoveFirstCutsFirstOccurrence(s, x);
  var i := IndexOf(s, x);
  var before, after := s[..i], s[i + 1..];
  assert s == before + [x] + after;
  assert multiset(s) == multiset(before) + multiset{x} + multiset(after);
  assert multiset(RemoveFirst(s, x)) == multiset(before) + multiset(after);
}

/** C#'s integer division, which truncates toward zero: the quotient is
    the multiple of `b` nearest to `a` on the side of zero. */
function CDiv(a: int, b: int): (q: int)
  requires b > 0
  ensures a >= 0 ==> 0 <= q * b <= a < q * b + b
  ensures a < 0 ==> q * b - b < a <= q * b <= 0
{
  if a >= 0 then DivBounds(a, b); a / b else DivBounds(-a, b); -((-a) / b)
}

/** Euclidean division of a non-negative `a` gives the largest multiple of
    `b` not above `a`. */
lemma DivBounds(a: int, b: int)
  requires a >= 0 && b > 0
  ensures 0 <= (a / b) * b <= a < (a / b) * b + b
{
  var q, r := a / b, a % b;
  assert a == q * b + r && 0 <= r < b;
  assert q >= 0;
}

/** A damage roll the runtime can produce for an instigator: the
    Random.Range draw between Strength and Strength + (Strength + level) / 4
    (Range accepts the bounds in either order), and the square root of the
    level, which Mathf.Pow(level, 0.5) computes. */
predicate ValidRoll(roll: DamageRoll, strength: int, level: int)
{
  var lower := strength as real;
  var upper := (strength + CDiv(strength + level, 4)) as real;
  && (if lower <= upper then lower <= roll.draw <= upper else upper <= roll.draw <= lower)
  && roll.levelRoot >= 0.0 && roll.levelRoot * roll.levelRoot == level as real
}

/** The level factor 1 + 0.6 * sqrt(level) of the damage formula. */
function LevelMultiplier(roll: DamageRoll): real
{
  1.0 + roll.levelRoot * 0.6
}

/** A valid roll draws at least a non-negative Strength, and its level
    factor is at least 1. */
lemma RollAtLeastStrength(roll: DamageRoll, strength: int, level: int)
  requires strength >= 0 && ValidRoll(roll, strength, level)
  ensures roll.draw >= strength as real && LevelMultiplier(roll) >= 1.0
{
  assert level as real >= 0.0 by {
    assert roll.levelRoot * roll.levelRoot >= 0.0;
  }
  assert CDiv(strength + level, 4) >= 0;
}

lemma ScaledAtLeast(base: real, half: real, m: real, factor: real)
  requires base >= 1.0 && 0.0 <= half <= m && factor >= 1.0
  ensures 0.0 <= base * half <= base * m * factor * 1.0
{
  assert base * half <= base * m;
  assert base * m <= base * m * factor;
}

lemma TruncateMonotone(x: real, y: real)
  requires 0.0 <= x <= y
  ensures 0 <= Truncate(x) <= Truncate(y)
{
}

/** With a non-negative Strength the resolved damage `total` (before the
    cast) is at least the base damage times half the Strength. */
lemma DamageAtLeastHalfStrength(base: real, roll: DamageRoll, strength: int, level: int,
                                 multiplier: real, scaler: real, total: real)
  requires base >= 1.0 && multiplier == roll.draw / 2.0 && scaler == 1.0
  requires total == base * multiplier * LevelMultiplier(roll) * scaler
  ensures strength >= 0 && ValidRoll(roll, strength, level) ==>
    0 <= Truncate(base * (strength as real / 2.0)) <= Truncate(total)
{
  if strength >= 0 && ValidRoll(roll, strength, level) {
    RollAtLeastStrength(roll, strength, level);
    ScaledAtLeast(base, strength as real / 2.0, multiplier, LevelMultiplier(roll));
    TruncateMonotone(base * (strength as real / 2.0), total);
  }
}

/** The weapon attack of 12 minus the receiver's defense, at least 1. */
function BaseDamage(defense: int): (d: real)
  ensures d >= 1.0
  ensures d == if 12 - defense > 1 then (12 - defense) as real else 1.0
{
  var baseDamage := (12 - defense) as real;
  if baseDamage <= 1.0 then 1.0 else baseDamage
}

class GameManager {
  var currentPartyMembers: seq<Unit>
  var currentEnemies: seq<Unit>

  var gambitPanelVisible: bool
  var isGameplayFrozen: bool
  var timeScale: real

  var logText: string
  var logVisible: bool
  var logDisplayTime: real

  /** Presentation requests, in the order they were issued. */
  var intents: seq<Intent>

  /** Every unit, rule and condition of the scene. */
  ghost var units: set<Unit>
  ghost var rules: set<GambitRule>
  ghost var conditions: set<GambitTargetCondition>

  /** The rosters and the rules hold only scene objects; every unit is
      valid; a committed rule has both halves; bound targets are scene units;
      TargetAny's cursor is never negative. */
  ghost predicate Valid()
    reads this`currentPartyMembers, this`currentEnemies, this`units, this`rules, this`conditions
    reads units`maximumHealth, units`health, units`maximumMana, units`mana, units`level
    reads units`gambitRules, units`currentValidatedRule
    reads rules`targetCondition, rules`gambitAction, conditions`resultUnit, conditions`currentIndex
  {
    && (forall u :: u in currentPartyMembers ==> u in units)
    && (forall u :: u in currentEnemies ==> u in units)
    && (forall u :: u in units ==>
          && u.Valid()
          && (forall r :: r in u.gambitRules ==> r in rules)
          && (u.currentValidatedRule != null ==>
                && u.currentValidatedRule in rules
                && u.currentValidatedRule.targetCondition != null
                && u.currentValidatedRule.gambitAction != null))
    && (forall r :: r in rules && r.targetCondition != null ==> r.targetCondition in conditions)
    && (forall c :: c in conditions ==> (c.resultUnit == null || c.resultUnit in units) && c.currentIndex >= 0)
  }

  /** A scene whose units have no rules yet; the party order is the one set
      in the editor. */
  constructor (party: seq<Unit>, sceneUnits: set<Unit>)
    requires forall u :: u in party ==> u in sceneUnits
    requires forall u :: u in sceneUnits ==> u.Valid() && u.gambitRules == [] && u.currentValidatedRule == null
    ensures Valid()
    ensures currentPartyMembers == party && currentEnemies == [] && units == sceneUnits
    ensures rules == {} && conditions == {} && intents == []
    ensures !gambitPanelVisible && !isGameplayFrozen && timeScale == 1.0
    ensures logText == "" && !logVisible && logDisplayTime == 3.0
  {
    currentPartyMembers := party;
    currentEnemies := [];
    gambitPanelVisible, isGameplayFrozen, timeScale := false, false, 1.0;
    logText, logVisible, logDisplayTime := "", false, 3.0;
    intents := [];
    units, rules, conditions := sceneUnits, {}, {};
  }

  /*************** TARGETING ***********/

  /** GetNearestInRange: an accumulating loop over `list`. */
  method GetNearestInRange(source: Unit, list: seq<Unit>, range: real) returns (result: UnitList)
    ensures result == NearestIn(source, list, range)
  {
    var found: seq<Unit> := [];
    var i := 0;
    while i < |list|
      invariant 0 <= i <= |list|
      invariant found == InRangeFilter(source, list[..i], range)
    {
      assert list[..i + 1][..i] == list[..i];
      if SquaredDistance(source.position, list[i].position) < range * range {
        found := found + [list[i]];
      }
      i := i + 1;
    }
    assert list[..|list|] == list;
    if |found| > 0 {
      result := Found(found);
    } else {
      result := Null;
    }
  }

  method GetNearestUnitsInRangeBasedOnSourceTag(source: Unit) returns (result: UnitList)
    ensures result == NearestUnitsFor(source, this)
  {
    result := Null;
    if source.tag == PlayerTag {
      result := GetNearestInRange(source, currentEnemies, TargetingRange);
    }
    if source.tag == EnemyTag {
      result := GetNearestInRange(source, currentPartyMembers, TargetingRange);
    }
  }

  /** Removes `u` from its own side's roster; the other roster is unchanged. */
  method RemoveUnitFromList(u: Unit)
    requires Valid()
    modifies this`currentEnemies, this`currentPartyMembers
    ensures Valid()
    ensures currentEnemies == (if u.tag == EnemyTag then RemoveFirst(old(currentEnemies), u) else old(currentEnemies))
    ensures currentPartyMembers == (if u.tag == PlayerTag then RemoveFirst(old(currentPartyMembers), u)
                                    else old(currentPartyMembers))
  {
    if u.tag == EnemyTag {
      currentEnemies := RemoveFirst(currentEnemies, u);
    }
    if u.tag == PlayerTag {
      currentPartyMembers := RemoveFirst(currentPartyMembers, u);
    }
  }

  /*************** DAMAGE ***********/

  /** (int)(BaseDamage * draw / 2 * levelMultiplier * 1). */
  function ResolveDamageUnitAGivesUnitB(instigator: Unit, receiver: Unit, roll: DamageRoll): (dmg: int)
    reads instigator`level
    ensures ValidRoll(roll, instigator.strength, instigator.level) && instigator.strength >= 0 ==>
      0 <= Truncate(BaseDamage(receiver.defense) * (instigator.strength as real / 2.0)) <= dmg
  {
    var multiplier := roll.draw / 2.0;
    var generalScaler := 1.0;
    var total := BaseDamage(receiver.defense) * multiplier * LevelMultiplier(roll) * generalScaler;
    DamageAtLeastHalfStrength(BaseDamage(receiver.defense), roll, instigator.strength, instigator.level,
                              multiplier, generalScaler, total);
    Truncate(total)
  }

  /*************** PRESENTATION ***********/

  method SpawnDamageText(text: string, at: Unit)
    modifies this`intents
    ensures intents == old(intents) + [DamageText(text, at)]
  {
    intents := intents + [DamageText(text, at)];
  }

  method SpawnDamageNumber(value: int, at: Unit)
    modifies this`intents
    ensures intents == old(intents) + [DamageNumber(value, at)]
  {
    intents := intents + [DamageNumber(value, at)];
  }

  method SpawnDamageValue(value: real, at: Unit)
    modifies this`intents
    ensures intents == old(intents) + [DamageValue(value, at)]
  {
    intents := intents + [DamageValue(value, at)];
  }

  method SpawnActionEffect(effectType: EffectType, unit: Unit)
    modifies this`intents
    ensures intents == old(intents) + [ActionEffect(effectType, unit)]
  {
    intents := intents + [ActionEffect(effectType, unit)];
  }

  /*************** COMBAT LOG ***********/

  /** The log shows "<instigator> used <action>." for two seconds. */
  /** The combat log's visibility, text and display time. */
  function LogState(): (bool, string, real)
    reads this`logVisible, this`logText, this`logDisplayTime
  {
    (logVisible, logText, logDisplayTime)
  }

  ghost predicate CombatLogShows(instigator: string, action: string)
    reads this`logVisible, this`logText, this`logDisplayTime
  {
    logVisible && logText == instigator + " used " + action + "." && logDisplayTime == 2.0
  }

  method AddToCombatLog(instigator: string, action: string)
    modifies this`logText, this`logVisible, this`logDisplayTime
    ensures CombatLogShows(instigator, action)
  {
    ShowInCombatLog(instigator + " used " + action + ".", 2.0);
  }

  /** The AddToCombatLog(text, logDisplayTime) overload. */
  method ShowInCombatLog(text: string, displayTime: real)
    modifies this`logText, this`logVisible, this`logDisplayTime
    ensures logVisible && logText == text && logDisplayTime == displayTime
  {
    logVisible := true;
    logText := text;
    logDisplayTime := displayTime;
  }

  /** Shows or hides the gambit panel; gameplay is frozen exactly while it is shown. */
  method ToggleGambitsView()
    modifies this`gambitPanelVisible, this`isGameplayFrozen, this`timeScale
    ensures gambitPanelVisible == !old(gambitPanelVisible)
    ensures isGameplayFrozen == gambitPanelVisible
    ensures timeScale == if isGameplayFrozen then 0.0 else 1.0
  {
    var isActive := gambitPanelVisible;
    gambitPanelVisible := !isActive;
    isGameplayFrozen := !isActive;
    if !isActive {
      timeScale := 0.0;
    } else {
      timeScale := 1.0;
    }
  }

  /** GameManager.Update: Tab toggles the panel; a visible log counts down and
      hides itself once its time is used up. */
  method Update(dt: real, tabPressed: bool)
    modifies this`gambitPanelVisible, this`isGameplayFrozen, this`timeScale, this`logVisible, this`logDisplayTime
    ensures tabPressed ==> gambitPanelVisible == !old(gambitPanelVisible) && isGameplayFrozen == gambitPanelVisible
                           && timeScale == (if isGameplayFrozen then 0.0 else 1.0)
    ensures !tabPressed ==> gambitPanelVisible == old(gambitPanelVisible) && isGameplayFrozen == old(isGameplayFrozen)
                            && timeScale == old(timeScale)
    ensures (logVisible, logDisplayTime) == LogTick(old(logVisible), old(logDisplayTime), dt)
  {
    if tabPressed {
      ToggleGambitsView();
    }
    if logVisible {
      logDisplayTime := logDisplayTime - dt;
      if logDisplayTime <= 0.0 {
        logVisible := false;
      }
    }
  }

  /*************** DEFAULT RULES ***********/

  /** SetDefaultGambitsForPlayer: the leader (index 0) gets cure-at-50% and
      attack-nearest, the others attack the leader's target; everyone then
      gets two empty rules. Every rule and condition is a new object. */
  method SetDefaultGambitsForPlayer(u: Unit, index: int) returns (added: seq<GambitRule>)
    requires Valid() && u in units
    modifies this`rules, this`conditions, u`gambitRules, u`isLeader
    ensures Valid()
    ensures u.gambitRules == old(u.gambitRules) + added
    ensures DefaultPlayerRules(added, index)
    ensures forall r :: r in added ==> FreshRule(r)
    ensures u.isLeader == (index == 0 || old(u.isLeader))
  {
    added := MakeDefaultPlayerRules(index);
    Adopt(u, added);
    if index == 0 {
      u.isLeader := true;
    }
  }

  /** New rules join the scene and are appended to `u`'s list, in order. */
  method Adopt(u: Unit, rs: seq<GambitRule>)
    requires Valid() && u in units
    requires forall r :: r in rs && r.targetCondition != null ==> Unbound(r.targetCondition)
    modifies this`rules, this`conditions, u`gambitRules
    ensures Valid()
    ensures u.gambitRules == old(u.gambitRules) + rs
  {
    Register(set r | r in rs, set r | r in rs && r.targetCondition != null :: r.targetCondition);
    AppendRules(u, rs);
  }

  /** The scene takes in newly made rules and conditions. */
  ghost method Register(newRules: set<GambitRule>, newConditions: set<GambitTargetCondition>)
    requires Valid()
    requires forall r :: r in newRules && r.targetCondition != null ==> r.targetCondition in newConditions
    requires forall c :: c in newConditions ==> c.resultUnit == null && c.currentIndex >= 0
    modifies this`rules, this`conditions
    ensures Valid()
    ensures rules == old(rules) + newRules && conditions == old(conditions) + newConditions
  {
    rules := rules + newRules;
    conditions := conditions + newConditions;
  }

  /** The Unit.GambitRules.Add calls of the default setup, in order. */
  method AppendRules(u: Unit, rs: seq<GambitRule>)
    requires Valid() && u in units && forall r :: r in rs ==> r in rules
    modifies u`gambitRules
    ensures Valid()
    ensures u.gambitRules == old(u.gambitRules) + rs
  {
    var i := 0;
    while i < |rs|
      invariant 0 <= i <= |rs|
      invariant Valid()
      invariant u.gambitRules == old(u.gambitRules) + rs[..i]
    {
      u.AddGambitRule(rs[i]);
      assert rs[..i + 1] == rs[..i] + [rs[i]];
      i := i + 1;
    }
    assert rs[..|rs|] == rs;
  }

  /** SetDefaultGambitsForEnemies: one attack-nearest rule object, appended to
      every enemy: the rule and its condition are shared, so one enemy's
      binding is visible to all. */
  method SetDefaultGambitsForEnemies() returns (ghost attackRule: GambitRule)
    requires Valid()
    modifies this`rules, this`conditions, currentEnemies`gambitRules
    ensures Valid()
    ensures FreshRule(attackRule) && IsRuleOf(attackRule, NearestVisible, AttackKind)
    ensures forall e :: e in currentEnemies ==>
      e.gambitRules == old(e.gambitRules) + seq(multiset(currentEnemies)[e], _ => attackRule)
  {
    var c := new GambitTargetCondition.TargetNearestVisible();
    var a := new GambitAction.AttackAction();
    var rule := NewRule(c, a);
    Register({rule}, {c});
    attackRule := rule;
    AppendToEnemies(rule);
  }

  /** The loop of SetDefaultGambitsForEnemies: `rule` is appended once per
      roster entry, so an enemy listed twice gets it twice. */
  method AppendToEnemies(rule: GambitRule)
    requires Valid() && rule in rules
    modifies currentEnemies`gambitRules
    ensures Valid()
    ensures forall e :: e in currentEnemies ==>
      e.gambitRules == old(e.gambitRules) + seq(multiset(currentEnemies)[e], _ => rule)
  {
    var enemies := currentEnemies;
    ghost var start := map e | e in enemies :: e.gambitRules;
    var i := 0;
    while i < |enemies|
      invariant 0 <= i <= |enemies|
      invariant Valid() && currentEnemies == enemies
      invariant AppendedSoFar(enemies, start, rule, i)
    {
      AppendToEnemy(enemies, i, enemies[i], start, rule);
      i := i + 1;
    }
    assert enemies[..|enemies|] == enemies;
  }

  /** One turn of AppendToEnemies' loop: enemy `i` gets the shared rule. */
  method AppendToEnemy(enemies: seq<Unit>, i: nat, enemy: Unit, ghost start: map<Unit, seq<GambitRule>>,
                       rule: GambitRule)
    requires Valid() && currentEnemies == enemies && rule in rules && i < |enemies| && enemy == enemies[i]
    requires AppendedSoFar(enemies, start, rule, i)
    modifies enemy`gambitRules
    ensures Valid()
    ensures AppendedSoFar(enemies, start, rule, i + 1)
  {
    assert multiset(enemies[..i + 1]) == multiset(enemies[..i]) + multiset{enemy} by {
      assert enemies[..i + 1] == enemies[..i] + [enemy];
    }
    AppendRules(enemy, [rule]);
  }

  /** SetupParty: default rules for each party member, by roster position. */
  method SetupParty() returns (ghost added: seq<seq<GambitRule>>)
    requires Valid()
    modifies this`rules, this`conditions, currentPartyMembers`gambitRules, currentPartyMembers`isLeader
    ensures Valid()
    ensures |added| == |currentPartyMembers|
    ensures forall k :: 0 <= k < |added| ==> DefaultPlayerRules(added[k], k)
    ensures forall u :: u in currentPartyMembers ==>
      u.gambitRules == old(u.gambitRules) + RulesAt(currentPartyMembers, added, u)
    ensures |currentPartyMembers| > 0 ==> currentPartyMembers[0].isLeader
  {
    var party := currentPartyMembers;
    ghost var start := map u | u in party :: u.gambitRules;
    added := [];
    var i := 0;
    while i < |party|
      invariant 0 <= i <= |party| && |added| == i
      invariant Valid() && currentPartyMembers == party
      invariant SetUpSoFar(party, start, added)
      invariant i > 0 ==> party[0].isLeader
    {
      var a := SetupMember(party, i, party[i], start, added);
      added := added + [a];
      i := i + 1;
    }
  }

  /** One turn of SetupParty's loop: member `i` gets its default rules. */
  method SetupMember(party: seq<Unit>, i: nat, u: Unit, ghost start: map<Unit, seq<GambitRule>>,
                     ghost added: seq<seq<GambitRule>>) returns (a: seq<GambitRule>)
    requires Valid() && currentPartyMembers == party && i == |added| < |party| && u == party[i]
    requires SetUpSoFar(party, start, added)
    modifies this`rules, this`conditions, u`gambitRules, u`isLeader
    ensures Valid()
    ensures SetUpSoFar(party, start, added + [a])
    ensures u.isLeader == (i == 0 || old(u.isLeader))
  {
    a := SetDefaultGambitsForPlayer(u, i);
    RulesAtAppend(party, added, a);
    assert (added + [a])[i] == a && forall k :: 0 <= k < i ==> (added + [a])[k] == added[k];
  }

  /** SetupEnemies: the enemies found in the scene become the enemy roster,
      each with the shared default rule. */
  method SetupEnemies(sceneEnemies: seq<Unit>) returns (ghost attackRule: GambitRule)
    requires Valid() && forall e :: e in sceneEnemies ==> e in units
    modifies this`currentEnemies, this`rules, this`conditions, sceneEnemies`gambitRules
    ensures Valid() && currentEnemies == sceneEnemies
    ensures IsRuleOf(attackRule, NearestVisible, AttackKind) && fresh(attackRule)
    ensures forall e :: e in sceneEnemies ==>
      e.gambitRules == old(e.gambitRules) + seq(multiset(sceneEnemies)[e], _ => attackRule)
  {
    currentEnemies := sceneEnemies;
    attackRule := SetDefaultGambitsForEnemies();
  }

  /** One member's share of AddExperienceToPartyMembers. */
  method GrantExperience(u: Unit, exp: int)
    requires Valid() && u in units
    modifies u`level, u`startExperience, u`currentExperience, u`nextLevelExperience, u`maximumHealth
    ensures Valid()
    ensures u.Counters() == GainAsWritten(old(u.Counters()), exp).0
  {
    var _ := u.IncreaseExperience(exp);
  }

  /** Gives `exp` to every party member in roster order. */
  method AddExperienceToPartyMembers(exp: int)
    requires Valid()
    modifies currentPartyMembers`level, currentPartyMembers`startExperience, currentPartyMembers`currentExperience
    modifies currentPartyMembers`nextLevelExperience, currentPartyMembers`maximumHealth
    ensures Valid()
    ensures Distinct(currentPartyMembers) ==> forall u :: u in currentPartyMembers ==>
      u.Counters() == GainAsWritten(old(u.Counters()), exp).0
  {
    var party := currentPartyMembers;
    assert forall k :: 0 <= k < |party| ==> party[k] in units && party[k].Valid();
    var i := 0;
    while i < |party|
      invariant 0 <= i <= |party|
      invariant Valid()
      invariant Distinct(party) ==> forall k :: 0 <= k < i ==>
        party[k].Counters() == GainAsWritten(old(party[k].Counters()), exp).0
      invariant Distinct(party) ==> forall k :: i <= k < |party| ==> party[k].Counters() == old(party[k].Counters())
    {
      GrantExperience(party[i], exp);
      i := i + 1;
    }
    if Distinct(party) {
      forall u | u in party
        ensures u.Counters() == GainAsWritten(old(u.Counters()), exp).0
      {
        var k :| 0 <= k < |party| && party[k] == u;
      }
    }
  }
}

/** The first half of SetDefaultGambitsForPlayer: five new rules with new
    halves (attack-nearest, attack-the-leader's-target, cure-at-50% and two
    empty rules), and the ones that position `index` receives, in order. */
method MakeDefaultPlayerRules(index: int) returns (added: seq<GambitRule>)
  ensures DefaultPlayerRules(added, index)
  ensures forall r :: r in added ==> FreshRule(r) && (r.targetCondition != null ==> Unbound(r.targetCondition))
{
  var c1 := new GambitTargetCondition.TargetNearestVisible();
  var a1 := new GambitAction.AttackAction();
  var attackRule := NewRule(c1, a1);

  var c2 := new GambitTargetCondition.TargetPartyLeaderTarget();
  var a2 := new GambitAction.AttackAction();
  var attackPartyLeaderTargetRule := NewRule(c2, a2);

  var c3 := new GambitTargetCondition.AllyHPBelowValuePercentage("Ally: HP <= 50%", 50);
  var a3 := new GambitAction.CureAction();
  var cureRule := NewRule(c3, a3);

  var emptyRule := new GambitRule();
  var emptyRule2 := new GambitRule();

  added := [];
  if index == 0 {
    added := [cureRule, attackRule];
  }
  if index > 0 {
    added := [attackPartyLeaderTargetRule];
  }
  added := added + [emptyRule, emptyRule2];
}

/** A rule made since the previous state, with halves made since then too. */
twostate predicate FreshRule(new r: GambitRule)
  reads r
{
  && fresh(r)
  && (r.targetCondition != null ==> fresh(r.targetCondition))
  && (r.gambitAction != null ==> fresh(r.gambitAction))
}

/** A condition as it leaves its constructor: nothing bound, cursor at 0. */
ghost predicate Unbound(c: GambitTargetCondition?)
  reads c
{
  c != null && c.resultUnit == null && c.currentIndex == 0
}

/** An enabled rule holding a condition and an action of the given kinds. */
ghost predicate IsRuleOf(r: GambitRule, condition: ConditionKind, action: ActionKind)
  reads r
{
  && r.isEnabled
  && r.targetCondition != null && r.targetCondition.kind == condition
  && r.gambitAction != null && r.gambitAction.kind == action
}

/** `new GambitRule()`: disabled, with neither half. */
ghost predicate IsEmptyRule(r: GambitRule)
  reads r
{
  !r.isEnabled && r.targetCondition == null && r.gambitAction == null
}

/** The rules SetDefaultGambitsForPlayer appends for roster position `index`. */
ghost predicate DefaultPlayerRules(rs: seq<GambitRule>, index: int)
  reads rs
{
  if index == 0 then
    && |rs| == 4
    && IsRuleOf(rs[0], AllyHPAtMost(50), CureKind) && rs[0].targetCondition.name == "Ally: HP <= 50%"
    && IsRuleOf(rs[1], NearestVisible, AttackKind)
    && IsEmptyRule(rs[2]) && IsEmptyRule(rs[3])
  else if index > 0 then
    && |rs| == 3
    && IsRuleOf(rs[0], PartyLeaderTarget, AttackKind)
    && IsEmptyRule(rs[1]) && IsEmptyRule(rs[2])
  else
    |rs| == 2 && IsEmptyRule(rs[0]) && IsEmptyRule(rs[1])
}

/** The rules given to `u`, in order, when `rules[k]` went to `party[k]`. */
function RulesAt(party: seq<Unit>, rules: seq<seq<GambitRule>>, u: Unit): seq<GambitRule>
  requires |rules| <= |party|
  decreases |rules|
{
  if |rules| == 0 then []
  else
    var n := |rules| - 1;
    RulesAt(party, rules[..n], u) + (if party[n] == u then rules[n] else [])
}

/** The state after SetupParty has handled the first |added| members, the
    k-th receiving `added[k]`: those are the defaults of their positions,
    and each member's list is its list at the start, `start`, followed by the
    rules given to it. */
ghost predicate SetUpSoFar(party: seq<Unit>, start: map<Unit, seq<GambitRule>>, added: seq<seq<GambitRule>>)
  reads party, AllRules(added)
{
  && |added| <= |party|
  && (forall k :: 0 <= k < |added| ==> DefaultPlayerRules(added[k], k))
  && (forall u :: u in party ==> u in start && u.gambitRules == start[u] + RulesAt(party, added, u))
}

/** The state after AppendToEnemies has handled the first `i` enemies: each
    enemy's list is its list at the start, `start`, followed by one copy of
    `rule` per occurrence of the enemy among them. */
ghost predicate AppendedSoFar(enemies: seq<Unit>, start: map<Unit, seq<GambitRule>>, rule: GambitRule, i: nat)
  reads enemies
{
  && i <= |enemies|
  && forall e :: e in enemies ==> e in start && e.gambitRules == start[e] + seq(multiset(enemies[..i])[e], _ => rule)
}

/** Every rule of every list in `lists`. */
ghost function AllRules(lists: seq<seq<GambitRule>>): (all: set<GambitRule>)
  ensures forall k, r :: 0 <= k < |lists| && r in lists[k] ==> r in all
{
  if |lists| == 0 then {}
  else
    var last := lists[|lists| - 1];
    AllRules(lists[..|lists| - 1]) + set r | r in last
}

/** Setting up the next member adds its rules to that member only. */
lemma RulesAtAppend(party: seq<Unit>, rules: seq<seq<GambitRule>>, next: seq<GambitRule>)
  requires |rules| < |party|
  ensures forall u ::
    RulesAt(party, rules + [next], u) == RulesAt(party, rules, u) + (if party[|rules|] == u then next else [])
{
  assert (rules + [next])[..|rules|] == rules;
}

/** In a roster without repeats each member gets exactly the rules of its
    own position (none when the setup has not reached it yet). */
lemma {:induction false} RulesAtDistinct(party: seq<Unit>, rules: seq<seq<GambitRule>>, k: nat)
  requires |rules| <= |party| && Distinct(party) && k < |party|
  ensures RulesAt(party, rules, party[k]) == if k < |rules| then rules[k] else []
  decreases |rules|
{
  if |rules| > 0 {
    var n := |rules| - 1;
    RulesAtDistinct(party, rules[..n], k);
    assert k < n ==> rules[..n][k] == rules[k];
    assert n != k ==> party[n] != party[k];
  }
}

/** No unit appears twice. */
predicate Distinct(s: seq<Unit>)
{
  forall i, j :: 0 <= i < j < |s| ==> s[i] != s[j]
}

/** One frame of the log countdown: (visible, remaining time). */
function LogTick(visible: bool, time: real, dt: real): (bool, real)
{
  if visible then (time - dt > 0.0, time - dt) else (false, time)
}

/** The log after a sequence of frames. */
function LogTicks(visible: bool, time: real, dts: seq<real>): (bool, real)
  decreases |dts|
{
  if |dts| == 0 then (visible, time)
  else
    var (v, t) := LogTick(visible, time, dts[0]);
    LogTicks(v, t, dts[1..])
}

function Sum(dts: seq<real>): real
{
  if |dts| == 0 then 0.0 else dts[0] + Sum(dts[1..])
}

/** Once frames adding up to the display time have passed, the log is hidden
    (frame times are never negative). */
lemma {:induction false} LogHiddenAfterDisplayTime(visible: bool, time: real, dts: seq<real>)
  requires visible ==> time > 0.0
  requires forall k :: 0 <= k < |dts| ==> dts[k] >= 0.0
  requires Sum(dts) >= time
  ensures !LogTicks(visible, time, dts).0
  decreases |dts|
{
  if |dts| > 0 {
    var (v, t) := LogTick(visible, time, dts[0]);
    if v {
      LogHiddenAfterDisplayTime(v, t, dts[1..]);
    } else {
      HiddenStaysHidden(t, dts[1..]);
    }
  }
}

/** A hidden log stays hidden. */
lemma {:induction false} HiddenStaysHidden(time: real, dts: seq<real>)
  ensures LogTicks(false, time, dts) == (false, time)
  decreases |dts|
{
  if |dts| > 0 {
    HiddenStaysHidden(time, dts[1..]);
  }
}
