# Gambit decision engine

A Dafny model of the gambit engine of the FFXII-style gambit prototype (a
Unity project in C#). Each unit owns an ordered list of gambit rules. A rule
pairs a target condition (the "if") with an action (the "then").

On every frame, a unit that has no commitment scans its rules in list order.
It commits to the first rule that passes all three tests:

- the rule is enabled;
- its condition binds a target;
- the unit's mana covers the action's cost.

The commitment then runs a start delay and a cast timer, which is the
action's cast time scaled by the unit's speed. When the cast timer expires,
the action is applied to the bound target, its mana cost is paid and the unit
goes back to choosing.

The model covers:

- the units' health, mana, level and experience counters;
- the seven target conditions, with their shared `resultUnit` binding and
  TargetAny's cursor;
- the four actions and their constants;
- the game manager's roster service: in-range filtering, side choice by tag,
  removal, the damage formula, the default rule setup, the combat log and
  the freeze flag;
- the list-editing handlers and catalogue of the gambit panel.

Design:

- **One file per source file.** Each C# source file has one `.dfy` file:
  `unit.dfy`, `gambit_target_condition.dfy`, `gambit_action.dfy`,
  `game_manager.dfy`, `gambit_rule.dfy` and `gambit_visual_controller.dfy`.
  The classes refer to one another, so they all sit in Dafny's default
  module.
- **State as in the game.** Objects whose fields the C# code updates are
  classes. Conditions and rules are heap objects, so the aliasing the game
  relies on is kept:
  - one rule object is shared by all enemies;
  - catalogue conditions are shared by every rule they are assigned to.

  `GameManager` keeps ghost sets of the scene's units, rules and conditions.
  Its `Valid()` closes the heap over them.
- **Presentation as intents.** Presentation calls (damage text, particle
  effects) append `Intent` records to `GameManager.intents`. The combat log is
  three fields of the manager.
- **Destroyed units.** Unity compares a destroyed unit equal to null. A unit
  therefore has a `destroyed` flag, set by `HandleDeath`, and `Present(u)`
  reads as `u != null` in the C# code.
- **Numbers.** Health, mana, timers and frame times are `real`; stats and
  experience are `int`. C#'s `(int)` cast is `Truncate`, which rounds toward
  zero. C#'s integer division is `CDiv`, which also rounds toward zero.
- **Frame time and damage roll as inputs.** The frame time `dt` is a
  parameter. The random draw and the square-root level factor of the damage
  formula are a `DamageRoll` parameter. `ValidRoll` limits it to the values
  the runtime can produce: a draw between the two Random.Range bounds, and
  the exact square root of the level.

## Model

| member | source | states |
|---|---|---|
| Clamp | Assets/Scripts/Unit.cs:156 | the result lies in [min, max] when min <= max, is the value itself inside the range, and is the nearer bound outside it |
| Percentage | Assets/Scripts/Unit.cs:133-137 | health as a share of the maximum is negative exactly when the health is, and in [0, 100] when the health is in [0, maximum] |
| Truncate | Assets/Scripts/Unit.cs:192 | the `(int)` cast rounds toward zero: r <= x < r + 1 for x >= 0 and r - 1 < x <= r below 0 |
| StartExperience | Assets/Scripts/Unit.cs:218-221 | the experience a level starts at is never negative |
| StartExperienceGrows | Assets/Scripts/Unit.cs:218-221 | each level starts at least 10 experience above the previous one |
| LevelUpHealth | Assets/Scripts/Unit.cs:186-192 | reaching a level of at least 1 strictly raises the maximum health |
| ChangeLevelOf | Assets/Scripts/Unit.cs:179-193 | after a level change, the start and current experience both equal the new level's start, the next threshold equals the following level's start, and the maximum health grows |
| GainAsWrittenOneLevel | Assets/Scripts/Unit.cs:195-211 | as written, a grant reports a level-up exactly when it passes the threshold, raises the level by at most one whatever its size, never lowers the maximum health, and leaves the experience below the new level's start |
| GainIntendedKeepsExperience | Assets/Scripts/Unit.cs:195-211 | with the surplus carried over, no experience is lost, the counter ends at or below the next threshold, the level rises as often as needed, and a level-up is reported exactly when the first threshold is passed |
| ExperienceFindingExample | Assets/Scripts/Unit.cs:203-207 | a grant of 500 at level 3 with 90 experience ends at level 4 with 70 experience as written, and at level 7 with 590 when carried over |
| Unit.constructor | Assets/Scripts/Unit.cs:60-66 | Start fills health and mana to their maxima, sets the percentage to 100 and caches the start delay |
| Unit.GetHealthPercentage | Assets/Scripts/Unit.cs:133-137 | the percentage is the health over the maximum, times 100 |
| Unit.ChangeHealth | Assets/Scripts/Unit.cs:149-157 | the health ends clamped to [0, maximum]; the percentage is taken from the unclamped sum, so an overkill leaves it negative |
| Unit.ChangeMana | Assets/Scripts/Unit.cs:160-164 | the mana ends at the clamped sum, within [0, maximum] |
| Unit.ChangeHealthRelative | Assets/Scripts/Unit.cs:166-176 | adds the given percentage of the maximum health, clamped, with the percentage taken before the clamp |
| Unit.ChangeLevel | Assets/Scripts/Unit.cs:179-193 | the counters become ChangeLevelOf of the old counters |
| Unit.IncreaseOneLevel | Assets/Scripts/Unit.cs:213-216 | the counters are those of the next level |
| Unit.IncreaseExperience | Assets/Scripts/Unit.cs:195-211 | as written: the counters and the flag are GainAsWritten of the old counters |
| Unit.IncreaseExperienceCarryingOver | Assets/Scripts/Unit.cs:195-211 | corrected: the counters and the flag are the carried-over gain, GainIntended |
| Unit.AddGambitRule | Assets/Scripts/Unit.cs:69-75 | the rule is appended at the end of the list |
| Unit.GambitsChanged | Assets/Scripts/Unit.cs:94-98 | the commitment is cleared, so the next tick scans again |
| Unit.ValidateNextRuleFromGambits | Assets/Scripts/Unit.cs:77-92 | commits to rule k = FirstQualifying of the recorded evaluations, the first rule in list order that is enabled, whose condition was met and whose cost the mana covers; only enabled rules up to k were evaluated; called without a commitment, k, every evaluation and the conditions' final state are exactly those of Scan, rule by rule; on commit both cast timers are the cast time times the speed; with no qualifying rule the commitment is null and the timers are unchanged |
| Unit.ScanAndCommit | Assets/Scripts/Unit.cs:81-91 | k, the evaluations and the conditions' final state are those of Scan; the rule found is committed with both timers at its cast duration, and nothing is committed when none qualified |
| Unit.ScanRules | Assets/Scripts/Unit.cs:81-91 | the index found, what each evaluation returned and the conditions' final state are those of Scan from the state before the loop; `found` holds exactly when a rule qualified |
| Unit.ScanLoop | Assets/Scripts/Unit.cs:81-91 | the loop runs until a rule qualifies or the list ends, and the state it leaves is the one Scan ends in |
| Unit.ScanStep | Assets/Scripts/Unit.cs:82-90 | one turn of the loop keeps it on the course Scan describes |
| Unit.TryNext | Assets/Scripts/Unit.cs:82-90 | a rule that qualifies ends the scan there, in the state Scan ends in; one that does not leaves the rest of the scan equal to Scan continued after it |
| Unit.ReadyTryRule | Assets/Scripts/Unit.cs:84 | trying the rule is the step TryStep describes, and the rules stay ready for the rest of the scan |
| TryStepSound | Assets/Scripts/Unit.cs:84 | a step qualifies exactly when its rule does; a disabled rule leaves every condition alone; an enabled one changes only its own condition and stores the target it found |
| ScanUnfold | Assets/Scripts/Unit.cs:81-91 | Scan tries the next rule and either stops there, when it qualifies, or goes on from the state that rule left |
| ScanSound | Assets/Scripts/Unit.cs:77-92 | Scan commits to the first qualifying rule (ScanOutcome), keeps the evaluations made before, evaluates only enabled rules, and leaves the committed rule's condition holding the target its evaluation found |
| Unit.TryRule | Assets/Scripts/Unit.cs:84 | trying rule i is the step TryStep describes: a disabled rule is not evaluated and does not qualify; for an enabled one the decision is the condition's Evaluate in the state before, `met` is its success, and the rule qualifies exactly when it is met and the mana covers the cost |
| Unit.DropCommitment | Assets/Scripts/Unit.cs:79 | the commitment is cleared, and the scan from the new state is the one from the old |
| Unit.Commit | Assets/Scripts/Unit.cs:86-88 | the rule is committed, both timers are set to its cast duration, and the conditions' state is untouched |
| Unit.GambitLoop | Assets/Scripts/Unit.cs:100-130 | without a commitment the rule committed to and its target are those of Scan (the first qualifying rule and the target its evaluation bound); with one, nothing is evaluated and the target already bound is used; without a present target the commitment is dropped, the start delay and mana are left alone, and the cast timer is the fresh one when the commitment was new and the old one otherwise; with one, the timers follow Countdown from the (possibly fresh) cast timer; when it fires, the action's health, percentage, intents and log effects (Applied) happen once, the mana is charged (clamped) and the commitment is cleared; when it does not, intents and log are unchanged; no other unit's health or percentage changes |
| Unit.Proceed | Assets/Scripts/Unit.cs:105-129 | after Choose, what the rest of the tick does seen from before Choose: LoopEffect, Applied when the action fires, intents and log unchanged when it does not, no other unit's health moves |
| Unit.Choose | Assets/Scripts/Unit.cs:102-103 | without a commitment, the new commitment is the rule at Scan's index (null when none qualified), the conditions are left as the scan leaves them, and the committed condition holds the target its evaluation found; with a commitment, the commitment, the cast timer and every rule condition are unchanged; no unit's health or mana changes |
| Unit.ChooseByScan | Assets/Scripts/Unit.cs:102-103 | a unit without a commitment commits as Scan decides; a committed rule is listed, enabled and affordable, with its cast timer started |
| Unit.Act | Assets/Scripts/Unit.cs:105-129 | with no present bound target the commitment is dropped and the timers are untouched; otherwise one Countdown tick, which on firing applies the committed action to the bound target (Applied) and charges its cost; when nothing fires, intents and log are unchanged and no health moves |
| Unit.Advance | Assets/Scripts/Unit.cs:107-124 | the timers follow one Countdown tick; the action runs exactly when the tick fires, with its effects (Applied) and cost; otherwise the commitment, mana, the target's health and percentage, the intents and the log are unchanged |
| Unit.Execute | Assets/Scripts/Unit.cs:117-123 | the action's effects on the target and the presentation state (Applied) happen, its cost is paid (clamped), the commitment is cleared, the cast timer is 0 and the start delay is back at its cached value |
| Unit.Reset | Assets/Scripts/Unit.cs:121-123 | no commitment, the cast timer at 0 and the start delay at its cached value |
| Unit.Perform | Assets/Scripts/Unit.cs:118-119 | the target's health and percentage follow HealthAfter and PercentageAfter, the intents grow by ActionIntents, the magicks log their use and the other actions leave the log alone; the caster pays the clamped mana cost |
| Unit.Update | Assets/Scripts/Unit.cs:228-243 | a frozen game changes nothing; a unit at zero health is destroyed, removed from its roster and shows "15 Exp.", skipping the gambit loop; a living unit stays on its roster, its percentage is refreshed, and with gambits enabled the tick is GambitLoop's (LoopEffect, and Applied when the action fires) while with gambits disabled nothing else changes |
| Unit.Live | Assets/Scripts/Unit.cs:239-242 | the percentage is refreshed and the destroyed flag and both rosters are untouched; with gambits disabled nothing else changes; with them enabled LoopEffect holds and a fired action's effects are Applied from the refreshed percentage; when nothing fires intents and log are unchanged; no other unit's health moves unless it is the target |
| Unit.RefreshPercentage | Assets/Scripts/Unit.cs:239 | the percentage is the health over the maximum times 100, and nothing a scan reads changes |
| Unit.LoopIfEnabled | Assets/Scripts/Unit.cs:241-242 | with gambits enabled the tick is GambitLoop's; with them disabled nothing changes |
| Unit.HandleDeath | Assets/Scripts/Unit.cs:246-251 | shows "15 Exp.", removes the unit from its own roster only, and destroys it |
| Countdown | Assets/Scripts/Unit.cs:107-124 | a tick fires exactly when the start delay minus dt is at most 0.01 and the cast timer minus dt is at most 0; firing resets the timers to (cached delay, 0); otherwise the delay drops by dt, and the cast timer drops by dt only once the delay is at most 0.01 |
| Remaining | Assets/Scripts/Unit.cs:109-115 | the time a commitment still waits is never negative |
| CountdownFires | Assets/Scripts/Unit.cs:107-124 | with a fixed positive dt, a commitment whose target stays present fires within n + 1 ticks once n ticks cover its remaining wait |
| FirstQualifying | Assets/Scripts/Unit.cs:81-91 | the result is the first index at or after `from` whose rule qualifies, or the end of the list |
| ScanPrefixExtend | Assets/Scripts/Unit.cs:81-91 | trying one more rule after a fruitless prefix extends the scan's knowledge |
| FirstQualifyingIs | Assets/Scripts/Unit.cs:81-91 | a qualifying rule with no qualifying rule before it is the one the scan finds |
| AnyStep | Assets/Scripts/GambitTargetCondition.cs:152-173 | TargetAny succeeds exactly when the action changed or the cursor is inside the party; it binds the cursor position (or 0 after an action change) and moves the cursor one past it; a failure leaves the cursor |
| AnyTraceContinues | Assets/Scripts/GambitTargetCondition.cs:155-160 | with the action unchanged, the cursor binds the following members and fails for good past the end |
| AnyTraceRoundRobin | Assets/Scripts/GambitTargetCondition.cs:152-173 | repeated for one new action, TargetAny binds party[0], ..., party[N-1] and then fails |
| FirstAtOrBelow | Assets/Scripts/GambitTargetCondition.cs:58-62 | the first member at or below the threshold; every earlier one is above it |
| FirstWeakTo | Assets/Scripts/GambitTargetCondition.cs:128-135 | the first unit with the weakness; no earlier one has it |
| FirstLeader | Assets/Scripts/GambitTargetCondition.cs:194-202 | the first leader committed against an enemy; no earlier member is one |
| FirstLeaderAt | Assets/Scripts/GambitTargetCondition.cs:80-91 | the first leader whose enemy target is at exactly the percentage; no earlier member qualifies |
| GambitTargetCondition.AllyHPBelow70 | Assets/Scripts/GambitTargetCondition.cs:33 | an ally condition with threshold 70 named "Ally: HP < 70%" |
| GambitTargetCondition.AllyHPBelowValuePercentage | Assets/Scripts/GambitTargetCondition.cs:51-54 | an ally condition with the given name and threshold |
| GambitTargetCondition.TargetIsHealthAt | Assets/Scripts/GambitTargetCondition.cs:73-76 | an enemy condition with the given name and percentage |
| GambitTargetCondition.TargetNearestVisible | Assets/Scripts/GambitTargetCondition.cs:99 | the enemy condition "Target: Nearest Visible" |
| GambitTargetCondition.TargetWeakToElement | Assets/Scripts/GambitTargetCondition.cs:117-120 | an enemy condition with the given name and weakness |
| GambitTargetCondition.TargetAny | Assets/Scripts/GambitTargetCondition.cs:147-150 | the ally condition "Target: Any" with its cursor at 0 and no remembered action |
| GambitTargetCondition.TargetSelf | Assets/Scripts/GambitTargetCondition.cs:178 | the ally condition "Target: Self" |
| GambitTargetCondition.TargetPartyLeaderTarget | Assets/Scripts/GambitTargetCondition.cs:190 | the enemy condition "Target: Party Leader Target" |
| GambitTargetCondition.IsConditionMet | Assets/Scripts/GambitTargetCondition.cs:35-204 | returns the variant's Evaluate in the state before the call, binds its target on success and leaves `resultUnit` unchanged on failure; only TargetAny moves its cursor, as AnyStep says; of all scene conditions only this one changes, to the state After gives |
| GambitTargetCondition.Decision | Assets/Scripts/GambitTargetCondition.cs:35-204 | a bound target is a scene unit; only the leader-target variant can bind null, and only when a leader's target is unbound; TargetSelf always binds the instigator |
| GambitTargetCondition.Decide | Assets/Scripts/GambitTargetCondition.cs:35-204 | the variant's branch agrees with Evaluate |
| GambitTargetCondition.Bind | Assets/Scripts/GambitTargetCondition.cs:18 | the shared `resultUnit` holds the new target |
| GambitTargetCondition.MoveCursor | Assets/Scripts/GambitTargetCondition.cs:149-150 | the cursor moves; the binding is untouched |
| GambitTargetCondition.Store | Assets/Scripts/GambitTargetCondition.cs:18 | the binding and the cursor take their new values, and the scene's condition state changes at this condition only |
| RebindKeepsBound | Assets/Scripts/GambitTargetCondition.cs:18 | rebinding one condition to a scene unit keeps every leading member's target bound; only a null binding can unbind one |
| FindWeakTo | Assets/Scripts/GambitTargetCondition.cs:128-135 | the loop finds FirstWeakTo |
| FindLeader | Assets/Scripts/GambitTargetCondition.cs:194-202 | the loop finds FirstLeader |
| FindLeaderAt | Assets/Scripts/GambitTargetCondition.cs:80-91 | the loop finds FirstLeaderAt |
| EvaluateAllyHP | Assets/Scripts/GambitTargetCondition.cs:56-67 | succeeds exactly when some party member is at or below the threshold, and binds the first such member in roster order |
| EvaluateLeaderTargetHealthAt | Assets/Scripts/GambitTargetCondition.cs:78-93 | succeeds exactly when a leading member's bound target is at exactly the percentage, and binds the target of the first such leader in roster order; no earlier leader's target is at it |
| EvaluatePartyLeaderTarget | Assets/Scripts/GambitTargetCondition.cs:192-204 | succeeds exactly when some member leads against an enemy, and binds the first such leader's target, null or not |
| EvaluateNearestVisible | Assets/Scripts/GambitTargetCondition.cs:101-111 | succeeds exactly when some opposing unit is in range, and binds the first in roster order; nothing is sorted by distance |
| EvaluateWeakToElement | Assets/Scripts/GambitTargetCondition.cs:122-139 | succeeds exactly when some in-range opposing unit has the weakness, and binds the first such unit of the in-range list in roster order; no earlier in-range unit has it |
| GambitAction.AttackAction | Assets/Scripts/GambitAction.cs:32 | Attack: cast time 2.3, cost 0 |
| GambitAction.StealAction | Assets/Scripts/GambitAction.cs:47 | Steal: cast time 3.0, cost 0 |
| GambitAction.CureAction | Assets/Scripts/GambitAction.cs:59 | Cure: cast time 4, cost 8 |
| GambitAction.FireAction | Assets/Scripts/GambitAction.cs:74 | Fire: cast time 4, cost 6 |
| GambitAction.DoAction | Assets/Scripts/GambitAction.cs:14 | for every variant, the target's health and percentage become HealthAfter and PercentageAfter, the intents grow by ActionIntents, Cure and Fire log "<source> used <action>." and Attack and Steal leave the log alone; the source's mana is not touched |
| GambitAction.DoAttack | Assets/Scripts/GambitAction.cs:34-42 | subtracts exactly the resolved damage (clamped) and shows one effect and one damage number |
| GambitAction.DoSteal | Assets/Scripts/GambitAction.cs:49-54 | leaves every health and mana alone and shows "Stole: Potion" and one effect |
| GambitAction.DoCure | Assets/Scripts/GambitAction.cs:61-69 | adds 40% of the maximum health (clamped), shows the effect and "40", and logs "<source> used Cure." |
| GambitAction.DoFire | Assets/Scripts/GambitAction.cs:76-92 | subtracts 130 from a fire-weak target after showing "WEAK", otherwise the truncated 0.3 * Magic^2; shows the value and logs the cast |
| GambitRule.constructor | Assets/Scripts/GambitRule.cs:6-9 | a new rule is disabled with neither half |
| GambitRule.ToggleEnabled | Assets/Scripts/GambitRule.cs:11-14 | the enabled flag flips |
| ToggleEnabledTwice | Assets/Scripts/GambitRule.cs:11-14 | toggling twice restores the flag and leaves order, condition and action unchanged |
| NewRule | Assets/Scripts/GameManager.cs:94-97 | a new enabled rule holding the given condition and action |
| SquaredDistance | Assets/Scripts/GameManager.cs:233 | distances compared are never negative |
| InRangeFilter | Assets/Scripts/GameManager.cs:226-241 | keeps exactly the units of the list within range |
| InRangeFilterAppend | Assets/Scripts/GameManager.cs:230-235 | filtering distributes over concatenation, so roster order is kept |
| InRangeFilterIdempotent | Assets/Scripts/GameManager.cs:230-235 | filtering twice is filtering once |
| NearestIn | Assets/Scripts/GameManager.cs:226-241 | the non-empty filtered list, or null exactly when no unit is in range |
| NearestUnitsFor | Assets/Scripts/GameManager.cs:211-224 | searches the opposing roster with radius 10; an untagged source gets null |
| RemoveFirst | Assets/Scripts/GameManager.cs:247 | a unit not on the list leaves it unchanged; no unit is added |
| IndexOf | Assets/Scripts/GameManager.cs:247 | the first position holding the unit |
| RemoveFirstCutsFirstOccurrence | Assets/Scripts/GameManager.cs:243-254 | removal cuts out exactly the first occurrence and keeps the rest in order |
| RemoveFirstMultiset | Assets/Scripts/GameManager.cs:243-254 | removal takes exactly one copy out of the roster |
| CDiv | Assets/Scripts/GameManager.cs:267 | truncating division: for a >= 0 the quotient times b is the largest multiple of b not above a, and for a < 0 the smallest not below it, so the quotient rounds toward zero |
| RollAtLeastStrength | Assets/Scripts/GameManager.cs:265-272 | a roll the runtime can produce for a non-negative Strength draws at least the Strength, and the level factor is at least 1 |
| DamageAtLeastHalfStrength | Assets/Scripts/GameManager.cs:256-280 | with a non-negative Strength the total damage is at least the base damage times half the Strength |
| GameManager.ResolveDamageUnitAGivesUnitB | Assets/Scripts/GameManager.cs:256-280 | for a roll the runtime can produce and a non-negative Strength, the damage is at least the truncated base damage times half the Strength, and never negative |
| BaseDamage | Assets/Scripts/GameManager.cs:258-263 | the base damage is max(1, 12 - defense) |
| GameManager.constructor | Assets/Scripts/GameManager.cs:28-42 | the given party, no enemies and no rules yet, the log hidden with 3 seconds, the panel hidden and gameplay not frozen |
| GameManager.GetNearestInRange | Assets/Scripts/GameManager.cs:226-241 | the loop computes NearestIn |
| GameManager.GetNearestUnitsInRangeBasedOnSourceTag | Assets/Scripts/GameManager.cs:211-224 | the method computes NearestUnitsFor |
| GameManager.RemoveUnitFromList | Assets/Scripts/GameManager.cs:243-254 | the unit leaves its own side's roster only; the other roster is unchanged |
| GameManager.SpawnDamageText | Assets/Scripts/GameManager.cs:282-293 | one text intent is appended |
| GameManager.SpawnDamageNumber | Assets/Scripts/GambitAction.cs:41 | one number intent is appended |
| GameManager.SpawnDamageValue | Assets/Scripts/GambitAction.cs:89 | one value intent is appended |
| GameManager.SpawnActionEffect | Assets/Scripts/GameManager.cs:310-331 | one effect intent is appended |
| GameManager.AddToCombatLog | Assets/Scripts/GameManager.cs:295-298 | the log shows "<instigator> used <action>." for 2 seconds |
| GameManager.ShowInCombatLog | Assets/Scripts/GameManager.cs:300-308 | the log is shown with the text and display time |
| GameManager.ToggleGambitsView | Assets/Scripts/GameManager.cs:156-167 | the panel flips, gameplay is frozen exactly while it is shown, and the time scale is 0 while frozen and 1 otherwise |
| GameManager.Update | Assets/Scripts/GameManager.cs:170-185 | Tab toggles the panel and sets the time scale to 0 when frozen and 1 otherwise; without Tab the freeze is unchanged; the log follows one LogTick |
| GameManager.SetDefaultGambitsForPlayer | Assets/Scripts/GameManager.cs:105-139 | appends [cure at 50%, attack nearest, empty, empty] and makes the member the leader at index 0, and appends [attack the leader's target, empty, empty] elsewhere; all rules are new |
| GameManager.Adopt | Assets/Scripts/GameManager.cs:127-138 | new rules are appended to the unit's list in order |
| GameManager.Register | Assets/Scripts/GameManager.cs:94-122 | the scene takes in the new rules and conditions |
| GameManager.AppendRules | Assets/Scripts/GameManager.cs:127-138 | the rules are appended in order |
| GameManager.SetDefaultGambitsForEnemies | Assets/Scripts/GameManager.cs:92-103 | one new attack-nearest rule object is appended to every enemy, once per roster entry |
| GameManager.AppendToEnemies | Assets/Scripts/GameManager.cs:99-102 | the same rule object is appended once per roster entry |
| GameManager.AppendToEnemy | Assets/Scripts/GameManager.cs:101 | one more enemy gets the shared rule |
| GameManager.SetupParty | Assets/Scripts/GameManager.cs:70-90 | each member gets the default rules of its roster position, and the first member leads |
| GameManager.SetupMember | Assets/Scripts/GameManager.cs:85 | the next member gets the defaults of its position and nobody else's list changes |
| GameManager.SetupEnemies | Assets/Scripts/GameManager.cs:141-154 | the scene's enemies become the enemy roster, each with the shared rule |
| GameManager.GrantExperience | Assets/Scripts/GameManager.cs:337 | one member's counters follow the as-written gain GainAsWritten |
| GameManager.AddExperienceToPartyMembers | Assets/Scripts/GameManager.cs:333-339 | every member of a repeat-free party has its counters advanced by the as-written gain GainAsWritten |
| MakeDefaultPlayerRules | Assets/Scripts/GameManager.cs:107-138 | the rules position `index` receives, all new, with unbound conditions |
| AllRules | Assets/Scripts/GameManager.cs:83-86 | every rule of every list is in the set |
| RulesAtAppend | Assets/Scripts/GameManager.cs:83-86 | setting up the next member adds rules to that member only |
| RulesAtDistinct | Assets/Scripts/GameManager.cs:83-86 | in a repeat-free party each member gets exactly the rules of its own position |
| LogHiddenAfterDisplayTime | Assets/Scripts/GameManager.cs:178-183 | once frames adding up to the display time have passed, the log is hidden |
| HiddenStaysHidden | Assets/Scripts/GameManager.cs:178-183 | a hidden log stays hidden and its time stays put |
| Swap | Assets/Scripts/GambitVisualController.cs:262-264 | the two entries trade places, every other entry is unchanged, and the result is a permutation |
| SwapTwice | Assets/Scripts/GambitVisualController.cs:262-264 | switching the same pair twice restores the list |
| SwapSame | Assets/Scripts/GambitVisualController.cs:262-264 | choosing the same rule with both clicks changes nothing |
| NextIndex | Assets/Scripts/GambitVisualController.cs:295-298 | one up while that is below the count, otherwise wrapped to 0; with a non-empty roster and an index from -1 up, the result lies in [0, count) |
| PrevIndex | Assets/Scripts/GambitVisualController.cs:306-309 | one down while that is not negative, otherwise wrapped to the last; with a non-empty roster and an index up to the count, the result lies in [0, count); on an empty roster it wraps to -1 |
| PrevIndexPastShrunkRoster | Assets/Scripts/GambitVisualController.cs:304-311 | an index left past the end by a shrunk roster steps down to the count itself, which is out of range, so the roster read throws |
| NextPrevInverse | Assets/Scripts/GambitVisualController.cs:293-313 | next and previous undo each other |
| GambitVisualController.constructor | Assets/Scripts/GambitVisualController.cs:11-33 | nothing shown, not switching, empty catalogue, flyouts closed |
| GambitVisualController.Start | Assets/Scripts/GambitVisualController.cs:35-59 | the catalogue holds the 11 conditions and 4 actions in order, all new, and the party member at `showIndex` is shown if there is one |
| GambitVisualController.RegisteredConditions | Assets/Scripts/GambitVisualController.cs:36-49 | the 11 catalogue conditions, new and unbound, known to the scene |
| GambitVisualController.NewTargetConditions | Assets/Scripts/GambitVisualController.cs:36-49 | the 11 catalogue conditions in order, new and unbound |
| GambitVisualController.NewActions | Assets/Scripts/GambitVisualController.cs:51-55 | Attack, Steal, Cure, Fire, all new |
| GambitVisualController.ToggleOnOff | Assets/Scripts/GambitVisualController.cs:220-225 | it throws exactly when the index is outside the rule list, and then nothing changes; otherwise it flips that rule's flag only, keeps its halves and clears the commitment |
| GambitVisualController.AssignCurrentTargetCondition | Assets/Scripts/GambitVisualController.cs:227-236 | it throws exactly when the catalogue index or the index of the rule being edited is out of range, and then the rule, the commitment and the flyouts are unchanged; otherwise it puts the shared catalogue condition into that rule, changes no other field of it, clears the commitment and closes the flyouts |
| GambitVisualController.AssignCurrentAction | Assets/Scripts/GambitVisualController.cs:238-247 | it throws exactly when the catalogue index or the index of the rule being edited is out of range, and then the rule, the commitment and the flyouts are unchanged; otherwise it puts the shared catalogue action into that rule, changes no other field of it, clears the commitment and closes the flyouts |
| GambitVisualController.OpenAvailableTargetFlyout | Assets/Scripts/GambitVisualController.cs:249-255 | the condition flyout is open for the given rule |
| GambitVisualController.OpenAvailableActionsFlyout | Assets/Scripts/GambitVisualController.cs:278-284 | the action flyout is open for the given rule |
| GambitVisualController.CloseFlyouts | Assets/Scripts/GambitVisualController.cs:286-291 | both flyouts are closed |
| GambitVisualController.SwitchGambits | Assets/Scripts/GambitVisualController.cs:257-276 | the first click marks the rule and leaves the list alone, and never throws; the second throws exactly when the marked or the clicked index is outside the list, leaving the list, the switching flag and the commitment as they were; otherwise it swaps the marked rule with the clicked one, ends switching and clears the commitment |
| GambitVisualController.SwapRules | Assets/Scripts/GambitVisualController.cs:262-266 | the list becomes the swapped list and the commitment is cleared |
| GambitVisualController.NextPartyMember | Assets/Scripts/GambitVisualController.cs:293-302 | the index becomes NextIndex of the old one in any case; it throws exactly when that index is outside the roster, and then the unit shown and the built flag are unchanged; otherwise that member is shown and the list is rebuilt |
| GambitVisualController.PreviousPartyMember | Assets/Scripts/GambitVisualController.cs:304-313 | the index becomes PrevIndex of the old one in any case; it throws exactly when that index is outside the roster (a shrunk or empty roster), and then the unit shown and the built flag are unchanged; otherwise that member is shown and the list is rebuilt |

## Left out

- UI construction (ConstructGambitRuleUI, ConstructAvailable*UI, colours, the health bar, the panel object), PartyVisualController and the pure presentation scripts are left out because they are Unity widget code. Damage texts, particle effects and the combat log's text object are modelled only as intents and fields.
- The random draw and `Mathf.Pow(level, 0.5)` of the damage formula are left out; they are the `DamageRoll` input, limited by `ValidRoll`. Float rounding in that formula is not modelled.
- `Vector3.Distance(a, b) < range` is compared on squared distances over abstract positions.
- Unit positions are constants (`position`). Moving a unit (PlayerControl.cs:15, `transform.Translate`) is not modelled, so every range query reads the same fixed geometry.
- Float semantics are left out: `float` is `real`, so there is no rounding and no infinity. The `(int)` casts are modelled exactly, as `Truncate`.
- Unity plumbing is left out: the singleton (`Awake`, `Instance`), `DontDestroyOnLoad`, `Input`, `FindGameObjectsWithTag`, `GetComponent` and the `GetPartyMembers`/`GetEnemies` conversions. `Time.deltaTime` is the `dt` parameter, and the scene's enemies and key presses are parameters.
- `Time.timeScale` is kept only as a field; the engine's frame time is not rescaled by it.
- Null dereferences are preconditions, not modelled as exceptions:
  - an enabled rule with a null condition or action (`RulesReady`);
  - TargetAny on an empty party (`Indexable`);
  - TargetIsHealthAt reading an unbound leader target (`LeaderTargetsBound`);
  - the editor's handlers with no unit shown (`unitToShow != null`).
- `MaximumHealth` must be positive, which avoids the division in GetHealthPercentage; the mana maximum must not be negative.
- `GameObject.Destroy` takes effect at once (the `destroyed` flag). Unity defers it to the end of the frame.
- Unit.ValidateNextRuleFromGambits, Unit.ScanRules, Unit.GambitLoop and Unit.Update require `RulesReady` but do not show it preserved from one tick or one unit to the next. A caller must re-establish it.
- Unit.GambitLoop: states the rule and the target that Scan yields, but not the conditions' state after the tick. Unit.Choose states that state: it is the view Scan ends in.
- Unit.ValidateNextRuleFromGambits: ties `k` and the evaluations to Scan only when it is called without a commitment, as GambitLoop calls it. Clearing an existing commitment can change what a leader-target condition sees, so the scan is described from the state after the clearing (ScanAndCommit); the FirstQualifying clause holds in both cases.
- Unit.Live and Unit.Update: do not restate GambitLoop's tie to Scan. Their scan runs after the percentage refresh, so it is not Scan of the state before the call. LoopEffect, Applied and the framing of intents, log and other units' health are stated from the state before the call.
- Unit.Valid asks for `level >= 0`, and Unit.ChangeLevel requires `levelToBecome >= 1`. The source checks neither. Every level the engine reaches is the inspector's level or one more than it. A negative level would make `Mathf.Pow(level, 0.5)` NaN, which reals cannot express.
- GambitVisualController.SwitchGambits, GambitVisualController.AssignCurrentTargetCondition, GambitVisualController.AssignCurrentAction, GambitVisualController.PreviousPartyMember (and ToggleOnOff, NextPartyMember): an index out of range is the `thrown` result. The state is what it was at the read that throws, so the two handlers that move `showIndex` first keep the moved index. Unity's handling of the exception beyond that is not modelled.
- GameManager.AddExperienceToPartyMembers states the per-member result only for a party without repeated entries. A unit listed twice would receive the grant twice.
- CountdownFires assumes the same positive frame time on every tick. Varying frame times are not covered.
- CalculateNextExperience (Unit.cs:223-226) is never called and is left out.
- The `IsReadyToAttack` field and the `HealthBar` fill are never read by the engine and are left out.

## Findings

| source | as written | input that shows it | evidently intended | confidence | as-written member | corrected member |
|---|---|---|---|---|---|---|
| Assets/Scripts/Unit.cs:195-211 | the remainder is computed after IncreaseOneLevel has reset the counters, so it is negative and the recursive call never levels again: one level at most, and the experience ends below the new level's start | level 3, experience 90, next threshold 160, grant 500: ends at level 4 with 70 experience (level 4 starts at 160) | the surplus over the threshold carries into the next level and levelling repeats (the comment at line 203): level 7 with 590 | not executed | Unit.IncreaseExperience, GainAsWrittenOneLevel, ExperienceFindingExample | Unit.IncreaseExperienceCarryingOver, GainIntendedKeepsExperience |
