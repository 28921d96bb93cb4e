// The "if" half of a gambit. A condition object picks a target from the
// ordered rosters and stores it in its own `resultUnit` field; the object is
// shared by every rule (and so every unit) that holds it, so the binding and
// TargetAny's cursor are heap state, not values.

datatype GambitTargetType = Player | Enemy | Disabled

/** The variant of a condition and its parameter. */
datatype ConditionKind =
  | AllyHPAtMost(percent: int)          // AllyHPBelow70, AllyHPBelowValuePercentage
  | LeaderTargetHealthAt(percent: int)  // TargetIsHealthAt
  | NearestVisible                      // TargetNearestVisible
  | WeakToElement(weakness: UnitWeakness)  // TargetWeakToElement
  | AnyAlly                             // TargetAny
  | Self                                // TargetSelf
  | PartyLeaderTarget                   // TargetPartyLeaderTarget

/** What one evaluation decides: no target, or the unit it binds (which the
    leader-target variant may find to be null). */
datatype Binding = NotMet | Met(target: Unit?)

/** One move of TargetAny's cursor: whether it succeeds, the party index it
    binds, and the cursor state it leaves. */
datatype CursorStep = CursorStep(met: bool, bound: int, nextIndex: int, nextAction: GambitAction?)

/** TargetAny.IsConditionMet on its cursor: with the remembered action it hands
    out the next party member while any is left; a different action restarts
    the cursor at the first member. */
function AnyStep(index: int, remembered: GambitAction?, ruleAction: GambitAction?, partySize: int): (s: CursorStep)
  ensures s.met <==> (ruleAction != remembered || index < partySize)
  ensures s.nextAction == ruleAction
  ensures s.met && index >= 0 && partySize > 0 ==> 0 <= s.bound < partySize && s.nextIndex == s.bound + 1
  ensures !s.met ==> s.nextIndex == index
{
  if ruleAction == remembered && index < partySize then
    CursorStep(true, index, index + 1, remembered)
  else if remembered != ruleAction then
    CursorStep(true, 0, 1, ruleAction)
  else
    CursorStep(false, -1, index, remembered)
}

/** The party indices bound by `n` successive evaluations for rules holding
    `action` (-1 where the evaluation fails). */
function AnyTrace(index: int, remembered: GambitAction?, action: GambitAction?, partySize: int, n: nat): (t: seq<int>)
  ensures |t| == n
  decreases n
{
  if n == 0 then []
  else
    var s := AnyStep(index, remembered, action, partySize);
    [if s.met then s.bound else -1] + AnyTrace(s.nextIndex, s.nextAction, action, partySize, n - 1)
}

/** With the action unchanged, the cursor continues from where it stopped and
    fails for good once the party is exhausted. */
lemma {:induction false} AnyTraceContinues(index: nat, action: GambitAction?, partySize: int, n: nat)
  ensures forall j :: 0 <= j < n ==>
    AnyTrace(index, action, action, partySize, n)[j] == (if index + j < partySize then index + j else -1)
  decreases n
{
  if n > 0 {
    var s := AnyStep(index, action, action, partySize);
    if index < partySize {
      AnyTraceContinues(index + 1, action, partySize, n - 1);
    } else {
      AnyTraceContinues(index, action, partySize, n - 1);
    }
  }
}

/** Evaluated repeatedly for one new action, TargetAny binds party[0],
    party[1], ..., party[N-1] and then fails until the action changes. */
lemma {:induction false} AnyTraceRoundRobin(index: int, remembered: GambitAction?, action: GambitAction?,
                                            partySize: int, n: nat)
  requires remembered != action && partySize >= 1
  ensures forall j :: 0 <= j < n ==>
    AnyTrace(index, remembered, action, partySize, n)[j] == (if j < partySize then j else -1)
{
  if n > 0 {
    AnyTraceContinues(1, action, partySize, n - 1);
    var t := AnyTrace(index, remembered, action, partySize, n);
    assert t == [0] + AnyTrace(1, action, action, partySize, n - 1);
  }
}

/** First member at or below `percent` health (Where(...).First()). */
function FirstAtOrBelow(units: seq<Unit>, percent: int): (i: nat)
  reads units`healthPercentage
  ensures i <= |units|
  ensures i < |units| ==> units[i].healthPercentage <= percent as real
  ensures forall j :: 0 <= j < i ==> units[j].healthPercentage > percent as real
{
  if |units| == 0 then 0
  else if units[0].healthPercentage <= percent as real then 0
  else 1 + FirstAtOrBelow(units[1..], percent)
}

/** First unit, at or after `from`, with the given weakness. */
function FirstWeakTo(units: seq<Unit>, weakness: UnitWeakness, from: nat): (i: nat)
  requires from <= |units|
  ensures from <= i <= |units|
  ensures i < |units| ==> units[i].weakness == weakness
  ensures forall j :: from <= j < i ==> units[j].weakness != weakness
  decreases |units| - from
{
  if from == |units| then from
  else if units[from].weakness == weakness then from
  else FirstWeakTo(units, weakness, from + 1)
}

/** The fields of a condition object that an evaluation may change. */
datatype CondState = CondState(resultUnit: Unit?, currentIndex: int, currentAction: GambitAction?)

/** The changing fields of every scene condition at one moment. A scan
    evaluates a run of conditions against a view and updates it, while the
    units, rules and rosters it also reads stay as they are. */
type View = map<GambitTargetCondition, CondState>

/** The view of the current heap. */
ghost function ViewOf(gm: GameManager): View
  reads gm`conditions, gm.conditions`resultUnit, gm.conditions`currentIndex, gm.conditions`currentAction
{
  map c | c in gm.conditions :: CondState(c.resultUnit, c.currentIndex, c.currentAction)
}

/** The part of GameManager.Valid that evaluations rely on and no evaluation
    changes: the rosters hold scene units, a committed rule is a scene rule,
    and a rule's condition is a scene condition. */
ghost predicate Closed(gm: GameManager)
  reads gm`currentPartyMembers, gm`currentEnemies, gm`units, gm`rules, gm`conditions
  reads gm.units`currentValidatedRule, gm.rules`targetCondition
{
  && (forall u :: u in gm.currentPartyMembers ==> u in gm.units)
  && (forall u :: u in gm.currentEnemies ==> u in gm.units)
  && (forall u :: u in gm.units && u.currentValidatedRule != null ==> u.currentValidatedRule in gm.rules)
  && (forall r :: r in gm.rules && r.targetCondition != null ==> r.targetCondition in gm.conditions)
}

/** A view covering every scene condition, whose bound targets are scene
    units and whose cursors are not negative. */
ghost predicate ViewReady(gm: GameManager, v: View)
  reads gm`units, gm`conditions
{
  && (forall c :: c in gm.conditions ==> c in v)
  && (forall c :: c in v ==> (v[c].resultUnit == null || v[c].resultUnit in gm.units) && v[c].currentIndex >= 0)
}

/** A party member that is a leader committed to a rule aimed at an enemy. */
predicate LeadsAgainstEnemy(u: Unit)
  reads u`isLeader, u`currentValidatedRule, {u.currentValidatedRule}`targetCondition
{
  && u.isLeader && u.currentValidatedRule != null
  && u.currentValidatedRule.targetCondition != null
  && u.currentValidatedRule.targetCondition.targetType == Enemy
}

/** The unit a leading member's committed condition has bound. */
function LeaderTarget(u: Unit): Unit?
  reads u`isLeader, u`currentValidatedRule, {u.currentValidatedRule}`targetCondition
  reads {u.currentValidatedRule.targetCondition}`resultUnit
  requires LeadsAgainstEnemy(u)
{
  u.currentValidatedRule.targetCondition.resultUnit
}

/** LeaderTarget read from a view. */
ghost function LeaderTargetIn(u: Unit, v: View): Unit?
  reads u`isLeader, u`currentValidatedRule, {u.currentValidatedRule}`targetCondition
  requires LeadsAgainstEnemy(u) && u.currentValidatedRule.targetCondition in v
{
  v[u.currentValidatedRule.targetCondition].resultUnit
}

/** Every leading party member has a non-null bound target in `v`, so that
    TargetIsHealthAt can read its health. */
ghost predicate LeaderTargetsBoundIn(gm: GameManager, v: View)
  reads gm`currentPartyMembers, gm`currentEnemies, gm`units, gm`rules, gm`conditions
  reads gm.units`currentValidatedRule, gm.units`isLeader, gm.rules`targetCondition
  requires Closed(gm) && ViewReady(gm, v)
{
  forall u :: u in gm.currentPartyMembers && LeadsAgainstEnemy(u) ==> LeaderTargetIn(u, v) != null
}

/** LeaderTargetsBoundIn of the current heap. */
ghost predicate LeaderTargetsBound(gm: GameManager)
  reads gm`currentPartyMembers, gm`currentEnemies, gm`units, gm`rules, gm`conditions
  reads gm.units`maximumHealth, gm.units`health, gm.units`maximumMana, gm.units`mana, gm.units`level
  reads gm.units`gambitRules, gm.units`currentValidatedRule, gm.units`isLeader
  reads gm.rules`targetCondition, gm.rules`gambitAction
  reads gm.conditions`resultUnit, gm.conditions`currentIndex, gm.conditions`currentAction
  requires gm.Valid()
{
  LeaderTargetsBoundIn(gm, ViewOf(gm))
}

/** First leading member of `party`, at or after `from`. */
function FirstLeader(party: seq<Unit>, gm: GameManager, from: nat): (i: nat)
  reads gm`currentPartyMembers, gm`currentEnemies, gm`units, gm`rules, gm`conditions
  reads gm.units`currentValidatedRule, gm.units`isLeader, gm.rules`targetCondition
  requires Closed(gm) && from <= |party| && forall u :: u in party ==> u in gm.units
  ensures from <= i <= |party|
  ensures i < |party| ==> LeadsAgainstEnemy(party[i])
  ensures forall j :: from <= j < i ==> !LeadsAgainstEnemy(party[j])
  decreases |party| - from
{
  if from == |party| then from
  else if LeadsAgainstEnemy(party[from]) then from
  else FirstLeader(party, gm, from + 1)
}

/** First leading member, at or after `from`, whose target in `v` has a
    health percentage of exactly `percent`. */
ghost function FirstLeaderAt(party: seq<Unit>, percent: int, gm: GameManager, v: View, from: nat): (i: nat)
  reads gm`currentPartyMembers, gm`currentEnemies, gm`units, gm`rules, gm`conditions
  reads gm.units`currentValidatedRule, gm.units`isLeader, gm.units`healthPercentage, gm.rules`targetCondition
  requires Closed(gm) && ViewReady(gm, v) && from <= |party| && forall u :: u in party ==> u in gm.units
  requires forall u :: u in party && LeadsAgainstEnemy(u) ==> LeaderTargetIn(u, v) != null
  ensures from <= i <= |party|
  ensures i < |party| ==> LeadsAgainstEnemy(party[i]) && LeaderTargetIn(party[i], v).healthPercentage == percent as real
  ensures forall j :: from <= j < i ==>
    !LeadsAgainstEnemy(party[j]) || LeaderTargetIn(party[j], v).healthPercentage != percent as real
  decreases |party| - from
{
  if from == |party| then from
  else if LeadsAgainstEnemy(party[from]) && LeaderTargetIn(party[from], v).healthPercentage == percent as real then from
  else FirstLeaderAt(party, percent, gm, v, from + 1)
}

/** The state IsConditionMet leaves in condition `c`, whose state was `st`,
    once it has decided `b` for a rule holding `ruleAction`: a found target is
    stored, and only TargetAny moves its cursor. */
function After(c: GambitTargetCondition, st: CondState, ruleAction: GambitAction?, partySize: int, b: Binding): CondState
{
  var bound := if b.Met? then b.target else st.resultUnit;
  if c.kind.AnyAlly? then
    var s := AnyStep(st.currentIndex, st.currentAction, ruleAction, partySize);
    CondState(bound, s.nextIndex, s.nextAction)
  else
    CondState(bound, st.currentIndex, st.currentAction)
}

class GambitTargetCondition {
  const kind: ConditionKind
  const targetType: GambitTargetType
  const name: string
  var resultUnit: Unit?
  // TargetAny's cursor; the other variants never touch it
  var currentIndex: int
  var currentAction: GambitAction?

  constructor AllyHPBelow70()
    ensures kind == AllyHPAtMost(70) && targetType == Player && name == "Ally: HP < 70%"
    ensures resultUnit == null && currentIndex == 0 && currentAction == null
  {
    kind, targetType, name := AllyHPAtMost(70), Player, "Ally: HP < 70%";
    resultUnit, currentIndex, currentAction := null, 0, null;
  }

  constructor AllyHPBelowValuePercentage(displayName: string, percentage: int)
    ensures kind == AllyHPAtMost(percentage) && targetType == Player && name == displayName
    ensures resultUnit == null && currentIndex == 0 && currentAction == null
  {
    kind, targetType, name := AllyHPAtMost(percentage), Player, displayName;
    resultUnit, currentIndex, currentAction := null, 0, null;
  }

  constructor TargetIsHealthAt(displayName: string, percentage: int)
    ensures kind == LeaderTargetHealthAt(percentage) && targetType == Enemy && name == displayName
    ensures resultUnit == null && currentIndex == 0 && currentAction == null
  {
    kind, targetType, name := LeaderTargetHealthAt(percentage), Enemy, displayName;
    resultUnit, currentIndex, currentAction := null, 0, null;
  }

  constructor TargetNearestVisible()
    ensures kind == NearestVisible && targetType == Enemy && name == "Target: Nearest Visible"
    ensures resultUnit == null && currentIndex == 0 && currentAction == null
  {
    kind, targetType, name := NearestVisible, Enemy, "Target: Nearest Visible";
    resultUnit, currentIndex, currentAction := null, 0, null;
  }

  constructor TargetWeakToElement(displayName: string, weakness: UnitWeakness)
    ensures kind == WeakToElement(weakness) && targetType == Enemy && name == displayName
    ensures resultUnit == null && currentIndex == 0 && currentAction == null
  {
    kind, targetType, name := WeakToElement(weakness), Enemy, displayName;
    resultUnit, currentIndex, currentAction := null, 0, null;
  }

  constructor TargetAny()
    ensures kind == AnyAlly && targetType == Player && name == "Target: Any"
    ensures resultUnit == null && currentIndex == 0 && currentAction == null
  {
    kind, targetType, name := AnyAlly, Player, "Target: Any";
    resultUnit, currentIndex, currentAction := null, 0, null;
  }

  constructor TargetSelf()
    ensures kind == Self && targetType == Player && name == "Target: Self"
    ensures resultUnit == null && currentIndex == 0 && currentAction == null
  {
    kind, targetType, name := Self, Player, "Target: Self";
    resultUnit, currentIndex, currentAction := null, 0, null;
  }

  constructor TargetPartyLeaderTarget()
    ensures kind == PartyLeaderTarget && targetType == Enemy && name == "Target: Party Leader Target"
    ensures resultUnit == null && currentIndex == 0 && currentAction == null
  {
    kind, targetType, name := PartyLeaderTarget, Enemy, "Target: Party Leader Target";
    resultUnit, currentIndex, currentAction := null, 0, null;
  }

  /** TargetAny indexes the party, so it needs a non-empty party. */
  ghost predicate Indexable(gm: GameManager)
    reads gm`currentPartyMembers
  {
    kind.AnyAlly? ==> |gm.currentPartyMembers| > 0
  }

  /** What the variant needs to be evaluated on view `v` without a null
      dereference or an out-of-range index: TargetAny indexes the party,
      TargetIsHealthAt reads the health of every leading member's target. */
  ghost predicate ReadyIn(gm: GameManager, v: View)
    reads gm`currentPartyMembers, gm`currentEnemies, gm`units, gm`rules, gm`conditions
    reads gm.units`currentValidatedRule, gm.units`isLeader, gm.rules`targetCondition
    requires Closed(gm) && ViewReady(gm, v)
  {
    && Indexable(gm)
    && (kind.LeaderTargetHealthAt? ==> LeaderTargetsBoundIn(gm, v))
  }

  /** ReadyIn of the current heap. */
  ghost predicate Ready(gm: GameManager)
    reads gm`currentPartyMembers, gm`currentEnemies, gm`units, gm`rules, gm`conditions
    reads gm.units`maximumHealth, gm.units`health, gm.units`maximumMana, gm.units`mana, gm.units`level
    reads gm.units`gambitRules, gm.units`currentValidatedRule, gm.units`isLeader
    reads gm.rules`targetCondition, gm.rules`gambitAction
    reads gm.conditions`resultUnit, gm.conditions`currentIndex, gm.conditions`currentAction
    requires gm.Valid()
  {
    ReadyIn(gm, ViewOf(gm))
  }

  /** The decision IsConditionMet takes when the conditions are as `v` says
      and the units, rules and rosters as the heap says. */
  ghost function Decision(instigator: Unit, currentRule: GambitRule, gm: GameManager, v: View): (b: Binding)
    reads currentRule`gambitAction
    reads gm`currentPartyMembers, gm`currentEnemies, gm`units, gm`rules, gm`conditions
    reads gm.units`currentValidatedRule, gm.units`isLeader, gm.units`healthPercentage, gm.rules`targetCondition
    requires Closed(gm) && ViewReady(gm, v) && instigator in gm.units && this in v && ReadyIn(gm, v)
    ensures b.Met? && b.target != null ==> b.target in gm.units
    ensures b.Met? && b.target == null ==> kind.PartyLeaderTarget? && !LeaderTargetsBoundIn(gm, v)
    ensures kind.Self? ==> b == Met(instigator)
  {
    var party := gm.currentPartyMembers;
    match kind
    case AllyHPAtMost(p) =>
      var i := FirstAtOrBelow(party, p);
      if i < |party| then Met(party[i]) else NotMet
    case LeaderTargetHealthAt(p) =>
      var i := FirstLeaderAt(party, p, gm, v, 0);
      if i < |party| then Met(LeaderTargetIn(party[i], v)) else NotMet
    case NearestVisible =>
      var found := NearestUnitsFor(instigator, gm);
      if found.Found? && |found.units| > 0 then Met(found.units[0]) else NotMet
    case WeakToElement(w) =>
      var found := NearestUnitsFor(instigator, gm);
      if found.Found? then
        var i := FirstWeakTo(found.units, w, 0);
        if i < |found.units| then Met(found.units[i]) else NotMet
      else NotMet
    case AnyAlly =>
      var s := AnyStep(v[this].currentIndex, v[this].currentAction, currentRule.gambitAction, |party|);
      if s.met then Met(party[s.bound]) else NotMet
    case Self => Met(instigator)
    case PartyLeaderTarget =>
      var i := FirstLeader(party, gm, 0);
      if i < |party| then Met(LeaderTargetIn(party[i], v)) else NotMet
  }

  /** The decision IsConditionMet takes in the current state. */
  ghost function Evaluate(instigator: Unit, currentRule: GambitRule, gm: GameManager): (b: Binding)
    reads currentRule`gambitAction
    reads gm`currentPartyMembers, gm`currentEnemies, gm`units, gm`rules, gm`conditions
    reads gm.units`maximumHealth, gm.units`health, gm.units`maximumMana, gm.units`mana, gm.units`level
    reads gm.units`gambitRules, gm.units`currentValidatedRule, gm.units`isLeader, gm.units`healthPercentage
    reads gm.rules`targetCondition, gm.rules`gambitAction
    reads gm.conditions`resultUnit, gm.conditions`currentIndex, gm.conditions`currentAction
    requires gm.Valid() && instigator in gm.units && this in gm.conditions && Ready(gm)
  {
    Decision(instigator, currentRule, gm, ViewOf(gm))
  }

  /** IsConditionMet: evaluates the variant, stores the target in
      `resultUnit` when it succeeds and leaves it unchanged when it fails.
      Only TargetAny moves its cursor; no unit is changed. */
  method IsConditionMet(instigator: Unit, currentRule: GambitRule, gm: GameManager) returns (met: bool, ghost b: Binding)
    requires gm.Valid() && instigator in gm.units && this in gm.conditions && Ready(gm)
    modifies this`resultUnit, this`currentIndex, this`currentAction
    ensures b == old(Evaluate(instigator, currentRule, gm))
    ensures gm.Valid()
    ensures met == b.Met? && (met ==> resultUnit == b.target) && (!met ==> resultUnit == old(resultUnit))
    ensures kind.AnyAlly? ==>
      var s := old(AnyStep(currentIndex, currentAction, currentRule.gambitAction, |gm.currentPartyMembers|));
      currentIndex == s.nextIndex && currentAction == s.nextAction
    ensures !kind.AnyAlly? ==> currentIndex == old(currentIndex) && currentAction == old(currentAction)
    ensures ViewOf(gm) == old(ViewOf(gm))[this := After(this, old(ViewOf(gm))[this], currentRule.gambitAction,
                                                        |gm.currentPartyMembers|, b)]
  {
    ghost var v0 := ViewOf(gm);
    b := Evaluate(instigator, currentRule, gm);
    var found;
    met, found := Decide(instigator, currentRule, gm);
    var st := After(this, CondState(resultUnit, currentIndex, currentAction), currentRule.gambitAction,
                    |gm.currentPartyMembers|, if met then Met(found) else NotMet);
    Store(st, gm);
  }

  /** The branch IsConditionMet takes for its variant, before anything is
      stored: whether it succeeds and the unit it binds. */
  method Decide(instigator: Unit, currentRule: GambitRule, gm: GameManager) returns (met: bool, found: Unit?)
    requires gm.Valid() && instigator in gm.units && this in gm.conditions && Ready(gm)
    ensures var b := Evaluate(instigator, currentRule, gm);
      met == b.Met? && (met ==> found == b.target)
  {
    var party := gm.currentPartyMembers;
    met, found := false, null;
    match kind
    case AllyHPAtMost(percent) =>
      var i := FirstAtOrBelow(party, percent);
      if i < |party| {
        found, met := party[i], true;
      }
    case LeaderTargetHealthAt(percent) =>
      var i := FindLeaderAt(party, percent, gm);
      if i < |party| {
        found, met := LeaderTarget(party[i]), true;
      }
    case NearestVisible =>
      var result := gm.GetNearestUnitsInRangeBasedOnSourceTag(instigator);
      if result.Found? && |result.units| > 0 {
        found, met := result.units[0], true;
      }
    case WeakToElement(weaknessToCheck) =>
      var result := gm.GetNearestUnitsInRangeBasedOnSourceTag(instigator);
      if result.Found? {
        var i := FindWeakTo(result.units, weaknessToCheck);
        if i < |result.units| {
          found, met := result.units[i], true;
        }
      }
    case AnyAlly =>
      var maxPartySize := |party|;
      if currentRule.gambitAction == currentAction && currentIndex < maxPartySize {
        found, met := party[currentIndex], true;
      } else if currentAction != currentRule.gambitAction {
        found, met := party[0], true;
      }
    case Self =>
      found, met := instigator, true;
    case PartyLeaderTarget =>
      var i := FindLeader(party, gm);
      if i < |party| {
        found, met := LeaderTarget(party[i]), true;
      }
  }

  /** Stores the condition's new binding and cursor. */
  method Store(st: CondState, gm: GameManager)
    requires gm.Valid() && this in gm.conditions
    requires (st.resultUnit == null || st.resultUnit in gm.units) && st.currentIndex >= 0
    modifies this`resultUnit, this`currentIndex, this`currentAction
    ensures gm.Valid()
    ensures resultUnit == st.resultUnit && currentIndex == st.currentIndex && currentAction == st.currentAction
    ensures ViewOf(gm) == old(ViewOf(gm))[this := st]
  {
    ghost var v0 := ViewOf(gm);
    Bind(st.resultUnit, gm);
    ghost var v1 := ViewOf(gm);
    MoveCursor(st.currentIndex, st.currentAction, gm);
    OverrideTwice(v0, this, v1[this], st);
  }

  /** Stores a target in `resultUnit`. */
  method Bind(u: Unit?, gm: GameManager)
    requires gm.Valid() && this in gm.conditions && (u == null || u in gm.units)
    modifies this`resultUnit
    ensures gm.Valid() && resultUnit == u
    ensures ViewOf(gm) == old(ViewOf(gm))[this := CondState(u, currentIndex, currentAction)]
  {
    resultUnit := u;
  }

  /** Moves TargetAny's cursor; the bound target is not touched. */
  method MoveCursor(index: int, action: GambitAction?, gm: GameManager)
    requires gm.Valid() && this in gm.conditions && index >= 0
    modifies this`currentIndex, this`currentAction
    ensures gm.Valid() && currentIndex == index && currentAction == action
    ensures ViewOf(gm) == old(ViewOf(gm))[this := CondState(resultUnit, index, action)]
  {
    currentIndex, currentAction := index, action;
  }
}

/** Two updates of one condition's state leave only the second. */
lemma OverrideTwice(v: View, c: GambitTargetCondition, first: CondState, second: CondState)
  ensures v[c := first][c := second] == v[c := second]
{
}

/** Replacing the state of one condition keeps a view ready when the new
    binding is a scene unit (or null) and the cursor is not negative. A
    non-null binding keeps every leader's target bound; a null one can only
    unbind one. */
lemma RebindKeepsBound(gm: GameManager, v: View, c: GambitTargetCondition, st: CondState)
  requires Closed(gm) && ViewReady(gm, v) && c in v
  requires (st.resultUnit == null || st.resultUnit in gm.units) && st.currentIndex >= 0
  ensures ViewReady(gm, v[c := st])
  ensures st.resultUnit != null && LeaderTargetsBoundIn(gm, v) ==> LeaderTargetsBoundIn(gm, v[c := st])
  ensures st.resultUnit == v[c].resultUnit ==> LeaderTargetsBoundIn(gm, v[c := st]) == LeaderTargetsBoundIn(gm, v)
  ensures st.resultUnit == null && LeaderTargetsBoundIn(gm, v[c := st]) ==> LeaderTargetsBoundIn(gm, v)
{
  var w := v[c := st];
  assert forall u :: u in gm.currentPartyMembers && LeadsAgainstEnemy(u) ==>
    LeaderTargetIn(u, w) == (if u.currentValidatedRule.targetCondition == c then st.resultUnit else LeaderTargetIn(u, v));
}

/** The scan of TargetWeakToElement: the first unit with the weakness, or
    |units| when there is none. */
method FindWeakTo(units: seq<Unit>, weakness: UnitWeakness) returns (i: nat)
  ensures i == FirstWeakTo(units, weakness, 0)
{
  i := 0;
  while i < |units|
    invariant 0 <= i <= |units|
    invariant FirstWeakTo(units, weakness, 0) == FirstWeakTo(units, weakness, i)
  {
    if units[i].weakness == weakness {
      return;
    }
    i := i + 1;
  }
}

/** The scan of TargetPartyLeaderTarget: the first leading member, or |party|. */
method FindLeader(party: seq<Unit>, gm: GameManager) returns (i: nat)
  requires gm.Valid() && forall u :: u in party ==> u in gm.units
  ensures i == FirstLeader(party, gm, 0)
{
  i := 0;
  while i < |party|
    invariant 0 <= i <= |party|
    invariant FirstLeader(party, gm, 0) == FirstLeader(party, gm, i)
  {
    var u := party[i];
    if u.isLeader && u.currentValidatedRule != null && u.currentValidatedRule.targetCondition.targetType == Enemy {
      return;
    }
    i := i + 1;
  }
}

/** The scan of TargetIsHealthAt: the first leading member whose target is at
    exactly `percent`, or |party|. */
method FindLeaderAt(party: seq<Unit>, percent: int, gm: GameManager) returns (i: nat)
  requires gm.Valid() && forall u :: u in party ==> u in gm.units
  requires forall u :: u in party && LeadsAgainstEnemy(u) ==> LeaderTargetIn(u, ViewOf(gm)) != null
  ensures i == FirstLeaderAt(party, percent, gm, ViewOf(gm), 0)
{
  assert forall u :: u in party && LeadsAgainstEnemy(u) ==> LeaderTargetIn(u, ViewOf(gm)) == LeaderTarget(u);
  i := 0;
  while i < |party|
    invariant 0 <= i <= |party|
    invariant FirstLeaderAt(party, percent, gm, ViewOf(gm), 0) == FirstLeaderAt(party, percent, gm, ViewOf(gm), i)
  {
    var u := party[i];
    if u.isLeader && u.currentValidatedRule != null && u.currentValidatedRule.targetCondition.targetType == Enemy {
      if u.currentValidatedRule.targetCondition.resultUnit.healthPercentage == percent as real {
        return;
      }
    }
    i := i + 1;
  }
}

/** AllyHPBelowValuePercentage (and AllyHPBelow70 with 70) succeeds exactly
    when some party member is at or below the threshold, and binds the first
    such member in roster order. */
lemma EvaluateAllyHP(c: GambitTargetCondition, instigator: Unit, rule: GambitRule, gm: GameManager)
  requires gm.Valid() && instigator in gm.units && c in gm.conditions && c.Ready(gm) && c.kind.AllyHPAtMost?
  ensures var b := c.Evaluate(instigator, rule, gm);
    var party := gm.currentPartyMembers;
    && (b.Met? <==> exists u :: u in party && u.healthPercentage <= c.kind.percent as real)
    && (b.Met? ==> exists i :: 0 <= i < |party| && b.target == party[i]
                     && party[i].healthPercentage <= c.kind.percent as real
                     && forall j :: 0 <= j < i ==> party[j].healthPercentage > c.kind.percent as real)
{
  var party := gm.currentPartyMembers;
  var i := FirstAtOrBelow(party, c.kind.percent);
  if i == |party| {
    forall u | u in party
      ensures u.healthPercentage > c.kind.percent as real
    {
      var k :| 0 <= k < |party| && party[k] == u;
    }
  }
}

/** TargetIsHealthAt succeeds exactly when a leading party member's bound
    target is at exactly the given percentage, and binds the target of the
    first such leader in roster order. */
lemma EvaluateLeaderTargetHealthAt(c: GambitTargetCondition, instigator: Unit, rule: GambitRule, gm: GameManager)
  requires gm.Valid() && instigator in gm.units && c in gm.conditions && c.Ready(gm) && c.kind.LeaderTargetHealthAt?
  ensures var b := c.Evaluate(instigator, rule, gm);
    var party := gm.currentPartyMembers;
    var p := c.kind.percent as real;
    && (b.Met? <==> exists u :: u in party && LeadsAgainstEnemy(u) && LeaderTarget(u).healthPercentage == p)
    && (b.Met? ==> exists i :: 0 <= i < |party| && LeadsAgainstEnemy(party[i]) && b.target == LeaderTarget(party[i])
                     && b.target.healthPercentage == p
                     && forall j :: 0 <= j < i ==>
                          !LeadsAgainstEnemy(party[j]) || LeaderTarget(party[j]).healthPercentage != p)
{
  var party := gm.currentPartyMembers;
  var i := FirstLeaderAt(party, c.kind.percent, gm, ViewOf(gm), 0);
  if i == |party| {
    forall u | u in party && LeadsAgainstEnemy(u)
      ensures LeaderTarget(u).healthPercentage != c.kind.percent as real
    {
      var k :| 0 <= k < |party| && party[k] == u;
    }
  }
}

/** TargetPartyLeaderTarget succeeds exactly when some party member leads
    against an enemy, and binds that leader's target, null or not. */
lemma EvaluatePartyLeaderTarget(c: GambitTargetCondition, instigator: Unit, rule: GambitRule, gm: GameManager)
  requires gm.Valid() && instigator in gm.units && c in gm.conditions && c.Ready(gm) && c.kind.PartyLeaderTarget?
  ensures var b := c.Evaluate(instigator, rule, gm);
    var party := gm.currentPartyMembers;
    && (b.Met? <==> exists u :: u in party && LeadsAgainstEnemy(u))
    && (b.Met? ==> exists i :: 0 <= i < |party| && LeadsAgainstEnemy(party[i]) && b.target == LeaderTarget(party[i])
                     && forall j :: 0 <= j < i ==> !LeadsAgainstEnemy(party[j]))
{
  var party := gm.currentPartyMembers;
  var i := FirstLeader(party, gm, 0);
  if i == |party| {
    forall u | u in party
      ensures !LeadsAgainstEnemy(u)
    {
      var k :| 0 <= k < |party| && party[k] == u;
    }
  }
}

/** TargetNearestVisible succeeds exactly when some unit of the opposing
    roster is in range, and binds the first in-range unit in roster order;
    nothing is sorted by distance. */
lemma EvaluateNearestVisible(c: GambitTargetCondition, instigator: Unit, rule: GambitRule, gm: GameManager)
  requires gm.Valid() && instigator in gm.units && c in gm.conditions && c.Ready(gm) && c.kind.NearestVisible?
  ensures var b := c.Evaluate(instigator, rule, gm);
    var roster := OpposingRoster(instigator, gm);
    && (b.Met? <==> exists u :: u in roster && InRange(instigator, u, TargetingRange))
    && (b.Met? ==> b.target == InRangeFilter(instigator, roster, TargetingRange)[0])
{
  var roster := OpposingRoster(instigator, gm);
  var f := InRangeFilter(instigator, roster, TargetingRange);
  if |f| > 0 {
    assert f[0] in f;
  }
}

/** TargetWeakToElement succeeds exactly when some in-range unit of the
    opposing roster has the weakness, and binds the first such unit in
    roster order. */
lemma EvaluateWeakToElement(c: GambitTargetCondition, instigator: Unit, rule: GambitRule, gm: GameManager)
  requires gm.Valid() && instigator in gm.units && c in gm.conditions && c.Ready(gm) && c.kind.WeakToElement?
  ensures var b := c.Evaluate(instigator, rule, gm);
    var roster := OpposingRoster(instigator, gm);
    && (b.Met? <==> exists u :: u in roster && InRange(instigator, u, TargetingRange) && u.weakness == c.kind.weakness)
    && (b.Met? ==> b.target in roster && InRange(instigator, b.target, TargetingRange)
                   && b.target.weakness == c.kind.weakness)
    && (b.Met? ==> var f := InRangeFilter(instigator, roster, TargetingRange);
                   var i := FirstWeakTo(f, c.kind.weakness, 0);
                   && i < |f| && b.target == f[i]
                   && forall j :: 0 <= j < i ==> f[j].weakness != c.kind.weakness)
{
  var roster := OpposingRoster(instigator, gm);
  var f := InRangeFilter(instigator, roster, TargetingRange);
  var found := NearestUnitsFor(instigator, gm);
  if found.Found? {
    var i := FirstWeakTo(f, c.kind.weakness, 0);
    if i == |f| {
      forall u | u in roster && InRange(instigator, u, TargetingRange)
        ensures u.weakness != c.kind.weakness
      {
        var k :| 0 <= k < |f| && f[k] == u;
      }
    } else {
      assert f[i] in f;
    }
  }
}
