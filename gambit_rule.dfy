// A gambit rule: one priority slot of a unit's rule list, pairing a target
// condition with an action. A fresh rule is disabled and holds neither.

class GambitRule {
  var order: int
  var isEnabled: bool
  var targetCondition: GambitTargetCondition?
  var gambitAction: GambitAction?

  /** `new GambitRule()`: every field at its C# default. */
  constructor ()
    ensures order == 0 && !isEnabled
    ensures targetCondition == null && gambitAction == null
  {
    order := 0;
    isEnabled := false;
    targetCondition := null;
    gambitAction := null;
  }

  method ToggleEnabled()
    modifies this`isEnabled
    ensures isEnabled == !old(isEnabled)
  {
    isEnabled := !isEnabled;
  }
}

/** `new GambitRule()` followed by the three assignments of the default
    setup: an enabled rule holding `condition` and `action`. */
method NewRule(condition: GambitTargetCondition, action: GambitAction) returns (r: GambitRule)
  ensures fresh(r)
  ensures r.isEnabled && r.targetCondition == condition && r.gambitAction == action
{
  r := new GambitRule();
  r.targetCondition := condition;
  r.gambitAction := action;
  r.isEnabled := true;
}

/** Toggling a rule twice gives back its original flag and touches nothing else. */
method ToggleEnabledTwice(rule: GambitRule)
  modifies rule`isEnabled
  ensures rule.isEnabled == old(rule.isEnabled)
  ensures unchanged(rule`order, rule`targetCondition, rule`gambitAction)
{
  rule.ToggleEnabled();
  rule.ToggleEnabled();
}
