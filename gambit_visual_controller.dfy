// The rule-list editor behind the gambit panel: the catalogue of shared
// condition and action instances, and the click handlers that switch,
// toggle and reassign the rules of the unit on show.

/** `s` with entries `i` and `j` exchanged. */
function Swap<T>(s: seq<T>, i: int, j: int): (r: seq<T>)
  requires 0 <= i < |s| && 0 <= j < |s|
  ensures |r| == |s| && r[i] == s[j] && r[j] == s[i]
  ensures forall k :: 0 <= k < |s| && k != i && k != j ==> r[k] == s[k]
  ensures multiset(r) == multiset(s)
{
  var back := s[i];
  var r := s[i := s[j]][j := back];
  assert multiset(s[i := s[j]]) == multiset(s) - multiset{s[i]} + multiset{s[j]};
  r
}

/** Switching the same pair twice gives back the original list. */
lemma SwapTwice<T>(s: seq<T>, i: int, j: int)
  requires 0 <= i < |s| && 0 <= j < |s|
  ensures Swap(Swap(s, i, j), i, j) == s
{
  var t := Swap(Swap(s, i, j), i, j);
  assert forall k :: 0 <= k < |s| ==> t[k] == s[k];
}

/** Choosing the same rule with both clicks changes nothing. */
lemma SwapSame<T>(s: seq<T>, i: int)
  requires 0 <= i < |s|
  ensures Swap(s, i, i) == s
{
  assert forall k :: 0 <= k < |s| ==> Swap(s, i, i)[k] == s[k];
}

/** NextPartyMember's index: one up, back to 0 past the end. For an index
    of at least -1 and a non-empty roster it is a valid position. */
function NextIndex(index: int, count: int): (r: int)
  ensures count > 0 && -1 <= index ==> 0 <= r < count
  ensures index + 1 < count ==> r == index + 1
{
  if index + 1 >= count then 0 else index + 1
}

/** PreviousPartyMember's index: one down, to the last position below 0. For
    an index at most one past the end of a non-empty roster it is a valid
    position; an empty roster gives -1. */
function PrevIndex(index: int, count: int): (r: int)
  ensures count > 0 && index <= count ==> 0 <= r < count
  ensures 0 < index ==> r == index - 1
  ensures count == 0 && index <= 0 ==> r == -1
{
  if index - 1 < 0 then count - 1 else index - 1
}

/** A roster that lost two members since `index` was the last position
    leaves PreviousPartyMember indexing past its end. */
lemma PrevIndexPastShrunkRoster(count: int)
  requires count >= 1
  ensures PrevIndex(count + 1, count) == count
{
}

/** Next and previous undo each other on a valid index. */
lemma NextPrevInverse(index: int, count: int)
  requires 0 <= index < count
  ensures PrevIndex(NextIndex(index, count), count) == index
  ensures NextIndex(PrevIndex(index, count), count) == index
{
}

class GambitVisualController {
  var unitToShow: Unit?
  var showIndex: int
  var switchIndex: int
  var isSwitching: bool

  var allTargetConditions: seq<GambitTargetCondition>
  var allActions: seq<GambitAction>
  var gambitRuleIndexToModify: int

  var isOverlayWindowOpen: bool
  var targetConditionsPanelVisible: bool
  var actionsPanelVisible: bool
  var isConstructed: bool

  /** The editor shows a scene unit and offers scene conditions. */
  ghost predicate Valid(gm: GameManager)
    reads this`unitToShow, this`allTargetConditions, gm`units, gm`conditions
  {
    && (unitToShow != null ==> unitToShow in gm.units)
    && (forall c :: c in allTargetConditions ==> c in gm.conditions)
  }

  constructor ()
    ensures unitToShow == null && showIndex == 0 && switchIndex == 0 && !isSwitching
    ensures allTargetConditions == [] && allActions == [] && gambitRuleIndexToModify == 0
    ensures !isOverlayWindowOpen && !targetConditionsPanelVisible && !actionsPanelVisible && !isConstructed
  {
    unitToShow := null;
    showIndex, switchIndex, isSwitching := 0, 0, false;
    allTargetConditions, allActions, gambitRuleIndexToModify := [], [], 0;
    isOverlayWindowOpen, targetConditionsPanelVisible, actionsPanelVisible, isConstructed := false, false, false, false;
  }

  /** Start: builds the catalogue, 11 conditions and 4 actions in a fixed
      order, and shows the party member at `showIndex` if there is one. */
  method Start(gm: GameManager)
    requires gm.Valid() && showIndex >= 0 && (unitToShow != null ==> unitToShow in gm.units)
    modifies this`allTargetConditions, this`allActions, this`unitToShow, gm`rules, gm`conditions
    ensures gm.Valid() && Valid(gm)
    ensures CatalogueConditions(allTargetConditions) && CatalogueActions(allActions)
    ensures forall c :: c in allTargetConditions ==> fresh(c) && c.resultUnit == null
    ensures forall a :: a in allActions ==> fresh(a)
    ensures unitToShow == (if |gm.currentPartyMembers| > showIndex then gm.currentPartyMembers[showIndex]
                           else old(unitToShow))
  {
    var cs := RegisteredConditions(gm);
    allTargetConditions := cs;
    allActions := NewActions();
    if |gm.currentPartyMembers| > showIndex {
      unitToShow := gm.currentPartyMembers[showIndex];
    }
  }

  /** The catalogue's conditions, made known to the scene. */
  static method RegisteredConditions(gm: GameManager) returns (cs: seq<GambitTargetCondition>)
    requires gm.Valid()
    modifies gm`rules, gm`conditions
    ensures gm.Valid() && gm.units == old(gm.units)
    ensures CatalogueConditions(cs)
    ensures forall c :: c in cs ==> fresh(c) && c.resultUnit == null && c in gm.conditions
  {
    cs := NewTargetConditions();
    gm.Register({}, set c | c in cs);
  }

  static method NewTargetConditions() returns (cs: seq<GambitTargetCondition>)
    ensures CatalogueConditions(cs)
    ensures forall c :: c in cs ==> fresh(c) && c.resultUnit == null && c.currentIndex == 0
  {
    var c0 := new GambitTargetCondition.TargetNearestVisible();
    var c1 := new GambitTargetCondition.TargetPartyLeaderTarget();
    var c2 := new GambitTargetCondition.TargetSelf();
    var c3 := new GambitTargetCondition.TargetAny();
    var c4 := new GambitTargetCondition.TargetWeakToElement("Target: Weak to Fire", Fire);
    var c5 := new GambitTargetCondition.TargetWeakToElement("Target: Weak to Electricity", Electricity);
    var c6 := new GambitTargetCondition.TargetWeakToElement("Target: Weak to Water", Water);
    var c7 := new GambitTargetCondition.TargetWeakToElement("Target: Weak to Wind", Wind);
    var c8 := new GambitTargetCondition.AllyHPBelowValuePercentage("Ally: HP <= 70%", 70);
    var c9 := new GambitTargetCondition.AllyHPBelowValuePercentage("Ally: HP <= 50%", 50);
    var c10 := new GambitTargetCondition.AllyHPBelowValuePercentage("Ally: HP <= 20%", 20);
    cs := [c0, c1, c2, c3, c4, c5, c6, c7, c8, c9, c10];
  }

  static method NewActions() returns (acts: seq<GambitAction>)
    ensures CatalogueActions(acts)
    ensures forall a :: a in acts ==> fresh(a)
  {
    var a0 := new GambitAction.AttackAction();
    var a1 := new GambitAction.StealAction();
    var a2 := new GambitAction.CureAction();
    var a3 := new GambitAction.FireAction();
    acts := [a0, a1, a2, a3];
  }

  /*********** EVENT LISTENERS ***********/

  /** Flips rule `gambitIndex` of the unit on show and clears its
      commitment. An index outside the list throws before anything changes. */
  method ToggleOnOff(gm: GameManager, gambitIndex: int) returns (thrown: bool)
    requires gm.Valid() && Valid(gm) && unitToShow != null
    modifies if 0 <= gambitIndex < |unitToShow.gambitRules| then {unitToShow.gambitRules[gambitIndex]} else {}
    modifies unitToShow`currentValidatedRule
    ensures gm.Valid()
    ensures thrown <==> !(0 <= gambitIndex < |unitToShow.gambitRules|)
    ensures thrown ==> unitToShow.currentValidatedRule == old(unitToShow.currentValidatedRule)
    ensures !thrown ==>
      && unitToShow.gambitRules[gambitIndex].isEnabled == !old(unitToShow.gambitRules[gambitIndex].isEnabled)
      && RuleHalves(unitToShow.gambitRules[gambitIndex]) == old(RuleHalves(unitToShow.gambitRules[gambitIndex]))
      && unitToShow.currentValidatedRule == null
  {
    thrown := !(0 <= gambitIndex < |unitToShow.gambitRules|);
    if thrown {
      return;
    }
    var rule := unitToShow.gambitRules[gambitIndex];
    rule.isEnabled := !rule.isEnabled;
    unitToShow.GambitsChanged();
  }

  /** Puts the shared catalogue condition `allTargetIndex` into the rule being
      edited, clears the commitment and closes the flyouts. A catalogue index
      or a rule index outside its list (the rule index may be left over from
      another party member's longer list) throws before anything changes. */
  method AssignCurrentTargetCondition(gm: GameManager, allTargetIndex: int) returns (thrown: bool)
    requires gm.Valid() && Valid(gm) && unitToShow != null
    modifies if 0 <= gambitRuleIndexToModify < |unitToShow.gambitRules|
             then {unitToShow.gambitRules[gambitRuleIndexToModify]} else {}
    modifies unitToShow`currentValidatedRule
    modifies this`targetConditionsPanelVisible, this`actionsPanelVisible, this`isOverlayWindowOpen
    ensures gm.Valid() && Valid(gm)
    ensures thrown <==> !(0 <= allTargetIndex < |allTargetConditions|)
                        || !(0 <= gambitRuleIndexToModify < |unitToShow.gambitRules|)
    ensures thrown ==>
      && unitToShow.currentValidatedRule == old(unitToShow.currentValidatedRule)
      && unchanged(this`targetConditionsPanelVisible, this`actionsPanelVisible, this`isOverlayWindowOpen)
      && (0 <= gambitRuleIndexToModify < |unitToShow.gambitRules| ==>
            unchanged(unitToShow.gambitRules[gambitRuleIndexToModify]))
    ensures !thrown ==>
      && unitToShow.gambitRules[gambitRuleIndexToModify].targetCondition == allTargetConditions[allTargetIndex]
      && (var r := unitToShow.gambitRules[gambitRuleIndexToModify];
          r.order == old(r.order) && r.isEnabled == old(r.isEnabled) && r.gambitAction == old(r.gambitAction))
      && unitToShow.currentValidatedRule == null
      && FlyoutsClosed()
  {
    thrown := !(0 <= allTargetIndex < |allTargetConditions|)
              || !(0 <= gambitRuleIndexToModify < |unitToShow.gambitRules|);
    if thrown {
      return;
    }
    var option := allTargetConditions[allTargetIndex];
    unitToShow.gambitRules[gambitRuleIndexToModify].targetCondition := option;
    unitToShow.GambitsChanged();
    CloseFlyouts();
  }

  /** Puts the shared catalogue action `allActionIndex` into the rule being
      edited, clears the commitment and closes the flyouts. An index outside
      its list throws before anything changes, as in
      AssignCurrentTargetCondition. */
  method AssignCurrentAction(gm: GameManager, allActionIndex: int) returns (thrown: bool)
    requires gm.Valid() && Valid(gm) && unitToShow != null
    modifies if 0 <= gambitRuleIndexToModify < |unitToShow.gambitRules|
             then {unitToShow.gambitRules[gambitRuleIndexToModify]} else {}
    modifies unitToShow`currentValidatedRule
    modifies this`targetConditionsPanelVisible, this`actionsPanelVisible, this`isOverlayWindowOpen
    ensures gm.Valid() && Valid(gm)
    ensures thrown <==> !(0 <= allActionIndex < |allActions|)
                        || !(0 <= gambitRuleIndexToModify < |unitToShow.gambitRules|)
    ensures thrown ==>
      && unitToShow.currentValidatedRule == old(unitToShow.currentValidatedRule)
      && unchanged(this`targetConditionsPanelVisible, this`actionsPanelVisible, this`isOverlayWindowOpen)
      && (0 <= gambitRuleIndexToModify < |unitToShow.gambitRules| ==>
            unchanged(unitToShow.gambitRules[gambitRuleIndexToModify]))
    ensures !thrown ==>
      && unitToShow.gambitRules[gambitRuleIndexToModify].gambitAction == allActions[allActionIndex]
      && (var r := unitToShow.gambitRules[gambitRuleIndexToModify];
          r.order == old(r.order) && r.isEnabled == old(r.isEnabled) && r.targetCondition == old(r.targetCondition))
      && unitToShow.currentValidatedRule == null
      && FlyoutsClosed()
  {
    thrown := !(0 <= allActionIndex < |allActions|)
              || !(0 <= gambitRuleIndexToModify < |unitToShow.gambitRules|);
    if thrown {
      return;
    }
    var option := allActions[allActionIndex];
    unitToShow.gambitRules[gambitRuleIndexToModify].gambitAction := option;
    unitToShow.GambitsChanged();
    CloseFlyouts();
  }

  /** Opens the condition flyout for rule `index`. */
  method OpenAvailableTargetFlyout(index: int)
    modifies this`targetConditionsPanelVisible, this`actionsPanelVisible, this`isOverlayWindowOpen,
             this`gambitRuleIndexToModify
    ensures targetConditionsPanelVisible && !actionsPanelVisible && isOverlayWindowOpen
    ensures gambitRuleIndexToModify == index
  {
    CloseFlyouts();
    targetConditionsPanelVisible := true;
    gambitRuleIndexToModify := index;
    isOverlayWindowOpen := true;
  }

  /** Opens the action flyout for rule `index`. */
  method OpenAvailableActionsFlyout(index: int)
    modifies this`targetConditionsPanelVisible, this`actionsPanelVisible, this`isOverlayWindowOpen,
             this`gambitRuleIndexToModify
    ensures !targetConditionsPanelVisible && actionsPanelVisible && isOverlayWindowOpen
    ensures gambitRuleIndexToModify == index
  {
    CloseFlyouts();
    gambitRuleIndexToModify := index;
    actionsPanelVisible := true;
    isOverlayWindowOpen := true;
  }

  predicate FlyoutsClosed()
    reads this
  {
    !targetConditionsPanelVisible && !actionsPanelVisible && !isOverlayWindowOpen
  }

  method CloseFlyouts()
    modifies this`targetConditionsPanelVisible, this`actionsPanelVisible, this`isOverlayWindowOpen
    ensures FlyoutsClosed()
  {
    targetConditionsPanelVisible := false;
    actionsPanelVisible := false;
    isOverlayWindowOpen := false;
  }

  /** The two-click switch: the first click marks rule `index`, whatever it
      is; the second exchanges it with the marked one and clears the
      commitment. On the second click, a marked index or a clicked index
      outside the list (the mark may be left over from another party member's
      longer list) throws before anything changes, and the switch stays armed. */
  method SwitchGambits(gm: GameManager, index: int) returns (thrown: bool)
    requires gm.Valid() && Valid(gm) && unitToShow != null
    modifies unitToShow`gambitRules, unitToShow`currentValidatedRule, this`switchIndex, this`isSwitching
    ensures gm.Valid()
    ensures switchIndex == (if old(isSwitching) then old(switchIndex) else index)
    ensures old(isSwitching) ==>
      thrown == (!(0 <= switchIndex < |old(unitToShow.gambitRules)|) || !(0 <= index < |old(unitToShow.gambitRules)|))
    ensures old(isSwitching) && !thrown ==>
      && unitToShow.gambitRules == Swap(old(unitToShow.gambitRules), old(switchIndex), index)
      && !isSwitching && unitToShow.currentValidatedRule == null
    ensures thrown || !old(isSwitching) ==>
      && unitToShow.gambitRules == old(unitToShow.gambitRules)
      && isSwitching
      && unitToShow.currentValidatedRule == old(unitToShow.currentValidatedRule)
    ensures !old(isSwitching) ==> !thrown
  {
    thrown := false;
    if isSwitching {
      thrown := !(0 <= switchIndex < |unitToShow.gambitRules|) || !(0 <= index < |unitToShow.gambitRules|);
      if thrown {
        return;
      }
      SwapRules(gm, unitToShow, switchIndex, index);
      isSwitching := false;
    } else {
      switchIndex := index;
      isSwitching := true;
    }
  }

  /** The second click of a switch: the two rules trade places and the unit
      drops its commitment. */
  static method SwapRules(gm: GameManager, u: Unit, a: int, b: int)
    requires gm.Valid() && u in gm.units && 0 <= a < |u.gambitRules| && 0 <= b < |u.gambitRules|
    modifies u`gambitRules, u`currentValidatedRule
    ensures gm.Valid()
    ensures u.gambitRules == Swap(old(u.gambitRules), a, b) && u.currentValidatedRule == null
  {
    var rules := u.gambitRules;
    var back := rules[a];
    rules := rules[a := rules[b]];
    rules := rules[b := back];
    assert forall r :: r in rules ==> r in u.gambitRules by {
      assert multiset(rules) == multiset(Swap(u.gambitRules, a, b));
      forall r | r in rules ensures r in u.gambitRules {
        assert r in multiset(rules);
      }
    }
    u.gambitRules := rules;
    u.GambitsChanged();
  }


  /** Shows the next party member, wrapping to the first. The index moves
      in any case; an index outside the roster (an empty roster, say) then
      throws, and the member on show stays. */
  method NextPartyMember(gm: GameManager) returns (thrown: bool)
    requires gm.Valid() && Valid(gm)
    modifies this`showIndex, this`unitToShow, this`isConstructed
    ensures Valid(gm)
    ensures showIndex == NextIndex(old(showIndex), |gm.currentPartyMembers|)
    ensures thrown <==> !(0 <= showIndex < |gm.currentPartyMembers|)
    ensures !thrown ==> unitToShow == gm.currentPartyMembers[showIndex] && !isConstructed
    ensures thrown ==> unitToShow == old(unitToShow) && isConstructed == old(isConstructed)
  {
    showIndex := showIndex + 1;
    if showIndex >= |gm.currentPartyMembers| {
      showIndex := 0;
    }
    thrown := !(0 <= showIndex < |gm.currentPartyMembers|);
    if thrown {
      return;
    }
    unitToShow := gm.currentPartyMembers[showIndex];
    isConstructed := false;
  }

  /** Shows the previous party member, wrapping to the last. The index moves
      in any case; one outside the roster (the roster may have lost two
      members since the index was set, see PrevIndexPastShrunkRoster) then
      throws, and the member on show stays. */
  method PreviousPartyMember(gm: GameManager) returns (thrown: bool)
    requires gm.Valid() && Valid(gm)
    modifies this`showIndex, this`unitToShow, this`isConstructed
    ensures Valid(gm)
    ensures showIndex == PrevIndex(old(showIndex), |gm.currentPartyMembers|)
    ensures thrown <==> !(0 <= showIndex < |gm.currentPartyMembers|)
    ensures !thrown ==> unitToShow == gm.currentPartyMembers[showIndex] && !isConstructed
    ensures thrown ==> unitToShow == old(unitToShow) && isConstructed == old(isConstructed)
  {
    showIndex := showIndex - 1;
    if showIndex < 0 {
      showIndex := |gm.currentPartyMembers| - 1;
    }
    thrown := !(0 <= showIndex < |gm.currentPartyMembers|);
    if thrown {
      return;
    }
    unitToShow := gm.currentPartyMembers[showIndex];
    isConstructed := false;
  }
}

/** Everything about a rule except its enabled flag. */
function RuleHalves(r: GambitRule): (int, GambitTargetCondition?, GambitAction?)
  reads r
{
  (r.order, r.targetCondition, r.gambitAction)
}

/** The condition catalogue, in the order the editor lists it. */
ghost predicate CatalogueConditions(cs: seq<GambitTargetCondition>)
{
  && |cs| == |ConditionCatalogue|
  && forall i :: 0 <= i < |cs| ==> (cs[i].kind, cs[i].name) == ConditionCatalogue[i]
}

/** The conditions the panel offers, in order, with their display names. */
const ConditionCatalogue: seq<(ConditionKind, string)> := [
  (NearestVisible, "Target: Nearest Visible"),
  (PartyLeaderTarget, "Target: Party Leader Target"),
  (Self, "Target: Self"),
  (AnyAlly, "Target: Any"),
  (WeakToElement(Fire), "Target: Weak to Fire"),
  (WeakToElement(Electricity), "Target: Weak to Electricity"),
  (WeakToElement(Water), "Target: Weak to Water"),
  (WeakToElement(Wind), "Target: Weak to Wind"),
  (AllyHPAtMost(70), "Ally: HP <= 70%"),
  (AllyHPAtMost(50), "Ally: HP <= 50%"),
  (AllyHPAtMost(20), "Ally: HP <= 20%")
]

/** The action catalogue: Attack, Steal, Cure, Fire. */
ghost predicate CatalogueActions(acts: seq<GambitAction>)
{
  && |acts| == 4
  && acts[0].kind == AttackKind && acts[1].kind == StealKind
  && acts[2].kind == CureKind && acts[3].kind == FireKind
}
