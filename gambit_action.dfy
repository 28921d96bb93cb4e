// The "then" half of a gambit: a named action with a fixed cast time and
// mana cost, applied from a source unit to a target unit. Presentation calls
// (floating damage text, particle effects) become Intent records appended to
// the GameManager's intent sink.

datatype ActionKind = AttackKind | StealKind | CureKind | FireKind

datatype EffectType = BasicAttack | WhiteMagick | FireMagick

/** A presentation request issued by the engine and rendered elsewhere. */
datatype Intent =
  | DamageText(text: string, at: Unit)      // SpawnDamageText with a literal label
  | DamageNumber(number: int, at: Unit)     // SpawnDamageText of an int's ToString()
  | DamageValue(amount: real, at: Unit)    // SpawnDamageText of a float's ToString()
  | ActionEffect(effect: EffectType, on: Unit)

/** The random draw and the square root of the instigator's level used by
    the damage formula, supplied by the caller. */
datatype DamageRoll = DamageRoll(draw: real, levelRoot: real)

/** The damage Fire deals before truncation: 0.3 * Magic^2, or 130 against a
    target weak to fire. */
function FireValue(magic: int, weakness: UnitWeakness): real
{
  if weakness == Fire then 130.0 else 0.3 * (magic * magic) as real
}

/** The target's health once `action` has been applied to it from `source`,
    starting from health `h` with maximum health `maximum`. */
function HealthAfter(action: GambitAction, source: Unit, target: Unit, h: real, maximum: real,
                     roll: DamageRoll, gm: GameManager): real
  reads source`level
{
  match action.kind
  case AttackKind => Clamp(h - gm.ResolveDamageUnitAGivesUnitB(source, target, roll) as real, 0.0, maximum)
  case StealKind => h
  case CureKind => Clamp(h + maximum * (40 as real / 100.0), 0.0, maximum)
  case FireKind => Clamp(h - Truncate(FireValue(source.magic, target.weakness)) as real, 0.0, maximum)
}

/** The health percentage the target shows once `action` has been applied
    from health `h` (percentage `p` before): the unclamped new health over the
    maximum, refreshed by every action but Steal. */
function PercentageAfter(action: GambitAction, source: Unit, target: Unit, h: real, maximum: real, p: real,
                         roll: DamageRoll, gm: GameManager): real
  reads source`level
  requires maximum > 0.0
{
  match action.kind
  case AttackKind => Percentage(h - gm.ResolveDamageUnitAGivesUnitB(source, target, roll) as real, maximum)
  case StealKind => p
  case CureKind => Percentage(h + maximum * (40 as real / 100.0), maximum)
  case FireKind => Percentage(h - Truncate(FireValue(source.magic, target.weakness)) as real, maximum)
}

/** The presentation requests `action` issues, in order. */
function ActionIntents(action: GambitAction, source: Unit, target: Unit, roll: DamageRoll, gm: GameManager): seq<Intent>
  reads source`level
{
  match action.kind
  case AttackKind => [ActionEffect(BasicAttack, target), DamageNumber(gm.ResolveDamageUnitAGivesUnitB(source, target, roll), target)]
  case StealKind => [DamageText("Stole: Potion", target), ActionEffect(BasicAttack, target)]
  case CureKind => [ActionEffect(WhiteMagick, target), DamageNumber(40, target)]
  case FireKind =>
    (if target.weakness == Fire then [DamageText("WEAK", target)] else [])
    + [ActionEffect(FireMagick, target), DamageValue(FireValue(source.magic, target.weakness), target)]
}

/** Whether `action` writes to the combat log: the magicks do, Attack and
    Steal do not. */
predicate Logs(action: GambitAction)
{
  action.kind == CureKind || action.kind == FireKind
}

class GambitAction {
  const kind: ActionKind
  const name: string
  const castTime: real
  const mpCost: int

  constructor AttackAction()
    ensures kind == AttackKind && name == "Attack" && castTime == 2.3 && mpCost == 0
  {
    kind, name, castTime, mpCost := AttackKind, "Attack", 2.3, 0;
  }

  constructor StealAction()
    ensures kind == StealKind && name == "Steal" && castTime == 3.0 && mpCost == 0
  {
    kind, name, castTime, mpCost := StealKind, "Steal", 3.0, 0;
  }

  constructor CureAction()
    ensures kind == CureKind && name == "Cure" && castTime == 4.0 && mpCost == 8
  {
    kind, name, castTime, mpCost := CureKind, "Cure", 4.0, 8;
  }

  constructor FireAction()
    ensures kind == FireKind && name == "Fire" && castTime == 4.0 && mpCost == 6
  {
    kind, name, castTime, mpCost := FireKind, "Fire", 4.0, 6;
  }

  /** Applies the action to `target`: the variant's DoAction override. The
      source's mana is never touched here: the caller deducts the cost. */
  method DoAction(source: Unit, target: Unit, gm: GameManager, roll: DamageRoll)
    requires target.Valid()
    requires kind == AttackKind ==> ValidRoll(roll, source.strength, source.level)
    modifies target`health, target`healthPercentage
    modifies gm`intents, gm`logText, gm`logVisible, gm`logDisplayTime
    ensures target.Valid()
    ensures target.health == HealthAfter(this, source, target, old(target.health), target.maximumHealth, roll, gm)
    ensures target.healthPercentage
            == PercentageAfter(this, source, target, old(target.health), target.maximumHealth,
                               old(target.healthPercentage), roll, gm)
    ensures gm.intents == old(gm.intents) + ActionIntents(this, source, target, roll, gm)
    ensures Logs(this) ==> gm.CombatLogShows(source.name, name)
    ensures !Logs(this) ==> gm.LogState() == old(gm.LogState())
  {
    match kind
    case AttackKind => DoAttack(source, target, gm, roll);
    case StealKind => DoSteal(source, target, gm);
    case CureKind => DoCure(source, target, gm);
    case FireKind => DoFire(source, target, gm);
  }

  /** Attack: subtracts the resolved damage and shows it. */
  method DoAttack(source: Unit, target: Unit, gm: GameManager, roll: DamageRoll)
    requires target.Valid() && ValidRoll(roll, source.strength, source.level)
    modifies target`health, target`healthPercentage, gm`intents
    ensures target.Valid()
    ensures var dmg := gm.ResolveDamageUnitAGivesUnitB(source, target, roll);
      && target.health == Clamp(old(target.health) - dmg as real, 0.0, target.maximumHealth)
      && target.healthPercentage == Percentage(old(target.health) - dmg as real, target.maximumHealth)
      && gm.intents == old(gm.intents) + [ActionEffect(BasicAttack, target), DamageNumber(dmg, target)]
  {
    var val := gm.ResolveDamageUnitAGivesUnitB(source, target, roll);
    target.ChangeHealth(-val);
    gm.SpawnActionEffect(BasicAttack, target);
    gm.SpawnDamageNumber(val, target);
  }

  /** Steal: changes no health or mana, only shows the loot text. */
  method DoSteal(source: Unit, target: Unit, gm: GameManager)
    modifies gm`intents
    ensures gm.intents == old(gm.intents) + [DamageText("Stole: Potion", target), ActionEffect(BasicAttack, target)]
  {
    gm.SpawnDamageText("Stole: Potion", target);
    gm.SpawnActionEffect(BasicAttack, target);
  }

  /** Cure: restores 40% of the target's maximum health and logs the cast. */
  method DoCure(source: Unit, target: Unit, gm: GameManager)
    requires target.Valid()
    modifies target`health, target`healthPercentage
    modifies gm`intents, gm`logText, gm`logVisible, gm`logDisplayTime
    ensures target.Valid()
    ensures var heal := target.maximumHealth * (40 as real / 100.0);
      && target.health == Clamp(old(target.health) + heal, 0.0, target.maximumHealth)
      && target.healthPercentage == Percentage(old(target.health) + heal, target.maximumHealth)
    ensures gm.intents == old(gm.intents) + [ActionEffect(WhiteMagick, target), DamageNumber(40, target)]
    ensures gm.CombatLogShows(source.name, name)
  {
    var value := 40;
    target.ChangeHealthRelative(value);
    gm.SpawnActionEffect(WhiteMagick, target);
    gm.SpawnDamageNumber(value, target);
    gm.AddToCombatLog(source.name, name);
  }

  /** Fire: 130 against a fire-weak target (after a "WEAK" text), otherwise
      the truncated 0.3 * Magic^2; logs the cast. */
  method DoFire(source: Unit, target: Unit, gm: GameManager)
    requires target.Valid()
    modifies target`health, target`healthPercentage
    modifies gm`intents, gm`logText, gm`logVisible, gm`logDisplayTime
    ensures target.Valid()
    ensures var value := FireValue(source.magic, target.weakness);
      && target.health == Clamp(old(target.health) - Truncate(value) as real, 0.0, target.maximumHealth)
      && target.healthPercentage == Percentage(old(target.health) - Truncate(value) as real, target.maximumHealth)
      && gm.intents == old(gm.intents)
           + (if target.weakness == Fire then [DamageText("WEAK", target)] else [])
           + [ActionEffect(FireMagick, target), DamageValue(value, target)]
    ensures gm.CombatLogShows(source.name, name)
  {
    var value := 0.3 * (source.magic * source.magic) as real;
    if target.weakness == Fire {
      value := 130.0;
      gm.SpawnDamageText("WEAK", target);
    }
    target.ChangeHealth(-Truncate(value));
    gm.SpawnActionEffect(FireMagick, target);
    gm.SpawnDamageValue(value, target);
    gm.AddToCombatLog(source.name, name);
  }
}
