/** Party members: stat containers with clamped healing and an alive predicate. */
module Player {

  /** One party member. `hp` may drop below zero: combat subtracts without clamping. */
  datatype Character = Character(
    name: string,
    charClass: string,
    hp: int,
    maxHp: int,
    sp: int,
    maxSp: int,
    lvl: int,
    xp: int)

  const DefaultLevel := 1

  /** A character as the constructor builds it: at full health and spell points, no experience. */
  ghost predicate IsFresh(c: Character)
  {
    c.hp == c.maxHp && c.sp == c.maxSp && c.xp == 0
  }

  /** The constructor: the given hp and sp become both the current and the maximum values. */
  function NewCharacter(name: string, charClass: string, hp: int, sp: int, lvl: int := DefaultLevel): (c: Character)
    ensures IsFresh(c)
    ensures c.name == name && c.charClass == charClass
    ensures c.maxHp == hp && c.maxSp == sp && c.lvl == lvl
  {
    Character(name, charClass, hp, hp, sp, sp, lvl, 0)
  }

  /** Adds `amount` to hp but never beyond `maxHp`: the result is the cap exactly when the sum reaches it,
      and a non-negative heal from at or below the cap never lowers hp. */
  function Heal(c: Character, amount: int): (r: Character)
    ensures r.hp <= c.maxHp && r.hp <= c.hp + amount
    ensures r.hp == c.maxHp || r.hp == c.hp + amount
    ensures r.hp == c.maxHp <==> c.hp + amount >= c.maxHp
    ensures amount >= 0 && c.hp <= c.maxHp ==> c.hp <= r.hp
    ensures r == c.(hp := r.hp)
  {
    c.(hp := if c.hp + amount < c.maxHp then c.hp + amount else c.maxHp)
  }

  /** Adds `amount` to sp but never beyond `maxSp`: the result is the cap exactly when the sum reaches it,
      and a non-negative restore from at or below the cap never lowers sp. */
  function RestoreSp(c: Character, amount: int): (r: Character)
    ensures r.sp <= c.maxSp && r.sp <= c.sp + amount
    ensures r.sp == c.maxSp || r.sp == c.sp + amount
    ensures r.sp == c.maxSp <==> c.sp + amount >= c.maxSp
    ensures amount >= 0 && c.sp <= c.maxSp ==> c.sp <= r.sp
    ensures r == c.(sp := r.sp)
  {
    c.(sp := if c.sp + amount < c.maxSp then c.sp + amount else c.maxSp)
  }

  predicate IsAlive(c: Character)
  {
    c.hp > 0
  }

  /** At full health a non-negative heal changes nothing: heal is idempotent at the cap. */
  lemma HealAtCapIsNoop(c: Character, amount: int)
    requires amount >= 0 && c.hp == c.maxHp
    ensures Heal(c, amount) == c
    ensures Heal(Heal(c, amount), amount) == Heal(c, amount)
  {
  }

  /** Aliveness depends on hp alone, and further damage never brings a fallen character back. */
  lemma AliveIsHpOnly(c: Character, h: int, damage: int)
    requires damage >= 0
    ensures IsAlive(c.(hp := h)) <==> h > 0
    ensures !IsAlive(c) ==> !IsAlive(c.(hp := c.hp - damage))
  {
  }

  /** The fixed starting party. */
  function DefaultParty(): (party: seq<Character>)
    ensures |party| == 4
    ensures forall i :: 0 <= i < |party| ==> IsFresh(party[i]) && party[i].lvl == DefaultLevel && IsAlive(party[i])
    ensures party[0].name == "Rogar" && party[0].charClass == "Fighter" && party[0].maxHp == 20 && party[0].maxSp == 0
    ensures party[1].name == "Shade" && party[1].charClass == "Thief" && party[1].maxHp == 16 && party[1].maxSp == 0
    ensures party[2].name == "Lyria" && party[2].charClass == "Cleric" && party[2].maxHp == 14 && party[2].maxSp == 10
    ensures party[3].name == "Mira" && party[3].charClass == "Wizard" && party[3].maxHp == 10 && party[3].maxSp == 14
  {
    [
      NewCharacter("Rogar", "Fighter", 20, 0),
      NewCharacter("Shade", "Thief", 16, 0),
      NewCharacter("Lyria", "Cleric", 14, 10),
      NewCharacter("Mira", "Wizard", 10, 14)
    ]
  }
}
