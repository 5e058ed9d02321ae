/** Hostile creatures met in the dungeon. */
module Entities {

  /** A mob; `maxHp` is fixed at creation, `hp` may drop below zero in combat. */
  datatype Mob = Mob(name: string, hp: int, maxHp: int, atk: int)

  /** The constructor: starts at full health with the given attack value. */
  function NewMob(name: string, hp: int, atk: int): (m: Mob)
    ensures m.hp == m.maxHp == hp
    ensures m.name == name && m.atk == atk
  {
    Mob(name, hp, hp, atk)
  }

  predicate IsAlive(m: Mob)
  {
    m.hp > 0
  }

  /** Aliveness depends on hp alone, and a defeated mob stays defeated under further damage. */
  lemma AliveIsHpOnly(m: Mob, h: int, damage: int)
    requires damage >= 0
    ensures IsAlive(m.(hp := h)) <==> h > 0
    ensures !IsAlive(m) ==> !IsAlive(m.(hp := m.hp - damage))
  {
  }

  function Names(mobs: seq<Mob>): (names: seq<string>)
    ensures |names| == |mobs|
    ensures forall i :: 0 <= i < |mobs| ==> names[i] == mobs[i].name
  {
    if |mobs| == 0 then [] else [mobs[0].name] + Names(mobs[1..])
  }

  /** The fixed mob catalogue, weakest first. */
  function DefaultMobs(): (mobs: seq<Mob>)
    ensures |mobs| == 4
    ensures Names(mobs) == ["Goblin", "Skeleton", "Orc", "Boss Ogre"]
    ensures mobs[0].maxHp == 6 && mobs[0].atk == 2
    ensures mobs[1].maxHp == 8 && mobs[1].atk == 3
    ensures mobs[2].maxHp == 12 && mobs[2].atk == 4
    ensures mobs[3].maxHp == 24 && mobs[3].atk == 6
    ensures forall i :: 0 <= i < |mobs| ==> mobs[i].hp == mobs[i].maxHp
  {
    [
      NewMob("Goblin", 6, 2),
      NewMob("Skeleton", 8, 3),
      NewMob("Orc", 12, 4),
      NewMob("Boss Ogre", 24, 6)
    ]
  }

  /** The catalogue has at least three mobs, includes the Goblin and the Boss Ogre, and every mob starts alive. */
  lemma DefaultMobsCatalogue()
    ensures |DefaultMobs()| >= 3
    ensures "Goblin" in Names(DefaultMobs()) && "Boss Ogre" in Names(DefaultMobs())
    ensures forall i :: 0 <= i < |DefaultMobs()| ==> IsAlive(DefaultMobs()[i])
  {
    assert Names(DefaultMobs())[0] == "Goblin";
    assert Names(DefaultMobs())[3] == "Boss Ogre";
  }
}
