/** The turn-based combat engine: a turn flag, a termination predicate and two damage actions. */
module Combat {
  import opened Wrappers
  import Player
  import Entities

  /** Damage one party action deals to its target. */
  const PartyDamage := 3
  /** Damage each living enemy deals to the first living party member. */
  const EnemyDamage := 2

  /** Value of the turn flag while the party acts. */
  const PartyTurn := 0
  /** Value of the turn flag while the enemies act. */
  const EnemyTurn := 1

  /** Anything that fights. The engine reads and writes only `hp`, so party members
      and mobs may stand on either side of an encounter. */
  datatype Combatant = Member(c: Player.Character) | Monster(m: Entities.Mob)
  {
    function Hp(): int
    {
      match this
      case Member(c) => c.hp
      case Monster(m) => m.hp
    }

    predicate IsAlive()
    {
      match this
      case Member(c) => Player.IsAlive(c)
      case Monster(m) => Entities.IsAlive(m)
    }

    /** The same combatant with its hp set to `h`. */
    function WithHp(h: int): (r: Combatant)
      ensures r.Hp() == h
    {
      match this
      case Member(c) => Member(c.(hp := h))
      case Monster(m) => Monster(m.(hp := h))
    }

    /** The hit `amount` lowers hp by exactly that amount. */
    function Damage(amount: int): (r: Combatant)
      ensures r.Hp() == Hp() - amount
      ensures r.SameAs(this)
    {
      WithHp(Hp() - amount)
    }

    /** `this` and `other` are the same combatant, possibly at different hp. */
    predicate SameAs(other: Combatant)
    {
      this == other.WithHp(Hp())
    }
  }

  /** A combatant is alive exactly while its hp is positive, whichever side it is. */
  lemma AliveIffPositiveHp(x: Combatant)
    ensures x.IsAlive() <==> x.Hp() > 0
  {
  }

  /** An encounter between a party and an enemy group, with the turn flag (0 party, 1 enemies). */
  datatype Encounter = Encounter(party: seq<Combatant>, enemies: seq<Combatant>, turn: int)

  datatype CombatError = IndexError

  /** No combatant in `s` is alive (vacuously true when `s` is empty). */
  predicate AllDown(s: seq<Combatant>)
  {
    forall i :: 0 <= i < |s| ==> !s[i].IsAlive()
  }

  /** A new encounter always opens on the party's turn. */
  function NewEncounter(party: seq<Combatant>, enemies: seq<Combatant>): (e: Encounter)
    ensures e.turn == PartyTurn
    ensures e.party == party && e.enemies == enemies
  {
    Encounter(party, enemies, PartyTurn)
  }

  /** The fight is over when no enemy or no party member is alive (vacuously so for an empty side). */
  predicate IsOver(e: Encounter)
  {
    AllDown(e.enemies) || AllDown(e.party)
  }

  /** Flips the turn flag, unconditionally. */
  function NextTurn(e: Encounter): (r: Encounter)
    ensures r.party == e.party && r.enemies == e.enemies
    ensures e.turn == PartyTurn <==> r.turn == EnemyTurn
    ensures e.turn == EnemyTurn <==> r.turn == PartyTurn
  {
    e.(turn := 1 - e.turn)
  }

  /** Flipping twice restores the flag, and a flag in {0, 1} stays there. */
  lemma NextTurnIsInvolution(e: Encounter)
    ensures NextTurn(NextTurn(e)) == e
    ensures e.turn in {PartyTurn, EnemyTurn} ==> NextTurn(e).turn in {PartyTurn, EnemyTurn} && NextTurn(e).turn != e.turn
    ensures IsOver(NextTurn(e)) == IsOver(e)
  {
  }

  /** Python's list indexing: `i` in [-n, n) selects an element, negative values counting from the end. */
  function PyIndex(n: int, i: int): (r: Option<nat>)
    requires n >= 0
    ensures r.Some? <==> -n <= i < n
    ensures r.Some? ==> r.value < n && (r.value == i || r.value == i + n)
  {
    if 0 <= i < n then Some(i)
    else if -n <= i < 0 then Some(i + n)
    else None
  }

  /** The party strikes the enemy at `targetIdx` for a flat `PartyDamage`. With either side empty nothing
      happens; otherwise an index Python cannot resolve raises `IndexError`, and a resolved index (negative
      ones count from the end) costs exactly that enemy `PartyDamage` hp and changes nothing else. */
  function PartyAction(e: Encounter, targetIdx: int := 0): (r: Result<Encounter, CombatError>)
    ensures r.Failure? <==> |e.party| > 0 && |e.enemies| > 0 && !(-|e.enemies| <= targetIdx < |e.enemies|)
    ensures |e.party| == 0 || |e.enemies| == 0 ==> r == Success(e)
    ensures r.Success? ==> r.value.party == e.party && r.value.turn == e.turn && |r.value.enemies| == |e.enemies|
    ensures r.Success? ==> forall j :: 0 <= j < |e.enemies| ==> r.value.enemies[j].SameAs(e.enemies[j])
    ensures r.Success? ==> forall j :: 0 <= j < |e.enemies| ==> r.value.enemies[j].Hp() <= e.enemies[j].Hp()
    ensures r.Success? && |e.party| > 0 && |e.enemies| > 0 ==>
              var t := if targetIdx < 0 then targetIdx + |e.enemies| else targetIdx;
              && r.value.enemies[t].Hp() == e.enemies[t].Hp() - PartyDamage
              && forall j :: 0 <= j < |e.enemies| && j != t ==> r.value.enemies[j] == e.enemies[j]
  {
    if |e.party| == 0 || |e.enemies| == 0 then Success(e)
    else match PyIndex(|e.enemies|, targetIdx)
      case None => Failure(IndexError)
      case Some(i) => Success(e.(enemies := e.enemies[i := e.enemies[i].Damage(PartyDamage)]))
  }

  /** A target with at most `PartyDamage` hp falls to one strike; a target's hp always strictly drops. */
  lemma PartyActionDownsWeakTarget(e: Encounter, targetIdx: int)
    requires |e.party| > 0 && 0 <= targetIdx < |e.enemies|
    ensures e.enemies[targetIdx].Hp() <= PartyDamage ==> !PartyAction(e, targetIdx).value.enemies[targetIdx].IsAlive()
    ensures PartyAction(e, targetIdx).value.enemies[targetIdx].Hp() < e.enemies[targetIdx].Hp()
  {
  }

  /** Index of the first living combatant, if any. */
  function FirstAlive(s: seq<Combatant>): (r: Option<nat>)
    ensures r.Some? ==> r.value < |s| && s[r.value].IsAlive()
    ensures r.Some? ==> forall j :: 0 <= j < r.value ==> !s[j].IsAlive()
    ensures r.None? ==> forall j :: 0 <= j < |s| ==> !s[j].IsAlive()
  {
    if |s| == 0 then None
    else if s[0].IsAlive() then Some(0)
    else match FirstAlive(s[1..])
      case None => None
      case Some(i) => Some(i + 1)
  }

  /** One enemy's attack: the first living party member takes `EnemyDamage`; with none alive, nothing changes. */
  function Hit(party: seq<Combatant>): seq<Combatant>
  {
    match FirstAlive(party)
    case None => party
    case Some(i) => party[i := party[i].Damage(EnemyDamage)]
  }

  /** Number of living combatants. */
  function CountAlive(s: seq<Combatant>): (n: nat)
    ensures n <= |s|
  {
    if |s| == 0 then 0 else (if s[0].IsAlive() then 1 else 0) + CountAlive(s[1..])
  }

  /** The loop of `enemy_action`: each enemy, in order, attacks if it is alive at its turn. */
  function EnemyRound(enemies: seq<Combatant>, party: seq<Combatant>): (r: seq<Combatant>)
    ensures |r| == |party|
    ensures forall i :: 0 <= i < |party| ==> r[i].SameAs(party[i]) && r[i].Hp() <= party[i].Hp()
    ensures forall i :: 0 <= i < |party| && !party[i].IsAlive() ==> r[i] == party[i]
  {
    if |enemies| == 0 then party
    else EnemyRound(enemies[1..], if enemies[0].IsAlive() then Hit(party) else party)
  }

  /** Every living enemy attacks; the enemies and the turn flag are untouched. */
  function EnemyAction(e: Encounter): (r: Encounter)
    ensures r.enemies == e.enemies && r.turn == e.turn
    ensures |r.party| == |e.party|
    ensures forall i :: 0 <= i < |e.party| ==> r.party[i].SameAs(e.party[i]) && r.party[i].Hp() <= e.party[i].Hp()
    ensures forall i :: 0 <= i < |e.party| && !e.party[i].IsAlive() ==> r.party[i] == e.party[i]
  {
    e.(party := EnemyRound(e.enemies, e.party))
  }

  // ---------------------------------------------------------------------------
  // A closed-form reference for the enemy phase
  // ---------------------------------------------------------------------------

  function Min(a: int, b: int): int
  {
    if a <= b then a else b
  }

  /** Number of `EnemyDamage` hits that take a combatant at hp `h > 0` to hp <= 0. */
  function HitsToDown(h: int): (n: nat)
    requires h > 0
    ensures n >= 1
    ensures h - EnemyDamage * n <= 0 < h - EnemyDamage * (n - 1)
  {
    (h + EnemyDamage - 1) / EnemyDamage
  }

  /** Hits needed to bring down the whole party. */
  function HitsToClear(party: seq<Combatant>): nat
  {
    if |party| == 0 then 0
    else (if party[0].Hp() > 0 then HitsToDown(party[0].Hp()) else 0) + HitsToClear(party[1..])
  }

  function SumHp(s: seq<Combatant>): int
  {
    if |s| == 0 then 0 else s[0].Hp() + SumHp(s[1..])
  }

  /** `k` enemy hits poured onto the party in order: each living member absorbs hits until it is down
      (or the hits run out), and the remaining hits pass to the next member. */
  function Cascade(party: seq<Combatant>, k: nat): (r: seq<Combatant>)
    ensures |r| == |party|
  {
    if |party| == 0 then []
    else
      var h := party[0].Hp();
      if h <= 0 then [party[0]] + Cascade(party[1..], k)
      else
        var used := Min(HitsToDown(h), k);
        [party[0].WithHp(h - EnemyDamage * used)] + Cascade(party[1..], k - used)
  }

  /** `k` successive single-enemy attacks. */
  function HitTimes(party: seq<Combatant>, k: nat): seq<Combatant>
    decreases k
  {
    if k == 0 then party else HitTimes(Hit(party), k - 1)
  }

  lemma WithHpTwice(x: Combatant, a: int, b: int)
    ensures x.WithHp(a).WithHp(b) == x.WithHp(b)
    ensures x.WithHp(x.Hp()) == x
  {
    match x
    case Member(c) =>
    case Monster(m) =>
  }

  /** How one attack lands, read off the head of the party. */
  lemma HitUnfold(party: seq<Combatant>)
    requires |party| > 0
    ensures party[0].IsAlive() ==> Hit(party) == [party[0].Damage(EnemyDamage)] + party[1..]
    ensures !party[0].IsAlive() ==> Hit(party) == [party[0]] + Hit(party[1..])
  {
    if !party[0].IsAlive() {
      var rest := party[1..];
      match FirstAlive(rest)
      case None =>
        assert party == [party[0]] + rest;
      case Some(i) =>
        assert Hit(party) == party[i + 1 := party[i + 1].Damage(EnemyDamage)];
    }
  }

  lemma {:induction false} CascadeZero(party: seq<Combatant>)
    ensures Cascade(party, 0) == party
  {
    if |party| > 0 {
      CascadeZero(party[1..]);
      WithHpTwice(party[0], 0, party[0].Hp());
      assert party == [party[0]] + party[1..];
    }
  }

  /** One more attack in front of the cascade is the same as one more hit in it. */
  lemma {:induction false} CascadeStep(party: seq<Combatant>, k: nat)
    ensures Cascade(Hit(party), k) == Cascade(party, k + 1)
  {
    if |party| > 0 {
      HitUnfold(party);
      var p0, rest := party[0], party[1..];
      var h := p0.Hp();
      if h <= 0 {
        CascadeStep(rest, k);
      } else {
        var q := Hit(party);
        assert q[0] == p0.Damage(EnemyDamage) && q[1..] == rest;
        WithHpTwice(p0, h - EnemyDamage, h - EnemyDamage * Min(HitsToDown(h), k + 1));
        if h - EnemyDamage > 0 {
          assert HitsToDown(h - EnemyDamage) == HitsToDown(h) - 1;
        }
      }
    }
  }

  lemma {:induction false} HitTimesIsCascade(party: seq<Combatant>, k: nat)
    ensures HitTimes(party, k) == Cascade(party, k)
    decreases k
  {
    if k == 0 {
      CascadeZero(party);
    } else {
      HitTimesIsCascade(Hit(party), k - 1);
      CascadeStep(party, k - 1);
    }
  }

  lemma {:induction false} EnemyRoundIsHitTimes(enemies: seq<Combatant>, party: seq<Combatant>)
    ensures EnemyRound(enemies, party) == HitTimes(party, CountAlive(enemies))
  {
    if |enemies| > 0 {
      if enemies[0].IsAlive() {
        EnemyRoundIsHitTimes(enemies[1..], Hit(party));
      } else {
        EnemyRoundIsHitTimes(enemies[1..], party);
      }
    }
  }

  /** The per-enemy loop of `enemy_action` agrees with the closed-form cascade of one hit per living enemy. */
  lemma EnemyActionIsCascade(e: Encounter)
    ensures EnemyAction(e).party == Cascade(e.party, CountAlive(e.enemies))
  {
    EnemyRoundIsHitTimes(e.enemies, e.party);
    HitTimesIsCascade(e.party, CountAlive(e.enemies));
  }

  lemma {:induction false} CascadeLoss(party: seq<Combatant>, k: nat)
    ensures SumHp(party) - SumHp(Cascade(party, k)) == EnemyDamage * Min(k, HitsToClear(party))
  {
    if |party| > 0 {
      var h := party[0].Hp();
      if h <= 0 {
        CascadeLoss(party[1..], k);
      } else {
        CascadeLoss(party[1..], k - Min(HitsToDown(h), k));
      }
    }
  }

  lemma {:induction false} CascadeClears(party: seq<Combatant>, k: nat)
    ensures AllDown(Cascade(party, k)) <==> k >= HitsToClear(party)
  {
    if |party| > 0 {
      var h := party[0].Hp();
      var r := Cascade(party, k);
      if h <= 0 {
        CascadeClears(party[1..], k);
        assert r[1..] == Cascade(party[1..], k);
        AliveIffPositiveHp(party[0]);
      } else {
        var used := Min(HitsToDown(h), k);
        CascadeClears(party[1..], k - used);
        assert r[1..] == Cascade(party[1..], k - used);
        AliveIffPositiveHp(r[0]);
      }
    }
  }

  /** Total hp the party loses to `enemy_action`: `EnemyDamage` for every living enemy whose turn still
      found a living member, that is for min(living enemies, hits needed to clear the party). */
  lemma EnemyActionTotalLoss(e: Encounter)
    ensures SumHp(e.party) - SumHp(EnemyAction(e).party) == EnemyDamage * Min(CountAlive(e.enemies), HitsToClear(e.party))
  {
    EnemyActionIsCascade(e);
    CascadeLoss(e.party, CountAlive(e.enemies));
  }

  lemma {:induction false} CountAliveZero(s: seq<Combatant>)
    ensures CountAlive(s) == 0 <==> AllDown(s)
  {
    if |s| > 0 {
      CountAliveZero(s[1..]);
      assert forall i :: 1 <= i < |s| ==> s[i] == s[1..][i - 1];
    }
  }

  /** The fight is over exactly when no enemy can act or no party member can be targeted. */
  lemma IsOverIffNoFight(e: Encounter)
    ensures IsOver(e) <==> CountAlive(e.enemies) == 0 || FirstAlive(e.party).None?
  {
    CountAliveZero(e.enemies);
  }

  /** The enemy phase ends the fight exactly when the living enemies land enough hits to clear the party. */
  lemma EnemyActionEndsFight(e: Encounter)
    ensures IsOver(EnemyAction(e)) <==> AllDown(e.enemies) || CountAlive(e.enemies) >= HitsToClear(e.party)
  {
    EnemyActionIsCascade(e);
    CascadeClears(e.party, CountAlive(e.enemies));
  }

  /** Once over, a fight stays over: neither action nor a turn flip revives anybody. */
  lemma OverIsStable(e: Encounter, targetIdx: int)
    requires IsOver(e)
    ensures IsOver(EnemyAction(e))
    ensures IsOver(NextTurn(e))
    ensures PartyAction(e, targetIdx).Success? ==> IsOver(PartyAction(e, targetIdx).value)
  {
    var r := PartyAction(e, targetIdx);
    if r.Success? && AllDown(e.enemies) {
      forall j | 0 <= j < |r.value.enemies|
        ensures !r.value.enemies[j].IsAlive()
      {
        AliveIffPositiveHp(e.enemies[j]);
        AliveIffPositiveHp(r.value.enemies[j]);
      }
    }
  }

  // ---------------------------------------------------------------------------
  // Concrete encounters
  // ---------------------------------------------------------------------------

  function Members(party: seq<Player.Character>): (r: seq<Combatant>)
    ensures |r| == |party|
    ensures forall i :: 0 <= i < |party| ==> r[i] == Member(party[i])
  {
    seq(|party|, i requires 0 <= i < |party| => Member(party[i]))
  }

  /** The default party against a 1-hp character: one strike leaves it at hp <= 0 and ends the fight. */
  lemma PartyVictoryScenario()
    ensures var e := NewEncounter(Members(Player.DefaultParty()), [Member(Player.NewCharacter("Test Goblin", "Goblin", 1, 0))]);
            && PartyAction(e, 0).Success?
            && PartyAction(e, 0).value.enemies[0].Hp() <= 0
            && IsOver(PartyAction(e, 0).value)
  {
    var e := NewEncounter(Members(Player.DefaultParty()), [Member(Player.NewCharacter("Test Goblin", "Goblin", 1, 0))]);
    PartyActionDownsWeakTarget(e, 0);
  }

  /** The default party against a fresh Goblin mob: the fight is live and opens on the party's turn,
      a strike lowers the mob's hp, and a mob set to hp 0 ends it. */
  lemma MobEncounterScenario()
    ensures var e := NewEncounter(Members(Player.DefaultParty()), [Monster(Entities.NewMob("Test Goblin", 6, 2))]);
            && !IsOver(e)
            && e.turn == PartyTurn
            && PartyAction(e, 0).Success?
            && PartyAction(e, 0).value.enemies[0].Hp() < e.enemies[0].Hp()
            && IsOver(e.(enemies := [e.enemies[0].WithHp(0)]))
  {
    var e := NewEncounter(Members(Player.DefaultParty()), [Monster(Entities.NewMob("Test Goblin", 6, 2))]);
    assert e.party[0].IsAlive();
    assert e.enemies[0].IsAlive();
    PartyActionDownsWeakTarget(e, 0);
  }

  /** Two living enemies against members at hp 2 and 10: the first attack fells the first member and
      the second attack cascades to the next one. */
  lemma CascadingTargetScenario(a: Combatant, b: Combatant, x: Combatant, y: Combatant)
    requires a.IsAlive() && b.IsAlive() && x.Hp() == 2 && y.Hp() == 10
    ensures var r := EnemyAction(NewEncounter([x, y], [a, b])).party;
            r[0].Hp() == 0 && !r[0].IsAlive() && r[1].Hp() == 8
  {
    var e := NewEncounter([x, y], [a, b]);
    AliveIffPositiveHp(x);
    AliveIffPositiveHp(y);
    EnemyActionIsCascade(e);
    assert CountAlive(e.enemies) == 2;
    var r := Cascade([x, y], 2);
    assert [x, y][1..] == [y];
    AliveIffPositiveHp(r[0]);
  }
}
