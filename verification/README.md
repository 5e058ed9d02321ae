# Dungeon crawler core in Dafny

This project models the core of a small turn-based dungeon crawler:

- the party members (`Player`) and the hostile mobs (`Entities`): constructors, clamped healing and
  spell-point restoration, the alive predicate and the fixed default rosters;
- the combat engine (`Combat`): an encounter between a party and an enemy group, the turn flag, the
  "fight is over" predicate, the party's strike and the enemies' round with its cascading target;
- the dungeon (`Dungeons`): the tile grid, the rejection-sampling loop that places 3 to 5 numbered
  clues on distinct walkable tiles, and clue lookup.

Everything is an immutable datatype with pure functions. Python mutates objects in place; here every
operation returns the updated value. Python's duck typing lets `Character` and `Mob` stand on either
side of an encounter, so `Combat.Combatant` is either kind and the engine touches only its hp.

Every random draw is an explicit input of the dungeon constructor: the walkability of each tile
(`random.choice([True, True, False])`), the clue count (`random.randint(3, 5)`, a requires clause
bounds it to 3..5), and the finite sequence of sampled `(x, y)` coordinates. The placement loop in
the source runs until it has placed every clue. The model stops as soon as every clue is placed,
and reports `DrawsExhausted` if the draws run out first. So the draw sequence witnesses termination, and
`Dungeons.NewDungeonPlacesFresh` states exactly which draw sequences are enough.

Two references are proved equal to the operations:

- The enemy round is a loop in which each living enemy re-resolves its target. It equals
  `Combat.Cascade`, a closed form: k hits (k = living enemies) flow down the party in order, each
  member absorbing hits until it is down. From this follow the exact total hp loss and the exact
  condition under which the round ends the fight.
- The clue loop leaves exactly the first `numClues` distinct walkable coordinates of the draws as
  clues, numbered by first appearance (`Dungeons.Fresh`, `Dungeons.CluesFollowDraws`).

Behaviour worth knowing before reading the contracts:

- The party strike deals a flat 3, whatever the party size.
- Each living enemy deals a flat 2. A mob's `atk` is never read by the engine.
- When both groups are non-empty, an out-of-range target index raises `IndexError`, because
  Python indexes the list. The model returns `Failure(IndexError)`, and it resolves negative
  indices the way Python does. With either group empty the strike does nothing, whatever the index.
- `next_turn` flips the flag unconditionally, whether or not the fight is over.
- The grid is a field of independently random tiles. The only features placed on it are clues.
- Defaults follow the source: `PartyAction` targets index 0 unless told otherwise, and
  `NewDungeon` builds a 20 by 15 dungeon unless given a size.

## Model

| member | source | states |
|---|---|---|
| Player.NewCharacter | src/player.py:5-15 | a new character starts at full hp and sp (the given values become both current and maximum), with level defaulting to 1 and zero xp |
| Player.Heal | src/player.py:17-18 | healing yields hp equal to the cap or to hp plus amount, whichever is lower; it lands on the cap exactly when hp + amount reaches it; a non-negative heal from at or below the cap never lowers hp; no other field changes |
| Player.HealAtCapIsNoop | src/player.py:17-18 | at full health a non-negative heal changes nothing, so healing twice equals healing once |
| Player.RestoreSp | src/player.py:20-21 | restoring yields sp equal to the cap or to sp plus amount, whichever is lower; it lands on the cap exactly when sp + amount reaches it; a non-negative restore from at or below the cap never lowers sp; no other field changes |
| Player.IsAlive | src/player.py:23-24 | a character is alive while its hp is positive; no contract of its own, `Player.AliveIsHpOnly` states its properties |
| Player.AliveIsHpOnly | src/player.py:23-24 | being alive depends on hp > 0 alone; more damage never revives a fallen character |
| Player.DefaultParty | src/player.py:27-33 | the default party is Rogar/Fighter 20/0, Shade/Thief 16/0, Lyria/Cleric 14/10, Mira/Wizard 10/14, all fresh, level 1 and alive |
| Entities.NewMob | src/entities.py:17-21 | a new mob starts with hp equal to its max hp and keeps the given name and attack |
| Entities.IsAlive | src/entities.py:23-25 | a mob is alive while its hp is positive; no contract of its own, `Entities.AliveIsHpOnly` states its properties |
| Entities.AliveIsHpOnly | src/entities.py:23-25 | a mob is alive exactly while hp > 0; damaging a defeated mob never revives it |
| Entities.DefaultMobs | src/entities.py:28-34 | the catalogue is Goblin 6/2, Skeleton 8/3, Orc 12/4, Boss Ogre 24/6 (hp/atk), each at full health |
| Entities.DefaultMobsCatalogue | tests/test_entities.py:4-9 | the catalogue has at least three mobs, includes the Goblin and the Boss Ogre, and every mob starts alive |
| Combat.AliveIffPositiveHp | src/combat.py:11-14 | a combatant of either kind is alive exactly when its hp is positive |
| Combat.NewEncounter | src/combat.py:6-9 | a new encounter keeps both groups and opens on the party's turn (flag 0) |
| Combat.IsOver | src/combat.py:11-14 | the fight is over when every enemy or every party member is down, vacuously so for an empty side; no contract of its own, `Combat.IsOverIffNoFight` characterises it |
| Combat.IsOverIffNoFight | src/combat.py:11-14 | the fight is over exactly when no enemy is alive to act or no party member is alive to be targeted |
| Combat.NextTurn | src/combat.py:16-17 | the flag goes from party to enemies and back, in both directions; the groups are untouched |
| Combat.NextTurnIsInvolution | src/combat.py:16-17 | flipping twice restores the encounter; a flag in {0, 1} stays in {0, 1} and changes; flipping does not change whether the fight is over |
| Combat.PyIndex | src/combat.py:22 | Python list indexing resolves i exactly when -n <= i < n, to i or i + n |
| Combat.PartyAction | src/combat.py:19-22 | the strike fails exactly when both groups are non-empty and the index is outside Python's range; with an empty group it does nothing; otherwise the enemy the index selects (negative indices counting from the end) loses exactly 3 hp, every other enemy, the party and the flag are unchanged |
| Combat.PartyActionDownsWeakTarget | src/combat.py:19-22 | a target with at most 3 hp falls to one strike; the target's hp always strictly drops |
| Combat.FirstAlive | src/combat.py:28-31 | the index found is the first living member; none is found only when nobody is alive |
| Combat.Hit | src/combat.py:28-31 | one living enemy's attack: the first living member loses 2 hp, and with nobody alive nothing changes; no contract of its own, `Combat.CascadeStep` and `Combat.EnemyActionIsCascade` state its effect |
| Combat.EnemyRound | src/combat.py:24-31 | the round keeps the party size and identities; hp never rises; fallen members are untouched |
| Combat.EnemyAction | src/combat.py:24-31 | the enemy phase leaves the enemies and the flag alone; each member keeps its identity, loses hp or keeps it, and a fallen member is untouched |
| Combat.EnemyActionIsCascade | src/combat.py:24-31 | the per-enemy loop with its re-resolved target equals one cascade of k hits, k being the number of living enemies |
| Combat.CascadeStep | src/combat.py:28-31 | one attack followed by a k-hit cascade equals a (k+1)-hit cascade |
| Combat.EnemyActionTotalLoss | src/combat.py:24-31 | the party loses exactly 2 * min(living enemies, hits needed to down every member) hp in total |
| Combat.EnemyActionEndsFight | src/combat.py:24-31 | the enemy phase leaves the fight over exactly when there was no living enemy or the living enemies land enough hits to down the whole party |
| Combat.OverIsStable | src/combat.py:11-31 | once over, a fight stays over after an enemy phase, a turn flip or a successful strike |
| Combat.PartyVictoryScenario | tests/test_combat.py:5-10 | the default party striking a 1-hp enemy leaves it at hp <= 0 and ends the fight |
| Combat.MobEncounterScenario | tests/test_mob_encounters.py:50-69 | against a fresh Goblin the fight is live and opens on the party's turn; a strike lowers the mob's hp; a mob set to hp 0 ends the fight |
| Combat.CascadingTargetScenario | src/combat.py:24-31 | two living enemies against members at hp 2 and 10 leave the first at 0 (down) and the second at 8 |
| Dungeons.BuildGrid | src/dungeon.py:15-18 | the grid built from the walkability draws has exactly those draws as its layer, and no tile is flagged with a clue |
| Dungeons.InitialDungeonIsConsistent | src/dungeon.py:12-19 | a freshly built grid without clues satisfies the clue invariant |
| Dungeons.PlaceClueAt | src/dungeon.py:29-30 | placing a clue keeps dimensions and walkability, records clue text n at the tile, and on a new walkable tile keeps the invariant and adds exactly one clue |
| Dungeons.MarkKeepsConsistent | src/dungeon.py:28-30 | flagging a walkable, clue-free tile while recording its clue keeps every clue on a walkable tile and keeps the flags matching the clue map |
| Dungeons.PlaceStep | src/dungeon.py:27-31 | one iteration advances the count exactly when the sampled tile is walkable and has no clue yet; otherwise nothing changes; the invariant is kept |
| Dungeons.PlaceClues | src/dungeon.py:22-31 | when the loop finishes it keeps the grid's walkability, keeps the clue invariant, and holds exactly the requested number of clues |
| Dungeons.NewDungeon | src/dungeon.py:12-31 | construction fails with an empty range exactly when a dimension is 0; a result keeps the dimensions and walkability draws, satisfies the invariant, and holds 3 to 5 clues, exactly the drawn count |
| Dungeons.PlaceCluesSucceedsIff | src/dungeon.py:25-31 | the loop finishes exactly when the draws contain enough distinct walkable coordinates not yet holding a clue |
| Dungeons.PlaceCluesTakesFresh | src/dungeon.py:25-31 | a finished loop's clue map is the old map plus the first fresh walkable draws in order, numbered from placed + 1 |
| Dungeons.PlaceCluesNumbersFresh | src/dungeon.py:25-31 | the loop finishes exactly when enough fresh walkable draws exist, and its clues are exactly the first of them, numbered by first appearance |
| Dungeons.NewDungeonPlacesFresh | src/dungeon.py:12-31 | with non-zero dimensions, generation finishes exactly when the draws hit numClues distinct walkable tiles; the i-th such tile carries "Clue i+1" and no other tile has a clue |
| Dungeons.GenerationNeedsOpenTiles | src/dungeon.py:22-31 | generation can only finish on a grid with at least numClues walkable tiles |
| Dungeons.GeneratedCluesNumbered | src/dungeon.py:30 | every generated clue reads "Clue n: Something cryptic." with n between 1 and the clue count, and no two clues share a text |
| Dungeons.FreshFacts | src/dungeon.py:28 | the fresh draws are distinct, walkable and unseen, and as a set they are the drawn walkable tiles minus the seen ones |
| Dungeons.ClueTextDistinct | src/dungeon.py:30 | clue texts with different numbers from 1 to 9 differ |
| Dungeons.ClueText | src/dungeon.py:30 | the text of the n-th clue, "Clue n: Something cryptic." with n in decimal; no contract of its own, `Dungeons.ClueTextDistinct` and `Dungeons.GeneratedCluesNumbered` state its properties |
| Dungeons.GetClue | src/dungeon.py:33-34 | lookup returns a text exactly when the position has a clue, and that text is the stored one |
| Dungeons.GetClueMatchesTiles | src/dungeon.py:33-34 | in a consistent dungeon a position has a clue exactly when it is on the grid and its tile is flagged, and such a tile is walkable |
| Dungeons.DefaultDungeonScenario | tests/test_dungeon.py:4-9 | a dungeon of the default 20 by 15 size never fails for an empty range, and when generation finishes it has at least one clue, each on an in-bounds tile flagged as holding a clue |

## Left out

- Negative dungeon dimensions: width and height are `nat`. In Python a negative size yields an empty grid and then `randrange` raises; only the zero case (`EmptyRange`) is modelled.
- Random distributions: the model quantifies over every draw sequence and does not say how likely any sequence is. It does not state that the loop terminates with probability 1.
- Dungeons.NewDungeon: requires every coordinate draw to be on the grid, as `randrange(width)` and `randrange(height)` guarantee. On its own, `PlaceClues` rejects every off-grid draw. Python instead raises `IndexError` for a coordinate at or beyond the width or height, wraps a coordinate in [-width, -1] (or [-height, -1]) to a tile counted from the end, recording the clue under the negative key, and raises `IndexError` below that.
- The unbounded loop is modelled with a finite draw sequence. A run whose draws end early yields `DrawsExhausted`. A run on a grid with too few walkable tiles, which never terminates in Python, has no counterpart except that every finite draw sequence fails (`Dungeons.GenerationNeedsOpenTiles`).
- Dungeons.ClueTextDistinct: proved for numbers 1 to 9 only, which covers every count the generator can draw (at most 5).
- The `action` argument of `party_action` is ignored by the source and absent from the model.
- Aliasing: Python objects are shared by reference, so the test-side view (`enemies[0].hp` after the call) is modelled by reading the returned encounter.
- Combat.Encounter: the model assumes every combatant object occurs at most once across the party and the enemy list. Python lists hold references, so one object may appear twice (`CombatEncounter(party, party)`, enemies `[mob, mob]`, a party `[p, p]`), and a hit then changes every occurrence. For a party `[p, p]` with `p.hp == 2` facing two living enemies, Python's first hit downs both entries, the second enemy finds no target and the party loses 2 hp. The model treats the entries as separate members, so `Cascade` gives both entries hp 0 and a total loss of 4. Likewise `PartyAction` on enemies `[mob, mob]` lowers only one entry.
- The user interface, the game loop and the stairs, the mob placement and the mob-removal logic are left out. The UI and game loop are I/O. The dungeon source never assigns stairs or tile mobs, so the tests that inspect `tile.mob` have no counterpart here.
- The statistical test that several mob types appear across dungeons is left out: it concerns a spawning policy the source does not contain.
- Experience, levels beyond the stored value, and spell use are not touched by any modelled operation and are carried as plain fields.
