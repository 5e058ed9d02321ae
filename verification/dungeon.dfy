/** The dungeon: a grid of tiles with random walkability and 3 to 5 clues placed by rejection sampling.
    Every random draw is an explicit input: the walkability of each tile, the clue count and the
    sequence of `(x, y)` coordinates the placement loop samples. */
module Dungeons {
  import opened Wrappers

  const DefaultWidth := 20
  const DefaultHeight := 15
  const MinClues := 3
  const MaxClues := 5

  /** A grid position `(x, y)`: column first, then row. */
  type Coord = (int, int)

  datatype Tile = Tile(walkable: bool, hasClue: bool)

  /** `grid[y][x]` is the tile at `(x, y)`; `clues` maps clue positions to their texts. */
  datatype Dungeon = Dungeon(width: nat, height: nat, grid: seq<seq<Tile>>, clues: map<Coord, string>)

  /** `EmptyRange`: a zero dimension makes `randrange` raise. `DrawsExhausted`: the placement loop had
      not placed every clue when the supplied draws ran out, so the draws do not witness termination. */
  datatype DungeonError = EmptyRange | DrawsExhausted

  /** `g` has `height` rows of `width` entries each. */
  predicate IsGrid<T>(g: seq<seq<T>>, width: nat, height: nat)
  {
    |g| == height && forall y :: 0 <= y < height ==> |g[y]| == width
  }

  predicate InBounds(width: nat, height: nat, c: Coord)
  {
    0 <= c.0 < width && 0 <= c.1 < height
  }

  /** The walkability layer of a grid. */
  function Layout(grid: seq<seq<Tile>>): (cells: seq<seq<bool>>)
    ensures |cells| == |grid|
    ensures forall y :: 0 <= y < |grid| ==> |cells[y]| == |grid[y]|
    ensures forall y, x :: 0 <= y < |grid| && 0 <= x < |grid[y]| ==> cells[y][x] == grid[y][x].walkable
  {
    seq(|grid|, y requires 0 <= y < |grid| => seq(|grid[y]|, x requires 0 <= x < |grid[y]| => grid[y][x].walkable))
  }

  /** Tile `c` exists in `cells` and is walkable. */
  predicate Open(cells: seq<seq<bool>>, c: Coord)
  {
    0 <= c.1 < |cells| && 0 <= c.0 < |cells[c.1]| && cells[c.1][c.0]
  }

  /** Tile `c` exists in `grid` and is walkable. */
  predicate Walkable(grid: seq<seq<Tile>>, c: Coord)
  {
    0 <= c.1 < |grid| && 0 <= c.0 < |grid[c.1]| && grid[c.1][c.0].walkable
  }

  lemma OpenIffWalkable(grid: seq<seq<Tile>>, c: Coord)
    ensures Open(Layout(grid), c) <==> Walkable(grid, c)
  {
  }

  /** The grid the constructor builds from one walkability draw per tile; no tile has a clue yet. */
  function BuildGrid(cells: seq<seq<bool>>): (grid: seq<seq<Tile>>)
    ensures Layout(grid) == cells
    ensures forall y, x :: 0 <= y < |grid| && 0 <= x < |grid[y]| ==> !grid[y][x].hasClue
  {
    var grid := seq(|cells|, y requires 0 <= y < |cells| => seq(|cells[y]|, x requires 0 <= x < |cells[y]| => Tile(cells[y][x], false)));
    assert forall y :: 0 <= y < |cells| ==> Layout(grid)[y] == cells[y];
    grid
  }

  /** Clue positions are walkable tiles of the grid, and a tile is flagged exactly when it holds a clue. */
  ghost predicate Consistent(d: Dungeon)
  {
    && IsGrid(d.grid, d.width, d.height)
    && (forall c {:trigger Walkable(d.grid, c)} :: c in d.clues ==> Walkable(d.grid, c))
    && (forall y, x {:trigger d.grid[y][x]} :: 0 <= y < d.height && 0 <= x < d.width ==> (d.grid[y][x].hasClue <==> (x, y) in d.clues))
  }

  function Digit(n: nat): char
    requires n < 10
  {
    "0123456789"[n]
  }

  /** Decimal rendering of `n`, as Python's `str`. */
  function NatToString(n: nat): (s: string)
    ensures |s| >= 1
    ensures n < 10 ==> s == [Digit(n)]
  {
    if n < 10 then [Digit(n)] else NatToString(n / 10) + [Digit(n % 10)]
  }

  /** Text of the `n`-th placed clue. */
  function ClueText(n: nat): string
  {
    "Clue " + NatToString(n) + ": Something cryptic."
  }

  /** Clue texts numbered 1 to 9 are pairwise distinct: the digit after "Clue " tells them apart. */
  lemma ClueTextDistinct(n: nat, m: nat)
    requires 1 <= n < 10 && 1 <= m < 10 && n != m
    ensures ClueText(n) != ClueText(m)
  {
    assert ClueText(n)[5] == Digit(n);
    assert ClueText(m)[5] == Digit(m);
  }

  /** Marks the tile at `c` and records clue text number `n` for it. */
  function PlaceClueAt(d: Dungeon, c: Coord, n: nat): (r: Dungeon)
    requires Walkable(d.grid, c)
    ensures r.width == d.width && r.height == d.height && Layout(r.grid) == Layout(d.grid)
    ensures r.clues == d.clues[c := ClueText(n)]
    ensures Consistent(d) && c !in d.clues ==> Consistent(r) && |r.clues| == |d.clues| + 1
  {
    var (x, y) := c;
    var r := d.(grid := d.grid[y := d.grid[y][x := d.grid[y][x].(hasClue := true)]], clues := d.clues[c := ClueText(n)]);
    MarkKeepsLayout(d.grid, c);
    MarkKeepsConsistent(d, r, c);
    r
  }

  /** Flagging a tile leaves the walkability layer as it was. */
  lemma MarkKeepsLayout(grid: seq<seq<Tile>>, c: Coord)
    requires Walkable(grid, c)
    ensures Layout(grid[c.1 := grid[c.1][c.0 := grid[c.1][c.0].(hasClue := true)]]) == Layout(grid)
  {
    var g := grid[c.1 := grid[c.1][c.0 := grid[c.1][c.0].(hasClue := true)]];
    assert forall y :: 0 <= y < |g| ==> Layout(g)[y] == Layout(grid)[y];
  }

  /** Flagging the walkable, clue-free tile `c` while adding a clue at `c` keeps the clue invariant. */
  lemma MarkKeepsConsistent(d: Dungeon, r: Dungeon, c: Coord)
    requires Walkable(d.grid, c)
    requires r.width == d.width && r.height == d.height
    requires r.grid == d.grid[c.1 := d.grid[c.1][c.0 := d.grid[c.1][c.0].(hasClue := true)]]
    requires r.clues.Keys == d.clues.Keys + {c}
    ensures Consistent(d) && c !in d.clues ==> Consistent(r) && |r.clues| == |d.clues| + 1
  {
    if Consistent(d) && c !in d.clues {
      forall c' | c' in r.clues
        ensures Walkable(r.grid, c')
      {
        assert c' == c || Walkable(d.grid, c');
      }
      forall y, x | 0 <= y < r.height && 0 <= x < r.width
        ensures r.grid[y][x].hasClue <==> (x, y) in r.clues
      {
        assert d.grid[y][x].hasClue <==> (x, y) in d.clues;
      }
      assert r.clues.Keys == d.clues.Keys + {c};
    }
  }

  /** One iteration of the placement loop for the sampled coordinate `c`: a walkable tile without a
      clue receives clue number `placed + 1`; any other draw is rejected. */
  function PlaceStep(d: Dungeon, placed: nat, c: Coord): (r: (Dungeon, nat))
    ensures r.0.width == d.width && r.0.height == d.height && Layout(r.0.grid) == Layout(d.grid)
    ensures r.1 == placed + 1 <==> Walkable(d.grid, c) && c !in d.clues
    ensures r.1 != placed + 1 ==> r == (d, placed)
    ensures r.1 == placed + 1 ==> r.0.clues == d.clues[c := ClueText(placed + 1)]
    ensures Consistent(d) && placed == |d.clues| ==> Consistent(r.0) && r.1 == |r.0.clues|
  {
    if Walkable(d.grid, c) && c !in d.clues then (PlaceClueAt(d, c, placed + 1), placed + 1)
    else (d, placed)
  }

  /** The placement loop: while fewer than `num` clues are placed, sample the next coordinate and place
      clue number `placed + 1` there if the tile is walkable and still free. `None` means the draws ran
      out before the loop finished. */
  function PlaceClues(d: Dungeon, placed: nat, num: nat, draws: seq<Coord>): (r: Option<Dungeon>)
    ensures placed >= num ==> r == Some(d)
    ensures r.Some? ==> r.value.width == d.width && r.value.height == d.height
    ensures r.Some? ==> Layout(r.value.grid) == Layout(d.grid)
    ensures r.Some? && Consistent(d) && placed == |d.clues| ==> Consistent(r.value)
    ensures r.Some? && Consistent(d) && placed == |d.clues| && placed < num ==> |r.value.clues| == num
    decreases |draws|
  {
    if placed >= num then Some(d)
    else if |draws| == 0 then None
    else
      var (d', placed') := PlaceStep(d, placed, draws[0]);
      PlaceClues(d', placed', num, draws[1..])
  }

  /** A freshly built grid without clues satisfies the clue invariant. */
  lemma InitialDungeonIsConsistent(width: nat, height: nat, cells: seq<seq<bool>>)
    requires IsGrid(cells, width, height)
    ensures Consistent(Dungeon(width, height, BuildGrid(cells), map[]))
  {
    var g := BuildGrid(cells);
    assert |Layout(g)| == |g|;
    assert forall y :: 0 <= y < height ==> |g[y]| == |Layout(g)[y]| == width;
  }

  /** The dungeon constructor: build the grid, then place `numClues` clues (the `randint(3, 5)` draw)
      using the coordinate draws. The size defaults to `DefaultWidth` by `DefaultHeight`. */
  function NewDungeon(cells: seq<seq<bool>>, numClues: int, draws: seq<Coord>, width: nat := DefaultWidth, height: nat := DefaultHeight): (r: Result<Dungeon, DungeonError>)
    requires IsGrid(cells, width, height)
    requires MinClues <= numClues <= MaxClues
    requires forall i :: 0 <= i < |draws| ==> InBounds(width, height, draws[i])
    ensures r == Failure(EmptyRange) <==> width == 0 || height == 0
    ensures r.Success? ==> Consistent(r.value)
    ensures r.Success? ==> r.value.width == width && r.value.height == height && Layout(r.value.grid) == cells
    ensures r.Success? ==> |r.value.clues| == numClues && MinClues <= |r.value.clues| <= MaxClues
  {
    if width == 0 || height == 0 then Failure(EmptyRange)
    else
      var d0 := Dungeon(width, height, BuildGrid(cells), map[]);
      InitialDungeonIsConsistent(width, height, cells);
      var placed := PlaceClues(d0, 0, numClues, draws);
      if placed.Some? then Success(placed.value) else Failure(DrawsExhausted)
  }

  /** The stored text of the clue at `(x, y)`, if there is one. */
  function GetClue(d: Dungeon, x: int, y: int): (r: Option<string>)
    ensures r.Some? <==> (x, y) in d.clues
    ensures r.Some? ==> r.value == d.clues[(x, y)]
  {
    if (x, y) in d.clues then Some(d.clues[(x, y)]) else None
  }

  /** In a consistent dungeon, a position has a clue exactly when it is on the grid and its tile is flagged. */
  lemma GetClueMatchesTiles(d: Dungeon, x: int, y: int)
    requires Consistent(d)
    ensures GetClue(d, x, y).Some? <==> InBounds(d.width, d.height, (x, y)) && d.grid[y][x].hasClue
    ensures GetClue(d, x, y).Some? ==> d.grid[y][x].walkable
  {
    if (x, y) in d.clues {
      assert Walkable(d.grid, (x, y));
    }
  }

  // ---------------------------------------------------------------------------
  // What the placement loop computes, stated without the loop
  // ---------------------------------------------------------------------------

  /** The distinct walkable coordinates of `draws` outside `seen`, in order of first appearance. */
  function Fresh(cells: seq<seq<bool>>, seen: set<Coord>, draws: seq<Coord>): seq<Coord>
    decreases |draws|
  {
    if |draws| == 0 then []
    else if Open(cells, draws[0]) && draws[0] !in seen then [draws[0]] + Fresh(cells, seen + {draws[0]}, draws[1..])
    else Fresh(cells, seen, draws[1..])
  }

  /** The walkable coordinates that occur in `draws`. */
  function DrawnOpen(cells: seq<seq<bool>>, draws: seq<Coord>): set<Coord>
  {
    set c | c in draws && Open(cells, c)
  }

  /** Adds clues numbered `n + 1`, `n + 2`, ... at the positions of `order`. */
  function AddClues(m: map<Coord, string>, order: seq<Coord>, n: nat): map<Coord, string>
    decreases |order|
  {
    if |order| == 0 then m else AddClues(m[order[0] := ClueText(n + 1)], order[1..], n + 1)
  }

  /** The elements of a sequence, as a set. */
  ghost function Elems<T>(s: seq<T>): set<T>
  {
    set x | x in s
  }

  predicate Distinct<T(==)>(s: seq<T>)
  {
    forall i, j :: 0 <= i < j < |s| ==> s[i] != s[j]
  }

  lemma {:induction false} FreshFacts(cells: seq<seq<bool>>, seen: set<Coord>, draws: seq<Coord>)
    ensures Distinct(Fresh(cells, seen, draws))
    ensures forall c :: c in Fresh(cells, seen, draws) ==> c !in seen && Open(cells, c)
    ensures Elems(Fresh(cells, seen, draws)) == DrawnOpen(cells, draws) - seen
    decreases |draws|
  {
    if |draws| > 0 {
      var c, rest := draws[0], draws[1..];
      assert DrawnOpen(cells, draws) == DrawnOpen(cells, rest) + (if Open(cells, c) then {c} else {});
      if Open(cells, c) && c !in seen {
        FreshFacts(cells, seen + {c}, rest);
        var f := Fresh(cells, seen, draws);
        assert f == [c] + Fresh(cells, seen + {c}, rest);
        assert Elems(f) == {c} + Elems(Fresh(cells, seen + {c}, rest));
      } else {
        FreshFacts(cells, seen, rest);
      }
    }
  }

  lemma {:induction false} DistinctCard<T>(s: seq<T>)
    requires Distinct(s)
    ensures |Elems(s)| == |s|
  {
    if |s| > 0 {
      DistinctCard(s[1..]);
      assert Elems(s) == {s[0]} + Elems(s[1..]);
      assert s[0] !in Elems(s[1..]);
    }
  }

  /** The distinct walkable coordinates the draws offer, counted either way. */
  lemma FreshCount(cells: seq<seq<bool>>, draws: seq<Coord>)
    ensures |Fresh(cells, {}, draws)| == |DrawnOpen(cells, draws)|
  {
    FreshFacts(cells, {}, draws);
    DistinctCard(Fresh(cells, {}, draws));
  }

  lemma {:induction false} AddCluesKeys(m: map<Coord, string>, order: seq<Coord>, n: nat)
    ensures AddClues(m, order, n).Keys == m.Keys + Elems(order)
    decreases |order|
  {
    if |order| > 0 {
      AddCluesKeys(m[order[0] := ClueText(n + 1)], order[1..], n + 1);
      assert Elems(order) == {order[0]} + Elems(order[1..]);
    }
  }

  lemma {:induction false} AddCluesKeeps(m: map<Coord, string>, order: seq<Coord>, n: nat, c: Coord)
    requires c in m && c !in order
    ensures c in AddClues(m, order, n) && AddClues(m, order, n)[c] == m[c]
    decreases |order|
  {
    if |order| > 0 {
      AddCluesKeeps(m[order[0] := ClueText(n + 1)], order[1..], n + 1, c);
    }
  }

  /** The tail of a distinct sequence is distinct and does not contain the head. */
  lemma DistinctTail<T>(s: seq<T>)
    requires Distinct(s) && |s| > 0
    ensures Distinct(s[1..]) && s[0] !in s[1..]
  {
    var rest := s[1..];
    forall a, b | 0 <= a < b < |rest|
      ensures rest[a] != rest[b]
    {
      assert rest[a] == s[a + 1] && rest[b] == s[b + 1];
    }
    forall j | 0 <= j < |rest|
      ensures rest[j] != s[0]
    {
      assert rest[j] == s[j + 1];
    }
  }

  /** Along distinct positions, `AddClues` gives the `i`-th position clue number `n + i + 1`. */
  lemma {:induction false} AddCluesNumbers(m: map<Coord, string>, order: seq<Coord>, n: nat, i: nat)
    requires Distinct(order) && i < |order|
    ensures order[i] in AddClues(m, order, n) && AddClues(m, order, n)[order[i]] == ClueText(n + i + 1)
    decreases |order|
  {
    var m' := m[order[0] := ClueText(n + 1)];
    var rest := order[1..];
    assert AddClues(m, order, n) == AddClues(m', rest, n + 1);
    DistinctTail(order);
    if i == 0 {
      AddCluesKeeps(m', rest, n + 1, order[0]);
    } else {
      AddCluesNumbers(m', rest, n + 1, i - 1);
      assert rest[i - 1] == order[i];
    }
  }

  /** Taking a prefix of `[c] + s` and numbering it is numbering `c`, then a prefix of `s`. */
  lemma AddCluesPrefixCons(m: map<Coord, string>, c: Coord, s: seq<Coord>, k: nat, n: nat)
    requires 1 <= k <= |s| + 1
    ensures AddClues(m, ([c] + s)[..k], n) == AddClues(m[c := ClueText(n + 1)], s[..k - 1], n + 1)
  {
    var p := ([c] + s)[..k];
    assert p[0] == c && p[1..] == s[..k - 1];
  }

  /** How the next draw advances the fresh sequence, phrased over the grid the loop sees. */
  lemma FreshStep(d: Dungeon, cells: seq<seq<bool>>, seen: set<Coord>, draws: seq<Coord>)
    requires cells == Layout(d.grid) && seen == d.clues.Keys && |draws| > 0
    ensures Walkable(d.grid, draws[0]) && draws[0] !in d.clues ==>
              Fresh(cells, seen, draws) == [draws[0]] + Fresh(cells, seen + {draws[0]}, draws[1..])
    ensures !(Walkable(d.grid, draws[0]) && draws[0] !in d.clues) ==>
              Fresh(cells, seen, draws) == Fresh(cells, seen, draws[1..])
  {
    OpenIffWalkable(d.grid, draws[0]);
  }

  /** How the next draw advances the placement loop. */
  lemma PlaceCluesStep(d: Dungeon, placed: nat, num: nat, draws: seq<Coord>)
    requires placed < num && |draws| > 0
    ensures Walkable(d.grid, draws[0]) && draws[0] !in d.clues ==>
              && PlaceClues(d, placed, num, draws) == PlaceClues(PlaceClueAt(d, draws[0], placed + 1), placed + 1, num, draws[1..])
              && PlaceClueAt(d, draws[0], placed + 1).clues.Keys == d.clues.Keys + {draws[0]}
    ensures !(Walkable(d.grid, draws[0]) && draws[0] !in d.clues) ==>
              PlaceClues(d, placed, num, draws) == PlaceClues(d, placed, num, draws[1..])
  {
  }

  /** The loop succeeds exactly when the draws offer enough fresh walkable positions. */
  lemma {:induction false} PlaceCluesSucceedsIff(d: Dungeon, placed: nat, num: nat, draws: seq<Coord>, cells: seq<seq<bool>>, seen: set<Coord>)
    requires placed <= num && cells == Layout(d.grid) && seen == d.clues.Keys
    ensures PlaceClues(d, placed, num, draws).Some? <==> |Fresh(cells, seen, draws)| >= num - placed
    decreases |draws|
  {
    if placed < num && |draws| > 0 {
      var c, rest := draws[0], draws[1..];
      PlaceCluesStep(d, placed, num, draws);
      FreshStep(d, cells, seen, draws);
      if Walkable(d.grid, c) && c !in d.clues {
        PlaceCluesSucceedsIff(PlaceClueAt(d, c, placed + 1), placed + 1, num, rest, cells, seen + {c});
      } else {
        PlaceCluesSucceedsIff(d, placed, num, rest, cells, seen);
      }
    }
  }

  /** When the loop succeeds, it numbers the first fresh walkable positions of the draws in order of
      appearance. */
  lemma {:induction false} PlaceCluesTakesFresh(d: Dungeon, placed: nat, num: nat, draws: seq<Coord>, cells: seq<seq<bool>>, seen: set<Coord>)
    requires placed <= num && cells == Layout(d.grid) && seen == d.clues.Keys
    requires PlaceClues(d, placed, num, draws).Some?
    ensures |Fresh(cells, seen, draws)| >= num - placed
    ensures PlaceClues(d, placed, num, draws).value.clues == AddClues(d.clues, Fresh(cells, seen, draws)[..num - placed], placed)
    decreases |draws|
  {
    PlaceCluesSucceedsIff(d, placed, num, draws, cells, seen);
    if placed < num {
      var c, rest := draws[0], draws[1..];
      PlaceCluesStep(d, placed, num, draws);
      FreshStep(d, cells, seen, draws);
      if Walkable(d.grid, c) && c !in d.clues {
        PlaceCluesTakesFresh(PlaceClueAt(d, c, placed + 1), placed + 1, num, rest, cells, seen + {c});
        AddCluesPrefixCons(d.clues, c, Fresh(cells, seen + {c}, rest), num - placed, placed);
      } else {
        PlaceCluesTakesFresh(d, placed, num, rest, cells, seen);
      }
    }
  }

  /** `clues` holds exactly the first `num` fresh walkable positions of `draws` (outside `seen`, on top of
      the clues at `seen`), the `i`-th of them carrying clue number `first + i + 1`. */
  ghost predicate CluesFollowDraws(clues: map<Coord, string>, cells: seq<seq<bool>>, seen: set<Coord>, draws: seq<Coord>, first: nat, num: nat)
  {
    var f := Fresh(cells, seen, draws);
    && |f| >= num
    && clues.Keys == seen + Elems(f[..num])
    && forall i :: 0 <= i < num ==> f[i] in clues && clues[f[i]] == ClueText(first + i + 1)
  }

  /** The loop succeeds exactly when the draws offer enough fresh walkable positions, and then it numbers
      them in order of first appearance. */
  lemma PlaceCluesNumbersFresh(d: Dungeon, placed: nat, num: nat, draws: seq<Coord>, cells: seq<seq<bool>>, seen: set<Coord>)
    requires placed <= num && cells == Layout(d.grid) && seen == d.clues.Keys
    ensures PlaceClues(d, placed, num, draws).Some? <==> |Fresh(cells, seen, draws)| >= num - placed
    ensures PlaceClues(d, placed, num, draws).Some? ==>
              CluesFollowDraws(PlaceClues(d, placed, num, draws).value.clues, cells, seen, draws, placed, num - placed)
  {
    PlaceCluesSucceedsIff(d, placed, num, draws, cells, seen);
    var f := Fresh(cells, seen, draws);
    if |f| >= num - placed {
      PlaceCluesTakesFresh(d, placed, num, draws, cells, seen);
      FreshFacts(cells, seen, draws);
      var order := f[..num - placed];
      assert Distinct(order);
      AddCluesKeys(d.clues, order, placed);
      forall i | 0 <= i < num - placed
        ensures f[i] in AddClues(d.clues, order, placed) && AddClues(d.clues, order, placed)[f[i]] == ClueText(placed + i + 1)
      {
        AddCluesNumbers(d.clues, order, placed, i);
        assert order[i] == f[i];
      }
    }
  }

  /** Generation (with non-zero dimensions) finishes exactly when the draws hit at least `numClues`
      distinct walkable tiles; the clue at the `i`-th such tile reads "Clue i+1: Something cryptic."
      and there are no other clues. */
  lemma NewDungeonPlacesFresh(width: nat, height: nat, cells: seq<seq<bool>>, numClues: int, draws: seq<Coord>)
    requires IsGrid(cells, width, height)
    requires MinClues <= numClues <= MaxClues
    requires forall i :: 0 <= i < |draws| ==> InBounds(width, height, draws[i])
    requires width > 0 && height > 0
    ensures var r := NewDungeon(cells, numClues, draws, width, height);
            && (r.Success? <==> |DrawnOpen(cells, draws)| >= numClues)
            && (r.Success? ==> CluesFollowDraws(r.value.clues, cells, {}, draws, 0, numClues))
  {
    var d0 := Dungeon(width, height, BuildGrid(cells), map[]);
    NewDungeonRunsPlacement(width, height, cells, numClues, draws);
    StartPlacesFresh(d0, numClues, draws, cells);
  }

  /** With non-zero dimensions the constructor's outcome is that of the placement loop on the bare grid. */
  lemma NewDungeonRunsPlacement(width: nat, height: nat, cells: seq<seq<bool>>, numClues: int, draws: seq<Coord>)
    requires IsGrid(cells, width, height)
    requires MinClues <= numClues <= MaxClues
    requires forall i :: 0 <= i < |draws| ==> InBounds(width, height, draws[i])
    requires width > 0 && height > 0
    ensures var r := NewDungeon(cells, numClues, draws, width, height);
            var p := PlaceClues(Dungeon(width, height, BuildGrid(cells), map[]), 0, numClues, draws);
            && (r.Success? <==> p.Some?)
            && (r.Success? ==> r.value == p.value)
  {
  }

  /** From a grid without clues, the loop succeeds exactly when the draws hit `num` distinct walkable
      tiles, and numbers those tiles from 1 in order of first appearance. */
  lemma StartPlacesFresh(d0: Dungeon, num: nat, draws: seq<Coord>, cells: seq<seq<bool>>)
    requires cells == Layout(d0.grid) && d0.clues == map[]
    ensures PlaceClues(d0, 0, num, draws).Some? <==> |DrawnOpen(cells, draws)| >= num
    ensures PlaceClues(d0, 0, num, draws).Some? ==> CluesFollowDraws(PlaceClues(d0, 0, num, draws).value.clues, cells, {}, draws, 0, num)
  {
    PlaceCluesNumbersFresh(d0, 0, num, draws, cells, {});
    FreshCount(cells, draws);
  }

  /** Walkable tiles of the grid. */
  function OpenTiles(cells: seq<seq<bool>>): set<Coord>
  {
    set y, x | 0 <= y < |cells| && 0 <= x < |cells[y]| && cells[y][x] :: (x, y)
  }

  lemma SubsetCard<T>(a: set<T>, b: set<T>)
    requires a <= b
    ensures |a| <= |b|
  {
    assert b == a + (b - a);
  }

  /** The loop can only finish if the grid has at least `numClues` walkable tiles. */
  lemma GenerationNeedsOpenTiles(width: nat, height: nat, cells: seq<seq<bool>>, numClues: int, draws: seq<Coord>)
    requires IsGrid(cells, width, height)
    requires MinClues <= numClues <= MaxClues
    requires forall i :: 0 <= i < |draws| ==> InBounds(width, height, draws[i])
    ensures NewDungeon(cells, numClues, draws, width, height).Success? ==> |OpenTiles(cells)| >= numClues
  {
    var r := NewDungeon(cells, numClues, draws, width, height);
    if r.Success? {
      forall c | c in r.value.clues
        ensures c in OpenTiles(cells)
      {
        assert Walkable(r.value.grid, c);
        assert Open(cells, c);
      }
      SubsetCard(r.value.clues.Keys, OpenTiles(cells));
    }
  }

  /** Every clue of a generated dungeon reads "Clue n: Something cryptic." for a number n between 1 and
      the clue count, and no two clues share a text. */
  lemma GeneratedCluesNumbered(width: nat, height: nat, cells: seq<seq<bool>>, numClues: int, draws: seq<Coord>)
    requires IsGrid(cells, width, height)
    requires MinClues <= numClues <= MaxClues
    requires forall i :: 0 <= i < |draws| ==> InBounds(width, height, draws[i])
    ensures var r := NewDungeon(cells, numClues, draws, width, height);
            r.Success? ==> forall c :: c in r.value.clues ==> exists n :: 1 <= n <= |r.value.clues| && r.value.clues[c] == ClueText(n)
    ensures var r := NewDungeon(cells, numClues, draws, width, height);
            r.Success? ==> forall a, b :: a in r.value.clues && b in r.value.clues && a != b ==> r.value.clues[a] != r.value.clues[b]
  {
    var r := NewDungeon(cells, numClues, draws, width, height);
    if r.Success? {
      NewDungeonPlacesFresh(width, height, cells, numClues, draws);
      FollowedCluesNumbered(r.value.clues, cells, draws, numClues);
    }
  }

  /** The position of a clue among the fresh draws, which also fixes its number. */
  lemma FollowedClueIndex(clues: map<Coord, string>, cells: seq<seq<bool>>, draws: seq<Coord>, num: nat, c: Coord) returns (i: nat)
    requires CluesFollowDraws(clues, cells, {}, draws, 0, num) && c in clues
    ensures i < num && i < |Fresh(cells, {}, draws)| && Fresh(cells, {}, draws)[i] == c && clues[c] == ClueText(i + 1)
  {
    var f := Fresh(cells, {}, draws);
    assert c in Elems(f[..num]);
    i :| 0 <= i < num && f[..num][i] == c;
  }

  /** Clues that follow the draws from number 1 carry the numbers 1 to `num`, each once. */
  lemma FollowedCluesNumbered(clues: map<Coord, string>, cells: seq<seq<bool>>, draws: seq<Coord>, num: nat)
    requires num < 10 && CluesFollowDraws(clues, cells, {}, draws, 0, num)
    ensures forall c :: c in clues ==> exists n :: 1 <= n <= num && clues[c] == ClueText(n)
    ensures forall a, b :: a in clues && b in clues && a != b ==> clues[a] != clues[b]
  {
    forall c | c in clues
      ensures exists n :: 1 <= n <= num && clues[c] == ClueText(n)
    {
      var i := FollowedClueIndex(clues, cells, draws, num, c);
      assert 1 <= i + 1 <= num;
    }
    forall a, b | a in clues && b in clues && a != b
      ensures clues[a] != clues[b]
    {
      var i := FollowedClueIndex(clues, cells, draws, num, a);
      var j := FollowedClueIndex(clues, cells, draws, num, b);
      ClueTextDistinct(i + 1, j + 1);
    }
  }

  /** A dungeon of the default 20 by 15 size can always be built, and when generation finishes it has
      clues, each on a tile flagged as holding one. */
  lemma DefaultDungeonScenario(cells: seq<seq<bool>>, numClues: int, draws: seq<Coord>)
    requires IsGrid(cells, DefaultWidth, DefaultHeight)
    requires MinClues <= numClues <= MaxClues
    requires forall i :: 0 <= i < |draws| ==> InBounds(DefaultWidth, DefaultHeight, draws[i])
    ensures NewDungeon(cells, numClues, draws) != Failure(EmptyRange)
    ensures var r := NewDungeon(cells, numClues, draws);
            r.Success? ==>
              && r.value.width == 20 && r.value.height == 15 && |r.value.clues| > 0
              && forall c :: c in r.value.clues ==> InBounds(20, 15, c) && r.value.grid[c.1][c.0].hasClue
  {
    var r := NewDungeon(cells, numClues, draws);
    if r.Success? {
      forall c | c in r.value.clues
        ensures InBounds(20, 15, c) && r.value.grid[c.1][c.0].hasClue
      {
        assert Walkable(r.value.grid, c);
      }
    }
  }
}
