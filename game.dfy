/**
 * The Game of Life engine: a grid of cells that is advanced one generation
 * at a time by the B3/S23 rule and rendered as text. Cells outside the grid
 * are dead; the grid does not wrap around, and each row is bounded by its
 * own length, so rows of different lengths are read safely.
 *
 * The pure parts of the engine (neighbour enumeration, liveness lookup, the
 * rule, rendering) are functions over the grid; the parts that build or
 * update the grid step by step are methods of the class `Game`.
 */
module Life {
  import opened Strings
  import opened GameConfig

  type Grid = seq<seq<bool>>

  /** A possibly out-of-range cell coordinate. */
  datatype Pos = Pos(row: int, col: int)

  predicate InBounds(grid: Grid, p: Pos)
  {
    0 <= p.row < |grid| && 0 <= p.col < |grid[p.row]|
  }

  /** Whether the cell at `p` is alive; every position outside the grid is dead. */
  function IsAlive(grid: Grid, p: Pos): (alive: bool)
    ensures !InBounds(grid, p) ==> !alive
    ensures InBounds(grid, p) ==> alive == grid[p.row][p.col]
  {
    if p.row < 0 || p.row >= |grid| || p.col < 0 || p.col >= |grid[p.row]| then false
    else grid[p.row][p.col]
  }

  /** `q` is one of the eight cells around `p`. */
  predicate Adjacent(p: Pos, q: Pos)
  {
    p != q && -1 <= q.row - p.row <= 1 && -1 <= q.col - p.col <= 1
  }

  /** The Moore neighbourhood of `p`, row by row: eight distinct positions, exactly the adjacent ones. */
  function Neighbors(p: Pos): (ns: seq<Pos>)
    ensures |ns| == 8
    ensures forall i, j :: 0 <= i < j < |ns| ==> ns[i] != ns[j]
    ensures forall q :: q in ns <==> Adjacent(p, q)
  {
    var (r, c) := (p.row, p.col);
    [Pos(r - 1, c - 1), Pos(r - 1, c), Pos(r - 1, c + 1),
     Pos(r, c - 1), Pos(r, c + 1),
     Pos(r + 1, c - 1), Pos(r + 1, c), Pos(r + 1, c + 1)]
  }

  /** How many of the positions `ps` hold a live cell. */
  function CountAlive(grid: Grid, ps: seq<Pos>): (n: nat)
    ensures n <= |ps|
  {
    if ps == [] then 0
    else Ind(IsAlive(grid, ps[0])) + CountAlive(grid, ps[1..])
  }

  function LiveNeighbours(grid: Grid, p: Pos): (n: nat)
    ensures n <= 8
  {
    CountAlive(grid, Neighbors(p))
  }

  function Offset(p: Pos, dr: int, dc: int): Pos
  {
    Pos(p.row + dr, p.col + dc)
  }

  /** The live cells around `p`, described by their offsets from `p`. */
  ghost function AliveAround(grid: Grid, p: Pos): set<Pos>
  {
    set dr: int, dc: int
      | -1 <= dr <= 1 && -1 <= dc <= 1 && (dr != 0 || dc != 0) && IsAlive(grid, Offset(p, dr, dc))
      :: Offset(p, dr, dc)
  }

  lemma {:induction false} CountAliveIsCard(grid: Grid, ps: seq<Pos>)
    requires forall i, j :: 0 <= i < j < |ps| ==> ps[i] != ps[j]
    ensures CountAlive(grid, ps) == |set q | q in ps && IsAlive(grid, q)|
  {
    if ps != [] {
      CountAliveIsCard(grid, ps[1..]);
      var rest := set q | q in ps[1..] && IsAlive(grid, q);
      var all := set q | q in ps && IsAlive(grid, q);
      assert ps[0] !in ps[1..] by {
        forall k | 0 <= k < |ps[1..]| ensures ps[1..][k] != ps[0] {
          assert ps[1..][k] == ps[k + 1];
        }
      }
      if IsAlive(grid, ps[0]) {
        assert all == rest + {ps[0]};
      } else {
        assert all == rest;
      }
    }
  }

  /** The live-neighbour count is the number of live cells among the eight around `p`. */
  lemma LiveNeighboursCountsAround(grid: Grid, p: Pos)
    ensures LiveNeighbours(grid, p) == |AliveAround(grid, p)|
  {
    var ns := Neighbors(p);
    CountAliveIsCard(grid, ns);
    var listed := set q | q in ns && IsAlive(grid, q);
    forall q | q in listed ensures q in AliveAround(grid, p) {
      var dr, dc := q.row - p.row, q.col - p.col;
      assert q == Offset(p, dr, dc);
    }
    assert listed == AliveAround(grid, p);
  }

  /** The eight-term sum the live-neighbour count stands for. */
  lemma LiveNeighboursExpanded(grid: Grid, p: Pos)
    ensures var (r, c) := (p.row, p.col);
      LiveNeighbours(grid, p)
      == Ind(IsAlive(grid, Pos(r - 1, c - 1))) + Ind(IsAlive(grid, Pos(r - 1, c))) + Ind(IsAlive(grid, Pos(r - 1, c + 1)))
       + Ind(IsAlive(grid, Pos(r, c - 1))) + Ind(IsAlive(grid, Pos(r, c + 1)))
       + Ind(IsAlive(grid, Pos(r + 1, c - 1))) + Ind(IsAlive(grid, Pos(r + 1, c))) + Ind(IsAlive(grid, Pos(r + 1, c + 1)))
  {
    var ns := Neighbors(p);
    assert CountAlive(grid, ns[8..]) == 0;
    assert CountAlive(grid, ns[7..]) == Ind(IsAlive(grid, ns[7])) + CountAlive(grid, ns[8..]) by { assert ns[7..][1..] == ns[8..]; }
    assert CountAlive(grid, ns[6..]) == Ind(IsAlive(grid, ns[6])) + CountAlive(grid, ns[7..]) by { assert ns[6..][1..] == ns[7..]; }
    assert CountAlive(grid, ns[5..]) == Ind(IsAlive(grid, ns[5])) + CountAlive(grid, ns[6..]) by { assert ns[5..][1..] == ns[6..]; }
    assert CountAlive(grid, ns[4..]) == Ind(IsAlive(grid, ns[4])) + CountAlive(grid, ns[5..]) by { assert ns[4..][1..] == ns[5..]; }
    assert CountAlive(grid, ns[3..]) == Ind(IsAlive(grid, ns[3])) + CountAlive(grid, ns[4..]) by { assert ns[3..][1..] == ns[4..]; }
    assert CountAlive(grid, ns[2..]) == Ind(IsAlive(grid, ns[2])) + CountAlive(grid, ns[3..]) by { assert ns[2..][1..] == ns[3..]; }
    assert CountAlive(grid, ns[1..]) == Ind(IsAlive(grid, ns[1])) + CountAlive(grid, ns[2..]) by { assert ns[1..][1..] == ns[2..]; }
  }

  function Ind(b: bool): nat { if b then 1 else 0 }

  /** A cell in the corner has at most three neighbours that can be alive; nothing wraps around. */
  lemma CornerNeighbours(grid: Grid)
    ensures LiveNeighbours(grid, Pos(0, 0)) <= 3
  {
    LiveNeighboursExpanded(grid, Pos(0, 0));
  }

  /** Numbers of live neighbours at which a dead cell is born, and at which a live cell survives. */
  const Birth: set<nat> := {3}
  const Survival: set<nat> := {2, 3}

  /** Whether the cell at `p` is alive in the next generation. */
  function NextAlive(grid: Grid, p: Pos): (alive: bool)
    ensures alive == if IsAlive(grid, p) then LiveNeighbours(grid, p) in Survival else LiveNeighbours(grid, p) in Birth
  {
    var n := LiveNeighbours(grid, p);
    n == 3 || (IsAlive(grid, p) && n == 2)
  }

  /** A cell with no live neighbour is dead in the next generation. */
  lemma IsolatedCellDies(grid: Grid, p: Pos)
    requires forall q :: Adjacent(p, q) ==> !IsAlive(grid, q)
    ensures !NextAlive(grid, p)
  {
    LiveNeighboursExpanded(grid, p);
    var (r, c) := (p.row, p.col);
    assert Adjacent(p, Pos(r - 1, c - 1)) && Adjacent(p, Pos(r - 1, c)) && Adjacent(p, Pos(r - 1, c + 1));
    assert Adjacent(p, Pos(r, c - 1)) && Adjacent(p, Pos(r, c + 1));
    assert Adjacent(p, Pos(r + 1, c - 1)) && Adjacent(p, Pos(r + 1, c)) && Adjacent(p, Pos(r + 1, c + 1));
  }

  /** The next generation of the whole grid: every cell by the rule applied to `grid`, same shape. */
  ghost function Step(grid: Grid): (next: Grid)
    ensures |next| == |grid|
    ensures forall i :: 0 <= i < |grid| ==> |next[i]| == |grid[i]|
    ensures forall i, j :: 0 <= i < |grid| && 0 <= j < |grid[i]| ==> next[i][j] == NextAlive(grid, Pos(i, j))
  {
    seq(|grid|, i requires 0 <= i < |grid| => seq(|grid[i]|, j => NextAlive(grid, Pos(i, j))))
  }

  /** The cell at `p` is in the grid and the next generation changes it. */
  predicate Changes(grid: Grid, p: Pos)
  {
    InBounds(grid, p) && NextAlive(grid, p) != IsAlive(grid, p)
  }

  /** The grid with the cell at `p` negated. */
  function Flip(grid: Grid, p: Pos): (flipped: Grid)
    requires InBounds(grid, p)
    ensures |flipped| == |grid|
    ensures forall i :: 0 <= i < |grid| ==> |flipped[i]| == |grid[i]|
    ensures forall i, j :: 0 <= i < |grid| && 0 <= j < |grid[i]| ==> flipped[i][j] == (grid[i][j] != (Pos(i, j) == p))
  {
    grid[p.row := grid[p.row][p.col := !grid[p.row][p.col]]]
  }

  /** A cell is negated once for each time it is listed. */
  predicate Odd(n: nat) { n % 2 == 1 }

  /** `after` is `before` with every cell negated as often as `ps` lists it, and the same shape. */
  ghost predicate FlippedBy(before: Grid, after: Grid, ps: seq<Pos>)
  {
    && |after| == |before|
    && (forall i :: 0 <= i < |before| ==> |after[i]| == |before[i]|)
    && (forall i, j :: 0 <= i < |before| && 0 <= j < |before[i]| ==>
          after[i][j] == (before[i][j] != Odd(multiset(ps)[Pos(i, j)])))
  }

  lemma FlipOneMore(before: Grid, grid: Grid, ps: seq<Pos>, p: Pos)
    requires FlippedBy(before, grid, ps) && InBounds(grid, p)
    ensures FlippedBy(before, Flip(grid, p), ps + [p])
  {
  }

  /** `p` comes before `q` when the grid is read row by row, left to right. */
  predicate RowMajorBefore(p: Pos, q: Pos)
  {
    p.row < q.row || (p.row == q.row && p.col < q.col)
  }

  predicate InRowMajorOrder(ps: seq<Pos>)
  {
    forall a, b :: 0 <= a < b < |ps| ==> RowMajorBefore(ps[a], ps[b])
  }

  /** A list in strict row-major order holds each of its positions once. */
  lemma {:induction false} OrderedListsAreSets(ps: seq<Pos>, q: Pos)
    requires InRowMajorOrder(ps)
    ensures multiset(ps)[q] == if q in ps then 1 else 0
    ensures Odd(multiset(ps)[q]) <==> q in ps
  {
    if ps != [] {
      OrderedListsAreSets(ps[1..], q);
      assert ps == [ps[0]] + ps[1..];
      assert ps[0] !in ps[1..] by {
        forall k | 0 <= k < |ps[1..]| ensures ps[1..][k] != ps[0] {
          assert RowMajorBefore(ps[0], ps[k + 1]);
        }
      }
    }
  }

  /**
   * Negating exactly the cells the next generation changes, each once,
   * yields the next generation: the collect-then-apply scheme of `next`.
   */
  lemma FlippingChangesSteps(before: Grid, after: Grid, changed: seq<Pos>)
    requires FlippedBy(before, after, changed)
    requires forall k :: 0 <= k < |changed| ==> Changes(before, changed[k])
    requires forall q :: Changes(before, q) ==> q in changed
    requires InRowMajorOrder(changed)
    ensures after == Step(before)
  {
    var next := Step(before);
    forall i | 0 <= i < |before| ensures after[i] == next[i] {
      forall j | 0 <= j < |before[i]| ensures after[i][j] == next[i][j] {
        var p := Pos(i, j);
        OrderedListsAreSets(changed, p);
        var flipped := Odd(multiset(changed)[p]);
        assert after[i][j] == (before[i][j] != flipped);
        assert next[i][j] == NextAlive(before, p);
        assert IsAlive(before, p) == before[i][j];
        assert p in changed <==> Changes(before, p) by {
          if p in changed {
            var k :| 0 <= k < |changed| && changed[k] == p;
            assert Changes(before, changed[k]);
          }
        }
      }
    }
  }

  /** The cells of one row of the configuration: alive exactly where the character is the alive symbol. */
  function RowFromString(s: string, alive: char): (row: seq<bool>)
    ensures |row| == |s|
    ensures forall k :: 0 <= k < |s| ==> (row[k] <==> s[k] == alive)
  {
    seq(|s|, k requires 0 <= k < |s| => s[k] == alive)
  }

  /** The grid described by the configuration's rows: same shape, alive exactly at the alive symbol. */
  function Cells(rows: seq<string>, alive: char): (grid: Grid)
    ensures |grid| == |rows|
    ensures forall i :: 0 <= i < |rows| ==> |grid[i]| == |rows[i]|
    ensures forall i, k :: 0 <= i < |rows| && 0 <= k < |rows[i]| ==> (grid[i][k] <==> rows[i][k] == alive)
  {
    seq(|rows|, i requires 0 <= i < |rows| => RowFromString(rows[i], alive))
  }

  /** One row as text: the alive symbol for each live cell, the dead symbol for each dead one. */
  function RowToString(row: seq<bool>, alive: char, dead: char): (s: string)
    ensures |s| == |row|
    ensures forall k :: 0 <= k < |row| ==> s[k] == if row[k] then alive else dead
  {
    seq(|row|, k requires 0 <= k < |row| => if row[k] then alive else dead)
  }

  function Lines(grid: Grid, alive: char, dead: char): seq<string>
  {
    seq(|grid|, i requires 0 <= i < |grid| => RowToString(grid[i], alive, dead))
  }

  /** The whole grid as text, rows joined by "\n". */
  function Render(grid: Grid, alive: char, dead: char): string
  {
    Join(Lines(grid, alive, dead), '\n')
  }

  /**
   * With symbols other than "\n", the rendering has exactly one line per
   * row (so |grid| - 1 line breaks and none after the last row), and line
   * `i` shows row `i` cell by cell.
   */
  lemma RenderLines(grid: Grid, alive: char, dead: char)
    requires alive != '\n' && dead != '\n'
    requires |grid| > 0
    ensures var lines := Split(Render(grid, alive, dead), '\n');
      && |lines| == |grid|
      && Count(Render(grid, alive, dead), '\n') == |grid| - 1
      && (forall i :: 0 <= i < |grid| ==> |lines[i]| == |grid[i]|)
      && (forall i, k :: 0 <= i < |grid| && 0 <= k < |grid[i]| ==> lines[i][k] == if grid[i][k] then alive else dead)
  {
    var lines := Lines(grid, alive, dead);
    forall i | 0 <= i < |lines| ensures '\n' !in lines[i] {
      assert forall k :: 0 <= k < |lines[i]| ==> lines[i][k] != '\n';
    }
    JoinSplit(lines, '\n');
  }

  /** Reading a rendered row back with the alive symbol gives the row, when the two symbols differ. */
  lemma RowDecodeEncode(row: seq<bool>, alive: char, dead: char)
    requires alive != dead
    ensures RowFromString(RowToString(row, alive, dead), alive) == row
  {
  }

  /** Rendering a row read from text gives the text back, when it holds only the two symbols. */
  lemma RowEncodeDecode(s: string, alive: char, dead: char)
    requires forall k :: 0 <= k < |s| ==> s[k] == alive || s[k] == dead
    ensures RowToString(RowFromString(s, alive), alive, dead) == s
  {
  }

  /** Rendering the grid built from the configuration's rows gives those rows back, joined by "\n". */
  lemma RenderCells(rows: seq<string>, alive: char, dead: char)
    requires forall i, k :: 0 <= i < |rows| && 0 <= k < |rows[i]| ==> rows[i][k] == alive || rows[i][k] == dead
    ensures Render(Cells(rows, alive), alive, dead) == Join(rows, '\n')
  {
    var lines := Lines(Cells(rows, alive), alive, dead);
    forall i | 0 <= i < |rows| ensures lines[i] == rows[i] {
      RowEncodeDecode(rows[i], alive, dead);
    }
    assert lines == rows;
  }

  /**
   * A parsed configuration whose rows use only the two symbols is rendered,
   * before any generation is computed, as exactly the input after its header line.
   */
  lemma ParseThenRender(contents: string)
    requires Parse(contents).Ok?
    requires var conf := Parse(contents).value;
      forall i, k :: 0 <= i < |conf.startingValue| && 0 <= k < |conf.startingValue[i]| ==>
        conf.startingValue[i][k] == conf.alive || conf.startingValue[i][k] == conf.dead
    requires '\n' in contents
    ensures var conf := Parse(contents).value;
      contents == Header(contents) + ['\n'] + Render(Cells(conf.startingValue, conf.alive), conf.alive, conf.dead)
  {
    var conf := Parse(contents).value;
    ParseRows(contents);
    RenderCells(conf.startingValue, conf.alive, conf.dead);
    var rows := conf.startingValue;
    assert |rows| >= 1 by { assert Count(contents, '\n') > 0; }
    assert ([Header(contents)] + rows)[1..] == rows;
  }

  /** The simulation: the grid of cells and the configuration it was built from. */
  class Game {
    var grid: Grid
    const conf: GameConf

    /** `Game::new`: one row of cells per configuration row, alive exactly at the alive symbol. */
    constructor (conf: GameConf)
      ensures this.conf == conf
      ensures grid == Cells(conf.startingValue, conf.alive)
    {
      var rows: Grid := [];
      for i := 0 to |conf.startingValue|
        invariant rows == Cells(conf.startingValue[..i], conf.alive)
      {
        rows := rows + [RowFromString(conf.startingValue[i], conf.alive)];
      }
      assert conf.startingValue[..|conf.startingValue|] == conf.startingValue;
      this.conf := conf;
      grid := rows;
    }

    /**
     * `calc_next_positions`: the cells the next generation changes, each
     * listed once, in row-major order, and no other cell.
     */
    method CalcNextPositions() returns (changed: seq<Pos>)
      ensures forall k :: 0 <= k < |changed| ==> Changes(grid, changed[k])
      ensures forall q :: Changes(grid, q) ==> q in changed
      ensures InRowMajorOrder(changed)
    {
      changed := [];
      for i := 0 to |grid|
        invariant forall k :: 0 <= k < |changed| ==> Changes(grid, changed[k]) && changed[k].row < i
        invariant forall q :: Changes(grid, q) && q.row < i ==> q in changed
        invariant InRowMajorOrder(changed)
      {
        for j := 0 to |grid[i]|
          invariant forall k :: 0 <= k < |changed| ==> Changes(grid, changed[k]) && RowMajorBefore(changed[k], Pos(i, j))
          invariant forall q :: Changes(grid, q) && RowMajorBefore(q, Pos(i, j)) ==> q in changed
          invariant InRowMajorOrder(changed)
        {
          var currAlive := grid[i][j];
          var nextAlive := NextAlive(grid, Pos(i, j));
          ghost var before := changed;
          if nextAlive != currAlive {
            changed := changed + [Pos(i, j)];
          }
          assert Changes(grid, Pos(i, j)) <==> nextAlive != currAlive;
          forall q | Changes(grid, q) && RowMajorBefore(q, Pos(i, j + 1)) ensures q in changed {
            if !RowMajorBefore(q, Pos(i, j)) {
              assert q == Pos(i, j);
            } else {
              assert q in before;
            }
          }
        }
      }
    }

    /**
     * `change_grid`: negates every listed cell, once per listing, and leaves
     * every other cell and the shape of the grid as they were.
     */
    method ChangeGrid(changed: seq<Pos>)
      requires forall k :: 0 <= k < |changed| ==> InBounds(grid, changed[k])
      modifies this
      ensures FlippedBy(old(grid), grid, changed)
    {
      for k := 0 to |changed|
        invariant FlippedBy(old(grid), grid, changed[..k])
      {
        var p := changed[k];
        assert changed[..k + 1] == changed[..k] + [p];
        FlipOneMore(old(grid), grid, changed[..k], p);
        grid := grid[p.row := grid[p.row][p.col := !grid[p.row][p.col]]];
      }
      assert changed[..|changed|] == changed;
    }

    /**
     * `next`: advances one generation. Every cell of the new grid is the
     * rule applied to the grid as it was before the step, so no cell sees
     * another cell's update from the same step.
     */
    method Next()
      modifies this
      ensures grid == Step(old(grid))
    {
      ghost var before := grid;
      var changed := CalcNextPositions();
      ChangeGrid(changed);
      FlippingChangesSteps(before, grid, changed);
    }
  }
}
