/**
 * Known patterns run through the model: a still life, an oscillator, and a
 * configuration text read and rendered back.
 */
module LifePatterns {
  import opened Strings
  import opened GameConfig
  import opened Life

  /** A 2x2 block of live cells in a 4x4 field. */
  const Block: Grid := [
    [false, false, false, false],
    [false, true,  true,  false],
    [false, true,  true,  false],
    [false, false, false, false]]

  /** A blinker lying horizontally in the middle of a 5x5 field. */
  const BlinkerH: Grid := [
    [false, false, false, false, false],
    [false, false, false, false, false],
    [false, true,  true,  true,  false],
    [false, false, false, false, false],
    [false, false, false, false, false]]

  /** The same blinker standing vertically. */
  const BlinkerV: Grid := [
    [false, false, false, false, false],
    [false, false, true,  false, false],
    [false, false, true,  false, false],
    [false, false, true,  false, false],
    [false, false, false, false, false]]

  lemma BlockCell(i: int, j: int)
    requires 0 <= i < 4 && 0 <= j < 4
    ensures NextAlive(Block, Pos(i, j)) == Block[i][j]
  {
    LiveNeighboursExpanded(Block, Pos(i, j));
    if i == 0 {
    } else if i == 1 {
    } else if i == 2 {
    } else {
    }
  }

  /** The block is a still life: the next generation is the same grid. */
  lemma BlockIsStillLife()
    ensures Step(Block) == Block
  {
    forall i, j | 0 <= i < 4 && 0 <= j < 4 ensures Step(Block)[i][j] == Block[i][j] {
      BlockCell(i, j);
    }
    assert forall i | 0 <= i < 4 :: Step(Block)[i] == Block[i];
  }

  lemma HorizontalCell(i: int, j: int)
    requires 0 <= i < 5 && 0 <= j < 5
    ensures NextAlive(BlinkerH, Pos(i, j)) == BlinkerV[i][j]
  {
    LiveNeighboursExpanded(BlinkerH, Pos(i, j));
    if i == 0 {
    } else if i == 1 {
    } else if i == 2 {
    } else if i == 3 {
    } else {
    }
  }

  lemma VerticalCell(i: int, j: int)
    requires 0 <= i < 5 && 0 <= j < 5
    ensures NextAlive(BlinkerV, Pos(i, j)) == BlinkerH[i][j]
  {
    LiveNeighboursExpanded(BlinkerV, Pos(i, j));
    if i == 0 {
    } else if i == 1 {
    } else if i == 2 {
    } else if i == 3 {
    } else {
    }
  }

  lemma HorizontalTurns()
    ensures Step(BlinkerH) == BlinkerV
  {
    var next := Step(BlinkerH);
    forall i, j | 0 <= i < 5 && 0 <= j < 5 ensures next[i][j] == BlinkerV[i][j] {
      HorizontalCell(i, j);
    }
    assert forall i | 0 <= i < 5 :: next[i] == BlinkerV[i];
  }

  lemma VerticalTurns()
    ensures Step(BlinkerV) == BlinkerH
  {
    var next := Step(BlinkerV);
    forall i, j | 0 <= i < 5 && 0 <= j < 5 ensures next[i][j] == BlinkerH[i][j] {
      VerticalCell(i, j);
    }
    assert forall i | 0 <= i < 5 :: next[i] == BlinkerH[i];
  }

  /** The blinker oscillates with period two: horizontal, vertical, horizontal. */
  lemma BlinkerOscillates()
    ensures Step(BlinkerH) == BlinkerV
    ensures Step(Step(BlinkerH)) == BlinkerH
  {
    HorizontalTurns();
    VerticalTurns();
  }

  /** A game running the blinker shows it vertical after one step and horizontal again after two. */
  method RunBlinker() returns (g: Game, afterOne: Grid)
    ensures afterOne == BlinkerV
    ensures g.grid == BlinkerH
  {
    var conf := GameConf('#', ' ', 200, ["     ", "     ", " ### ", "     ", "     "]);
    g := new Game(conf);
    assert g.grid == BlinkerH by {
      forall i | 0 <= i < 5 ensures g.grid[i] == BlinkerH[i] {
        assert |g.grid[i]| == 5;
      }
    }
    BlinkerOscillates();
    g.Next();
    afterOne := g.grid;
    g.Next();
  }

  /** The configuration text "X:.:100\nX.\n.X" and what it describes. */
  const ExampleText: string := "X:.:100\nX.\n.X"
  const ExampleConf: GameConf := GameConf('X', '.', 100, ["X.", ".X"])

  /** Reading the example gives alive 'X', dead '.', 100 ms and the rows "X." and ".X". */
  lemma ExampleParses()
    ensures Parse(ExampleText) == Ok(ExampleConf)
  {
    var header := ['X', ':', '.', ':'] + Decimal(100);
    assert Decimal(100) == "100" by {
      assert Decimal(1) == "1";
      assert Decimal(10) == "10";
    }
    assert header == "X:.:100";
    assert Join(["X.", ".X"], '\n') == "X.\n.X";
    assert Join([header, "X.", ".X"], '\n') == header + "\n" + "X.\n.X";
    assert Serialize(ExampleConf) == ExampleText;
    ParseSerialize(ExampleConf);
  }

  /** The grid built from the example has (0,0) and (1,1) alive and renders as "X.\n.X". */
  lemma ExampleRenders()
    ensures Cells(ExampleConf.startingValue, 'X') == [[true, false], [false, true]]
    ensures Render(Cells(ExampleConf.startingValue, 'X'), 'X', '.') == "X.\n.X"
  {
    var grid := Cells(ExampleConf.startingValue, 'X');
    assert grid[0] == [true, false];
    assert grid[1] == [false, true];
    RenderCells(ExampleConf.startingValue, 'X', '.');
    assert Join(["X.", ".X"], '\n') == "X.\n.X";
  }
}
