# Game of Life: engine and configuration parser

This project models the core of a terminal Game of Life written in Rust:

- the configuration parser (`GameConf::new`), which reads a header line
  `<alive>:<dead>:<millis>` followed by the grid's rows;
- the simulation engine (`Game`), which builds a grid of booleans from those
  rows, advances it one generation at a time by the B3/S23 rule, and renders
  it as text.

The model is split into four modules:

- `Strings` (`strings.dfy`) models `str::split` and `join` on a
  one-character separator. Its lemmas say that the two are inverse to each
  other.
- `GameConfig` (`game_conf.dfy`) holds the configuration record and
  `Parse`, the model of `GameConf::new`. It also models `str::parse::<u64>`
  as the checked digit loop the standard library runs. A lemma proves that
  loop equal to an independent decimal-value definition bounded by 2^64.
- `Life` (`game.dfy`) holds the engine. The pure `&self` helpers are
  functions of the grid: `is_alive`, `get_neighbors`, `is_next_alive`,
  `row_to_string` and `to_string`. The class `Game` holds the parts that
  change state step by step: the constructor, `CalcNextPositions`,
  `ChangeGrid` and `Next`. `Next` is proved to give the ghost function
  `Step` of the pre-step grid. `Step` applies the rule to every cell of the
  old grid, so no cell sees an update made in the same step.
- `LifePatterns` (`life_patterns.dfy`) runs known patterns through the model:
  the block still life, the period-2 blinker (also driven through a `Game`
  object), and the configuration `"X:.:100\nX.\n.X"` parsed and rendered back.

The model follows the code, including where it differs from what a reader might expect:

- The code has no error results for malformed configurations. An empty
  alive or dead field falls back to `'X'` or `' '`, and an unparsable
  interval falls back to 500.
- A header with fewer than two `':'` is not a reported error either: it
  makes the parser panic when it indexes the missing field. The model
  returns `Err(FieldIndexOutOfBounds(index, len))`: index 1 when the header
  has no `':'`, index 2 when it has one.
- The `expect` on the header line can never fire, because splitting always
  yields at least one piece. Its usage text also names the fields in the
  order `dead:alive`, while the code reads them as `alive:dead`.
- Ragged grids do not index out of bounds. The liveness lookup compares the
  column against that row's own length, so an out-of-range neighbour is dead.

## Model

| member | source | states |
|---|---|---|
| `Strings.Split` | src/game_conf.rs:10-16 | splitting gives one piece more than there are separators, so never zero pieces (the header `expect` cannot fire), and no piece contains the separator |
| `Strings.SplitJoin` | src/game_conf.rs:30-34 | joining the pieces of a split with the separator gives back the original text |
| `Strings.JoinSplit` | src/game.rs:134-140 | splitting a join of separator-free pieces gives back the pieces |
| `Strings.SplitAppend` | src/game_conf.rs:10-16 | a separator ends the last piece of the text before it: split(a + sep + b) = split(a) + split(b) |
| `Strings.SplitHead` | src/game_conf.rs:10-16 | the first piece is the text before the first separator; the remaining pieces are the split of the text after it |
| `GameConfig.AccumulateValue` | src/game_conf.rs:26 | the checked multiply-by-ten digit loop succeeds exactly when every character is a digit and the value stays below 2^64, and returns that value |
| `GameConfig.ParseU64Meaning` | src/game_conf.rs:26 | `parse::<u64>` succeeds exactly on an optional '+' followed by one or more digits with value below 2^64, and yields that value |
| `GameConfig.ParseFailsIff` | src/game_conf.rs:18-29 | parsing fails exactly when the header line has fewer than two ':'; the panic names index 1 when there is no ':' and index 2 when there is one (so empty input fails at index 1) |
| `GameConfig.ParseAlive` | src/game_conf.rs:18-21 | on success the alive symbol is the first character of the input, or 'X' when the input starts with ':' |
| `GameConfig.ParseDead` | src/game_conf.rs:22-25 | on success the dead symbol is the character after the first ':', or ' ' when that character is another ':' |
| `GameConfig.ParseMillis` | src/game_conf.rs:26-29 | on success the interval is the third header field's u64 value when it is a valid numeral, and exactly 500 otherwise (empty, non-digit, overflow) |
| `GameConfig.ParseRows` | src/game_conf.rs:30-34 | on success there is one row per "\n" of the input, no row contains "\n", and the header joined with the rows by "\n" is the input; rows are neither trimmed nor validated |
| `GameConfig.ParseIgnoresExtraFields` | src/game_conf.rs:10-29 | appending a fourth or later ':'-field to a valid header does not change the parse |
| `GameConfig.ParseSerialize` | src/game_conf.rs:9-41 | parsing the text `alive:dead:millis` followed by the rows gives back the same configuration, when neither symbol is ':' or "\n" and no row contains "\n" |
| `Life.IsAlive` | src/game.rs:111-123 | a position outside the grid (negative, row past the last row, or column past that row's own length) is dead; inside it the stored cell is returned |
| `Life.Neighbors` | src/game.rs:96-109 | exactly eight distinct positions, and a position is among them iff it is adjacent to the given one |
| `Life.CountAlive` | src/game.rs:87-91 | the number of live positions in a list is at most the length of the list |
| `Life.LiveNeighbours` | src/game.rs:86-91 | the live-neighbour count is between 0 and 8 |
| `Life.LiveNeighboursCountsAround` | src/game.rs:86-109 | the live-neighbour count equals the number of live cells at the eight offsets in {-1,0,1}x{-1,0,1} other than (0,0) |
| `Life.LiveNeighboursExpanded` | src/game.rs:87-108 | the live-neighbour count is the sum over the eight neighbour positions, in source order, of one for each live cell |
| `Life.CornerNeighbours` | src/game.rs:111-123 | the cell at (0,0) has at most three live neighbours, because positions off the grid never wrap around |
| `Life.NextAlive` | src/game.rs:84-94 | B3/S23: a live cell stays alive iff its live-neighbour count is in {2,3}; a dead cell becomes alive iff it is 3 |
| `Life.IsolatedCellDies` | src/game.rs:93 | a cell with no live neighbour is dead in the next generation |
| `Life.Step` | src/game.rs:56-94 | the next generation has the same number of rows and row lengths, and each cell is the rule applied to the given grid |
| `Life.OrderedListsAreSets` | src/game.rs:64-72 | a list in strict row-major order holds each position at most once |
| `Life.Flip` | src/game.rs:80 | negating one in-bounds cell changes that cell and no other, and keeps the shape |
| `Life.FlipOneMore` | src/game.rs:78-81 | negating one more listed cell keeps the rule that every cell is negated once for each time it is listed |
| `Life.FlippingChangesSteps` | src/game.rs:56-82 | negating exactly the cells the next generation changes, each listed once, yields the next generation of the old grid |
| `Life.Cells` | src/game.rs:32-35 | the grid has one row per configuration row, each as long as its string, and a cell is alive iff its character is the alive symbol |
| `Life.RowFromString` | src/game.rs:33 | a row has one cell per character, alive iff the character is the alive symbol |
| `Life.Game.constructor` | src/game.rs:26-38 | the new game keeps the configuration, and its grid is the cells of the configuration's rows |
| `Life.Game.CalcNextPositions` | src/game.rs:61-75 | lists only in-bounds cells whose next state differs from the current one, lists every such cell, and lists them in strict row-major order (so each once) |
| `Life.Game.ChangeGrid` | src/game.rs:77-82 | keeps the shape and negates each cell once for each time it is listed, leaving unlisted cells unchanged |
| `Life.Game.Next` | src/game.rs:56-59 | the new grid is the next generation of the pre-step grid: same shape, every cell by the rule applied to the old grid |
| `Life.RowToString` | src/game.rs:125-132 | a row renders as one character per cell: the alive symbol for a live cell, the dead symbol for a dead one |
| `Life.RenderLines` | src/game.rs:134-140 | with symbols other than "\n", a non-empty grid renders as one line per row, with one "\n" fewer than rows (none at the end); line i shows row i cell by cell |
| `Life.RowDecodeEncode` | src/game.rs:125-132 | reading a rendered row back with the alive symbol gives the row, when the alive and dead symbols differ |
| `Life.RowEncodeDecode` | src/game.rs:32-35 | rendering a row read from text gives the text back, when every character is the alive or the dead symbol |
| `Life.RenderCells` | src/game.rs:125-140 | rendering the grid built from the configuration's rows gives those rows joined by "\n", when they hold only the two symbols |
| `Life.ParseThenRender` | src/game_conf.rs:30-34 | a parsed configuration whose rows use only the two symbols renders, before any step, as exactly the input after its header line |
| `LifePatterns.BlockIsStillLife` | src/game.rs:56-94 | a 2x2 block in a 4x4 field is unchanged by a step |
| `LifePatterns.BlinkerOscillates` | src/game.rs:56-94 | a horizontal blinker in a 5x5 field turns vertical after one step and horizontal again after two |
| `LifePatterns.RunBlinker` | src/game.rs:26-82 | a `Game` built from the text rows of a blinker shows it vertical after one `Next` and horizontal after two |
| `LifePatterns.ExampleParses` | src/game_conf.rs:9-41 | "X:.:100\nX.\n.X" parses to alive 'X', dead '.', 100 ms and rows "X.", ".X" |
| `LifePatterns.ExampleRenders` | src/game.rs:125-140 | the grid built from that configuration has (0,0) and (1,1) alive and renders as "X.\n.X" |

## Left out

- `Game::start` (src/game.rs:40-50) is left out. It is an endless loop of sleeping, stepping and printing, driven by the wall clock and the terminal, with no result to state.
- `Game::clear_terminal` (src/game.rs:52-54) is left out. It only prints an ANSI escape sequence.
- `src/main.rs` is left out. It reads the file `game.txt` and hands its text to the parser; file I/O is not part of this model.
- The `usize`/`isize` casts of positions (src/game.rs:14-22, src/game.rs:79) are not modelled: coordinates are unbounded integers. Row and column counts beyond `isize::MAX` are not modelled.
- Rust `char` iteration over UTF-8 is modelled as sequences of characters. `u64::from_str`'s error kinds (empty, invalid digit, overflow) are collapsed into one failure, since the parser maps them all to 500.
- The parser's panic is modelled as an `Err` result rather than as process termination.
- The `&self` helpers `is_alive`, `get_neighbors`, `is_next_alive`, `row_to_string` and `to_string` are functions taking the grid and the symbols as arguments, not members of `Game`. They read nothing else of the object.
- Life.Game.ChangeGrid: requires every listed position to be inside the grid. Its only caller passes such positions, and the Rust code would panic on any other.
- Life.RenderLines: covers non-empty grids with symbols other than "\n". An empty grid renders as the empty string, which splits into one empty line.
