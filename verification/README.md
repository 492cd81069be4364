# Boston bingo card — a Dafny model

This project models the logic of the "Boston Bingo" component of a small
trip-planning web page. The component shows a 5 × 6 card of trip tasks.
A click marks a task completed, or unmarks it. Every fully completed row or
column is highlighted. The first time a line is completed, a confetti
celebration is shown. Four pieces of logic are modelled as pure Dafny
functions over immutable sequences:

- `BingoGrid` (`grid.dfy`) is the card builder `generateBingoGrid`. It lays
  the static task list out row-major into 5 rows of 6 cells. Cells past the
  end of the list stay empty.
- `BingoCheck` (`check.dfy`) is the win detector `checkBingo`. It returns the
  ids of every winning row, top to bottom, then of every winning column, left
  to right, or `null` (`None`) when no line wins. The source reads `task.id`
  on every scanned cell. So an empty cell reached while scanning makes it
  throw; it is not skipped. The model returns `Err(IdOfEmptyCell)` in that
  case, and `Err(MissingFirstRow)` for a grid without rows.
- `Completion` (`completion.dfy`) is the click handler `handleTaskClick`.
  It appends an absent id to the completed list and removes every
  occurrence of a present one. `isTaskCompleted` is also here.
- `Keys` (`keys.dfy`) holds the line key `bingo.join('-')`. Its partner
  `Split` proves that keys tell lines apart when no id contains `'-'`.
- `BingoEffect` (`effect.dfy`) models the effect that runs after every change
  of the completed list, as a pure step over the record
  `State(completed, bingos, achieved, confetti)`. `isTaskInBingo` is here,
  with the mount, a click and a run of clicks.
- `Wrappers` (`wrappers.dfy`) holds `Option` (for `null`) and `Result`
  (for a throw).

The static task list is a parameter `tasks: seq<Task>` of every operation
that needs the card. The `utils/tasks` module that defines it is not part of
this model.

## Model

| member | source | states |
|---|---|---|
| BingoGrid.FillRow | src/components/BostonBingo.js:13-17 | One row of 6 cells takes the tasks at the front of the list while any remain; cell c holds the c-th remaining task, else it is empty |
| BingoGrid.FillRows | src/components/BostonBingo.js:12-18 | Rows filled one after the other, each starting where the previous stopped: cell (r, c) holds task 6r + c when the list is that long, else it is empty |
| BingoGrid.GenerateBingoGrid | src/components/BostonBingo.js:8-20 | The card has 5 rows of 6 cells, and cell (r, c) holds `tasks[6r + c]` when 6r + c is below the list's length and is empty otherwise |
| BingoGrid.CardIgnoresTasksPastCapacity | src/components/BostonBingo.js:12-18 | Tasks past index 29 never reach the card: the card of the list equals the card of its first 30 tasks |
| BingoGrid.FullCardIffEnoughTasks | src/components/BostonBingo.js:9-18 | The card has no empty cell exactly when the list holds at least 30 tasks |
| BingoGrid.FullWhenEnough | src/components/BostonBingo.js:14-15 | With 30 tasks or more every cell holds a task |
| BingoGrid.EmptyCornerWhenShort | src/components/BostonBingo.js:9-16 | With fewer than 30 tasks the bottom-right cell stays empty |
| BingoGrid.EmptyCellsTrail | src/components/BostonBingo.js:12-18 | Once a cell is empty, every later cell in row-major order is empty |
| BingoCheck.Every | src/components/BostonBingo.js:29 | A line's `every` test answers true exactly when every cell holds a completed task; it throws exactly when the first cell that is not a completed task is empty; otherwise it answers false |
| BingoCheck.Column | src/components/BostonBingo.js:36-39 | Its contract states only that column c has one cell per row; the body is the definition: cell r is row r's cell c, or a missing cell when row r is too short |
| BingoCheck.Columns | src/components/BostonBingo.js:24-39 | The scan visits as many columns as the first row has cells; on the 5 × 6 card the columns are its transpose: 6 columns of 5 cells, cell r of column c being cell (r, c) of the card, so no missing cell is ever read |
| BingoCheck.Ids | src/components/BostonBingo.js:30 | `map(task => task.id)` of a line with no empty cell: one id per cell, the id of cell i at position i |
| BingoCheck.ScanLines | src/components/BostonBingo.js:28-32 | A loop over lines throws exactly when one of its lines throws |
| BingoCheck.CheckBingo | src/components/BostonBingo.js:22-46 | Throws exactly when the grid has no row or some row or column throws; a grid without rows gives `MissingFirstRow`; a non-null answer is non-empty |
| BingoCheck.WinningIndices | src/components/BostonBingo.js:28-43 | Reference answer: the indices of exactly the winning lines, each once, in ascending order |
| BingoCheck.ScanLinesReportsWinners | src/components/BostonBingo.js:28-32 | A loop that does not throw lists the ids of exactly the winning lines, in scan order |
| BingoCheck.CheckBingoReportsWinningLines | src/components/BostonBingo.js:25-45 | A returning scan yields the winning rows' ids top to bottom, then the winning columns' ids left to right, or `null` when there are none |
| BingoCheck.NullIffNoLineWins | src/components/BostonBingo.js:45 | The answer is `null` exactly when no row and no column has all its tasks completed |
| BingoCheck.ReportedLinesAreTheWinners | src/components/BostonBingo.js:28-43 | Every winning row and column is reported, with its ids in reading order, and every reported line is such a line |
| BingoCheck.FullCardNeverThrows | src/components/BostonBingo.js:22-46 | On the card of 30 or more tasks the scan never throws, whatever is completed |
| BingoCheck.NothingCompleted | src/components/BostonBingo.js:22-46 | With nothing completed the answer is `null` when the list has 25 tasks or more, and a throw otherwise, because the fifth row then starts with an empty cell |
| BingoCheck.RowStartingEmptyThrows | src/components/BostonBingo.js:28-29 | A row whose first cell is empty makes the whole scan throw |
| BingoCheck.NothingCompletedOnFilledEdges | src/components/BostonBingo.js:25-45 | With nothing completed, a grid whose first row and first column hold tasks yields `null` |
| BingoCheck.OnlyFirstRowCompleted | src/components/BostonBingo.js:28-43 | On a card with distinct ids and exactly the first row's ids completed, no other row and no column wins |
| BingoCheck.CompletingFirstRowWinsIt | src/components/BostonBingo.js:22-46 | On a full card with distinct ids, completing exactly the first row's ids yields that one row as the answer |
| BingoCheck.FirstRowAlone | src/components/BostonBingo.js:25-45 | When only the first row wins on a full grid, the answer is that row alone |
| Keys.Join | src/components/BostonBingo.js:69 | `join` yields the empty string for no parts; otherwise the parts' total length plus one separator between each pair of neighbours, starting with the first part |
| Keys.Key | src/components/BostonBingo.js:69 | A non-empty line of ids free of `'-'` is recovered by splitting its key at `'-'` |
| Keys.SplitJoin | src/components/BostonBingo.js:69 | Splitting a key at `'-'` recovers the line, when the line is non-empty and no id contains `'-'` |
| Keys.KeyInjective | src/components/BostonBingo.js:69-70 | Two non-empty lines of `'-'`-free ids have the same key exactly when they are the same line |
| Keys.KeysCollideWhenIdsHoldSeparator | src/components/BostonBingo.js:69-70 | Two different lines whose ids contain `'-'` can share one key |
| Completion.IsTaskCompleted | src/components/BostonBingo.js:97 | Defined as membership of the id in the completed list; `Completion.Toggle` states how a click changes it |
| Completion.RemoveAll | src/components/BostonBingo.js:91 | The filter drops every occurrence of the id and keeps the count of every other id |
| Completion.RemoveAllDistributes | src/components/BostonBingo.js:91 | The filter keeps the order of what remains: it works piece by piece |
| Completion.RemoveAbsent | src/components/BostonBingo.js:91 | Filtering out an id that is not listed changes nothing |
| Completion.Toggle | src/components/BostonBingo.js:89-95 | The clicked id's membership flips and no other id's membership changes; an absent id is appended at the end; a present id loses all its occurrences and nothing else |
| Completion.ToggleTwiceRestores | src/components/BostonBingo.js:89-95 | Clicking an uncompleted task twice restores the completed list exactly |
| Completion.ToggleTwicePresent | src/components/BostonBingo.js:89-95 | Clicking a completed task twice restores every id's membership, but the id moves to the end and its duplicates collapse into one |
| BingoEffect.RecordKeys | src/components/BostonBingo.js:66-74 | The old keys stay a prefix; every appended key was not recorded before and is appended once; the new-bingo flag is set exactly when something was appended |
| BingoEffect.RecordKeysCoversLines | src/components/BostonBingo.js:68-74 | After the loop the key of every winning line is recorded |
| BingoEffect.RecordKeysOnlyLines | src/components/BostonBingo.js:68-74 | Every appended key is the key of one of the winning lines |
| BingoEffect.Apply | src/components/BostonBingo.js:64-82 | The highlight becomes the wins, or `[]` for `null`. The achieved list only grows, by keys of current wins that were not recorded, each once. Confetti is raised iff some win's key was new, and otherwise the list and the flag are unchanged |
| BingoEffect.Step | src/components/BostonBingo.js:60-83 | The effect throws exactly when the scan of the card throws, never on a full card; otherwise the highlight is the winning rows followed by the winning columns |
| BingoEffect.Mount | src/components/BostonBingo.js:49-83 | The first render throws exactly when the list has fewer than 30 tasks, because it reads the id of every cell (lines 123 and 143); otherwise, after the first effect, the saved lists are kept, the saved ledger is a prefix of the new one, and confetti shows iff some current win was not in the saved ledger |
| BingoEffect.Click | src/components/BostonBingo.js:89-95 | After a click and its effect the clicked task's completion is flipped and the achieved list has only grown |
| BingoEffect.FullCardSessionNeverThrows | src/components/BostonBingo.js:60-95 | On a card of 30 or more tasks every click and its effect complete, so any session of clicks runs to the end |
| BingoEffect.RunKeepsAchieved | src/components/BostonBingo.js:66-76 | Over any run of clicks the achieved list only grows; keys are never removed when lines are unchecked |
| BingoEffect.RecordedLinesNeverRetrigger | src/components/BostonBingo.js:68-79 | After any run of clicks, a click whose wins were all recorded before the run leaves the confetti flag and the achieved list as they were |
| BingoEffect.RecordedWinsAreNotNew | src/components/BostonBingo.js:68-70 | A win recorded in an earlier ledger is found by `includes` in every ledger that extends it, so it is not new |
| BingoEffect.ClickWithoutNewWin | src/components/BostonBingo.js:66-79 | A click whose wins are all in the ledger appends nothing and leaves the confetti flag as it was |
| BingoEffect.NoWinClearsHighlight | src/components/BostonBingo.js:80-82 | When no line wins the highlight is emptied and the achieved list and the confetti flag stay unchanged |
| BingoEffect.IsTaskInBingo | src/components/BostonBingo.js:98 | Defined as: some highlighted line contains the id; the three lemmas below state what it means after the effect |
| BingoEffect.HighlightedIsOnWinningLine | src/components/BostonBingo.js:98 | An id on a reported line belongs to a completed cell of a winning row or column |
| BingoEffect.WinningLineIsHighlighted | src/components/BostonBingo.js:98 | The id of a completed cell of a winning row or column is on a reported line |
| BingoEffect.HighlightedIffOnWinningLine | src/components/BostonBingo.js:98 | After the effect, `isTaskInBingo(id)` holds iff some cell of the card holding `id` lies on a winning row or column |

## Left out

- Reading and writing `localStorage` and the `JSON.parse` / `JSON.stringify`
  calls (src/components/BostonBingo.js:50-51, 55-56, 61, 86). They are a
  browser key-value store. `Mount` takes the saved lists as parameters. Note
  that a malformed saved value would make `JSON.parse` throw; it does not
  fall back to an empty list.
- The five-second `setTimeout` that clears the confetti flag
  (src/components/BostonBingo.js:78). This is timer scheduling; only the
  raising of the flag is modelled, so a flag raised earlier stays raised in
  the model.
- React's state hooks and effect scheduling. The model assumes what React
  does here: one click, then one run of the effect with the state of the
  new render. Because of that, `handleTaskClick`'s membership test on the
  rendered list and its update of `prev` see the same list in the model.
- All rendering: the desktop and mobile layouts, `Tooltip`, `Confetti`,
  `useWindowSize` and the column headers (src/components/BostonBingo.js:100-158).
  One consequence of rendering is kept: both layouts read `task.id` of every
  cell (src/components/BostonBingo.js:123, 143), so with fewer than 30 tasks
  the first render throws before any effect runs. `Mount` returns
  `Err(IdOfEmptyCell)` in that case. Nothing else of the render is modelled.
- The second effect that persists the achieved list (src/components/BostonBingo.js:85-87): storage only.
- The map component (src/components/InteractiveMap.js). It is a wrapper over
  third-party map widgets with no logic of its own, and the page does not
  render it (src/App.js:10).
- The contents of the task list (`utils/tasks`). It is not part of this
  model; every operation takes the list as a parameter.
- React's error handling after a throw is not modelled: the session ends
  at the first error. In the component only the render can throw (when the
  card has an empty cell, before any effect). `Step`, `Click` and `Run`
  still return the scan's error when called on such a card on their own;
  after a `Mount` that returned, the card is full and they never throw
  (`FullCardSessionNeverThrows`).
