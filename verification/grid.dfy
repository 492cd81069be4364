/** The bingo card: a fixed 5 x 6 grid filled row-major from the static task
    list (`generateBingoGrid`). Cells past the end of the list stay empty. */
module BingoGrid {
  import opened Wrappers

  /** One trip activity of the static task list. */
  datatype Task = Task(id: string, text: string)

  /** A grid cell holds a task or is empty (`null`). */
  type Cell = Option<Task>

  /** A grid is a sequence of rows of cells. */
  type Grid = seq<seq<Cell>>

  const Rows: nat := 5
  const Cols: nat := 6

  /** The cell the row-major layout assigns to row `r`, column `c`: the task at
      index 6r + c when the list is that long, otherwise nothing. */
  function Slot(tasks: seq<Task>, r: nat, c: nat): Cell
  {
    if Cols * r + c < |tasks| then Some(tasks[Cols * r + c]) else None
  }

  /** True iff `g` has the card's shape: 5 rows of 6 cells. */
  predicate IsCard(g: Grid)
  {
    |g| == Rows && forall r | 0 <= r < |g| :: |g[r]| == Cols
  }

  /** True iff no cell of `g` is empty. */
  predicate IsFull(g: Grid)
  {
    forall r, c | 0 <= r < |g| && 0 <= c < |g[r]| :: g[r][c].Some?
  }

  /** Fills one row of `width` cells, taking tasks from the front of the list
      while any remain (the inner loop of the builder). */
  function FillRow(tasks: seq<Task>, width: nat): (row: seq<Cell>)
    ensures |row| == width
    ensures forall c | 0 <= c < width ::
      row[c] == (if c < |tasks| then Some(tasks[c]) else None)
  {
    if width == 0 then []
    else if |tasks| == 0 then [None] + FillRow(tasks, width - 1)
    else [Some(tasks[0])] + FillRow(tasks[1..], width - 1)
  }

  /** Fills `height` rows of 6 cells; each row consumes the tasks it placed,
      so the next row starts where the previous one stopped. */
  function FillRows(tasks: seq<Task>, height: nat): (g: Grid)
    ensures |g| == height
    ensures forall r | 0 <= r < height :: |g[r]| == Cols
    ensures forall r, c | 0 <= r < height && 0 <= c < Cols :: g[r][c] == Slot(tasks, r, c)
    decreases height
  {
    if height == 0 then []
    else
      var rest := if |tasks| <= Cols then [] else tasks[Cols..];
      var below := FillRows(rest, height - 1);
      assert forall r, c | 1 <= r < height && 0 <= c < Cols :: below[r - 1][c] == Slot(tasks, r, c) by {
        forall r, c | 1 <= r < height && 0 <= c < Cols ensures below[r - 1][c] == Slot(tasks, r, c) {
          SlotBelow(tasks, rest, r, c);
        }
      }
      [FillRow(tasks, Cols)] + below
  }

  /** Dropping the first row's tasks moves every later slot up one row. */
  lemma SlotBelow(tasks: seq<Task>, rest: seq<Task>, r: nat, c: nat)
    requires rest == if |tasks| <= Cols then [] else tasks[Cols..]
    requires 1 <= r && c < Cols
    ensures Slot(rest, r - 1, c) == Slot(tasks, r, c)
  {
  }

  /** `generateBingoGrid`: the card laid out from the task list. Every cell
      holds the task the row-major layout assigns to it, or is empty. */
  function GenerateBingoGrid(tasks: seq<Task>): (g: Grid)
    ensures IsCard(g)
    ensures forall r, c | 0 <= r < Rows && 0 <= c < Cols :: g[r][c] == Slot(tasks, r, c)
  {
    FillRows(tasks, Rows)
  }

  /** Only the first 30 tasks influence the card: any task past index 29
      never appears. */
  lemma CardIgnoresTasksPastCapacity(tasks: seq<Task>)
    requires |tasks| > Rows * Cols
    ensures GenerateBingoGrid(tasks) == GenerateBingoGrid(tasks[..Rows * Cols])
  {
    SameLayout(tasks, GenerateBingoGrid(tasks), GenerateBingoGrid(tasks[..Rows * Cols]));
  }

  /** Two cards laid out from the list and from its first 30 tasks agree
      cell by cell, hence are equal. */
  lemma SameLayout(tasks: seq<Task>, g: Grid, h: Grid)
    requires |tasks| > Rows * Cols && IsCard(g) && IsCard(h)
    requires forall r, c | 0 <= r < Rows && 0 <= c < Cols :: g[r][c] == Slot(tasks, r, c)
    requires forall r, c | 0 <= r < Rows && 0 <= c < Cols :: h[r][c] == Slot(tasks[..Rows * Cols], r, c)
    ensures g == h
  {
    forall r | 0 <= r < Rows
      ensures g[r] == h[r]
    {
      forall c | 0 <= c < Cols
        ensures g[r][c] == h[r][c]
      {
        SlotWithinCapacity(tasks, r, c);
      }
    }
  }

  /** A slot of the card reads the same task from the list and from its
      first 30 entries. */
  lemma SlotWithinCapacity(tasks: seq<Task>, r: nat, c: nat)
    requires |tasks| > Rows * Cols && r < Rows && c < Cols
    ensures Slot(tasks, r, c) == Slot(tasks[..Rows * Cols], r, c)
  {
  }

  /** The card has no empty cell exactly when the list holds at least 30
      tasks. */
  lemma FullCardIffEnoughTasks(tasks: seq<Task>)
    ensures IsFull(GenerateBingoGrid(tasks)) <==> |tasks| >= Rows * Cols
  {
    if |tasks| >= Rows * Cols {
      FullWhenEnough(tasks);
    } else {
      EmptyCornerWhenShort(tasks);
    }
  }

  /** With 30 tasks or more every cell of the card holds a task. */
  lemma FullWhenEnough(tasks: seq<Task>)
    requires |tasks| >= Rows * Cols
    ensures IsFull(GenerateBingoGrid(tasks))
  {
    var g := GenerateBingoGrid(tasks);
    forall r: nat, c: nat | r < Rows && c < Cols
      ensures g[r][c] == Slot(tasks, r, c) == Some(tasks[Cols * r + c])
    {
    }
  }

  /** With fewer than 30 tasks the bottom-right cell is empty. */
  lemma EmptyCornerWhenShort(tasks: seq<Task>)
    requires |tasks| < Rows * Cols
    ensures GenerateBingoGrid(tasks)[Rows - 1][Cols - 1].None?
  {
    assert GenerateBingoGrid(tasks)[Rows - 1][Cols - 1] == Slot(tasks, Rows - 1, Cols - 1);
  }

  /** Empty cells only trail: once a cell is empty, every cell after it in
      row-major order is empty too. */
  lemma EmptyCellsTrail(tasks: seq<Task>, r: nat, c: nat, r': nat, c': nat)
    requires r < Rows && c < Cols && r' < Rows && c' < Cols
    requires Cols * r + c <= Cols * r' + c'
    requires GenerateBingoGrid(tasks)[r][c].None?
    ensures GenerateBingoGrid(tasks)[r'][c'].None?
  {
  }
}
