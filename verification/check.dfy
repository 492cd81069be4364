/** The win detector (`checkBingo`): scans every row, then every column, and
    reports the ids of each line whose tasks are all completed, or `null` when
    no line wins. Reading the id of an empty cell throws, as in the source. */
module BingoCheck {
  import opened Wrappers
  import opened BingoGrid

  /** The ways the scan can throw: `bingoGrid[0].length` on a grid without
      rows, or `task.id` on an empty cell. */
  datatype Error = MissingFirstRow | IdOfEmptyCell

  /** A winning line: the ids of its tasks in scan order. */
  type Line = seq<string>

  /** True iff `cell` holds a task whose id is in the completed list. */
  predicate Done(completed: seq<string>, cell: Cell)
  {
    cell.Some? && cell.value.id in completed
  }

  /** True iff every cell of the line holds a completed task. */
  predicate LineWins(completed: seq<string>, cells: seq<Cell>)
  {
    forall i | 0 <= i < |cells| :: Done(completed, cells[i])
  }

  /** Where a left-to-right scan of the line stops: the index of the first
      cell that does not hold a completed task, or the line's length. */
  function Stop(completed: seq<string>, cells: seq<Cell>): (k: nat)
    ensures k <= |cells|
    ensures forall j | 0 <= j < k :: Done(completed, cells[j])
    ensures k < |cells| ==> !Done(completed, cells[k])
  {
    if |cells| == 0 || !Done(completed, cells[0]) then 0
    else 1 + Stop(completed, cells[1..])
  }

  /** True iff scanning the line stops at an empty cell, so that reading its
      id throws. */
  predicate LineThrows(completed: seq<string>, cells: seq<Cell>)
  {
    Stop(completed, cells) < |cells| && cells[Stop(completed, cells)].None?
  }

  /** `cells.every(task => completed.includes(task.id))`: stops at the first
      task that is not completed, and throws on an empty cell reached before. */
  function Every(completed: seq<string>, cells: seq<Cell>): (r: Result<bool, Error>)
    ensures r == Ok(true) <==> LineWins(completed, cells)
    ensures r.Err? <==> LineThrows(completed, cells)
    ensures r.Err? ==> r.error == IdOfEmptyCell
  {
    if |cells| == 0 then Ok(true)
    else if cells[0].None? then Err(IdOfEmptyCell)
    else if cells[0].value.id in completed then
      assert LineWins(completed, cells[1..]) ==> LineWins(completed, cells) by {
        if LineWins(completed, cells[1..]) {
          forall i | 0 <= i < |cells| ensures Done(completed, cells[i]) {
            if i > 0 { assert cells[i] == cells[1..][i - 1]; }
          }
        }
      }
      Every(completed, cells[1..])
    else Ok(false)
  }

  /** True iff no cell of the line is empty. */
  predicate Filled(cells: seq<Cell>)
  {
    forall i | 0 <= i < |cells| :: cells[i].Some?
  }

  /** `cells.map(task => task.id)` on a line whose cells all hold tasks. */
  function Ids(cells: seq<Cell>): (ids: Line)
    requires Filled(cells)
    ensures |ids| == |cells|
    ensures forall i | 0 <= i < |cells| :: ids[i] == cells[i].value.id
  {
    if |cells| == 0 then [] else [cells[0].value.id] + Ids(cells[1..])
  }

  /** Column `c` read top to bottom. A row too short to have column `c` yields
      `undefined`, which throws on `.id` exactly like an empty cell. */
  function Column(g: Grid, c: nat): (col: seq<Cell>)
    ensures |col| == |g|
  {
    seq(|g|, r requires 0 <= r < |g| => if c < |g[r]| then g[r][c] else None)
  }

  /** The columns the scan visits: as many as the first row has cells. On the
      card they are its transpose: each of the 6 columns reads the 5 rows top
      to bottom and never meets a missing cell. */
  function Columns(g: Grid): (cols: seq<seq<Cell>>)
    requires |g| > 0
    ensures |cols| == |g[0]|
    ensures forall c | 0 <= c < |cols| :: cols[c] == Column(g, c)
    ensures IsCard(g) ==> |cols| == Cols && forall c, r | 0 <= c < Cols && 0 <= r < Rows ::
      |cols[c]| == Rows && cols[c][r] == g[r][c]
  {
    seq(|g[0]|, c requires 0 <= c < |g[0]| => Column(g, c))
  }

  /** One loop of the scan: tests each line from index `from` on, in order,
      collecting the ids of the winning ones; throws if any line throws. */
  function ScanLines(completed: seq<string>, lines: seq<seq<Cell>>, from: nat): (r: Result<seq<Line>, Error>)
    requires from <= |lines|
    ensures r.Err? <==> exists i | from <= i < |lines| :: LineThrows(completed, lines[i])
    ensures r.Err? ==> r.error == IdOfEmptyCell
    decreases |lines| - from
  {
    if from == |lines| then Ok([])
    else
      var head := Every(completed, lines[from]);
      var rest := ScanLines(completed, lines, from + 1);
      if head.Err? then Err(head.error)
      else if rest.Err? then Err(rest.error)
      else if head.value then Ok([Ids(lines[from])] + rest.value)
      else rest
  }

  /** `checkBingo(completedTasks, bingoGrid)`: winning rows top to bottom,
      then winning columns left to right; `None` (the source's `null`) when
      no line wins. It throws when the grid has no row or when the scan
      reaches an empty cell. */
  function CheckBingo(completed: seq<string>, g: Grid): (r: Result<Option<seq<Line>>, Error>)
    ensures r.Err? <==>
      |g| == 0
      || (exists row | 0 <= row < |g| :: LineThrows(completed, g[row]))
      || (exists c | 0 <= c < |g[0]| :: LineThrows(completed, Column(g, c)))
    ensures r == Err(MissingFirstRow) <==> |g| == 0
    ensures r.Ok? && r.value.Some? ==> |r.value.value| > 0
  {
    if |g| == 0 then Err(MissingFirstRow)
    else
      var rows := ScanLines(completed, g, 0);
      if rows.Err? then Err(rows.error)
      else
        var cols := ScanLines(completed, Columns(g), 0);
        assert cols.Err? <==> exists c | 0 <= c < |g[0]| :: LineThrows(completed, Column(g, c)) by {
          if cols.Err? {
            var c :| 0 <= c < |Columns(g)| && LineThrows(completed, Columns(g)[c]);
          }
          if exists c | 0 <= c < |g[0]| :: LineThrows(completed, Column(g, c)) {
            var c :| 0 <= c < |g[0]| && LineThrows(completed, Column(g, c));
            assert LineThrows(completed, Columns(g)[c]);
          }
        }
        if cols.Err? then Err(cols.error)
        else if |rows.value + cols.value| > 0 then Ok(Some(rows.value + cols.value))
        else Ok(None)
  }

  // Reference definition of the answer and its proof

  /** The indices of the winning lines at `from` or later, in ascending
      order: exactly the winning ones, each once. */
  function WinningIndices(completed: seq<string>, lines: seq<seq<Cell>>, from: nat): (idx: seq<nat>)
    requires from <= |lines|
    ensures forall k | 0 <= k < |idx| :: from <= idx[k] < |lines| && LineWins(completed, lines[idx[k]])
    ensures forall k, k' | 0 <= k < k' < |idx| :: idx[k] < idx[k']
    ensures forall i | from <= i < |lines| && LineWins(completed, lines[i]) :: i in idx
    decreases |lines| - from
  {
    if from == |lines| then []
    else if LineWins(completed, lines[from]) then [from] + WinningIndices(completed, lines, from + 1)
    else WinningIndices(completed, lines, from + 1)
  }

  /** The ids of the lines at the given indices, in the order of the indices. */
  function IdsAt(lines: seq<seq<Cell>>, idx: seq<nat>): (r: seq<Line>)
    requires forall k | 0 <= k < |idx| :: idx[k] < |lines| && Filled(lines[idx[k]])
    ensures |r| == |idx|
    ensures forall k | 0 <= k < |idx| :: r[k] == Ids(lines[idx[k]])
  {
    if |idx| == 0 then [] else [Ids(lines[idx[0]])] + IdsAt(lines, idx[1..])
  }

  /** What the scan should report: the ids of every winning row, top to
      bottom, followed by the ids of every winning column, left to right. */
  function WinningLines(completed: seq<string>, g: Grid): seq<Line>
    requires |g| > 0
  {
    IdsAt(g, WinningIndices(completed, g, 0))
      + IdsAt(Columns(g), WinningIndices(completed, Columns(g), 0))
  }

  /** A scan that does not throw reports exactly the winning lines, in order. */
  lemma {:induction false} ScanLinesReportsWinners(completed: seq<string>, lines: seq<seq<Cell>>, from: nat)
    requires from <= |lines|
    requires ScanLines(completed, lines, from).Ok?
    ensures ScanLines(completed, lines, from).value == IdsAt(lines, WinningIndices(completed, lines, from))
    decreases |lines| - from
  {
    if from < |lines| {
      var head := Every(completed, lines[from]);
      var rest := ScanLines(completed, lines, from + 1);
      assert head.Ok? && rest.Ok?;
      ScanLinesReportsWinners(completed, lines, from + 1);
      var tail := WinningIndices(completed, lines, from + 1);
      if head.value {
        assert LineWins(completed, lines[from]);
        IdsAtCons(lines, from, tail);
      } else {
        assert !LineWins(completed, lines[from]);
      }
    }
  }

  /** Listing one more index in front lists its line's ids in front. */
  lemma IdsAtCons(lines: seq<seq<Cell>>, i: nat, idx: seq<nat>)
    requires i < |lines| && Filled(lines[i])
    requires forall k | 0 <= k < |idx| :: idx[k] < |lines| && Filled(lines[idx[k]])
    ensures IdsAt(lines, [i] + idx) == [Ids(lines[i])] + IdsAt(lines, idx)
  {
    assert ([i] + idx)[1..] == idx;
  }

  /** When `checkBingo` returns, it returns the winning rows then the winning
      columns, or `None` when there are none. */
  lemma CheckBingoReportsWinningLines(completed: seq<string>, g: Grid)
    requires CheckBingo(completed, g).Ok?
    ensures |g| > 0
    ensures CheckBingo(completed, g).value
      == (if |WinningLines(completed, g)| > 0 then Some(WinningLines(completed, g)) else None)
  {
    ScanLinesReportsWinners(completed, g, 0);
    ScanLinesReportsWinners(completed, Columns(g), 0);
  }

  /** `checkBingo` returns `null` exactly when no row and no column wins. */
  lemma NullIffNoLineWins(completed: seq<string>, g: Grid)
    requires CheckBingo(completed, g).Ok?
    ensures |g| > 0
    ensures CheckBingo(completed, g).value.None? <==>
      (forall r | 0 <= r < |g| :: !LineWins(completed, g[r]))
      && (forall c | 0 <= c < |g[0]| :: !LineWins(completed, Column(g, c)))
  {
    CheckBingoReportsWinningLines(completed, g);
    var cols := Columns(g);
    if exists c | 0 <= c < |g[0]| :: LineWins(completed, Column(g, c)) {
      var c :| 0 <= c < |g[0]| && LineWins(completed, Column(g, c));
      assert LineWins(completed, cols[c]);
    }
  }

  /** The ids of every winning line are listed, and everything listed is
      the ids of a winning line. */
  lemma WinnersListed(completed: seq<string>, lines: seq<seq<Cell>>)
    ensures forall i | 0 <= i < |lines| && LineWins(completed, lines[i]) ::
      Ids(lines[i]) in IdsAt(lines, WinningIndices(completed, lines, 0))
    ensures forall line | line in IdsAt(lines, WinningIndices(completed, lines, 0)) ::
      exists i | 0 <= i < |lines| :: LineWins(completed, lines[i]) && line == Ids(lines[i])
  {
    var idx := WinningIndices(completed, lines, 0);
    var listed := IdsAt(lines, idx);
    forall i | 0 <= i < |lines| && LineWins(completed, lines[i])
      ensures Ids(lines[i]) in listed
    {
      var k :| 0 <= k < |idx| && idx[k] == i;
      assert listed[k] == Ids(lines[i]);
    }
    forall line | line in listed
      ensures exists i | 0 <= i < |lines| :: LineWins(completed, lines[i]) && line == Ids(lines[i])
    {
      var k :| 0 <= k < |listed| && listed[k] == line;
      assert LineWins(completed, lines[idx[k]]);
    }
  }

  /** Every winning row and every winning column is reported with its ids in
      reading order, and nothing else is reported. */
  lemma ReportedLinesAreTheWinners(completed: seq<string>, g: Grid, lines: seq<Line>)
    requires CheckBingo(completed, g) == Ok(Some(lines))
    ensures |g| > 0
    ensures forall r | 0 <= r < |g| && LineWins(completed, g[r]) :: Ids(g[r]) in lines
    ensures forall c | 0 <= c < |g[0]| && LineWins(completed, Column(g, c)) :: Ids(Column(g, c)) in lines
    ensures forall line | line in lines ::
      (exists r | 0 <= r < |g| :: LineWins(completed, g[r]) && line == Ids(g[r]))
      || (exists c | 0 <= c < |g[0]| :: LineWins(completed, Column(g, c)) && line == Ids(Column(g, c)))
  {
    CheckBingoReportsWinningLines(completed, g);
    var cols := Columns(g);
    var rl := IdsAt(g, WinningIndices(completed, g, 0));
    var cl := IdsAt(cols, WinningIndices(completed, cols, 0));
    assert lines == rl + cl;
    WinnersListed(completed, g);
    WinnersListed(completed, cols);
    forall c | 0 <= c < |g[0]| && LineWins(completed, Column(g, c))
      ensures Ids(Column(g, c)) in lines
    {
      assert LineWins(completed, cols[c]);
      assert Ids(cols[c]) in cl;
    }
    forall line | line in lines
      ensures (exists r | 0 <= r < |g| :: LineWins(completed, g[r]) && line == Ids(g[r]))
        || (exists c | 0 <= c < |g[0]| :: LineWins(completed, Column(g, c)) && line == Ids(Column(g, c)))
    {
      if line !in rl {
        assert line in cl;
        var c :| 0 <= c < |cols| && LineWins(completed, cols[c]) && line == Ids(cols[c]);
        assert cols[c] == Column(g, c);
      }
    }
  }

  // The scan on the card built from the task list

  /** On a card of 30 or more tasks the scan never throws. */
  lemma FullCardNeverThrows(tasks: seq<Task>, completed: seq<string>)
    requires |tasks| >= Rows * Cols
    ensures CheckBingo(completed, GenerateBingoGrid(tasks)).Ok?
  {
    var g := GenerateBingoGrid(tasks);
    FullCardIffEnoughTasks(tasks);
    forall cells: seq<Cell> | Filled(cells) ensures !LineThrows(completed, cells) { }
    forall c | 0 <= c < |g[0]| ensures Filled(Column(g, c)) { }
  }

  /** With nothing completed the scan stops at the first cell of every line:
      it returns `null` when the first column is full (25 tasks or more) and
      throws otherwise, because row 5 then starts with an empty cell. */
  lemma NothingCompleted(tasks: seq<Task>)
    ensures CheckBingo([], GenerateBingoGrid(tasks))
      == if |tasks| >= (Rows - 1) * Cols + 1 then Ok(None) else Err(IdOfEmptyCell)
  {
    var g := GenerateBingoGrid(tasks);
    if |tasks| >= (Rows - 1) * Cols + 1 {
      EdgesFilled(tasks, g);
      NothingCompletedOnFilledEdges(g);
    } else {
      assert g[Rows - 1][0] == Slot(tasks, Rows - 1, 0) == None;
      RowStartingEmptyThrows([], g, Rows - 1);
    }
  }

  /** A row that throws makes the whole scan throw. */
  lemma RowStartingEmptyThrows(completed: seq<string>, g: Grid, r: nat)
    requires r < |g| && |g[r]| > 0 && g[r][0].None?
    ensures CheckBingo(completed, g) == Err(IdOfEmptyCell)
  {
    assert LineThrows(completed, g[r]);
  }

  /** With 25 tasks or more the first row and the first column of the card
      hold tasks. */
  lemma EdgesFilled(tasks: seq<Task>, g: Grid)
    requires |tasks| >= (Rows - 1) * Cols + 1
    requires IsCard(g) && forall r, c | 0 <= r < Rows && 0 <= c < Cols :: g[r][c] == Slot(tasks, r, c)
    ensures forall r | 0 <= r < |g| :: |g[r]| > 0 && g[r][0].Some?
    ensures forall c | 0 <= c < |g[0]| :: g[0][c].Some?
  {
    assert forall r | 0 <= r < |g| :: g[r][0] == Slot(tasks, r, 0);
    assert forall c | 0 <= c < |g[0]| :: g[0][c] == Slot(tasks, 0, c);
  }

  /** With nothing completed, a grid whose first row and first column hold
      tasks has no winning line and no throwing line. */
  lemma NothingCompletedOnFilledEdges(g: Grid)
    requires |g| > 0
    requires forall r | 0 <= r < |g| :: |g[r]| > 0 && g[r][0].Some?
    requires forall c | 0 <= c < |g[0]| :: g[0][c].Some?
    ensures CheckBingo([], g) == Ok(None)
  {
    forall r | 0 <= r < |g| ensures !LineThrows([], g[r]) && !LineWins([], g[r]) {
      assert !Done([], g[r][0]);
    }
    forall c | 0 <= c < |g[0]| ensures !LineThrows([], Column(g, c)) && !LineWins([], Column(g, c)) {
      assert Column(g, c)[0] == g[0][c];
      assert !Done([], Column(g, c)[0]);
    }
    NullIffNoLineWins([], g);
  }

  /** True iff the tasks that reach the card have pairwise different ids. */
  predicate DistinctIds(tasks: seq<Task>)
  {
    forall i, j | 0 <= i < j < |tasks| && j < Rows * Cols :: tasks[i].id != tasks[j].id
  }

  /** When no line at `from` or later wins, no index is listed. */
  lemma {:induction false} NoWinners(completed: seq<string>, lines: seq<seq<Cell>>, from: nat)
    requires from <= |lines|
    requires forall i | from <= i < |lines| :: !LineWins(completed, lines[i])
    ensures WinningIndices(completed, lines, from) == []
    decreases |lines| - from
  {
    if from < |lines| {
      NoWinners(completed, lines, from + 1);
    }
  }

  /** When line 0 is the only winner, the listing is `[0]`. */
  lemma OnlyFirstLineWins(completed: seq<string>, lines: seq<seq<Cell>>)
    requires |lines| > 0 && LineWins(completed, lines[0])
    requires forall i | 1 <= i < |lines| :: !LineWins(completed, lines[i])
    ensures WinningIndices(completed, lines, 0) == [0]
  {
    NoWinners(completed, lines, 1);
  }

  /** With exactly the first row's ids completed on a card of distinct ids,
      no other row and no column wins. */
  lemma OnlyFirstRowCompleted(tasks: seq<Task>, g: Grid)
    requires |tasks| >= Rows * Cols && DistinctIds(tasks)
    requires IsCard(g) && IsFull(g)
    requires forall r, c | 0 <= r < Rows && 0 <= c < Cols :: g[r][c] == Slot(tasks, r, c)
    ensures forall r | 1 <= r < |g| :: !LineWins(Ids(g[0]), g[r])
    ensures forall c | 0 <= c < |g[0]| :: !LineWins(Ids(g[0]), Column(g, c))
  {
    var done := Ids(g[0]);
    assert forall x | x in done :: exists c | 0 <= c < Cols :: x == tasks[c].id;
    forall r | 1 <= r < |g| ensures !LineWins(done, g[r]) {
      assert g[r][0] == Slot(tasks, r, 0);
      assert !Done(done, g[r][0]);
    }
    forall c | 0 <= c < |g[0]| ensures !LineWins(done, Column(g, c)) {
      assert Column(g, c)[1] == g[1][c] == Slot(tasks, 1, c);
      assert !Done(done, Column(g, c)[1]);
    }
  }

  /** Completing exactly the ids of the first row of a card whose ids are
      distinct yields that single row as the answer. */
  lemma CompletingFirstRowWinsIt(tasks: seq<Task>)
    requires |tasks| >= Rows * Cols && DistinctIds(tasks)
    ensures CheckBingo(Ids(GenerateBingoGrid(tasks)[0]), GenerateBingoGrid(tasks))
      == Ok(Some([Ids(GenerateBingoGrid(tasks)[0])]))
  {
    var g := GenerateBingoGrid(tasks);
    FullCardIffEnoughTasks(tasks);
    FullCardNeverThrows(tasks, Ids(g[0]));
    OnlyFirstRowCompleted(tasks, g);
    FirstRowAlone(g);
  }

  /** On a full grid where, with the first row's ids completed, no other
      line wins, the answer is that row alone. */
  lemma FirstRowAlone(g: Grid)
    requires |g| > 0 && IsFull(g)
    requires CheckBingo(Ids(g[0]), g).Ok?
    requires forall r | 1 <= r < |g| :: !LineWins(Ids(g[0]), g[r])
    requires forall c | 0 <= c < |g[0]| :: !LineWins(Ids(g[0]), Column(g, c))
    ensures CheckBingo(Ids(g[0]), g) == Ok(Some([Ids(g[0])]))
  {
    var done := Ids(g[0]);
    assert LineWins(done, g[0]) by {
      forall i | 0 <= i < |g[0]| ensures Done(done, g[0][i]) {
        assert done[i] == g[0][i].value.id;
      }
    }
    OnlyFirstLineWins(done, g);
    var cols := Columns(g);
    NoWinners(done, cols, 0);
    CheckBingoReportsWinningLines(done, g);
    assert IdsAt(g, [0]) == [Ids(g[0])];
    assert WinningLines(done, g) == [Ids(g[0])];
  }
}
