/** The component's state and the effect that runs after every change of the
    completed list: rebuild the card, scan it, remember the key of every new
    win and raise the celebration flag when a win is new. */
module BingoEffect {
  import opened Wrappers
  import opened BingoGrid
  import opened BingoCheck
  import opened Keys
  import opened Completion

  /** The component state: the completed ids, the lines currently
      highlighted (`bingos`), the keys of every line ever celebrated
      (`achievedBingos`) and the confetti flag (`showConfetti`). */
  datatype State = State(completed: seq<string>, bingos: seq<Line>, achieved: seq<string>, confetti: bool)

  /** The accumulator of the key loop: the keys so far and whether one was
      added (`hasNewBingo`). */
  datatype Ledger = Ledger(keys: seq<string>, added: bool)

  /** True iff some line's key is not yet recorded. */
  predicate HasNewWin(achieved: seq<string>, lines: seq<Line>)
  {
    exists j | 0 <= j < |lines| :: Key(lines[j]) !in achieved
  }

  /** `isTaskInBingo`: the id lies on some highlighted line. */
  predicate IsTaskInBingo(bingos: seq<Line>, id: string)
  {
    exists k | 0 <= k < |bingos| :: id in bingos[k]
  }

  /** The `forEach` over the wins: each line's key is appended unless already
      recorded. The old keys stay a prefix, every appended key is new and
      appended once, and the flag is raised iff something was appended. */
  function RecordKeys(acc: Ledger, lines: seq<Line>): (out: Ledger)
    ensures acc.keys <= out.keys
    ensures forall k | |acc.keys| <= k < |out.keys| :: out.keys[k] !in acc.keys
    ensures forall k, k' | |acc.keys| <= k < k' < |out.keys| :: out.keys[k] != out.keys[k']
    ensures out.added <==> acc.added || |out.keys| > |acc.keys|
    decreases |lines|
  {
    if |lines| == 0 then acc
    else
      var key := Key(lines[0]);
      RecordKeys(if key in acc.keys then acc else Ledger(acc.keys + [key], true), lines[1..])
  }

  /** After the loop every line's key is recorded. */
  lemma {:induction false} RecordKeysCoversLines(acc: Ledger, lines: seq<Line>)
    ensures forall j | 0 <= j < |lines| :: Key(lines[j]) in RecordKeys(acc, lines).keys
    decreases |lines|
  {
    if |lines| > 0 {
      var key := Key(lines[0]);
      var next := if key in acc.keys then acc else Ledger(acc.keys + [key], true);
      RecordKeysCoversLines(next, lines[1..]);
      var out := RecordKeys(acc, lines);
      assert key in next.keys;
      forall j | 1 <= j < |lines| ensures Key(lines[j]) in out.keys {
        assert lines[j] == lines[1..][j - 1];
      }
    }
  }

  /** Every key the loop appends is the key of one of the lines. */
  lemma {:induction false} RecordKeysOnlyLines(acc: Ledger, lines: seq<Line>)
    ensures forall k | |acc.keys| <= k < |RecordKeys(acc, lines).keys| ::
      exists j | 0 <= j < |lines| :: RecordKeys(acc, lines).keys[k] == Key(lines[j])
    decreases |lines|
  {
    if |lines| > 0 {
      var key := Key(lines[0]);
      var next := if key in acc.keys then acc else Ledger(acc.keys + [key], true);
      RecordKeysOnlyLines(next, lines[1..]);
      var out := RecordKeys(acc, lines);
      assert out == RecordKeys(next, lines[1..]);
      forall k | |acc.keys| <= k < |out.keys|
        ensures exists j | 0 <= j < |lines| :: out.keys[k] == Key(lines[j])
      {
        if k < |next.keys| {
          assert out.keys[k] == next.keys[k] == key;
        } else {
          var j :| 0 <= j < |lines[1..]| && out.keys[k] == Key(lines[1..][j]);
          assert lines[1..][j] == lines[j + 1];
        }
      }
    } else {
      assert RecordKeys(acc, lines) == acc;
    }
  }

  /** The lines of a scan's answer; `null` stands for none. */
  function Wins(answer: Option<seq<Line>>): seq<Line>
  {
    match answer
    case None => []
    case Some(lines) => lines
  }

  /** The body of the first effect once the scan has answered: with wins it
      highlights them, records every new key and raises the confetti flag iff
      a key was new; with `null` it clears the highlight and keeps the rest. */
  function Apply(s: State, answer: Option<seq<Line>>): (t: State)
    ensures t.completed == s.completed
    ensures t.bingos == Wins(answer)
    ensures s.achieved <= t.achieved
    ensures forall k | |s.achieved| <= k < |t.achieved| ::
      t.achieved[k] !in s.achieved
      && exists j | 0 <= j < |t.bingos| :: t.achieved[k] == Key(t.bingos[j])
    ensures forall k, k' | |s.achieved| <= k < k' < |t.achieved| :: t.achieved[k] != t.achieved[k']
    ensures forall j | 0 <= j < |t.bingos| :: Key(t.bingos[j]) in t.achieved
    ensures t.confetti <==> s.confetti || HasNewWin(s.achieved, t.bingos)
    ensures !HasNewWin(s.achieved, t.bingos) ==> t.achieved == s.achieved
  {
    match answer
    case None => s.(bingos := [])
    case Some(lines) =>
      var ledger := RecordKeys(Ledger(s.achieved, false), lines);
      RecordKeysCoversLines(Ledger(s.achieved, false), lines);
      RecordKeysOnlyLines(Ledger(s.achieved, false), lines);
      assert ledger.added <==> HasNewWin(s.achieved, lines) by {
        if HasNewWin(s.achieved, lines) {
          var j :| 0 <= j < |lines| && Key(lines[j]) !in s.achieved;
          assert Key(lines[j]) in ledger.keys;
        }
        if |ledger.keys| > |s.achieved| {
          var k := |s.achieved|;
          var j :| 0 <= j < |lines| && ledger.keys[k] == Key(lines[j]);
        }
      }
      if ledger.added then s.(bingos := lines, achieved := ledger.keys, confetti := true)
      else s.(bingos := lines)
  }

  /** The first effect, given the task list: scan the card built from it and
      apply the answer. It throws exactly when the scan throws, which never
      happens on a full card; the highlighted lines are then the winning
      rows followed by the winning columns. Inside the component the effect
      only runs after a render, and the render already throws on a card with
      an empty cell (see `Mount`), so the error result belongs to the scan
      run on its own. */
  function Step(tasks: seq<Task>, s: State): (r: Result<State, Error>)
    ensures r.Err? <==> CheckBingo(s.completed, GenerateBingoGrid(tasks)).Err?
    ensures |tasks| >= Rows * Cols ==> r.Ok?
    ensures r.Ok? ==> r.value.bingos == WinningLines(s.completed, GenerateBingoGrid(tasks))
  {
    var g := GenerateBingoGrid(tasks);
    assert |tasks| >= Rows * Cols ==> CheckBingo(s.completed, g).Ok? by {
      if |tasks| >= Rows * Cols { FullCardNeverThrows(tasks, s.completed); }
    }
    var answer := CheckBingo(s.completed, g);
    if answer.Err? then Err(answer.error)
    else
      CheckBingoReportsWinningLines(s.completed, g);
      Ok(Apply(s, answer.value))
  }

  // The component over a session of clicks

  /** The first render, then the first effect. The saved lists are loaded,
      nothing is highlighted and there is no confetti. The render reads the id
      of every cell of the card in both layouts, so a card with an empty cell
      (fewer than 30 tasks) throws before any effect runs. Otherwise the
      effect runs once, and a reload celebrates only the wins missing from
      the saved ledger. */
  function Mount(tasks: seq<Task>, savedCompleted: seq<string>, savedAchieved: seq<string>): (r: Result<State, Error>)
    ensures r.Err? <==> |tasks| < Rows * Cols
    ensures r.Ok? ==> r.value.completed == savedCompleted && savedAchieved <= r.value.achieved
    ensures r.Ok? ==> (r.value.confetti <==> HasNewWin(savedAchieved, r.value.bingos))
  {
    FullCardIffEnoughTasks(tasks);
    if !IsFull(GenerateBingoGrid(tasks)) then Err(IdOfEmptyCell)
    else Step(tasks, State(savedCompleted, [], savedAchieved, false))
  }

  /** A click on the task with id `id`: the completed list is toggled, which
      makes the component render and the effect run again. The card never
      changes, so after a `Mount` that returned it is full: the render reads
      every cell safely and the effect never throws. */
  function Click(tasks: seq<Task>, s: State, id: string): (r: Result<State, Error>)
    ensures r.Ok? ==> (IsTaskCompleted(r.value.completed, id) <==> !IsTaskCompleted(s.completed, id))
    ensures r.Ok? ==> s.achieved <= r.value.achieved
  {
    Step(tasks, s.(completed := Toggle(s.completed, id)))
  }

  /** A sequence of clicks, stopping at the first throw. */
  function Run(tasks: seq<Task>, s: State, clicks: seq<string>): Result<State, Error>
    decreases |clicks|
  {
    if |clicks| == 0 then Ok(s)
    else
      match Click(tasks, s, clicks[0])
      case Err(e) => Err(e)
      case Ok(next) => Run(tasks, next, clicks[1..])
  }

  /** On a full card no click ever makes the effect throw, so a session that
      mounted runs every click to the end. */
  lemma {:induction false} FullCardSessionNeverThrows(tasks: seq<Task>, s: State, clicks: seq<string>)
    requires |tasks| >= Rows * Cols
    ensures Run(tasks, s, clicks).Ok?
    decreases |clicks|
  {
    if |clicks| > 0 {
      var next := Click(tasks, s, clicks[0]).value;
      FullCardSessionNeverThrows(tasks, next, clicks[1..]);
    }
  }

  /** The key ledger only grows over a session: it is never pruned, even when
      a line is later unchecked. */
  lemma {:induction false} RunKeepsAchieved(tasks: seq<Task>, s: State, clicks: seq<string>)
    requires Run(tasks, s, clicks).Ok?
    ensures s.achieved <= Run(tasks, s, clicks).value.achieved
    decreases |clicks|
  {
    if |clicks| > 0 {
      var next := Click(tasks, s, clicks[0]).value;
      RunKeepsAchieved(tasks, next, clicks[1..]);
    }
  }

  /** Once a line's key is recorded, winning that line again never raises
      the confetti flag: after any session, a click whose wins were all
      recorded before the session leaves the flag and the ledger alone. */
  lemma RecordedLinesNeverRetrigger(tasks: seq<Task>, s: State, clicks: seq<string>, id: string)
    requires Run(tasks, s, clicks).Ok?
    requires Click(tasks, Run(tasks, s, clicks).value, id).Ok?
    requires forall line | line in Click(tasks, Run(tasks, s, clicks).value, id).value.bingos :: Key(line) in s.achieved
    ensures Click(tasks, Run(tasks, s, clicks).value, id).value.confetti == Run(tasks, s, clicks).value.confetti
    ensures Click(tasks, Run(tasks, s, clicks).value, id).value.achieved == Run(tasks, s, clicks).value.achieved
  {
    var mid := Run(tasks, s, clicks).value;
    var t := Click(tasks, mid, id).value;
    RunKeepsAchieved(tasks, s, clicks);
    RecordedWinsAreNotNew(s.achieved, mid.achieved, t.bingos);
    ClickWithoutNewWin(tasks, mid, id);
  }

  /** Wins whose keys were all recorded in an earlier ledger are not new
      to any ledger that extends it. */
  lemma RecordedWinsAreNotNew(earlier: seq<string>, later: seq<string>, lines: seq<Line>)
    requires earlier <= later
    requires forall line | line in lines :: Key(line) in earlier
    ensures !HasNewWin(later, lines)
  {
    forall j | 0 <= j < |lines| ensures Key(lines[j]) in later {
      assert lines[j] in lines;
    }
  }

  /** A click whose wins are all in the ledger leaves the flag and the
      ledger as they were. */
  lemma ClickWithoutNewWin(tasks: seq<Task>, s: State, id: string)
    requires Click(tasks, s, id).Ok?
    requires !HasNewWin(s.achieved, Click(tasks, s, id).value.bingos)
    ensures Click(tasks, s, id).value.confetti == s.confetti
    ensures Click(tasks, s, id).value.achieved == s.achieved
  {
  }

  /** With no winning line the effect clears the highlight and leaves the
      ledger and the confetti flag as they were. */
  lemma NoWinClearsHighlight(tasks: seq<Task>, s: State)
    requires Step(tasks, s).Ok?
    requires forall r | 0 <= r < Rows :: !LineWins(s.completed, GenerateBingoGrid(tasks)[r])
    requires forall c | 0 <= c < Cols :: !LineWins(s.completed, Column(GenerateBingoGrid(tasks), c))
    ensures Step(tasks, s).value.bingos == []
    ensures Step(tasks, s).value.achieved == s.achieved
    ensures Step(tasks, s).value.confetti == s.confetti
  {
    NullIffNoLineWins(s.completed, GenerateBingoGrid(tasks));
  }

  /** True iff the cell at row `r`, column `c` holds a completed task with id
      `id` whose row or column wins. */
  predicate OnWinningLine(completed: seq<string>, g: Grid, r: nat, c: nat, id: string)
    requires IsCard(g) && r < Rows && c < Cols
  {
    Done(completed, g[r][c]) && g[r][c].value.id == id
    && (LineWins(completed, g[r]) || LineWins(completed, Column(g, c)))
  }

  /** An id on a reported line belongs to a cell of a winning row or column. */
  lemma HighlightedIsOnWinningLine(completed: seq<string>, g: Grid, lines: seq<Line>, id: string)
    requires IsCard(g) && CheckBingo(completed, g) == Ok(Some(lines))
    requires IsTaskInBingo(lines, id)
    ensures exists r, c | 0 <= r < Rows && 0 <= c < Cols :: OnWinningLine(completed, g, r, c, id)
  {
    var k :| 0 <= k < |lines| && id in lines[k];
    ReportedLinesAreTheWinners(completed, g, lines);
    var line := lines[k];
    assert line in lines;
    var i :| 0 <= i < |line| && line[i] == id;
    if exists r | 0 <= r < |g| :: LineWins(completed, g[r]) && line == Ids(g[r]) {
      var r :| 0 <= r < |g| && LineWins(completed, g[r]) && line == Ids(g[r]);
      assert OnWinningLine(completed, g, r, i, id);
    } else {
      var c :| 0 <= c < |g[0]| && LineWins(completed, Column(g, c)) && line == Ids(Column(g, c));
      assert Column(g, c)[i] == g[i][c];
      assert OnWinningLine(completed, g, i, c, id);
    }
  }

  /** The id of a completed cell of a winning row or column is on a reported
      line. */
  lemma WinningLineIsHighlighted(completed: seq<string>, g: Grid, r: nat, c: nat, id: string)
    requires IsCard(g) && CheckBingo(completed, g).Ok?
    requires r < Rows && c < Cols && OnWinningLine(completed, g, r, c, id)
    ensures IsTaskInBingo(Wins(CheckBingo(completed, g).value), id)
  {
    NullIffNoLineWins(completed, g);
    var lines := CheckBingo(completed, g).value.value;
    ReportedLinesAreTheWinners(completed, g, lines);
    var line := if LineWins(completed, g[r]) then Ids(g[r]) else Ids(Column(g, c));
    assert line in lines;
    if LineWins(completed, g[r]) {
      assert line[c] == id;
    } else {
      assert Column(g, c)[r] == g[r][c];
      assert line[r] == id;
    }
    var k :| 0 <= k < |lines| && lines[k] == line;
  }

  /** `isTaskInBingo` after the effect: an id is highlighted iff some cell of
      the card holding it lies on a winning row or column. */
  lemma HighlightedIffOnWinningLine(tasks: seq<Task>, s: State, id: string)
    requires Step(tasks, s).Ok?
    ensures IsTaskInBingo(Step(tasks, s).value.bingos, id) <==>
      exists r, c | 0 <= r < Rows && 0 <= c < Cols :: OnWinningLine(s.completed, GenerateBingoGrid(tasks), r, c, id)
  {
    var g := GenerateBingoGrid(tasks);
    var answer := CheckBingo(s.completed, g);
    assert Step(tasks, s).value.bingos == Wins(answer.value);
    if IsTaskInBingo(Wins(answer.value), id) {
      HighlightedIsOnWinningLine(s.completed, g, answer.value.value, id);
    }
    if exists r, c | 0 <= r < Rows && 0 <= c < Cols :: OnWinningLine(s.completed, g, r, c, id) {
      var r, c :| 0 <= r < Rows && 0 <= c < Cols && OnWinningLine(s.completed, g, r, c, id);
      WinningLineIsHighlighted(s.completed, g, r, c, id);
    }
  }
}
