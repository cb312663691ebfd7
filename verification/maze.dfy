/** The maze layout of one experiment run.

    A maze file is a list of lines; the ones of the form
    `maze:setEntityCell(row, col, sym)` are cell commands. The loader keeps
    every command in file order, remembers the last command whose symbol
    contains `P` (the start) and the last one whose symbol contains `G` (the
    goal), paints the commands onto an all-wall 15×15 grid, and then writes
    the start code and, after it, the goal code as overrides.
 */
module Maze {

  datatype Option<T> = None | Some(value: T)

  /** Side of the maze grid and the cell codes it may hold. */
  const Size: int := 15
  const Open: int := 0
  const Wall: int := 1
  const Goal: int := 2
  const Start: int := 4

  /** A decoded `setEntityCell(row, col, sym)` command; `row` and `col` are 1-based. */
  datatype CellCommand = CellCommand(row: int, col: int, sym: string)

  /** A line of a maze file: a cell command, or anything else (ignored). */
  datatype MazeLine = Command(cmd: CellCommand) | Ignored

  predicate InGrid(c: CellCommand) {
    1 <= c.row <= Size && 1 <= c.col <= Size
  }

  /** The command writes the 0-based cell (r, c). */
  predicate Targets(cmd: CellCommand, r: int, c: int) {
    cmd.row - 1 == r && cmd.col - 1 == c
  }

  /** The line is a command whose symbol field contains `ch`. */
  predicate Marks(line: MazeLine, ch: char) {
    line.Command? && ch in line.cmd.sym
  }

  /** Code a generic command paints: open for exactly one space, wall otherwise. */
  function SymbolCode(sym: string): int {
    if sym == " " then Open else Wall
  }

  // ---------------------------------------------------------------------------
  // Scanning the lines
  // ---------------------------------------------------------------------------

  /** The cell commands of a file, in file order. */
  function Commands(lines: seq<MazeLine>): seq<CellCommand>
  {
    if lines == [] then []
    else
      var init := Commands(lines[..|lines| - 1]);
      match lines[|lines| - 1]
      case Command(cmd) => init + [cmd]
      case Ignored => init
  }

  /** The last command of the file whose symbol field contains `ch`, if any. */
  function LastMarked(lines: seq<MazeLine>, ch: char): (m: Option<CellCommand>)
    ensures m.Some? ==> ch in m.value.sym
    ensures m.Some? ==> exists i :: 0 <= i < |lines| && lines[i] == Command(m.value)
  {
    if lines == [] then None
    else if Marks(lines[|lines| - 1], ch) then Some(lines[|lines| - 1].cmd)
    else LastMarked(lines[..|lines| - 1], ch)
  }

  /** Scanning a file split in two is scanning each part, in order. */
  lemma {:induction false} CommandsAppend(a: seq<MazeLine>, b: seq<MazeLine>)
    ensures Commands(a + b) == Commands(a) + Commands(b)
    decreases |b|
  {
    if b == [] {
      assert a + b == a;
    } else {
      var b' := b[..|b| - 1];
      assert (a + b)[..|a + b| - 1] == a + b';
      assert (a + b)[|a + b| - 1] == b[|b| - 1];
      CommandsAppend(a, b');
    }
  }

  /** A command is kept exactly when some line of the file carries it. */
  lemma {:induction false} CommandsMembers(lines: seq<MazeLine>, cmd: CellCommand)
    ensures cmd in Commands(lines) <==> exists i :: 0 <= i < |lines| && lines[i] == Command(cmd)
  {
    if lines != [] {
      var init := lines[..|lines| - 1];
      CommandsMembers(init, cmd);
      if exists i :: 0 <= i < |lines| && lines[i] == Command(cmd) {
        var i :| 0 <= i < |lines| && lines[i] == Command(cmd);
        if i < |lines| - 1 {
          assert init[i] == Command(cmd);
        }
      }
    }
  }

  /** The remembered marker command is the one on the last line that marks `ch`. */
  lemma {:induction false} LastMarkedAt(lines: seq<MazeLine>, ch: char, i: int)
    requires 0 <= i < |lines| && Marks(lines[i], ch)
    requires forall j :: i < j < |lines| ==> !Marks(lines[j], ch)
    ensures LastMarked(lines, ch) == Some(lines[i].cmd)
    decreases |lines|
  {
    if i < |lines| - 1 {
      var init := lines[..|lines| - 1];
      assert init[i] == lines[i];
      LastMarkedAt(init, ch, i);
    }
  }

  /** No marker is remembered exactly when no line marks `ch`. */
  lemma {:induction false} LastMarkedNone(lines: seq<MazeLine>, ch: char)
    ensures LastMarked(lines, ch) == None <==> forall i :: 0 <= i < |lines| ==> !Marks(lines[i], ch)
  {
    if lines != [] {
      var init := lines[..|lines| - 1];
      LastMarkedNone(init, ch);
      if !Marks(lines[|lines| - 1], ch) && LastMarked(init, ch) == None {
        forall i | 0 <= i < |lines| ensures !Marks(lines[i], ch) {
          if i < |lines| - 1 {
            assert init[i] == lines[i];
          }
        }
      }
    }
  }

  /** The line loop of the loader: collects the commands, the start and the goal. */
  method ScanLines(lines: seq<MazeLine>)
    returns (commands: seq<CellCommand>, start: Option<CellCommand>, goal: Option<CellCommand>)
    ensures commands == Commands(lines)
    ensures start == LastMarked(lines, 'P')
    ensures goal == LastMarked(lines, 'G')
  {
    commands, start, goal := [], None, None;
    for i := 0 to |lines|
      invariant commands == Commands(lines[..i])
      invariant start == LastMarked(lines[..i], 'P')
      invariant goal == LastMarked(lines[..i], 'G')
    {
      assert lines[..i + 1][..i] == lines[..i];
      match lines[i]
      case Command(cmd) =>
        commands := commands + [cmd];
        if 'P' in cmd.sym {
          start := Some(cmd);
        }
        if 'G' in cmd.sym {
          goal := Some(cmd);
        }
      case Ignored =>
    }
    assert lines[..|lines|] == lines;
  }

  // ---------------------------------------------------------------------------
  // Building the grid
  // ---------------------------------------------------------------------------

  /** Code of the 0-based cell (r, c) once `cmds` are painted, in order, on an all-wall grid. */
  function Painted(cmds: seq<CellCommand>, r: int, c: int): (v: int)
    ensures v == Open || v == Wall
  {
    if cmds == [] then Wall
    else if Targets(cmds[|cmds| - 1], r, c) then SymbolCode(cmds[|cmds| - 1].sym)
    else Painted(cmds[..|cmds| - 1], r, c)
  }

  /** The last command that names a cell decides its painted code. */
  lemma {:induction false} LastWriteWins(cmds: seq<CellCommand>, r: int, c: int, i: int)
    requires 0 <= i < |cmds| && Targets(cmds[i], r, c)
    requires forall j :: i < j < |cmds| ==> !Targets(cmds[j], r, c)
    ensures Painted(cmds, r, c) == SymbolCode(cmds[i].sym)
    decreases |cmds|
  {
    if i < |cmds| - 1 {
      var init := cmds[..|cmds| - 1];
      assert init[i] == cmds[i];
      LastWriteWins(init, r, c, i);
    }
  }

  /** A cell that no command names keeps the wall code. */
  lemma {:induction false} UntouchedStaysWall(cmds: seq<CellCommand>, r: int, c: int)
    requires forall j :: 0 <= j < |cmds| ==> !Targets(cmds[j], r, c)
    ensures Painted(cmds, r, c) == Wall
  {
    if cmds != [] {
      var init := cmds[..|cmds| - 1];
      assert forall j :: 0 <= j < |init| ==> init[j] == cmds[j];
      UntouchedStaysWall(init, r, c);
    }
  }

  /** Code of the 0-based cell (r, c) of the maze the loader returns for `lines`. */
  function CellCode(lines: seq<MazeLine>, r: int, c: int): (v: int)
    ensures v == Open || v == Wall || v == Goal || v == Start
  {
    var start := LastMarked(lines, 'P');
    var goal := LastMarked(lines, 'G');
    if goal.Some? && Targets(goal.value, r, c) then Goal
    else if start.Some? && Targets(start.value, r, c) then Start
    else Painted(Commands(lines), r, c)
  }

  /** Where the start and goal codes end up: the goal wins a shared cell. */
  lemma MarkerCells(lines: seq<MazeLine>, r: int, c: int)
    ensures CellCode(lines, r, c) == Goal <==>
      LastMarked(lines, 'G').Some? && Targets(LastMarked(lines, 'G').value, r, c)
    ensures CellCode(lines, r, c) == Start <==>
      LastMarked(lines, 'P').Some? && Targets(LastMarked(lines, 'P').value, r, c) &&
      !(LastMarked(lines, 'G').Some? && Targets(LastMarked(lines, 'G').value, r, c))
  {
  }

  /** A file without a single command line gives an all-wall maze. */
  lemma NoCommandsAllWalls(lines: seq<MazeLine>, r: int, c: int)
    requires forall i :: 0 <= i < |lines| ==> !lines[i].Command?
    ensures CellCode(lines, r, c) == Wall
  {
    LastMarkedNone(lines, 'P');
    LastMarkedNone(lines, 'G');
    if Commands(lines) != [] {
      CommandsMembers(lines, Commands(lines)[0]);
    }
  }

  /** Every command of an in-range file names a cell of the grid. */
  lemma CommandsInGrid(lines: seq<MazeLine>)
    requires forall i :: 0 <= i < |lines| && lines[i].Command? ==> InGrid(lines[i].cmd)
    ensures forall cmd :: cmd in Commands(lines) ==> InGrid(cmd)
  {
    forall cmd | cmd in Commands(lines) ensures InGrid(cmd) {
      CommandsMembers(lines, cmd);
    }
  }

  /** Paints the commands, in order, onto an all-wall grid. */
  method PaintCommands(maze: array2<int>, cmds: seq<CellCommand>)
    requires maze.Length0 == Size && maze.Length1 == Size
    requires forall r, c :: 0 <= r < Size && 0 <= c < Size ==> maze[r, c] == Wall
    requires forall k :: 0 <= k < |cmds| ==> InGrid(cmds[k])
    modifies maze
    ensures forall r, c :: 0 <= r < Size && 0 <= c < Size ==> maze[r, c] == Painted(cmds, r, c)
  {
    for k := 0 to |cmds|
      invariant forall r, c :: 0 <= r < Size && 0 <= c < Size ==> maze[r, c] == Painted(cmds[..k], r, c)
    {
      var cmd := cmds[k];
      maze[cmd.row - 1, cmd.col - 1] := SymbolCode(cmd.sym);
      assert cmds[..k + 1][..k] == cmds[..k];
      assert cmds[..k + 1][k] == cmd;
    }
    assert cmds[..|cmds|] == cmds;
  }

  /** Loads a maze: scan the lines, paint the commands, then write start and goal. */
  method LoadMaze(lines: seq<MazeLine>) returns (maze: array2<int>)
    requires forall i :: 0 <= i < |lines| && lines[i].Command? ==> InGrid(lines[i].cmd)
    ensures fresh(maze) && maze.Length0 == Size && maze.Length1 == Size
    ensures forall r, c :: 0 <= r < Size && 0 <= c < Size ==> maze[r, c] == CellCode(lines, r, c)
    ensures forall r, c :: 0 <= r < Size && 0 <= c < Size ==>
      maze[r, c] == Open || maze[r, c] == Wall || maze[r, c] == Goal || maze[r, c] == Start
    ensures forall r, c, r', c' ::
      0 <= r < Size && 0 <= c < Size && 0 <= r' < Size && 0 <= c' < Size &&
      maze[r, c] == Start && maze[r', c'] == Start
      ==> r == r' && c == c'
    ensures forall r, c, r', c' ::
      0 <= r < Size && 0 <= c < Size && 0 <= r' < Size && 0 <= c' < Size &&
      maze[r, c] == Goal && maze[r', c'] == Goal
      ==> r == r' && c == c'
  {
    var commands, start, goal := ScanLines(lines);
    CommandsInGrid(lines);
    maze := new int[Size, Size]((_, _) => Wall);
    PaintCommands(maze, commands);
    if start.Some? {
      maze[start.value.row - 1, start.value.col - 1] := Start;
    }
    if goal.Some? {
      maze[goal.value.row - 1, goal.value.col - 1] := Goal;
    }
  }

  /** A small maze file: the start overrides an open cell, the goal is set, the rest stays wall. */
  lemma StartOverridesOpenCell(r: int, c: int)
    requires 0 <= r < Size && 0 <= c < Size
    ensures var lines := [Command(CellCommand(3, 4, " ")), Command(CellCommand(3, 5, "X")),
                          Command(CellCommand(3, 4, "P")), Command(CellCommand(10, 10, "G"))];
      CellCode(lines, r, c) ==
        if (r, c) == (2, 3) then Start
        else if (r, c) == (9, 9) then Goal
        else Wall
  {
    var c0, c1, c2, c3 := CellCommand(3, 4, " "), CellCommand(3, 5, "X"), CellCommand(3, 4, "P"), CellCommand(10, 10, "G");
    var lines := [Command(c0), Command(c1), Command(c2), Command(c3)];
    assert lines[..3] == [Command(c0), Command(c1), Command(c2)];
    assert lines[..3][..2] == [Command(c0), Command(c1)];
    assert lines[..3][..2][..1] == [Command(c0)];
    assert [Command(c0)][..0] == [];
    assert Commands([Command(c0)]) == [c0];
    assert Commands(lines[..3][..2]) == [c0, c1];
    assert Commands(lines[..3]) == [c0, c1, c2];
    var cmds := [c0, c1, c2, c3];
    assert Commands(lines) == cmds;
    assert LastMarked(lines, 'G') == Some(c3);
    assert LastMarked(lines, 'P') == Some(c2);
    if (r, c) == (2, 4) {
      LastWriteWins(cmds, r, c, 1);
    } else if (r, c) != (2, 3) && (r, c) != (9, 9) {
      UntouchedStaysWall(cmds, r, c);
    }
  }
}
