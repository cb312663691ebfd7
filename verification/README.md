# Maze and trajectory grids of the exploration experiment

This project models the numeric core of `scripts/process_data.py`. The script
is a batch job that draws one heat-map figure per run of a maze-exploration
experiment. Two parts of it build integer grids, and those are modelled here:

- **Maze loader** (`load_maze`), module `Maze` in `maze.dfy`. It scans the
  lines of a maze file and keeps every `maze:setEntityCell(row, col, sym)`
  command in file order. It also remembers the last command whose symbol
  contains `P` (the start) and the last one whose symbol contains `G` (the
  goal). It fills a 15×15 grid with 1 (wall) and paints each command in order:
  0 (open) when the symbol is exactly one space, 1 otherwise. It then writes
  the start as 4 and, after that, the goal as 2.
- **Per-run pipeline** (the body of the main loop), module `Trajectory` in
  `trajectory.dfy`. Samples at the reset point (750, 1450) are dropped. Every
  other sample adds 1 to cell `(y div 100, x div 100)` of a 15×15 count grid.
  Sample `i` is stamped into the 6×6 neighbourhood `[y-3, y+2] × [x-3, x+2]`
  of a 1500×1500 canvas, so later samples overwrite earlier ones.

Each loop of the script is a method with a loop. It is proved against a
declarative specification function, and lemmas prove the properties of that
function:

- `Commands` and `LastMarked` specify the line scan.
- `Painted` and `CellCode` specify the maze: for each cell, the last write wins.
- `Kept` specifies the filter.
- `CountIn` specifies the count grid.
- `LastCover` specifies the canvas.

A maze line is either `Command(CellCommand(row, col, sym))` or `Ignored`. A
sample is a pair of natural numbers: the pixel column and the pixel row, already
flipped and truncated.

## Model

| member | source | states |
|---|---|---|
| `Maze.ScanLines` | scripts/process_data.py:17-28 | Returns the commands in file order, the last `P`-marked command and the last `G`-marked command. The loop keeps this true of every prefix of the file. |
| `Maze.LastMarked` | scripts/process_data.py:25-28 | A remembered marker contains its letter and is the command of some line of the file. |
| `Maze.CommandsAppend` | scripts/process_data.py:21-24 | Scanning a file split in two gives the commands of the first part followed by those of the second, so file order is preserved. |
| `Maze.CommandsMembers` | scripts/process_data.py:23-24 | A command is kept if and only if some line of the file carries it. |
| `Maze.LastMarkedAt` | scripts/process_data.py:25-28 | The remembered start or goal is the command on the last line whose symbol contains the letter. Earlier marked lines are forgotten. |
| `Maze.LastMarkedNone` | scripts/process_data.py:18-19 | No start or goal is remembered if and only if no line's symbol contains the letter. |
| `Maze.Painted` | scripts/process_data.py:33-35 | A painted cell is always 0 or 1. |
| `Maze.LastWriteWins` | scripts/process_data.py:33-35 | The last command naming cell (row-1, col-1) decides it: 0 if its symbol is exactly a space, else 1. |
| `Maze.UntouchedStaysWall` | scripts/process_data.py:30-35 | A cell that no command names keeps the initial wall code 1. |
| `Maze.CellCode` | scripts/process_data.py:30-43 | Every cell of a loaded maze is 0, 1, 2 or 4. |
| `Maze.MarkerCells` | scripts/process_data.py:37-43 | A cell is 2 if and only if the goal names it. It is 4 if and only if the start names it and the goal does not, so the goal wins a shared cell. |
| `Maze.NoCommandsAllWalls` | scripts/process_data.py:30-44 | A file with no command line gives an all-wall grid. |
| `Maze.CommandsInGrid` | scripts/process_data.py:33-35 | If every command line is in range, every kept command names a grid cell. |
| `Maze.PaintCommands` | scripts/process_data.py:32-35 | On an all-wall 15×15 grid, painting the commands in order leaves every cell equal to `Painted`: the last command naming it decides it. |
| `Maze.LoadMaze` | scripts/process_data.py:16-44 | Returns a fresh 15×15 grid equal to `CellCode` cell by cell. Every value is in {0,1,2,4}, and at most one cell holds 4 and at most one holds 2. |
| `Maze.StartOverridesOpenCell` | scripts/process_data.py:33-43 | Worked example. A start on a cell first painted open ends as 4, a later wall command gives 1, the goal gives 2, and every other cell is 1. |
| `Trajectory.FilterSamples` | scripts/process_data.py:54-61 | The sample loop returns exactly the non-reset samples, in log order. |
| `Trajectory.KeptMembers` | scripts/process_data.py:59-61 | A sample survives the filter if and only if it is in the log and is not (750, 1450). |
| `Trajectory.KeptAppend` | scripts/process_data.py:56-61 | Filtering a log split in two filters each part and keeps their order. |
| `Trajectory.KeptWithoutReset` | scripts/process_data.py:59-61 | A log without the reset point passes the filter unchanged. |
| `Trajectory.BinSamples` | scripts/process_data.py:84-86 | Returns a fresh 15×15 grid whose cell (r, c) is the number of samples with `y div 100 = r` and `x div 100 = c`. |
| `Trajectory.BinStep` | scripts/process_data.py:86 | One more sample adds exactly 1 to its own cell and leaves every other cell unchanged, so no cell decreases. |
| `Trajectory.CountInAppend` | scripts/process_data.py:85-86 | The counts of a concatenated sample list are the sums of the counts of the parts. |
| `Trajectory.CountInPermutation` | scripts/process_data.py:84-86 | The count grid does not depend on the order of the samples. |
| `Trajectory.GridTotalIsLength` | scripts/process_data.py:84-86 | For in-field samples, the 225 cells sum to the number of samples. This sum is the denominator of the normalisation at line 91. |
| `Trajectory.FilterOnlyTouchesResetBin` | scripts/process_data.py:59-61 | Dropping the reset samples changes only the count of cell (14, 7), and lowers it by exactly the number dropped. |
| `Trajectory.LastCover` | scripts/process_data.py:94-98 | A canvas value is 0 or the index of one of the samples. |
| `Trajectory.LastCoverAt` | scripts/process_data.py:95-98 | A pixel holds the index of the last sample whose neighbourhood covers it. |
| `Trajectory.UncoveredStaysZero` | scripts/process_data.py:94-98 | A pixel that no sample covers stays 0. |
| `Trajectory.Stamp` | scripts/process_data.py:96-98 | Writes the value into exactly the 36 pixels `[y-3, y+2] × [x-3, x+2]` and leaves every other pixel unchanged. |
| `Trajectory.StampTrajectory` | scripts/process_data.py:94-98 | Returns a fresh 1500×1500 canvas that equals `LastCover` pixel by pixel. |
| `Trajectory.ProcessRun` | scripts/process_data.py:54-98 | One run: the kept samples, with no reset point among them; their count grid, which sums to their number; and their path canvas. |

## Left out

- Plotting: colour maps, `imshow`, colour bars, titles, `savefig`, `clf`, and the `np.kron` 100× upscaling. These are display only.
- File discovery and I/O: `glob`, `tqdm`, `open`, and the maze and figure path templates. The model takes a maze file as a sequence of decoded lines and a log as a sequence of samples.
- Text decoding. The regular expressions and `ast.literal_eval` are reduced to the decoded `(row, col, sym)` command. The start and goal tests become "the symbol contains `P`" and "the symbol contains `G`". A `P` or `G` that the regular expression would find outside the third field is not modelled. A malformed command that `literal_eval` rejects, which raises in the script, is not modelled.
- Float parsing and the y-flip `1500 - y_raw`. Samples are taken already flipped and truncated, because truncating after the flip is not the same as flipping a truncated value. For non-negative coordinates `int(v // 100)` equals `trunc(v) div 100`, so binning and stamping on these integers is faithful.
- The float32 normalisation `counts / sum(counts)` and its accumulation into `total_counts` (line 91) are floating-point arithmetic. A run with no kept samples gives NumPy's 0/0 (NaN), not an error. The model proves only the integer fact behind the normalisation: the counts sum to the number of kept samples.
- Out-of-range indices. Python wraps negative indices and raises on an index of 15 or 1500, and the script does not clip. The model states preconditions instead:
  - `Maze.LoadMaze` requires every command to satisfy `1 <= row, col <= 15`;
  - `Trajectory.BinSamples` requires samples with `x, y < 1500`, and assumes the flipped float coordinates are non-negative. A raw y in (1500, 1501) gives a flipped y in (-1, 0): `int(y)` is 0, but `y // 100` is -1, so the script counts that sample in row -1, which wraps to row 14, while the model counts it in row 0;
  - `Trajectory.StampTrajectory` requires `3 <= x, y <= 1497`.
  The script does not clip the stamp to the canvas and does not fail on a run with no kept samples; the model follows the script.
- The final summary figure (lines 113-135). It only calls `load_maze` once more, on the no-goal maze, and plots `total_counts`.
