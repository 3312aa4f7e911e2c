# mp2 maze game and mp3 kernel: what they keep, proved

Dafny models of five parts of this repository, with proofs of what each part is
for. Branches and constants are those of the C code and so are the loops, except
that whole fills and copies (memset, memcpy) are `forall` statements and that the
body of a long loop may be a method of its own. What the code updates in place is
fields of classes and arrays; the array of terminal structures is one array for each
of its members. `dafny verify dfyconfig.toml` checks everything.

**The maze game of mp2.** `MazeGrid`, `MazePaths`, `MazeMark`, `MazeWorm`,
`MazeJoin`, `MazeFurnish` and `MazeGen` model the generator of `maze.c` on its flat
wrap-around array: worms dig, a breadth-first marker counts what (1,1) reaches, and
walls are knocked down until nothing is left out. The main results are that the
marker marks exactly a component, that the second phase ends, and that every maze
`make_maze` returns joins any two lattice points. `MazeDraws` and `MazeDice` give the
generator as a relation between the random numbers and the maze, which leaves nothing
open. `MazeBits` ties the cell fields to
the bits of the bytes. `ViewLayout`, `BuildBuffer` and `Display` model the build
buffer of `modex.c`, four reversed pixel planes under a moving window, and the
page it is shown on. `MazeView`, `Coherence`, `PlayRules`, `Game` and `Player` put
the two together: the build buffer is a cache of the picture of the maze, and after
level preparation and after every tick, for every input, every pixel of the window
shows the maze; every frame shows the maze with the player over it. `Moments` is the
game as a function of its inputs, which the tick loop is proved to compute.

**The Tux controller line discipline.** `TuxFraming` and `TuxLine`: a ring buffer
feeding a resynchronising three-byte framer, which equals framing the whole stream
at once however it is cut up.

**The terminals of mp3.** `Terminal`, `LineInput` and `Multiplexer`: three terminals
on one video page, one cursor and one keyboard refine three terminals of their own,
whose screens are the tail of an endless sheet of paper.

**The process table of mp3.** `ProcessForest` and `Processes`: PIDs, parents and
process groups as a forest of three chains over the kernel, with the mapping of the
program page, over any interleaving of execute, halt and timer ticks. `GroupChains`
says what such a run does to the chain of each group.

**The file system and library of mp3.** `FileImage` and `FileReader`: block-wise
reads refine a flat byte sequence, and the loader copies the whole program.
`CStrings` and `Numerals`: the string functions, and `itoa` and its only reading.
`Limits`, `KernelLimits` and `Bytes` hold what several parts share.

Things the model makes explicit:

- random() is a finite tape of numbers held by the maze; a call that would need
  another one ends with `OutOfRandom`, and nothing is claimed about the maze then.
  That is partial correctness for the loops that wait on luck; the second phase of
  the generator ends by a measure.
- Interrupts and locks: each tick, receive call, write, key, switch and system call
  is one atomic step; a terminal read is three, taking its turn, arming and its end,
  and waiting is the time between them. Directions come from anywhere (`next` is arbitrary).
- `open[next_dir]` with DIR_STOP reads one past its array; that entry is the
  arbitrary boolean `fifth`.
- The plane size and the spare bytes of the build buffer are parameters: everything
  holds for planes of at least 80 * 182 bytes and any slack. SCROLL_Y_DIM is not
  parenthesised (mp2/modex.h:55), so the program's planes have 15982 bytes, and the
  test at mp2/modex.c:488 compares with old_y - 218; a jump of 182 to 217 rows up
  copies a stretch although nothing is shared, and still retains what it must.
- A line buffer and its size are one sequence, the characters typed so far.
- A slot of pid_array is a boolean: the address in it is always that of the PCB
  with the slot's number. `loads` stands for the outcome of `__load_program` in the
  process operations.

Where the code and its comments differ, the code is modelled: set_cursor reduces
the row modulo 80, not 25; the missing redraw that mp2/maze.c:580-590 admits never
shows on screen; the player is missing on the first screen of a level, which is
shown before the player is drawn; itoa returns the buffer, not a number of bytes; a
base shell that fails to load takes the kernel's own process slot with it
(`StaticStartShell`).

## Model

| member | source | states |
|---|---|---|
| MazeGrid.CountPoints | mp2/maze.c:250 | there are exactly x_dim * y_dim different lattice points, so never more than the marker's queue has slots |
| MazeGrid.PointsAreGood | mp2/maze.c:63-91 | for every accepted size, two rows up and down from any lattice point is still inside the array, and no two points are neighbours in the flat array, not even across the end of a row |
| MazeGrid.FindFrontier | mp2/maze.c:338-381 | a set of points that holds (1,1) and misses some point has a point outside it right next to one inside |
| MazeBits.ByteIsItsCell | mp2/maze.h:57-67 | a maze byte is determined by its wall, fruit, exit and reach fields |
| MazeBits.CellIsItsByte | mp2/maze.h:57-67 | every cell has a byte that decodes to it and uses none of the two spare bits |
| MazeBits.MasksAreFields | mp2/maze.h:57-67 | the source's bit operations (set and clear MAZE_REACH, set MAZE_EXIT, clear MAZE_FRUIT, add a fruit, compare with MAZE_WALL) change or test exactly the field they are meant for |
| MazePaths.ConnectedWalk | mp2/maze.c:332-333 | lattice points joined edge by edge are joined by a walk over open cells, one orthogonal step at a time |
| MazePaths.FirstMark | mp2/maze.c:331-336 | marking the component of (1,1) leaves the reached set closed under open adjacency and connected to (1,1) |
| MazePaths.BreakAndMark | mp2/maze.c:362-380 | breaking a wall between an unreached and a reached point and marking the unreached component restores that invariant, and the reached set grows by exactly that component |
| MazeMark.SearchComplete | mp2/maze.c:128-170 | with an empty queue, the marked points are exactly the component, neither less nor more |
| MazeMark.Enqueue | mp2/maze.c:139-148 | the queue holds every marked point exactly once, so its length is the number of marked points |
| MazeMark.Explore | mp2/maze.c:144-148 | one direction of the search: the location past an open cell is marked and queued iff it is not yet marked |
| MazeMark.SearchStep | mp2/maze.c:129-164 | exploring all four directions of one location keeps the search invariant |
| MazeMark.MarkMazeArea | mp2/maze.c:104-171 | from any unreached lattice point: the maze afterwards has MAZE_REACH added on exactly the unreached points joined to it through unreached points, the result is their number, the queue does not overflow, and the search ends |
| MazeWorm.DigPoint | mp2/maze.c:319-322 | emptying a lattice point keeps the lattice shape and takes exactly that point off the set of walled points |
| MazeWorm.DigBetween | mp2/maze.c:300-317 | emptying the cell between two lattice points keeps the shape and the count |
| MazeWorm.SomewhereToGo | mp2/maze.c:278-291 | the total of the four weights is positive at every lattice point, so the modulus is never by zero |
| MazeWorm.Chances | mp2/maze.c:217-291 | of a worm at any point: no chance to leave the lattice; 84 parts to go straight on into a wall, 9 to turn aside into one, 1 to go on or aside where it is open, 3 to turn back |
| MazeDraws.OneFirstHit | mp2/maze.c:252-257 | the first pair of numbers that hits a set of points is one pair, one point and one rest, and there is none when no pair hits |
| MazeGen.Maze.RandomPoint | mp2/maze.c:252-257 | needs two numbers; the point is (first % x_dim, second % y_dim), and the numbers after these two are left |
| MazeGen.Maze.RandomWallPoint | mp2/maze.c:252-257 | the first point drawn that is still a wall; fails only when no pair of numbers left draws one |
| MazeGen.Maze.RandomUnreachedPoint | mp2/maze.c:356-360 | the first point drawn that is unreached; fails only when no pair of numbers left draws one |
| MazeGen.Maze.RandomFruitlessPoint | mp2/maze.c:414-418 | the first point drawn without fruit; fails only when no pair of numbers left draws one |
| MazeGen.Maze.WeighDirections | mp2/maze.c:278-290 | wt[k] is the sum of the weights of directions 0 to k, a direction off the lattice weighing nothing |
| MazeGen.Maze.PickDirection | mp2/maze.c:278-292 | the cumulative scan stops, on a direction that stays on the lattice, namely the one whose share of the total holds the random number |
| MazeGen.Maze.DigStep | mp2/maze.c:300-322 | the connector and the next point are empty afterwards and nothing else differs; remaining stays the number of walled points |
| MazeGen.Maze.MoveWorm | mp2/maze.c:298-322 | the worm moves two cells in its direction, to a lattice point in range |
| MazeGen.Maze.DropWorm | mp2/maze.c:252-260 | a worm starts on the first walled point drawn, which is emptied and taken off the count; it fails only when none is drawn |
| MazeGen.Maze.RunWorm | mp2/maze.c:262-323 | the dice alone decide the path: every step goes the way its number picks for the weights of the maze as dug so far, none turns back, the next one would have and ends the worm; the maze is the old one with exactly that path dug, and the count of walled points stays exact |
| MazeGen.Maze.WormPhase | mp2/maze.c:236-329 | when the phase ends, every lattice point is open and every other cell that is open lies between two lattice points; it has dug worm after worm, each dropped and run as the numbers say, as long as a point was walled |
| MazeDice.RanOneWay | mp2/maze.c:262-323 | the numbers decide the whole path of a worm, its end and what it leaves |
| MazeDice.WormsOneWay | mp2/maze.c:236-329 | the same numbers dig the same maze, worm for worm |
| MazeGen.Maze.MarkFromCorner | mp2/maze.c:331-336 | remaining is the exact number of points not connected to (1,1) |
| MazeGen.Maze.NextInScan | mp2/maze.c:346-350 | the scan goes point by point along a row, to the next row, and back to the first |
| MazeJoin.ScanAdvances | mp2/maze.c:346-350 | each scan step brings every given point one step closer or lands on it, within x_dim * y_dim steps |
| MazeJoin.FrontierExists | mp2/maze.c:362-375 | while a point is unreached, some unreached point has a reached neighbour to be joined to |
| MazeJoin.RepairStep | mp2/maze.c:366-380 | one repair keeps the phase invariant and lowers the number of unreached points by the number the marker reports, which is at least one |
| MazeJoin.RepairRemovesOneWall | mp2/maze.c:366-375 | the cell a repair empties was a wall, since otherwise the point would have been reached; no other wall goes |
| MazeGen.Maze.TryToConnect | mp2/maze.c:366-375 | a wall is knocked down iff the point has a reached lattice neighbour; it is the wall to the first one, looking up, left, right and down, and nothing else changes |
| MazeGen.Maze.Repair | mp2/maze.c:366-380 | remaining goes down iff the point is on the frontier, and stays the exact number of unreached points; then exactly one wall is gone, else nothing has changed |
| MazeGen.Maze.NextCandidate | mp2/maze.c:345-361 | the first unreached point drawn while twenty or more are left and no more than a hundred tries were made, else the next point of the scan; each choice uses up a random try or comes one scan step closer to any given point |
| MazeGen.Maze.JoinStep | mp2/maze.c:338-381 | an iteration chooses its point as the numbers and the scan say and makes exactly the repair there is to make there; without one the maze is left alone and (random tries left, scan distance to a frontier point) get smaller |
| MazeGen.Maze.JoinPhase | mp2/maze.c:331-381 | the phase ends with every point reached, by the measure (remaining, random tries left, scan distance), turn after turn from where the last worm stopped; running out of random numbers is possible only in random mode with 20 or more points unreached |
| MazeDice.TurnsOneWay | mp2/maze.c:331-381 | the same numbers make the same repairs in the same order |
| MazeFurnish.RepairedIsLabyrinth | mp2/maze.c:331-381 | when nothing is unreached, any two lattice points are joined by a walk of open cells |
| MazeFurnish.OpenCellsJoinPoints | mp2/maze.c:133-138 | every open cell is a lattice point or has open cells on two opposite sides |
| MazeGen.Maze.ClearMarks | mp2/maze.c:383-389 | MAZE_REACH is cleared on exactly the lattice points |
| MazeGen.Maze.AddAFruit | mp2/maze.c:680-701 | the first fruitless point drawn gets a fruit, of the type that the next number modulo seven says; n_fruits is again the number of fruit cells, and nothing else changes; it fails only when the numbers end before that |
| MazeDice.AnyFruitCanBeDrawn | mp2/maze.c:680-701 | any fruitless point can get a fruit of any of the seven types |
| MazeGen.Maze.PlaceExit | mp2/maze.c:414-421 | the first fruitless point drawn becomes the exit, the only one, and nothing else changes; it fails only when none is drawn |
| MazeGen.Maze.MakeMaze | mp2/maze.c:217-424 | fails exactly on sizes out of range, leaving the maze alone; otherwise, for every outcome of random(), a finished maze joins any two lattice points by open cells, holds the requested number of fruits on lattice points and exactly one exit, on a point without fruit, and shows nothing; it is made from the numbers by worms, repairs, fruit and exit in that order |
| MazeDice.MadeOneWay | mp2/maze.c:217-424 | nothing else decides about the maze: the same numbers make the same maze, fruit and exit, and leave the same numbers |
| ViewLayout.Layout.SeenIsInside | mp2/modex.c:476-480 | every pixel of a window that passes the fit test has its byte inside the build buffer |
| ViewLayout.Layout.AddressInjective | mp2/modex.c:51-72 | two different pixels of one window never share a byte, for every alignment, even when a plane has no spare byte |
| ViewLayout.SmallerPlanesCollide | mp2/modex.c:51-72 | the bound is exact: for any smaller plane two pixels of the window at the origin share a byte |
| ViewLayout.ForwardPlanesCollide | mp2/modex.c:163-167 | with the planes in forward order two pixels collide at a window that starts one pixel right of a group of four |
| ViewLayout.StorePixel | mp2/modex.c:665 | storing at the address of a pixel changes that pixel of the window and no other |
| BuildBuffer.SpanIsInside | mp2/modex.c:505-535 | the copy of set_view_window reads and writes inside the buffer only |
| BuildBuffer.CopyStretch | mp2/modex.c:542-547 | the copy loop moves the stretch as if source and target did not overlap, in either direction |
| BuildBuffer.CopyRetains | mp2/modex.c:505-547 | copying the clipped stretch keeps the value of every pixel that both windows show |
| BuildBuffer.View.SetViewWindow | mp2/modex.c:453-548 | for every jump of the window: the new window fits in the buffer and every pixel in both windows keeps its value |
| BuildBuffer.View.DrawFullBlock | mp2/modex.c:618-669 | exactly the on-screen pixels of the block are painted with the block's pixels; no other byte of the buffer changes |
| BuildBuffer.View.DrawMaskBlock | mp2/modex.c:689-748 | on-screen pixels of the block show the sprite where its mask is set and the old picture elsewhere; the old pixels are saved in g_mask |
| BuildBuffer.RestoreIsIdentity | mp2/mazegame.c:590-592 | drawing through the mask and painting g_mask back restores every byte of the buffer, for every block that can be restored |
| BuildBuffer.OthersAreNotRestored | mp2/modex.c:735-747 | and only for those: a block clipped above or on the left, or on the right with two rows visible, is saved without gaps and read back with them, so some picture is not restored |
| BuildBuffer.View.StoreHorizLine | mp2/modex.c:836-851 | the row shows the 320 bytes of the line in order and no other pixel of the window changes |
| BuildBuffer.View.StoreVertLine | mp2/modex.c:790-800 | the column shows the 182 bytes of the line in order and no other pixel of the window changes |
| Display.SourceIsPixel | mp2/modex.c:574-579 | for every alignment of show_x, the byte copied to offset 80 r + c / 4 of video plane c mod 4 is the byte of pixel (show_x + c, show_y + r) |
| Display.PagesAreApart | mp2/modex.c:570-579 | the two pages do not overlap each other or the status bar, and flipping twice comes back |
| Display.Screen.ShowScreen | mp2/modex.c:559-588 | the other page shows exactly the window, pixel for pixel, and video memory outside that page is untouched |
| MazeView.FillHorizBuffer | mp2/maze.c:493-521 | the 320 bytes are the maze pixels from (x,y) rightwards, each the pixel of find_block at its own cell |
| MazeView.FillVertBuffer | mp2/maze.c:534-565 | the 182 bytes are the maze pixels from (x,y) downwards |
| MazeView.PictureTells | mp2/maze.c:445-475 | which picture a cell has: the exit (34) exactly when it is the exit and no fruit is left; of anything else unseen only whether it is fruit (33) or not (17); then fruit by its type (25 + f), floor (16) and walls (0 to 15) |
| MazeView.WallPictureTells | mp2/maze.c:474-480 | the four bits of a wall picture are set exactly for a wall above, right, below and left |
| MazeView.UnseenIsMist | mp2/maze.c:456-464 | before anything has been seen, walls and floor look the same everywhere |
| Coherence.AliasIsBoundary | mp2/maze.c:591-595 | two cells of the picture have the same byte only if they are column 0 and column 2 * x_dim |
| Coherence.BlocksOnScreenAreApart | mp2/maze.c:580-594 | blocks on screen at the same time have bytes of their own: the two images of the boundary are never both on screen |
| Coherence.RedrawRepairs | mp2/maze.c:603-605 | redrawing a block makes all its pixels on screen right and spoils none |
| Coherence.UnveilSpoils | mp2/maze.c:598-605 | marking a cell as seen spoils only its own block on screen, provided its twin across the boundary is off screen |
| Coherence.EatingSpoils | mp2/maze.c:629-643 | removing a fruit spoils only its own block and, when it was the last, the exit's block |
| Coherence.PanKeeps | mp2/modex.c:494-503 | after a pan all pixels that were on screen before still show the maze |
| Coherence.SpriteOverMaze | mp2/mazegame.c:590-592 | a coherent buffer with the player drawn over it shows the maze with the player, pixel for pixel |
| Game.Board.UnveilSpace | mp2/maze.c:577-606 | out of range does nothing; otherwise exactly that cell becomes seen, and the buffer shows the maze again |
| Game.Board.CheckForFruit | mp2/maze.c:619-649 | 0 out of range; otherwise the fruit type at the cell, which is removed, n_fruits again counts the fruit cells, and the buffer shows the maze again, with the exit if it has just appeared |
| Game.Board.CheckForWin | mp2/maze.c:661-668 | true exactly at the exit with no fruit left in the maze, for all coordinates |
| Game.Board.UnveilAround | mp2/mazegame.c:270-289 | the fruit under the player is eaten, exactly the nine cells around and the four two steps away become seen, a win is reported iff it is one, and the buffer shows the maze |
| Game.Board.DrawHorizLine | mp2/modex.c:819-855 | fails exactly outside the window, changing nothing; otherwise that row of the window shows the maze and no other pixel changes |
| Game.Board.DrawVertLine | mp2/modex.c:772-804 | fails exactly outside the window, changing nothing; otherwise that column of the window shows the maze and no other pixel changes |
| Game.Board.DrawAllRows | mp2/mazegame.c:150-153 | drawing all rows makes the whole window show the maze, whatever was in the buffer |
| Game.Board.PanRow | mp2/mazegame.c:173-179 | a pan by one row with the new row drawn leaves the whole window showing the maze |
| Game.Board.PanColumn | mp2/mazegame.c:197-204 | a pan by one column with the new column drawn leaves the whole window showing the maze |
| PlayRules.PrizesAreReachable | mp2/maze.c:332-333 | during play, every fruit and the exit can be walked to from (1,1) over open cells |
| PlayRules.BoundaryIsSolid | mp2/maze.c:63-91 | no boundary cell, of either image of the unified boundary, can be dug |
| PlayRules.SeesTwoSteps | mp2/mazegame.c:270-289 | what a player on a cell unveils: the cells of the map at most two steps away along rows and columns, thirteen when all are on the map |
| PlayRules.EvenEvenIsSolid | mp2/maze.c:63-91 | no interior cell with both coordinates even can be dug |
| PlayRules.OpenIsInterior | mp2/maze.c:133-138 | an open cell is strictly inside the boundary |
| PlayRules.PlayerAvoidsWalls | mp2/mazegame.c:515-588 | every pixel of the player lies on an open cell, at every moment of a move |
| PlayRules.ReverseStaysOnTrack | mp2/mazegame.c:519-533 | reversing between two cells mirrors the distance and keeps the player on the segment between two open cells |
| PlayRules.SteeringIsSafe | mp2/mazegame.c:544-565 | the player turns as asked whenever that way is open, never sets out towards a wall, and the entry read past the array does not matter once it has stopped |
| PlayRules.FromCell | mp2/mazegame.c:544-565 | from a cell, any way that is open leads to a cell the player can stand on |
| PlayRules.PanFollows | mp2/mazegame.c:167-255 | moving one pixel in any direction and panning when asked keeps the window in the maze and following the player |
| PlayRules.PlayerIsVisible | mp2/mazegame.c:590-592 | the whole player block is inside the window |
| PlayRules.TwinsAreHidden | mp2/maze.c:580-594 | no boundary cell within two columns of the player has its other image on screen |
| Player.Play.MoveUp | mp2/mazegame.c:167-181 | one pixel up, a pan exactly when asked, and the window again shows the maze and follows the player |
| Player.Play.MoveRight | mp2/mazegame.c:191-206 | one pixel right, a pan exactly when asked, and the window again shows the maze and follows the player |
| Player.Play.MoveDown | mp2/mazegame.c:216-231 | one pixel down, a pan exactly when asked, and the window again shows the maze and follows the player |
| Player.Play.MoveLeft | mp2/mazegame.c:241-255 | one pixel left, a pan exactly when asked, and the window again shows the maze and follows the player |
| Player.Play.TurnBack | mp2/mazegame.c:518-533 | an opposite direction is taken at once with the distance mirrored; any other is not taken here |
| Moments.WayBackIsAtOnce | mp2/mazegame.c:518-533 | between two cells, when the way back is asked for: in the same tick the player turns, moves one pixel back, and has 11 minus the old distance left to the cell it came from |
| Moments.OtherWaysWait | mp2/mazegame.c:518-533 | between two cells, anything else that is asked for changes nothing: one pixel on, to the same target |
| Moments.OnACell | mp2/mazegame.c:534-588 | on a cell, unless it wins: the player sets out the way asked for when it is open, else straight on when that is open, else it stays, with the last direction kept; a way back that is closed stops it |
| Player.Play.ChooseDirection | mp2/mazegame.c:544-565 | at a cell the direction is the one the steering rule gives for the open directions, and a move of twelve pixels starts unless the player stops |
| Player.Play.Arrive | mp2/mazegame.c:534-542 | at a cell: the fruit eaten, the surroundings seen, and the outcome of the win check, with the loop invariant kept |
| Player.Play.Tick | mp2/mazegame.c:518-588 | one pass of the tick loop for any input, with the exact new maze, direction, distance, position and window, and a win exactly on the exit with no fruit left; the player stays on the segment between two open cells, exactly move_cnt pixels from its target, and the buffer shows the maze |
| Player.Play.ShowFrame | mp2/mazegame.c:590-592 | the page shown is the maze with the player over it, pixel for pixel, and the build buffer is byte for byte what it was |
| PlayRules.PlayerPictures | mp2/mazegame.c:590-592 | the picture of the player and its mask are those of the way it faces, in the order up, right, down, left |
| Player.Play.Frame | mp2/mazegame.c:479-593 | the maze, the player and the window after a frame are those of its ticks in turn, no more than eight, stopping at the first that wins; the page shown is that maze with the player over it |
| Player.Play.RunLevel | mp2/mazegame.c:479-593 | the same for any number of frames with any inputs, until one wins; the loop invariant holds at the end and a win is on the exit with no fruit left |
| Moments.WinIsAnArrival | mp2/mazegame.c:534-542 | a run of ticks is won exactly when some input finds the player on a cell that is the exit, with no fruit left once the one there is eaten |
| Moments.WonForever | mp2/mazegame.c:479-593 | nothing happens after the frame that wins |
| Moments.LevelWonOnTheExit | mp2/mazegame.c:534-542 | a won level has ended with the player on the exit and no fruit left |
| Player.LevelDims | mp2/mazegame.c:129-133 | every level asks for a size that make_maze accepts |
| Player.LevelsGrow | mp2/mazegame.c:129-135 | the first level has 14 x 8 points and one fruit; each level has two more rows and columns of points, every other level a fruit more, and the upper bounds are not met |
| Player.Play.PrepareMazeLevel | mp2/mazegame.c:120-157 | level preparation never fails; the maze is the one the random numbers make, and the window shows mist only, with bumps where the fruit is |
| Player.Play.ShowFirstScreen | mp2/mazegame.c:472-474 | the first page of a level shows the maze without the player, because the player is drawn after the page is shown; the buffer is unchanged |
| Player.Play.StartLevel | mp2/mazegame.c:449-474 | the player starts on the open cell (1,1), exactly its surroundings have been seen, and the loop invariant holds |
| TuxFraming.GreedyFindsAll | mp2/module/tuxctl-ld.c:264-277 | the skipping loop reports every position of the stream where a packet starts, in order |
| TuxFraming.LeftoverIsShortSuffix | mp2/module/tuxctl-ld.c:279-282 | at most two bytes are left over, and they are the last ones |
| TuxFraming.FramingIsIncremental | mp2/module/tuxctl-ld.c:251-283 | framing a stream in two parts, the leftover of the first put before the second, reports what framing the whole does |
| TuxFraming.SplitPackets | mp2/module/tuxctl-ld.c:264-277 | the packets of a stream are those starting before a position and those starting at or after it |
| TuxFraming.GarbageHidesNothing | mp2/module/tuxctl-ld.c:264-277 | an intact packet is reported whatever precedes it, and so is everything that follows it |
| TuxFraming.FramedIsPacket | mp2/module/tuxctl-ld.c:267-277 | a packet is exactly three bytes with seven bits of contents each, the high bits reading 0, 1, 1 |
| TuxFraming.PacketsComeThrough | mp2/module/tuxctl-ld.c:264-283 | a stream of packets of any contents is reported packet for packet, and nothing is left over |
| TuxLine.LineDiscipline.Get | mp2/module/tuxctl-ld.c:196-211 | the oldest bytes of the ring, at most n, in order; they leave the ring and nothing else does |
| TuxLine.LineDiscipline.FramePackets | mp2/module/tuxctl-ld.c:264-277 | the packets handled are exactly those of the bytes given; the index returned is where the leftover starts |
| TuxLine.LineDiscipline.Store | mp2/module/tuxctl-ld.c:147-151 | bytes are appended in order while there is room; one is refused only when the ring holds 63 |
| TuxLine.LineDiscipline.DataCallback | mp2/module/tuxctl-ld.c:251-283 | what was pending, saved bytes included, loses its first twelve bytes to the framer, and packets handled plus packets pending stay those of all bytes accepted |
| TuxLine.LineDiscipline.ReceiveBuf | mp2/module/tuxctl-ld.c:137-158 | the stream invariant for any pieces: packets handled, then the packets of saved bytes and ring contents, are the packets of all bytes accepted; when all of it fits the packet buffer, everything accepted is framed |
| TuxLine.LineDiscipline.ReceiveAll | mp2/module/tuxctl-ld.c:137-158 | for any calls from any state: of each call the first bytes are accepted, and packets handled plus packets pending are those of everything accepted; when the ring starts empty and the calls bring at most ten bytes each, no byte is lost and the stream is framed as if it had come at once |
| Terminal.ScrollTurnsPaper | mp3/student-distrib/lib.c:46-63 | scrolling shows the next 25 rows of an endless sheet, with a blank row coming in |
| Terminal.PutcIsTyping | mp3/student-distrib/lib.c:259-291 | for every character, what putc does to page and cursor is what typing on an endless sheet of paper does to its last 25 rows |
| Terminal.TextOnPaper | mp3/student-distrib/lib.c:259-291 | a text without line ends and backspaces stands on the sheet character for character from the place of the cursor on, from row to row, and nothing else has changed |
| Terminal.MovesOnPaper | mp3/student-distrib/lib.c:259-291 | a line end goes to the start of the next row and a backspace one place back, but not off the screen, and what stands on the sheet stays |
| Terminal.ScreenIsTailOfPaper | mp3/student-distrib/term.c:134-137 | the same for every text written through __print_char |
| Terminal.WriteTwice | mp3/student-distrib/term.c:134-137 | writing two texts one after the other is writing them together |
| Multiplexer.Terminals.ScrollUp | mp3/student-distrib/lib.c:46-63 | the in-place copy of rows gives the scrolled page; bytes past the 25 rows are untouched |
| Multiplexer.Terminals.PutcLive | mp3/student-distrib/lib.c:259-291 | page and cursor become those of the plain terminal; the cursor stays in 80 x 25 |
| Multiplexer.Terminals.PrintCharLive | mp3/student-distrib/term.c:361-367 | a backspace also erases |
| Multiplexer.Terminals.SetCursor | mp3/student-distrib/lib.c:96-107 | a place on the screen is taken as it is; any other is moved by whole multiples of 80 in both directions, so that the row is the one the comment promises exactly for the first 25 rows of every 400, and is on the screen exactly for the first 25 of every 80 |
| Multiplexer.RowAsCommented | mp3/student-distrib/lib.c:96-104 | reducing a row modulo 80 instead of 25 gives the same row exactly for the first 25 rows of every 400; row 30 stays below the screen |
| Multiplexer.Terminals.WriteHidden | mp3/student-distrib/term.c:139-162 | writing for a hidden group changes that group's terminal only; the visible page and cursor are given back |
| Multiplexer.Terminals.TermWrite | mp3/student-distrib/term.c:121-168 | -1 on a null buffer; otherwise the writing group's terminal takes the text as a terminal of its own would, and no other terminal changes, whichever group is visible |
| Multiplexer.Terminals.SwitchTerm | mp3/student-distrib/term.c:377-406 | a group out of range is refused; otherwise that group becomes visible and no group's screen or cursor changes |
| LineInput.Key | mp3/student-distrib/term.c:261-352 | whatever the key, the line buffer holds at most 128 characters, the last of which is then a newline, and the cursor stays on the screen |
| LineInput.TypedIsEntered | mp3/student-distrib/term.c:280-331 | typed characters other than newline, backspace and tab land in the line and on the screen as they are, in order, until the line holds 127 |
| LineInput.TypedIsRead | mp3/student-distrib/term.c:64-108 | a read that is waiting ends with what was in the line, what is typed, and the newline |
| LineInput.NobodyReads | mp3/student-distrib/term.c:315-331 | without a read a newline empties the line |
| LineInput.TabIsBlanks | mp3/student-distrib/term.c:293-306 | a tab enters blanks only, up to the next place that is a multiple of four or to the last place but one |
| Multiplexer.Terminals.ReadTyped | mp3/student-distrib/term.c:64-331 | what a user types is what the process of the visible group reads: the line so far, the text as far as it fits, and the newline, at most nbytes bytes; the screen shows it and no other terminal changes |
| LineInput.EraseTakesBack | mp3/student-distrib/term.c:341-352 | backspace takes exactly one typed character back out of the line, and a tab with as many backspaces as the spaces it stood for |
| LineInput.EraseOnPaper | mp3/student-distrib/term.c:361-367 | a printed character and a backspace leave a space with the cursor on it again, even across the end of a line or of the screen, and change nothing else written before |
| Multiplexer.Terminals.TypeTab | mp3/student-distrib/term.c:293-306 | a tab enters and echoes spaces up to the next multiple of four, or up to the last place but one |
| Multiplexer.Terminals.AddCharToTerm | mp3/student-distrib/term.c:280-331 | refused exactly when the buffer has no room for the key; otherwise the visible terminal takes it and echoes it, and a newline ends the line |
| Multiplexer.Terminals.BackspaceTerm | mp3/student-distrib/term.c:341-352 | nothing on an empty line; otherwise the last character leaves the line and the screen |
| Multiplexer.Terminals.AddChar | mp3/student-distrib/term.c:261-268 | a key acts on the visible group as on a terminal of its own, and no other terminal changes |
| Multiplexer.Terminals.ClearTerm | mp3/student-distrib/term.c:253-259 | the visible screen is blank with its cursor home; lines and other screens stay |
| Multiplexer.Terminals.TakeTurn | mp3/student-distrib/term.c:72-82 | a read takes its turn exactly when no other read of the group has it |
| Multiplexer.Terminals.ArmRead | mp3/student-distrib/term.c:85 | from here on the read waits for a newline that has not been typed yet |
| LineInput.NewlineBetweenIsForgotten | mp3/student-distrib/term.c:72-97 | a newline typed between the two is in the line but does not end the read; typed after them it does |
| Multiplexer.Terminals.EndRead | mp3/student-distrib/term.c:87-108 | a read ends only after a newline; it hands over what has been typed, at most nbytes bytes of it, and empties the line |
| Multiplexer.Terminals.Run | mp3/student-distrib/term.c:64-406 | after any interleaving of output, the steps of reads, keys, clears and switches, each group's screen, cursor, line and reader are those of a terminal of its own that saw only what concerned its group, and its screen is the end of the endless sheet on which its output, echoes and erasures have been typed |
| LineInput.PlayOnPaper | mp3/student-distrib/term.c:253-367 | whatever happens to a terminal, its screen is the last 25 rows of that sheet, a clear turning to 25 fresh rows |
| LineInput.BlankShows | mp3/student-distrib/lib.c:33-42 | a cleared terminal shows 25 blank rows, so every run from boot has a sheet to start on |
| ProcessForest.SpawnKeepsForest | mp3/student-distrib/pcb.c:71-107 | a new process on top of one group's chain keeps the table a forest of three chains over the kernel |
| ProcessForest.TearKeepsForest | mp3/student-distrib/pcb.c:120-143 | removing the active process of a group does too |
| ProcessForest.SpawnThenTear | mp3/student-distrib/system.c:264-277 | execute followed by halt gives back pid_array, active_pid and the PCBs of all live processes |
| ProcessForest.ActiveOnTop | mp3/student-distrib/pcb.h:13 | the active PID of a group is the end of its chain, and the kernel's exactly when the chain is empty |
| ProcessForest.OneGroupPerProcess | mp3/student-distrib/pcb.h:13 | by following parent PIDs: every live process but the kernel is an ancestor of the active process of exactly one group, at one depth, and every chain ends at PID 0 |
| ProcessForest.BeyondTheKernel | mp3/student-distrib/pcb.c:42-44 | no ancestor lies beyond the kernel: past the end of a chain there is only -1 |
| ProcessForest.ProcessesAreApart | mp3/student-distrib/pcb.c:188-212 | frames of different processes are disjoint and outside kernel memory; PCB blocks are disjoint and hold their kernel stacks |
| ProcessForest.AddressesAre | mp3/student-distrib/pcb.c:188-212 | frames follow the kernel page, 4 MB each and aligned; PCB blocks go down from its end, 8 KB each and aligned, with the kernel stack at the last word |
| Processes.Kernel.PcbInit | mp3/student-distrib/pcb.c:22-58 | only the kernel is live, and it is active in every group |
| Processes.Kernel.GetNewPid | mp3/student-distrib/pcb.c:223-233 | the lowest free slot, or -1 exactly when there is none |
| Processes.Kernel.PcbSetup | mp3/student-distrib/pcb.c:71-107 | refuses -1 and changes nothing; otherwise the slot is live with its own PID and the active process as parent, and is active |
| Processes.Kernel.PcbTeardown | mp3/student-distrib/pcb.c:120-143 | the active process is gone, its parent is active, and esp0 is the parent's kernel stack |
| Processes.Kernel.Execute | mp3/student-distrib/system.c:135-250 | fails exactly when no PID is free or the program does not load, and then pid_array, active_pid and all live PCBs are as before; otherwise the lowest free PID is the child of the active process; the page shows the frame of the active process |
| Processes.Kernel.HaltProcess | mp3/student-distrib/system.c:264-277 | the parent is active again, its frame is mapped and its kernel stack set |
| Processes.Kernel.ScheduleNext | mp3/student-distrib/scheduler.c:40-87 | the groups take turns; the page shows the frame of the new group's active process; the table does not change |
| Processes.Kernel.StaticStartShell | mp3/student-distrib/system.c:557-593 | other PIDs are refused; the table afterwards is a forest iff the shell loads: when it does not, the cleanup clears the kernel's own slot and sets active_pid[0] to -1 |
| Processes.Kernel.Boot | mp3/student-distrib/kernel.c:154-190 | with both base shells loaded the groups hold PIDs 2 and 3 and, if it loads, shell 1; the mapping invariant holds from the first execute on |
| Processes.Kernel.Run | mp3/student-distrib/system.c:112-277 | any interleaving of execute, halt and timer ticks keeps the forest and the mapping of the program page, and does to each group's chain exactly what its own events do |
| GroupChains.UnusedIsFree | mp3/student-distrib/pcb.c:223-233 | the PID that the next execute takes is the lowest on no chain |
| GroupChains.OthersKeepTheirChains | mp3/student-distrib/system.c:112-277 | no event touches the chain of a group that is not running |
| GroupChains.TicksGoRound | mp3/student-distrib/scheduler.c:40-87 | timer ticks let the groups run in turn |
| GroupChains.BottomStays | mp3/student-distrib/system.c:112-277 | over any events, what lies below the lowest point a group's chain reaches stays as it was |
| GroupChains.HaltUndoesExecute | mp3/student-distrib/system.c:264-277 | a halt undoes the latest execute of its group that is still running, whatever ran in between, in this group or in others |
| GroupChains.FullAtSix | mp3/student-distrib/pcb.c:223-233 | execute runs out of PIDs exactly when six processes are running |
| FileImage.ContentIsItsBlocks | mp3/student-distrib/file_sys.c:266-304 | the content of a file is its data blocks put together and cut to the length |
| FileImage.PiecesMakeOneRead | mp3/student-distrib/file_sys.c:61-83 | successive reads of any sizes return together what one read of the sum returns |
| FileImage.PiecesReachTheEnd | mp3/student-distrib/file_sys.c:69-80 | they give the whole rest of the file iff the sizes reach its end, and a further read finds nothing iff they do |
| FileReader.Process.ReadPieces | mp3/student-distrib/file_sys.c:61-83 | calls of file_read of any sizes, one after the other, store what one read of their sum would, and leave the position behind it |
| FileReader.Process.ReadPiecesAndMore | mp3/student-distrib/file_sys.c:69-80 | one more call, of any positive size, returns 0 exactly when the sizes have reached the end of the file |
| FileReader.Process.ReadToEnd | mp3/syscalls/ece391cat.c:21-28 | reading chunk after chunk until a read returns 0 gives exactly the rest of the file, and ends |
| FileReader.CopyBlocks | mp3/student-distrib/file_sys.c:273-306 | the loop over moving block and position copies exactly the bytes asked for, across block boundaries |
| FileReader.ReadData | mp3/student-distrib/file_sys.c:256-307 | for every inode, offset and length: 0 for no bytes, failure for no such inode, else exactly content[offset .. min(offset + length, size)] is stored at the buffer, nothing else is written, and the count is returned |
| FileReader.Process.FileRead | mp3/student-distrib/file_sys.c:61-83 | failure on a bad descriptor or count, changing nothing; otherwise the bytes from the file position, which moves behind them |
| FileReader.Process.DirRead | mp3/student-distrib/file_sys.c:147-172 | the name of the next entry cut or padded to the bytes asked for; 0 after the last entry |
| FileReader.ReadDentryByName | mp3/student-distrib/file_sys.c:212-241 | the first entry whose name is exactly the text and whose inode number passes the check; failure iff there is none |
| FileImage.ComparedBothWays | mp3/student-distrib/file_sys.c:225-230 | the two strncmp calls, one over each length, are equality of the names |
| FileImage.ListedNamesAreFound | mp3/student-distrib/file_sys.c:165 | a name listed by dir_read is the entry's name when read up to a NUL, and is found by read_dentry_by_name no later than its entry |
| FileReader.Process.GetNewFd | mp3/student-distrib/pcb.c:167-177 | the lowest free descriptor, or -1 exactly when all are in use |
| FileReader.Process.Open | mp3/student-distrib/system.c:344-384 | succeeds exactly when the name is found, its type is known and a descriptor is free; that descriptor then stands at position 0 of the file and no other changes; a failure leaves the descriptors alone, except that a type that is not known leaves the first free one taken |
| FileReader.Process.FileClose | mp3/student-distrib/file_sys.c:106-118 | fails on a descriptor not in use; otherwise frees exactly that one |
| FileReader.Process.CopyProgram | mp3/student-distrib/system.c:500-508 | the byte-at-a-time loop copies the whole file to the program's place in the page and nothing else, and ends |
| FileReader.Process.CheckMagic | mp3/student-distrib/system.c:490-495 | true exactly for a file that starts with the bytes 7F 45 4C 46 |
| FileReader.MagicIsElf | mp3/student-distrib/system.h:15 | the word compared with is these four bytes, lowest first |
| FileReader.WordReadsBack | mp3/student-distrib/system.c:514 | a word is read from its four bytes, lowest first |
| FileReader.Process.LoadProgram | mp3/student-distrib/system.c:484-515 | loads exactly when the name opens and the file starts with 7F 45 4C 46: the page then holds the file, the entry point is the int whose bytes, lowest first, are those at its offset 24, and the descriptor is free again; otherwise the page is unchanged, and a file that is no program leaves one descriptor taken |
| CStrings.Strncmp | mp3/student-distrib/lib.c:527-541 | zero iff the texts agree up to n bytes or the first NUL, for every call that stays inside both buffers |
| CStrings.Strncpy | mp3/student-distrib/lib.c:564-575 | exactly n bytes are written: the text cut or padded with NULs |
| CStrings.Strlen | mp3/student-distrib/lib.c:354-359 | the position of the first NUL |
| CStrings.Strrev | mp3/student-distrib/lib.c:335-348 | the text before the NUL is reversed in place; the NUL and what follows stay |
| Numerals.NumeralReadsBack | mp3/student-distrib/lib.c:299-329 | the numeral reads back as the value, has only digits of the radix, and starts with 0 only for 0 |
| Numerals.OnlyOneNumeral | mp3/student-distrib/lib.c:299-329 | it is the only such numeral for the value |
| Numerals.DigitsAre | mp3/student-distrib/lib.c:299-300 | the digits are 0 to 9 and A to Z |
| Numerals.RoomForAll | mp3/student-distrib/lib.c:299-329 | 33 bytes hold every 32-bit value in every radix from 2 to 36 |
| Numerals.Itoa | mp3/student-distrib/lib.c:299-329 | the buffer holds the numeral, a NUL right behind its last digit, and is unchanged after that |

## Left out

- Processes.Kernel.Boot: nothing is modelled past a base shell that does not load, because the code then uses a process slot that is NULL.
- Display.Screen.CopyImage: the bytes of a page below its 182 rows are arbitrary where the copy of 16000 bytes reads past the build buffer.
- Multiplexer.Terminals.TermWrite: takes the text as it is when the call is made; a buffer inside video memory is not modelled.
- FileReader.Process.LoadProgram: the file has to fit in the page, a check the code does not make.
- Command-line parsing in system_execute, file-descriptor tables of processes, the register and stack switching of execute, halt and schedule_next, tss_esp0 of paused processes, and user vidmap remapping.
- The contents of the VGA registers, palettes, fonts and the status bar; the memory fence around the build buffer; the timer fields of game_info.
- add_a_fruit during play, which no code path of the game reaches.
- The transmit path of the line discipline, its LED and button encodings, and opening and closing it.
- The keyboard's scan codes and command queue; printf formats other than those __print_char uses; term_open and term_close.
- Directory writing and file writing, which always fail; the RTC, PIT, PIC, IDT and paging structures; mp1, fish, the user programs and the tests.
