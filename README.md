# Spelunky-style level generator, modelled in Dafny

This project models the grid logic of a Spelunky-style level generator.
The model has three parts:

- **The critical path.** A random walk through a `levelWidth x levelHeight` grid of rooms. It starts in a random column of row 0. Each step moves Right, Left or Up into a cell inside the grid that the walk has not visited yet. The walk stops when no such move remains.
- **Assembly.** The generator creates one room per path cell, in path order. It connects each pair of consecutive rooms by opening the two doors through which they face each other. It then fills every other cell of the grid with a room whose doors are all closed.
- **The room.** A `RoomFrame` has four door-closed flags, all initially true, each with a getter and a setter.

The modules follow the program:

- `Grid`: coordinates, directions and the cells of the grid.
- `Rooms`: `RoomFrame` and its door flags.
- `CriticalPath`: the walk, stated on values, with the lemmas about every walk.
- `Connectivity`: which doors assembly opens, stated on values.
- `Level`: the `LevelGenerator` class, whose methods follow the generator's methods.

`LevelGenerator` keeps the path as a `seq<Coord>` field that `GenerateCriticalPath` appends to. It keeps the level as a field `rooms: map<Coord, RoomFrame>`, keyed by the grid cell each room was placed at. Each method is proved against a specification function from `CriticalPath` or `Connectivity`:

- `GenerateCriticalPath` against `Generated`;
- `CreateCriticalPath` against `PathDoors`;
- `MakeLevel` against `CellDoors`.

The lemmas prove what the generator promises about those functions.

**Randomness** is a parameter `rng: nat -> nat`, an arbitrary stream of draws:

- `Random.Range(0, levelWidth)` for the start column is `rng(0) % levelWidth`.
- `Random.Range(0, n)` at step k is `rng(k) % n`.

Every property is proved for every stream, so no distribution is assumed.

**A walk never stops while the cell to its left, right or above is free.** A 3 x 2 walk that starts at (1, 0) and moves up does not stop at (1, 1): Right and Left are still valid there (`CriticalPath.NoStopAfterOneUpOnThreeByTwo`). Every critical path ends in the top row, and it stops only once no sideways move is left either.

## Model

| member | source | states |
|---|---|---|
| Grid.RowCells | Assets/Scripts/LevelGenerator.cs:101-111 | the cells (x, y) of one row with 0 <= x < width, exactly width of them |
| Grid.GridCells | Assets/Scripts/LevelGenerator.cs:101-111 | the set of every cell of the w x h grid: a cell is in it iff it is in bounds, and it has w * h elements |
| Grid.GridKeys | Assets/Scripts/LevelGenerator.cs:101-111 | a map defined exactly on the in-bounds cells has the grid cells as keys and w * h entries |
| Grid.DistinctElements | Assets/Scripts/LevelGenerator.cs:186-201 | helper of WalkFitsGrid: a sequence without repeated cells has as many distinct cells as entries |
| Grid.ElementsBound | Assets/Scripts/LevelGenerator.cs:130-148 | helper of DistinctByCount: a sequence of cells never has more distinct cells than entries |
| Grid.DistinctByCount | Assets/Scripts/LevelGenerator.cs:41-52 | helper of AddPathRoom: as many distinct cells as entries implies no cell repeats |
| Grid.NoRepeatBefore | Assets/Scripts/LevelGenerator.cs:41-52 | on a repetition-free path, no earlier cell equals path[i] (a path room is never overwritten) |
| Grid.IndexOf | Assets/Scripts/LevelGenerator.cs:106 | helper of CellDoors: the first position of a cell that is on the path: it holds that cell, and the cell does not occur before it |
| Rooms.DoorUpdateLaws | Assets/Scripts/RoomFrame.cs:17-54 | setting a flag: reading it back gives the value set, the other three flags are unchanged, and setting it again with the same value changes nothing |
| Rooms.OppositeFaces | Assets/Scripts/LevelGenerator.cs:66-85 | the door a neighbouring room faces back with is on the opposite side, and stepping through both returns to the cell |
| Rooms.RoomFrame.constructor | Assets/Scripts/RoomFrame.cs:12-15 | a new room has all four doors closed |
| Rooms.RoomFrame.LeftDoorClosed | Assets/Scripts/RoomFrame.cs:19 | the getter returns the left flag of the room's state |
| Rooms.RoomFrame.RightDoorClosed | Assets/Scripts/RoomFrame.cs:28 | the getter returns the right flag of the room's state |
| Rooms.RoomFrame.TopDoorClosed | Assets/Scripts/RoomFrame.cs:38 | the getter returns the top flag of the room's state |
| Rooms.RoomFrame.BottomDoorClosed | Assets/Scripts/RoomFrame.cs:48 | the getter returns the bottom flag of the room's state |
| Rooms.RoomFrame.SetLeftDoorClosed | Assets/Scripts/RoomFrame.cs:20-24 | afterwards the getter returns the value set, and only the left flag changed |
| Rooms.RoomFrame.SetRightDoorClosed | Assets/Scripts/RoomFrame.cs:29-33 | afterwards the getter returns the value set, and only the right flag changed |
| Rooms.RoomFrame.SetTopDoorClosed | Assets/Scripts/RoomFrame.cs:39-43 | afterwards the getter returns the value set, and only the top flag changed |
| Rooms.RoomFrame.SetBottomDoorClosed | Assets/Scripts/RoomFrame.cs:49-53 | afterwards the getter returns the value set, and only the bottom flag changed |
| CriticalPath.KeepAllowed | Assets/Scripts/LevelGenerator.cs:182-201 | a candidate is kept iff it passes the generator's bound-and-unvisited test, and no more candidates come out than went in |
| CriticalPath.ValidDirectionsInOrder | Assets/Scripts/LevelGenerator.cs:182-201 | the valid list is Right, then Left, then Up, each present exactly when its own bound check and not-on-path check pass |
| CriticalPath.ValidDirectionsAreMoves | Assets/Scripts/LevelGenerator.cs:182-212 | every valid direction is Right, Left or Up toward an unvisited cell; from an in-bounds cell a direction is valid iff it moves into an unvisited grid cell; at most three of them |
| CriticalPath.PrefixCellInGrid | Assets/Scripts/LevelGenerator.cs:128-148 | every cell of a walk, including the start (rng(0) % w, 0), lies inside [0, w) x [0, h) |
| CriticalPath.StepIsMove | Assets/Scripts/LevelGenerator.cs:186-201 | each step is a Right, Left or Up move to a cell not yet on the path, and it stays in the grid |
| CriticalPath.WalkPrefixIsWalk | Assets/Scripts/LevelGenerator.cs:128-150 | the path so far starts in row 0, stays in the grid, has no duplicate cells, and consecutive cells differ by one Right, Left or Up move |
| CriticalPath.WalkFitsGrid | Assets/Scripts/LevelGenerator.cs:135-139 | a repetition-free path of in-bounds cells has at most w * h cells, so the step-count guard is never reached |
| CriticalPath.RowsNeverDecrease | Assets/Scripts/LevelGenerator.cs:185-201 | Down is never taken, so y never decreases along the path |
| CriticalPath.EndsOnTopRow | Assets/Scripts/LevelGenerator.cs:140-145 | when the walk stops, the last cell is in the top row h - 1 |
| CriticalPath.SingleColumnIsCorridor | Assets/Scripts/LevelGenerator.cs:186-201 | on a one-column level the path is exactly (0, 0), (0, 1), ..., (0, h - 1) |
| CriticalPath.ColumnClimbs | Assets/Scripts/LevelGenerator.cs:186-201 | on a one-column level the i-th cell of any walk is (0, i) |
| CriticalPath.Deterministic | Assets/Scripts/LevelGenerator.cs:125-152 | the same stream of draws on the same grid gives the same critical path |
| CriticalPath.LongerWalkWasNotStuck | Assets/Scripts/LevelGenerator.cs:140-145 | a walk that continued past a cell had a valid direction there, so it did not stop there |
| CriticalPath.ExtendWalkPrefix | Assets/Scripts/LevelGenerator.cs:140-150 | appending the cell reached by the chosen direction keeps the path a walk for the same stream, still within w * h cells |
| CriticalPath.SamePrefix | Assets/Scripts/LevelGenerator.cs:128-150 | two walks for the same stream agree on their common length |
| CriticalPath.NoStopAfterOneUpOnThreeByTwo | Assets/Scripts/LevelGenerator.cs:186-201 | on a 3 x 2 grid, after (1, 0) then (1, 1), Right and Left are still valid |
| Connectivity.FacingDoorsAreOpposite | Assets/Scripts/LevelGenerator.cs:66-85 | a pair of rooms gets doors iff the two positions differ, and the two doors are on opposite sides |
| Connectivity.StepOpensFacingDoors | Assets/Scripts/LevelGenerator.cs:66-85 | for one step of the walk, the door opened on each room leads exactly into the other room |
| Connectivity.NeighbourInjective | Assets/Scripts/LevelGenerator.cs:66-85 | different sides of a room lead to different cells |
| Connectivity.PathDoorOpenIffNeighbour | Assets/Scripts/LevelGenerator.cs:41-52 | a door of a path room is open iff the path cell just before or just after it lies behind that door |
| Connectivity.OpenDoorsOfPathRoom | Assets/Scripts/LevelGenerator.cs:41-52 | the first and last path rooms have one open door and every other path room exactly two |
| Connectivity.CellDoorOpenIffLinked | Assets/Scripts/LevelGenerator.cs:38-112 | in the assembled level a door is open iff the cell behind it is consecutive with this one on the path; rooms off the path have every door closed |
| Connectivity.DoorsAgreeAcrossWalls | Assets/Scripts/LevelGenerator.cs:38-112 | the two rooms on either side of any wall agree on whether its door is open |
| Level.LevelGenerator.constructor | Assets/Scripts/LevelGenerator.cs:9-16 | a generator for the given size starts with an empty path and no rooms |
| Level.LevelGenerator.MakeLevel | Assets/Scripts/LevelGenerator.cs:24-32 | the path is the complete walk for the stream; the rooms' keys are exactly the w * h grid cells; each room sits at its own cell, is a path room iff its cell is on the path, and has the doors the path dictates; every room is a newly instantiated object |
| Level.LevelGenerator.AssembleRooms | Assets/Scripts/LevelGenerator.cs:28-30 | after CreateCriticalPath and FillEmptyTiles there is a room in an in-bounds cell and nowhere else, with the position, prefab and doors above; every room is a newly instantiated object |
| Level.LevelGenerator.ClearRooms | Assets/Scripts/LevelGenerator.cs:218-224 | no room is left, and the path is kept |
| Level.LevelGenerator.InstantiateRoomFrame | Assets/Scripts/LevelGenerator.cs:157-174 | a new room, all doors closed, with the given prefab, placed at the given cell and nothing else changed |
| Level.LevelGenerator.CreateCriticalPath | Assets/Scripts/LevelGenerator.cs:38-53 | one path-prefab room per path cell and no other room; the room of path[i] has exactly the doors PathDoors gives it: the doors facing path[i-1] and path[i+1]; every room is a newly instantiated object |
| Level.LevelGenerator.AddPathRoom | Assets/Scripts/LevelGenerator.cs:42-51 | one pass of the loop: a new room at path[i], connected to the room of path[i-1]; the earlier rooms other than that one keep their doors |
| Level.LevelGenerator.ConnectRooms | Assets/Scripts/LevelGenerator.cs:58-86 | the previous room opens Right, Left or Top and the current room Left, Right or Bottom, as the positions decide; nothing for equal positions; no other flag changes |
| Level.LevelGenerator.FillEmptyTiles | Assets/Scripts/LevelGenerator.cs:99-112 | adds exactly one fresh all-closed frame room for each in-bounds cell not on the path, and leaves the existing rooms as they were |
| Level.LevelGenerator.GetValidDirectionFrom | Assets/Scripts/LevelGenerator.cs:179-213 | returns the valid direction the draw picks; returns Zero iff none of Right, Left, Up is both in bounds and unvisited; otherwise a move into an unvisited grid cell |
| Level.LevelGenerator.GenerateCriticalPath | Assets/Scripts/LevelGenerator.cs:125-152 | from an empty path, builds exactly the complete walk for the stream: every step is the drawn valid move, the last cell has no valid direction, and there are at most w * h cells; the rooms are untouched |

## Left out

- Unity scene plumbing is not modelled: `Start`, `Instantiate`, `DestroyImmediate`, and `SetActive` on the door objects. A room is a `RoomFrame` object. The `roomFrames` list of scene objects becomes the `rooms` map from a grid cell to the room placed there. So `ClearRooms` empties that map.
- The null-prefab branch of `InstantiateRoomFrame` is not modelled, with its warning and `null` result. Both prefabs are assumed to be set; `Prefab` only records which one a room came from.
- World positions are not modelled: the float room size (9 by 5) and the floats `ConnectRooms` compares. Scaling by a positive constant keeps equality and order, so a room carries its grid cell and `ConnectRooms` compares those.
- The distribution of `Random.Range` is not modelled. The draws are an arbitrary stream, and `Random.Range(0, n)` is `draw % n`. `Deterministic` holds per stream: the same draws give the same path. The source sets no seed, so the stream differs from run to run.
- `AddRandomElementsToRooms` and `PopulatePathWithRooms` are empty stubs in the source. `MakeLevel` therefore calls only the four operations that do something.
- The unused local `previousPos` in `CreateCriticalPath` has no counterpart.
- The comments in `ConnectRooms` call the left and right cases the other way round. The model follows the code.
- The `Debug.LogError` of the step-count guard is not modelled. Its branch is proved unreachable.
- GenerateCriticalPath: does not model 32-bit wrap-around. The step guard's product `levelWidth * levelHeight` is a 32-bit int in the source; above 2147483647 it wraps, and the guard can then fire and cut the path short (for a 65536 x 65536 level the product is 0, so the walk stops after one step). The model's integers do not wrap, so it proves the guard unreachable for every size.
- MakeLevel: calling it again is not modelled. The source never clears `criticalPath`, so a second call would start from the old path. The method requires an empty path.
- Widths and heights below 1 are not modelled. The methods that generate require both to be at least 1, because `Random.Range(0, 0)` would put the start outside the grid.
- CreateCriticalPath: requires a path without repeated cells, because a map keeps only one room per cell. `GenerateCriticalPath` guarantees this (`WalkPrefixIsWalk`).
- FillEmptyTiles: requires that every existing room lies on the path. That is the state `CreateCriticalPath` leaves, and a map cannot hold the second room that the source would add to a non-empty list for the same cell.
