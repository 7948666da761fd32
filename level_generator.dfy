/** The level generator (LevelGenerator): generates the critical path by a
    random walk, instantiates and connects one room per path cell, then
    fills every other cell of the grid with a closed room. */
module Level {
  import opened Grid
  import opened Rooms
  import opened CriticalPath
  import opened Connectivity

  class LevelGenerator {
    const levelWidth: int
    const levelHeight: int

    /** The random walk, in walk order. */
    var criticalPath: seq<Coord>

    /** The instantiated rooms, by the grid cell each was placed at. */
    var rooms: map<Coord, RoomFrame>

    constructor (levelWidth: int, levelHeight: int)
      ensures this.levelWidth == levelWidth && this.levelHeight == levelHeight
      ensures criticalPath == [] && rooms == map[]
    {
      this.levelWidth := levelWidth;
      this.levelHeight := levelHeight;
      criticalPath := [];
      rooms := map[];
    }

    /** Builds the whole level on a freshly created generator: the complete
        critical path for `rng`, a room in every grid cell and no other,
        doors open exactly as the path dictates. */
    method MakeLevel(rng: nat -> nat)
      requires levelWidth >= 1 && levelHeight >= 1
      requires criticalPath == []
      modifies this
      ensures Generated(criticalPath, levelWidth, levelHeight, rng)
      ensures rooms.Keys == GridCells(levelWidth, levelHeight)
      ensures |rooms| == levelWidth * levelHeight
      ensures forall c | c in rooms ::
        && rooms[c].position == c
        && (rooms[c].prefab == CriticalPathPrefab <==> c in criticalPath)
        && rooms[c].State() == CellDoors(criticalPath, c)
    ensures forall c | c in rooms :: fresh(rooms[c])
    {
      ClearRooms();
      GenerateCriticalPath(rng);
      WalkPrefixIsWalk(criticalPath, levelWidth, levelHeight, rng);
      DistinctElements(criticalPath);
      AssembleRooms();
      GridKeys(rooms, levelWidth, levelHeight);
    }

    /** The rooms of a level around a given critical path: CreateCriticalPath
        followed by FillEmptyTiles. */
    method AssembleRooms()
      requires levelWidth >= 1 && levelHeight >= 1
      requires |Elements(criticalPath)| == |criticalPath|
      requires forall i :: 0 <= i < |criticalPath| ==> InGrid(criticalPath[i], levelWidth, levelHeight)
      requires rooms == map[]
      modifies this
      ensures criticalPath == old(criticalPath)
      ensures forall c :: c in rooms <==> InGrid(c, levelWidth, levelHeight)
      ensures forall c | c in rooms ::
        && rooms[c].position == c
        && (rooms[c].prefab == CriticalPathPrefab <==> c in criticalPath)
        && rooms[c].State() == CellDoors(criticalPath, c)
    ensures forall c | c in rooms :: fresh(rooms[c])
    {
      CreateCriticalPath();
      ghost var pathRooms := rooms;
      FillEmptyTiles();
      forall c | c in rooms
        ensures rooms[c].State() == CellDoors(criticalPath, c)
      {
        if c in criticalPath {
          var j := IndexOf(criticalPath, c);
          assert rooms[c] == pathRooms[criticalPath[j]];
        }
      }
    }

    /** Forgets every room instantiated before; the path is kept. */
    method ClearRooms()
      modifies this
      ensures rooms == map[]
      ensures criticalPath == old(criticalPath)
    {
      rooms := map[];
    }

    /** Places a new room, all doors closed, at `gridPosition`. */
    method InstantiateRoomFrame(gridPosition: Coord, prefab: Prefab) returns (room: RoomFrame)
      modifies this
      ensures fresh(room) && room.position == gridPosition && room.prefab == prefab
      ensures room.State() == AllClosed
      ensures rooms == old(rooms)[gridPosition := room]
      ensures criticalPath == old(criticalPath)
    {
      room := new RoomFrame(gridPosition, prefab);
      rooms := rooms[gridPosition := room];
    }

    /** Instantiates a room for every path cell, in path order, and
        connects each room to the one before it. */
    method CreateCriticalPath()
      requires rooms == map[]
      requires |Elements(criticalPath)| == |criticalPath|
      modifies this
      ensures criticalPath == old(criticalPath)
      ensures forall c :: c in rooms <==> c in criticalPath
      ensures forall c | c in rooms :: rooms[c].position == c && rooms[c].prefab == CriticalPathPrefab
      ensures forall i {:trigger rooms[criticalPath[i]]} :: 0 <= i < |criticalPath| ==>
        rooms[criticalPath[i]].State() == PathDoors(criticalPath, i)
    ensures forall c | c in rooms :: fresh(rooms[c])
    {
      var previousRoom: RoomFrame? := null;
      var i := 0;
      while i < |criticalPath|
        invariant 0 <= i <= |criticalPath|
        invariant criticalPath == old(criticalPath)
        invariant forall j :: 0 <= j < i ==> criticalPath[j] in rooms
        invariant forall c | c in rooms :: c in criticalPath
        invariant forall c {:trigger rooms[c]} | c in rooms :: rooms[c].position == c && rooms[c].prefab == CriticalPathPrefab
        invariant forall j {:trigger rooms[criticalPath[j]]} :: 0 <= j < i ==>
          rooms[criticalPath[j]].State() == BuiltDoors(criticalPath, i, j)
        invariant forall c | c in rooms :: fresh(rooms[c])
        invariant previousRoom == null <==> i == 0
        invariant previousRoom != null ==> fresh(previousRoom) && previousRoom == rooms[criticalPath[i - 1]]
      {
        previousRoom := AddPathRoom(i, previousRoom);
        i := i + 1;
      }
    }

    /** One round of CreateCriticalPath: the room of path cell i, connected
        to `previousRoom`, the room of cell i - 1. */
    method AddPathRoom(i: nat, previousRoom: RoomFrame?) returns (currentRoom: RoomFrame)
      requires i < |criticalPath| && |Elements(criticalPath)| == |criticalPath|
      requires forall j :: 0 <= j < i ==> criticalPath[j] in rooms
      requires forall c | c in rooms :: c in criticalPath
      requires forall c {:trigger rooms[c]} | c in rooms :: rooms[c].position == c && rooms[c].prefab == CriticalPathPrefab
      requires forall j {:trigger rooms[criticalPath[j]]} :: 0 <= j < i ==>
        && rooms[criticalPath[j]].position == criticalPath[j]
        && rooms[criticalPath[j]].State() == BuiltDoors(criticalPath, i, j)
      requires previousRoom == null <==> i == 0
      requires previousRoom != null ==> previousRoom == rooms[criticalPath[i - 1]]
      modifies this, previousRoom
      ensures criticalPath == old(criticalPath)
      ensures fresh(currentRoom) && currentRoom.position == criticalPath[i] && currentRoom.prefab == CriticalPathPrefab
      ensures rooms == old(rooms)[criticalPath[i] := currentRoom]
      ensures forall j :: 0 <= j <= i ==> criticalPath[j] in rooms
      ensures forall c | c in rooms :: c in criticalPath
      ensures forall c {:trigger rooms[c]} | c in rooms :: rooms[c].position == c && rooms[c].prefab == CriticalPathPrefab
      ensures forall j {:trigger rooms[criticalPath[j]]} :: 0 <= j <= i ==>
        rooms[criticalPath[j]].State() == BuiltDoors(criticalPath, i + 1, j)
    {
      NoRepeatBefore(criticalPath, i);
      if i > 0 {
        NoRepeatBefore(criticalPath, i - 1);
      }
      var currentPos := criticalPath[i];
      currentRoom := InstantiateRoomFrame(currentPos, CriticalPathPrefab);
      if previousRoom != null {
        ConnectRooms(previousRoom, currentRoom);
      }
      forall j {:trigger rooms[criticalPath[j]]} | 0 <= j <= i
        ensures rooms[criticalPath[j]].State() == BuiltDoors(criticalPath, i + 1, j)
      {
        if j == i {
          assert rooms[criticalPath[j]] == currentRoom;
        } else if j + 1 == i {
          assert rooms[criticalPath[j]] == previousRoom;
        } else {
          var room := rooms[criticalPath[j]];
          assert room == old(rooms[criticalPath[j]]);
          assert room.position != previousRoom.position;
          assert room.State() == old(room.State());
        }
      }
    }

    /** Opens the pair of doors through which the two rooms face each other,
        decided on their positions, and changes no other flag. */
    method ConnectRooms(previousRoom: RoomFrame, currentRoom: RoomFrame)
      modifies previousRoom, currentRoom
      ensures previousRoom.State() ==
        OpenOnPrevious(old(previousRoom.State()), FacingDoors(previousRoom.position, currentRoom.position))
      ensures currentRoom.State() ==
        OpenOnCurrent(old(currentRoom.State()), FacingDoors(previousRoom.position, currentRoom.position))
    {
      var previousPos := previousRoom.position;
      var currentPos := currentRoom.position;
      if previousPos.y == currentPos.y {
        if previousPos.x < currentPos.x {
          currentRoom.SetLeftDoorClosed(false);
          previousRoom.SetRightDoorClosed(false);
        } else if previousPos.x > currentPos.x {
          currentRoom.SetRightDoorClosed(false);
          previousRoom.SetLeftDoorClosed(false);
        }
      } else {
        currentRoom.SetBottomDoorClosed(false);
        previousRoom.SetTopDoorClosed(false);
      }
    }

    /** The cells FillEmptyTiles has handled before reaching (x, y), columns
        left to right and each column bottom to top, that are off the path. */
    ghost predicate FilledBefore(c: Coord, x: int, y: int)
      reads this
    {
      && 0 <= c.x && 0 <= c.y < levelHeight
      && (c.x < x || (c.x == x && c.y < y))
      && c !in criticalPath
    }

    /** Instantiates a closed room in every grid cell that is not on the path. */
    method FillEmptyTiles()
      requires forall c | c in rooms :: c in criticalPath
      modifies this
      ensures criticalPath == old(criticalPath)
      ensures forall c :: c in rooms <==> c in old(rooms) || (InGrid(c, levelWidth, levelHeight) && c !in criticalPath)
      ensures forall c | c in old(rooms) :: rooms[c] == old(rooms)[c]
      ensures forall c | c in rooms && c !in old(rooms) ::
        fresh(rooms[c]) && rooms[c].position == c && rooms[c].prefab == FramePrefab && rooms[c].State() == AllClosed
    {
      var x := 0;
      while x < levelWidth
        invariant 0 <= x && (x <= levelWidth || x == 0)
        invariant criticalPath == old(criticalPath)
        invariant forall c :: c in rooms <==> c in old(rooms) || FilledBefore(c, x, 0)
        invariant forall c | c in old(rooms) :: rooms[c] == old(rooms)[c]
        invariant forall c | c in rooms && c !in old(rooms) ::
          fresh(rooms[c]) && rooms[c].position == c && rooms[c].prefab == FramePrefab && rooms[c].State() == AllClosed
      {
        var y := 0;
        while y < levelHeight
          invariant 0 <= y && (y <= levelHeight || y == 0)
          invariant criticalPath == old(criticalPath)
          invariant forall c :: c in rooms <==> c in old(rooms) || FilledBefore(c, x, y)
          invariant forall c | c in old(rooms) :: rooms[c] == old(rooms)[c]
          invariant forall c | c in rooms && c !in old(rooms) ::
            fresh(rooms[c]) && rooms[c].position == c && rooms[c].prefab == FramePrefab && rooms[c].State() == AllClosed
        {
          var currentTile := Coord(x, y);
          if currentTile !in criticalPath {
            var _ := InstantiateRoomFrame(currentTile, FramePrefab);
          }
          y := y + 1;
        }
        x := x + 1;
      }
    }

    /** The generator's candidate directions from `fromPosition`, and the
        one draw `draw` of the random stream picks among them; Zero when
        there is none. */
    method GetValidDirectionFrom(fromPosition: Coord, draw: nat) returns (dir: Coord)
      ensures dir == Pick(ValidDirections(fromPosition, criticalPath, levelWidth, levelHeight), draw)
      ensures dir == Zero <==> ValidDirections(fromPosition, criticalPath, levelWidth, levelHeight) == []
      ensures InGrid(fromPosition, levelWidth, levelHeight) ==>
        && (dir == Zero <==>
             && !CanMove(fromPosition, Right, criticalPath, levelWidth, levelHeight)
             && !CanMove(fromPosition, Left, criticalPath, levelWidth, levelHeight)
             && !CanMove(fromPosition, Up, criticalPath, levelWidth, levelHeight))
        && (dir != Zero ==> CanMove(fromPosition, dir, criticalPath, levelWidth, levelHeight))
    {
      var validDirections: seq<Coord> := [];
      if fromPosition.x < levelWidth - 1 && fromPosition.Plus(Right) !in criticalPath {
        validDirections := validDirections + [Right];
      }
      if fromPosition.x > 0 && fromPosition.Plus(Left) !in criticalPath {
        validDirections := validDirections + [Left];
      }
      if fromPosition.y < levelHeight - 1 && fromPosition.Plus(Up) !in criticalPath {
        validDirections := validDirections + [Up];
      }
      ValidDirectionsInOrder(fromPosition, criticalPath, levelWidth, levelHeight);
      ValidDirectionsAreMoves(fromPosition, criticalPath, levelWidth, levelHeight);
      if |validDirections| == 0 {
        return Zero;
      }
      var randomIndex := draw % |validDirections|;
      dir := validDirections[randomIndex];
    }

    /** The random walk: start in a random column of row 0, then step in a
        random valid direction until none is left. */
    method GenerateCriticalPath(rng: nat -> nat)
      requires levelWidth >= 1 && levelHeight >= 1
      requires criticalPath == []
      modifies this
      ensures Generated(criticalPath, levelWidth, levelHeight, rng)
      ensures |criticalPath| <= levelWidth * levelHeight
      ensures rooms == old(rooms)
    {
      var x := rng(0) % levelWidth;
      var roomPosition := Coord(x, 0);
      criticalPath := criticalPath + [roomPosition];

      var count := 0;
      while true
        invariant WalkPrefix(criticalPath, levelWidth, levelHeight, rng)
        invariant count == |criticalPath| - 1 && roomPosition == criticalPath[count]
        invariant |criticalPath| <= levelWidth * levelHeight
        invariant rooms == old(rooms)
        decreases levelWidth * levelHeight - count
      {
        if count > levelWidth * levelHeight {
          // "Endless Loop Detected": never reached, since the path is a
          // self-avoiding walk inside the grid (WalkFitsGrid).
          assert false;
          break;
        }
        var dir := GetValidDirectionFrom(roomPosition, rng(count + 1));
        if dir == Zero {
          break;
        }

        ExtendWalkPrefix(criticalPath, levelWidth, levelHeight, rng, dir);
        roomPosition := roomPosition.Plus(dir);
        criticalPath := criticalPath + [roomPosition];
        count := count + 1;
      }
    }
  }
}
