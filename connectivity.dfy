/** Which doors the level assembly opens, described on values: the rule
    ConnectRooms applies to one pair of rooms, the door flags every room of
    a critical path ends with, and what they mean for the level. */
module Connectivity {
  import opened Grid
  import opened Rooms
  import opened CriticalPath

  /** The doors ConnectRooms opens for a pair: one on the previous room and
      one on the current room, or none. */
  datatype Connection = NotConnected | Connected(onPrevious: Side, onCurrent: Side)

  /** ConnectRooms' decision, taken on the rooms' grid positions (their
      world positions are these scaled by the positive room size, which
      keeps equality and order). Same row: the room further left opens its
      Right door and the other its Left door; same cell: nothing; different
      rows: previous opens Top and current opens Bottom. */
  function FacingDoors(previous: Coord, current: Coord): Connection {
    if previous.y == current.y then
      if previous.x < current.x then Connected(RightDoor, LeftDoor)
      else if previous.x > current.x then Connected(LeftDoor, RightDoor)
      else NotConnected
    else Connected(TopDoor, BottomDoor)
  }

  /** Two different rooms always get a pair of doors on opposite sides. */
  lemma FacingDoorsAreOpposite(previous: Coord, current: Coord)
    ensures FacingDoors(previous, current).Connected? <==> previous != current
    ensures FacingDoors(previous, current).Connected? ==>
      FacingDoors(previous, current).onCurrent == FacingDoors(previous, current).onPrevious.Opposite()
  {
  }

  /** For the pair of one step of a walk, the door opened on each room
      leads exactly into the other room. */
  lemma StepOpensFacingDoors(previous: Coord, current: Coord)
    requires StepBetween(previous, current)
    ensures FacingDoors(previous, current).Connected?
    ensures Neighbour(previous, FacingDoors(previous, current).onPrevious) == current
    ensures Neighbour(current, FacingDoors(previous, current).onCurrent) == previous
  {
  }

  /** The flags of the previous room of a pair after ConnectRooms. */
  function OpenOnPrevious(d: Doors, link: Connection): Doors {
    if link.Connected? then d.With(link.onPrevious, false) else d
  }

  /** The flags of the current room of a pair after ConnectRooms. */
  function OpenOnCurrent(d: Doors, link: Connection): Doors {
    if link.Connected? then d.With(link.onCurrent, false) else d
  }

  /** The flags of the room of path[j] once CreateCriticalPath has handled
      the first n cells: created closed, connected as the current room of
      (path[j-1], path[j]), and, once path[j+1] has been handled, as the
      previous room of (path[j], path[j+1]). */
  function BuiltDoors(path: seq<Coord>, n: nat, j: nat): Doors
    requires j < n <= |path|
  {
    var entered := if j > 0 then OpenOnCurrent(AllClosed, FacingDoors(path[j - 1], path[j])) else AllClosed;
    if j + 1 < n then OpenOnPrevious(entered, FacingDoors(path[j], path[j + 1])) else entered
  }

  /** The flags the room of path[i] ends with in CreateCriticalPath. */
  function PathDoors(path: seq<Coord>, i: nat): Doors
    requires i < |path|
  {
    BuiltDoors(path, |path|, i)
  }

  /** Different sides of a cell lead to different cells. */
  lemma NeighbourInjective(c: Coord, s: Side, t: Side)
    ensures Neighbour(c, s) == Neighbour(c, t) <==> s == t
  {
  }

  /** A door of a path room is open exactly when the path cell just before
      or just after it lies behind that door. */
  lemma PathDoorOpenIffNeighbour(path: seq<Coord>, i: nat, s: Side)
    requires forall k :: 0 <= k < |path| - 1 ==> StepBetween(path[k], path[k + 1])
    requires i < |path|
    ensures !PathDoors(path, i).Closed(s) <==>
      (i > 0 && path[i - 1] == Neighbour(path[i], s)) || (i + 1 < |path| && path[i + 1] == Neighbour(path[i], s))
  {
    var entered := if i > 0 then OpenOnCurrent(AllClosed, FacingDoors(path[i - 1], path[i])) else AllClosed;
    assert PathDoors(path, i) ==
      if i + 1 < |path| then OpenOnPrevious(entered, FacingDoors(path[i], path[i + 1])) else entered;
    if i > 0 {
      assert StepBetween(path[i - 1], path[i]);
      StepOpensFacingDoors(path[i - 1], path[i]);
      var a := FacingDoors(path[i - 1], path[i]).onCurrent;
      NeighbourInjective(path[i], s, a);
      DoorUpdateLaws(AllClosed, a, false);
      assert !entered.Closed(s) <==> path[i - 1] == Neighbour(path[i], s);
    } else {
      assert entered.Closed(s);
    }
    if i + 1 < |path| {
      assert StepBetween(path[i], path[i + 1]);
      StepOpensFacingDoors(path[i], path[i + 1]);
      var b := FacingDoors(path[i], path[i + 1]).onPrevious;
      NeighbourInjective(path[i], s, b);
      DoorUpdateLaws(entered, b, false);
    }
  }

  /** The number of open doors of a room. */
  function OpenCount(d: Doors): nat {
    (if d.Closed(LeftDoor) then 0 else 1) + (if d.Closed(RightDoor) then 0 else 1)
    + (if d.Closed(TopDoor) then 0 else 1) + (if d.Closed(BottomDoor) then 0 else 1)
  }

  /** On a critical path the first and last rooms have one open door and
      every other room exactly two (one of a one-cell path has none). */
  lemma OpenDoorsOfPathRoom(path: seq<Coord>, width: int, height: int, i: nat)
    requires IsWalk(path, width, height)
    requires i < |path|
    ensures OpenCount(PathDoors(path, i)) == (if i > 0 then 1 else 0) + (if i + 1 < |path| then 1 else 0)
  {
    var d := PathDoors(path, i);
    var sides := [LeftDoor, RightDoor, TopDoor, BottomDoor];
    forall s | s in sides
      ensures !d.Closed(s) <==>
        (i > 0 && path[i - 1] == Neighbour(path[i], s)) || (i + 1 < |path| && path[i + 1] == Neighbour(path[i], s))
    {
      PathDoorOpenIffNeighbour(path, i, s);
    }
    if i > 0 && i + 1 < |path| {
      assert path[i - 1] != path[i + 1];
    }
    if i > 0 {
      assert StepBetween(path[i - 1], path[i]);
    }
    if i + 1 < |path| {
      assert StepBetween(path[i], path[i + 1]);
    }
  }

  /** The flags of the room at cell c once the level is assembled: a path
      room as CreateCriticalPath leaves it, any other room all closed. */
  function CellDoors(path: seq<Coord>, c: Coord): Doors {
    if c in path then PathDoors(path, IndexOf(path, c)) else AllClosed
  }

  /** a and b are consecutive cells of the path, in either order. */
  predicate Linked(path: seq<Coord>, a: Coord, b: Coord) {
    exists i :: 0 <= i < |path| - 1 && ((path[i] == a && path[i + 1] == b) || (path[i] == b && path[i + 1] == a))
  }

  /** In an assembled level a door is open exactly when the cell behind it
      is the path cell just before or just after this one: consecutive path
      rooms are joined, and no other two rooms are. Rooms off the path have
      every door closed. */
  lemma CellDoorOpenIffLinked(path: seq<Coord>, width: int, height: int, c: Coord, s: Side)
    requires IsWalk(path, width, height)
    ensures !CellDoors(path, c).Closed(s) <==> Linked(path, c, Neighbour(c, s))
  {
    var n := Neighbour(c, s);
    if c in path {
      var j := IndexOf(path, c);
      PathDoorOpenIffNeighbour(path, j, s);
      if !CellDoors(path, c).Closed(s) {
        if j > 0 && path[j - 1] == n {
          assert path[j - 1] == n && path[j] == c;
        } else {
          assert path[j] == c && path[j + 1] == n;
        }
      }
      if Linked(path, c, n) {
        var i :| 0 <= i < |path| - 1 && ((path[i] == c && path[i + 1] == n) || (path[i] == n && path[i + 1] == c));
        if path[i] == c && path[i + 1] == n {
          assert i == j;
        } else {
          assert i + 1 == j;
        }
      }
    } else {
      assert !Linked(path, c, n);
    }
  }

  /** Both rooms on either side of any wall agree on its door: open on one
      side exactly when open on the other. */
  lemma DoorsAgreeAcrossWalls(path: seq<Coord>, width: int, height: int, c: Coord, s: Side)
    requires IsWalk(path, width, height)
    ensures CellDoors(path, c).Closed(s) == CellDoors(path, Neighbour(c, s)).Closed(s.Opposite())
  {
    var n := Neighbour(c, s);
    OppositeFaces(c, s);
    CellDoorOpenIffLinked(path, width, height, c, s);
    CellDoorOpenIffLinked(path, width, height, n, s.Opposite());
    assert Linked(path, c, n) <==> Linked(path, n, c);
  }
}
