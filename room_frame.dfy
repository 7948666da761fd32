/** A room of the level (RoomFrame): four door-closed flags that only the
    door setters change, plus the grid cell and the prefab the room was
    instantiated from. */
module Rooms {
  import opened Grid

  /** The four sides of a room, each holding one door. */
  datatype Side = LeftDoor | RightDoor | TopDoor | BottomDoor {

    /** The side of the neighbouring room that faces this one. */
    function Opposite(): Side {
      match this
      case LeftDoor => RightDoor
      case RightDoor => LeftDoor
      case TopDoor => BottomDoor
      case BottomDoor => TopDoor
    }

    /** The step from a cell to the cell behind this door (rows grow upwards). */
    function Offset(): Coord {
      match this
      case LeftDoor => Left
      case RightDoor => Right
      case TopDoor => Up
      case BottomDoor => Down
    }
  }

  /** The cell on the other side of door `s` of cell `c`. */
  function Neighbour(c: Coord, s: Side): Coord {
    c.Plus(s.Offset())
  }

  /** The door-closed flags of a room, as a value. */
  datatype Doors = Doors(leftClosed: bool, rightClosed: bool, topClosed: bool, bottomClosed: bool) {

    function Closed(s: Side): bool {
      match s
      case LeftDoor => leftClosed
      case RightDoor => rightClosed
      case TopDoor => topClosed
      case BottomDoor => bottomClosed
    }

    /** The same flags with the one of side `s` set to `closed`. */
    function With(s: Side, closed: bool): Doors {
      match s
      case LeftDoor => this.(leftClosed := closed)
      case RightDoor => this.(rightClosed := closed)
      case TopDoor => this.(topClosed := closed)
      case BottomDoor => this.(bottomClosed := closed)
    }
  }

  /** How a freshly created room starts: every door closed. */
  const AllClosed := Doors(true, true, true, true)

  /** Which prefab a room was instantiated from. */
  datatype Prefab = FramePrefab | CriticalPathPrefab

  /** Setting a door flag: reading it back gives the value set, the other
      three flags keep theirs, and setting it again changes nothing. */
  lemma DoorUpdateLaws(d: Doors, s: Side, closed: bool)
    ensures d.With(s, closed).Closed(s) == closed
    ensures forall t :: t != s ==> d.With(s, closed).Closed(t) == d.Closed(t)
    ensures d.With(s, closed).With(s, closed) == d.With(s, closed)
  {
  }

  /** A door and the door it faces are on opposite sides of the same wall. */
  lemma OppositeFaces(c: Coord, s: Side)
    ensures s.Opposite() != s && s.Opposite().Opposite() == s
    ensures Neighbour(Neighbour(c, s), s.Opposite()) == c
  {
  }

  class RoomFrame {
    /** The cell the room's GameObject was placed at (its world position
        divided by the room size). */
    const position: Coord
    const prefab: Prefab

    var leftDoorClosed: bool
    var rightDoorClosed: bool
    var topDoorClosed: bool
    var bottomDoorClosed: bool

    /** The four flags as one value. */
    function State(): Doors
      reads this
    {
      Doors(leftDoorClosed, rightDoorClosed, topDoorClosed, bottomDoorClosed)
    }

    constructor (position: Coord, prefab: Prefab)
      ensures this.position == position && this.prefab == prefab
      ensures State() == AllClosed
    {
      this.position := position;
      this.prefab := prefab;
      leftDoorClosed := true;
      rightDoorClosed := true;
      topDoorClosed := true;
      bottomDoorClosed := true;
    }

    /** The getters read one flag each: the flag of that side in State(). */
    function LeftDoorClosed(): (closed: bool)
      reads this
      ensures closed == State().Closed(LeftDoor)
    {
      leftDoorClosed
    }

    function RightDoorClosed(): (closed: bool)
      reads this
      ensures closed == State().Closed(RightDoor)
    {
      rightDoorClosed
    }

    function TopDoorClosed(): (closed: bool)
      reads this
      ensures closed == State().Closed(TopDoor)
    {
      topDoorClosed
    }

    function BottomDoorClosed(): (closed: bool)
      reads this
      ensures closed == State().Closed(BottomDoor)
    {
      bottomDoorClosed
    }

    method SetLeftDoorClosed(value: bool)
      modifies this
      ensures LeftDoorClosed() == value
      ensures State() == old(State()).With(LeftDoor, value)
    {
      leftDoorClosed := value;
    }

    method SetRightDoorClosed(value: bool)
      modifies this
      ensures RightDoorClosed() == value
      ensures State() == old(State()).With(RightDoor, value)
    {
      rightDoorClosed := value;
    }

    method SetTopDoorClosed(value: bool)
      modifies this
      ensures TopDoorClosed() == value
      ensures State() == old(State()).With(TopDoor, value)
    {
      topDoorClosed := value;
    }

    method SetBottomDoorClosed(value: bool)
      modifies this
      ensures BottomDoorClosed() == value
      ensures State() == old(State()).With(BottomDoor, value)
    {
      bottomDoorClosed := value;
    }
  }
}
