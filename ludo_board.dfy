/**
 * Ludo board geometry (ludoConstants.js): the 52-cell shared ring, each colour's
 * private 6-cell home lane, the colours' entry offsets into the ring and the
 * eight safe ring cells, plus the position-to-cell lookup `getXY`.
 */
module LudoBoard {
  import opened Common

  datatype Colour = Red | Green | Yellow | Blue

  /** A cell of the 15x15 board grid. */
  datatype Coord = Coord(x: int, y: int)

  const RingSize: nat := 52
  const LaneSize: nat := 6
  /** Relative position of a finished piece (the centre). */
  const Finish: int := 56
  /** Relative position of a piece still in its home base. */
  const AtHome: int := -1

  predicate OnGrid(p: Coord) {
    0 <= p.x <= 14 && 0 <= p.y <= 14
  }

  /** The 13 ring cells from a colour's entry cell (its start offset) onwards. */
  function RingArm(c: Colour): (arm: seq<Coord>)
    ensures |arm| == 13
    ensures forall q :: q in arm ==> OnGrid(q)
  {
    match c
    case Red =>
      [ Coord(6, 13), Coord(6, 12), Coord(6, 11), Coord(6, 10), Coord(6, 9),
        Coord(5, 8), Coord(4, 8), Coord(3, 8), Coord(2, 8), Coord(1, 8), Coord(0, 8),
        Coord(0, 7), Coord(0, 6) ]
    case Green =>
      [ Coord(1, 6), Coord(2, 6), Coord(3, 6), Coord(4, 6), Coord(5, 6),
        Coord(6, 5), Coord(6, 4), Coord(6, 3), Coord(6, 2), Coord(6, 1), Coord(6, 0),
        Coord(7, 0), Coord(8, 0) ]
    case Yellow =>
      [ Coord(8, 1), Coord(8, 2), Coord(8, 3), Coord(8, 4), Coord(8, 5),
        Coord(9, 6), Coord(10, 6), Coord(11, 6), Coord(12, 6), Coord(13, 6), Coord(14, 6),
        Coord(14, 7), Coord(14, 8) ]
    case Blue =>
      [ Coord(13, 8), Coord(12, 8), Coord(11, 8), Coord(10, 8), Coord(9, 8),
        Coord(8, 9), Coord(8, 10), Coord(8, 11), Coord(8, 12), Coord(8, 13), Coord(8, 14),
        Coord(7, 14), Coord(6, 14) ]
  }

  /** The shared ring, index 0 being Red's entry cell; each colour's arm starts at its offset. */
  function MainPath(): (path: seq<Coord>)
    ensures |path| == RingSize
    ensures forall q :: q in path ==> OnGrid(q)
    ensures forall c :: path[StartOffset(c)..StartOffset(c) + 13] == RingArm(c)
  {
    var path := RingArm(Red) + RingArm(Green) + RingArm(Yellow) + RingArm(Blue);
    assert path[0..13] == RingArm(Red);
    assert path[13..26] == RingArm(Green);
    assert path[26..39] == RingArm(Yellow);
    assert path[39..52] == RingArm(Blue);
    path
  }

  /** A colour's private lane, relative positions 51..56 (56 is the centre). */
  function HomeStretch(c: Colour): (lane: seq<Coord>)
    ensures |lane| == LaneSize
    ensures forall q :: q in lane ==> OnGrid(q)
  {
    match c
    case Red => [Coord(7, 13), Coord(7, 12), Coord(7, 11), Coord(7, 10), Coord(7, 9), Coord(7, 8)]
    case Green => [Coord(1, 7), Coord(2, 7), Coord(3, 7), Coord(4, 7), Coord(5, 7), Coord(6, 7)]
    case Yellow => [Coord(7, 1), Coord(7, 2), Coord(7, 3), Coord(7, 4), Coord(7, 5), Coord(7, 6)]
    case Blue => [Coord(13, 7), Coord(12, 7), Coord(11, 7), Coord(10, 7), Coord(9, 7), Coord(8, 7)]
  }

  function StartOffset(c: Colour): (offset: nat)
    ensures offset < RingSize && offset % 13 == 0
  {
    match c
    case Red => 0
    case Green => 13
    case Yellow => 26
    case Blue => 39
  }

  /** Global ring indices on which no piece can be captured. */
  const SafeSquares: seq<nat> := [0, 8, 13, 21, 26, 34, 39, 47]

  function IsSafe(g: int): (safe: bool)
    ensures safe <==> 0 <= g < RingSize && (g % 13 == 0 || g % 13 == 8)
  {
    g in SafeSquares
  }

  /** The ring cell a colour's relative position 0..50 stands on. */
  function GlobalIndex(c: Colour, pos: int): (g: nat)
    requires 0 <= pos <= 50
    ensures g < RingSize
    ensures (g - StartOffset(c) - pos) % RingSize == 0
  {
    (StartOffset(c) + pos) % RingSize
  }

  /** Board cell of a piece: nothing for a piece in its base, the ring cell for 0..50,
      the lane cell for 51..56 and the centre for anything else. */
  function GetXY(c: Colour, pos: int): (r: Option<Coord>)
    ensures r.None? <==> pos == AtHome
    ensures r.Some? ==> OnGrid(r.value)
    ensures 0 <= pos <= 50 ==> r == Some(MainPath()[GlobalIndex(c, pos)])
    ensures 51 <= pos <= Finish ==> r == Some(HomeStretch(c)[pos - 51])
    ensures pos == Finish ==> r == Some(HomeStretch(c)[LaneSize - 1])
    ensures pos != AtHome && !(0 <= pos <= Finish) ==> r == Some(Coord(7, 7))
  {
    if pos == -1 then None
    else if 0 <= pos <= 50 then Some(MainPath()[(StartOffset(c) + pos) % 52])
    else if 51 <= pos <= 56 then Some(HomeStretch(c)[pos - 51])
    else Some(Coord(7, 7))
  }

  /** Every entry cell is safe, and the safe set holds 8 distinct ring indices. */
  lemma SafeSquaresShape(c: Colour)
    ensures IsSafe(StartOffset(c))
    ensures |SafeSquares| == 8
    ensures forall i, j :: 0 <= i < j < |SafeSquares| ==> SafeSquares[i] < SafeSquares[j] < RingSize
  {
  }

  /** Entry offsets are 13 apart, so relative position 0 of two colours never shares a ring cell. */
  lemma EntryCellsDistinct(c1: Colour, c2: Colour)
    requires c1 != c2
    ensures GlobalIndex(c1, 0) != GlobalIndex(c2, 0)
    ensures GetXY(c1, 0) != GetXY(c2, 0)
  {
    EntryCell(c1);
    EntryCell(c2);
    assert RingArm(c1)[0] != RingArm(c2)[0];
  }

  /** Relative position 0 is the first cell of the colour's ring arm. */
  lemma EntryCell(c: Colour)
    ensures GlobalIndex(c, 0) == StartOffset(c)
    ensures GetXY(c, 0) == Some(RingArm(c)[0])
  {
    var path := MainPath();
    assert path[StartOffset(c)] == path[StartOffset(c)..StartOffset(c) + 13][0];
  }

  /** A colour walks 51 distinct ring cells (0..50): it never stands twice on one cell
      and leaves the ring two cells before its own entry. */
  lemma RingWalk(c: Colour, p1: int, p2: int)
    requires 0 <= p1 <= 50 && 0 <= p2 <= 50
    ensures GlobalIndex(c, p1) == GlobalIndex(c, p2) <==> p1 == p2
    ensures GlobalIndex(c, 50) == (StartOffset(c) + RingSize - 2) % RingSize
  {
  }
}
