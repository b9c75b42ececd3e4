/** The Moore-neighbourhood topology resolver. Each worker of a `D x D` grid
    gets an eight-entry table, in the slot order UL, UM, UR, ML, MR, LL, LM,
    LR, holding the rank of the worker at offset `(dx, dy)` or the null peer
    when that offset leaves the grid. The code tests, per slot, only the
    bounds that slot's offset can cross; `Neighbor` models those one-sided
    tests and proves them equal to the two-axis reference `ReferenceNeighbor`. */
module Topology {
  import opened Wrappers
  import opened Grid
  import opened Slots

  /** The cell reached from `c` by the offset of slot `s`. */
  function Step(c: Coord, s: Slot): Coord {
    Coord(c.x + Dx(s), c.y + Dy(s))
  }

  /** Reference definition: the slot holds the rank of the offset cell exactly
      when that cell lies inside the grid on both axes. */
  function ReferenceNeighbor(s: Slot, c: Coord, d: nat): Option<nat> {
    var n := Step(c, s);
    if InGrid(n, d) then
      Some(RankOf(n, d))
    else
      None
  }

  /** The bound test the code writes for slot `s` on the candidate cell `n`:
      only the bounds the slot's offset can cross are checked. */
  predicate OneSidedGuard(s: Slot, n: Coord, d: nat) {
    match s
    case UL => n.x >= 0 && n.y >= 0
    case UM => n.y >= 0
    case UR => n.y >= 0 && n.x < d
    case ML => n.x >= 0
    case MR => n.x < d
    case LL => n.x >= 0 && n.y < d
    case LM => n.y < d
    case LR => n.x < d && n.y < d
  }

  /** One slot as the code computes it: `n_x = x+dx`, `n_y = y+dy`,
      `neighbor_rank = n_y*D + n_x`, kept when the one-sided guard holds and
      replaced by the null peer otherwise. For a cell inside the grid this is
      the two-axis reference. */
  function Neighbor(s: Slot, c: Coord, d: nat): (r: Option<nat>)
    requires InGrid(c, d)
    ensures r == ReferenceNeighbor(s, c, d)
  {
    var n := Step(c, s);
    var neighborRank := RankOf(n, d);
    if OneSidedGuard(s, n, d) then
      Some(neighborRank)
    else
      None
  }

  /** The eight slots of the worker at cell `c`: entry `Index(s)` holds the
      neighbour in direction `s`, so the table reads
      `neighbors[0..7] = ul, um, ur, ml, mr, ll, lm, lr`. */
  function Table(c: Coord, d: nat): (t: seq<Option<nat>>)
    requires InGrid(c, d)
    ensures |t| == 8
  {
    seq(8, i requires 0 <= i < 8 => Neighbor(SlotAt(i), c, d))
  }

  /** The neighbour table of worker `rank` in a `D x D` grid: the rank is
      split into `(x, y)` and the eight slots are resolved around that cell. */
  function Neighbors(rank: nat, d: nat): (t: seq<Option<nat>>)
    requires rank < Square(d)
    ensures |t| == 8
    ensures forall i :: 0 <= i < 8 ==>
      t[i] == ReferenceNeighbor(SlotAt(i), CoordOf(rank, d), d)
  {
    Table(CoordOf(rank, d), d)
  }

  /** The resolver from `(rank, size)`: the perfect-square check, then the
      table over the grid of linear dimension `isqrt(size)`. */
  function Resolve(rank: nat, size: nat): (r: Result<seq<Option<nat>>, ConfigError>)
    requires rank < size
    ensures r.Failure? <==> !IsSquare(size)
    ensures r.Failure? ==> r.error == NotPerfectSquare(size)
    ensures r.Success? ==> Square(ISqrt(size)) == size && r.value == Neighbors(rank, ISqrt(size))
  {
    match LinDim(size)
    case Failure(e) => Failure(e)
    case Success(d) => Success(Neighbors(rank, d))
  }

  /** Every present entry of the table of cell `c` is a worker of the grid,
      sits at the slot's offset from `c`, and is not the owner itself. */
  lemma TableBounds(c: Coord, d: nat, i: nat)
    requires InGrid(c, d) && i < 8
    requires Table(c, d)[i].Some?
    ensures Table(c, d)[i].value < Square(d)
    ensures Table(c, d)[i].value != RankOf(c, d)
    ensures CoordOf(Table(c, d)[i].value, d) == Step(c, SlotAt(i))
  {
    var n := Step(c, SlotAt(i));
    CoordRoundTrip(n, d);
    OffsetsDistinct(SlotAt(i), SlotAt(i));
    if RankOf(n, d) == RankOf(c, d) {
      RankInjective(n, c, d);
    }
  }

  /** Every present neighbour of worker `a` is a worker of the grid other
      than `a`, at the slot's offset from `a`'s cell. */
  lemma NeighborBounds(a: nat, d: nat, i: nat)
    requires a < Square(d) && i < 8
    requires Neighbors(a, d)[i].Some?
    ensures Neighbors(a, d)[i].value < Square(d)
    ensures Neighbors(a, d)[i].value != a
    ensures CoordOf(Neighbors(a, d)[i].value, d) == Step(CoordOf(a, d), SlotAt(i))
  {
    TableBounds(CoordOf(a, d), d, i);
  }

  /** The present entries of a table are pairwise distinct. */
  lemma NeighborsDistinct(a: nat, d: nat, i: nat, j: nat)
    requires a < Square(d) && i < 8 && j < 8 && i != j
    requires Neighbors(a, d)[i].Some? && Neighbors(a, d)[j].Some?
    ensures Neighbors(a, d)[i] != Neighbors(a, d)[j]
  {
    NeighborBounds(a, d, i);
    NeighborBounds(a, d, j);
    if Neighbors(a, d)[i] == Neighbors(a, d)[j] {
      OffsetsDistinct(SlotAt(i), SlotAt(j));
    }
  }

  /** No row wrap: the left column has no left-hand neighbours, the right
      column no right-hand ones, the top row nothing above and the bottom row
      nothing below. */
  lemma NoRowWrap(c: Coord, d: nat)
    requires InGrid(c, d)
    ensures c.x == 0 ==> Table(c, d)[0] == Table(c, d)[3] == Table(c, d)[5] == None
    ensures c.x == d - 1 ==> Table(c, d)[2] == Table(c, d)[4] == Table(c, d)[7] == None
    ensures c.y == 0 ==> Table(c, d)[0] == Table(c, d)[1] == Table(c, d)[2] == None
    ensures c.y == d - 1 ==> Table(c, d)[5] == Table(c, d)[6] == Table(c, d)[7] == None
  {
    var t := Table(c, d);
    assert t[0] == Neighbor(UL, c, d) && t[1] == Neighbor(UM, c, d) && t[2] == Neighbor(UR, c, d);
    assert t[3] == Neighbor(ML, c, d) && t[4] == Neighbor(MR, c, d);
    assert t[5] == Neighbor(LL, c, d) && t[6] == Neighbor(LM, c, d) && t[7] == Neighbor(LR, c, d);
  }

  /** Why both axes are checked: at the right-hand column of any row but the
      last, the middle-right candidate `y*D + x+1` is a valid rank, but it is
      the first cell of the next row; a single linear bounds check would
      accept it, while the table leaves that slot null. */
  lemma LinearCheckWouldWrap(c: Coord, d: nat)
    requires InGrid(c, d)
    requires c.x == d - 1 && c.y < d - 1
    ensures 0 <= RankOf(Step(c, MR), d) < Square(d)
    ensures CoordOf(RankOf(Step(c, MR), d), d) == Coord(0, c.y + 1)
    ensures Table(c, d)[4] == None
  {
    var wrapped := Coord(0, c.y + 1);
    assert RankOf(Step(c, MR), d) == RankOf(wrapped, d);
    CoordRoundTrip(wrapped, d);
  }

  function Present(o: Option<nat>): nat {
    if o.Some? then 1 else 0
  }

  /** Number of present entries of a table. */
  function CountPresent(t: seq<Option<nat>>): (n: nat)
    ensures n <= |t|
  {
    if |t| == 0 then 0 else Present(t[0]) + CountPresent(t[1..])
  }

  lemma CountStep(t: seq<Option<nat>>, k: nat)
    requires k < |t|
    ensures CountPresent(t[k..]) == Present(t[k]) + CountPresent(t[k + 1..])
  {
    assert t[k..][1..] == t[k + 1..];
  }

  lemma {:induction false} CountEight(t: seq<Option<nat>>)
    requires |t| == 8
    ensures CountPresent(t) == Present(t[0]) + Present(t[1]) + Present(t[2])
      + Present(t[3]) + Present(t[4]) + Present(t[5]) + Present(t[6]) + Present(t[7])
  {
    assert t[0..] == t;
    CountStep(t, 0);
    CountStep(t, 1);
    CountStep(t, 2);
    CountStep(t, 3);
    CountStep(t, 4);
    CountStep(t, 5);
    CountStep(t, 6);
    CountStep(t, 7);
    assert CountPresent(t[8..]) == 0;
  }

  /** How many of `v-1, v, v+1` lie in `[0, D)`, for `v` in `[0, D)`. */
  function Span(v: int, d: nat): nat {
    (if v > 0 then 1 else 0) + 1 + (if v < d - 1 then 1 else 0)
  }

  /** The present neighbours counted row by row: the row above and the row
      below contribute `Span(x)` cells each when they exist, the owner's row
      `Span(x) - 1`. */
  lemma RowCounts(c: Coord, d: nat)
    requires InGrid(c, d)
    ensures CountPresent(Table(c, d))
      == (if c.y > 0 then Span(c.x, d) else 0) + (Span(c.x, d) - 1)
       + (if c.y < d - 1 then Span(c.x, d) else 0)
  {
    var t := Table(c, d);
    CountEight(t);
    var row := Span(c.x, d);
    assert Present(t[0]) + Present(t[1]) + Present(t[2]) == (if c.y > 0 then row else 0);
    assert Present(t[3]) + Present(t[4]) == row - 1;
    assert Present(t[5]) + Present(t[6]) + Present(t[7]) == (if c.y < d - 1 then row else 0);
  }

  /** The number of present neighbours is the number of in-grid cells of the
      3x3 block around the owner, less the owner itself. */
  lemma NeighborCount(c: Coord, d: nat)
    requires InGrid(c, d)
    ensures CountPresent(Table(c, d)) == Span(c.x, d) * Span(c.y, d) - 1
  {
    RowCounts(c, d);
    var row := Span(c.x, d);
    assert row * Span(c.y, d)
      == (if c.y > 0 then row else 0) + row + (if c.y < d - 1 then row else 0);
  }

  /** With at least two workers per row: 3 neighbours at a corner, 5 on an
      edge, 8 in the interior. A single worker has none. */
  lemma CornerEdgeInteriorCounts(c: Coord, d: nat)
    requires InGrid(c, d)
    ensures var xBorder := c.x == 0 || c.x == d - 1;
      var yBorder := c.y == 0 || c.y == d - 1;
      && (d == 1 ==> CountPresent(Table(c, d)) == 0)
      && (d >= 2 && xBorder && yBorder ==> CountPresent(Table(c, d)) == 3)
      && (d >= 2 && xBorder != yBorder ==> CountPresent(Table(c, d)) == 5)
      && (d >= 2 && !xBorder && !yBorder ==> CountPresent(Table(c, d)) == 8)
  {
    RowCounts(c, d);
  }

  /** Symmetry: if A has B in slot i then B has A in slot 7 - i, the
      geometrically opposite slot (UL/LR, UM/LM, UR/LL, ML/MR). */
  lemma Symmetry(a: nat, b: nat, d: nat, i: nat)
    requires a < Square(d) && i < 8
    requires Neighbors(a, d)[i] == Some(b)
    ensures b < Square(d)
    ensures Neighbors(b, d)[7 - i] == Some(a)
    ensures SlotAt(7 - i) == Opposite(SlotAt(i))
  {
    NeighborBounds(a, d, i);
    var s := SlotAt(i);
    IndexInjective(SlotAt(7 - i), Opposite(s));
    var c := CoordOf(a, d);
    assert Step(Step(c, s), Opposite(s)) == c;
  }

  /** Two cells are Moore neighbours: distinct, and at most one step apart
      on each axis. */
  predicate MooreAdjacent(p: Coord, q: Coord) {
    p != q && -1 <= q.x - p.x <= 1 && -1 <= q.y - p.y <= 1
  }

  /** The table holds exactly the geometric neighbours: B appears in A's
      table iff B's cell is 8-connected to A's cell. */
  lemma Adjacency(a: nat, b: nat, d: nat)
    requires a < Square(d) && b < Square(d)
    ensures Some(b) in Neighbors(a, d) <==> MooreAdjacent(CoordOf(a, d), CoordOf(b, d))
  {
    var t := Neighbors(a, d);
    var p := CoordOf(a, d);
    var q := CoordOf(b, d);
    if Some(b) in t {
      var i :| 0 <= i < 8 && t[i] == Some(b);
      NeighborBounds(a, d, i);
      OffsetsDistinct(SlotAt(i), SlotAt(i));
    }
    if MooreAdjacent(p, q) {
      var s := FromOffset(q.x - p.x, q.y - p.y);
      assert Step(p, s) == q;
      assert t[Index(s)] == Some(b);
    }
  }

  /** The rank at a slot's offset is the owner's rank moved by `dy` rows and
      `dx` columns. */
  lemma SlotRank(c: Coord, d: nat, s: Slot)
    ensures RankOf(Step(c, s), d) == RankOf(c, d) + Dy(s) * d + Dx(s)
  {
    assert (c.y + Dy(s)) * d == c.y * d + Dy(s) * d;
  }

  /** An interior cell has all eight neighbours, at ranks `r - D - 1`,
      `r - D`, `r - D + 1`, `r - 1`, `r + 1`, `r + D - 1`, `r + D`,
      `r + D + 1` in slot order, where `r` is its own rank. */
  lemma InteriorTable(c: Coord, d: nat)
    requires 0 < c.x < d - 1 && 0 < c.y < d - 1
    ensures InGrid(c, d) && RankOf(c, d) >= d + 1
    ensures var r := RankOf(c, d);
      Table(c, d) == [Some(r - d - 1), Some(r - d), Some(r - d + 1),
        Some(r - 1), Some(r + 1), Some(r + d - 1), Some(r + d), Some(r + d + 1)]
  {
    MulAtLeast(c.y, 1, d);
    SlotRank(c, d, UL);
    SlotRank(c, d, UM);
    SlotRank(c, d, UR);
    SlotRank(c, d, ML);
    SlotRank(c, d, MR);
    SlotRank(c, d, LL);
    SlotRank(c, d, LM);
    SlotRank(c, d, LR);
  }

  /** The upper-left cell of a grid at least two wide has only MR = 1,
      LM = D and LR = D + 1. */
  lemma UpperLeftTable(d: nat)
    requires d >= 2
    ensures Table(Coord(0, 0), d)
      == [None, None, None, None, Some(1), None, Some(d), Some(d + 1)]
  {
    assert 0 * d == 0;
    assert 1 * d == d;
  }

  /** Worked example: rank 4, the centre of a 3x3 grid, has all eight
      neighbours in row-major order. */
  lemma CentreOfNine()
    ensures Neighbors(4, 3)
      == [Some(0), Some(1), Some(2), Some(3), Some(5), Some(6), Some(7), Some(8)]
  {
    InteriorTable(Coord(1, 1), 3);
    CoordRoundTrip(Coord(1, 1), 3);
  }

  /** Worked example: rank 0, the upper-left corner of a 3x3 grid, has only
      MR = 1, LM = 3 and LR = 4. */
  lemma CornerOfNine()
    ensures Neighbors(0, 3)
      == [None, None, None, None, Some(1), None, Some(3), Some(4)]
  {
    UpperLeftTable(3);
    CoordRoundTrip(Coord(0, 0), 3);
  }

  /** On a one-by-one grid every slot of the only cell is the null peer. */
  lemma LoneTable()
    ensures Table(Coord(0, 0), 1) == [None, None, None, None, None, None, None, None]
  {
  }

  /** A single worker has no neighbours at all. */
  lemma SingleWorker()
    ensures Resolve(0, 1) == Success([None, None, None, None, None, None, None, None])
  {
    RootIsISqrt(1, 1);
    CoordRoundTrip(Coord(0, 0), 1);
    LoneTable();
  }

  /** Eight workers do not form a square grid, so setup fails. */
  lemma EightIsRejected(rank: nat)
    requires rank < 8
    ensures Resolve(rank, 8) == Failure(NotPerfectSquare(8))
  {
    ISqrtUnique(8, 2);
  }

  /** The C encoding of a table: the null peer becomes the integer
      `MPI_PROC_NULL`, which the runtime keeps outside the valid ranks. */
  function ToMpi(t: seq<Option<nat>>, procNull: int): (ns: seq<int>)
    ensures |ns| == |t|
  {
    seq(|t|, i requires 0 <= i < |t| => match t[i] case Some(r) => r case None => procNull)
  }

  /** Reads the C encoding back: the null-peer constant is the null peer,
      anything else a rank. */
  function FromMpi(ns: seq<int>, procNull: int): (t: seq<Option<int>>)
    ensures |t| == |ns|
  {
    seq(|ns|, i requires 0 <= i < |ns| => if ns[i] == procNull then None else Some(ns[i]))
  }

  /** With a negative null-peer constant the encoding loses nothing: a valid
      rank never collides with it, so `neighbors[i] != MPI_PROC_NULL` is
      exactly "slot i has a neighbour". */
  lemma MpiRoundTrip(t: seq<Option<nat>>, procNull: int)
    requires procNull < 0
    ensures FromMpi(ToMpi(t, procNull), procNull) == t
    ensures forall i :: 0 <= i < |t| ==> (ToMpi(t, procNull)[i] == procNull <==> t[i] == None)
  {
  }
}
