/**
 * Admission control for the simulated traffic intersection.
 *
 * Vehicles arrive from one of four directions and leave toward another. The
 * intersection keeps a 4 x 4 matrix counting the vehicles inside for every
 * (origin, destination) pair, and a total count bounded by MAX_CARS. A vehicle
 * may enter only when the intersection is below capacity and its path is
 * compatible with the path of every vehicle already inside.
 */
module Traffic {

  /** A direction, numbered as the simulation's enumeration numbers them. */
  type Direction = i: int | 0 <= i < 4

  const North: Direction := 0
  const East: Direction := 1
  const South: Direction := 2
  const West: Direction := 3

  /** The capacity of the intersection. */
  const MAX_CARS := 10

  /** Does a vehicle arriving from `origin` and leaving toward `destination` turn right? */
  predicate IsRightTurn(origin: Direction, destination: Direction): (r: bool)
    ensures r <==> destination == RightOf(origin)
  {
    || (origin == South && destination == East)
    || (origin == North && destination == West)
    || (origin == East && destination == North)
    || (origin == West && destination == South)
  }

  /**
   * Reference geometry for right turns: the directions are numbered clockwise,
   * so a vehicle coming from `origin` that turns right leaves toward the
   * direction one step counter-clockwise of where it came from.
   */
  function RightOf(origin: Direction): Direction
  {
    (origin + 3) % 4
  }

  /** The four pairs that are right turns, and no others. */
  lemma RightTurnsExactly(origin: Direction, destination: Direction)
    ensures IsRightTurn(origin, destination) <==>
      (origin, destination) in {(South, East), (North, West), (East, North), (West, South)}
  {
  }

  /**
   * May a vehicle inside the intersection on the path (o, d) share it with a
   * newcomer on the path (origin, destination)? Yes when they come from the
   * same direction, when they travel exactly opposite paths, or when they go
   * to different destinations and at least one of them turns right.
   */
  predicate Compatible(o: Direction, d: Direction, origin: Direction, destination: Direction): (r: bool)
    ensures o == origin ==> r
    ensures o != origin && d == destination ==> !r
  {
    || o == origin
    || (o == destination && d == origin)
    || (d != destination && (IsRightTurn(origin, destination) || IsRightTurn(o, d)))
  }

  lemma CompatibleSymmetric(o: Direction, d: Direction, origin: Direction, destination: Direction)
    ensures Compatible(o, d, origin, destination) <==> Compatible(origin, destination, o, d)
  {
  }

  /** Opposite straight paths are compatible; crossing straight paths are not. */
  lemma CompatibleExamples()
    ensures Compatible(North, South, South, North)
    ensures !Compatible(North, South, East, West)
    ensures !Compatible(North, South, West, South)
    ensures Compatible(North, East, East, North)
  {
  }

  /** The occupancy matrix: Grid[origin][destination] vehicles on that path. */
  type Grid = seq<seq<int>>

  predicate IsGrid(g: Grid)
  {
    |g| == 4 && forall o: Direction :: |g[o]| == 4
  }

  predicate NonNegative(g: Grid)
    requires IsGrid(g)
  {
    forall o: Direction, d: Direction :: g[o][d] >= 0
  }

  function EmptyGrid(): (g: Grid)
    ensures IsGrid(g) && forall o: Direction, d: Direction :: g[o][d] == 0
  {
    seq(4, _ => seq(4, _ => 0))
  }

  /** The grid with `k` added to the cell (o, d). */
  function Bump(g: Grid, o: Direction, d: Direction, k: int): (r: Grid)
    requires IsGrid(g)
    ensures IsGrid(r)
    ensures r[o][d] == g[o][d] + k
    ensures forall o': Direction, d': Direction :: (o', d') != (o, d) ==> r[o'][d'] == g[o'][d']
  {
    g[o := g[o][d := g[o][d] + k]]
  }

  /** A newcomer on (origin, destination) is compatible with every occupied path. */
  predicate Admits(g: Grid, origin: Direction, destination: Direction)
    requires IsGrid(g)
  {
    forall o: Direction, d: Direction :: g[o][d] != 0 ==> Compatible(o, d, origin, destination)
  }

  /** Every two vehicles inside the intersection are mutually compatible. */
  predicate AllCompatible(g: Grid)
    requires IsGrid(g)
  {
    forall o1: Direction, d1: Direction, o2: Direction, d2: Direction ::
      g[o1][d1] != 0 && g[o2][d2] != 0 ==> Compatible(o1, d1, o2, d2)
  }

  function RowSum(row: seq<int>): int
  {
    if row == [] then 0 else row[0] + RowSum(row[1..])
  }

  /** The number of vehicles recorded in the matrix. */
  function Total(g: Grid): int
  {
    if g == [] then 0 else RowSum(g[0]) + Total(g[1..])
  }

  lemma {:induction false} RowSumUpdate(row: seq<int>, j: nat, v: int)
    requires j < |row|
    ensures RowSum(row[j := v]) == RowSum(row) - row[j] + v
  {
    if j == 0 {
      assert row[j := v][1..] == row[1..];
    } else {
      assert row[j := v][1..] == row[1..][j - 1 := v];
      RowSumUpdate(row[1..], j - 1, v);
    }
  }

  lemma {:induction false} TotalUpdate(g: Grid, i: nat, row: seq<int>)
    requires i < |g|
    ensures Total(g[i := row]) == Total(g) - RowSum(g[i]) + RowSum(row)
  {
    if i == 0 {
      assert g[i := row][1..] == g[1..];
    } else {
      assert g[i := row][1..] == g[1..][i - 1 := row];
      TotalUpdate(g[1..], i - 1, row);
    }
  }

  /** Adding `k` to one cell adds `k` to the total. */
  lemma TotalBump(g: Grid, o: Direction, d: Direction, k: int)
    requires IsGrid(g)
    ensures Total(Bump(g, o, d, k)) == Total(g) + k
  {
    RowSumUpdate(g[o], d, g[o][d] + k);
    TotalUpdate(g, o, g[o][d := g[o][d] + k]);
  }

  lemma EmptyTotal()
    ensures Total(EmptyGrid()) == 0
  {
    var row := seq(4, _ => 0);
    assert RowSum(row[3..]) == 0;
    assert RowSum(row[2..]) == 0 by { assert row[2..][1..] == row[3..]; }
    assert RowSum(row[1..]) == 0 by { assert row[1..][1..] == row[2..]; }
    assert RowSum(row) == 0;
    var g := EmptyGrid();
    assert Total(g[3..]) == 0 by { assert g[3..][1..] == []; }
    assert Total(g[2..]) == 0 by { assert g[2..][1..] == g[3..]; }
    assert Total(g[1..]) == 0 by { assert g[1..][1..] == g[2..]; }
  }

  /** An empty intersection admits every vehicle. */
  lemma EmptyAdmitsAll(g: Grid, origin: Direction, destination: Direction)
    requires IsGrid(g) && forall o: Direction, d: Direction :: g[o][d] == 0
    ensures Admits(g, origin, destination)
  {
  }

  /**
   * With every vehicle inside mutually compatible, the admission check holds
   * exactly when adding the newcomer keeps every pair mutually compatible.
   */
  lemma AdmitKeepsCompatible(g: Grid, origin: Direction, destination: Direction)
    requires IsGrid(g) && NonNegative(g) && AllCompatible(g)
    ensures AllCompatible(Bump(g, origin, destination, 1)) <==> Admits(g, origin, destination)
  {
  }

  /** A vehicle leaving keeps every remaining pair mutually compatible. */
  lemma ExitKeepsCompatible(g: Grid, origin: Direction, destination: Direction)
    requires IsGrid(g) && AllCompatible(g) && g[origin][destination] > 0
    ensures AllCompatible(Bump(g, origin, destination, -1))
  {
  }

  /** Admitting a vehicle and letting it leave restores the matrix. */
  lemma ExitUndoesAdmit(g: Grid, origin: Direction, destination: Direction)
    requires IsGrid(g)
    ensures Bump(Bump(g, origin, destination, 1), origin, destination, -1) == g
  {
    var r := Bump(Bump(g, origin, destination, 1), origin, destination, -1);
    assert forall o: Direction :: r[o] == g[o];
  }

  /**
   * The intersection's shared state: the occupancy matrix `crossing`, updated
   * in place, and the vehicle counter `carCount`. `Cars` is the matrix as a
   * value.
   */
  class Intersection {
    const crossing: array2<int>
    var carCount: int
    ghost var Cars: Grid

    /** The array mirrors `Cars`, no cell is negative and `carCount` is the sum of the cells. */
    ghost predicate Valid()
      reads this, crossing
    {
      && crossing.Length0 == 4 && crossing.Length1 == 4
      && IsGrid(Cars)
      && (forall o: Direction, d: Direction :: crossing[o, d] == Cars[o][d])
      && NonNegative(Cars)
      && carCount == Total(Cars)
    }

    /** The admission invariant: within capacity and every pair inside compatible. */
    ghost predicate Safe()
      reads this, crossing
    {
      Valid() && carCount <= MAX_CARS && AllCompatible(Cars)
    }

    /** The intersection starts empty. */
    constructor ()
      ensures Safe() && fresh(crossing)
      ensures Cars == EmptyGrid() && carCount == 0
    {
      crossing := new int[4, 4]((i, j) => 0);
      carCount := 0;
      Cars := EmptyGrid();
      EmptyTotal();
    }

    /** The admission test: every occupied path is compatible with (origin, destination). */
    method CheckIntersection(origin: Direction, destination: Direction) returns (ok: bool)
      requires Valid()
      ensures ok <==> Admits(Cars, origin, destination)
    {
      for i := 0 to 4
        invariant forall o: Direction, d: Direction ::
          o < i && Cars[o][d] != 0 ==> Compatible(o, d, origin, destination)
      {
        for j := 0 to 4
          invariant forall o: Direction, d: Direction ::
            (o < i || (o == i && d < j)) && Cars[o][d] != 0 ==> Compatible(o, d, origin, destination)
        {
          if crossing[i, j] != 0 {
            if !Compatible(i, j, origin, destination) {
              return false;
            }
          }
        }
      }
      return true;
    }

    /** Records one more vehicle on (origin, destination); nothing else changes. */
    method AddCar(origin: Direction, destination: Direction)
      requires Valid() && carCount <= MAX_CARS
      modifies this, crossing
      ensures Valid()
      ensures Cars == Bump(old(Cars), origin, destination, 1)
      ensures carCount == old(carCount) + 1
    {
      crossing[origin, destination] := crossing[origin, destination] + 1;
      carCount := carCount + 1;
      TotalBump(Cars, origin, destination, 1);
      Cars := Bump(Cars, origin, destination, 1);
    }

    /**
     * One evaluation of the entry guard. When the intersection is below
     * capacity and admits the vehicle, the vehicle is recorded and `entered`
     * is true. Otherwise nothing changes and `entered` is false: the calling
     * thread is then waiting on the condition variable and tries again once
     * a vehicle has left.
     */
    method BeforeEntry(origin: Direction, destination: Direction) returns (entered: bool)
      requires Safe()
      modifies this, crossing
      ensures Safe()
      ensures entered <==> old(carCount) < MAX_CARS && Admits(old(Cars), origin, destination)
      ensures Cars == if entered then Bump(old(Cars), origin, destination, 1) else old(Cars)
      ensures carCount == if entered then old(carCount) + 1 else old(carCount)
    {
      if carCount >= MAX_CARS {
        return false;
      }
      var ok := CheckIntersection(origin, destination);
      if !ok {
        return false;
      }
      AdmitKeepsCompatible(Cars, origin, destination);
      AddCar(origin, destination);
      entered := true;
    }

    /** A vehicle on (origin, destination) leaves: its cell and the counter drop by one. */
    method AfterExit(origin: Direction, destination: Direction)
      requires Valid() && Cars[origin][destination] > 0
      modifies this, crossing
      ensures Valid()
      ensures Cars == Bump(old(Cars), origin, destination, -1)
      ensures carCount == old(carCount) - 1
      ensures old(Safe()) ==> Safe()
    {
      crossing[origin, destination] := crossing[origin, destination] - 1;
      carCount := carCount - 1;
      TotalBump(Cars, origin, destination, -1);
      if AllCompatible(Cars) {
        ExitKeepsCompatible(Cars, origin, destination);
      }
      Cars := Bump(Cars, origin, destination, -1);
    }
  }

  /**
   * A vehicle that the intersection admits, and that then leaves, restores
   * the intersection's state exactly.
   */
  method EnterAndLeave(x: Intersection, origin: Direction, destination: Direction)
    requires x.Safe() && x.carCount < MAX_CARS && Admits(x.Cars, origin, destination)
    modifies x, x.crossing
    ensures x.Safe()
    ensures x.Cars == old(x.Cars) && x.carCount == old(x.carCount)
  {
    var entered := x.BeforeEntry(origin, destination);
    ExitUndoesAdmit(old(x.Cars), origin, destination);
    x.AfterExit(origin, destination);
  }

  /** The first vehicle to arrive at the empty intersection enters, whatever its path. */
  method FirstVehicleEnters(origin: Direction, destination: Direction) returns (x: Intersection, entered: bool)
    ensures entered && x.Safe() && x.carCount == 1
  {
    x := new Intersection();
    EmptyAdmitsAll(x.Cars, origin, destination);
    entered := x.BeforeEntry(origin, destination);
  }
}
