/** The grid adapter of territory_balancing.py: the choice, by grid-type tag,
    of a radius-1 ring function and a cell distance. The h3 and quadbin
    libraries are parameters (`Libraries`); only what the module itself
    computes on top of them is modelled. */
module Grid {
  import opened Wrappers

  /** A cell identifier. Quadbin cells are 64-bit integers, and h3 cells of
      one resolution are fixed-length lower-case hex strings, whose string
      order is the order of the integers they spell; the model only relies
      on geoids being totally ordered. */
  type Geoid = int

  /** The tile coordinates `(x, y, z)` of a quadbin cell. */
  datatype Tile = Tile(x: int, y: int, z: int)

  /** The library functions the adapter is built from. */
  datatype Libraries = Libraries(
    h3KRing: Geoid -> set<Geoid>,           // h3.k_ring(x, 1), which contains x
    h3Distance: (Geoid, Geoid) -> int,      // h3.h3_distance
    quadbinKRing: Geoid -> set<Geoid>,      // quadbin.k_ring(x, 1), which contains x
    cellToTile: Geoid -> Tile               // quadbin.cell_to_tile
  )

  /** The edge-list builder a grid type selects. Both supported grids select
      the index-based builder. */
  datatype EdgeStrategy = IndexBased

  /** The triple returned by `get_functions`. */
  datatype Adapter = Adapter(
    kring: Geoid -> set<Geoid>,
    distance: (Geoid, Geoid) -> int,
    strategy: EdgeStrategy
  )

  function IntAbs(x: int): (r: nat)
    ensures r == x || r == -x
  {
    if x < 0 then -x else x
  }

  function Max(a: int, b: int): (m: int)
    ensures m >= a && m >= b && (m == a || m == b)
  {
    if a < b then b else a
  }

  /** `quadbin_distance`: the Chebyshev distance between the tiles of two cells
      (the zoom level is ignored). */
  function QuadbinDistance(lib: Libraries, q1: Geoid, q2: Geoid): (d: int)
    ensures d >= 0
    ensures d == 0 <==> lib.cellToTile(q1).x == lib.cellToTile(q2).x && lib.cellToTile(q1).y == lib.cellToTile(q2).y
  {
    var u, v := lib.cellToTile(q1), lib.cellToTile(q2);
    Max(IntAbs(u.x - v.x), IntAbs(u.y - v.y))
  }

  /** The quadbin distance is a pseudo-metric on cells: zero on a cell, symmetric,
      and obeying the triangle inequality. */
  lemma QuadbinDistanceMetric(lib: Libraries, a: Geoid, b: Geoid, c: Geoid)
    ensures QuadbinDistance(lib, a, a) == 0
    ensures QuadbinDistance(lib, a, b) == QuadbinDistance(lib, b, a)
    ensures QuadbinDistance(lib, a, c) <= QuadbinDistance(lib, a, b) + QuadbinDistance(lib, b, c)
  {
  }

  /** The ring with its centre removed, as both adapters build it. */
  function RingWithoutCentre(ring: Geoid -> set<Geoid>): (r: Geoid -> set<Geoid>)
    ensures forall x :: r(x) == ring(x) - {x}
  {
    x => ring(x) - {x}
  }

  /** `get_functions`: the adapter for 'h3' and 'quadbin'; any other tag leaves
      the returned names unbound, so the call raises instead of returning. */
  function GetFunctions(tag: string, lib: Libraries): (r: Result<Adapter>)
    ensures r.Success? <==> tag == "h3" || tag == "quadbin"
    ensures r.Failure? ==> r.error == UnsupportedGridType
    ensures r.Success? ==> r.value.strategy == IndexBased
    ensures r.Success? ==> forall x :: x !in r.value.kring(x)
    ensures tag == "h3" ==>
              && r.Success?
              && (forall x :: r.value.kring(x) == lib.h3KRing(x) - {x})
              && (forall x, y :: r.value.distance(x, y) == lib.h3Distance(x, y))
    ensures tag == "quadbin" ==>
              && r.Success?
              && (forall x :: r.value.kring(x) == lib.quadbinKRing(x) - {x})
              && (forall x, y :: r.value.distance(x, y) == QuadbinDistance(lib, x, y))
  {
    if tag == "h3" then
      Success(Adapter(RingWithoutCentre(lib.h3KRing), (x, y) => lib.h3Distance(x, y), IndexBased))
    else if tag == "quadbin" then
      Success(Adapter(RingWithoutCentre(lib.quadbinKRing), (x, y) => QuadbinDistance(lib, x, y), IndexBased))
    else
      Failure(UnsupportedGridType)
  }

  /** What the library promises about rings: adjacency is mutual. */
  ghost predicate SymmetricRing(kring: Geoid -> set<Geoid>) {
    forall a, b :: b in kring(a) <==> a in kring(b)
  }

  /** Removing the centre keeps a symmetric ring symmetric. */
  lemma RingWithoutCentreSymmetric(ring: Geoid -> set<Geoid>)
    requires SymmetricRing(ring)
    ensures SymmetricRing(RingWithoutCentre(ring))
  {
  }
}
