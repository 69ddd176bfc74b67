/** The block map of mapconvert.py: cells, wrapped vertices, directions and the
    wall test used while following a polygon edge. */
module BlockMap {
  import opened Arith

  // 'x' is solid wall and '#' a fuel station, which counts as solid; the four
  // letters are half blocks named after the corner that is solid.
  const FILLED := "x#"
  const REC_UL := 's'
  const REC_UR := 'a'
  const REC_DL := 'w'
  const REC_DR := 'q'

  predicate IsFilled(c: char) { c in FILLED }

  predicate IsWall(c: char) {
    IsFilled(c) || c == REC_UL || c == REC_UR || c == REC_DL || c == REC_DR
  }

  // A block has solid wall along a whole side when it is filled or is one of
  // the two half blocks lying on that side.
  predicate SolidTop(c: char) { IsFilled(c) || c == REC_UL || c == REC_UR }

  predicate SolidBottom(c: char) { IsFilled(c) || c == REC_DL || c == REC_DR }

  predicate SolidLeft(c: char) { IsFilled(c) || c == REC_UL || c == REC_DL }

  predicate SolidRight(c: char) { IsFilled(c) || c == REC_UR || c == REC_DR }

  // Directions are 0..7, counterclockwise on a screen whose y grows downwards:
  // right, up-right, up, up-left, left, down-left, down, down-right.
  type Dir = d: int | 0 <= d < 8

  function Dx(d: Dir): (r: int)
    ensures -1 <= r <= 1
  {
    if d == 7 || d == 0 || d == 1 then 1 else if d == 2 || d == 6 then 0 else -1
  }

  function Dy(d: Dir): (r: int)
    ensures -1 <= r <= 1
  {
    if 1 <= d <= 3 then -1 else if d == 0 || d == 4 then 0 else 1
  }

  // d turned left by k eighths of a full turn.
  function Left(d: Dir, k: int): Dir
    requires 0 <= k < 8
  {
    if d + k < 8 then d + k else d + k - 8
  }

  // d turned right by k eighths of a full turn.
  function Right(d: Dir, k: int): Dir
    requires 0 <= k < 8
  {
    if k <= d then d - k else d - k + 8
  }

  // A coordinate moved by at most one step on a circle of n places.
  function Move(v: int, delta: int, n: int): (r: int)
    requires 0 <= v < n && -1 <= delta <= 1
    ensures r == if v + delta < 0 then n - 1 else if v + delta == n then 0 else v + delta
  {
    var q := if v + delta < 0 then -1 else if v + delta == n then 1 else 0;
    ModUnique(v + delta, q, v + delta - q * n, n);
    (v + delta) % n
  }

  datatype Loc = Loc(x: int, y: int)

  datatype Map = Map(data: seq<seq<char>>, width: int, height: int) {

    ghost predicate Valid() {
      && 0 < width && 0 < height && |data| == height
      && forall y :: 0 <= y < height ==> |data[y]| == width
    }

    predicate Has(l: Loc) { 0 <= l.x < width && 0 <= l.y < height }

    function At(l: Loc): char
      requires Valid() && Has(l)
    {
      data[l.y][l.x]
    }

    function Go(l: Loc, d: Dir): (r: Loc)
      requires Has(l)
      ensures Has(r)
    {
      Loc(Move(l.x, Dx(d), width), Move(l.y, Dy(d), height))
    }

    // Is there solid wall to the right of direction d at vertex l?  The vertex
    // is the upper left corner of the cell of the same coordinates.
    predicate NoEdge(l: Loc, d: Dir)
      requires Valid() && Has(l)
    {
      match d
      case 0 => SolidTop(At(l))
      case 1 => SolidBottom(At(Go(l, 2)))
      case 2 => SolidLeft(At(Go(l, 2)))
      case 3 => SolidRight(At(Go(l, 3)))
      case 4 => SolidBottom(At(Go(l, 3)))
      case 5 => SolidTop(At(Go(l, 4)))
      case 6 => SolidRight(At(Go(l, 4)))
      case _ => SolidLeft(At(l))
    }
  }
}
