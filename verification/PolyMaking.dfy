/** makepolys of mapconvert.py: the parts of the map, the polygons along their edges, and
    one walk around the polygons of each part. */
module PolyMaking {
  import opened BlockMap
  import opened EdgeFinding
  import opened EdgeParts
  import opened EdgeTrace
  import opened FindMin
  import opened Options
  import opened PolyPartition
  import opened PolyPartitioning
  import PolyLinks
  import PolyTree
  import PrimTree

  // The parts are the blocks that hang together, and the polygons, sorted by part, are
  // the edge cycles that can be told by a downward or diagonal edge.
  ghost predicate ArePolys(m: Map, partPolys: seq<seq<Poly>>, parts: map<Loc, Place>, found: seq<(int, Poly)>)
    requires m.Valid()
  {
    && PartsFit(m, parts, |partPolys|) && IsPartition(m, parts) && IsLaidOut(m, parts, |partPolys|)
    && InParts(m, parts, found)
    && Sorted(partPolys, found) && (forall i :: 0 <= i < |found| ==> WellTraced(m, found[i].1))
    && forall cycle :: IsMarked(m, cycle) ==> FoundOnce(m, found, cycle)
  }

  // The polygons of each part.
  method FindPolys(m: Map) returns (partPolys: seq<seq<Poly>>, parts: map<Loc, Place>, ghost found: seq<(int, Poly)>)
    requires m.Valid()
    ensures ArePolys(m, partPolys, parts, found)
  {
    var partitioner := new Partitioner(m);
    var count;
    parts, count := partitioner.FindParts();
    var finder := new EdgeFinder(m, count);
    finder.FindEdges(parts);
    partPolys, found := finder.partPolys, finder.found;
  }

  // ---- Linking each part ----

  function PartOf(m: Map, polys: seq<Poly>, measure: Vec -> Vec, sqrt: real -> real): PrimTree.Part {
    PrimTree.Part(polys, measure, sqrt, m.width, m.height)
  }

  lemma PolysOfPart(m: Map, partPolys: seq<seq<Poly>>, parts: map<Loc, Place>, found: seq<(int, Poly)>, p: nat)
    requires m.Valid() && ArePolys(m, partPolys, parts, found) && p < |partPolys|
    ensures forall v :: 0 <= v < |partPolys[p]| ==>
      partPolys[p][v] != [] && Chained(partPolys[p][v]) && Closes(m, partPolys[p][v])
  {
    forall v | 0 <= v < |partPolys[p]|
      ensures partPolys[p][v] != [] && Chained(partPolys[p][v]) && Closes(m, partPolys[p][v])
    {
      var i := OfPartIsFound(found, p, v);
      assert WellTraced(m, found[i].1);
    }
  }

  // The polygons of every part meet what the linking with plain offsets needs, too, when
  // their coordinates are not too large.
  lemma PartsCanBeLinkedPlain(m: Map, partPolys: seq<seq<Poly>>, parts: map<Loc, Place>, found: seq<(int, Poly)>,
                              sqrt: real -> real, p: nat, r: int)
    requires m.Valid() && ArePolys(m, partPolys, parts, found) && p < |partPolys|
    requires IsRoot(sqrt) && 8 * (r * r) < PrimTree.FAR
    requires forall v, i :: 0 <= v < |partPolys[p]| && 0 <= i < |partPolys[p][v]| ==>
      -r <= partPolys[p][v][i].x <= r && -r <= partPolys[p][v][i].y <= r
    ensures PrimTree.PartFits(PartOf(m, partPolys[p], Plain, sqrt))
  {
    PolysOfPart(m, partPolys, parts, found, p);
    PrimTree.FoundPolysFitPlain(m, partPolys[p], sqrt, r);
  }

  // The walk goes around the polygons and along links that have been made from the last
  // polygon on, each by the shortest way on the map from those before it to any other.
  ghost predicate IsWalk(part: PrimTree.Part, walk: seq<PolyTree.Step>)
    requires 0 < part.width && 0 < part.height
  {
    && part.polys != [] && part.polys[|part.polys| - 1] != []
    && exists links, k, order :: PolyLinks.IsShortTree(part, links, k, order) && PolyLinks.IsFullWalk(part, links, walk)
  }

  // The walk around the polygons of a part, linked with wrapped offsets. There is none
  // exactly when the part consists of rows that go all the way round.
  method LinkPart(m: Map, partPolys: seq<seq<Poly>>, ghost parts: map<Loc, Place>, ghost found: seq<(int, Poly)>,
                  sqrt: real -> real, p: nat)
    returns (walk: Option<seq<PolyTree.Step>>)
    requires m.Valid() && ArePolys(m, partPolys, parts, found) && p < |partPolys|
    requires IsRoot(sqrt) && m.width * m.width + m.height * m.height < PrimTree.FAR
    ensures walk.None? <==> IsBand(m, parts, p)
    ensures walk.Some? ==> IsWalk(PartOf(m, partPolys[p], Wrapping(m.width, m.height), sqrt), walk.value)
  {
    WithoutPolys(m, parts, found, p);
    if partPolys[p] == [] {
      return None;
    }
    PolysOfPart(m, partPolys, parts, found, p);
    PrimTree.FoundPolysFit(m, partPolys[p], sqrt);
    ghost var part := PartOf(m, partPolys[p], Wrapping(m.width, m.height), sqrt);
    var steps, links := PolyLinks.PolyLink(PartOf(m, partPolys[p], Wrapping(m.width, m.height), sqrt));
    ghost var k, order :| PolyLinks.IsLinkTree(part, links, k, order);
    PolyLinks.LinkTreeIsShort(part, links, k, order);
    walk := Some(steps);
  }
}
