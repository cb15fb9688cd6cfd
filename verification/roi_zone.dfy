/** Region-of-interest counter (src/zones.py, `RoiCounter`).

    Each frame, the centre of every track's box is checked against the polygon
    with the inclusive point-in-polygon test; the distinct ids found inside
    are "present", and every id that has ever been inside is remembered.
    The per-frame report is the number of ids present and the number of ids
    ever seen inside. */
module RoiZone {
  import opened Errors
  import opened Geometry
  import opened PolygonTest

  /** The polygon and the ids seen inside it so far. */
  datatype RoiCounter = RoiCounter(polygon: seq<Point>, seen: set<int>)
  {
    /** The constructor's vertex-count check, which `Update` preserves. No
        operation depends on it: the point-in-polygon test is defined for
        any polygon, as in the source. */
    ghost predicate Valid()
    {
      |polygon| >= 3
    }
  }

  /** One frame's report: ids inside now, and ids ever seen inside. */
  datatype Occupancy = Occupancy(present: nat, uniqueIds: nat)

  /** Construction fails for fewer than three vertices (including none);
      otherwise nothing has been seen yet. */
  function NewRoiCounter(polygon: seq<Point>): (r: Result<RoiCounter>)
    ensures r.Err? <==> |polygon| < 3
    ensures r.Err? ==> r.error == TooFewVertices
    ensures r.Ok? ==> r.value.Valid() && r.value.polygon == polygon && r.value.seen == {}
  {
    if |polygon| < 3 then Err(TooFewVertices) else Ok(RoiCounter(polygon, {}))
  }

  /** Reference definition: the ids of the tracks whose box centre the
      inclusive test places inside the polygon. */
  ghost function InsideIds(polygon: seq<Point>, tracks: seq<Track>): set<int>
  {
    set t | t in tracks && Contains(polygon, Center(t)) :: t.id
  }

  /** One frame: test every track's centre, collect the ids inside, and add
      them to the ids seen so far. */
  method Update(c: RoiCounter, tracks: seq<Track>) returns (next: RoiCounter, occ: Occupancy)
    ensures next.polygon == c.polygon && (c.Valid() ==> next.Valid())
    ensures next.seen == c.seen + InsideIds(c.polygon, tracks)
    ensures occ.present == |InsideIds(c.polygon, tracks)|
    ensures occ.uniqueIds == |next.seen|
    ensures c.seen <= next.seen && occ.present <= occ.uniqueIds
  {
    var present: set<int> := {};
    var seen := c.seen;
    var i := 0;
    while i < |tracks|
      invariant 0 <= i <= |tracks|
      invariant present == InsideIds(c.polygon, tracks[..i])
      invariant seen == c.seen + present
    {
      var t := tracks[i];
      var r := PointPolygonTest(c.polygon, Center(t));
      if r >= 0 {
        present := present + {t.id};
        seen := seen + {t.id};
      }
      InsideIdsExtend(c.polygon, tracks[..i], t);
      assert tracks[..i + 1] == tracks[..i] + [t];
      i := i + 1;
    }
    assert tracks[..|tracks|] == tracks;
    assert seen == (c.seen - present) + present;
    assert (c.seen - present) * present == {};
    next := RoiCounter(c.polygon, seen);
    occ := Occupancy(|present|, |seen|);
  }

  /** Appending one track adds its id exactly when its centre is inside. */
  lemma InsideIdsExtend(polygon: seq<Point>, tracks: seq<Track>, t: Track)
    ensures InsideIds(polygon, tracks + [t])
         == InsideIds(polygon, tracks) + (if Contains(polygon, Center(t)) then {t.id} else {})
  {
    var lhs := InsideIds(polygon, tracks + [t]);
    var rhs := InsideIds(polygon, tracks) + (if Contains(polygon, Center(t)) then {t.id} else {});
    forall id | id in lhs
      ensures id in rhs
    {
      var u :| u in tracks + [t] && Contains(polygon, Center(u)) && u.id == id;
      if u != t {
        assert u in tracks;
      }
    }
    forall id | id in rhs
      ensures id in lhs
    {
      if id in InsideIds(polygon, tracks) {
        var u :| u in tracks && Contains(polygon, Center(u)) && u.id == id;
        assert u in tracks + [t];
      } else {
        assert t in tracks + [t];
      }
    }
  }

  /** A frame whose tracks are either outside or already seen leaves the count
      of ids ever seen unchanged: leaving the region does not lower it, and
      coming back does not raise it. */
  lemma ReturningTracksAddNothing(c: RoiCounter, tracks: seq<Track>)
    requires forall t :: t in tracks && Contains(c.polygon, Center(t)) ==> t.id in c.seen
    ensures c.seen + InsideIds(c.polygon, tracks) == c.seen
  {
  }

  /** A track whose centre lies on an edge of the polygon is present. */
  lemma BoundaryTrackIsPresent(c: RoiCounter, tracks: seq<Track>, t: Track, i: int)
    requires 0 <= i < |c.polygon| && OnEdge(c.polygon, Center(t), i)
    requires t in tracks
    ensures t.id in InsideIds(c.polygon, tracks)
  {
  }

  /** The inside/outside scenario of the tests on the square region: a track
      enters (present 1, unique 1), moves within (1, 1), then leaves (0, 1). */
  method SquareScenario() returns (first: Occupancy, second: Occupancy, third: Occupancy)
    ensures first == Occupancy(1, 1)
    ensures second == Occupancy(1, 1)
    ensures third == Occupancy(0, 1)
  {
    var made := NewRoiCounter(Square());
    var c := made.value;
    var t1, t2, t3 := FixtureTrack(7, 50.0, 50.0), FixtureTrack(7, 55.0, 55.0), FixtureTrack(7, 150.0, 150.0);
    SquareInterior(Center(t1));
    SquareInterior(Center(t2));
    SquareBeyondCorner(Center(t3));
    SingletonInsideIds(c.polygon, t1);
    SingletonInsideIds(c.polygon, t2);
    SingletonInsideIds(c.polygon, t3);
    c, first := Update(c, [t1]);
    c, second := Update(c, [t2]);
    c, third := Update(c, [t3]);
  }

  /** The edge scenario of the tests: a track centred on the square's left
      side is present. */
  method SquareEdgeScenario() returns (occ: Occupancy)
    ensures occ == Occupancy(1, 1)
  {
    var made := NewRoiCounter(Square());
    var t := FixtureTrack(8, 0.0, 40.0);
    SquareLeftEdge(Center(t));
    SingletonInsideIds(Square(), t);
    var _, o := Update(made.value, [t]);
    occ := o;
  }

  /** The ids inside for a single track. */
  lemma SingletonInsideIds(polygon: seq<Point>, t: Track)
    ensures InsideIds(polygon, [t]) == if Contains(polygon, Center(t)) then {t.id} else {}
  {
    InsideIdsExtend(polygon, [], t);
    assert [] + [t] == [t];
  }
}
