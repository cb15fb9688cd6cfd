/** The line-crossing counter (LineCounter in src/zones.py).

    Each track's centre is classified to side +1, -1 or 0 of the oriented line
    A→B by its signed perpendicular distance, with a dead band of `Eps` either
    side of the line. The counter remembers the last side seen per track id and
    reports, per update, how many tracks crossed from -1 to +1 (`aToB`) and from
    +1 to -1 (`bToA`). A reading inside the dead band never overwrites an
    established side. */
module LineZone {
  import opened Errors
  import opened Geometry

  /** Half-width of the dead band around the line, in coordinate units. */
  const Eps: real := 2.0

  /** The counter state: the oriented line and the last side stored per id.
      An id absent from `sides` has never been classified. */
  datatype LineCounter = LineCounter(a: Point, b: Point, sides: map<int, int>)
  {
    /** The construction invariant plus the range of stored sides. */
    ghost predicate Valid()
    {
      && a != b
      && forall id :: id in sides ==> -1 <= sides[id] <= 1
    }
  }

  /** The per-call deltas returned by an update. */
  datatype Counts = Counts(aToB: nat, bToA: nat)
  {
    function Plus(other: Counts): Counts
    {
      Counts(aToB + other.aToB, bToA + other.bToA)
    }
  }

  /** What one reading of one track contributes to the counts. */
  datatype Crossing = NoCrossing | AToB | BToA

  function Tally(k: Crossing): Counts
  {
    match k
    case NoCrossing => Counts(0, 0)
    case AToB => Counts(1, 0)
    case BToA => Counts(0, 1)
  }

  /** Builds a counter for the line from `a` to `b`; a zero-length line is a
      configuration error and yields no counter. */
  function NewLineCounter(a: Point, b: Point): (r: Result<LineCounter>)
    ensures r.Err? <==> a == b
    ensures r.Err? <==> LengthSq(a, b) == 0.0
    ensures r.Err? ==> r.error == DegenerateLine
    ensures r.Ok? ==> r.value.Valid() && r.value.a == a && r.value.b == b
    ensures r.Ok? ==> forall id :: id !in r.value.sides
  {
    assert LengthSq(a, b) == 0.0 ==> a == b by {
      if LengthSq(a, b) == 0.0 {
        SquaresVanish(b.x - a.x, b.y - a.y);
      }
    }
    if a == b then
      Err(DegenerateLine)
    else
      Ok(LineCounter(a, b, map[]))
  }

  /** The z-component of AB × AP, where P is the point being classified. */
  function Cross(a: Point, b: Point, p: Point): real
  {
    (b.x - a.x) * (p.y - a.y) - (b.y - a.y) * (p.x - a.x)
  }

  /** The squared length of AB. */
  function LengthSq(a: Point, b: Point): real
  {
    (b.x - a.x) * (b.x - a.x) + (b.y - a.y) * (b.y - a.y)
  }

  /** The signed perpendicular distance from `p` to the line through A and B,
      given the length `len` of AB. */
  function SignedDistance(a: Point, b: Point, p: Point, len: real): real
    requires len > 0.0
  {
    Cross(a, b, p) / len
  }

  /** Side classification without a square root: +1 when the signed distance
      is at least `Eps`, -1 when it is at most `-Eps`, 0 in between. Squaring
      both sides of `cross / len >= Eps` gives the comparison used here. */
  function SideOf(a: Point, b: Point, p: Point): (s: int)
    requires a != b
    ensures -1 <= s <= 1
  {
    var c := Cross(a, b, p);
    var band := Eps * Eps * LengthSq(a, b);
    if c >= 0.0 && c * c >= band then 1
    else if c <= 0.0 && c * c >= band then -1
    else 0
  }

  lemma ScaledAtLeast(c: real, len: real)
    requires len > 0.0
    ensures c / len >= Eps <==> c >= 0.0 && c * c >= Eps * Eps * (len * len)
  {
    DivAtLeast(c, len, Eps);
    MulPos(Eps, len);
    AtLeastIffSquare(c, Eps * len);
    assert (Eps * len) * (Eps * len) == Eps * Eps * (len * len);
  }

  /** The square-root-free classification agrees with the source's rule on the
      signed distance `d = cross / |AB|`: +1 iff `d >= Eps`, -1 iff `d <= -Eps`,
      0 otherwise. */
  lemma SideMatchesSignedDistance(a: Point, b: Point, p: Point, len: real)
    requires a != b
    requires len > 0.0 && len * len == LengthSq(a, b)
    ensures SideOf(a, b, p) == 1 <==> SignedDistance(a, b, p, len) >= Eps
    ensures SideOf(a, b, p) == -1 <==> SignedDistance(a, b, p, len) <= -Eps
    ensures SideOf(a, b, p) == 0 <==> -Eps < SignedDistance(a, b, p, len) < Eps
  {
    var c := Cross(a, b, p);
    ScaledAtLeast(c, len);
    ScaledAtLeast(-c, len);
    assert (-c) / len == -(c / len);
    assert (-c) * (-c) == c * c;
    assert c == 0.0 ==> c * c < Eps * Eps * (len * len) by {
      assert len * len > 0.0;
    }
  }

  /** The ids carried by a frame's tracks. */
  ghost function Ids(tracks: seq<Track>): set<int>
  {
    if |tracks| == 0 then {} else {tracks[0].id} + Ids(tracks[1..])
  }

  /** One reading `side` of the track `id`: the counter afterwards and what the
      reading counts. Only a stored -1 followed by +1 counts A→B, and only a
      stored +1 followed by -1 counts B→A. A zero reading never changes a
      stored side; it is recorded only for an id never seen before. */
  function Step(c: LineCounter, id: int, side: int): (r: (LineCounter, Counts))
    requires c.Valid() && -1 <= side <= 1
    ensures r.0.Valid() && r.0.a == c.a && r.0.b == c.b
    ensures r.1.aToB == 1 <==> id in c.sides && c.sides[id] == -1 && side == 1
    ensures r.1.bToA == 1 <==> id in c.sides && c.sides[id] == 1 && side == -1
    ensures r.1.aToB + r.1.bToA <= 1
    ensures side == 0 && id in c.sides ==> r == (c, Counts(0, 0))
    ensures side == 0 && id !in c.sides ==> r.0.sides == c.sides[id := 0] && r.1 == Counts(0, 0)
    ensures side != 0 ==> r.0.sides == c.sides[id := side]
  {
    if side == 0 then
      if id in c.sides then (c, Counts(0, 0))
      else (c.(sides := c.sides[id := 0]), Counts(0, 0))
    else
      var crossing :=
        if id in c.sides && c.sides[id] != side then
          if c.sides[id] == -1 && side == 1 then AToB
          else if c.sides[id] == 1 && side == -1 then BToA
          else NoCrossing
        else NoCrossing;
      (c.(sides := c.sides[id := side]), Tally(crossing))
  }

  /** One frame: every track is classified and observed in order. The result
      holds the new counter and the deltas for this call only. */
  function Update(c: LineCounter, tracks: seq<Track>): (r: (LineCounter, Counts))
    requires c.Valid()
    ensures r.0.Valid() && r.0.a == c.a && r.0.b == c.b
    ensures r.1.aToB + r.1.bToA <= |tracks|
    ensures r.0.sides.Keys == c.sides.Keys + Ids(tracks)
    ensures forall id :: id in c.sides && id !in Ids(tracks) ==> r.0.sides[id] == c.sides[id]
    ensures tracks == [] ==> r == (c, Counts(0, 0))
    decreases |tracks|
  {
    if |tracks| == 0 then (c, Counts(0, 0))
    else
      var t := tracks[0];
      var (c', k) := Step(c, t.id, SideOf(c.a, c.b, Center(t)));
      var (c'', rest) := Update(c', tracks[1..]);
      (c'', k.Plus(rest))
  }

  /** The caller's running totals: the deltas of consecutive frames summed. */
  function Run(c: LineCounter, frames: seq<seq<Track>>): (r: (LineCounter, Counts))
    requires c.Valid()
    ensures r.0.Valid() && r.0.a == c.a && r.0.b == c.b
    decreases |frames|
  {
    if |frames| == 0 then (c, Counts(0, 0))
    else
      var (c', delta) := Update(c, frames[0]);
      var (c'', rest) := Run(c', frames[1..]);
      (c'', delta.Plus(rest))
  }

  lemma UpdateSingleton(c: LineCounter, t: Track)
    requires c.Valid()
    ensures Update(c, [t]) == Step(c, t.id, SideOf(c.a, c.b, Center(t)))
  {
    assert [t][1..] == [];
  }

  /** A frame of a single track counts a crossing exactly when the stored side
      is the opposite non-zero side of the new reading. */
  lemma SingleTrackCrossing(c: LineCounter, t: Track)
    requires c.Valid()
    ensures var side := SideOf(c.a, c.b, Center(t));
            var k := Update(c, [t]).1;
            && (k.aToB == 1 <==> t.id in c.sides && c.sides[t.id] == -1 && side == 1)
            && (k.bToA == 1 <==> t.id in c.sides && c.sides[t.id] == 1 && side == -1)
            && k.aToB + k.bToA <= 1
  {
    UpdateSingleton(c, t);
  }

  /** A frame in which every track reads inside the dead band and was already
      known leaves the counter unchanged and counts nothing. */
  lemma {:induction false} AmbiguousFrameChangesNothing(c: LineCounter, tracks: seq<Track>)
    requires c.Valid()
    requires forall i :: 0 <= i < |tracks| ==>
               tracks[i].id in c.sides && SideOf(c.a, c.b, Center(tracks[i])) == 0
    ensures Update(c, tracks) == (c, Counts(0, 0))
    decreases |tracks|
  {
    if |tracks| > 0 {
      AmbiguousFrameChangesNothing(c, tracks[1..]);
    }
  }

  /** Reference count for one frame, against the sides stored before it: how
      many of the frame's tracks were last stored on side `from` and now read
      side `to`. */
  ghost function Movers(c: LineCounter, tracks: seq<Track>, from: int, to: int): nat
    requires c.a != c.b
  {
    if |tracks| == 0 then 0
    else
      var t := tracks[0];
      var moved := t.id in c.sides && c.sides[t.id] == from && SideOf(c.a, c.b, Center(t)) == to;
      (if moved then 1 else 0) + Movers(c, tracks[1..], from, to)
  }

  /** No id occurs twice in the frame. */
  ghost predicate DistinctIds(tracks: seq<Track>)
  {
    |tracks| == 0 || (tracks[0].id !in Ids(tracks[1..]) && DistinctIds(tracks[1..]))
  }

  /** When no id repeats within a frame, the deltas an update reports are
      exactly the tracks that moved from -1 to +1 and from +1 to -1 relative
      to the sides stored before the frame. */
  lemma {:induction false} UpdateCountsMovers(c: LineCounter, tracks: seq<Track>)
    requires c.Valid() && DistinctIds(tracks)
    ensures Update(c, tracks).1 == Counts(Movers(c, tracks, -1, 1), Movers(c, tracks, 1, -1))
    decreases |tracks|
  {
    if |tracks| > 0 {
      var t := tracks[0];
      var c1 := Step(c, t.id, SideOf(c.a, c.b, Center(t))).0;
      MoversAgree(c, c1, tracks[1..], -1, 1);
      MoversAgree(c, c1, tracks[1..], 1, -1);
      UpdateCountsMovers(c1, tracks[1..]);
    }
  }

  /** The reference count only reads the stored sides of the frame's ids. */
  lemma {:induction false} MoversAgree(c: LineCounter, d: LineCounter, tracks: seq<Track>, from: int, to: int)
    requires c.a != c.b && d.a == c.a && d.b == c.b
    requires forall id :: id in Ids(tracks) ==>
               (id in c.sides <==> id in d.sides) && (id in c.sides ==> c.sides[id] == d.sides[id])
    ensures Movers(c, tracks, from, to) == Movers(d, tracks, from, to)
    decreases |tracks|
  {
    if |tracks| > 0 {
      MoversAgree(c, d, tracks[1..], from, to);
    }
  }

  /** Each id of the frame is among the frame's ids. */
  lemma {:induction false} IdsMember(tracks: seq<Track>, i: int)
    requires 0 <= i < |tracks|
    ensures tracks[i].id in Ids(tracks)
    decreases |tracks|
  {
    if i > 0 {
      IdsMember(tracks[1..], i - 1);
      assert tracks[1..][i - 1] == tracks[i];
    }
  }

  /** When no id repeats within a frame, the update leaves every id of the
      frame stored with its new reading if that is non-zero; a reading inside
      the dead band keeps the side already known, or stores 0 for a new id. */
  lemma {:induction false} UpdateStoresReadings(c: LineCounter, tracks: seq<Track>)
    requires c.Valid() && DistinctIds(tracks)
    ensures forall i :: 0 <= i < |tracks| ==>
              var id, s := tracks[i].id, SideOf(c.a, c.b, Center(tracks[i]));
              && id in Update(c, tracks).0.sides
              && Update(c, tracks).0.sides[id] == (if s != 0 then s else if id in c.sides then c.sides[id] else 0)
    decreases |tracks|
  {
    if |tracks| > 0 {
      var t := tracks[0];
      var c1 := Step(c, t.id, SideOf(c.a, c.b, Center(t))).0;
      UpdateStoresReadings(c1, tracks[1..]);
      var r := Update(c, tracks).0;
      assert r == Update(c1, tracks[1..]).0;
      forall i | 0 <= i < |tracks|
        ensures var id, s := tracks[i].id, SideOf(c.a, c.b, Center(tracks[i]));
                && id in r.sides
                && r.sides[id] == (if s != 0 then s else if id in c.sides then c.sides[id] else 0)
      {
        if i > 0 {
          assert tracks[1..][i - 1] == tracks[i];
          IdsMember(tracks[1..], i - 1);
        }
      }
    }
  }

  /** The frame without the readings of track `x`. */
  function Without(tracks: seq<Track>, x: int): (r: seq<Track>)
    ensures forall t :: t in r <==> t in tracks && t.id != x
    decreases |tracks|
  {
    if |tracks| == 0 then []
    else (if tracks[0].id == x then [] else [tracks[0]]) + Without(tracks[1..], x)
  }

  /** Every frame without the readings of track `x`. */
  function WithoutInFrames(frames: seq<seq<Track>>, x: int): (r: seq<seq<Track>>)
    ensures |r| == |frames|
    ensures forall f :: 0 <= f < |frames| ==> r[f] == Without(frames[f], x)
    decreases |frames|
  {
    if |frames| == 0 then [] else [Without(frames[0], x)] + WithoutInFrames(frames[1..], x)
  }

  /** Two counters on the same line that store the same sides for every id
      other than `x`. */
  ghost predicate AgreeExcept(c: LineCounter, d: LineCounter, x: int)
  {
    && c.a == d.a && c.b == d.b
    && forall id :: id != x ==>
         (id in c.sides <==> id in d.sides) && (id in c.sides ==> c.sides[id] == d.sides[id])
  }

  /** Track `x` is stored, if at all, on side 0 or on its side `home`. */
  ghost predicate StoredHomeOrZero(c: LineCounter, x: int, home: int)
  {
    x in c.sides ==> c.sides[x] == 0 || c.sides[x] == home
  }

  /** Every reading of track `x` in the frame is 0 or its side `home`. */
  ghost predicate ReadsHomeOrZero(a: Point, b: Point, tracks: seq<Track>, x: int, home: int)
    requires a != b
  {
    forall i :: 0 <= i < |tracks| && tracks[i].id == x ==>
      var s := SideOf(a, b, Center(tracks[i])); s == 0 || s == home
  }

  /** Within a frame, a track that stays on its side counts nothing and does
      not affect what the other tracks count. */
  lemma {:induction false} UpdateWithoutStayer(c: LineCounter, d: LineCounter, tracks: seq<Track>, x: int, home: int)
    requires c.Valid() && d.Valid() && AgreeExcept(c, d, x)
    requires StoredHomeOrZero(c, x, home) && ReadsHomeOrZero(c.a, c.b, tracks, x, home)
    ensures Update(c, tracks).1 == Update(d, Without(tracks, x)).1
    ensures AgreeExcept(Update(c, tracks).0, Update(d, Without(tracks, x)).0, x)
    ensures StoredHomeOrZero(Update(c, tracks).0, x, home)
    decreases |tracks|
  {
    if |tracks| > 0 {
      var t := tracks[0];
      var side := SideOf(c.a, c.b, Center(t));
      var c1 := Step(c, t.id, side).0;
      ReadsHomeOrZeroTail(c.a, c.b, tracks, x, home);
      if t.id == x {
        StayerStep(c, d, x, side, home);
        assert Without(tracks, x) == Without(tracks[1..], x);
        UpdateWithoutStayer(c1, d, tracks[1..], x, home);
      } else {
        OtherStep(c, d, t.id, side, x, home);
        var rest := Without(tracks[1..], x);
        assert Without(tracks, x) == [t] + rest;
        assert ([t] + rest)[0] == t && ([t] + rest)[1..] == rest;
        UpdateWithoutStayer(c1, Step(d, t.id, side).0, tracks[1..], x, home);
      }
    }
  }

  /** A reading of the staying track on its own side or 0 counts nothing,
      keeps its stored side at 0 or that side, and leaves every other id alone. */
  lemma StayerStep(c: LineCounter, d: LineCounter, x: int, side: int, home: int)
    requires c.Valid() && AgreeExcept(c, d, x) && StoredHomeOrZero(c, x, home)
    requires side == 0 || side == home
    requires -1 <= side <= 1
    ensures Step(c, x, side).1 == Counts(0, 0)
    ensures AgreeExcept(Step(c, x, side).0, d, x)
    ensures StoredHomeOrZero(Step(c, x, side).0, x, home)
  {
  }

  /** A reading of any other id counts the same, and keeps the counters
      agreeing away from `x`, whether or not `x`'s stored side differs. */
  lemma OtherStep(c: LineCounter, d: LineCounter, id: int, side: int, x: int, home: int)
    requires c.Valid() && d.Valid() && AgreeExcept(c, d, x) && StoredHomeOrZero(c, x, home)
    requires id != x && -1 <= side <= 1
    ensures Step(c, id, side).1 == Step(d, id, side).1
    ensures AgreeExcept(Step(c, id, side).0, Step(d, id, side).0, x)
    ensures StoredHomeOrZero(Step(c, id, side).0, x, home)
  {
  }

  lemma ReadsHomeOrZeroTail(a: Point, b: Point, tracks: seq<Track>, x: int, home: int)
    requires a != b && |tracks| > 0 && ReadsHomeOrZero(a, b, tracks, x, home)
    ensures ReadsHomeOrZero(a, b, tracks[1..], x, home)
    ensures tracks[0].id == x ==> var s := SideOf(a, b, Center(tracks[0])); s == 0 || s == home
  {
    forall i | 0 <= i < |tracks[1..]| && tracks[1..][i].id == x
      ensures var s := SideOf(a, b, Center(tracks[1..][i])); s == 0 || s == home
    {
      assert tracks[1..][i] == tracks[i + 1];
    }
  }

  /** A track whose readings all stay on one side (or in the dead band), and
      whose stored side is that side or 0, contributes nothing to either total
      over any number of frames: removing it from every frame leaves the
      totals unchanged, whatever the other tracks do. */
  lemma StayingTrackAddsNothing(c: LineCounter, frames: seq<seq<Track>>, x: int, home: int)
    requires c.Valid() && StoredHomeOrZero(c, x, home)
    requires forall f :: 0 <= f < |frames| ==> ReadsHomeOrZero(c.a, c.b, frames[f], x, home)
    ensures Run(c, frames).1 == Run(c, WithoutInFrames(frames, x)).1
  {
    RunWithoutStayer(c, c, frames, x, home);
  }

  lemma {:induction false} RunWithoutStayer(c: LineCounter, d: LineCounter, frames: seq<seq<Track>>, x: int, home: int)
    requires c.Valid() && d.Valid() && AgreeExcept(c, d, x) && StoredHomeOrZero(c, x, home)
    requires forall f :: 0 <= f < |frames| ==> ReadsHomeOrZero(c.a, c.b, frames[f], x, home)
    ensures Run(c, frames).1 == Run(d, WithoutInFrames(frames, x)).1
    decreases |frames|
  {
    if |frames| > 0 {
      UpdateWithoutStayer(c, d, frames[0], x, home);
      var c1 := Update(c, frames[0]).0;
      var d1 := Update(d, Without(frames[0], x)).0;
      var w := WithoutInFrames(frames, x);
      assert w[0] == Without(frames[0], x);
      assert w[1..] == WithoutInFrames(frames[1..], x);
      assert forall f :: 0 <= f < |frames[1..]| ==> frames[1..][f] == frames[f + 1];
      RunWithoutStayer(c1, d1, frames[1..], x, home);
    }
  }

  /** Every stored side of `c` is 0 or the side `home` assigns to its id. */
  ghost predicate StoredOnHomeSide(c: LineCounter, home: int -> int)
  {
    forall id :: id in c.sides ==> c.sides[id] == 0 || c.sides[id] == home(id)
  }

  /** Every track of the frame reads 0 or the side `home` assigns to its id. */
  ghost predicate ReadsOnHomeSide(c: LineCounter, tracks: seq<Track>, home: int -> int)
    requires c.a != c.b
  {
    forall i :: 0 <= i < |tracks| ==>
      var s := SideOf(c.a, c.b, Center(tracks[i]));
      s == 0 || s == home(tracks[i].id)
  }

  lemma {:induction false} FrameOnHomeSideCountsNothing(c: LineCounter, tracks: seq<Track>, home: int -> int)
    requires c.Valid() && StoredOnHomeSide(c, home) && ReadsOnHomeSide(c, tracks, home)
    ensures Update(c, tracks).1 == Counts(0, 0)
    ensures StoredOnHomeSide(Update(c, tracks).0, home)
    decreases |tracks|
  {
    if |tracks| > 0 {
      var t := tracks[0];
      var c1 := Step(c, t.id, SideOf(c.a, c.b, Center(t))).0;
      assert StoredOnHomeSide(c1, home);
      assert ReadsOnHomeSide(c1, tracks[1..], home) by {
        forall i | 0 <= i < |tracks[1..]|
          ensures var s := SideOf(c1.a, c1.b, Center(tracks[1..][i])); s == 0 || s == home(tracks[1..][i].id)
        {
          assert tracks[1..][i] == tracks[i + 1];
        }
      }
      FrameOnHomeSideCountsNothing(c1, tracks[1..], home);
    }
  }

  /** Tracks that each keep to one side of the line (readings on their own
      side or inside the dead band) contribute nothing to either count, over
      any number of frames. */
  lemma {:induction false} StayingOnOneSideCountsNothing(c: LineCounter, frames: seq<seq<Track>>, home: int -> int)
    requires c.Valid() && StoredOnHomeSide(c, home)
    requires forall f :: 0 <= f < |frames| ==> ReadsOnHomeSide(c, frames[f], home)
    ensures Run(c, frames).1 == Counts(0, 0)
    decreases |frames|
  {
    if |frames| > 0 {
      FrameOnHomeSideCountsNothing(c, frames[0], home);
      var c' := Update(c, frames[0]).0;
      assert forall f :: 0 <= f < |frames[1..]| ==> frames[1..][f] == frames[f + 1];
      StayingOnOneSideCountsNothing(c', frames[1..], home);
    }
  }

  /** The fixture line from (0, 0) to (100, 0). */
  function FixtureLine(): LineCounter
  {
    LineCounter(Point(0.0, 0.0), Point(100.0, 0.0), map[])
  }

  lemma FixtureFirstFrame(t: Track, side: int)
    requires || (t == FixtureTrack(1, 10.0, -20.0) && side == -1)
             || (t == FixtureTrack(2, 50.0, 20.0) && side == 1)
             || (t == FixtureTrack(3, 60.0, -30.0) && side == -1)
    ensures Update(FixtureLine(), [t]) == (FixtureLine().(sides := map[t.id := side]), Counts(0, 0))
  {
    assert SideOf(FixtureLine().a, FixtureLine().b, Center(t)) == side;
    UpdateSingleton(FixtureLine(), t);
  }

  lemma FixtureSecondFrame(prior: int, t: Track, k: Counts)
    requires || (prior == -1 && t == FixtureTrack(1, 12.0, 25.0) && k == Counts(1, 0))
             || (prior == 1 && t == FixtureTrack(2, 52.0, -30.0) && k == Counts(0, 1))
             || (prior == -1 && t == FixtureTrack(3, 65.0, -10.0) && k == Counts(0, 0))
    ensures Update(FixtureLine().(sides := map[t.id := prior]), [t]).1 == k
  {
    var c := FixtureLine().(sides := map[t.id := prior]);
    assert c.Valid();
    if t == FixtureTrack(1, 12.0, 25.0) {
      assert SideOf(c.a, c.b, Center(t)) == 1;
    } else if t == FixtureTrack(2, 52.0, -30.0) {
      assert SideOf(c.a, c.b, Center(t)) == -1;
    } else {
      assert SideOf(c.a, c.b, Center(t)) == -1;
    }
    UpdateSingleton(c, t);
  }

  /** A track first seen at y = -20 and then at y = 25 counts nothing on the
      first frame and one A→B crossing on the second. */
  lemma FixtureCountsAToB()
    ensures NewLineCounter(Point(0.0, 0.0), Point(100.0, 0.0)) == Ok(FixtureLine())
    ensures var first := Update(FixtureLine(), [FixtureTrack(1, 10.0, -20.0)]);
            && first.1 == Counts(0, 0)
            && Update(first.0, [FixtureTrack(1, 12.0, 25.0)]).1 == Counts(1, 0)
  {
    FixtureFirstFrame(FixtureTrack(1, 10.0, -20.0), -1);
    FixtureSecondFrame(-1, FixtureTrack(1, 12.0, 25.0), Counts(1, 0));
  }

  /** A track first seen at y = 20 and then at y = -30 counts one B→A crossing
      on the second frame. */
  lemma FixtureCountsBToA()
    ensures var first := Update(FixtureLine(), [FixtureTrack(2, 50.0, 20.0)]);
            && first.1 == Counts(0, 0)
            && Update(first.0, [FixtureTrack(2, 52.0, -30.0)]).1 == Counts(0, 1)
  {
    FixtureFirstFrame(FixtureTrack(2, 50.0, 20.0), 1);
    FixtureSecondFrame(1, FixtureTrack(2, 52.0, -30.0), Counts(0, 1));
  }

  /** A track seen twice on the negative side counts nothing. */
  lemma FixtureSameSideCountsNothing()
    ensures var first := Update(FixtureLine(), [FixtureTrack(3, 60.0, -30.0)]);
            Update(first.0, [FixtureTrack(3, 65.0, -10.0)]).1 == Counts(0, 0)
  {
    FixtureFirstFrame(FixtureTrack(3, 60.0, -30.0), -1);
    FixtureSecondFrame(-1, FixtureTrack(3, 65.0, -10.0), Counts(0, 0));
  }

  /** The tracker reports one entry per id per frame, but `Update` takes any
      frame: an id read at y = -20 and then at y = 20 within one frame counts
      one A→B crossing, the stored side being carried forward within the
      frame as in the source. */
  lemma FixtureRepeatedIdInFrame()
    ensures Update(FixtureLine(), [FixtureTrack(1, 10.0, -20.0), FixtureTrack(1, 12.0, 20.0)]).1
            == Counts(1, 0)
  {
    var c := FixtureLine();
    var first, second := FixtureTrack(1, 10.0, -20.0), FixtureTrack(1, 12.0, 20.0);
    assert [first, second][1..] == [second];
    assert SideOf(c.a, c.b, Center(first)) == -1;
    var c' := c.(sides := map[1 := -1]);
    assert Step(c, 1, -1) == (c', Counts(0, 0));
    assert SideOf(c'.a, c'.b, Center(second)) == 1;
    UpdateSingleton(c', second);
  }
}
