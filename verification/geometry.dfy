/** Plane points and the tracked-box record the counters consume. */
module Geometry {

  datatype Point = Point(x: real, y: real)

  /** One tracked object in one frame: a stable identity and an axis-aligned box.
      The tracker's confidence score is carried by the source but never read by
      the counters, so it is not part of this record. */
  datatype Track = Track(id: int, x1: real, y1: real, x2: real, y2: real)

  /** The reference point of a track: the centre of its box. It lies inside the
      box whenever the box is well ordered. */
  function Center(t: Track): (c: Point)
    ensures t.x1 <= t.x2 ==> t.x1 <= c.x <= t.x2
    ensures t.y1 <= t.y2 ==> t.y1 <= c.y <= t.y2
    ensures c.x - t.x1 == t.x2 - c.x && c.y - t.y1 == t.y2 - c.y
  {
    Point((t.x1 + t.x2) / 2.0, (t.y1 + t.y2) / 2.0)
  }

  /** Box of size 4×4 centred at (cx, cy), as the test fixtures build them. */
  function FixtureTrack(id: int, cx: real, cy: real): Track
  {
    Track(id, cx - 2.0, cy - 2.0, cx + 2.0, cy + 2.0)
  }

  /** The point a fraction `t` of the way from `s` to `e`. */
  function Lerp(s: Point, e: Point, t: real): Point
  {
    Point(s.x + t * (e.x - s.x), s.y + t * (e.y - s.y))
  }

  function Abs(r: real): real
  {
    if r < 0.0 then -r else r
  }

  // Small facts about real multiplication, kept separate so that each proof
  // obligation mentions only a couple of products.

  lemma MulPos(x: real, y: real)
    requires 0.0 < x && 0.0 < y
    ensures 0.0 < x * y
  {
  }

  lemma MulNonneg(x: real, y: real)
    requires 0.0 <= x && 0.0 <= y
    ensures 0.0 <= x * y
  {
  }

  /** For a positive `m`, `c >= m` holds exactly when `c` is non-negative and
      its square is at least `m`'s. */
  lemma AtLeastIffSquare(c: real, m: real)
    requires m > 0.0
    ensures c >= m <==> c >= 0.0 && c * c >= m * m
  {
    if c >= m {
      MulNonneg(c - m, c + m);
      assert (c - m) * (c + m) == c * c - m * m;
    }
    if 0.0 <= c < m {
      MulPos(m - c, m + c);
      assert (m - c) * (m + c) == m * m - c * c;
    }
  }

  /** Dividing by a positive number preserves a lower bound, and only then. */
  lemma DivAtLeast(c: real, len: real, k: real)
    requires len > 0.0
    ensures c / len >= k <==> c >= k * len
  {
    var q := c / len;
    assert q * len == c;
    if q >= k {
      MulNonneg(q - k, len);
      assert (q - k) * len == q * len - k * len;
    } else {
      MulPos(k - q, len);
      assert (k - q) * len == k * len - q * len;
    }
  }

  /** The sign of a product from the signs of its factors. */
  lemma ProductSigns(x: real, y: real)
    ensures x == 0.0 || y == 0.0 ==> x * y == 0.0
    ensures x > 0.0 && y > 0.0 ==> x * y > 0.0
    ensures x < 0.0 && y < 0.0 ==> x * y > 0.0
    ensures x > 0.0 && y < 0.0 ==> x * y < 0.0
    ensures x < 0.0 && y > 0.0 ==> x * y < 0.0
  {
    if x > 0.0 && y > 0.0 {
      MulPos(x, y);
    } else if x < 0.0 && y < 0.0 {
      MulPos(-x, -y);
      assert (-x) * (-y) == x * y;
    } else if x > 0.0 && y < 0.0 {
      MulPos(x, -y);
      assert x * (-y) == -(x * y);
    } else if x < 0.0 && y > 0.0 {
      MulPos(-x, y);
      assert (-x) * y == -(x * y);
    }
  }

  /** Multiplying and then dividing by the same non-zero number is the identity. */
  lemma MulDivCancel(x: real, d: real)
    requires d != 0.0
    ensures (x * d) / d == x
  {
    var q := (x * d) / d;
    assert q * d == x * d;
    assert (q - x) * d == 0.0;
    ProductSigns(q - x, d);
  }

  /** `(k x) x`: a square scaled by `k`, kept behind a name so that facts
      about it carry over between proofs. */
  function ScaledSquare(k: real, x: real): real
  {
    (k * x) * x
  }

  /** A scaled square has the sign of its factor, and is non-zero when both
      the factor and the root are. */
  lemma ScaledSquareSign(k: real, x: real)
    ensures k >= 0.0 ==> ScaledSquare(k, x) >= 0.0
    ensures k <= 0.0 ==> ScaledSquare(k, x) <= 0.0
    ensures k > 0.0 && x != 0.0 ==> ScaledSquare(k, x) > 0.0
  {
    ProductSigns(k, x);
    ProductSigns(k * x, x);
  }

  /** Two squares sum to at most zero only when both roots are zero. */
  lemma SquaresVanish(x: real, y: real)
    requires x * x + y * y <= 0.0
    ensures x == 0.0 && y == 0.0
  {
    assert x * x + y * y == ScaledSquare(1.0, x) + ScaledSquare(1.0, y);
    ScaledSquareSign(1.0, x);
    ScaledSquareSign(1.0, y);
  }

  /** `t (t - 1)` is not positive on the unit interval. */
  lemma InsideUnit(t: real)
    requires 0.0 <= t <= 1.0
    ensures t * (t - 1.0) <= 0.0
  {
    MulNonneg(t, 1.0 - t);
    assert t * (t - 1.0) == -(t * (1.0 - t));
  }

  /** `t (t - 1)` is positive off the unit interval. */
  lemma OutsideUnit(t: real)
    requires t < 0.0 || t > 1.0
    ensures t * (t - 1.0) > 0.0
  {
    if t < 0.0 {
      MulPos(-t, 1.0 - t);
      assert (-t) * (1.0 - t) == t * (t - 1.0);
    } else {
      MulPos(t, t - 1.0);
    }
  }

  /** Multiplying by a positive `d` keeps a number's position relative to 0
      and 1: below 0 stays below 0, above 1 ends above `d`. */
  lemma ScaleOutside(t: real, d: real)
    requires d > 0.0
    ensures t < 0.0 ==> t * d < 0.0
    ensures t > 1.0 ==> t * d > d
  {
    if t < 0.0 {
      MulPos(-t, d);
      assert (-t) * d == -(t * d);
    } else if t > 1.0 {
      MulPos(t - 1.0, d);
      assert (t - 1.0) * d == t * d - d;
    }
  }

  /** If `t * d == a` where `a` is at least 0 and below `d`, or at most 0 and
      at least `d` (as when a value lies between two others), then `t` lies in
      [0, 1]. */
  lemma StraddleFraction(a: real, d: real, t: real)
    requires t * d == a
    requires (0.0 > a) != (d > a)
    ensures 0.0 <= t <= 1.0
  {
    if d > 0.0 {
      ScaleOutside(t, d);
    } else {
      assert t * (-d) == -a;
      ScaleOutside(t, -d);
    }
  }
}
