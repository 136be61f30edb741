/** The colour-distance test of the background changer: how far a pixel's RGB
    colour is from the reference (top-left) colour, computed the way NumPy
    computes it on `int16` arrays, and whether that distance is below the
    threshold.

    Floating point is avoided: `sqrt(s) < t`, for an integer score `s` and an
    integer threshold `t`, holds exactly when `0 <= s && 0 < t && s < t * t`
    (a negative score makes `sqrt` return NaN, and NaN is below nothing).
 */
module ColorDistance {

  /** One unsigned 8-bit channel value. */
  newtype byte = x: int | 0 <= x < 256

  /** The R, G and B channels of a pixel (alpha is never part of a distance). */
  datatype Color = Color(r: byte, g: byte, b: byte)

  /** Number of distinct `int16` values. */
  const Int16Span: int := 0x1_0000

  /** Largest `int16` value. */
  const Int16Max: int := 0x7FFF

  /** How an `int16` array holds the mathematical integer `x`: two's
      complement wrap-around into -32768..32767. */
  function Wrap16(x: int): (r: int)
    ensures -Int16Max - 1 <= r <= Int16Max
    ensures (x - r) % Int16Span == 0
    ensures -Int16Max - 1 <= x <= Int16Max ==> r == x
  {
    var m := x % Int16Span;
    if m <= Int16Max then m else m - Int16Span
  }

  /** Two integers that agree modulo 2^16 are stored as the same `int16`. */
  lemma Wrap16Congruent(x: int, y: int)
    requires (x - y) % Int16Span == 0
    ensures Wrap16(x) == Wrap16(y)
  {
  }

  /** Wrapping `int16` addition. */
  function Add16(x: int, y: int): (r: int)
    ensures -Int16Max - 1 <= r <= Int16Max
    ensures -Int16Max - 1 <= x + y <= Int16Max ==> r == x + y
  {
    Wrap16(x + y)
  }

  /** `x ** 2` on an `int16` array element. */
  function Square16(x: int): (r: int)
    ensures -181 <= x <= 181 ==> r == x * x
    ensures 181 < x <= 255 || -255 <= x < -181 ==> r == x * x - Int16Span && r < 0
  {
    if -181 <= x <= 181 then
      SquareBound(x, 181);
      Wrap16(x * x)
    else if 181 < x <= 255 || -255 <= x < -181 then
      SquareBound(x, 255);
      SquareAtLeast(x, 182);
      Wrap16(x * x)
    else
      Wrap16(x * x)
  }

  /** An `int16` channel minus a `uint8` reference channel; NumPy promotes
      the result to `int16`. */
  function Sub16(c: byte, ref: byte): (r: int)
    ensures r == c as int - ref as int
  {
    Wrap16(c as int - ref as int)
  }

  /** The true squared Euclidean distance between two colours. */
  function SquaredDistance(p: Color, q: Color): (s: nat)
    ensures s == 0 <==> p == q
  {
    var dr, dg, db := p.r as int - q.r as int, p.g as int - q.g as int, p.b as int - q.b as int;
    assert dr * dr >= 0 && dg * dg >= 0 && db * db >= 0;
    assert dr != 0 ==> dr * dr > 0;
    assert dg != 0 ==> dg * dg > 0;
    assert db != 0 ==> db * db > 0;
    dr * dr + dg * dg + db * db
  }

  /** The integer arithmetic in which the distance score is computed:
      `Int16` is what the program does (the channels are widened only to
      `int16`); `Unbounded` is the Euclidean distance the program means. */
  datatype Widening = Int16 | Unbounded

  /** The score whose square root is compared with the threshold. */
  function Score(p: Color, ref: Color, w: Widening): (r: int)
    ensures w == Int16 ==> r == Wrap16(SquaredDistance(p, ref))
  {
    match w
    case Int16 =>
      var dr, dg, db := Sub16(p.r, ref.r), Sub16(p.g, ref.g), Sub16(p.b, ref.b);
      SumOfSquares16(dr, dg, db);
      Add16(Add16(Square16(dr), Square16(dg)), Square16(db))
    case Unbounded => SquaredDistance(p, ref)
  }

  /** `sqrt(s) < t` for an integer score `s` and an integer threshold `t`. */
  predicate RootBelow(s: int, t: int)
    ensures s < 0 ==> !RootBelow(s, t)
    ensures t <= 0 ==> !RootBelow(s, t)
  {
    0 <= s && 0 < t && s < t * t
  }

  /** Whether a pixel of colour `p` belongs to the background mask. In
      `int16` arithmetic: exactly when the threshold is positive and the
      wrapped squared distance is non-negative and below its square. */
  predicate Selected(p: Color, ref: Color, t: int, w: Widening)
    ensures w == Int16 ==>
      (Selected(p, ref, t, w) <==> 0 < t && 0 <= Wrap16(SquaredDistance(p, ref)) < t * t)
  {
    RootBelow(Score(p, ref, w), t)
  }

  /** The integer test agrees with comparing the real square root of a
      non-negative score against the threshold. */
  lemma RootBelowIsRealComparison(s: int, t: int, root: real)
    requires 0 <= s && 0.0 <= root && root * root == s as real
    ensures RootBelow(s, t) <==> root < t as real
  {
    var tr := t as real;
    if root < tr {
      assert 0.0 < tr;
      assert root * root < tr * tr by {
        assert root * root <= root * tr;
        assert root * tr < tr * tr;
      }
      assert (t * t) as real == tr * tr;
    } else if 0.0 < tr {
      assert tr * tr <= root * tr <= root * root;
      assert (t * t) as real == tr * tr;
    }
  }

  /** The `int16` chain of squares and sums is the exact sum of squares
      wrapped once. */
  lemma SumOfSquares16(dr: int, dg: int, db: int)
    ensures Add16(Add16(Square16(dr), Square16(dg)), Square16(db)) == Wrap16(dr * dr + dg * dg + db * db)
  {
    var xr, xg, xb := dr * dr, dg * dg, db * db;
    assert Square16(dr) == Wrap16(xr) && Square16(dg) == Wrap16(xg) && Square16(db) == Wrap16(xb);
    AddWrapped(xr, xg, Square16(dr), Square16(dg));
    AddWrapped(xr + xg, xb, Add16(Square16(dr), Square16(dg)), Square16(db));
  }

  /** Adding two wrapped values and wrapping stores the same `int16` as
      wrapping the exact sum. */
  lemma AddWrapped(x: int, y: int, wx: int, wy: int)
    requires (x - wx) % Int16Span == 0 && (y - wy) % Int16Span == 0
    ensures Wrap16(wx + wy) == Wrap16(x + y)
  {
    Wrap16Congruent(wx + wy, x + y);
  }

  /** When the true squared distance fits in an `int16`, nothing wraps and
      both arithmetics select the pixel exactly when its squared distance is
      below the squared threshold. */
  lemma SelectedExactInRange(p: Color, ref: Color, t: int, w: Widening)
    requires SquaredDistance(p, ref) <= Int16Max
    ensures Selected(p, ref, t, w) <==> 0 < t && SquaredDistance(p, ref) < t * t
  {
  }

  /** Channel differences of at most 104 keep the squared distance within
      `int16` range (3 * 104 * 104 = 32448). */
  lemma SmallDifferencesInRange(p: Color, ref: Color)
    requires -104 <= p.r as int - ref.r as int <= 104
    requires -104 <= p.g as int - ref.g as int <= 104
    requires -104 <= p.b as int - ref.b as int <= 104
    ensures SquaredDistance(p, ref) <= Int16Max
  {
    var dr, dg, db := p.r as int - ref.r as int, p.g as int - ref.g as int, p.b as int - ref.b as int;
    SquareBound(dr, 104);
    SquareBound(dg, 104);
    SquareBound(db, 104);
  }

  lemma SquareAtLeast(d: int, m: int)
    requires 0 <= m && (m <= d || d <= -m)
    ensures m * m <= d * d
  {
  }

  lemma SquareBound(d: int, m: int)
    requires -m <= d <= m
    ensures d * d <= m * m
  {
  }

  /** The reference colour is at distance zero from itself, so it is
      selected exactly when the threshold is positive. */
  lemma ReferenceSelected(ref: Color, t: int, w: Widening)
    ensures Selected(ref, ref, t, w) <==> 0 < t
  {
  }

  /** A threshold of zero or below selects nothing: the square root is never
      negative, and NaN compares false. */
  lemma NonPositiveThresholdSelectsNothing(p: Color, ref: Color, t: int, w: Widening)
    requires t <= 0
    ensures !Selected(p, ref, t, w)
  {
  }

  /** A larger threshold selects at least the pixels a smaller one does. */
  lemma SelectedMonotone(p: Color, ref: Color, t1: int, t2: int, w: Widening)
    requires t1 <= t2 && Selected(p, ref, t1, w)
    ensures Selected(p, ref, t2, w)
  {
    RootBelowMonotone(Score(p, ref, w), t1, t2);
  }

  lemma RootBelowMonotone(s: int, t1: int, t2: int)
    requires t1 <= t2 && RootBelow(s, t1)
    ensures RootBelow(s, t2)
  {
    assert t1 * t1 <= t1 * t2 <= t2 * t2;
  }

  /** With unbounded arithmetic the mask is exactly "Euclidean distance below
      the threshold", for every pair of colours. */
  lemma UnboundedSelectionIsEuclidean(p: Color, ref: Color, t: int, dist: real)
    requires 0.0 <= dist && dist * dist == SquaredDistance(p, ref) as real
    ensures Selected(p, ref, t, Unbounded) <==> dist < t as real
  {
    RootBelowIsRealComparison(SquaredDistance(p, ref), t, dist);
  }

  /** `int16` wrap-around selects a distant pixel: a difference of 148 on
      every channel has squared distance 65712 (distance about 256), which
      wraps to 176, below 30 * 30. */
  lemma Int16SelectsDistantPixel()
    ensures SquaredDistance(Color(148, 148, 148), Color(0, 0, 0)) == 65712
    ensures Score(Color(148, 148, 148), Color(0, 0, 0), Int16) == 176
    ensures Selected(Color(148, 148, 148), Color(0, 0, 0), 30, Int16)
    ensures !Selected(Color(148, 148, 148), Color(0, 0, 0), 30, Unbounded)
  {
  }

  /** `int16` wrap-around rejects a pixel at distance 200 under every
      threshold: 200 * 200 wraps to -25536, whose square root is NaN. */
  lemma Int16RejectsOverflowedPixel(t: int)
    ensures Score(Color(200, 0, 0), Color(0, 0, 0), Int16) == -25536
    ensures !Selected(Color(200, 0, 0), Color(0, 0, 0), t, Int16)
    ensures 200 < t ==> Selected(Color(200, 0, 0), Color(0, 0, 0), t, Unbounded)
  {
    var p, ref := Color(200, 0, 0), Color(0, 0, 0);
    assert Score(p, ref, Int16) == -25536 by {
      assert Square16(Sub16(200, 0)) == Wrap16(40000) == -25536;
      assert Square16(Sub16(0, 0)) == 0;
    }
    assert SquaredDistance(p, ref) == 40000;
    if 200 < t {
      assert 40000 < 200 * t <= t * t;
      assert RootBelow(40000, t);
    }
  }
}
