/**
 * The frame difference estimator of src/utils/rms-diffs.ts: the root mean
 * square of the per-byte differences of two pixel arrays.  The square root
 * and the division are kept symbolic: an `Rms` value is sqrt(squares / count),
 * so comparing it with a threshold is integer arithmetic.
 */
module RmsDiffs {
  import opened Wrappers

  /** An element of a `Uint8Array`. */
  type byte = x: int | 0 <= x < 256

  /** sqrt(squares / count); with count == 0 this is 0 / 0, that is NaN. */
  datatype Rms = Rms(squares: nat, count: nat) {

    predicate IsNaN() {
      count == 0
    }

    /**
     * `rms < t` for a non-negative threshold: sqrt(squares / count) < t exactly
     * when squares < t * t * count, and a NaN compares false with everything.
     */
    predicate LessThan(t: nat) {
      count > 0 && squares < t * t * count
    }
  }

  /** The sum of (a[i] - b[i])^2 over all positions, accumulated front to back. */
  function Squares(a: seq<byte>, b: seq<byte>): nat
    requires |a| == |b|
  {
    if |a| == 0 then 0
    else
      var d := a[|a| - 1] as int - b[|b| - 1] as int;
      Squares(a[..|a| - 1], b[..|b| - 1]) + d * d
  }

  /**
   * `rmsDiff(data1, data2)`: throws when the lengths differ; otherwise the
   * loop accumulates the squared differences and the result is their root mean.
   */
  method RmsDiff(data1: seq<byte>, data2: seq<byte>) returns (r: Result<Rms, string>)
    ensures r.Err? <==> |data1| != |data2|
    ensures r.Ok? ==> r.value == Rms(Squares(data1, data2), |data1|)
  {
    if |data1| != |data2| {
      return Err("Data arrays must be of the same length");
    }
    var squares := 0;
    for i := 0 to |data1|
      invariant squares == Squares(data1[..i], data2[..i])
    {
      assert data1[..i + 1][..i] == data1[..i];
      assert data2[..i + 1][..i] == data2[..i];
      squares := squares + (data1[i] as int - data2[i] as int) * (data1[i] as int - data2[i] as int);
    }
    assert data1[..|data1|] == data1 && data2[..|data2|] == data2;
    return Ok(Rms(squares, |data1|));
  }

  /** Swapping the arguments gives the same score. */
  lemma {:induction false} SquaresSymmetric(a: seq<byte>, b: seq<byte>)
    requires |a| == |b|
    ensures Squares(a, b) == Squares(b, a)
  {
    if |a| > 0 {
      SquaresSymmetric(a[..|a| - 1], b[..|b| - 1]);
    }
  }

  /** The score is zero exactly for identical arrays. */
  lemma {:induction false} SquaresZeroIffEqual(a: seq<byte>, b: seq<byte>)
    requires |a| == |b|
    ensures Squares(a, b) == 0 <==> a == b
  {
    if |a| > 0 {
      var n := |a| - 1;
      SquaresZeroIffEqual(a[..n], b[..n]);
      SquareSign(a[n] as int - b[n] as int);
      assert a == a[..n] + [a[n]] && b == b[..n] + [b[n]];
    }
  }

  lemma SquareSign(d: int)
    ensures d * d >= 0 && (d * d == 0 <==> d == 0)
  {
    if d > 0 {
      assert d * d >= d;
    } else if d < 0 {
      assert d * d == (-d) * (-d) >= -d;
    }
  }

  lemma SquaredDifferenceBound(x: byte, y: byte)
    ensures (x as int - y as int) * (x as int - y as int) <= 65025
  {
    var d := x as int - y as int;
    var m := if d >= 0 then d else -d;
    assert d * d == m * m by {
      if d < 0 {
        assert d * d == (-d) * (-d);
      }
    }
    assert 0 <= m <= 255;
    assert m * m <= 255 * m by {
      MultiplyMonotone(m, 255, m);
    }
    assert 255 * m <= 255 * 255 by {
      MultiplyMonotone(m, 255, 255);
    }
  }

  lemma MultiplyMonotone(a: int, b: int, k: nat)
    requires a <= b
    ensures a * k <= b * k
  {
  }

  /** Byte differences are at most 255, so 0 <= squares <= 255^2 * n. */
  lemma {:induction false} SquaresBound(a: seq<byte>, b: seq<byte>)
    requires |a| == |b|
    ensures Squares(a, b) <= 65025 * |a|
  {
    if |a| > 0 {
      var n := |a| - 1;
      SquaresBound(a[..n], b[..n]);
      SquaredDifferenceBound(a[n], b[n]);
    }
  }

  /** Identical non-empty arrays score 0, which is below every positive threshold. */
  lemma IdenticalIsBelowThreshold(a: seq<byte>, t: nat)
    requires |a| > 0 && t > 0
    ensures Rms(Squares(a, a), |a|).LessThan(t)
  {
    SquaresZeroIffEqual(a, a);
  }

  /** Empty arrays score NaN, which is below no threshold. */
  lemma EmptyIsNaN(t: nat)
    ensures Rms(Squares([], []), 0).IsNaN()
    ensures !Rms(Squares([], []), 0).LessThan(t)
  {
  }

  /**
   * The integer threshold test is the real one: for a non-negative real `rms`
   * with rms * rms == squares / count and count > 0, rms < t holds exactly
   * when squares < t * t * count.
   */
  lemma LessThanIsRmsBelow(rms: real, squares: nat, count: nat, t: nat)
    requires count > 0 && rms >= 0.0
    requires rms * rms == squares as real / count as real
    ensures rms < t as real <==> Rms(squares, count).LessThan(t)
  {
    var tr := t as real;
    var c := count as real;
    assert rms * rms * c == squares as real;
    if rms < tr {
      ScaleAtMost(rms, tr, rms);
      ScaleLess(rms, tr, tr);
      ScaleLess(rms * rms, tr * tr, c);
    } else {
      ScaleAtMost(tr, rms, tr);
      ScaleAtMost(tr, rms, rms);
      ScaleAtMost(tr * tr, rms * rms, c);
    }
    assert (t * t * count) as real == tr * tr * c;
  }

  /** Multiplying by a positive real keeps a strict order. */
  lemma ScaleLess(x: real, y: real, c: real)
    requires x < y && c > 0.0
    ensures x * c < y * c
  {
    assert y * c - x * c == (y - x) * c;
  }

  /** Multiplying by a non-negative real keeps an order. */
  lemma ScaleAtMost(x: real, y: real, c: real)
    requires x <= y && c >= 0.0
    ensures x * c <= y * c
  {
    assert y * c - x * c == (y - x) * c;
  }
}
