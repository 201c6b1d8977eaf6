/**
 * `_calculate_segment_count`: how many fixed-length segments a video is cut
 * into. Durations are integers in one common unit (the wrapper uses
 * milliseconds), which keeps the arithmetic exact.
 */
module Segments {

  /** `math.ceil(total / length)` for a non-zero length: the least `q` with
      `total <= q * length` when `length` is positive, and the least `q` with
      `q * length <= total` when it is negative. */
  function CeilDiv(total: int, length: int): (q: int)
    requires length != 0
    ensures length > 0 ==> (q - 1) * length < total <= q * length
    ensures length < 0 ==> q * length <= total < (q - 1) * length
  {
    if length > 0 then
      var f := (-total) / length;
      assert -total == f * length + (-total) % length;
      assert (-f - 1) * length == -f * length - length;
      -f
    else
      var f := total / (-length);
      assert total == f * (-length) + total % (-length);
      assert (-f - 1) * length == -f * length - length;
      -f
  }

  /** The segment count for a non-zero length: `math.ceil(total / segment)`,
      unless the video is shorter than one segment, which gives none. */
  function SegmentCount(total: int, segment: int): (n: int)
    requires segment != 0
    ensures total < segment ==> n == 0
    ensures segment > 0 ==> (n == 0 <==> total < segment)
    ensures segment > 0 && total >= segment ==> n >= 1 && (n - 1) * segment < total <= n * segment
    ensures segment < 0 && total >= segment ==> n * segment <= total < (n - 1) * segment
  {
    if total < segment then 0 else CeilDiv(total, segment)
  }

  lemma MulMonotone(a: int, b: int, c: int)
    requires a <= b && c > 0
    ensures a * c <= b * c
  {
    assert b * c - a * c == (b - a) * c;
  }

  /** The bounds determine the count: for a video at least one segment long,
      the only `n` with `(n - 1) * segment < total <= n * segment` is the
      segment count, i.e. it is the ceiling of `total / segment`. */
  lemma SegmentCountIsCeiling(total: int, segment: int, n: int)
    requires segment > 0 && total >= segment
    requires (n - 1) * segment < total <= n * segment
    ensures SegmentCount(total, segment) == n
  {
    var c := SegmentCount(total, segment);
    if c < n {
      MulMonotone(c, n - 1, segment);
    } else if c > n {
      MulMonotone(n, c - 1, segment);
    }
  }

  /** Every segment starts strictly inside the video, and the last one
      reaches its end: the segments cover the whole video and no more
      than is needed. */
  lemma SegmentsCoverVideo(total: int, segment: int, i: nat)
    requires segment > 0
    requires i < SegmentCount(total, segment)
    ensures i * segment < total
    ensures total <= SegmentCount(total, segment) * segment
  {
    MulMonotone(i, SegmentCount(total, segment) - 1, segment);
  }

  /** A negative length never gives more than one segment, and gives one
      only for a total between that length and zero; a non-negative total
      gives a count of zero or less. */
  lemma NegativeSegmentCount(total: int, segment: int)
    requires segment < 0
    ensures SegmentCount(total, segment) <= 1
    ensures SegmentCount(total, segment) == 1 ==> segment <= total < 0
    ensures total >= 0 ==> SegmentCount(total, segment) <= 0
  {
    var n := SegmentCount(total, segment);
    if n >= 2 {
      MulMonotone(1, n - 1, -segment);
      assert false;
    }
    if total >= 0 && n >= 1 {
      MulMonotone(1, n, -segment);
    }
  }
}
