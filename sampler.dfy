/**
 * Frame sampling: the frame-skip interval computed from the source's
 * nominal frame rate and PROCESS_FPS, and the test that decides which
 * frames reach the detector.
 */
module Sampler {
  import opened Wrappers

  /** Python's int(a / b) for a positive divisor: the quotient truncated toward zero. */
  function TruncDiv(a: int, b: int): (q: int)
    requires b > 0
    ensures a >= 0 ==> q * b <= a < (q + 1) * b
    ensures a < 0 ==> q <= 0 && (q - 1) * b < a <= q * b
  {
    if a >= 0 then a / b else -((-a) / b)
  }

  /**
   * frame_skip: max(1, int(fps / PROCESS_FPS)) when PROCESS_FPS is set and
   * positive, 1 otherwise.
   */
  function Stride(fps: int, processFps: Option<int>): (s: nat)
    ensures s >= 1
    ensures processFps.None? || processFps.value <= 0 ==> s == 1
    ensures processFps.Some? && processFps.value > 0 && fps < processFps.value ==> s == 1
  {
    if processFps.Some? && processFps.value > 0 then
      var q := TruncDiv(fps, processFps.value);
      if q > 1 then q else 1
    else 1
  }

  /**
   * When the source is at least as fast as the target, the stride is the
   * largest number of target periods that fit in one source period, so the
   * achieved rate fps / stride lies in [target, 2 * target).
   */
  lemma {:induction false} StrideFits(fps: int, target: int)
    requires target > 0 && fps >= target
    ensures var s := Stride(fps, Some(target));
      s * target <= fps < (s + 1) * target && fps < 2 * s * target
  {
    var s := Stride(fps, Some(target));
    assert s == fps / target;
    assert s * target <= fps < (s + 1) * target;
    assert s * target + target <= 2 * s * target by {
      assert s >= 1;
      assert target <= s * target;
    }
  }

  /** frame_count % frame_skip == 0: the 1-based frame i reaches the detector. */
  predicate IsProcessed(i: nat, stride: nat)
    requires stride >= 1
  {
    i % stride == 0
  }

  /** The 1-based indices, among the first n frames, that reach the detector, in order. */
  function Processed(n: nat, stride: nat): (r: seq<nat>)
    requires stride >= 1
    ensures forall j :: 0 <= j < |r| ==> 1 <= r[j] <= n && IsProcessed(r[j], stride)
    ensures forall j, k :: 0 <= j < k < |r| ==> r[j] < r[k]
  {
    if n == 0 then []
    else if IsProcessed(n, stride) then Processed(n - 1, stride) + [n]
    else Processed(n - 1, stride)
  }

  /** Every processed frame among the first n is listed. */
  lemma {:induction false} ProcessedComplete(n: nat, stride: nat, i: nat)
    requires stride >= 1
    requires 1 <= i <= n && IsProcessed(i, stride)
    ensures i in Processed(n, stride)
  {
    if i < n {
      ProcessedComplete(n - 1, stride, i);
    }
  }

  /** Quotient and remainder are determined by the Euclidean decomposition. */
  lemma {:induction false} DivUnique(a: nat, d: nat, q: nat, r: nat)
    requires d >= 1 && a == q * d + r && r < d
    ensures a / d == q && a % d == r
  {
    var q0, r0 := a / d, a % d;
    assert a == q0 * d + r0 && r0 < d;
    var k := q - q0;
    assert k * d == r0 - r;
  }

  /** Reading one more frame adds one processed frame exactly when that frame is processed. */
  lemma {:induction false} DivStep(n: nat, stride: nat)
    requires stride >= 1
    ensures (n + 1) / stride == n / stride + (if IsProcessed(n + 1, stride) then 1 else 0)
  {
    var q, r := n / stride, n % stride;
    if r + 1 == stride {
      DivUnique(n + 1, stride, q + 1, 0);
    } else {
      DivUnique(n + 1, stride, q, r + 1);
    }
  }

  /** After n frames have been read, exactly n div stride of them were processed. */
  lemma {:induction false} ProcessedCount(n: nat, stride: nat)
    requires stride >= 1
    ensures |Processed(n, stride)| == n / stride
  {
    if n > 0 {
      ProcessedCount(n - 1, stride);
      DivStep(n - 1, stride);
    }
  }
}
