/** The frame-interval smoothing filter of the camera server (`ra_filter_t`). */
module RunningAverage {

  /** C's `/` for a positive divisor: the quotient truncated toward zero. */
  function CDiv(a: int, b: int): int
    requires b > 0
  {
    if a >= 0 then a / b else -((-a) / b)
  }

  /** `CDiv` rounds toward zero: the product lies between zero and the dividend, within one divisor. */
  lemma CDivTruncates(a: int, b: int)
    requires b > 0
    ensures var q := CDiv(a, b);
            (a >= 0 ==> 0 <= q * b <= a < q * b + b) &&
            (a < 0 ==> q * b - b < a <= q * b <= 0)
  {
    var q := CDiv(a, b);
    if a >= 0 {
      EuclidBounds(a, b);
    } else {
      EuclidBounds(-a, b);
      assert q * b == -(((-a) / b) * b);
    }
  }

  lemma EuclidBounds(a: int, b: int)
    requires a >= 0 && b > 0
    ensures 0 <= (a / b) * b <= a < (a / b) * b + b
  {
    assert a == (a / b) * b + a % b;
  }

  function Sum(s: seq<int>): int {
    if s == [] then 0 else Sum(s[..|s| - 1]) + s[|s| - 1]
  }

  function Min(a: int, b: int): int {
    if a < b then a else b
  }

  /** The last `n` elements of `s`. */
  function LastN(s: seq<int>, n: nat): (r: seq<int>)
    requires n <= |s|
    ensures |r| == n
  {
    s[|s| - n..]
  }

  /** The truncated integer mean the filter reports. */
  function Mean(s: seq<int>): int
    requires |s| > 0
  {
    CDiv(Sum(s), |s|)
  }

  lemma {:induction false} SumConcat(a: seq<int>, b: seq<int>)
    ensures Sum(a + b) == Sum(a) + Sum(b)
    decreases |b|
  {
    if b == [] {
      assert a + b == a;
    } else {
      assert (a + b)[..|a + b| - 1] == a + b[..|b| - 1];
      assert (a + b)[|a + b| - 1] == b[|b| - 1];
      SumConcat(a, b[..|b| - 1]);
    }
  }

  lemma {:induction false} SumFirst(s: seq<int>)
    requires s != []
    ensures Sum(s) == s[0] + Sum(s[1..])
  {
    assert s == [s[0]] + s[1..];
    SumConcat([s[0]], s[1..]);
    assert [s[0]][..0] == [];
  }

  /** Overwriting one slot changes the sum by the difference of the two values. */
  lemma {:induction false} SumUpdate(s: seq<int>, i: nat, v: int)
    requires i < |s|
    ensures Sum(s[i := v]) == Sum(s) - s[i] + v
  {
    assert s == s[..i] + [s[i]] + s[i + 1..];
    assert s[i := v] == s[..i] + [v] + s[i + 1..];
    SumConcat(s[..i] + [s[i]], s[i + 1..]);
    SumConcat(s[..i], [s[i]]);
    SumConcat(s[..i] + [v], s[i + 1..]);
    SumConcat(s[..i], [v]);
    assert [s[i]][..0] == [] && [v][..0] == [];
  }

  lemma {:induction false} SumZeros(s: seq<int>)
    requires forall j :: 0 <= j < |s| ==> s[j] == 0
    ensures Sum(s) == 0
  {
    if s != [] {
      SumZeros(s[..|s| - 1]);
    }
  }

  /** A sum of `|s|` values in `[lo, hi]` lies in `[|s| * lo, |s| * hi]`. */
  lemma {:induction false} SumBounds(s: seq<int>, lo: int, hi: int)
    requires forall j :: 0 <= j < |s| ==> lo <= s[j] <= hi
    ensures |s| * lo <= Sum(s) <= |s| * hi
  {
    if s != [] {
      SumBounds(s[..|s| - 1], lo, hi);
      assert |s| * lo == (|s| - 1) * lo + lo;
      assert |s| * hi == (|s| - 1) * hi + hi;
    }
  }

  /** The reported mean never leaves the range of the samples it averages. */
  lemma MeanBounds(s: seq<int>, lo: int, hi: int)
    requires |s| > 0
    requires forall j :: 0 <= j < |s| ==> lo <= s[j] <= hi
    ensures lo <= Mean(s) <= hi
  {
    var n := |s|;
    SumBounds(s, lo, hi);
    var q := Mean(s);
    var a := Sum(s);
    CDivTruncates(a, n);
    assert n * lo <= a <= n * hi;
    if a >= 0 {
      assert q * n <= a && a < q * n + n;
      SignOfProduct(hi - q, n);
      SignOfProduct(q + 1 - lo, n);
    } else {
      assert q * n - n < a && a <= q * n;
      SignOfProduct(q - lo, n);
      SignOfProduct(hi + 1 - q, n);
    }
  }

  lemma SignOfProduct(x: int, n: int)
    requires n > 0
    ensures x * n >= 0 ==> x >= 0
    ensures x * n > 0 ==> x > 0
  {
  }

  /** Advancing a slot index modulo the capacity wraps only at the last slot. */
  lemma ModStep(i: nat, n: nat)
    requires i < n
    ensures (i + 1) % n == if i + 1 < n then i + 1 else 0
  {
    if i + 1 == n {
      assert (i + 1) % n == n % n == 0;
    }
  }

  /** While the buffer fills, the window gains the new sample at its end. */
  lemma LastNGrow(h: seq<int>, n: nat, v: int)
    requires n <= |h|
    ensures LastN(h + [v], n + 1) == LastN(h, n) + [v]
  {
  }

  /** Once the buffer is full, the window drops its oldest sample and gains the new one. */
  lemma LastNSlide(h: seq<int>, n: nat, v: int)
    requires 0 < n <= |h|
    ensures LastN(h + [v], n) == LastN(h, n)[1..] + [v]
  {
  }

  lemma FillStep(vals: seq<int>, c: nat, v: int, w: seq<int>)
    requires c < |vals| && vals[..c] == w
    requires forall j :: c <= j < |vals| ==> vals[j] == 0
    ensures vals[c := v][..c + 1] == w + [v]
    ensures c + 1 == |vals| ==> vals[c := v][0..] + vals[c := v][..0] == w + [v]
  {
    assert vals[c := v][..c + 1] == vals[..c] + [v];
  }

  /** Overwriting the oldest slot of a full rotation and stepping past it yields the next rotation. */
  lemma RotateStep(vals: seq<int>, i: nat, v: int, w: seq<int>)
    requires i < |vals| && vals[i..] + vals[..i] == w
    ensures var ni := if i + 1 < |vals| then i + 1 else 0;
            vals[i := v][ni..] + vals[i := v][..ni] == w[1..] + [v]
  {
    var nv := vals[i := v];
    assert w[1..] == vals[i + 1..] + vals[..i];
    if i + 1 < |vals| {
      assert nv[i + 1..] == vals[i + 1..];
      assert nv[..i + 1] == vals[..i] + [v];
    } else {
      assert vals[i + 1..] == [];
      assert nv[0..] + nv[..0] == nv == vals[..i] + [v];
    }
  }

  /** The window after one more sample: it grows until it holds `size` samples, then slides. */
  function Slide(w: seq<int>, v: int, size: nat): (r: seq<int>)
    ensures |r| == if |w| < size then |w| + 1 else |w|
    requires 0 < |w| || 0 < size
  {
    if |w| < size then w + [v] else w[1..] + [v]
  }

  /** The held samples `window` are the last `min(k, size)` of the `k` samples of `history`. */
  ghost predicate Covering(size: nat, count: nat, window: seq<int>, history: seq<int>) {
    count == Min(|history|, size) && window == LastN(history, count)
  }

  /** Sliding in one more sample keeps the window the last `min(k, size)` samples seen. */
  lemma CoveringStep(size: nat, count: nat, window: seq<int>, history: seq<int>, v: int)
    requires 0 < size && Covering(size, count, window, history)
    ensures Covering(size, if count < size then count + 1 else size, Slide(window, v, size), history + [v])
  {
    if count < size {
      LastNGrow(history, count, v);
    } else {
      LastNSlide(history, count, v);
    }
  }

  /**
   * The invariant of an allocated buffer `vals` of `size` slots: `sum` is the sum of the slots,
   * `count` samples are held, and reading the slots from `index` round to `index - 1` (while
   * filling: the first `count` slots) gives the held samples `window`, oldest first.
   */
  ghost predicate Ring(size: nat, index: nat, count: nat, sum: int, vals: seq<int>, window: seq<int>) {
    |vals| == size && 0 < size && index < size && count <= size && |window| == count &&
    sum == Sum(vals) &&
    (count < size ==>
      index == count && (forall j :: 0 <= j < count ==> window[j] == vals[j]) &&
      forall j :: count <= j < size ==> vals[j] == 0) &&
    (count == size ==>
      (forall j :: index <= j < size ==> window[j - index] == vals[j]) &&
      (forall j :: 0 <= j < index ==> window[size - index + j] == vals[j]))
  }

  /** `Ring` with the held samples written as slices of the buffer. */
  ghost predicate RingSlices(size: nat, index: nat, count: nat, sum: int, vals: seq<int>, window: seq<int>) {
    |vals| == size && 0 < size && index < size && count <= size && |window| == count &&
    sum == Sum(vals) &&
    (count < size ==>
      index == count && vals[..count] == window &&
      forall j :: count <= j < size ==> vals[j] == 0) &&
    (count == size ==> vals[index..] + vals[..index] == window)
  }

  lemma RingForms(size: nat, index: nat, count: nat, sum: int, vals: seq<int>, window: seq<int>)
    requires |vals| == size && 0 < size && index < size && count <= size && |window| == count
    ensures Ring(size, index, count, sum, vals, window) <==> RingSlices(size, index, count, sum, vals, window)
  {
    if count == size {
      var r := vals[index..] + vals[..index];
      if r == window {
        forall j | index <= j < size ensures window[j - index] == vals[j] {
          assert r[j - index] == vals[j];
        }
        forall j | 0 <= j < index ensures window[size - index + j] == vals[j] {
          assert r[size - index + j] == vals[j];
        }
      }
      if (forall j :: index <= j < size ==> window[j - index] == vals[j]) &&
         (forall j :: 0 <= j < index ==> window[size - index + j] == vals[j]) {
        forall k | 0 <= k < size ensures r[k] == window[k] {
          if k < size - index {
            assert vals[index + k] == window[index + k - index];
          } else {
            assert vals[k - (size - index)] == window[size - index + (k - (size - index))];
          }
        }
        assert r == window;
      }
    }
  }

  /** One `ra_filter_run` step on an allocated buffer keeps the ring invariant. */
  lemma RingStep(size: nat, index: nat, count: nat, sum: int, vals: seq<int>, window: seq<int>, v: int)
    requires Ring(size, index, count, sum, vals, window)
    ensures Ring(size, if index + 1 < size then index + 1 else 0, if count < size then count + 1 else size,
                 sum - vals[index] + v, vals[index := v], Slide(window, v, size))
  {
    var ni := if index + 1 < size then index + 1 else 0;
    var nc := if count < size then count + 1 else size;
    var nv := vals[index := v];
    var w := Slide(window, v, size);
    RingForms(size, index, count, sum, vals, window);
    RingForms(size, ni, nc, sum - vals[index] + v, nv, w);
    SumUpdate(vals, index, v);
    if count < size {
      FillStep(vals, count, v, window);
      if nc < size {
        assert nv[..nc] == w;
      } else {
        assert nv[ni..] + nv[..ni] == w;
      }
    } else {
      RotateStep(vals, index, v, window);
      assert nv[ni..] + nv[..ni] == w;
    }
  }

  /** In the ring invariant the running sum is the sum of the held samples. */
  lemma RingSum(size: nat, index: nat, count: nat, sum: int, vals: seq<int>, window: seq<int>)
    requires Ring(size, index, count, sum, vals, window)
    ensures sum == Sum(window)
  {
    RingForms(size, index, count, sum, vals, window);
    if count < size {
      assert vals == vals[..count] + vals[count..];
      SumConcat(vals[..count], vals[count..]);
      SumZeros(vals[count..]);
    } else {
      assert vals == vals[..index] + vals[index..];
      SumConcat(vals[..index], vals[index..]);
      SumConcat(vals[index..], vals[..index]);
    }
  }

  /** The ring invariant and the sum of the held samples after one stored sample. */
  lemma StoreStep(size: nat, index: nat, count: nat, sum: int, vals: seq<int>, window: seq<int>, v: int)
    requires Ring(size, index, count, sum, vals, window)
    ensures var ni := if index + 1 < size then index + 1 else 0;
            var nc := if count < size then count + 1 else size;
            Ring(size, ni, nc, sum - vals[index] + v, vals[index := v], Slide(window, v, size)) &&
            sum - vals[index] + v == Sum(Slide(window, v, size))
  {
    RingStep(size, index, count, sum, vals, window, v);
    RingSum(size, if index + 1 < size then index + 1 else 0, if count < size then count + 1 else size,
            sum - vals[index] + v, vals[index := v], Slide(window, v, size));
  }

  /**
   * The `ra_filter_t` record: a circular buffer of `size` samples, the slot `index` written next,
   * the number `count` of samples held (saturating at `size`) and their running `sum`.
   * `values == null` stands for a buffer that was never allocated.
   */
  class RaFilter {
    var size: nat
    var index: nat
    var count: nat
    var sum: int
    var values: array?<int>
    /** The samples the buffer holds, oldest first. */
    ghost var window: seq<int>
    /** Every sample given to `Run` since the buffer was allocated, oldest first. */
    ghost var history: seq<int>

    ghost predicate Valid()
      reads this, values
    {
      if values == null then
        size == 0 && index == 0 && count == 0 && sum == 0 && window == [] && history == []
      else
        Ring(size, index, count, sum, values[..], window)
    }

    /** The held samples are the last `min(k, size)` of the `k` samples seen. */
    ghost predicate Covers()
      reads this
    {
      Covering(size, count, window, history)
    }

    /** The filter as a zero-initialised static record: no buffer yet. */
    constructor ()
      ensures Valid() && Covers() && values == null
      ensures size == 0 && index == 0 && count == 0 && sum == 0
    {
      size, index, count, sum := 0, 0, 0, 0;
      values := null;
      window, history := [], [];
    }

    /**
     * `ra_filter_init`: clears the record, then allocates a zeroed buffer of `sampleSize` slots.
     * `allocOk` is the outcome of `malloc`; on failure the record stays cleared with no buffer.
     */
    method Init(sampleSize: nat, allocOk: bool) returns (ok: bool)
      requires sampleSize > 0
      modifies this
      ensures Valid() && Covers() && ok == allocOk && index == 0 && count == 0 && sum == 0
      ensures ok ==> values != null && fresh(values) && size == sampleSize &&
                     (forall j :: 0 <= j < sampleSize ==> values[j] == 0)
      ensures !ok ==> values == null && size == 0
    {
      size, index, count, sum := 0, 0, 0, 0;
      window, history := [], [];
      if !allocOk {
        values := null;
        return false;
      }
      values := new int[sampleSize](_ => 0);
      size := sampleSize;
      SumZeros(values[..]);
      return true;
    }

    /**
     * `ra_filter_run`: without a buffer the sample passes through and nothing changes; otherwise
     * the sample replaces the slot at `index`, the index advances modulo `size`, the count
     * saturates at `size`, the held samples slide by one, and the result is their truncated
     * mean; they stay the last `min(k, size)` of the `k` samples seen.
     */
    method Run(value: int) returns (r: int)
      requires Valid()
      modifies this, values
      ensures Valid() && values == old(values)
      ensures old(values) == null ==> r == value && size == old(size) && index == old(index) &&
                                      count == old(count) && sum == old(sum) && history == old(history) &&
                                      window == old(window)
      ensures old(values) != null ==>
                size == old(size) && index == (if old(index) + 1 < size then old(index) + 1 else 0) &&
                count == (if old(count) < size then old(count) + 1 else size) && 0 < count &&
                values[..] == old(values[..])[old(index) := value] &&
                window == Slide(old(window), value, size) &&
                history == old(history) + [value] &&
                r == Mean(window)
      ensures old(Covers()) ==> Covers()
    {
      if values == null {
        return value;
      }
      ghost var c, oldWindow, oldHistory := count, window, history;
      Store(value);
      if Covering(size, c, oldWindow, oldHistory) {
        CoveringStep(size, c, oldWindow, oldHistory, value);
      }
      r := CDiv(sum, count);
    }

    /** The buffered part of `ra_filter_run`: the slot, sum, index and count updates, up to the division. */
    method Store(value: int)
      requires Valid() && values != null
      modifies this, values
      ensures Valid() && values == old(values) && 0 < count && sum == Sum(window)
      ensures size == old(size) && index == (if old(index) + 1 < size then old(index) + 1 else 0) &&
              count == (if old(count) < size then old(count) + 1 else size) &&
              values[..] == old(values[..])[old(index) := value] &&
              window == Slide(old(window), value, size) &&
              history == old(history) + [value]
    {
      ghost var oldValues, i, c, oldSum, oldWindow := values[..], index, count, sum, window;
      ghost var ni := if i + 1 < size then i + 1 else 0;
      ghost var nc := if c < size then c + 1 else size;
      ModStep(i, size);
      sum := sum - values[index];
      values[index] := value;
      sum := sum + values[index];
      index := (index + 1) % size;
      if count < size {
        count := count + 1;
      }
      window := Slide(window, value, size);
      history := history + [value];
      assert values[..] == oldValues[i := value];
      assert index == ni && count == nc && sum == oldSum - oldValues[i] + value;
      StoreStep(size, i, c, oldSum, oldValues, oldWindow, value);
    }
  }
}
