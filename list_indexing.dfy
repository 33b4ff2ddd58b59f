/**
  Python's indexing of a list, `xs[index]`, for an `int` and for a
  `slice(start, stop, step)`, as `StructureDataCore.__getitem__` relies on it.

  Python integers are unbounded, so `sys.maxsize`, which stands in for an
  omitted bound, is replaced by the value it is clamped to.
*/
module ListIndexing {
  import opened Common

  /** The errors Python's list indexing raises. */
  datatype IndexError =
    | OutOfRange   // IndexError: list index out of range
    | ZeroStep     // ValueError: slice step cannot be zero

  /** `xs[i]`: a negative index counts from the end. */
  function At<T>(xs: seq<T>, i: int): (r: Result<T, IndexError>)
    ensures r.Ok? <==> -|xs| <= i < |xs|
    ensures r.Ok? ==> r.value == xs[if i < 0 then i + |xs| else i]
  {
    if 0 <= i < |xs| then Ok(xs[i])
    else if -|xs| <= i < 0 then Ok(xs[i + |xs|])
    else Err(OutOfRange)
  }

  /**
    One bound of a slice as `slice.indices(n)` adjusts it: a negative bound
    counts from the end, and the result is clamped to `0..n` for a positive
    step and to `-1..n-1` for a negative one. An omitted bound is the end the
    step walks away from (`start`) or towards (`stop`).
  */
  function Adjust(bound: int, n: nat, step: int): (b: int)
    requires step != 0
    ensures step > 0 ==> 0 <= b <= n
    ensures step < 0 ==> -1 <= b <= n - 1
  {
    if bound < 0 then
      if bound + n < 0 then (if step < 0 then -1 else 0) else bound + n
    else if bound >= n then (if step < 0 then n - 1 else n)
    else bound
  }

  function StartOf(start: Option<int>, n: nat, step: int): int
    requires step != 0
  {
    match start
    case Some(s) => Adjust(s, n, step)
    case None => if step < 0 then n - 1 else 0
  }

  function StopOf(stop: Option<int>, n: nat, step: int): int
    requires step != 0
  {
    match stop
    case Some(s) => Adjust(s, n, step)
    case None => if step < 0 then -1 else n
  }

  /** `range(start, stop, step)`. */
  function Range(start: int, stop: int, step: int): (r: seq<int>)
    requires step != 0
    ensures forall k :: 0 <= k < |r| ==> r[k] == start + k * step
    ensures step > 0 ==> forall k :: 0 <= k < |r| ==> start <= r[k] < stop
    ensures step < 0 ==> forall k :: 0 <= k < |r| ==> stop < r[k] <= start
    decreases if step > 0 then stop - start else start - stop
  {
    if (step > 0 && start < stop) || (step < 0 && start > stop) then
      var rest := Range(start + step, stop, step);
      PrependStep(start, step, rest);
      [start] + rest
    else []
  }

  lemma PrependStep(start: int, step: int, rest: seq<int>)
    requires forall k :: 0 <= k < |rest| ==> rest[k] == start + step + k * step
    ensures forall k :: 0 <= k < |rest| + 1 ==> ([start] + rest)[k] == start + k * step
  {
    forall k | 0 <= k < |rest| + 1
      ensures ([start] + rest)[k] == start + k * step
    {
      if k > 0 {
        assert ([start] + rest)[k] == rest[k - 1];
        assert (k - 1) * step + step == k * step;
      }
    }
  }

  /** The positions `xs[start:stop:step]` selects, or the step's error. */
  function SliceIndices(n: nat, start: Option<int>, stop: Option<int>, step: Option<int>): (r: Result<seq<int>, IndexError>)
    ensures r.Err? <==> step == Some(0)
    ensures r.Ok? ==> forall k :: 0 <= k < |r.value| ==> 0 <= r.value[k] < n
  {
    var st := if step.Some? then step.value else 1;
    if st == 0 then Err(ZeroStep)
    else Ok(Range(StartOf(start, n, st), StopOf(stop, n, st), st))
  }

  /** `xs[start:stop:step]`. */
  function Slice<T>(xs: seq<T>, start: Option<int>, stop: Option<int>, step: Option<int>): (r: Result<seq<T>, IndexError>)
    ensures r.Err? <==> step == Some(0)
    ensures r.Ok? ==>
              var idx := SliceIndices(|xs|, start, stop, step).value;
              |r.value| == |idx| && forall k :: 0 <= k < |idx| ==> r.value[k] == xs[idx[k]]
  {
    match SliceIndices(|xs|, start, stop, step)
    case Err(e) => Err(e)
    case Ok(idx) => Ok(seq(|idx|, k requires 0 <= k < |idx| => xs[idx[k]]))
  }

  // ----- Properties -----

  lemma {:induction false} RangeLength(start: int, stop: int, step: int)
    requires step == 1 || step == -1
    ensures |Range(start, stop, step)| == if step == 1 then (if start < stop then stop - start else 0)
                                          else (if start > stop then start - stop else 0)
    decreases if step > 0 then stop - start else start - stop
  {
    if (step > 0 && start < stop) || (step < 0 && start > stop) {
      RangeLength(start + step, stop, step);
    }
  }

  /** With bounds inside the list and no step, a slice is the contiguous sub-list. */
  lemma ContiguousSlice<T>(xs: seq<T>, a: nat, b: nat)
    requires a <= b <= |xs|
    ensures Slice(xs, Some(a), Some(b), None) == Ok(xs[a..b])
  {
    RangeLength(a, b, 1);
    var r := Slice(xs, Some(a), Some(b), None).value;
    assert |r| == b - a;
    assert forall k :: 0 <= k < |r| ==> r[k] == xs[a..b][k];
    assert r == xs[a..b];
  }

  /** `xs[:]` copies the whole list. */
  lemma WholeSlice<T>(xs: seq<T>)
    ensures Slice(xs, None, None, None) == Ok(xs)
  {
    RangeLength(0, |xs|, 1);
    var r := Slice(xs, None, None, None).value;
    assert |r| == |xs|;
    assert forall k :: 0 <= k < |r| ==> r[k] == xs[k];
    assert r == xs;
  }

  /** `xs[::-1]` reverses the list. */
  lemma ReversingSlice<T>(xs: seq<T>)
    ensures Slice(xs, None, None, Some(-1)) == Ok(seq(|xs|, k requires 0 <= k < |xs| => xs[|xs| - 1 - k]))
  {
    RangeLength(|xs| - 1, -1, -1);
    var r := Slice(xs, None, None, Some(-1)).value;
    assert |r| == |xs|;
    assert forall k :: 0 <= k < |r| ==> r[k] == xs[|xs| - 1 - k];
    assert r == seq(|xs|, k requires 0 <= k < |xs| => xs[|xs| - 1 - k]);
  }

  /** A start past the end, or a stop before the beginning, leaves the slice empty instead of raising. */
  lemma SliceBeyondEndIsEmpty<T>(xs: seq<T>, a: int, b: int)
    requires a >= |xs| && b <= -|xs|
    ensures Slice(xs, Some(a), None, None) == Ok([])
    ensures Slice(xs, None, Some(b), None) == Ok([])
  {
    assert SliceIndices(|xs|, Some(a), None, None) == Ok([]);
    assert SliceIndices(|xs|, None, Some(b), None) == Ok([]);
  }

  /** `xs[i:i+1]` holds exactly the element `xs[i]` for every valid non-negative `i`. */
  lemma SingletonSlice<T>(xs: seq<T>, i: nat)
    requires i < |xs|
    ensures Slice(xs, Some(i), Some(i + 1), None) == Ok([xs[i]])
    ensures At(xs, i) == Ok(xs[i])
  {
    ContiguousSlice(xs, i, i + 1);
    assert xs[i..i + 1] == [xs[i]];
  }
}
