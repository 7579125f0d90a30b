/** The `Array.prototype.reduce` shim (section 15.4.4.21 of ECMA-262 5.1)
    the selector engine folds its partial results with. Absent indices are
    skipped, and a fold with no present value and no initial value throws. */
module ArrayShims {
  import opened Js

  function FoldLeft<T>(f: (T, T) -> T, acc: T, vs: seq<T>): T
    decreases |vs|
  {
    if vs == [] then acc else FoldLeft(f, f(acc, vs[0]), vs[1..])
  }

  /** `xs.reduce(f)` without an initial value: the first present value,
      combined left to right with every later present value. */
  function Reduce<T>(xs: JsArray<T>, f: (T, T) -> T): Result<T>
  {
    var vs := Present(xs);
    if vs == [] then Failure(EmptyReduce) else Success(FoldLeft(f, vs[0], vs[1..]))
  }

  lemma {:induction false} FoldLeftSnoc<T>(f: (T, T) -> T, acc: T, vs: seq<T>, w: T)
    ensures FoldLeft(f, acc, vs + [w]) == f(FoldLeft(f, acc, vs), w)
  {
    if vs != [] {
      assert (vs + [w])[1..] == vs[1..] + [w];
      FoldLeftSnoc(f, f(acc, vs[0]), vs[1..], w);
    }
  }

  /** Once the first present index k is found, reduce folds from its value
      over the present values after it. */
  lemma ReduceFrom<T>(xs: JsArray<T>, f: (T, T) -> T, k: nat)
    requires k < |xs| && xs[k].Some? && Present(xs[..k]) == []
    ensures Reduce(xs, f) == Success(FoldLeft(f, xs[k].value, Present(xs[k + 1..])))
  {
    assert xs == xs[..k] + xs[k..];
    PresentAppend(xs[..k], xs[k..]);
    PresentFrom(xs, k);
    assert Present(xs) == [xs[k].value] + Present(xs[k + 1..]);
    assert Present(xs)[1..] == Present(xs[k + 1..]);
  }

  /** The shim's fold loop from index i: every present index k combines the
      accumulator with its value and with k, as `fn.call(null, result,
      this[i], i, this)` does; holes are skipped. */
  function FoldAt<T>(f: (T, T, nat) -> T, acc: T, xs: JsArray<T>, i: nat): T
    requires i <= |xs|
    decreases |xs| - i
  {
    if i == |xs| then acc
    else FoldAt(f, if xs[i].Some? then f(acc, xs[i].value, i) else acc, xs, i + 1)
  }

  /** The least present index at or after i. */
  function FirstPresent<T>(xs: JsArray<T>, i: nat): (r: Option<nat>)
    requires i <= |xs|
    ensures r.Some? ==> i <= r.value < |xs| && xs[r.value].Some?
    ensures r.Some? ==> forall k :: i <= k < r.value ==> xs[k].None?
    ensures r.None? ==> forall k :: i <= k < |xs| ==> xs[k].None?
    decreases |xs| - i
  {
    if i == |xs| then None else if xs[i].Some? then Some(i) else FirstPresent(xs, i + 1)
  }

  /** `xs.reduce(f, initial)` in full: with an initial value the fold starts
      from it at index 0; without one it starts after the first present
      index, from that index's value, and throws when there is none. */
  function ReduceAt<T>(xs: JsArray<T>, f: (T, T, nat) -> T, initial: Option<T>): Result<T> {
    if initial.Some? then Success(FoldAt(f, initial.value, xs, 0))
    else match FirstPresent(xs, 0)
      case None => Failure(EmptyReduce)
      case Some(k) => Success(FoldAt(f, xs[k].value, xs, k + 1))
  }

  /** A two-argument callback, called as the shim calls every callback. */
  function IgnoreIndex<T>(f: (T, T) -> T): (T, T, nat) -> T {
    (acc, v, i) => f(acc, v)
  }

  /** The shim itself: the initial value when one is passed, or else a scan
      for the first present index; then a loop that combines the
      accumulator with every present index after it. */
  method ReduceShim<T>(xs: JsArray<T>, f: (T, T, nat) -> T, initial: Option<T>) returns (r: Result<T>)
    ensures r == ReduceAt(xs, f, initial)
  {
    var len := |xs|;
    var i := 0;
    var result: Option<T> := None;
    if initial.Some? {
      result := initial;
    } else {
      while true
        invariant i <= len
        invariant FirstPresent(xs, 0) == FirstPresent(xs, i)
        decreases len - i
      {
        if i < len && xs[i].Some? {
          result := Some(xs[i].value);
          i := i + 1;
          break;
        }
        i := i + 1;
        if i >= len {
          return Failure(EmptyReduce);
        }
      }
    }
    ghost var goal := FoldAt(f, result.value, xs, i);
    assert Success(goal) == ReduceAt(xs, f, initial);
    while i < len
      invariant i <= len
      invariant result.Some?
      invariant FoldAt(f, result.value, xs, i) == goal
      decreases len - i
    {
      if xs[i].Some? {
        result := Some(f(result.value, xs[i].value, i));
      }
      i := i + 1;
    }
    r := Success(result.value);
  }

  /** The fold loop with a callback that ignores the index is the left fold
      over the present values. */
  lemma {:induction false} FoldAtBinary<T>(f: (T, T) -> T, acc: T, xs: JsArray<T>, i: nat)
    requires i <= |xs|
    ensures FoldAt(IgnoreIndex(f), acc, xs, i) == FoldLeft(f, acc, Present(xs[i..]))
    decreases |xs| - i
  {
    if i == |xs| {
      assert xs[i..] == [];
    } else {
      PresentFrom(xs, i);
      var acc' := if xs[i].Some? then f(acc, xs[i].value) else acc;
      FoldAtBinary(f, acc', xs, i + 1);
      if xs[i].Some? {
        assert IgnoreIndex(f)(acc, xs[i].value, i) == acc';
        var ps, rest := Present(xs[i..]), Present(xs[i + 1..]);
        assert ps == [xs[i].value] + rest;
        assert ps[0] == xs[i].value && ps[1..] == rest;
        assert FoldLeft(f, acc, ps) == FoldLeft(f, acc', rest);
      } else {
        assert Present(xs[i..]) == Present(xs[i + 1..]);
      }
      assert FoldAt(IgnoreIndex(f), acc, xs, i) == FoldAt(IgnoreIndex(f), acc', xs, i + 1);
    }
  }

  /** Without an initial value and with a two-argument callback, which is how
      the selector engine calls it, the shim is `Reduce`. */
  lemma ReduceAtBinary<T>(xs: JsArray<T>, f: (T, T) -> T)
    ensures ReduceAt(xs, IgnoreIndex(f), None) == Reduce(xs, f)
  {
    match FirstPresent(xs, 0)
    case None =>
      AllHolesPresent(xs);
    case Some(k) =>
      AllHolesPresent(xs[..k]);
      ReduceFrom(xs, f, k);
      FoldAtBinary(f, xs[k].value, xs, k + 1);
  }

  /** With an initial value the shim never throws, and over an array of holes
      it returns the initial value without calling the callback. */
  lemma ReduceInitialOfHoles<T>(xs: JsArray<T>, f: (T, T, nat) -> T, v: T)
    requires forall i :: 0 <= i < |xs| ==> xs[i].None?
    ensures ReduceAt(xs, f, Some(v)) == Success(v)
  {
    FoldAtHoles(xs, f, v, 0);
  }

  lemma {:induction false} FoldAtHoles<T>(xs: JsArray<T>, f: (T, T, nat) -> T, v: T, i: nat)
    requires i <= |xs| && forall k :: i <= k < |xs| ==> xs[k].None?
    ensures FoldAt(f, v, xs, i) == v
    decreases |xs| - i
  {
    if i < |xs| {
      FoldAtHoles(xs, f, v, i + 1);
    }
  }

  /** A reduce throws exactly when the array has no present index. */
  lemma ReduceFailsIffAllHoles<T>(xs: JsArray<T>, f: (T, T) -> T)
    ensures Reduce(xs, f).Failure? <==> forall i :: 0 <= i < |xs| ==> xs[i].None?
    ensures Reduce(xs, f).Failure? ==> Reduce(xs, f).error == EmptyReduce
  {
    if forall i :: 0 <= i < |xs| ==> xs[i].None? {
      AllHolesPresent(xs);
    } else {
      var i :| 0 <= i < |xs| && xs[i].Some?;
      PresentHas(xs, xs[i].value);
    }
  }

  lemma {:induction false} AllHolesPresent<T>(xs: JsArray<T>)
    requires forall i :: 0 <= i < |xs| ==> xs[i].None?
    ensures Present(xs) == []
  {
    if xs != [] {
      AllHolesPresent(xs[1..]);
    }
  }

  /** With a single present index, reduce returns that value unchanged and
      never calls `f`. */
  lemma ReduceSingle<T>(xs: JsArray<T>, f: (T, T) -> T, k: nat)
    requires k < |xs| && xs[k].Some?
    requires forall i :: 0 <= i < |xs| && i != k ==> xs[i].None?
    ensures Reduce(xs, f) == Success(xs[k].value)
  {
    assert xs == xs[..k] + [xs[k]] + xs[k + 1..];
    AllHolesPresent(xs[..k]);
    AllHolesPresent(xs[k + 1..]);
    PresentAppend(xs[..k] + [xs[k]], xs[k + 1..]);
    PresentAppend(xs[..k], [xs[k]]);
  }

  /** On a dense array, reduce is a left fold starting from the first entry. */
  lemma ReduceDense<T>(vs: seq<T>, f: (T, T) -> T)
    requires vs != []
    ensures Reduce(Dense(vs), f) == Success(FoldLeft(f, vs[0], vs[1..]))
  {
    PresentDense(vs);
  }

  // ---------------------------------------------------------------------
  // indexOf and lastIndexOf (sections 15.4.4.14 and 15.4.4.15 of ECMA-262
  // 5.1), with an integer `from`; `None` stands for an omitted argument.

  /** Where `indexOf` starts: 0 when `from` is omitted or 0, a negative
      `from` counted back from the end and clamped at 0. */
  function IndexStart(len: nat, from: Option<int>): (k: nat)
    ensures from.None? ==> k == 0
    ensures from.Some? && from.value >= 0 ==> k == from.value
    ensures from.Some? && from.value < 0 ==> k == if from.value + len < 0 then 0 else from.value + len
  {
    var f := if from.Some? then from.value else 0;
    if f < 0 then (if f + len < 0 then 0 else f + len) else f
  }

  /** The first index at or after k holding `v`, or -1. */
  function IndexFound<T(==)>(xs: JsArray<T>, v: T, k: nat): int
    decreases |xs| - k
  {
    if k >= |xs| then -1
    else if xs[k] == Some(v) then k
    else IndexFound(xs, v, k + 1)
  }

  lemma {:induction false} IndexFoundIs<T>(xs: JsArray<T>, v: T, k: nat)
    ensures IndexFound(xs, v, k) == -1 <==> forall i :: k <= i < |xs| ==> xs[i] != Some(v)
    ensures IndexFound(xs, v, k) != -1 ==>
      k <= IndexFound(xs, v, k) < |xs| && xs[IndexFound(xs, v, k)] == Some(v) &&
      forall i :: k <= i < IndexFound(xs, v, k) ==> xs[i] != Some(v)
    decreases |xs| - k
  {
    if k < |xs| && xs[k] != Some(v) {
      IndexFoundIs(xs, v, k + 1);
    }
  }

  /** The `indexOf` shim: the least index from the start that is present
      and holds `v`, or -1. */
  method IndexOfShim<T(==)>(xs: JsArray<T>, v: T, from: Option<int>) returns (r: int)
    ensures r == IndexFound(xs, v, IndexStart(|xs|, from))
  {
    var len := |xs|;
    var k := IndexStart(len, from);
    while k < len
      invariant IndexStart(len, from) <= k
      invariant IndexFound(xs, v, k) == IndexFound(xs, v, IndexStart(len, from))
      decreases len - k
    {
      if xs[k].Some? && xs[k].value == v {
        return k;
      }
      k := k + 1;
    }
    r := -1;
  }

  /** Where `lastIndexOf` starts as written: `Number(from) || len - 1` turns
      an explicit 0 into len - 1, like an omitted `from`. */
  function LastStartAsWritten(len: nat, from: Option<int>): int {
    var f := if from.Some? && from.value != 0 then from.value else len - 1;
    var g := if f < 0 then f + len else f;
    if g < len - 1 then g else len - 1
  }

  /** Where `lastIndexOf` starts by section 15.4.4.15: len - 1 when `from` is
      omitted, min(from, len - 1) for a non-negative `from`, len + from for
      a negative one. */
  function LastStart(len: nat, from: Option<int>): (k: int)
    ensures from.Some? && from.value >= 0 ==> k <= from.value
  {
    var f := if from.Some? then from.value else len - 1;
    var g := if f < 0 then f + len else f;
    if g < len - 1 then g else len - 1
  }

  /** The last index at or before k holding `v`, or -1. */
  function LastFound<T(==)>(xs: JsArray<T>, v: T, k: int): int
    requires k < |xs|
    decreases k + 1
  {
    if k < 0 then -1
    else if xs[k] == Some(v) then k
    else LastFound(xs, v, k - 1)
  }

  lemma {:induction false} LastFoundIs<T>(xs: JsArray<T>, v: T, k: int)
    requires k < |xs|
    ensures LastFound(xs, v, k) == -1 <==> forall i :: 0 <= i <= k ==> xs[i] != Some(v)
    ensures LastFound(xs, v, k) != -1 ==>
      0 <= LastFound(xs, v, k) <= k && xs[LastFound(xs, v, k)] == Some(v) &&
      forall i :: LastFound(xs, v, k) < i <= k ==> xs[i] != Some(v)
    decreases k + 1
  {
    if k >= 0 && xs[k] != Some(v) {
      LastFoundIs(xs, v, k - 1);
    }
  }

  /** The `lastIndexOf` shim as written. */
  method LastIndexOfShim<T(==)>(xs: JsArray<T>, v: T, from: Option<int>) returns (r: int)
    ensures r == LastFound(xs, v, LastStartAsWritten(|xs|, from))
  {
    var len := |xs|;
    var k := LastStartAsWritten(len, from);
    while k >= 0
      invariant k <= LastStartAsWritten(len, from) < len
      invariant LastFound(xs, v, k) == LastFound(xs, v, LastStartAsWritten(len, from))
      decreases k + 1
    {
      if xs[k].Some? && xs[k].value == v {
        return k;
      }
      k := k - 1;
    }
    r := -1;
  }

  /** The two starts differ only for an explicit `from` of 0. */
  lemma LastStartDiffers(len: nat, from: Option<int>)
    ensures from != Some(0) ==> LastStartAsWritten(len, from) == LastStart(len, from)
    ensures from == Some(0) && len > 0 ==> LastStart(len, from) == 0 && LastStartAsWritten(len, from) == len - 1
  {
  }

  /** By section 15.4.4.15, a search from a non-negative index never answers
      an index beyond it. */
  lemma LastIndexOfWithinFrom<T>(xs: JsArray<T>, v: T, n: nat)
    ensures LastFound(xs, v, LastStart(|xs|, Some(n))) <= n
  {
    LastFoundIs(xs, v, LastStart(|xs|, Some(n)));
  }

  /** As written, `[v, v].lastIndexOf(v, 0)` answers 1, an index beyond the
      requested 0, where the standard answers 0. */
  lemma LastIndexOfFromZero<T>(v: T)
    ensures LastFound([Some(v), Some(v)], v, LastStartAsWritten(2, Some(0))) == 1
    ensures LastFound([Some(v), Some(v)], v, LastStart(2, Some(0))) == 0
  {
  }

  // ---------------------------------------------------------------------
  // filter, every and some (sections 15.4.4.20, 15.4.4.16 and 15.4.4.17),
  // with a callback of the value and its index whose result is already
  // reduced to its truthiness.

  /** The values at the present indices below n for which `f` holds, in
      index order. */
  function Kept<T>(xs: JsArray<T>, f: (T, nat) -> bool, n: nat): (r: seq<T>)
    requires n <= |xs|
    ensures |r| <= n
  {
    if n == 0 then []
    else Kept(xs, f, n - 1) + (if xs[n - 1].Some? && f(xs[n - 1].value, n - 1) then [xs[n - 1].value] else [])
  }

  /** A value is kept exactly when some present index below n holds it and
      `f` holds of the value there. */
  lemma {:induction false} KeptHas<T>(xs: JsArray<T>, f: (T, nat) -> bool, n: nat, x: T)
    requires n <= |xs|
    ensures x in Kept(xs, f, n) <==> exists i :: 0 <= i < n && xs[i] == Some(x) && f(x, i)
  {
    if n > 0 {
      KeptHas(xs, f, n - 1, x);
      if xs[n - 1] == Some(x) && f(x, n - 1) {
        assert x in Kept(xs, f, n);
      }
    }
  }

  /** When `f` holds everywhere, filter returns exactly the present values. */
  lemma {:induction false} KeptAll<T>(xs: JsArray<T>, f: (T, nat) -> bool, n: nat)
    requires n <= |xs|
    requires forall x, i :: f(x, i)
    ensures Kept(xs, f, n) == Present(xs[..n])
  {
    if n > 0 {
      KeptAll(xs, f, n - 1);
      PresentPrefix(xs, n - 1);
    }
  }

  /** The `filter` shim. */
  method FilterShim<T>(xs: JsArray<T>, f: (T, nat) -> bool) returns (result: seq<T>)
    ensures result == Kept(xs, f, |xs|)
  {
    result := [];
    var i := 0;
    while i < |xs|
      invariant 0 <= i <= |xs|
      invariant result == Kept(xs, f, i)
    {
      if xs[i].Some? {
        var val := xs[i].value;
        if f(val, i) {
          result := result + [val];
        }
      }
      i := i + 1;
    }
  }

  /** The `every` shim: true exactly when `f` holds at every present index. */
  method EveryShim<T>(xs: JsArray<T>, f: (T, nat) -> bool) returns (b: bool)
    ensures b <==> forall i :: 0 <= i < |xs| && xs[i].Some? ==> f(xs[i].value, i)
  {
    var i := 0;
    while i < |xs|
      invariant 0 <= i <= |xs|
      invariant forall k :: 0 <= k < i && xs[k].Some? ==> f(xs[k].value, k)
    {
      if xs[i].Some? && !f(xs[i].value, i) {
        return false;
      }
      i := i + 1;
    }
    return true;
  }

  /** The `some` shim: true exactly when `f` holds at some present index. */
  method SomeShim<T>(xs: JsArray<T>, f: (T, nat) -> bool) returns (b: bool)
    ensures b <==> exists i :: 0 <= i < |xs| && xs[i].Some? && f(xs[i].value, i)
  {
    var i := 0;
    while i < |xs|
      invariant 0 <= i <= |xs|
      invariant forall k :: 0 <= k < i && xs[k].Some? ==> !f(xs[k].value, k)
    {
      if xs[i].Some? && f(xs[i].value, i) {
        return true;
      }
      i := i + 1;
    }
    return false;
  }
}
