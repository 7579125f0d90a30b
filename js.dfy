/** Values of the host language that the selector engine handles: sparse
    arrays, the two errors it can raise and the truthiness of a callback's
    return value. */
module Js {

  datatype Option<+T> = None | Some(value: T)

  /** The errors the engine can throw; all of them are a `TypeError` in the
      host language. */
  datatype Error =
    | EmptyReduce          // "reduce of empty array with on initial value"
    | NoConstructor        // reading `arg.constructor` of null or undefined
    | SpliceNotAFunction   // calling `splice` on a query object

  datatype Result<+T> = Success(value: T) | Failure(error: Error)

  /** A possibly sparse array: `None` at index i is a hole (`i in a` is
      false). In arrays of elements it also stands for a null or undefined
      entry, since every test the engine makes of an entry (`if (!arr[i])`,
      `while (upNode)`) treats a hole and a falsy entry alike. */
  type JsArray<T> = seq<Option<T>>

  /** A value a callback may return, with the host's truthiness. */
  datatype JsValue = Undefined | Null | Boolean(b: bool) | Number(n: int) | Str(s: string) | Object

  predicate Truthy(v: JsValue) {
    match v
    case Undefined => false
    case Null => false
    case Boolean(b) => b
    case Number(n) => n != 0
    case Str(s) => s != ""
    case Object => true
  }

  /** The values at the present indices of a sparse array, in index order. */
  function Present<T>(xs: JsArray<T>): (r: seq<T>)
    ensures |r| <= |xs|
  {
    if xs == [] then []
    else
      (if xs[0].Some? then [xs[0].value] else []) + Present(xs[1..])
  }

  /** A value is among the present ones exactly when some index holds it. */
  lemma {:induction false} PresentHas<T>(xs: JsArray<T>, x: T)
    ensures x in Present(xs) <==> Some(x) in xs
  {
    if xs != [] {
      PresentHas(xs[1..], x);
      assert Some(x) in xs <==> Some(x) == xs[0] || Some(x) in xs[1..];
    }
  }

  /** A dense array holding the given values. */
  function Dense<T>(vs: seq<T>): (r: JsArray<T>)
    ensures |r| == |vs| && forall i :: 0 <= i < |vs| ==> r[i] == Some(vs[i])
  {
    seq(|vs|, i requires 0 <= i < |vs| => Some(vs[i]))
  }

  lemma {:induction false} PresentAppend<T>(a: JsArray<T>, b: JsArray<T>)
    ensures Present(a + b) == Present(a) + Present(b)
  {
    if a == [] {
      assert a + b == b;
    } else {
      assert (a + b)[0] == a[0];
      assert (a + b)[1..] == a[1..] + b;
      PresentAppend(a[1..], b);
    }
  }

  lemma {:induction false} PresentDense<T>(vs: seq<T>)
    ensures Present(Dense(vs)) == vs
  {
    if vs != [] {
      assert Dense(vs)[1..] == Dense(vs[1..]);
      PresentDense(vs[1..]);
    }
  }

  /** Every index of a sparse array is present exactly when no value was
      dropped by Present. */
  lemma {:induction false} PresentFull<T>(xs: JsArray<T>)
    requires |Present(xs)| == |xs|
    ensures forall i :: 0 <= i < |xs| ==> xs[i].Some?
    ensures xs == Dense(Present(xs))
  {
    if xs != [] {
      PresentFull(xs[1..]);
    }
  }

  /** The i-th step of a scan: the element at i followed by the rest. */
  lemma PresentFrom<T>(xs: JsArray<T>, i: nat)
    requires i < |xs|
    ensures Present(xs[i..]) == (if xs[i].Some? then [xs[i].value] else []) + Present(xs[i + 1..])
  {
    assert xs[i..][1..] == xs[i + 1..];
  }

  lemma PresentPrefix<T>(xs: JsArray<T>, i: nat)
    requires i < |xs|
    ensures Present(xs[..i + 1]) == Present(xs[..i]) + (if xs[i].Some? then [xs[i].value] else [])
  {
    assert xs[..i + 1] == xs[..i] + [xs[i]];
    PresentAppend(xs[..i], [xs[i]]);
  }
}
