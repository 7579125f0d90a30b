/** The query object built by `Sprying(arg)`, its accessors `get`, `each`
    and `is`, and the queue of callbacks run once the document is loaded. */
module Query {
  import opened Js
  import opened Dom
  import opened SetOps
  import opened Selector

  /** A function handed to the constructor, known only by its identity. */
  datatype Callback = Callback(id: nat)

  /** The argument of the constructor, by the branch it takes. `OtherValue`
      is any value that is not null or undefined, not a query object, not a
      string, has no `nodeType` and is not a function. */
  datatype Arg =
    | Undefined
    | Null
    | QueryObj(obj: Sprying)
    | Text(s: string)
    | NodeArg(e: Elem)
    | FunctionArg(f: Callback)
    | OtherValue

  // ---------------------------------------------------------------------
  // the ready queue

  /** The module-global `_domLoaded_Fns`, the flag `Sprying.isReady`, the
      number of notifiers installed through `Sprying.ready`, that notifier's
      `done` flag, and the callbacks its drain has called, in order. */
  class ReadyQueue {
    var fns: seq<Callback>
    var isReady: bool
    var notifiers: nat
    var done: bool
    var ran: seq<Callback>

    /** One notifier exactly when some function was registered; nothing has
        run before it fired; what ran is the queue as it was when it fired,
        so a later registration is never run. */
    ghost predicate Valid()
      reads this
    {
      notifiers == (if isReady then 1 else 0) &&
      (done ==> isReady) &&
      (!done ==> ran == []) &&
      (!isReady ==> fns == []) &&
      |ran| <= |fns| && ran == fns[..|ran|]
    }

    constructor ()
      ensures Valid()
      ensures fns == [] && !isReady && notifiers == 0 && !done && ran == []
    {
      fns := [];
      isReady := false;
      notifiers := 0;
      done := false;
      ran := [];
    }

    /** The function branch of the constructor: append to the queue, and on
        the first registration only, set `isReady` and install the notifier. */
    method Register(f: Callback)
      requires Valid()
      modifies this
      ensures Valid()
      ensures fns == old(fns) + [f]
      ensures isReady
      ensures notifiers == old(notifiers) + (if old(isReady) then 0 else 1)
      ensures done == old(done) && ran == old(ran)
    {
      fns := fns + [f];
      if !isReady {
        isReady := true;
        notifiers := notifiers + 1;
      }
      assert fns[..|ran|] == old(fns)[..|ran|];
    }

    /** The document signals the notifier (from either host event). The
        first signal sets `done` and calls every queued function in append
        order; any later signal, or one with no notifier, does nothing. */
    method Fire()
      requires Valid()
      modifies this
      ensures Valid()
      ensures fns == old(fns) && isReady == old(isReady) && notifiers == old(notifiers)
      ensures if old(notifiers) == 1 && !old(done) then done && ran == old(fns)
              else done == old(done) && ran == old(ran)
    {
      if notifiers == 1 && !done {
        done := true;
        var fnCache := fns;
        var called := [];
        var i, l := 0, |fnCache|;
        while i < l
          invariant 0 <= i <= l == |fnCache|
          invariant called == fnCache[..i]
        {
          called := called + [fnCache[i]];
          i := i + 1;
        }
        assert fnCache[..l] == fnCache;
        ran := called;
      }
    }
  }

  // ---------------------------------------------------------------------
  // the query object

  /** The elements the constructor selects for `arg`, or the error it
      throws. A query object selects its own elements, since the
      constructor returns it unchanged. */
  function ArgElems(doc: Doc, arg: Arg): Result<JsArray<Elem>>
    reads if arg.QueryObj? then {arg.obj} else {}
  {
    match arg
    case Undefined => Failure(NoConstructor)
    case Null => Failure(NoConstructor)
    case QueryObj(x) => Success(x.elems)
    case Text(s) => QueryResult(doc, s)
    case NodeArg(e) => Success([Some(e)])
    case FunctionArg(_) => Success([])
    case OtherValue => Success([])
  }

  /** Some present entry of `a` is also in `b`. */
  predicate Overlap(a: JsArray<Elem>, b: JsArray<Elem>) {
    exists k :: 0 <= k < |a| && a[k].Some? && a[k] in b
  }

  /** `is` as written: `_buildCommon` meets the first shared element and
      calls `splice` on the query object, which has none; with nothing
      shared the common part is empty, so the answer is `length == 0`. */
  function IsAsWritten(a: JsArray<Elem>, b: JsArray<Elem>): Result<bool> {
    if Overlap(a, b) then Failure(SpliceNotAFunction) else Success(|a| == 0)
  }

  /** `is` as intended: all of the selection is found in the other one's
      array. */
  function IsSubselection(a: JsArray<Elem>, b: JsArray<Elem>): bool {
    |a| == |Common(a, b).0|
  }

  class Sprying {
    var elems: JsArray<Elem>
    var arg: Arg
    /** The indexed properties `this[i]`. */
    var view: map<int, Option<Elem>>
    var length: nat

    ghost predicate Valid()
      reads this
    {
      length == |elems| &&
      (forall i :: i in view <==> 0 <= i < length) &&
      (forall i :: 0 <= i < length ==> view[i] == elems[i])
    }

    /** The part of the constructor after the branches: copy `elems` into
        `this[i]` and set `length`. */
    constructor (a: Arg, es: JsArray<Elem>)
      ensures Valid()
      ensures elems == es && arg == a
    {
      elems := es;
      arg := a;
      var v: map<int, Option<Elem>> := map[];
      var i, len := 0, |es|;
      while i < len
        invariant 0 <= i <= len == |es|
        invariant forall k :: k in v <==> 0 <= k < i
        invariant forall k :: 0 <= k < i ==> v[k] == es[k]
      {
        v := v[i := es[i]];
        i := i + 1;
      }
      view := v;
      length := len;
    }

    /** `get(index)`: the element at `index`, which is also `this[index]`;
        null (None) out of range or at a falsy entry. */
    function Get(index: int): (r: Option<Elem>)
      reads this
      ensures Valid() && 0 <= index < length ==> r == view[index]
      ensures !(0 <= index < |elems|) ==> r == None
      ensures r.Some? ==> r.value in Present(elems)
    {
      if 0 <= index < |elems| && elems[index].Some? then
        PresentHas(elems, elems[index].value);
        elems[index]
      else None
    }

    /** `each(fns)`: calls `fns` with each entry and its index, and returns
        the query object. The indices called are recorded in order. */
    method Each(fns: (Option<Elem>, nat) -> JsValue) returns (self: Sprying, calls: seq<nat>)
      ensures self == this
      ensures calls == EachCalls(elems, fns)
    {
      calls := [];
      var i, l := 0, |elems|;
      while i < l
        invariant 0 <= i <= l == |elems|
        invariant calls + EachFrom(elems, fns, i) == EachFrom(elems, fns, 0)
      {
        calls := calls + [i];
        if !(Truthy(fns(elems[i], i)) || true) {
          assert false;
        }
        assert EachFrom(elems, fns, i) == [i] + EachFrom(elems, fns, i + 1);
        i := i + 1;
      }
      assert EachFrom(elems, fns, i) == [];
      return this, calls;
    }

    /** `is(arg)`: builds a query object from `arg`, then compares through
        `_buildCommon` with that object as `arr2`. */
    method Is(doc: Doc, a: Arg, q: ReadyQueue) returns (r: Result<bool>)
      requires Valid() && q.Valid()
      requires a.QueryObj? ==> a.obj.Valid()
      modifies q
      ensures q.Valid()
      ensures a.FunctionArg? ==>
        q.fns == old(q.fns) + [a.f] && q.isReady &&
        q.notifiers == old(q.notifiers) + (if old(q.isReady) then 0 else 1) &&
        q.done == old(q.done) && q.ran == old(q.ran)
      ensures !a.FunctionArg? ==> unchanged(q)
      ensures r == match ArgElems(doc, a)
        case Failure(e) => Failure(e)
        case Success(b) => IsAsWritten(elems, b)
    {
      var other := NewSprying(doc, a, q);
      if other.Failure? {
        return Failure(other.error);
      }
      var common := CommonOnQuery(elems, other.value);
      if common.Failure? {
        return Failure(common.error);
      }
      r := Success(length == |common.value|);
    }
  }

  function EachFrom(es: JsArray<Elem>, fns: (Option<Elem>, nat) -> JsValue, i: nat): seq<nat>
    decreases |es| - i
  {
    if i >= |es| then []
    else if !(Truthy(fns(es[i], i)) || true) then [i]
    else [i] + EachFrom(es, fns, i + 1)
  }

  /** The indices `each` calls its callback with, as written. */
  function EachCalls(es: JsArray<Elem>, fns: (Option<Elem>, nat) -> JsValue): seq<nat> {
    EachFrom(es, fns, 0)
  }

  function UntilFalseFrom(es: JsArray<Elem>, fns: (Option<Elem>, nat) -> JsValue, i: nat): seq<nat>
    decreases |es| - i
  {
    if i >= |es| then []
    else if fns(es[i], i) == Boolean(false) then [i]
    else [i] + UntilFalseFrom(es, fns, i + 1)
  }

  /** The indices `each` would call as documented: it stops after the
      first call that returns `false`; any other return value, falsy ones
      such as `0`, `""` or `undefined` included, lets it go on. */
  function EachUntilFalse(es: JsArray<Elem>, fns: (Option<Elem>, nat) -> JsValue): seq<nat> {
    UntilFalseFrom(es, fns, 0)
  }

  /** As written, `each` calls its callback on every index in ascending
      order, whatever the callback returns. */
  lemma {:induction false} EachFromAll(es: JsArray<Elem>, fns: (Option<Elem>, nat) -> JsValue, i: nat)
    requires i <= |es|
    ensures |EachFrom(es, fns, i)| == |es| - i
    ensures forall k :: 0 <= k < |es| - i ==> EachFrom(es, fns, i)[k] == i + k
    decreases |es| - i
  {
    if i < |es| {
      EachFromAll(es, fns, i + 1);
    }
  }

  lemma EachVisitsAll(es: JsArray<Elem>, fns: (Option<Elem>, nat) -> JsValue)
    ensures |EachCalls(es, fns)| == |es|
    ensures forall k :: 0 <= k < |es| ==> EachCalls(es, fns)[k] == k
  {
    EachFromAll(es, fns, 0);
  }

  /** As documented, `each` calls the indices in order up to and including
      the first one whose call returns `false`, and no earlier call does. */
  lemma {:induction false} UntilFalseFromStops(es: JsArray<Elem>, fns: (Option<Elem>, nat) -> JsValue, i: nat)
    requires i <= |es|
    ensures var c := UntilFalseFrom(es, fns, i);
      |c| <= |es| - i &&
      (forall k :: 0 <= k < |c| ==> c[k] == i + k) &&
      (forall j :: i <= j < i + |c| - 1 ==> fns(es[j], j) != Boolean(false)) &&
      (|c| == |es| - i || (|c| >= 1 && fns(es[i + |c| - 1], i + |c| - 1) == Boolean(false)))
    decreases |es| - i
  {
    if i < |es| && fns(es[i], i) != Boolean(false) {
      UntilFalseFromStops(es, fns, i + 1);
    }
  }

  lemma EachUntilFalseStops(es: JsArray<Elem>, fns: (Option<Elem>, nat) -> JsValue)
    ensures var c := EachUntilFalse(es, fns);
      |c| <= |es| &&
      (forall k :: 0 <= k < |c| ==> c[k] == k) &&
      (forall k :: 0 <= k < |c| - 1 ==> fns(es[k], k) != Boolean(false)) &&
      (|c| == |es| || (|c| >= 1 && fns(es[|c| - 1], |c| - 1) == Boolean(false)))
  {
    UntilFalseFromStops(es, fns, 0);
  }

  /** When no call returns `false`, as with a callback that returns nothing,
      `0` or `""`, the documented `each` visits every index, like the
      one as written. */
  lemma {:induction false} UntilFalseFromAgrees(es: JsArray<Elem>, fns: (Option<Elem>, nat) -> JsValue, i: nat)
    requires forall k :: i <= k < |es| ==> fns(es[k], k) != Boolean(false)
    ensures UntilFalseFrom(es, fns, i) == EachFrom(es, fns, i)
    decreases |es| - i
  {
    if i < |es| {
      UntilFalseFromAgrees(es, fns, i + 1);
    }
  }

  lemma EachUntilFalseAgrees(es: JsArray<Elem>, fns: (Option<Elem>, nat) -> JsValue)
    requires forall k :: 0 <= k < |es| ==> fns(es[k], k) != Boolean(false)
    ensures EachUntilFalse(es, fns) == EachCalls(es, fns)
  {
    UntilFalseFromAgrees(es, fns, 0);
  }

  /** A callback returning `false` on two elements: `each` still calls it
      twice, where it should stop after the first call. */
  lemma EachIgnoresFalse()
    ensures EachCalls([Some(Node(0)), Some(Node(1))], (e, i) => Boolean(false)) == [0, 1]
    ensures EachUntilFalse([Some(Node(0)), Some(Node(1))], (e, i) => Boolean(false)) == [0]
  {
    var es: JsArray<Elem> := [Some(Node(0)), Some(Node(1))];
    var f: (Option<Elem>, nat) -> JsValue := (e, i) => Boolean(false);
    assert EachFrom(es, f, 2) == [];
    assert EachFrom(es, f, 1) == [1];
  }

  /** `_buildCommon(arr1, arr2)` with a query object as `arr2`: reading
      `arr2.length` and `arr2[j]` works, but the first shared element
      reaches `arr2.splice`, which throws. */
  method CommonOnQuery(arr1: JsArray<Elem>, arr2: Sprying) returns (r: Result<seq<Elem>>)
    requires arr2.Valid()
    ensures r == if Overlap(arr1, arr2.elems) then Failure(SpliceNotAFunction) else Success([])
  {
    var i := 0;
    while i < |arr1|
      invariant 0 <= i <= |arr1|
      invariant forall k :: 0 <= k < i && arr1[k].Some? ==> arr1[k] !in arr2.elems
    {
      if arr1[i].Some? {
        var j := 0;
        while j < arr2.length
          invariant 0 <= j <= arr2.length
          invariant forall k :: 0 <= k < j ==> arr2.elems[k] != arr1[i]
        {
          if arr2.view[j].Some? && arr2.view[j] == arr1[i] {
            assert arr1[i] in arr2.elems;
            return Failure(SpliceNotAFunction);
          }
          j := j + 1;
        }
      }
      i := i + 1;
    }
    r := Success([]);
  }

  /** The constructor `new Sprying(arg)`: a query object is returned
      unchanged; null and undefined throw; a string selects through the
      selector engine (and throws when it does); a node is wrapped; a
      function joins the ready queue (only the first one installs the
      notifier); anything else gives an empty selection. */
  method NewSprying(doc: Doc, arg: Arg, q: ReadyQueue) returns (r: Result<Sprying>)
    requires q.Valid()
    requires arg.QueryObj? ==> arg.obj.Valid()
    modifies q
    ensures q.Valid()
    ensures r.Failure? <==> ArgElems(doc, arg).Failure?
    ensures r.Failure? ==> r.error == ArgElems(doc, arg).error
    ensures r.Success? ==> r.value.Valid() && r.value.elems == ArgElems(doc, arg).value
    ensures arg.QueryObj? ==> r == Success(arg.obj)
    ensures r.Success? && !arg.QueryObj? ==> fresh(r.value) && r.value.arg == arg
    ensures arg.FunctionArg? ==>
      q.fns == old(q.fns) + [arg.f] && q.isReady &&
      q.notifiers == old(q.notifiers) + (if old(q.isReady) then 0 else 1) &&
      q.done == old(q.done) && q.ran == old(q.ran)
    ensures !arg.FunctionArg? ==> unchanged(q)
  {
    match arg
    case Undefined =>
      r := Failure(NoConstructor);
    case Null =>
      r := Failure(NoConstructor);
    case QueryObj(x) =>
      r := Success(x);
    case Text(s) =>
      var res := Query(doc, s);
      if res.Failure? {
        r := Failure(res.error);
      } else {
        var o := new Sprying(arg, res.value);
        r := Success(o);
      }
    case NodeArg(e) =>
      var o := new Sprying(arg, [Some(e)]);
      r := Success(o);
    case FunctionArg(f) =>
      q.Register(f);
      var o := new Sprying(arg, []);
      r := Success(o);
    case OtherValue =>
      var o := new Sprying(arg, []);
      r := Success(o);
  }

  /** The overlap `is` trips on is exactly a nonempty common part. */
  lemma OverlapIffCommon(a: JsArray<Elem>, b: JsArray<Elem>)
    ensures Overlap(a, b) <==> Common(a, b).0 != []
  {
    if Overlap(a, b) {
      var k :| 0 <= k < |a| && a[k].Some? && a[k] in b;
      CommonHas(a, b, a[k].value);
    }
    if Common(a, b).0 != [] {
      var x := Common(a, b).0[0];
      CommonHas(a, b, x);
      var k :| 0 <= k < |a| && a[k] == Some(x);
    }
  }

  /** As written, `is` answers only for an empty selection or one sharing
      nothing with the other; any shared element throws. */
  lemma IsAsWrittenAnswers(a: JsArray<Elem>, b: JsArray<Elem>)
    ensures IsAsWritten(a, b).Success? <==> Common(a, b).0 == []
    ensures IsAsWritten(a, b).Success? ==> (IsAsWritten(a, b).value <==> a == [])
  {
    OverlapIffCommon(a, b);
  }

  /** A query object compared with itself: `is` throws, where the intended
      answer is true. */
  lemma IsSelfThrows()
    ensures IsAsWritten([Some(Node(0))], [Some(Node(0))]) == Failure(SpliceNotAFunction)
    ensures IsSubselection([Some(Node(0))], [Some(Node(0))])
  {
    var a: JsArray<Elem> := [Some(Node(0))];
    assert a[0].Some? && a[0] in a;
    CommonHas(a, a, Node(0));
    CommonBound(a, a);
  }

  lemma SubMultisetCard<T>(x: multiset<T>, y: multiset<T>)
    requires x <= y && |x| == |y|
    ensures x == y
  {
    assert y == x + (y - x);
    assert |y - x| == 0;
  }

  /** The intended `is` holds exactly when the selection has no falsy
      entry and every one of its elements, counted with repetition, is in
      the other selection. */
  lemma IsSubselectionIff(a: JsArray<Elem>, b: JsArray<Elem>)
    ensures IsSubselection(a, b) <==>
      (forall k :: 0 <= k < |a| ==> a[k].Some?) && multiset(Present(a)) <= multiset(Present(b))
  {
    var c := Common(a, b).0;
    CommonIsIntersection(a, b);
    CommonBound(a, b);
    var pa, pb := multiset(Present(a)), multiset(Present(b));
    assert multiset(c) == pa * pb;
    assert |multiset(c)| == |c|;
    assert |pa| == |Present(a)|;
    if IsSubselection(a, b) {
      assert |Present(a)| == |a|;
      PresentFull(a);
      assert pa * pb <= pa;
      SubMultisetCard(pa * pb, pa);
    }
    if (forall k :: 0 <= k < |a| ==> a[k].Some?) && pa <= pb {
      assert pa * pb == pa;
      DenseFull(a);
    }
  }

  lemma {:induction false} DenseFull(a: JsArray<Elem>)
    requires forall k :: 0 <= k < |a| ==> a[k].Some?
    ensures |Present(a)| == |a|
  {
    if a != [] {
      DenseFull(a[1..]);
    }
  }
}
