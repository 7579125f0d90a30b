/** The set helpers of the selector engine: the consuming intersection
    `_buildCommon`, the union `_buildUnion`, the descendant filter
    `_obtainChild`, and the array coercion `Sprying.toArray`. */
module SetOps {
  import opened Js
  import opened Dom

  /** `a.splice(j, 1)`: removes index j, or nothing when j is past the end. */
  function Splice1<T>(a: seq<T>, j: nat): (r: seq<T>)
    ensures j < |a| ==> |r| == |a| - 1
    ensures j >= |a| ==> r == a
  {
    if j < |a| then a[..j] + a[j + 1..] else a
  }

  /** The least index holding `x`. */
  function FirstIndex(b: JsArray<Elem>, x: Elem): (r: Option<nat>)
    ensures r.Some? ==> r.value < |b| && b[r.value] == Some(x)
    ensures r.Some? ==> forall k :: 0 <= k < r.value ==> b[k] != Some(x)
    ensures r.None? ==> forall k :: 0 <= k < |b| ==> b[k] != Some(x)
  {
    if b == [] then None
    else if b[0] == Some(x) then Some(0)
    else match FirstIndex(b[1..], x)
      case None => None
      case Some(j) => Some(j + 1)
  }

  // ---------------------------------------------------------------------
  // _buildCommon

  /** `_buildCommon(a, b)` as a value: the common elements it returns, and
      what is left of `b` after it has spliced out every matched instance. */
  function Common(a: JsArray<Elem>, b: JsArray<Elem>): (seq<Elem>, JsArray<Elem>)
    decreases |a|
  {
    if a == [] then ([], b)
    else if a[0].None? then Common(a[1..], b)
    else match FirstIndex(b, a[0].value)
      case None => Common(a[1..], b)
      case Some(j) =>
        var (c, rest) := Common(a[1..], Splice1(b, j));
        ([a[0].value] + c, rest)
  }

  /** `_buildCommon` as a callback of reduce: the common elements, dense. */
  function CommonOf(a: JsArray<Elem>, b: JsArray<Elem>): JsArray<Elem> {
    Dense(Common(a, b).0)
  }

  /** The nested loops of `_buildCommon`: for every present entry of `arr1`,
      find its first instance in `arr2`, keep it and splice it out. */
  method BuildCommon(arr1: JsArray<Elem>, arr2: JsArray<Elem>) returns (comArray: seq<Elem>, rest: JsArray<Elem>)
    ensures (comArray, rest) == Common(arr1, arr2)
  {
    comArray := [];
    rest := arr2;
    var i := 0;
    while i < |arr1|
      invariant 0 <= i <= |arr1|
      invariant comArray + Common(arr1[i..], rest).0 == Common(arr1, arr2).0
      invariant Common(arr1[i..], rest).1 == Common(arr1, arr2).1
    {
      assert arr1[i..][1..] == arr1[i + 1..];
      if arr1[i].Some? {
        var x := arr1[i].value;
        ghost var before, comBefore := rest, comArray;
        var j := 0;
        while j < |rest|
          invariant 0 <= j <= |rest|
          invariant rest == before && comArray == comBefore
          invariant forall k :: 0 <= k < j ==> rest[k] != Some(x)
        {
          if rest[j].Some? && rest[j].value == x {
            comArray := comArray + [x];
            rest := Splice1(rest, j);
            assert FirstIndex(before, x) == Some(j);
            break;
          }
          j := j + 1;
        }
      }
      i := i + 1;
    }
    assert arr1[|arr1|..] == [];
    assert Common(arr1[i..], rest) == ([], rest);
    assert comArray == Common(arr1, arr2).0 && rest == Common(arr1, arr2).1;
  }

  /** `a` is `b` with some entries left out, in `b`'s order. */
  ghost predicate IsSubsequence<T>(a: seq<T>, b: seq<T>)
    decreases |b|
  {
    a == [] || (b != [] && ((a[0] == b[0] && IsSubsequence(a[1..], b[1..])) || IsSubsequence(a, b[1..])))
  }

  lemma {:induction false} SubsequenceLength<T>(a: seq<T>, b: seq<T>)
    requires IsSubsequence(a, b)
    ensures |a| <= |b|
    decreases |b|
  {
    if a != [] {
      if a[0] == b[0] && IsSubsequence(a[1..], b[1..]) {
        SubsequenceLength(a[1..], b[1..]);
      } else {
        SubsequenceLength(a, b[1..]);
      }
    }
  }

  lemma {:induction false} SubsequenceOfSelf<T>(b: seq<T>)
    ensures IsSubsequence(b, b)
    decreases |b|
  {
    if b != [] {
      SubsequenceOfSelf(b[1..]);
    }
  }

  /** A subsequence as long as the sequence is the sequence itself. */
  lemma {:induction false} SubsequenceFull<T>(a: seq<T>, b: seq<T>)
    requires IsSubsequence(a, b) && |a| == |b|
    ensures a == b
    decreases |b|
  {
    if a != [] {
      if a[0] == b[0] && IsSubsequence(a[1..], b[1..]) {
        SubsequenceFull(a[1..], b[1..]);
      } else {
        SubsequenceLength(a, b[1..]);
      }
    }
  }

  /** The common elements are the present entries of `a`, some left out,
      in `a`'s order. */
  lemma {:induction false} CommonIsSubsequence(a: JsArray<Elem>, b: JsArray<Elem>)
    ensures IsSubsequence(Common(a, b).0, Present(a))
    decreases |a|
  {
    if a != [] {
      if a[0].None? {
        CommonIsSubsequence(a[1..], b);
        assert Present(a) == Present(a[1..]);
      } else {
        var x := a[0].value;
        match FirstIndex(b, x)
        case None =>
          CommonIsSubsequence(a[1..], b);
          SkipHead(Common(a[1..], b).0, x, Present(a[1..]));
        case Some(j) =>
          CommonIsSubsequence(a[1..], Splice1(b, j));
          assert ([x] + Present(a[1..]))[1..] == Present(a[1..]);
          assert ([x] + Common(a[1..], Splice1(b, j)).0)[1..] == Common(a[1..], Splice1(b, j)).0;
      }
    }
  }

  lemma SkipHead<T>(s: seq<T>, x: T, b: seq<T>)
    requires IsSubsequence(s, b)
    ensures IsSubsequence(s, [x] + b)
  {
    assert ([x] + b)[1..] == b;
  }

  /** Splicing out a present index removes exactly that one instance. */
  lemma SpliceOne(b: JsArray<Elem>, j: nat)
    requires j < |b| && b[j].Some?
    ensures multiset(Splice1(b, j)) + multiset{b[j]} == multiset(b)
    ensures multiset(Present(Splice1(b, j))) + multiset{b[j].value} == multiset(Present(b))
  {
    var L, R := b[..j], b[j + 1..];
    var M := [b[j]] + R;
    assert b == L + M;
    assert Splice1(b, j) == L + R;
    assert multiset(M) == multiset{b[j]} + multiset(R);
    PresentAppend(L, R);
    PresentAppend(L, M);
    PresentAppend([b[j]], R);
    assert Present([b[j]]) == [b[j].value];
    assert multiset(Present(M)) == multiset{b[j].value} + multiset(Present(R));
  }

  /** Each match consumes exactly one instance of `b`: what is returned and
      what is left of `b` together are `b` again. */
  lemma {:induction false} CommonConsumes(a: JsArray<Elem>, b: JsArray<Elem>)
    ensures multiset(Dense(Common(a, b).0)) + multiset(Common(a, b).1) == multiset(b)
    ensures multiset(Common(a, b).0) + multiset(Present(Common(a, b).1)) == multiset(Present(b))
    decreases |a|
  {
    if a != [] {
      if a[0].None? || FirstIndex(b, a[0].value).None? {
        CommonConsumes(a[1..], b);
      } else {
        var j := FirstIndex(b, a[0].value).value;
        CommonConsumes(a[1..], Splice1(b, j));
        ConsumeStep(a, b, j);
      }
    }
  }

  lemma ConsumeStep(a: JsArray<Elem>, b: JsArray<Elem>, j: nat)
    requires a != [] && a[0].Some? && FirstIndex(b, a[0].value) == Some(j)
    requires multiset(Dense(Common(a[1..], Splice1(b, j)).0)) + multiset(Common(a[1..], Splice1(b, j)).1) == multiset(Splice1(b, j))
    requires multiset(Common(a[1..], Splice1(b, j)).0) + multiset(Present(Common(a[1..], Splice1(b, j)).1)) == multiset(Present(Splice1(b, j)))
    ensures multiset(Dense(Common(a, b).0)) + multiset(Common(a, b).1) == multiset(b)
    ensures multiset(Common(a, b).0) + multiset(Present(Common(a, b).1)) == multiset(Present(b))
  {
    var x := a[0].value;
    var r := Common(a[1..], Splice1(b, j));
    assert Common(a, b) == ([x] + r.0, r.1);
    assert b[j] == Some(x);
    SpliceOne(b, j);
    DenseCons(x, r.0);
    ConsCount(x, r.0, Present(r.1), Present(Splice1(b, j)), Present(b));
  }

  lemma ConsCount(x: Elem, c: seq<Elem>, rest: seq<Elem>, b': seq<Elem>, b: seq<Elem>)
    requires multiset(c) + multiset(rest) == multiset(b')
    requires multiset(b') + multiset{x} == multiset(b)
    ensures multiset([x] + c) + multiset(rest) == multiset(b)
  {
    assert multiset([x] + c) == multiset{x} + multiset(c);
  }

  lemma DenseCons<T>(x: T, c: seq<T>)
    ensures multiset(Dense([x] + c)) == multiset{Some(x)} + multiset(Dense(c))
  {
    assert Dense([x] + c) == [Some(x)] + Dense(c);
  }

  /** The common elements are the multiset intersection of the present
      entries: an element occurring m times in `a` and n times in `b` is
      returned min(m, n) times. */
  lemma {:induction false} CommonIsIntersection(a: JsArray<Elem>, b: JsArray<Elem>)
    ensures multiset(Common(a, b).0) == multiset(Present(a)) * multiset(Present(b))
    decreases |a|
  {
    if a != [] {
      var A', B := multiset(Present(a[1..])), multiset(Present(b));
      if a[0].None? {
        CommonIsIntersection(a[1..], b);
      } else {
        var x := a[0].value;
        match FirstIndex(b, x)
        case None =>
          CommonIsIntersection(a[1..], b);
          PresentHas(b, x);
          assert multiset{x} + A' == multiset(Present(a));
          MeetMissing(x, A', B);
        case Some(j) =>
          var b' := Splice1(b, j);
          CommonIsIntersection(a[1..], b');
          SpliceOne(b, j);
          var B' := multiset(Present(b'));
          assert B == B' + multiset{x};
          assert multiset{x} + A' == multiset(Present(a));
          MeetShared(x, A', B');
      }
    }
  }

  lemma MeetMissing(x: Elem, A: multiset<Elem>, B: multiset<Elem>)
    requires x !in B
    ensures (multiset{x} + A) * B == A * B
  {
    forall y ensures ((multiset{x} + A) * B)[y] == (A * B)[y] {
    }
  }

  lemma MeetShared(x: Elem, A: multiset<Elem>, B: multiset<Elem>)
    ensures (multiset{x} + A) * (B + multiset{x}) == multiset{x} + A * B
  {
    forall y ensures ((multiset{x} + A) * (B + multiset{x}))[y] == (multiset{x} + A * B)[y] {
    }
  }

  /** Neither operand can supply more matches than it has present entries,
      so the result is never longer than either array. */
  lemma CommonBound(a: JsArray<Elem>, b: JsArray<Elem>)
    ensures |Common(a, b).0| <= |Present(a)| <= |a|
    ensures |Common(a, b).0| <= |Present(b)| <= |b|
  {
    CommonIsSubsequence(a, b);
    SubsequenceLength(Common(a, b).0, Present(a));
    CommonConsumes(a, b);
    assert |multiset(Common(a, b).0)| == |Common(a, b).0|;
    assert |multiset(Present(b))| == |Present(b)|;
  }

  /** An element is common exactly when it is present in both arrays. */
  lemma CommonHas(a: JsArray<Elem>, b: JsArray<Elem>, x: Elem)
    ensures x in Common(a, b).0 <==> Some(x) in a && Some(x) in b
  {
    CommonIsIntersection(a, b);
    PresentHas(a, x);
    PresentHas(b, x);
    assert x in Common(a, b).0 <==> x in multiset(Common(a, b).0);
  }

  // ---------------------------------------------------------------------
  // _buildUnion

  /** `_buildUnion(a, b)`, that is `a.concat(b)`: `a` then `b`, holes and
      duplicates kept. */
  function Union(a: JsArray<Elem>, b: JsArray<Elem>): (r: JsArray<Elem>)
    ensures |r| == |a| + |b|
    ensures r[..|a|] == a && r[|a|..] == b
  {
    a + b
  }

  // ---------------------------------------------------------------------
  // _obtainChild

  function Filter<T>(p: T -> bool, xs: seq<T>): (r: seq<T>)
    ensures |r| <= |xs|
  {
    if xs == [] then [] else (if p(xs[0]) then [xs[0]] else []) + Filter(p, xs[1..])
  }

  lemma {:induction false} FilterAppend<T>(p: T -> bool, a: seq<T>, b: seq<T>)
    ensures Filter(p, a + b) == Filter(p, a) + Filter(p, b)
  {
    if a == [] {
      assert a + b == b;
    } else {
      assert (a + b)[0] == a[0];
      assert (a + b)[1..] == a[1..] + b;
      FilterAppend(p, a[1..], b);
      assert Filter(p, a + b) == (if p(a[0]) then [a[0]] else []) + (Filter(p, a[1..]) + Filter(p, b));
    }
  }

  lemma {:induction false} FilterHas<T>(p: T -> bool, xs: seq<T>, x: T)
    ensures x in Filter(p, xs) <==> x in xs && p(x)
  {
    if xs != [] {
      FilterHas(p, xs[1..], x);
      assert x in xs <==> x == xs[0] || x in xs[1..];
    }
  }

  function Below(doc: Doc, p: Elem): Elem -> bool {
    x => IsAncestorOrSelf(doc, p, x)
  }

  function NotBelow(doc: Doc, p: Elem): Elem -> bool {
    x => !IsAncestorOrSelf(doc, p, x)
  }

  function BelowSome(doc: Doc, ps: seq<Elem>): Elem -> bool {
    x => HasAncestorIn(doc, ps, x)
  }

  /** The descendant filter with every matched child consumed where it was
      found: for each parent in turn, the children still unconsumed that
      the parent is an ancestor (or self) of. */
  function Descendants(doc: Doc, ps: seq<Elem>, cs: seq<Elem>): seq<Elem>
    decreases |ps|
  {
    if ps == [] then []
    else Filter(Below(doc, ps[0]), cs) + Descendants(doc, ps[1..], Filter(NotBelow(doc, ps[0]), cs))
  }

  /** `_obtainChild` as a callback of reduce (corrected), dense. */
  function DescendantsStep(doc: Doc): (JsArray<Elem>, JsArray<Elem>) -> JsArray<Elem> {
    (parent: JsArray<Elem>, children: JsArray<Elem>) => Dense(Descendants(doc, Present(parent), Present(children)))
  }

  lemma FilterHead<T>(p: T -> bool, cs: seq<T>)
    requires cs != []
    ensures multiset(Filter(p, cs)) == (if p(cs[0]) then multiset{cs[0]} else multiset{}) + multiset(Filter(p, cs[1..]))
  {
  }

  /** Splitting a filter by the first of two alternatives. */
  lemma {:induction false} FilterSplit<T>(F: T -> bool, B: T -> bool, N: T -> bool, F': T -> bool, cs: seq<T>)
    requires forall x :: N(x) == !B(x)
    requires forall x :: F(x) == (B(x) || F'(x))
    ensures multiset(Filter(F, cs)) == multiset(Filter(B, cs)) + multiset(Filter(F', Filter(N, cs)))
  {
    if cs != [] {
      var c, cs' := cs[0], cs[1..];
      FilterSplit(F, B, N, F', cs');
      var X := Filter(N, cs');
      FilterHead(F, cs);
      FilterHead(B, cs);
      if B(c) {
        assert Filter(N, cs) == X;
      } else {
        var Y := [c] + X;
        assert Filter(N, cs) == Y;
        assert Y[0] == c && Y[1..] == X;
        FilterHead(F', Y);
      }
    }
  }

  lemma SplitByFirstParent(doc: Doc, ps: seq<Elem>, cs: seq<Elem>)
    requires ps != []
    ensures multiset(Filter(BelowSome(doc, ps), cs))
         == multiset(Filter(Below(doc, ps[0]), cs)) + multiset(Filter(BelowSome(doc, ps[1..]), Filter(NotBelow(doc, ps[0]), cs)))
  {
    forall x ensures BelowSome(doc, ps)(x) == (Below(doc, ps[0])(x) || BelowSome(doc, ps[1..])(x)) {
      HasAncestorInCons(doc, ps, x);
    }
    FilterSplit(BelowSome(doc, ps), Below(doc, ps[0]), NotBelow(doc, ps[0]), BelowSome(doc, ps[1..]), cs);
  }

  /** The result is a permutation of the children having some parent as
      ancestor (or self): each such child once per occurrence, nothing else. */
  lemma {:induction false} DescendantsIsNarrowing(doc: Doc, ps: seq<Elem>, cs: seq<Elem>)
    ensures multiset(Descendants(doc, ps, cs)) == multiset(Filter(BelowSome(doc, ps), cs))
    decreases |ps|
  {
    if ps == [] {
      NoneBelowEmpty(doc, cs);
    } else {
      DescendantsIsNarrowing(doc, ps[1..], Filter(NotBelow(doc, ps[0]), cs));
      SplitByFirstParent(doc, ps, cs);
    }
  }

  lemma {:induction false} NoneBelowEmpty(doc: Doc, cs: seq<Elem>)
    ensures Filter(BelowSome(doc, []), cs) == []
  {
    if cs != [] {
      NoneBelowEmpty(doc, cs[1..]);
    }
  }

  /** A child is kept exactly when it is among the children and some parent
      is it or one of its ancestors; no parents, no children kept. */
  lemma DescendantsHas(doc: Doc, ps: seq<Elem>, cs: seq<Elem>, x: Elem)
    ensures x in Descendants(doc, ps, cs) <==> x in cs && HasAncestorIn(doc, ps, x)
    ensures ps == [] ==> Descendants(doc, ps, cs) == []
  {
    DescendantsIsNarrowing(doc, ps, cs);
    FilterHas(BelowSome(doc, ps), cs, x);
    assert x in Descendants(doc, ps, cs) <==> x in multiset(Descendants(doc, ps, cs));
  }

  /** The `while (upNode)` walk: follows `parentNode` from `node` until it
      meets `p` or runs out. */
  method WalkUp(doc: Doc, p: Elem, node: Elem) returns (found: bool)
    ensures found == IsAncestorOrSelf(doc, p, node)
  {
    var upNode := Some(node);
    found := false;
    while upNode.Some?
      invariant upNode.Some? ==> (IsAncestorOrSelf(doc, p, node) <==> IsAncestorOrSelf(doc, p, upNode.value))
      invariant upNode.None? ==> !IsAncestorOrSelf(doc, p, node)
      decreases if upNode.Some? then doc.depth(upNode.value) + 1 else 0
    {
      if upNode.value == p {
        found := true;
        return;
      }
      upNode := doc.parent(upNode.value);
    }
  }

  lemma DescendantsUnfold(doc: Doc, parent: JsArray<Elem>, i: nat, cs: seq<Elem>)
    requires i < |parent| && parent[i].Some?
    ensures Descendants(doc, Present(parent[i..]), cs)
         == Filter(Below(doc, parent[i].value), cs) + Descendants(doc, Present(parent[i + 1..]), Filter(NotBelow(doc, parent[i].value), cs))
  {
    PresentFrom(parent, i);
    assert Present(parent[i..])[0] == parent[i].value && Present(parent[i..])[1..] == Present(parent[i + 1..]);
  }

  /** `_obtainChild` with the matched child consumed at its own index j, the
      way the commented-out `delete children[j]` does: a hole the inner loop
      then skips. */
  method ObtainChild(doc: Doc, parent: JsArray<Elem>, children: JsArray<Elem>) returns (belongChild: seq<Elem>)
    ensures belongChild == Descendants(doc, Present(parent), Present(children))
  {
    belongChild := [];
    var ch := children;
    var i := 0;
    while i < |parent|
      invariant 0 <= i <= |parent|
      invariant belongChild + Descendants(doc, Present(parent[i..]), Present(ch)) == Descendants(doc, Present(parent), Present(children))
    {
      PresentFrom(parent, i);
      if parent[i].Some? {
        ghost var ch0, acc0 := ch, belongChild;
        var kept;
        kept, ch := ConsumeBelow(doc, parent[i].value, ch);
        belongChild := belongChild + kept;
        ObtainStep(doc, parent, i, ch0, ch, acc0, belongChild);
      } else {
        assert Present(parent[i..]) == Present(parent[i + 1..]);
      }
      i := i + 1;
    }
    assert parent[|parent|..] == [];
  }

  /** The inner loop of the corrected `_obtainChild` for one parent `p`:
      the children below `p`, in index order, and the array with each of
      them left as a hole. */
  method ConsumeBelow(doc: Doc, p: Elem, children: JsArray<Elem>) returns (kept: seq<Elem>, ch: JsArray<Elem>)
    ensures kept == Filter(Below(doc, p), Present(children))
    ensures |ch| == |children| && Present(ch) == Filter(NotBelow(doc, p), Present(children))
  {
    kept := [];
    ch := children;
    var j := 0;
    while j < |ch|
      invariant 0 <= j <= |ch| == |children|
      invariant ch[j..] == children[j..]
      invariant Present(ch[..j]) == Filter(NotBelow(doc, p), Present(children[..j]))
      invariant kept == Filter(Below(doc, p), Present(children[..j]))
    {
      assert ch[j] == children[j];
      var upNode := ch[j];
      var found := false;
      if upNode.Some? {
        found := WalkUp(doc, p, upNode.value);
      }
      ghost var chj := ch;
      if found {
        kept := kept + [ch[j].value];
        ch := ch[j := None];
      }
      ConsumeAt(doc, p, children, chj, ch, j, found);
      j := j + 1;
    }
    assert ch[..|ch|] == ch && children[..|children|] == children;
  }

  lemma ObtainStep(doc: Doc, parent: JsArray<Elem>, i: nat, ch0: JsArray<Elem>, ch: JsArray<Elem>, acc0: seq<Elem>, acc: seq<Elem>)
    requires i < |parent| && parent[i].Some?
    requires Present(ch) == Filter(NotBelow(doc, parent[i].value), Present(ch0))
    requires acc == acc0 + Filter(Below(doc, parent[i].value), Present(ch0))
    ensures acc + Descendants(doc, Present(parent[i + 1..]), Present(ch))
         == acc0 + Descendants(doc, Present(parent[i..]), Present(ch0))
  {
    DescendantsUnfold(doc, parent, i, Present(ch0));
  }

  /** One step of the corrected inner loop: index j is consumed (left as a
      hole) exactly when the child at j lies below the parent. */
  lemma ConsumeAt(doc: Doc, p: Elem, ch0: JsArray<Elem>, chj: JsArray<Elem>, ch: JsArray<Elem>, j: nat, found: bool)
    requires j < |chj| == |ch0| && chj[j..] == ch0[j..]
    requires Present(chj[..j]) == Filter(NotBelow(doc, p), Present(ch0[..j]))
    requires found == (chj[j].Some? && IsAncestorOrSelf(doc, p, chj[j].value))
    requires ch == if found then chj[j := None] else chj
    ensures |ch| == |ch0| && ch[j + 1..] == ch0[j + 1..]
    ensures Present(ch[..j + 1]) == Filter(NotBelow(doc, p), Present(ch0[..j + 1]))
    ensures Filter(Below(doc, p), Present(ch0[..j + 1]))
         == Filter(Below(doc, p), Present(ch0[..j])) + (if found then [chj[j].value] else [])
  {
    assert chj[j] == ch0[j];
    assert ch[j + 1..] == chj[j + 1..];
    PresentPrefix(ch0, j);
    PresentPrefix(ch, j);
    assert ch[..j] == chj[..j];
    var last := if ch0[j].Some? then [ch0[j].value] else [];
    FilterAppend(NotBelow(doc, p), Present(ch0[..j]), last);
    FilterAppend(Below(doc, p), Present(ch0[..j]), last);
    if ch0[j].Some? {
      assert Filter(NotBelow(doc, p), last) == (if found then [] else last);
      assert Filter(Below(doc, p), last) == (if found then last else []);
    }
  }

  // ---------------------------------------------------------------------
  // _obtainChild as written: `children.splice(i, 1)` with the outer index i

  /** The inner loop of `_obtainChild` as written, from index j on, over a
      `children` array that shrinks while the bound `jLen` stays fixed. */
  function ObtainInnerAsWritten(doc: Doc, p: Elem, i: nat, ch: JsArray<Elem>, j: nat, jLen: nat, acc: seq<Elem>): (seq<Elem>, JsArray<Elem>)
    decreases jLen - j
  {
    if j >= jLen then (acc, ch)
    else if j >= |ch| || ch[j].None? then ObtainInnerAsWritten(doc, p, i, ch, j + 1, jLen, acc)
    else if IsAncestorOrSelf(doc, p, ch[j].value) then ObtainInnerAsWritten(doc, p, i, Splice1(ch, i), j + 1, jLen, acc + [ch[j].value])
    else ObtainInnerAsWritten(doc, p, i, ch, j + 1, jLen, acc)
  }

  /** The outer loop of `_obtainChild` as written, from parent index i on. */
  function ObtainOuterAsWritten(doc: Doc, parent: JsArray<Elem>, i: nat, ch: JsArray<Elem>, acc: seq<Elem>): seq<Elem>
    decreases |parent| - i
  {
    if i >= |parent| then acc
    else if parent[i].None? then ObtainOuterAsWritten(doc, parent, i + 1, ch, acc)
    else
      var (acc', ch') := ObtainInnerAsWritten(doc, parent[i].value, i, ch, 0, |ch|, acc);
      ObtainOuterAsWritten(doc, parent, i + 1, ch', acc')
  }

  function DescendantsAsWritten(doc: Doc, parent: JsArray<Elem>, children: JsArray<Elem>): seq<Elem> {
    ObtainOuterAsWritten(doc, parent, 0, children, [])
  }

  /** `_obtainChild` exactly as written. */
  method ObtainChildAsWritten(doc: Doc, parent: JsArray<Elem>, children: JsArray<Elem>) returns (belongChild: seq<Elem>)
    ensures belongChild == DescendantsAsWritten(doc, parent, children)
    ensures parent == [] ==> belongChild == []
  {
    belongChild := [];
    var ch := children;
    var i := 0;
    while i < |parent|
      invariant 0 <= i <= |parent|
      invariant ObtainOuterAsWritten(doc, parent, i, ch, belongChild) == DescendantsAsWritten(doc, parent, children)
    {
      if parent[i].Some? {
        var p := parent[i].value;
        var j := 0;
        var jLen := |ch|;
        ghost var ch0, acc0 := ch, belongChild;
        while j < jLen
          invariant 0 <= j <= jLen
          invariant ObtainInnerAsWritten(doc, p, i, ch, j, jLen, belongChild) == ObtainInnerAsWritten(doc, p, i, ch0, 0, jLen, acc0)
        {
          var upNode := if j < |ch| then ch[j] else None;
          if upNode.Some? {
            var found := WalkUp(doc, p, upNode.value);
            if found {
              belongChild := belongChild + [upNode.value];
              ch := Splice1(ch, i);
            }
          }
          j := j + 1;
        }
      }
      i := i + 1;
    }
  }

  /** Working arrays only ever hold values of the original children. */
  ghost predicate From(ch: JsArray<Elem>, children: JsArray<Elem>) {
    forall k :: 0 <= k < |ch| && ch[k].Some? ==> ch[k] in children
  }

  /** Every element kept is one of the children with some parent being it
      or its ancestor. */
  ghost predicate Sound(doc: Doc, parent: JsArray<Elem>, children: JsArray<Elem>, acc: seq<Elem>) {
    forall x :: x in acc ==> Some(x) in children && HasAncestorIn(doc, Present(parent), x)
  }

  lemma FromSplice(ch: JsArray<Elem>, children: JsArray<Elem>, i: nat)
    requires From(ch, children)
    ensures From(Splice1(ch, i), children)
  {
    if i < |ch| {
      var r := Splice1(ch, i);
      forall k | 0 <= k < |r| && r[k].Some? ensures r[k] in children {
        assert r[k] == if k < i then ch[k] else ch[k + 1];
      }
    }
  }

  lemma {:induction false} InnerAsWrittenSound(doc: Doc, parent: JsArray<Elem>, children: JsArray<Elem>,
      i: nat, ch: JsArray<Elem>, j: nat, jLen: nat, acc: seq<Elem>)
    requires i < |parent| && parent[i].Some?
    requires From(ch, children) && Sound(doc, parent, children, acc)
    ensures From(ObtainInnerAsWritten(doc, parent[i].value, i, ch, j, jLen, acc).1, children)
    ensures Sound(doc, parent, children, ObtainInnerAsWritten(doc, parent[i].value, i, ch, j, jLen, acc).0)
    decreases jLen - j
  {
    var p := parent[i].value;
    if j < jLen {
      if j >= |ch| || ch[j].None? {
        InnerAsWrittenSound(doc, parent, children, i, ch, j + 1, jLen, acc);
      } else if IsAncestorOrSelf(doc, p, ch[j].value) {
        FromSplice(ch, children, i);
        PresentHas(parent, p);
        assert HasAncestorIn(doc, Present(parent), ch[j].value);
        InnerAsWrittenSound(doc, parent, children, i, Splice1(ch, i), j + 1, jLen, acc + [ch[j].value]);
      } else {
        InnerAsWrittenSound(doc, parent, children, i, ch, j + 1, jLen, acc);
      }
    }
  }

  lemma {:induction false} OuterAsWrittenSound(doc: Doc, parent: JsArray<Elem>, children: JsArray<Elem>,
      i: nat, ch: JsArray<Elem>, acc: seq<Elem>)
    requires From(ch, children) && Sound(doc, parent, children, acc)
    ensures Sound(doc, parent, children, ObtainOuterAsWritten(doc, parent, i, ch, acc))
    decreases |parent| - i
  {
    if i < |parent| {
      if parent[i].None? {
        OuterAsWrittenSound(doc, parent, children, i + 1, ch, acc);
      } else {
        InnerAsWrittenSound(doc, parent, children, i, ch, 0, |ch|, acc);
        var (acc', ch') := ObtainInnerAsWritten(doc, parent[i].value, i, ch, 0, |ch|, acc);
        OuterAsWrittenSound(doc, parent, children, i + 1, ch', acc');
      }
    }
  }

  /** Even as written, every element returned is some child that walks up
      to some parent; what goes wrong is the consumption. */
  lemma DescendantsAsWrittenSound(doc: Doc, parent: JsArray<Elem>, children: JsArray<Elem>, x: Elem)
    requires x in DescendantsAsWritten(doc, parent, children)
    ensures Some(x) in children && HasAncestorIn(doc, Present(parent), x)
  {
    OuterAsWrittenSound(doc, parent, children, 0, children, []);
  }

  /** A parent P with two children C1 and C2. */
  function TwoChildDoc(): Doc {
    Document(t => [], k => [], n => None,
             e => if e == Node(1) || e == Node(2) then Some(Node(0)) else None,
             e => if e == Node(0) then 0 else 1)
  }

  /** With one parent above two children, the code as written splices index
      0 (the parent's index) after the first match, the second child moves
      to index 0, the loop moves on to index 1, and the second child is
      lost; consuming at j keeps both. */
  lemma ObtainChildAsWrittenDropsChild()
    ensures DescendantsAsWritten(TwoChildDoc(), [Some(Node(0))], [Some(Node(1)), Some(Node(2))]) == [Node(1)]
    ensures Descendants(TwoChildDoc(), [Node(0)], [Node(1), Node(2)]) == [Node(1), Node(2)]
  {
    var doc := TwoChildDoc();
    assert IsAncestorOrSelf(doc, Node(0), Node(1));
    assert IsAncestorOrSelf(doc, Node(0), Node(2));
    assert Splice1([Some(Node(1)), Some(Node(2))], 0) == [Some(Node(2))];
    var c := [Some(Node(1)), Some(Node(2))];
    assert c[0] == Some(Node(1)) && |c| == 2;
    assert [] + [Node(1)] == [Node(1)];
    var inner := ObtainInnerAsWritten(doc, Node(0), 0, c, 0, 2, []);
    assert inner == ObtainInnerAsWritten(doc, Node(0), 0, Splice1(c, 0), 1, 2, [] + [c[0].value]);
    assert inner == ObtainInnerAsWritten(doc, Node(0), 0, [Some(Node(2))], 1, 2, [Node(1)]);
    assert ObtainInnerAsWritten(doc, Node(0), 0, [Some(Node(2))], 1, 2, [Node(1)])
        == ObtainInnerAsWritten(doc, Node(0), 0, [Some(Node(2))], 2, 2, [Node(1)]);
    assert inner == ([Node(1)], [Some(Node(2))]);
    assert Filter(Below(doc, Node(0)), [Node(1), Node(2)]) == [Node(1), Node(2)];
    assert Filter(NotBelow(doc, Node(0)), [Node(1), Node(2)]) == [];
  }

  // ---------------------------------------------------------------------
  // Sprying.toArray

  /** `Sprying.toArray(seq)`: a new array of the same length, filled from
      the last index down with the indices that are present, so holes stay
      holes. */
  method ToArray<T>(xs: JsArray<T>) returns (arr: array<Option<T>>)
    ensures fresh(arr) && arr[..] == xs
  {
    arr := new Option<T>[|xs|](_ => None);
    var i := |xs|;
    while i > 0
      invariant 0 <= i <= |xs| == arr.Length
      invariant forall k :: i <= k < |xs| ==> arr[k] == xs[k]
      invariant forall k :: 0 <= k < i ==> arr[k] == None
    {
      i := i - 1;
      if xs[i].Some? {
        arr[i] := xs[i];
      }
    }
  }
}
