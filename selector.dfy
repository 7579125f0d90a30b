/** Selector resolution: `_selectWord` for a fragment such as
    `div.item#main`, `_selectBlock` for a whitespace-separated clause, and
    the constructor's comma-separated union of clauses. */
module Selector {
  import opened Js
  import opened Dom
  import opened ArrayShims
  import opened SetOps
  import opened SelectorText

  // ---------------------------------------------------------------------
  // collecting the results of a loop that throws on the first failure

  /** Results of `f` on `xs[i..]`, appended to `acc`, or the first failure:
      `queryResults[i] = f(matches[i])` in a loop, where a throw leaves the
      loop. */
  function CollectFrom<T>(f: string -> Result<T>, xs: seq<string>, i: nat, acc: seq<T>): Result<seq<T>>
    requires i <= |xs|
    decreases |xs| - i
  {
    if i == |xs| then Success(acc)
    else match f(xs[i])
      case Failure(e) => Failure(e)
      case Success(v) => CollectFrom(f, xs, i + 1, acc + [v])
  }

  function Collect<T>(f: string -> Result<T>, xs: seq<string>): Result<seq<T>> {
    CollectFrom(f, xs, 0, [])
  }

  /** On success, one result per input, in order, each the value of `f`;
      otherwise the error of some input `f` fails on, and `f` fails on
      some input exactly when the whole fails. */
  lemma {:induction false} CollectFromIs<T>(f: string -> Result<T>, xs: seq<string>, i: nat, acc: seq<T>)
    requires i <= |xs|
    ensures var r := CollectFrom(f, xs, i, acc);
      (r.Success? ==>
        |r.value| == |acc| + |xs| - i && r.value[..|acc|] == acc &&
        forall k :: i <= k < |xs| ==> f(xs[k]) == Success(r.value[|acc| + k - i])) &&
      (r.Failure? <==> exists k :: i <= k < |xs| && f(xs[k]).Failure?) &&
      (r.Failure? ==> exists k :: i <= k < |xs| && f(xs[k]) == Failure(r.error))
    decreases |xs| - i
  {
    if i < |xs| && f(xs[i]).Success? {
      var v := f(xs[i]).value;
      CollectFromIs(f, xs, i + 1, acc + [v]);
      var r := CollectFrom(f, xs, i, acc);
      if r.Success? {
        assert r.value[..|acc| + 1] == acc + [v];
        assert r.value[..|acc|] == (acc + [v])[..|acc|];
      }
    }
  }

  lemma CollectIs<T>(f: string -> Result<T>, xs: seq<string>)
    ensures Collect(f, xs).Success? ==>
      |Collect(f, xs).value| == |xs| &&
      forall k :: 0 <= k < |xs| ==> f(xs[k]) == Success(Collect(f, xs).value[k])
    ensures Collect(f, xs).Failure? <==> exists k :: 0 <= k < |xs| && f(xs[k]).Failure?
    ensures Collect(f, xs).Failure? ==> exists k :: 0 <= k < |xs| && f(xs[k]) == Failure(Collect(f, xs).error)
  {
    CollectFromIs(f, xs, 0, []);
  }

  // ---------------------------------------------------------------------
  // _selectWord

  /** The three slots of `selContainer`: the tag lookup, the class lookup
      and the id lookup, each set only when its part is in the fragment. */
  function Slots(doc: Doc, s: string): (r: JsArray<JsArray<Elem>>)
    ensures |r| == 3
  {
    [TagSlot(doc, s), ClassSlot(doc, s), IdSlot(doc, s)]
  }

  function TagSlot(doc: Doc, s: string): Option<JsArray<Elem>> {
    if TagOf(s).Some? then Some(Dense(doc.byTag(TagOf(s).value))) else None
  }

  function ClassSlot(doc: Doc, s: string): Option<JsArray<Elem>> {
    if ClassKey(s).Some? then Some(Dense(doc.byClass(ClassKey(s).value))) else None
  }

  function IdSlot(doc: Doc, s: string): Option<JsArray<Elem>> {
    if IdOf(s).Some? then Some(if doc.byId(IdOf(s).value).Some? then [doc.byId(IdOf(s).value)] else []) else None
  }

  /** `_selectWord(s)`: the set slots folded through `_buildCommon`. */
  function WordResult(doc: Doc, s: string): Result<JsArray<Elem>> {
    Reduce(Slots(doc, s), CommonOf)
  }

  /** The tag test of `_selectWord`: sets slot 0 when the fragment starts
      with a word. */
  method FillTagSlot(doc: Doc, selector: string, selContainer: array<Option<JsArray<Elem>>>)
    requires selContainer.Length == 3
    modifies selContainer
    ensures TagOf(selector).Some? ==> selContainer[..] == old(selContainer[..])[0 := TagSlot(doc, selector)]
    ensures TagOf(selector).None? ==> selContainer[..] == old(selContainer[..])
  {
    var tag := TagOf(selector);
    if tag.Some? {
      var births := ToArray(Dense(doc.byTag(tag.value)));
      selContainer[0] := Some(births[..]);
    }
  }

  /** The class test of `_selectWord`: sets slot 1 when the fragment has a
      dotted class list. */
  method FillClassSlot(doc: Doc, selector: string, selContainer: array<Option<JsArray<Elem>>>)
    requires selContainer.Length == 3
    modifies selContainer
    ensures ClassKey(selector).Some? ==> selContainer[..] == old(selContainer[..])[1 := ClassSlot(doc, selector)]
    ensures ClassKey(selector).None? ==> selContainer[..] == old(selContainer[..])
  {
    var key := ClassKey(selector);
    if key.Some? {
      var births := ToArray(Dense(doc.byClass(key.value)));
      selContainer[1] := Some(births[..]);
    }
  }

  /** The id test of `_selectWord`: sets slot 2 when the fragment has a
      `#` followed by a word. */
  method FillIdSlot(doc: Doc, selector: string, selContainer: array<Option<JsArray<Elem>>>)
    requires selContainer.Length == 3
    modifies selContainer
    ensures IdOf(selector).Some? ==> selContainer[..] == old(selContainer[..])[2 := IdSlot(doc, selector)]
    ensures IdOf(selector).None? ==> selContainer[..] == old(selContainer[..])
  {
    var id := IdOf(selector);
    if id.Some? {
      var births := doc.byId(id.value);
      var arr := ToArray(if births.Some? then [births] else []);
      selContainer[2] := Some(arr[..]);
    }
  }

  /** `_selectWord`: fills a fresh three-slot array through
      `Sprying.toArray`, then reduces it with `_buildCommon`. */
  method SelectWord(doc: Doc, selector: string) returns (r: Result<JsArray<Elem>>)
    ensures r == WordResult(doc, selector)
  {
    var selContainer := new Option<JsArray<Elem>>[3](_ => None);
    FillTagSlot(doc, selector, selContainer);
    assert selContainer[..] == [TagSlot(doc, selector), None, None];
    FillClassSlot(doc, selector, selContainer);
    assert selContainer[..] == [TagSlot(doc, selector), ClassSlot(doc, selector), None];
    FillIdSlot(doc, selector, selContainer);
    assert selContainer[..] == Slots(doc, selector);
    r := ReduceShim(selContainer[..], IgnoreIndex(CommonOf), None);
    ReduceAtBinary(selContainer[..], CommonOf);
  }

  /** A fragment with no tag, no class and no id throws: the reduce finds no
      set slot. Otherwise it succeeds. */
  lemma WordFailsIffNoPart(doc: Doc, s: string)
    ensures WordResult(doc, s).Failure? <==> TagOf(s).None? && ClassKey(s).None? && IdOf(s).None?
    ensures WordResult(doc, s).Failure? ==> WordResult(doc, s).error == EmptyReduce
  {
    ReduceFailsIffAllHoles(Slots(doc, s), CommonOf);
    var sl := Slots(doc, s);
    assert TagOf(s).Some? ==> sl[0].Some?;
    assert ClassKey(s).Some? ==> sl[1].Some?;
    assert IdOf(s).Some? ==> sl[2].Some?;
  }

  /** In particular the empty fragment throws. */
  lemma WordOfEmpty(doc: Doc)
    ensures WordResult(doc, "") == Failure(EmptyReduce)
  {
    WordFailsIffNoPart(doc, "");
  }

  /** A fragment with a single part returns that part's lookup unchanged. */
  lemma WordSinglePart(doc: Doc, s: string)
    ensures TagOf(s).Some? && ClassKey(s).None? && IdOf(s).None? ==>
      WordResult(doc, s) == Success(Dense(doc.byTag(TagOf(s).value)))
    ensures TagOf(s).None? && ClassKey(s).Some? && IdOf(s).None? ==>
      WordResult(doc, s) == Success(Dense(doc.byClass(ClassKey(s).value)))
    ensures TagOf(s).None? && ClassKey(s).None? && IdOf(s).Some? ==>
      WordResult(doc, s) == Success(if doc.byId(IdOf(s).value).Some? then [doc.byId(IdOf(s).value)] else [])
  {
    var sl := Slots(doc, s);
    if TagOf(s).Some? && ClassKey(s).None? && IdOf(s).None? {
      ReduceSingle(sl, CommonOf, 0);
    } else if TagOf(s).None? && ClassKey(s).Some? && IdOf(s).None? {
      ReduceSingle(sl, CommonOf, 1);
    } else if TagOf(s).None? && ClassKey(s).None? && IdOf(s).Some? {
      ReduceSingle(sl, CommonOf, 2);
    }
  }

  /** Folding through `_buildCommon` keeps exactly what every array holds. */
  lemma {:induction false} FoldCommonHas(acc: JsArray<Elem>, vs: seq<JsArray<Elem>>, x: Elem)
    ensures x in Present(FoldLeft(CommonOf, acc, vs)) <==> Some(x) in acc && forall k :: 0 <= k < |vs| ==> Some(x) in vs[k]
    decreases |vs|
  {
    if vs == [] {
      PresentHas(acc, x);
    } else {
      var acc' := CommonOf(acc, vs[0]);
      FoldCommonHas(acc', vs[1..], x);
      PresentDense(Common(acc, vs[0]).0);
      PresentHas(acc', x);
      CommonHas(acc, vs[0], x);
      assert (forall k :: 0 <= k < |vs| ==> Some(x) in vs[k])
         <==> Some(x) in vs[0] && forall k :: 0 <= k < |vs[1..]| ==> Some(x) in vs[1..][k];
    }
  }

  /** Reducing an array of lookups through `_buildCommon` keeps exactly
      what every present lookup holds. */
  lemma ReduceCommonHas(xs: JsArray<JsArray<Elem>>, x: Elem)
    requires Reduce(xs, CommonOf).Success?
    ensures x in Present(Reduce(xs, CommonOf).value) <==> forall v :: Some(v) in xs ==> Some(x) in v
  {
    var vs := Present(xs);
    FoldCommonHas(vs[0], vs[1..], x);
    assert (forall k :: 0 <= k < |vs| ==> Some(x) in vs[k])
       <==> Some(x) in vs[0] && forall k :: 0 <= k < |vs[1..]| ==> Some(x) in vs[1..][k];
    assert (forall k :: 0 <= k < |vs| ==> Some(x) in vs[k]) <==> (forall v :: v in vs ==> Some(x) in v);
    forall v ensures v in vs <==> Some(v) in xs {
      PresentHas(xs, v);
    }
  }

  lemma ThreeSlots(a: Option<JsArray<Elem>>, b: Option<JsArray<Elem>>, c: Option<JsArray<Elem>>, x: Elem)
    ensures (forall v :: Some(v) in [a, b, c] ==> Some(x) in v) <==>
      (a.Some? ==> Some(x) in a.value) && (b.Some? ==> Some(x) in b.value) && (c.Some? ==> Some(x) in c.value)
  {
  }

  /** An element matches a fragment exactly when it is in the lookup of
      every part the fragment has. */
  lemma WordHas(doc: Doc, s: string, x: Elem)
    requires WordResult(doc, s).Success?
    ensures x in Present(WordResult(doc, s).value) <==>
      (TagOf(s).Some? ==> x in doc.byTag(TagOf(s).value)) &&
      (ClassKey(s).Some? ==> x in doc.byClass(ClassKey(s).value)) &&
      (IdOf(s).Some? ==> doc.byId(IdOf(s).value) == Some(x))
  {
    var sl := Slots(doc, s);
    ReduceCommonHas(sl, x);
    ThreeSlots(sl[0], sl[1], sl[2], x);
    assert sl == [sl[0], sl[1], sl[2]];
    if TagOf(s).Some? {
      DenseHas(doc.byTag(TagOf(s).value), x);
    }
    if ClassKey(s).Some? {
      DenseHas(doc.byClass(ClassKey(s).value), x);
    }
  }

  lemma DenseHas(vs: seq<Elem>, x: Elem)
    ensures Some(x) in Dense(vs) <==> x in vs
  {
    PresentDense(vs);
    PresentHas(Dense(vs), x);
  }

  // ---------------------------------------------------------------------
  // _selectBlock

  /** `_selectWord` as a callback. */
  function WordStep(doc: Doc): string -> Result<JsArray<Elem>> {
    w => WordResult(doc, w)
  }

  /** `_selectBlock(s)`: a clause without whitespace is one fragment;
      otherwise the fragments of the trimmed clause, each selected in turn,
      folded through `_obtainChild` with its removal corrected to the
      matched index j (the code removes index i; `SetOps.ObtainChildAsWritten`
      models that). */
  function BlockResult(doc: Doc, s: string): Result<JsArray<Elem>> {
    if !HasSpace(s) then WordResult(doc, s)
    else match Collect(WordStep(doc), Words(Trim(s)))
      case Failure(e) => Failure(e)
      case Success(rs) => Reduce(Dense(rs), DescendantsStep(doc))
  }

  /** The loop of `_selectBlock` over the blank-separated fragments. */
  method SelectFragments(doc: Doc, matches: seq<string>) returns (r: Result<seq<JsArray<Elem>>>)
    ensures r == Collect(WordStep(doc), matches)
  {
    var queryResults: seq<JsArray<Elem>> := [];
    var i := 0;
    while i < |matches|
      invariant 0 <= i <= |matches|
      invariant CollectFrom(WordStep(doc), matches, i, queryResults) == Collect(WordStep(doc), matches)
    {
      var q := SelectWord(doc, matches[i]);
      assert WordStep(doc)(matches[i]) == q;
      if q.Failure? {
        return Failure(q.error);
      }
      queryResults := queryResults + [q.value];
      i := i + 1;
    }
    return Success(queryResults);
  }

  method SelectBlock(doc: Doc, arg: string) returns (r: Result<JsArray<Elem>>)
    ensures r == BlockResult(doc, arg)
  {
    if HasSpace(arg) {
      var rs := SelectFragments(doc, Words(Trim(arg)));
      if rs.Failure? {
        return Failure(rs.error);
      }
      r := ReduceShim(Dense(rs.value), IgnoreIndex(DescendantsStep(doc)), None);
      ReduceAtBinary(Dense(rs.value), DescendantsStep(doc));
    } else {
      r := SelectWord(doc, arg);
    }
  }

  /** The clause `f0 f1 … fn` matches x when x matches the last fragment and
      some element that is x or one of its ancestors matches `f0 … f(n-1)`. */
  ghost predicate InChain(doc: Doc, rs: seq<JsArray<Elem>>, x: Elem)
    requires |rs| >= 1
    decreases |rs|
  {
    if |rs| == 1 then Some(x) in rs[0]
    else Some(x) in rs[|rs| - 1] && exists y :: InChain(doc, rs[..|rs| - 1], y) && IsAncestorOrSelf(doc, y, x)
  }

  /** Folding fragment results through `_obtainChild` keeps exactly the
      elements at the end of a chain through all of them. */
  lemma {:induction false} FoldDescendantsHas(doc: Doc, rs: seq<JsArray<Elem>>, x: Elem)
    requires |rs| >= 1
    ensures x in Present(FoldLeft(DescendantsStep(doc), rs[0], rs[1..])) <==> InChain(doc, rs, x)
    decreases |rs|
  {
    if |rs| == 1 {
      assert rs[1..] == [];
      PresentHas(rs[0], x);
    } else {
      var rs', w := rs[..|rs| - 1], rs[|rs| - 1];
      assert rs'[0] == rs[0];
      assert rs[1..] == rs'[1..] + [w];
      FoldLeftSnoc(DescendantsStep(doc), rs[0], rs'[1..], w);
      var a := FoldLeft(DescendantsStep(doc), rs'[0], rs'[1..]);
      var d := Descendants(doc, Present(a), Present(w));
      PresentDense(d);
      DescendantsHas(doc, Present(a), Present(w), x);
      PresentHas(w, x);
      forall y ensures y in Present(a) <==> InChain(doc, rs', y) {
        FoldDescendantsHas(doc, rs', y);
      }
    }
  }

  /** A clause with whitespace keeps exactly the elements at the end of a
      chain through its fragments' results; in particular only elements of
      the last fragment. */
  lemma BlockHas(doc: Doc, s: string, x: Elem)
    requires HasSpace(s) && BlockResult(doc, s).Success?
    ensures Collect(WordStep(doc), Words(Trim(s))).Success?
    ensures var rs := Collect(WordStep(doc), Words(Trim(s))).value;
      |rs| == |Words(Trim(s))| && |rs| >= 1 &&
      (x in Present(BlockResult(doc, s).value) <==> InChain(doc, rs, x))
  {
    var ws := Words(Trim(s));
    CollectIs(WordStep(doc), ws);
    var rs := Collect(WordStep(doc), ws).value;
    ReduceDense(rs, DescendantsStep(doc));
    FoldDescendantsHas(doc, rs, x);
  }

  /** A clause fails when one of its fragments has no tag, class or id. */
  lemma BlockFails(doc: Doc, s: string)
    requires HasSpace(s)
    ensures BlockResult(doc, s).Failure? <==>
      exists k :: 0 <= k < |Words(Trim(s))| && WordResult(doc, Words(Trim(s))[k]).Failure?
  {
    var ws := Words(Trim(s));
    var f := WordStep(doc);
    CollectIs(f, ws);
    assert forall k :: 0 <= k < |ws| ==> f(ws[k]) == WordResult(doc, ws[k]);
    if Collect(f, ws).Success? {
      var rs := Collect(f, ws).value;
      ReduceDense(rs, DescendantsStep(doc));
      assert BlockResult(doc, s).Success?;
      assert !exists k :: 0 <= k < |ws| && f(ws[k]).Failure?;
    } else {
      var k :| 0 <= k < |ws| && f(ws[k]).Failure?;
      assert WordResult(doc, ws[k]).Failure?;
      assert BlockResult(doc, s).Failure?;
      assert exists k :: 0 <= k < |Words(Trim(s))| && WordResult(doc, Words(Trim(s))[k]).Failure?;
    }
  }

  /** Every failure of a clause is the `TypeError` of a reduce over no
      value. */
  lemma BlockError(doc: Doc, s: string)
    ensures BlockResult(doc, s).Failure? ==> BlockResult(doc, s).error == EmptyReduce
  {
    if HasSpace(s) {
      var ws := Words(Trim(s));
      var f := WordStep(doc);
      CollectIs(f, ws);
      if Collect(f, ws).Success? {
        ReduceDense(Collect(f, ws).value, DescendantsStep(doc));
      } else {
        var k :| 0 <= k < |ws| && f(ws[k]) == Failure(Collect(f, ws).error);
        WordFailsIffNoPart(doc, ws[k]);
      }
    } else {
      WordFailsIffNoPart(doc, s);
    }
  }

  // ---------------------------------------------------------------------
  // the constructor's string branch

  /** `_selectBlock` as a callback. */
  function BlockStep(doc: Doc): string -> Result<JsArray<Elem>> {
    c => BlockResult(doc, c)
  }

  /** `arg.trim().split(/\s*,\s*\/)`, each clause through `_selectBlock`,
      the results folded through `_buildUnion`. */
  function QueryResult(doc: Doc, s: string): Result<JsArray<Elem>> {
    match Collect(BlockStep(doc), SplitSelector(s))
    case Failure(e) => Failure(e)
    case Success(rs) => Reduce(Dense(rs), Union)
  }

  method SelectClauses(doc: Doc, matches: seq<string>) returns (r: Result<seq<JsArray<Elem>>>)
    ensures r == Collect(BlockStep(doc), matches)
  {
    var queryResults: seq<JsArray<Elem>> := [];
    var i := 0;
    while i < |matches|
      invariant 0 <= i <= |matches|
      invariant CollectFrom(BlockStep(doc), matches, i, queryResults) == Collect(BlockStep(doc), matches)
    {
      var q := SelectBlock(doc, matches[i]);
      assert BlockStep(doc)(matches[i]) == q;
      if q.Failure? {
        return Failure(q.error);
      }
      queryResults := queryResults + [q.value];
      i := i + 1;
    }
    return Success(queryResults);
  }

  method Query(doc: Doc, arg: string) returns (r: Result<JsArray<Elem>>)
    ensures r == QueryResult(doc, arg)
  {
    var rs := SelectClauses(doc, SplitSelector(arg));
    if rs.Failure? {
      return Failure(rs.error);
    }
    r := ReduceShim(Dense(rs.value), IgnoreIndex(Union), None);
    ReduceAtBinary(Dense(rs.value), Union);
  }

  function Flatten(rs: seq<JsArray<Elem>>): JsArray<Elem> {
    if rs == [] then [] else rs[0] + Flatten(rs[1..])
  }

  function TotalLength(rs: seq<JsArray<Elem>>): nat {
    if rs == [] then 0 else |rs[0]| + TotalLength(rs[1..])
  }

  lemma {:induction false} FlattenLength(rs: seq<JsArray<Elem>>)
    ensures |Flatten(rs)| == TotalLength(rs)
  {
    if rs != [] {
      FlattenLength(rs[1..]);
    }
  }

  lemma {:induction false} FoldUnion(acc: JsArray<Elem>, vs: seq<JsArray<Elem>>)
    ensures FoldLeft(Union, acc, vs) == acc + Flatten(vs)
    decreases |vs|
  {
    if vs == [] {
      assert acc + [] == acc;
    } else {
      var u := Union(acc, vs[0]);
      assert u == acc + vs[0];
      FoldUnion(u, vs[1..]);
      assert acc + vs[0] + Flatten(vs[1..]) == acc + (vs[0] + Flatten(vs[1..]));
    }
  }

  /** The union of the clauses is their results concatenated in clause
      order, duplicates kept: its length is the sum of theirs. A selector
      fails exactly when one of its clauses does. */
  lemma QueryIsConcatenation(doc: Doc, s: string)
    ensures var c := Collect(BlockStep(doc), SplitSelector(s));
      (QueryResult(doc, s).Failure? <==> c.Failure?) &&
      (c.Success? ==> QueryResult(doc, s) == Success(Flatten(c.value)) &&
                      |QueryResult(doc, s).value| == TotalLength(c.value) &&
                      |c.value| == |SplitSelector(s)| &&
                      forall k :: 0 <= k < |c.value| ==> BlockResult(doc, SplitSelector(s)[k]) == Success(c.value[k]))
  {
    var cs := SplitSelector(s);
    CollectIs(BlockStep(doc), cs);
    var c := Collect(BlockStep(doc), cs);
    if c.Success? {
      var rs := c.value;
      ReduceDense(rs, Union);
      FoldUnion(rs[0], rs[1..]);
      assert rs == [rs[0]] + rs[1..];
      assert Flatten(rs) == rs[0] + Flatten(rs[1..]);
      FlattenLength(rs);
    }
  }

  /** A selector ending in a comma throws: its last clause is empty. */
  lemma TrailingCommaFails(doc: Doc, s: string)
    ensures QueryResult(doc, s + ",") == Failure(EmptyReduce)
  {
    var cs := SplitSelector(s + ",");
    LastClauseEmpty(s);
    BlockOfEmpty(doc);
    var f := BlockStep(doc);
    forall k | 0 <= k < |cs| && f(cs[k]).Failure?
      ensures f(cs[k]).error == EmptyReduce
    {
      BlockError(doc, cs[k]);
    }
    assert f(cs[|cs| - 1]).Failure?;
    CollectFirstFailure(f, cs);
  }

  /** An empty or blank selector throws: its one clause is empty, and so is
      that clause's one fragment. */
  lemma BlankQueryFails(doc: Doc, s: string)
    requires Trim(s) == []
    ensures QueryResult(doc, s) == Failure(EmptyReduce)
  {
    TrimOfEmpty();
    assert SplitSelector(s) == [""];
    BlockOfEmpty(doc);
    assert BlockStep(doc)("") == Failure(EmptyReduce);
  }

  lemma BlockOfEmpty(doc: Doc)
    ensures BlockResult(doc, "") == Failure(EmptyReduce)
  {
    assert !HasSpace("");
    WordOfEmpty(doc);
  }

  lemma LastClauseEmpty(s: string)
    ensures SplitSelector(s + ",")[|SplitSelector(s + ",")| - 1] == ""
  {
    var t := Trim(s + ",");
    TrimOfComma(s);
    var pieces := SplitAt(t, ',');
    LastPieceEmpty(TrimLeft(s), ',');
    assert pieces[|pieces| - 1] == "";
    TrimOfEmpty();
  }

  lemma TrimOfEmpty()
    ensures Trim("") == ""
  {
  }

  lemma TrimOfComma(s: string)
    ensures Trim(s + ",") == TrimLeft(s) + ","
  {
    TrimLeftAppend(s, ",");
    var l := TrimLeft(s) + ",";
    assert l[|l| - 1] == ',';
  }

  lemma {:induction false} TrimLeftAppend(s: string, t: string)
    requires t != [] && !IsSpace(t[0])
    ensures TrimLeft(s + t) == TrimLeft(s) + t
    decreases |s|
  {
    if s == [] {
      assert s + t == t;
    } else {
      assert (s + t)[0] == s[0];
      assert (s + t)[1..] == s[1..] + t;
      if IsSpace(s[0]) {
        TrimLeftAppend(s[1..], t);
      }
    }
  }

  lemma {:induction false} LastPieceEmpty(p: string, sep: char)
    ensures SplitAt(p + [sep], sep)[|SplitAt(p + [sep], sep)| - 1] == ""
    decreases |p|
  {
    if p == [] {
      assert p + [sep] == [sep];
      assert [sep][1..] == [];
    } else {
      assert (p + [sep])[1..] == p[1..] + [sep];
      assert (p + [sep])[0] == p[0];
      LastPieceEmpty(p[1..], sep);
    }
  }

  /** Every element a failing input yields is the error of the collection:
      all the engine's failures are the same `TypeError`. */
  lemma CollectFirstFailure(f: string -> Result<JsArray<Elem>>, xs: seq<string>)
    requires forall k :: 0 <= k < |xs| && f(xs[k]).Failure? ==> f(xs[k]).error == EmptyReduce
    requires exists k :: 0 <= k < |xs| && f(xs[k]).Failure?
    ensures Collect(f, xs) == Failure(EmptyReduce)
  {
    CollectIs(f, xs);
  }
}
