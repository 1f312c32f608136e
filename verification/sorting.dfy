/** `Array.prototype.sort` with a comparator. The language fixes the result for
    a consistent comparator (the sort is stable) but leaves the algorithm, and so
    the exact comparator calls, to the engine; the model uses a stable insertion
    sort. Holes never reach the comparator and end up after every value; a
    comparator that throws leaves the array as it was, since the sorted values
    are written back only after sorting has finished. */
module Sorting {
  import opened JsValues

  /** A comparator's completion: a negative number puts the first argument first.
      The number is the one the engine uses (`NaN` already read as 0). */
  type Comparator<!X> = (X, X) -> Outcome<int>

  /** Stable insertion: `x` goes before the first element `y` with `cmp(x, y) < 0`,
      so after every element it compares equal to. */
  function Insert<X>(x: X, s: seq<X>, cmp: Comparator<X>): (r: Outcome<seq<X>>)
    ensures r.Returned? ==> multiset(r.value) == multiset(s) + multiset{x}
    ensures r.Returned? ==> |r.value| == |s| + 1
    ensures r.Returned? && |s| > 0 ==> r.value[0] == x || r.value[0] == s[0]
    decreases |s|
  {
    if |s| == 0 then Returned([x])
    else match cmp(x, s[0])
      case Threw(e) => Threw(e)
      case Returned(v) =>
        if v < 0 then Returned([x] + s)
        else match Insert(x, s[1..], cmp)
          case Threw(e) => Threw(e)
          case Returned(t) =>
            assert s == [s[0]] + s[1..];
            Returned([s[0]] + t)
  }

  /** Sorts by inserting each element, left to right, into the sorted prefix. */
  function SortValues<X>(s: seq<X>, cmp: Comparator<X>): (r: Outcome<seq<X>>)
    ensures r.Returned? ==> multiset(r.value) == multiset(s) && |r.value| == |s|
    decreases |s|
  {
    if |s| == 0 then Returned([])
    else match SortValues(s[..|s| - 1], cmp)
      case Threw(e) => Threw(e)
      case Returned(p) =>
        assert s == s[..|s| - 1] + [s[|s| - 1]];
        Insert(s[|s| - 1], p, cmp)
  }

  /** The comparator on slots the engine effectively applies: values compare with
      the caller's comparator, and every hole sorts after every value without the
      comparator being called. */
  function LiftToSlots<X>(cmp: Comparator<X>): Comparator<Slot<X>> {
    (a: Slot<X>, b: Slot<X>) =>
      match (a, b)
      case (Val(x), Val(y)) => cmp(x, y)
      case (Val(_), Hole) => Returned(-1)
      case (Hole, Val(_)) => Returned(1)
      case (Hole, Hole) => Returned(0)
  }

  /** `sort(cmp)` on the slots of an array. */
  function SortSlots<X>(s: seq<Slot<X>>, cmp: Comparator<X>): (r: Outcome<seq<Slot<X>>>)
    ensures r.Returned? ==> multiset(r.value) == multiset(s) && |r.value| == |s|
  {
    SortValues(s, LiftToSlots(cmp))
  }

  /** The comparator says "not after": the first argument may precede the second. */
  predicate NotAfter(o: Outcome<int>) {
    o.Returned? && o.value <= 0
  }

  ghost predicate Sorted<X>(s: seq<X>, cmp: Comparator<X>) {
    forall i :: 0 < i < |s| ==> NotAfter(cmp(s[i - 1], s[i]))
  }

  /** The comparator never throws. */
  ghost predicate Total<X(!new)>(cmp: Comparator<X>) {
    forall a, b :: cmp(a, b).Returned?
  }

  /** If `a` may come after `b`, then `b` may come before `a`. */
  ghost predicate Antisymmetric<X(!new)>(cmp: Comparator<X>) {
    forall a, b :: cmp(a, b).Returned? && cmp(a, b).value >= 0 ==> NotAfter(cmp(b, a))
  }

  lemma {:induction false} InsertKeepsSorted<X(!new)>(x: X, s: seq<X>, cmp: Comparator<X>)
    requires Total(cmp) && Antisymmetric(cmp) && Sorted(s, cmp)
    ensures Insert(x, s, cmp).Returned? && Sorted(Insert(x, s, cmp).value, cmp)
    decreases |s|
  {
    if |s| > 0 && cmp(x, s[0]).value >= 0 {
      InsertKeepsSorted(x, s[1..], cmp);
      var t := Insert(x, s[1..], cmp).value;
      var r := [s[0]] + t;
      assert Insert(x, s, cmp) == Returned(r);
      forall i | 0 < i < |r|
        ensures NotAfter(cmp(r[i - 1], r[i]))
      {
        if i == 1 {
          if t[0] == x {
            assert NotAfter(cmp(s[0], x));
          } else {
            assert t[0] == s[1];
          }
        } else {
          assert r[i - 1] == t[i - 2] && r[i] == t[i - 1];
        }
      }
    }
  }

  /** A total, antisymmetric comparator always yields a sorted result. */
  lemma {:induction false} SortValuesSorts<X(!new)>(s: seq<X>, cmp: Comparator<X>)
    requires Total(cmp) && Antisymmetric(cmp)
    ensures SortValues(s, cmp).Returned? && Sorted(SortValues(s, cmp).value, cmp)
    decreases |s|
  {
    if |s| > 0 {
      SortValuesSorts(s[..|s| - 1], cmp);
      InsertKeepsSorted(s[|s| - 1], SortValues(s[..|s| - 1], cmp).value, cmp);
    }
  }

  /** With such a comparator, `sort` puts every hole after every value and the
      values in comparator order. */
  lemma SortSlotsOrders<X(!new)>(s: seq<Slot<X>>, cmp: Comparator<X>)
    requires Total(cmp) && Antisymmetric(cmp)
    ensures SortSlots(s, cmp).Returned?
    ensures var r := SortSlots(s, cmp).value;
      && (forall i, j :: 0 <= i < j < |r| && r[i].Hole? ==> r[j].Hole?)
      && (forall i :: 0 < i < |r| && r[i - 1].Val? && r[i].Val? ==> NotAfter(cmp(r[i - 1].x, r[i].x)))
  {
    var lifted := LiftToSlots(cmp);
    SortValuesSorts(s, lifted);
    var r := SortSlots(s, cmp).value;
    forall i, j | 0 <= i < j < |r| && r[i].Hole?
      ensures r[j].Hole?
    {
      HolesStayLast(r, cmp, i, j);
    }
  }

  lemma {:induction false} HolesStayLast<X>(r: seq<Slot<X>>, cmp: Comparator<X>, i: nat, j: nat)
    requires Sorted(r, LiftToSlots(cmp))
    requires i < j < |r| && r[i].Hole?
    ensures r[j].Hole?
    decreases j - i
  {
    assert NotAfter(LiftToSlots(cmp)(r[i], r[i + 1]));
    if i + 1 < j {
      HolesStayLast(r, cmp, i + 1, j);
    }
  }

  /** A comparator that calls everything equal leaves the order unchanged. */
  lemma {:induction false} AllEqualKeepsOrder<X>(s: seq<X>, cmp: Comparator<X>)
    requires forall a, b :: cmp(a, b) == Returned(0)
    ensures SortValues(s, cmp) == Returned(s)
    decreases |s|
  {
    if |s| > 0 {
      var p := s[..|s| - 1];
      AllEqualKeepsOrder(p, cmp);
      AppendWhenAllEqual(s[|s| - 1], p, cmp);
      assert p + [s[|s| - 1]] == s;
    }
  }

  lemma {:induction false} AppendWhenAllEqual<X>(x: X, s: seq<X>, cmp: Comparator<X>)
    requires forall a, b :: cmp(a, b) == Returned(0)
    ensures Insert(x, s, cmp) == Returned(s + [x])
    decreases |s|
  {
    if |s| > 0 {
      AppendWhenAllEqual(x, s[1..], cmp);
      assert cmp(x, s[0]) == Returned(0);
      assert [s[0]] + (s[1..] + [x]) == s + [x];
    } else {
      assert s + [x] == [x];
    }
  }

  /** Element-wise image of a sequence. */
  function MapSeq<X, Y>(f: X -> Y, s: seq<X>): (r: seq<Y>)
    ensures |r| == |s|
    ensures forall i :: 0 <= i < |s| ==> r[i] == f(s[i])
  {
    seq(|s|, i requires 0 <= i < |s| => f(s[i]))
  }

  /** Sorting commutes with a projection `g` that the two comparators agree
      through: sorting `ys` by `cy` then projecting equals projecting then sorting
      by `cx`, throws included. `P` marks the elements where they agree. */
  lemma {:induction false} SortCommutes<X, Y>(ys: seq<Y>, g: Y -> X, P: Y -> bool,
                                             cy: Comparator<Y>, cx: Comparator<X>)
    requires forall y :: y in ys ==> P(y)
    requires forall a, b :: P(a) && P(b) ==> cy(a, b) == cx(g(a), g(b))
    ensures SortValues(ys, cy).Threw? ==> SortValues(MapSeq(g, ys), cx) == Threw(SortValues(ys, cy).exc)
    ensures SortValues(ys, cy).Returned? ==>
      && SortValues(MapSeq(g, ys), cx) == Returned(MapSeq(g, SortValues(ys, cy).value))
      && forall z :: z in SortValues(ys, cy).value ==> P(z)
    decreases |ys|
  {
    if |ys| > 0 {
      var p := ys[..|ys| - 1];
      var y := ys[|ys| - 1];
      assert forall z :: z in p ==> z in ys;
      SortCommutes(p, g, P, cy, cx);
      assert MapSeq(g, ys)[..|ys| - 1] == MapSeq(g, p);
      match SortValues(p, cy)
      case Threw(e) =>
      case Returned(sp) =>
        assert forall z :: z in sp ==> multiset(sp)[z] > 0;
        InsertCommutes(y, sp, g, P, cy, cx);
    }
  }

  lemma {:induction false} InsertCommutes<X, Y>(y: Y, s: seq<Y>, g: Y -> X, P: Y -> bool,
                                               cy: Comparator<Y>, cx: Comparator<X>)
    requires P(y) && forall z :: z in s ==> P(z)
    requires forall a, b :: P(a) && P(b) ==> cy(a, b) == cx(g(a), g(b))
    ensures Insert(y, s, cy).Threw? ==> Insert(g(y), MapSeq(g, s), cx) == Threw(Insert(y, s, cy).exc)
    ensures Insert(y, s, cy).Returned? ==>
      && Insert(g(y), MapSeq(g, s), cx) == Returned(MapSeq(g, Insert(y, s, cy).value))
      && forall z :: z in Insert(y, s, cy).value ==> P(z)
    decreases |s|
  {
    if |s| > 0 {
      assert s[0] in s;
      assert cy(y, s[0]) == cx(g(y), g(s[0]));
      MapCons(g, s[0], s[1..]);
      assert [s[0]] + s[1..] == s;
      assert forall z :: z in s[1..] ==> z in s;
      InsertCommutes(y, s[1..], g, P, cy, cx);
      match cy(y, s[0])
      case Threw(e) =>
      case Returned(v) =>
        if v < 0 {
          MapCons(g, y, s);
        } else {
          match Insert(y, s[1..], cy)
          case Threw(e) =>
          case Returned(t) =>
            MapCons(g, s[0], t);
        }
    } else {
      assert MapSeq(g, [y]) == [g(y)];
    }
  }

  lemma MapCons<X, Y>(g: Y -> X, h: Y, t: seq<Y>)
    ensures MapSeq(g, [h] + t) == [g(h)] + MapSeq(g, t)
  {
  }

  // ---------------------------------------------------------------------------
  // stability

  /** A consistent comparator in the sense of `Array.prototype.sort`: it never
      throws, swapping its arguments flips the sign of its result, and "may come
      first" is transitive. */
  ghost predicate Consistent<X(!new)>(cmp: Comparator<X>) {
    && Total(cmp)
    && (forall a, b :: cmp(a, b).value < 0 <==> cmp(b, a).value > 0)
    && (forall a, b, c :: NotAfter(cmp(a, b)) && NotAfter(cmp(b, c)) ==> NotAfter(cmp(a, c)))
  }

  /** Each element paired with its position. */
  function Tag<X>(s: seq<X>): (r: seq<(X, nat)>)
    ensures |r| == |s|
    ensures forall i :: 0 <= i < |s| ==> r[i] == (s[i], i)
  {
    seq(|s|, i requires 0 <= i < |s| => (s[i], i))
  }

  /** The element a tagged pair carries. */
  function Untag<X>(t: (X, nat)): X {
    t.0
  }

  /** Compares tagged elements by their elements alone, ignoring the tags. */
  function ByValue<X>(cmp: Comparator<X>): Comparator<(X, nat)> {
    (a: (X, nat), b: (X, nat)) => cmp(a.0, b.0)
  }

  /** Elements the comparator calls equal appear in the order of their tags. */
  ghost predicate TagOrderWhenEqual<X>(r: seq<(X, nat)>, cmp: Comparator<X>) {
    forall p, q :: 0 <= p < q < |r| && cmp(r[p].0, r[q].0) == Returned(0) ==> r[p].1 < r[q].1
  }

  /** Every element may come before every later one. */
  ghost predicate InOrder<X>(r: seq<(X, nat)>, cmp: Comparator<X>) {
    forall p, q :: 0 <= p < q < |r| ==> NotAfter(cmp(r[p].0, r[q].0))
  }

  /** `sort` is stable: sorting `s` gives the elements of sorting `s` tagged with
      positions, and in that tagged result any two elements the comparator calls
      equal keep the order they had in `s`. */
  lemma SortIsStable<X(!new)>(s: seq<X>, cmp: Comparator<X>)
    requires Consistent(cmp)
    ensures var r := SortValues(Tag(s), ByValue(cmp));
      && r.Returned?
      && SortValues(s, cmp) == Returned(MapSeq(Untag, r.value))
      && TagOrderWhenEqual(r.value, cmp)
  {
    SortKeepsTagOrder(Tag(s), cmp);
    assert MapSeq(Untag, Tag(s)) == s;
    forall a: (X, nat), b: (X, nat)
      ensures ByValue(cmp)(a, b) == cmp(Untag(a), Untag(b))
    {
    }
    SortCommutes(Tag(s), Untag, (t: (X, nat)) => true, ByValue(cmp), cmp);
  }

  /** A consistent comparator, applied to the elements, is total and
      antisymmetric on tagged pairs. */
  lemma ByValueOrders<X(!new)>(cmp: Comparator<X>)
    requires Consistent(cmp)
    ensures Total(ByValue(cmp)) && Antisymmetric(ByValue(cmp))
  {
    forall a: (X, nat), b: (X, nat)
      ensures ByValue(cmp)(a, b) == cmp(a.0, b.0)
    {
    }
  }

  lemma {:induction false} SortKeepsTagOrder<X(!new)>(s: seq<(X, nat)>, cmp: Comparator<X>)
    requires Consistent(cmp)
    requires forall p, q :: 0 <= p < q < |s| ==> s[p].1 < s[q].1
    ensures SortValues(s, ByValue(cmp)).Returned?
    ensures TagOrderWhenEqual(SortValues(s, ByValue(cmp)).value, cmp)
    decreases |s|
  {
    if |s| > 0 {
      var init, x := s[..|s| - 1], s[|s| - 1];
      SortKeepsTagOrder(init, cmp);
      ByValueOrders(cmp);
      SortValuesSorts(init, ByValue(cmp));
      var sp := SortValues(init, ByValue(cmp)).value;
      AdjacentToAll(sp, cmp);
      forall k | 0 <= k < |sp|
        ensures sp[k].1 < x.1
      {
        assert sp[k] in multiset(init);
      }
      InsertKeepsTagOrder(x, sp, cmp);
    }
  }

  /** With a transitive comparator, sorted neighbours make a sorted whole. */
  lemma AdjacentToAll<X(!new)>(r: seq<(X, nat)>, cmp: Comparator<X>)
    requires Consistent(cmp) && Sorted(r, ByValue(cmp))
    ensures InOrder(r, cmp)
  {
    forall p, q | 0 <= p < q < |r|
      ensures NotAfter(cmp(r[p].0, r[q].0))
    {
      Chain(r, cmp, p, q);
    }
  }

  lemma {:induction false} Chain<X(!new)>(r: seq<(X, nat)>, cmp: Comparator<X>, p: nat, q: nat)
    requires Consistent(cmp) && Sorted(r, ByValue(cmp))
    requires p < q < |r|
    ensures NotAfter(cmp(r[p].0, r[q].0))
    decreases q - p
  {
    assert ByValue(cmp)(r[q - 1], r[q]) == cmp(r[q - 1].0, r[q].0);
    if p < q - 1 {
      Chain(r, cmp, p, q - 1);
    }
  }

  /** Inserting an element tagged after everything already sorted keeps equal
      elements in tag order: it goes after every element it equals. */
  lemma {:induction false} InsertKeepsTagOrder<X(!new)>(x: (X, nat), s: seq<(X, nat)>, cmp: Comparator<X>)
    requires Consistent(cmp)
    requires TagOrderWhenEqual(s, cmp) && InOrder(s, cmp)
    requires forall k :: 0 <= k < |s| ==> s[k].1 < x.1
    ensures Insert(x, s, ByValue(cmp)).Returned?
    ensures TagOrderWhenEqual(Insert(x, s, ByValue(cmp)).value, cmp)
    decreases |s|
  {
    var bv := ByValue(cmp);
    if |s| == 0 {
      assert Insert(x, s, bv) == Returned([x]);
    } else {
      assert bv(x, s[0]) == cmp(x.0, s[0].0);
      if cmp(x.0, s[0].0).value < 0 {
        assert Insert(x, s, bv) == Returned([x] + s);
        BeforeAll(x, s, cmp);
        FrontKeepsTagOrder(x, s, cmp);
      } else {
        var rest := s[1..];
        assert forall k :: 0 <= k < |rest| ==> rest[k] == s[k + 1];
        InsertKeepsTagOrder(x, rest, cmp);
        var t := Insert(x, rest, bv).value;
        assert Insert(x, s, bv) == Returned([s[0]] + t);
        HeadKeepsTagOrder(s[0], x, rest, t, cmp);
      }
    }
  }

  /** An element strictly before everything behind it, put in front. */
  lemma FrontKeepsTagOrder<X>(x: (X, nat), s: seq<(X, nat)>, cmp: Comparator<X>)
    requires TagOrderWhenEqual(s, cmp)
    requires forall j :: 0 <= j < |s| ==> cmp(x.0, s[j].0).Returned? && cmp(x.0, s[j].0).value < 0
    ensures TagOrderWhenEqual([x] + s, cmp)
  {
    var r := [x] + s;
    assert forall q :: 0 < q < |r| ==> r[q] == s[q - 1];
  }

  /** An element put in front of the insertion result behind it: it precedes in
      tag order everything it equals there. */
  lemma HeadKeepsTagOrder<X>(h: (X, nat), x: (X, nat), rest: seq<(X, nat)>, t: seq<(X, nat)>, cmp: Comparator<X>)
    requires TagOrderWhenEqual(t, cmp)
    requires multiset(t) == multiset(rest) + multiset{x}
    requires h.1 < x.1
    requires forall k :: 0 <= k < |rest| && cmp(h.0, rest[k].0) == Returned(0) ==> h.1 < rest[k].1
    ensures TagOrderWhenEqual([h] + t, cmp)
  {
    var r := [h] + t;
    forall q | 0 < q < |r| && cmp(r[0].0, r[q].0) == Returned(0)
      ensures r[0].1 < r[q].1
    {
      assert r[q] == t[q - 1];
      assert t[q - 1] in multiset(t);
      if t[q - 1] != x {
        assert t[q - 1] in rest;
      }
    }
    assert forall p, q :: 0 < p < q < |r| ==> r[p] == t[p - 1] && r[q] == t[q - 1];
  }

  /** An element that goes before the head of a sorted run goes strictly before
      every element of it. */
  lemma BeforeAll<X(!new)>(x: (X, nat), s: seq<(X, nat)>, cmp: Comparator<X>)
    requires Consistent(cmp) && InOrder(s, cmp)
    requires |s| > 0 && cmp(x.0, s[0].0).value < 0
    ensures forall j :: 0 <= j < |s| ==> cmp(x.0, s[j].0).value < 0
  {
    forall j | 0 < j < |s|
      ensures cmp(x.0, s[j].0).value < 0
    {
      assert NotAfter(cmp(s[0].0, s[j].0));
    }
  }

  /** Holes last, values by a consistent comparator: the slot order `sort`
      applies is consistent too, so `SortIsStable` covers arrays with holes. */
  lemma LiftKeepsConsistent<X(!new)>(cmp: Comparator<X>)
    requires Consistent(cmp)
    ensures Consistent(LiftToSlots(cmp))
  {
    var lc := LiftToSlots(cmp);
    forall a, b
      ensures lc(a, b).Returned? && (lc(a, b).value < 0 <==> lc(b, a).value > 0)
    {
      if a.Val? && b.Val? {
        assert lc(a, b) == cmp(a.x, b.x) && lc(b, a) == cmp(b.x, a.x);
      }
    }
    forall a, b, c | NotAfter(lc(a, b)) && NotAfter(lc(b, c))
      ensures NotAfter(lc(a, c))
    {
      if a.Val? && b.Val? && c.Val? {
        assert lc(a, b) == cmp(a.x, b.x) && lc(b, c) == cmp(b.x, c.x) && lc(a, c) == cmp(a.x, c.x);
      }
    }
  }
}
