/** Concrete inputs on which the wrapped methods as written part from what the
    container is for, each next to the corrected method's behaviour on the same
    input. Items are records `{id}` keyed by their `id`, so a node's props are
    the record's fields. */
module Discrepancies {
  import opened JsValues
  import NativeArray
  import opened Sorting
  import opened Registry
  import opened RenderedArray
  import opened Corrected

  /** A record with one field. */
  datatype Rec = Rec(id: int)

  /** `(record) => record.id` */
  function ById(x: Rec): Outcome<int> {
    Returned(x.id)
  }

  /** An aligned wrapped container holding `xs`, each keyed by its `id`. */
  function Holding(xs: seq<Rec>): (c: Container<Rec, int>)
    ensures Aligned(c) && c.proxied
    ensures c.items == Vals(xs)
    ensures |c.nodes| == |xs| && forall i :: 0 <= i < |xs| ==> c.nodes[i] == Val(Rendered(xs[i], xs[i].id))
  {
    Container(Vals(xs), map[], seq(|xs|, i requires 0 <= i < |xs| => Val(Rendered(xs[i], xs[i].id))),
              map[], false, 0, ById, DefaultTable, true, None)
  }

  /** `(a, b) => a.id - b.id`: reading `id` of `undefined` throws TypeError. */
  function FieldOrder(a: Arg<Rec>, b: Arg<Rec>): Outcome<int> {
    match (a, b)
    case (Obj(x), Obj(y)) => Returned(x.id - y.id)
    case _ => Threw(TypeError)
  }

  /** `(a, b) => a?.id - b?.id`: a difference with `undefined` is `NaN`, which the
      sort reads as 0. */
  function GuardedOrder(a: Arg<Rec>, b: Arg<Rec>): Outcome<int> {
    match (a, b)
    case (Obj(x), Obj(y)) => Returned(x.id - y.id)
    case _ => Returned(0)
  }

  // ---------------------------------------------------------------------------
  // sort hands the node comparator only the first node

  /** The two-element sorts below, computed step by step: inserting the second
      slot in front of the first exactly when the comparator says it goes first. */
  lemma SortTwo<X>(a: Slot<X>, b: Slot<X>, cmp: Comparator<X>)
    ensures var lc := LiftToSlots(cmp);
      lc(b, a).Threw? ==> SortSlots([a, b], cmp) == Threw(lc(b, a).exc)
    ensures var lc := LiftToSlots(cmp);
      lc(b, a).Returned? ==> SortSlots([a, b], cmp) == Returned(if lc(b, a).value < 0 then [b, a] else [a, b])
  {
    var lc := LiftToSlots(cmp);
    assert SortValues([a], lc) == Returned([a]) by {
      assert [a][..0] == [];
    }
    assert [a, b][..1] == [a];
    assert SortSlots([a, b], cmp) == Insert(b, [a], lc);
    InsertBeforeOne(b, a, lc);
  }

  /** Inserting into a one-element run asks the comparator once. */
  lemma InsertBeforeOne<X>(x: X, a: X, cmp: Comparator<X>)
    ensures cmp(x, a).Threw? ==> Insert(x, [a], cmp) == Threw(cmp(x, a).exc)
    ensures cmp(x, a).Returned? ==> Insert(x, [a], cmp) == Returned(if cmp(x, a).value < 0 then [x, a] else [a, x])
  {
    assert [a][1..] == [];
    assert [a] + [x] == [a, x];
    assert [x] + [a] == [x, a];
  }

  /** Sorting `[{id: 2}, {id: 1}]` with `(a, b) => a.id - b.id`: the node
      comparator calls it with `undefined` as `b`, which throws, so neither array
      is sorted and the exception reaches the caller. The flag is still set. */
  lemma SortThrowsOnFieldCallback()
    ensures var c := Holding([Rec(2), Rec(1)]);
      var r := Sort(c, FieldOrder);
      r.out == Threw(TypeError) && r.c.items == c.items && r.c.nodes == c.nodes && r.c.dirty
  {
    var c := Holding([Rec(2), Rec(1)]);
    var n2, n1 := Val(Rendered(Rec(2), 2)), Val(Rendered(Rec(1), 1));
    assert c.nodes == [n2, n1];
    assert PropsOf<Rec, int>(Rendered(Rec(1), 1)) == Obj(Rec(1));
    assert NodeComparator<Rec, int>(FieldOrder)(Rendered(Rec(1), 1), Rendered(Rec(2), 2)) == FieldOrder(Obj(Rec(1)), Undefined);
    assert LiftToSlots(NodeComparator<Rec, int>(FieldOrder))(n1, n2) == Threw(TypeError);
    SortTwo(n2, n1, NodeComparator<Rec, int>(FieldOrder));
  }

  /** Sorting `[{id: 2}, {id: 1}]` with `(a, b) => a?.id - b?.id`: the items become
      `[{id: 1}, {id: 2}]`, but the node comparator sees
      `callback(props, undefined)`, reads every pair as equal and leaves the nodes
      in their old order, so the first node renders the wrong item. */
  lemma SortSplitsOrders()
    ensures var r := Sort(Holding([Rec(2), Rec(1)]), GuardedOrder);
      r.out.Returned? && r.c.items == [Val(Rec(1)), Val(Rec(2))]
      && r.c.nodes == [Val(Rendered(Rec(2), 2)), Val(Rendered(Rec(1), 1))]
      && !Aligned(r.c)
  {
    var c := Holding([Rec(2), Rec(1)]);
    NodesStay();
    ItemsAscend(GuardedOrder);
    var r := Sort(c, GuardedOrder);
    assert !Renders(r.c.nodes[0], r.c.items[0], r.c.keyFn);
  }

  /** The node comparator reads the two nodes as equal and leaves them as they are. */
  lemma NodesStay()
    ensures Holding([Rec(2), Rec(1)]).nodes == [Val(Rendered(Rec(2), 2)), Val(Rendered(Rec(1), 1))]
    ensures SortSlots(Holding([Rec(2), Rec(1)]).nodes, NodeComparator(GuardedOrder))
         == Returned([Val(Rendered(Rec(2), 2)), Val(Rendered(Rec(1), 1))])
  {
    var c := Holding([Rec(2), Rec(1)]);
    var n2, n1 := Val(Rendered(Rec(2), 2)), Val(Rendered(Rec(1), 1));
    assert c.nodes == [n2, n1];
    assert PropsOf<Rec, int>(Rendered(Rec(1), 1)) == Obj(Rec(1));
    assert NodeComparator<Rec, int>(GuardedOrder)(Rendered(Rec(1), 1), Rendered(Rec(2), 2)) == GuardedOrder(Obj(Rec(1)), Undefined);
    assert LiftToSlots(NodeComparator<Rec, int>(GuardedOrder))(n1, n2) == Returned(0);
    SortTwo(n2, n1, NodeComparator<Rec, int>(GuardedOrder));
  }

  /** A callback that compares the `id`s of two records sorts the items ascending. */
  lemma ItemsAscend(cb: Callback<Rec>)
    requires cb(Obj(Rec(1)), Obj(Rec(2))) == Returned(-1)
    ensures Holding([Rec(2), Rec(1)]).items == [Val(Rec(2)), Val(Rec(1))]
    ensures SortSlots(Holding([Rec(2), Rec(1)]).items, ItemComparator(cb)) == Returned([Val(Rec(1)), Val(Rec(2))])
  {
    var c := Holding([Rec(2), Rec(1)]);
    var v2, v1 := Val(Rec(2)), Val(Rec(1));
    assert c.items == [v2, v1];
    assert LiftToSlots(ItemComparator(cb))(v1, v2) == Returned(-1);
    SortTwo(v2, v1, ItemComparator(cb));
  }

  /** The corrected sort on the same input, with either callback, sorts both
      arrays together. */
  lemma SortPairedKeepsOrdersTogether()
    ensures var r := SortPaired(Holding([Rec(2), Rec(1)]), FieldOrder);
      r.out.Returned? && r.c.items == [Val(Rec(1)), Val(Rec(2))] && Aligned(r.c)
    ensures var r := SortPaired(Holding([Rec(2), Rec(1)]), GuardedOrder);
      r.out.Returned? && r.c.items == [Val(Rec(1)), Val(Rec(2))] && Aligned(r.c)
  {
    var c := Holding([Rec(2), Rec(1)]);
    ItemsAscend(FieldOrder);
    SortPairedKeepsAligned(c, FieldOrder);
    ItemsAscend(GuardedOrder);
    SortPairedKeepsAligned(c, GuardedOrder);
  }

  // ---------------------------------------------------------------------------
  // splice inserts raw items into the node array

  /** `splice(0, 0, x)` as written: `x` goes in front of the items, and in front
      of the nodes as it is. */
  lemma InsertAtHead<T, K>(c: Container<T, K>, x: T)
    ensures var r := Splice(c, NativeArray.StartCount(0, 0, [x]));
      r.c.items == [Val(x)] + c.items && r.c.nodes == [Val(Raw(x))] + c.nodes
  {
    var args := NativeArray.StartCount(0, 0, [x]);
    assert args.Inserted() == [x];
    assert NativeArray.SpliceStart(args, |c.items|) == 0 && NativeArray.SpliceCount(args, |c.items|) == 0;
    assert NativeArray.SpliceStart(args, |c.nodes|) == 0 && NativeArray.SpliceCount(args, |c.nodes|) == 0;
    assert Vals([x]) == [Val(x)];
    assert Vals(RawNodes<T, K>([x])) == [Val(Raw(x))];
    assert c.items[..0] == [] && c.items[0..] == c.items;
    assert c.nodes[..0] == [] && c.nodes[0..] == c.nodes;
  }

  /** The corrected `splice(0, 0, x)` puts `x` in front of the items, as the
      native splice does. */
  lemma RenderedHeadItems<T, K>(c: Container<T, K>, x: T)
    requires c.keyFn(x).Returned?
    ensures SpliceRendered(c, NativeArray.StartCount(0, 0, [x])).c.items == [Val(x)] + c.items
  {
    var args := NativeArray.StartCount(0, 0, [x]);
    assert args.Inserted() == [x];
    AllKeyed(c.keyFn, args.Inserted());
    InsertAtHead(c, x);
  }

  /** The corrected `splice(0, 0, x)` puts the node rendered from `x` in front of
      the nodes. */
  lemma RenderedHeadNodes<T, K>(c: Container<T, K>, x: T)
    requires c.keyFn(x).Returned?
    ensures SpliceRendered(c, NativeArray.StartCount(0, 0, [x])).c.nodes
            == [Val(Rendered(x, c.keyFn(x).value))] + c.nodes
  {
    var args := NativeArray.StartCount(0, 0, [x]);
    var ins := args.Inserted();
    assert ins == [x];
    AllKeyed(c.keyFn, ins);
    var rendered := NodesFor(c.keyFn, ins);
    assert rendered == [Val(Rendered(x, c.keyFn(x).value))];
    var s, n := NativeArray.SpliceStart(args, |c.nodes|), NativeArray.SpliceCount(args, |c.nodes|);
    assert s == 0 && n == 0;
    assert SpliceRendered(c, args).c.nodes == c.nodes[..s] + rendered + c.nodes[s + n..];
    PrependAtZero(c.nodes, rendered);
  }

  /** Splicing `ys` in at 0, removing nothing, prepends it. */
  lemma PrependAtZero<X>(s: seq<X>, ys: seq<X>)
    ensures s[..0] + ys + s[0..] == ys + s
  {
    assert s[..0] == [] && s[0..] == s;
  }

  /** As written, `splice(0, 0, x)` puts the value `x` itself at the head of the
      node array, where a rendered node belongs: no container stays aligned,
      whatever it held and whatever `x` is. */
  lemma SpliceInsertsRaw<T, K>(c: Container<T, K>, x: T)
    ensures var r := Splice(c, NativeArray.StartCount(0, 0, [x]));
      r.c.items == [Val(x)] + c.items && r.c.nodes[0] == Val(Raw(x)) && !Aligned(r.c)
  {
    InsertAtHead(c, x);
    var r := Splice(c, NativeArray.StartCount(0, 0, [x]));
    assert r.c.items[0] == Val(x) && r.c.nodes[0] == Val(Raw(x));
    assert !Renders(r.c.nodes[0], r.c.items[0], r.c.keyFn);
  }

  /** The corrected `splice(0, 0, x)` renders `x` before inserting it, so an
      aligned container stays aligned. */
  lemma SpliceRenderedInsertsNode<T, K>(c: Container<T, K>, x: T)
    requires c.keyFn(x).Returned?
    ensures var r := SpliceRendered(c, NativeArray.StartCount(0, 0, [x]));
      && r.c.items == [Val(x)] + c.items
      && r.c.nodes == [Val(Rendered(x, c.keyFn(x).value))] + c.nodes
      && (Aligned(c) ==> Aligned(r.c))
  {
    RenderedHeadItems(c, x);
    RenderedHeadNodes(c, x);
    if Aligned(c) {
      SpliceRenderedKeepsAligned(c, NativeArray.StartCount(0, 0, [x]));
    }
  }

  // ---------------------------------------------------------------------------
  // unshift reverses its arguments

  /** `unshift({id: 1}, {id: 2})` on an empty container leaves `[{id: 2}, {id: 1}]`;
      native `unshift` and the corrected wrapper leave `[{id: 1}, {id: 2}]`. */
  lemma UnshiftReverses()
    ensures Unshift(Holding([]), [Rec(1), Rec(2)]).c.items == [Val(Rec(2)), Val(Rec(1))]
    ensures Unmirrored(Holding([]), UnshiftCall([Rec(1), Rec(2)])).c.items == [Val(Rec(1)), Val(Rec(2))]
    ensures UnshiftBatch(Holding([]), [Rec(1), Rec(2)]).c.items == [Val(Rec(1)), Val(Rec(2))]
  {
    var c := Holding([]);
    var xs := [Rec(1), Rec(2)];
    AllKeyed(ById, xs);
    assert xs[..2] == xs;
    assert NativeArray.Reverse(xs) == [Rec(2), Rec(1)];
    assert Vals([Rec(2), Rec(1)]) == [Val(Rec(2)), Val(Rec(1))];
    assert Vals(xs) == [Val(Rec(1)), Val(Rec(2))];
    assert c.items == [];
  }
}
