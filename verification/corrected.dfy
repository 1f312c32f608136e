/** The three wrapped methods as their purpose evidently requires: `sort` with
    both nodes' props handed to the callback, `splice` rendering the values it
    inserts into the node array, and `unshift` keeping its arguments in the
    order native `unshift` does. With these, every operation keeps each node
    beside the item it renders. */
module Corrected {
  import opened JsValues
  import NativeArray
  import opened Sorting
  import opened RenderedArray

  /** The item a node was made from. */
  function ItemOf<T, K>(n: Node<T, K>): T {
    match n
    case Rendered(item, _) => item
    case Raw(value) => value
  }

  /** A node slot's item slot. */
  function ItemSlot<T, K>(s: Slot<Node<T, K>>): Slot<T> {
    match s
    case Hole => Hole
    case Val(n) => Val(ItemOf(n))
  }

  // ---------------------------------------------------------------------------
  // sort

  /** `(a, b) => callback(a.props, b.props)`. */
  function PairedNodeComparator<T, K>(cb: Callback<T>): Comparator<Node<T, K>> {
    (a: Node<T, K>, b: Node<T, K>) => cb(PropsOf(a), PropsOf(b))
  }

  /** `sort` with the paired node comparator; otherwise as written: nodes first,
      items untouched when that throws, the flag always set. */
  function SortPaired<T, K>(c: Container<T, K>, cb: Callback<T>): (r: Res<T, K, ()>)
    ensures |r.c.items| == |c.items| && multiset(r.c.items) == multiset(c.items)
    ensures |r.c.nodes| == |c.nodes| && multiset(r.c.nodes) == multiset(c.nodes)
    ensures r.out.Returned? ==> SortSlots(c.items, ItemComparator(cb)) == Returned(r.c.items)
    ensures r.out.Threw? ==> r.c.items == c.items
    ensures r.c.dirty && SameSetup(c, r.c)
    ensures r.c.itemProps == c.itemProps && r.c.nodeProps == c.nodeProps
  {
    match SortSlots(c.nodes, PairedNodeComparator(cb))
    case Threw(e) => Res(c.(dirty := true), Threw(e))
    case Returned(ns) =>
      match SortSlots(c.items, ItemComparator(cb))
      case Threw(e) => Res(c.(nodes := ns, dirty := true), Threw(e))
      case Returned(xs) => Res(c.(nodes := ns, items := xs, dirty := true), Returned(()))
  }

  /** On an aligned container the two sorts see the same comparisons, so they
      throw together, and when they complete every node is still beside its item. */
  lemma SortPairedKeepsAligned<T, K>(c: Container<T, K>, cb: Callback<T>)
    requires Aligned(c)
    ensures SortPaired(c, cb).out.Threw? <==> SortSlots(c.items, ItemComparator(cb)).Threw?
    ensures SortPaired(c, cb).out.Threw? ==> SortPaired(c, cb).c.nodes == c.nodes
    ensures Aligned(SortPaired(c, cb).c)
  {
    var g := (s: Slot<Node<T, K>>) => ItemSlot(s);
    var P := (s: Slot<Node<T, K>>) => s.Hole? || WellRendered(s.x, c.keyFn);
    var cy := LiftToSlots(PairedNodeComparator<T, K>(cb));
    var cx := LiftToSlots(ItemComparator(cb));
    forall y | y in c.nodes
      ensures P(y)
    {
      var i :| 0 <= i < |c.nodes| && c.nodes[i] == y;
      assert Renders(c.nodes[i], c.items[i], c.keyFn);
    }
    forall a, b | P(a) && P(b)
      ensures cy(a, b) == cx(g(a), g(b))
    {
      if a.Val? && b.Val? {
        assert PropsOf(a.x) == Obj(ItemOf(a.x)) && PropsOf(b.x) == Obj(ItemOf(b.x));
      }
    }
    SortCommutes(c.nodes, g, P, cy, cx);
    assert MapSeq(g, c.nodes) == c.items by {
      forall i | 0 <= i < |c.items|
        ensures MapSeq(g, c.nodes)[i] == c.items[i]
      {
        assert Renders(c.nodes[i], c.items[i], c.keyFn);
      }
    }
    var r := SortPaired(c, cb);
    if r.out.Returned? {
      var ns := SortValues(c.nodes, cy).value;
      assert r.c.nodes == ns && r.c.items == MapSeq(g, ns);
      forall i | 0 <= i < |r.c.items|
        ensures Renders(r.c.nodes[i], r.c.items[i], c.keyFn)
      {
        assert ns[i] in ns && P(ns[i]);
      }
    }
  }

  // ---------------------------------------------------------------------------
  // splice

  /** `splice` that renders each inserted value before touching either array. A
      key function that throws leaves both arrays as they were. */
  function SpliceRendered<T, K>(c: Container<T, K>, args: NativeArray.SpliceArgs<T>): (r: Res<T, K, seq<Slot<T>>>)
    ensures var ins := args.Inserted(); var k := KeyedPrefix(c.keyFn, ins);
      k < |ins| ==> r.c.items == c.items && r.c.nodes == c.nodes && r.out == Threw(c.keyFn(ins[k]).exc)
    ensures var ins := args.Inserted(); KeyedPrefix(c.keyFn, ins) == |ins| ==>
      && r.c.items == Splice(c, args).c.items && r.out == Splice(c, args).out
      && var s, n := NativeArray.SpliceStart(args, |c.nodes|), NativeArray.SpliceCount(args, |c.nodes|);
         r.c.nodes == c.nodes[..s] + NodesFor(c.keyFn, ins) + c.nodes[s + n..]
    ensures r.c.dirty && SameSetup(c, r.c)
    ensures r.c.itemProps == c.itemProps && r.c.nodeProps == c.nodeProps
  {
    var ins := args.Inserted();
    var k := KeyedPrefix(c.keyFn, ins);
    if k < |ins| then Res(c.(dirty := true), Threw(c.keyFn(ins[k]).exc))
    else
      var s, n := NativeArray.SpliceStart(args, |c.nodes|), NativeArray.SpliceCount(args, |c.nodes|);
      var spliced := NativeArray.Splice(c.items, args);
      Res(c.(nodes := c.nodes[..s] + NodesFor(c.keyFn, ins) + c.nodes[s + n..], items := spliced.rest, dirty := true),
          Returned(spliced.removed))
  }

  lemma SpliceRenderedKeepsAligned<T, K>(c: Container<T, K>, args: NativeArray.SpliceArgs<T>)
    requires Aligned(c)
    ensures Aligned(SpliceRendered(c, args).c)
  {
    var ins := args.Inserted();
    if KeyedPrefix(c.keyFn, ins) == |ins| {
      var s, n := NativeArray.SpliceStart(args, |c.items|), NativeArray.SpliceCount(args, |c.items|);
      FreshNodesRender(c.keyFn, ins);
      ReplaceRenders(c.nodes, c.items, s, n, NodesFor(c.keyFn, ins), Vals(ins), c.keyFn);
    }
  }

  // ---------------------------------------------------------------------------
  // unshift

  /** `unshift` that keys every argument first, then prepends them all at once.
      A key function that throws leaves both arrays as they were. */
  function UnshiftBatch<T, K>(c: Container<T, K>, xs: seq<T>): (r: Res<T, K, nat>)
    ensures var k := KeyedPrefix(c.keyFn, xs);
      k < |xs| ==> r.c.items == c.items && r.c.nodes == c.nodes && r.out == Threw(c.keyFn(xs[k]).exc)
    ensures KeyedPrefix(c.keyFn, xs) == |xs| ==>
      r.c.nodes == NodesFor(c.keyFn, xs) + c.nodes && r.out == Returned(|c.items| + |xs|)
    ensures r.out.Returned? ==> r.c.items == Unmirrored(c, UnshiftCall(xs)).c.items
    ensures r.c.dirty && SameSetup(c, r.c)
    ensures r.c.itemProps == c.itemProps && r.c.nodeProps == c.nodeProps
  {
    var k := KeyedPrefix(c.keyFn, xs);
    if k < |xs| then Res(c.(dirty := true), Threw(c.keyFn(xs[k]).exc))
    else Res(c.(items := Vals(xs) + c.items, nodes := NodesFor(c.keyFn, xs) + c.nodes, dirty := true),
             Returned(|c.items| + |xs|))
  }

  lemma UnshiftBatchKeepsAligned<T, K>(c: Container<T, K>, xs: seq<T>)
    requires Aligned(c)
    ensures Aligned(UnshiftBatch(c, xs).c)
  {
    if KeyedPrefix(c.keyFn, xs) == |xs| {
      FreshNodesRender(c.keyFn, xs);
      ConcatRenders(NodesFor(c.keyFn, xs), Vals(xs), c.nodes, c.items, c.keyFn);
    }
  }

  /** When every key is computed, the written `unshift` leaves the arrays and
      the result the corrected one gives for the arguments reversed. */
  lemma UnshiftIsBatchOfReversed<T, K>(c: Container<T, K>, xs: seq<T>)
    requires KeyedPrefix(c.keyFn, xs) == |xs|
    ensures KeyedPrefix(c.keyFn, NativeArray.Reverse(xs)) == |xs|
    ensures var a, b := Unshift(c, xs), UnshiftBatch(c, NativeArray.Reverse(xs));
      a.c.items == b.c.items && a.c.nodes == b.c.nodes && a.out == b.out
  {
    var bw := NativeArray.Reverse(xs);
    AllKeyed(c.keyFn, bw);
    var n := KeyedPrefix(c.keyFn, xs);
    assert xs[..n] == xs;
    var a := Unshift(c, xs);
    var b := UnshiftBatch(c, bw);
    assert a.out.Returned? && b.out.Returned? && a.out.value == b.out.value;
  }

  /** Every element gets a key exactly when the key function returns on each. */
  lemma {:induction false} AllKeyed<T, K>(keyFn: T -> Outcome<K>, xs: seq<T>)
    requires forall j :: 0 <= j < |xs| ==> keyFn(xs[j]).Returned?
    ensures KeyedPrefix(keyFn, xs) == |xs|
    decreases |xs|
  {
    if |xs| > 0 {
      assert forall j :: 0 <= j < |xs| - 1 ==> xs[1..][j] == xs[j + 1];
      AllKeyed(keyFn, xs[1..]);
    }
  }

  // ---------------------------------------------------------------------------
  // Sequences of operations with the corrected methods

  function StepCorrected<T, K>(c: Container<T, K>, op: Op<T>): Container<T, K> {
    match op
    case UnshiftOp(xs) => UnshiftBatch(c, xs).c
    case SpliceOp(args) => SpliceRendered(c, args).c
    case SortOp(cb) => SortPaired(c, cb).c
    case _ => Step(c, op)
  }

  function RunCorrected<T, K>(c: Container<T, K>, ops: seq<Op<T>>): Container<T, K>
    decreases |ops|
  {
    if |ops| == 0 then c else RunCorrected(StepCorrected(c, ops[0]), ops[1..])
  }

  lemma StepCorrectedKeepsAligned<T, K>(c: Container<T, K>, op: Op<T>)
    requires c.proxied && Aligned(c)
    ensures StepCorrected(c, op).proxied && Aligned(StepCorrected(c, op))
  {
    match op
    case UnshiftOp(xs) =>
      assert StepCorrected(c, op) == UnshiftBatch(c, xs).c;
      UnshiftBatchKeepsAligned(c, xs);
    case SpliceOp(args) =>
      assert StepCorrected(c, op) == SpliceRendered(c, args).c;
      SpliceRenderedKeepsAligned(c, args);
    case SortOp(cb) =>
      assert StepCorrected(c, op) == SortPaired(c, cb).c;
      SortPairedKeepsAligned(c, cb);
    case _ =>
      assert KeepsAlignment(op) && StepCorrected(c, op) == Step(c, op);
      StepKeepsAligned(c, op);
  }

  /** With the corrected methods, alignment holds after every sequence of
      operations, sorts and inserting splices included. */
  lemma {:induction false} RunCorrectedKeepsAligned<T, K>(c: Container<T, K>, ops: seq<Op<T>>)
    requires c.proxied && Aligned(c)
    ensures Aligned(RunCorrected(c, ops))
    decreases |ops|
  {
    if |ops| > 0 {
      StepCorrectedKeepsAligned(c, ops[0]);
      RunCorrectedKeepsAligned(StepCorrected(c, ops[0]), ops[1..]);
    }
  }
}
