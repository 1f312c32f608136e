/** The rendered array: an array of items paired with a hidden array of view
    nodes, one `<Component {...item} key={keyFN(item)} />` per item, kept in step
    by a Proxy handler (element writes and deletes) and by wrapped prototype
    methods (push, unshift, pop, shift, reverse, splice, sort). Every mirrored
    mutation sets a dirty flag; `render()` hands out a new generation of the node
    array only when the flag is set. */
module RenderedArray {
  import opened JsValues
  import opened PropertyKeys
  import NativeArray
  import opened Sorting
  import opened Registry

  /** A view node, reduced to what the container decides: the item it was built
      from and its key, or a value `splice` put into the node array unrendered. */
  datatype Node<T, K> = Rendered(item: T, key: K) | Raw(value: T)

  datatype Container<!T, K> = Container(
    items: seq<Slot<T>>,                  // the array's elements
    itemProps: map<string, T>,            // other own properties written on the array
    nodes: seq<Slot<Node<T, K>>>,         // the hidden node array's elements
    nodeProps: map<string, Node<T, K>>,   // other own properties written on the node array
    dirty: bool,                          // the "changed" flag
    gen: nat,                             // generation of the node-array wrapper last handed out
    keyFn: T -> Outcome<K>,               // `keyFunction`; it may throw
    methods: MethodTable,                 // the wrappers on the class's prototype
    proxied: bool,                        // the `wrap` option: reached through the handler
    count: Option<int>)                   // the `count` option, passed on and never read

  /** A container after a call, and how the call completed. */
  datatype Res<!T, K, R> = Res(c: Container<T, K>, out: Outcome<R>)

  /** Everything a mutation leaves alone besides the two arrays and the flag. */
  ghost predicate SameSetup<T, K>(c: Container<T, K>, d: Container<T, K>) {
    d.keyFn == c.keyFn && d.methods == c.methods && d.proxied == c.proxied
    && d.count == c.count && d.gen == c.gen
  }

  /** A node is what the container builds for its item: rendered, with the key
      the key function gives that item. */
  ghost predicate WellRendered<T, K>(n: Node<T, K>, keyFn: T -> Outcome<K>) {
    n.Rendered? && keyFn(n.item) == Returned(n.key)
  }

  /** Node slot `n` is the rendering of item slot `s`: both holes, or the node
      is built from that very item. */
  ghost predicate Renders<T, K>(n: Slot<Node<T, K>>, s: Slot<T>, keyFn: T -> Outcome<K>) {
    match s
    case Hole => n == Hole
    case Val(x) => n.Val? && WellRendered(n.x, keyFn) && n.x.item == x
  }

  /** Equally long, and each node renders the item at its position. */
  ghost predicate RendersAll<T, K>(nodes: seq<Slot<Node<T, K>>>, items: seq<Slot<T>>, keyFn: T -> Outcome<K>) {
    |items| == |nodes| && forall i :: 0 <= i < |items| ==> Renders(nodes[i], items[i], keyFn)
  }

  /** The container's two arrays are in step. */
  ghost predicate Aligned<T, K>(c: Container<T, K>) {
    RendersAll(c.nodes, c.items, c.keyFn)
  }

  lemma ConcatRenders<T, K>(na: seq<Slot<Node<T, K>>>, ia: seq<Slot<T>>,
                            nb: seq<Slot<Node<T, K>>>, ib: seq<Slot<T>>, keyFn: T -> Outcome<K>)
    requires RendersAll(na, ia, keyFn) && RendersAll(nb, ib, keyFn)
    ensures RendersAll(na + nb, ia + ib, keyFn)
  {
    forall i | 0 <= i < |ia + ib|
      ensures Renders((na + nb)[i], (ia + ib)[i], keyFn)
    {
      if i >= |ia| {
        assert (na + nb)[i] == nb[i - |ia|] && (ia + ib)[i] == ib[i - |ia|];
      }
    }
  }

  lemma SliceRenders<T, K>(na: seq<Slot<Node<T, K>>>, ia: seq<Slot<T>>, lo: nat, hi: nat, keyFn: T -> Outcome<K>)
    requires RendersAll(na, ia, keyFn) && lo <= hi <= |ia|
    ensures RendersAll(na[lo..hi], ia[lo..hi], keyFn)
  {
    forall i | 0 <= i < hi - lo
      ensures Renders(na[lo..hi][i], ia[lo..hi][i], keyFn)
    {
      assert na[lo..hi][i] == na[lo + i] && ia[lo..hi][i] == ia[lo + i];
    }
  }

  /** Replacing the same stretch of two aligned arrays by aligned runs keeps
      them aligned. */
  lemma ReplaceRenders<T, K>(na: seq<Slot<Node<T, K>>>, ia: seq<Slot<T>>, s: nat, n: nat,
                             nb: seq<Slot<Node<T, K>>>, ib: seq<Slot<T>>, keyFn: T -> Outcome<K>)
    requires RendersAll(na, ia, keyFn) && RendersAll(nb, ib, keyFn) && s + n <= |ia|
    ensures RendersAll(na[..s] + nb + na[s + n..], ia[..s] + ib + ia[s + n..], keyFn)
  {
    SliceRenders(na, ia, 0, s, keyFn);
    SliceRenders(na, ia, s + n, |ia|, keyFn);
    assert ia[..s] == ia[0..s] && na[..s] == na[0..s];
    assert ia[s + n..] == ia[s + n..|ia|] && na[s + n..] == na[s + n..|na|];
    ConcatRenders(na[..s], ia[..s], nb, ib, keyFn);
    ConcatRenders(na[..s] + nb, ia[..s] + ib, na[s + n..], ia[s + n..], keyFn);
  }

  // ---------------------------------------------------------------------------
  // Construction

  /** The options of the `RenderedArray` factory. `Component` is left out: the
      container never calls it, it only appears inside the nodes. */
  datatype Config<!T, K> = Config(base: Base, keyFn: T -> Outcome<K>, count: Option<int>, wrap: bool)

  /** Looks the base up in the registry and instantiates its class. An
      unregistered base yields `undefined`, and `new undefined()` throws. */
  function Create<T, K>(reg: Registry, cfg: Config<T, K>): (r: Outcome<Container<T, K>>)
    ensures r.Threw? <==> cfg.base !in reg
    ensures r.Threw? ==> r.exc == TypeError
    ensures r.Returned? ==>
      && r.value.items == [] && r.value.nodes == []
      && r.value.itemProps == map[] && r.value.nodeProps == map[]
      && !r.value.dirty
      && r.value.methods == reg[cfg.base]
      && r.value.keyFn == cfg.keyFn && r.value.proxied == cfg.wrap && r.value.count == cfg.count
    ensures r.Returned? ==> Aligned(r.value)
  {
    if cfg.base !in reg then Threw(TypeError)
    else Returned(Container([], map[], [], map[], false, 0, cfg.keyFn, reg[cfg.base], cfg.wrap, cfg.count))
  }

  /** With the registry as loaded, a container on `Array` gets the default wrappers;
      on any other base construction throws. */
  lemma CreateFromInitialRegistry<T, K>(cfg: Config<T, K>)
    ensures cfg.base == ArrayBase ==>
      Create(InitialRegistry(), cfg).Returned? && Create(InitialRegistry(), cfg).value.methods == DefaultTable
    ensures cfg.base != ArrayBase ==> Create(InitialRegistry(), cfg) == Threw(TypeError)
  {
  }

  // ---------------------------------------------------------------------------
  // The Proxy handler

  /** Ordinary assignment on the items array, with no trap. Items are records, so
      assigning one to `length` is an invalid length. */
  function PlainSet<T, K>(c: Container<T, K>, name: string, v: T): (r: Res<T, K, ()>)
    ensures r.c.nodes == c.nodes && r.c.nodeProps == c.nodeProps && r.c.dirty == c.dirty
    ensures SameSetup(c, r.c)
  {
    match ArrayIndex(name)
    case Some(i) => Res(c.(items := NativeArray.WriteAt(c.items, i, v)), Returned(()))
    case None =>
      if name == "length" then Res(c, Threw(RangeError))
      else Res(c.(itemProps := c.itemProps[name := v]), Returned(()))
  }

  /** `inner[name] = node` on the node array; `name` contains a digit, so it is
      never `length`. */
  function NodeSet<T, K>(c: Container<T, K>, name: string, n: Node<T, K>): Container<T, K> {
    match ArrayIndex(name)
    case Some(i) => c.(nodes := NativeArray.WriteAt(c.nodes, i, n))
    case None => c.(nodeProps := c.nodeProps[name := n])
  }

  /** The `set` trap (`records[name] = v`), or a plain assignment on an unwrapped
      container. A name with a digit anywhere (an index, but also "-1" or "a1")
      first renders `v` into the node array and sets the flag; every name is then
      written on the items array. */
  function SetProperty<T, K>(c: Container<T, K>, name: string, v: T): (r: Res<T, K, ()>)
    ensures SameSetup(c, r.c)
    ensures !c.proxied || !ContainsDigit(name) ==>
      r.c.nodes == c.nodes && r.c.nodeProps == c.nodeProps && r.c.dirty == c.dirty
    ensures name == "length" ==> r == Res(c, Threw(RangeError))
    ensures c.proxied && ContainsDigit(name) && c.keyFn(v).Threw? ==>
      r == Res(c, Threw(c.keyFn(v).exc))
    ensures c.proxied && ContainsDigit(name) && c.keyFn(v).Returned? ==> r.c.dirty && r.out.Returned?
    ensures ArrayIndex(name).Some? && r.out.Returned? ==>
      r.c.items == NativeArray.WriteAt(c.items, ArrayIndex(name).value, v) && r.c.itemProps == c.itemProps
    ensures c.proxied && ArrayIndex(name).Some? && c.keyFn(v).Returned? ==>
      r.c.nodes == NativeArray.WriteAt(c.nodes, ArrayIndex(name).value, Rendered(v, c.keyFn(v).value))
    ensures ArrayIndex(name).None? && name != "length" && r.out.Returned? ==>
      r.c.items == c.items && r.c.itemProps == c.itemProps[name := v]
    ensures c.proxied && Aligned(c) ==> Aligned(r.c)
  {
    if c.proxied && ContainsDigit(name) then
      match c.keyFn(v)
      case Threw(e) => Res(c, Threw(e))
      case Returned(k) => PlainSet(NodeSet(c, name, Rendered(v, k)).(dirty := true), name, v)
    else PlainSet(c, name, v)
  }

  /** `records.length = n` with a number. `length` has no digit, so the trap only
      resizes the items array: the node array and the flag stay as they were. */
  function SetLengthNumber<T, K>(c: Container<T, K>, n: int): (r: Res<T, K, ()>)
    ensures 0 <= n < 0x1_0000_0000 ==>
      r.out.Returned? && r.c.items == NativeArray.SetLength(c.items, n)
    ensures !(0 <= n < 0x1_0000_0000) ==> r == Res(c, Threw(RangeError))
    ensures r.c.nodes == c.nodes && r.c.dirty == c.dirty && SameSetup(c, r.c)
  {
    LengthHasNoDigit();
    if 0 <= n < 0x1_0000_0000 then Res(c.(items := NativeArray.SetLength(c.items, n)), Returned(()))
    else Res(c, Threw(RangeError))
  }

  /** The one write the handler lets through unmirrored on a wrapped container:
      shortening `length` leaves the node array longer than the items array. */
  lemma LengthWriteDesyncs<T, K>(c: Container<T, K>, n: nat)
    requires c.proxied && |c.items| == |c.nodes| && n < |c.items| && n < 0x1_0000_0000
    ensures var r := SetLengthNumber(c, n);
      r.out.Returned? && |r.c.items| == n && |r.c.nodes| == |c.nodes| && |r.c.items| != |r.c.nodes| && r.c.dirty == c.dirty
  {
  }

  /** Ordinary `delete` on the items array, in strict-mode code: deleting
      `length` throws. */
  function PlainDelete<T, K>(c: Container<T, K>, name: string): (r: Res<T, K, ()>)
    ensures r.c.nodes == c.nodes && r.c.nodeProps == c.nodeProps && r.c.dirty == c.dirty
    ensures SameSetup(c, r.c)
  {
    match ArrayIndex(name)
    case Some(i) => Res(c.(items := NativeArray.DeleteAt(c.items, i)), Returned(()))
    case None =>
      if name == "length" then Res(c, Threw(TypeError))
      else Res(c.(itemProps := c.itemProps - {name}), Returned(()))
  }

  function NodeDelete<T, K>(c: Container<T, K>, name: string): Container<T, K> {
    match ArrayIndex(name)
    case Some(i) => c.(nodes := NativeArray.DeleteAt(c.nodes, i))
    case None => c.(nodeProps := c.nodeProps - {name})
  }

  /** The `deleteProperty` trap (`delete records[name]`). A deleted index leaves a
      hole in both arrays; neither length changes. */
  function DeleteProperty<T, K>(c: Container<T, K>, name: string): (r: Res<T, K, ()>)
    ensures SameSetup(c, r.c)
    ensures !c.proxied || !ContainsDigit(name) ==>
      r.c.nodes == c.nodes && r.c.nodeProps == c.nodeProps && r.c.dirty == c.dirty
    ensures c.proxied && ContainsDigit(name) ==> r.c.dirty && r.out.Returned?
    ensures name == "length" ==> r == Res(c, Threw(TypeError))
    ensures ArrayIndex(name).Some? ==> var i := ArrayIndex(name).value;
      && r.out.Returned?
      && |r.c.items| == |c.items|
      && (forall j :: 0 <= j < |c.items| ==> r.c.items[j] == if j == i then Hole else c.items[j])
    ensures c.proxied && ArrayIndex(name).Some? ==> var i := ArrayIndex(name).value;
      && |r.c.nodes| == |c.nodes|
      && (forall j :: 0 <= j < |c.nodes| ==> r.c.nodes[j] == if j == i then Hole else c.nodes[j])
    ensures c.proxied && Aligned(c) ==> Aligned(r.c)
  {
    if c.proxied && ContainsDigit(name) then PlainDelete(NodeDelete(c, name).(dirty := true), name)
    else PlainDelete(c, name)
  }

  // ---------------------------------------------------------------------------
  // pushLike: push and unshift

  /** How many of `xs` get a key before the key function first throws. */
  function KeyedPrefix<T, K>(keyFn: T -> Outcome<K>, xs: seq<T>): (n: nat)
    ensures n <= |xs|
    ensures forall j :: 0 <= j < n ==> keyFn(xs[j]).Returned?
    ensures n < |xs| ==> keyFn(xs[n]).Threw?
  {
    if |xs| == 0 || keyFn(xs[0]).Threw? then 0 else 1 + KeyedPrefix(keyFn, xs[1..])
  }

  /** The nodes rendered for `ys`, position by position. */
  function NodesFor<T, K>(keyFn: T -> Outcome<K>, ys: seq<T>): (r: seq<Slot<Node<T, K>>>)
    requires forall j :: 0 <= j < |ys| ==> keyFn(ys[j]).Returned?
    ensures |r| == |ys|
    ensures forall j :: 0 <= j < |ys| ==> r[j] == Val(Rendered(ys[j], keyFn(ys[j]).value))
  {
    seq(|ys|, j requires 0 <= j < |ys| => Val(Rendered(ys[j], keyFn(ys[j]).value)))
  }

  /** Which end the wrapped method adds at. */
  datatype End = Back | Front

  function AddOne<X>(end: End, s: seq<Slot<X>>, v: X): seq<Slot<X>> {
    if end == Back then NativeArray.PushOne(s, v) else NativeArray.UnshiftOne(s, v)
  }

  datatype Added<T, K> = Added(items: seq<Slot<T>>, nodes: seq<Slot<Node<T, K>>>, thrown: Option<Exc>)

  /** The loop of `pushLike`: for each item in call order, its key, then its node
      added to the node array, then the item added to the items array, each with
      a one-argument call of the native method. A throwing key function stops the
      loop with the earlier items added to both arrays and this one to neither. */
  function AddEach<T, K>(end: End, keyFn: T -> Outcome<K>, items: seq<Slot<T>>,
                         nodes: seq<Slot<Node<T, K>>>, xs: seq<T>): (r: Added<T, K>)
    ensures var n := KeyedPrefix(keyFn, xs);
      r.thrown == if n < |xs| then Some(keyFn(xs[n]).exc) else None
    decreases |xs|
  {
    if |xs| == 0 then Added(items, nodes, None)
    else match keyFn(xs[0])
      case Threw(e) => Added(items, nodes, Some(e))
      case Returned(k) =>
        AddEach(end, keyFn, AddOne(end, items, xs[0]), AddOne(end, nodes, Rendered(xs[0], k)), xs[1..])
  }

  /** Adding at the back, one at a time, appends the keyed prefix in call order. */
  lemma {:induction false} AddEachBack<T, K>(keyFn: T -> Outcome<K>, items: seq<Slot<T>>,
                                             nodes: seq<Slot<Node<T, K>>>, xs: seq<T>)
    ensures var n := KeyedPrefix(keyFn, xs);
      var r := AddEach(Back, keyFn, items, nodes, xs);
      r.items == items + Vals(xs[..n]) && r.nodes == nodes + NodesFor(keyFn, xs[..n])
    decreases |xs|
  {
    var n := KeyedPrefix(keyFn, xs);
    if |xs| > 0 && keyFn(xs[0]).Returned? {
      var k := keyFn(xs[0]).value;
      var rest := xs[1..];
      assert KeyedPrefix(keyFn, rest) == n - 1;
      var items', nodes' := items + [Val(xs[0])], nodes + [Val(Rendered(xs[0], k))];
      assert AddEach(Back, keyFn, items, nodes, xs) == AddEach(Back, keyFn, items', nodes', rest);
      AddEachBack(keyFn, items', nodes', rest);
      BackStep(keyFn, items, nodes, xs, n, AddEach(Back, keyFn, items', nodes', rest));
    } else {
      assert Vals(xs[..n]) == [];
      assert NodesFor(keyFn, xs[..n]) == [];
    }
  }

  /** One step of `AddEachBack`: the result for the rest, started from the
      arrays with `xs[0]` at the back, is the result for all of `xs`. */
  lemma BackStep<T, K>(keyFn: T -> Outcome<K>, items: seq<Slot<T>>, nodes: seq<Slot<Node<T, K>>>,
                       xs: seq<T>, n: nat, r: Added<T, K>)
    requires 0 < n <= |xs| && forall j :: 0 <= j < n ==> keyFn(xs[j]).Returned?
    requires r.items == (items + [Val(xs[0])]) + Vals(xs[1..][..n - 1])
    requires r.nodes == (nodes + [Val(Rendered(xs[0], keyFn(xs[0]).value))])
                        + NodesFor(keyFn, xs[1..][..n - 1])
    ensures r.items == items + Vals(xs[..n])
    ensures r.nodes == nodes + NodesFor(keyFn, xs[..n])
  {
    var t := xs[1..][..n - 1];
    assert xs[..n] == [xs[0]] + t;
    assert r.items == items + Vals(xs[..n]) by {
      ConcatAssoc(items, [Val(xs[0])], Vals(t));
      ValsCons(xs[0], t);
    }
    assert r.nodes == nodes + NodesFor(keyFn, xs[..n]) by {
      ConcatAssoc(nodes, [Val(Rendered(xs[0], keyFn(xs[0]).value))], NodesFor(keyFn, t));
      NodesForCons(keyFn, xs[0], t);
    }
  }

  lemma ConcatAssoc<X>(a: seq<X>, b: seq<X>, c: seq<X>)
    ensures (a + b) + c == a + (b + c)
  {
  }

  lemma ValsCons<X>(x: X, b: seq<X>)
    ensures Vals([x] + b) == [Val(x)] + Vals(b)
  {
  }

  lemma NodesForCons<T, K>(keyFn: T -> Outcome<K>, x: T, b: seq<T>)
    requires keyFn(x).Returned?
    requires forall j :: 0 <= j < |b| ==> keyFn(b[j]).Returned?
    ensures NodesFor(keyFn, [x] + b) == [Val(Rendered(x, keyFn(x).value))] + NodesFor(keyFn, b)
  {
  }

  /** Adding at the front, one at a time, prepends the keyed prefix reversed. */
  lemma {:induction false} AddEachFront<T, K>(keyFn: T -> Outcome<K>, items: seq<Slot<T>>,
                                              nodes: seq<Slot<Node<T, K>>>, xs: seq<T>)
    ensures var n := KeyedPrefix(keyFn, xs);
      var r := AddEach(Front, keyFn, items, nodes, xs);
      r.items == Vals(NativeArray.Reverse(xs[..n])) + items
      && r.nodes == NodesFor(keyFn, NativeArray.Reverse(xs[..n])) + nodes
    decreases |xs|
  {
    var n := KeyedPrefix(keyFn, xs);
    if |xs| > 0 && keyFn(xs[0]).Returned? {
      var k := keyFn(xs[0]).value;
      var rest := xs[1..];
      assert KeyedPrefix(keyFn, rest) == n - 1;
      var items', nodes' := [Val(xs[0])] + items, [Val(Rendered(xs[0], k))] + nodes;
      assert AddEach(Front, keyFn, items, nodes, xs) == AddEach(Front, keyFn, items', nodes', rest);
      AddEachFront(keyFn, items', nodes', rest);
      FrontStep(keyFn, items, nodes, xs, n, AddEach(Front, keyFn, items', nodes', rest));
    } else {
      assert Vals(NativeArray.Reverse(xs[..n])) == [];
      assert NodesFor(keyFn, NativeArray.Reverse(xs[..n])) == [];
    }
  }

  /** One step of `AddEachFront`: the result for the rest, started from the
      arrays with `xs[0]` in front, is the result for all of `xs`. */
  lemma FrontStep<T, K>(keyFn: T -> Outcome<K>, items: seq<Slot<T>>, nodes: seq<Slot<Node<T, K>>>,
                        xs: seq<T>, n: nat, r: Added<T, K>)
    requires 0 < n <= |xs| && forall j :: 0 <= j < n ==> keyFn(xs[j]).Returned?
    requires r.items == Vals(NativeArray.Reverse(xs[1..][..n - 1])) + ([Val(xs[0])] + items)
    requires r.nodes == NodesFor(keyFn, NativeArray.Reverse(xs[1..][..n - 1]))
                        + ([Val(Rendered(xs[0], keyFn(xs[0]).value))] + nodes)
    ensures r.items == Vals(NativeArray.Reverse(xs[..n])) + items
    ensures r.nodes == NodesFor(keyFn, NativeArray.Reverse(xs[..n])) + nodes
  {
    var b := NativeArray.Reverse(xs[1..][..n - 1]);
    ReversePeel(xs, n);
    ValsSnoc(b, xs[0]);
    NodesForSnoc(keyFn, b, xs[0]);
  }

  lemma ReversePeel<X>(xs: seq<X>, n: nat)
    requires 0 < n <= |xs|
    ensures NativeArray.Reverse(xs[..n]) == NativeArray.Reverse(xs[1..][..n - 1]) + [xs[0]]
  {
    assert xs[1..][..n - 1] == xs[1..n];
  }

  lemma ValsSnoc<X>(b: seq<X>, x: X)
    ensures Vals(b + [x]) == Vals(b) + [Val(x)]
  {
  }

  lemma NodesForSnoc<T, K>(keyFn: T -> Outcome<K>, b: seq<T>, x: T)
    requires forall j :: 0 <= j < |b| ==> keyFn(b[j]).Returned?
    requires keyFn(x).Returned?
    ensures NodesFor(keyFn, b + [x]) == NodesFor(keyFn, b) + [Val(Rendered(x, keyFn(x).value))]
  {
  }

  function AddAll<T, K>(c: Container<T, K>, end: End, xs: seq<T>): (r: Res<T, K, nat>)
    ensures r.c.dirty && SameSetup(c, r.c)
    ensures r.c.itemProps == c.itemProps && r.c.nodeProps == c.nodeProps
  {
    var a := AddEach(end, c.keyFn, c.items, c.nodes, xs);
    // the flag is set in `finally`, so also when the key function throws
    Res(c.(items := a.items, nodes := a.nodes, dirty := true),
        if a.thrown.Some? then Threw(a.thrown.value) else Returned(|a.items|))
  }

  /** `records.push(x1, ..., xn)`: both arrays grow at the end in call order, each
      node rendered from its item, and the new length comes back. A key function
      that throws at `xk` leaves `x1 .. x(k-1)` added. */
  function Push<T, K>(c: Container<T, K>, xs: seq<T>): (r: Res<T, K, nat>)
    ensures var n := KeyedPrefix(c.keyFn, xs);
      && r.c.items == c.items + Vals(xs[..n])
      && r.c.nodes == c.nodes + NodesFor(c.keyFn, xs[..n])
      && r.out == if n < |xs| then Threw(c.keyFn(xs[n]).exc) else Returned(|c.items| + |xs|)
    ensures r.c.dirty && SameSetup(c, r.c)
    ensures r.c.itemProps == c.itemProps && r.c.nodeProps == c.nodeProps
  {
    AddEachBack(c.keyFn, c.items, c.nodes, xs);
    AddAll(c, Back, xs)
  }

  /** `records.unshift(x1, ..., xn)`: each item goes to the front on its own, so
      the arrays begin `xn, ..., x1`, the reverse of the argument order. */
  function Unshift<T, K>(c: Container<T, K>, xs: seq<T>): (r: Res<T, K, nat>)
    ensures var n := KeyedPrefix(c.keyFn, xs);
      && r.c.items == Vals(NativeArray.Reverse(xs[..n])) + c.items
      && r.c.nodes == NodesFor(c.keyFn, NativeArray.Reverse(xs[..n])) + c.nodes
      && r.out == if n < |xs| then Threw(c.keyFn(xs[n]).exc) else Returned(|c.items| + |xs|)
    ensures r.c.dirty && SameSetup(c, r.c)
    ensures r.c.itemProps == c.itemProps && r.c.nodeProps == c.nodeProps
  {
    AddEachFront(c.keyFn, c.items, c.nodes, xs);
    AddAll(c, Front, xs)
  }

  /** The nodes rendered for `ys` render the items made of `ys`. */
  lemma FreshNodesRender<T, K>(keyFn: T -> Outcome<K>, ys: seq<T>)
    requires forall j :: 0 <= j < |ys| ==> keyFn(ys[j]).Returned?
    ensures RendersAll(NodesFor(keyFn, ys), Vals(ys), keyFn)
  {
  }

  /** The node added for each pushed item renders that item. */
  lemma PushKeepsAligned<T, K>(c: Container<T, K>, xs: seq<T>)
    requires Aligned(c)
    ensures Aligned(Push(c, xs).c)
  {
    var n := KeyedPrefix(c.keyFn, xs);
    FreshNodesRender(c.keyFn, xs[..n]);
    ConcatRenders(c.nodes, c.items, NodesFor(c.keyFn, xs[..n]), Vals(xs[..n]), c.keyFn);
  }

  lemma UnshiftKeepsAligned<T, K>(c: Container<T, K>, xs: seq<T>)
    requires Aligned(c)
    ensures Aligned(Unshift(c, xs).c)
  {
    var n := KeyedPrefix(c.keyFn, xs);
    var b := NativeArray.Reverse(xs[..n]);
    FreshNodesRender(c.keyFn, b);
    ConcatRenders(NodesFor(c.keyFn, b), Vals(b), c.nodes, c.items, c.keyFn);
  }

  // ---------------------------------------------------------------------------
  // spliceLike: pop, shift, reverse, splice — the same arguments, node array first

  /** `records.pop()`: the last slot goes from both arrays; the item's slot comes back. */
  function Pop<T, K>(c: Container<T, K>): (r: Res<T, K, Slot<T>>)
    ensures |c.items| > 0 ==> r.c.items == c.items[..|c.items| - 1] && r.out == Returned(c.items[|c.items| - 1])
    ensures |c.items| == 0 ==> r.c.items == c.items && r.out == Returned(Hole)
    ensures |c.nodes| > 0 ==> r.c.nodes == c.nodes[..|c.nodes| - 1]
    ensures |c.nodes| == 0 ==> r.c.nodes == c.nodes
    ensures r.c.dirty && SameSetup(c, r.c)
    ensures r.c.itemProps == c.itemProps && r.c.nodeProps == c.nodeProps
    ensures |c.items| == |c.nodes| ==> |r.c.items| == |r.c.nodes|
    ensures Aligned(c) ==> Aligned(r.c)
  {
    var nodes := NativeArray.Pop(c.nodes).rest;
    var popped := NativeArray.Pop(c.items);
    Res(c.(nodes := nodes, items := popped.rest, dirty := true), Returned(popped.elem))
  }

  /** `records.shift()`: the first slot goes from both arrays and the rest move
      down; the item's slot comes back. */
  function Shift<T, K>(c: Container<T, K>): (r: Res<T, K, Slot<T>>)
    ensures |c.items| > 0 ==> r.c.items == c.items[1..] && r.out == Returned(c.items[0])
    ensures |c.items| == 0 ==> r.c.items == c.items && r.out == Returned(Hole)
    ensures |c.nodes| > 0 ==> r.c.nodes == c.nodes[1..]
    ensures |c.nodes| == 0 ==> r.c.nodes == c.nodes
    ensures r.c.dirty && SameSetup(c, r.c)
    ensures r.c.itemProps == c.itemProps && r.c.nodeProps == c.nodeProps
    ensures |c.items| == |c.nodes| ==> |r.c.items| == |r.c.nodes|
    ensures Aligned(c) ==> Aligned(r.c)
  {
    var nodes := NativeArray.Shift(c.nodes).rest;
    var shifted := NativeArray.Shift(c.items);
    assert |c.items| == |c.nodes| && |c.items| > 0 ==>
      forall i :: 0 <= i < |c.items| - 1 ==> c.items[1..][i] == c.items[i + 1] && c.nodes[1..][i] == c.nodes[i + 1];
    Res(c.(nodes := nodes, items := shifted.rest, dirty := true), Returned(shifted.elem))
  }

  /** `records.reverse()`: both arrays reversed in place; the array itself comes back. */
  function Reverse<T, K>(c: Container<T, K>): (r: Res<T, K, ()>)
    ensures |r.c.items| == |c.items| && |r.c.nodes| == |c.nodes|
    ensures forall i :: 0 <= i < |c.items| ==> r.c.items[i] == c.items[|c.items| - 1 - i]
    ensures forall i :: 0 <= i < |c.nodes| ==> r.c.nodes[i] == c.nodes[|c.nodes| - 1 - i]
    ensures r.out.Returned?
    ensures r.c.dirty && SameSetup(c, r.c)
    ensures r.c.itemProps == c.itemProps && r.c.nodeProps == c.nodeProps
    ensures Aligned(c) ==> Aligned(r.c)
  {
    Res(c.(nodes := NativeArray.Reverse(c.nodes), items := NativeArray.Reverse(c.items), dirty := true), Returned(()))
  }

  /** `records.splice(...args)`: the node array receives the very same arguments,
      so the values inserted there are the raw items, not nodes rendered from
      them. The removed item slots come back. */
  function Splice<T, K>(c: Container<T, K>, args: NativeArray.SpliceArgs<T>): (r: Res<T, K, seq<Slot<T>>>)
    ensures var s, n := NativeArray.SpliceStart(args, |c.items|), NativeArray.SpliceCount(args, |c.items|);
      && r.c.items == c.items[..s] + Vals(args.Inserted()) + c.items[s + n..]
      && r.out == Returned(c.items[s..s + n])
    ensures var s, n := NativeArray.SpliceStart(args, |c.nodes|), NativeArray.SpliceCount(args, |c.nodes|);
      r.c.nodes == c.nodes[..s] + Vals(RawNodes<T, K>(args.Inserted())) + c.nodes[s + n..]
    ensures r.c.dirty && SameSetup(c, r.c)
    ensures r.c.itemProps == c.itemProps && r.c.nodeProps == c.nodeProps
  {
    var toRaw: T -> Node<T, K> := (x: T) => Raw(x);
    var raw := args.MapInserted(toRaw);
    NativeArray.SpliceBoundsIgnoreInserted(args, toRaw, |c.nodes|);
    assert raw.Inserted() == RawNodes(args.Inserted());
    var nodes := NativeArray.Splice(c.nodes, raw).rest;
    var spliced := NativeArray.Splice(c.items, args);
    Res(c.(nodes := nodes, items := spliced.rest, dirty := true), Returned(spliced.removed))
  }

  /** The inserted values as the node array holds them: unrendered. */
  function RawNodes<T, K>(xs: seq<T>): (r: seq<Node<T, K>>)
    ensures |r| == |xs|
    ensures forall j :: 0 <= j < |xs| ==> r[j] == Raw(xs[j])
  {
    seq(|xs|, j requires 0 <= j < |xs| => Raw(xs[j]))
  }

  /** A `splice` that inserts nothing keeps every node beside its item; both
      arrays lose the same stretch. */
  lemma SpliceKeepsAligned<T, K>(c: Container<T, K>, args: NativeArray.SpliceArgs<T>)
    requires Aligned(c) && args.Inserted() == []
    ensures Aligned(Splice(c, args).c)
  {
    var r := Splice(c, args).c;
    var s, n := NativeArray.SpliceStart(args, |c.items|), NativeArray.SpliceCount(args, |c.items|);
    assert Vals(args.Inserted()) == [] && Vals(RawNodes<T, K>(args.Inserted())) == [];
    ReplaceRenders(c.nodes, c.items, s, n, [], [], c.keyFn);
    assert r.items == c.items[..s] + [] + c.items[s + n..];
    assert r.nodes == c.nodes[..s] + [] + c.nodes[s + n..];
  }

  // ---------------------------------------------------------------------------
  // sortLike: sort

  /** The caller's callback. The source passes it straight to the items' sort, which
      calls it with two items; the result is the number the engine reads. */
  type Callback<!T> = (Arg<T>, Arg<T>) -> Outcome<int>

  /** `rendered.props` of a node: the props the node was built with, which carry
      the item; a raw value has no `props`. */
  function PropsOf<T, K>(n: Node<T, K>): Arg<T> {
    match n
    case Rendered(item, _) => Obj(item)
    case Raw(_) => Undefined
  }

  /** The comparator the items are sorted with: the callback itself. */
  function ItemComparator<T>(cb: Callback<T>): Comparator<T> {
    (a: T, b: T) => cb(Obj(a), Obj(b))
  }

  /** The comparator the nodes are sorted with:
      `(rendered) => callback(rendered.props)`, so the second node is dropped and
      the callback sees `undefined` in its place. */
  function NodeComparator<T, K>(cb: Callback<T>): Comparator<Node<T, K>> {
    (a: Node<T, K>, b: Node<T, K>) => cb(PropsOf(a), Undefined)
  }

  /** `records.sort(callback)`: the node array is sorted first; if that throws the
      items are not touched. Both sorts permute their array in place; the two
      orders need not agree. The flag is set however the call ends. */
  function Sort<T, K>(c: Container<T, K>, cb: Callback<T>): (r: Res<T, K, ()>)
    ensures |r.c.items| == |c.items| && multiset(r.c.items) == multiset(c.items)
    ensures |r.c.nodes| == |c.nodes| && multiset(r.c.nodes) == multiset(c.nodes)
    ensures SortSlots(c.nodes, NodeComparator(cb)).Threw? ==>
      r.c.items == c.items && r.c.nodes == c.nodes && r.out == Threw(SortSlots(c.nodes, NodeComparator(cb)).exc)
    ensures SortSlots(c.nodes, NodeComparator(cb)).Returned? ==>
      r.c.nodes == SortSlots(c.nodes, NodeComparator(cb)).value
    ensures r.out.Returned? ==> SortSlots(c.items, ItemComparator(cb)) == Returned(r.c.items)
    ensures SortSlots(c.nodes, NodeComparator(cb)).Returned? && SortSlots(c.items, ItemComparator(cb)).Threw? ==>
      r.c.items == c.items && r.out == Threw(SortSlots(c.items, ItemComparator(cb)).exc)
    ensures SortSlots(c.nodes, NodeComparator(cb)).Returned? && SortSlots(c.items, ItemComparator(cb)).Returned? ==>
      r.out.Returned? && r.c.items == SortSlots(c.items, ItemComparator(cb)).value
    ensures r.c.dirty && SameSetup(c, r.c)
    ensures r.c.itemProps == c.itemProps && r.c.nodeProps == c.nodeProps
  {
    match SortSlots(c.nodes, NodeComparator(cb))
    case Threw(e) => Res(c.(dirty := true), Threw(e))
    case Returned(ns) =>
      match SortSlots(c.items, ItemComparator(cb))
      case Threw(e) => Res(c.(nodes := ns, dirty := true), Threw(e))
      case Returned(xs) => Res(c.(nodes := ns, items := xs, dirty := true), Returned(()))
  }

  /** When the node sort completes and the callback on items is total and
      antisymmetric, the call returns, with every hole last and the values in
      the callback's order. */
  lemma SortOrdersItems<T(!new), K>(c: Container<T, K>, cb: Callback<T>)
    requires Total(ItemComparator(cb)) && Antisymmetric(ItemComparator(cb))
    requires SortSlots(c.nodes, NodeComparator(cb)).Returned?
    ensures Sort(c, cb).out.Returned?
    ensures var s := Sort(c, cb).c.items;
      && (forall i, j :: 0 <= i < j < |s| && s[i].Hole? ==> s[j].Hole?)
      && (forall i :: 0 < i < |s| && s[i - 1].Val? && s[i].Val? ==>
            NotAfter(cb(Obj(s[i - 1].x), Obj(s[i].x))))
  {
    SortSlotsOrders(c.items, ItemComparator(cb));
  }

  // ---------------------------------------------------------------------------
  // render

  /** What `render()` hands out: the generation of the node-array wrapper. */
  datatype Rendering<!T, K> = Rendering(c: Container<T, K>, gen: nat)

  /** `records.render()`: a clean container hands out the generation it handed out
      last; a dirty one toggles to a generation never handed out before, stores it
      and clears the flag. The nodes themselves are not recomputed. */
  function Render<T, K>(c: Container<T, K>): (r: Rendering<T, K>)
    ensures !c.dirty ==> r.c == c && r.gen == c.gen
    ensures c.dirty ==> r.gen > c.gen
    ensures r.gen == r.c.gen && !r.c.dirty
    ensures r.c == c.(dirty := false, gen := r.gen)
  {
    if c.dirty then Rendering(c.(dirty := false, gen := c.gen + 1), c.gen + 1) else Rendering(c, c.gen)
  }

  /** Rendering again without a mutation in between returns the same generation. */
  lemma RenderTwiceSameGeneration<T, K>(c: Container<T, K>)
    ensures Render(Render(c).c) == Render(c)
  {
  }

  // ---------------------------------------------------------------------------
  // Method dispatch through the class's prototype

  /** A call of one of the array methods the default registration wraps. */
  datatype Call<!T> =
    | PushCall(xs: seq<T>)
    | UnshiftCall(xs: seq<T>)
    | PopCall
    | ShiftCall
    | ReverseCall
    | SpliceCall(args: NativeArray.SpliceArgs<T>)
    | SortCall(cb: Callback<T>)
  {
    function Name(): string {
      match this
      case PushCall(_) => "push"
      case UnshiftCall(_) => "unshift"
      case PopCall => "pop"
      case ShiftCall => "shift"
      case ReverseCall => "reverse"
      case SpliceCall(_) => "splice"
      case SortCall(_) => "sort"
    }
  }

  /** What the methods return: a length, an element, the removed slots, or the array. */
  datatype Returns<T> = Length(n: nat) | Element(e: Slot<T>) | Removed(slots: seq<Slot<T>>) | Itself

  function MapOut<R, S>(o: Outcome<R>, f: R -> S): Outcome<S> {
    match o
    case Returned(v) => Returned(f(v))
    case Threw(e) => Threw(e)
  }

  /** The wrapped method `call` runs when its class lists it. */
  function Mirrored<T, K>(c: Container<T, K>, call: Call<T>): (r: Res<T, K, Returns<T>>)
    ensures r.c.dirty && SameSetup(c, r.c)
  {
    match call
    case PushCall(xs) => var r := Push(c, xs); Res(r.c, MapOut(r.out, (n: nat) => Length(n)))
    case UnshiftCall(xs) => var r := Unshift(c, xs); Res(r.c, MapOut(r.out, (n: nat) => Length(n)))
    case PopCall => var r := Pop(c); Res(r.c, MapOut(r.out, (e: Slot<T>) => Element(e)))
    case ShiftCall => var r := Shift(c); Res(r.c, MapOut(r.out, (e: Slot<T>) => Element(e)))
    case ReverseCall => var r := Reverse(c); Res(r.c, Returned(Itself))
    case SpliceCall(args) => var r := Splice(c, args); Res(r.c, MapOut(r.out, (s: seq<Slot<T>>) => Removed(s)))
    case SortCall(cb) => var r := Sort(c, cb); Res(r.c, MapOut(r.out, (_: ()) => Itself))
  }

  /** The built-in method `call` runs when its class does not list it: it changes
      the items array only, native `unshift` keeping its arguments in order. */
  function Unmirrored<T, K>(c: Container<T, K>, call: Call<T>): (r: Res<T, K, Returns<T>>)
    ensures r.c.nodes == c.nodes && r.c.nodeProps == c.nodeProps && r.c.dirty == c.dirty
    ensures SameSetup(c, r.c)
  {
    match call
    case PushCall(xs) => Res(c.(items := c.items + Vals(xs)), Returned(Length(|c.items| + |xs|)))
    case UnshiftCall(xs) => Res(c.(items := Vals(xs) + c.items), Returned(Length(|c.items| + |xs|)))
    case PopCall => var p := NativeArray.Pop(c.items); Res(c.(items := p.rest), Returned(Element(p.elem)))
    case ShiftCall => var p := NativeArray.Shift(c.items); Res(c.(items := p.rest), Returned(Element(p.elem)))
    case ReverseCall => Res(c.(items := NativeArray.Reverse(c.items)), Returned(Itself))
    case SpliceCall(args) =>
      var s := NativeArray.Splice(c.items, args); Res(c.(items := s.rest), Returned(Removed(s.removed)))
    case SortCall(cb) =>
      match SortSlots(c.items, ItemComparator(cb))
      case Threw(e) => Res(c, Threw(e))
      case Returned(xs) => Res(c.(items := xs), Returned(Itself))
  }

  /** The creator the default registration wraps `call`'s method with. */
  function DefaultCreator<T>(call: Call<T>): Creator {
    match call
    case PushCall(_) => PushLike
    case UnshiftCall(_) => PushLike
    case SortCall(_) => SortLike
    case _ => SpliceLike
  }

  /** `records.<method>(...)`: the prototype decides whether the call is mirrored. */
  function Invoke<T, K>(c: Container<T, K>, call: Call<T>): (r: Res<T, K, Returns<T>>)
    requires call.Name() in c.methods ==> c.methods[call.Name()] == DefaultCreator(call)
    ensures call.Name() in c.methods ==> r.c.dirty
    ensures call.Name() !in c.methods ==>
      r.c.nodes == c.nodes && r.c.nodeProps == c.nodeProps && r.c.dirty == c.dirty
    ensures SameSetup(c, r.c)
  {
    if call.Name() in c.methods then Mirrored(c, call) else Unmirrored(c, call)
  }

  /** Every method call on a container built on `Array` from the registry as
      loaded is mirrored, and sets the flag. */
  lemma DefaultCallsMirrored<T, K>(cfg: Config<T, K>, call: Call<T>)
    requires cfg.base == ArrayBase
    ensures var c := Create(InitialRegistry(), cfg).value;
      call.Name() in c.methods && c.methods[call.Name()] == DefaultCreator(call)
      && Invoke(c, call).c.dirty
  {
    CreateFromInitialRegistry(cfg);
    DefaultTableWraps(call);
  }

  /** The default table wraps each method with the creator `DefaultCreator` names. */
  lemma DefaultTableWraps<T>(call: Call<T>)
    ensures call.Name() in DefaultTable && DefaultTable[call.Name()] == DefaultCreator(call)
  {
    match call
    case PushCall(_) => assert DefaultTable["push"] == PushLike;
    case UnshiftCall(_) => assert DefaultTable["unshift"] == PushLike;
    case PopCall => assert DefaultTable["pop"] == SpliceLike;
    case ShiftCall => assert DefaultTable["shift"] == SpliceLike;
    case ReverseCall => assert DefaultTable["reverse"] == SpliceLike;
    case SpliceCall(_) => assert DefaultTable["splice"] == SpliceLike;
    case SortCall(_) => assert DefaultTable["sort"] == SortLike;
  }

  /** A method left out of the class's table desynchronises the arrays: after
      re-registering `Array` without `push`, a push grows the items alone. */
  lemma UnlistedPushDesyncs<T, K>(keyFn: T -> Outcome<K>, x: T)
    ensures var reg := Register(InitialRegistry(), ArrayBase, [("pushLike", ["unshift"])]);
      && reg.Returned?
      && var c := Create(reg.value, Config(ArrayBase, keyFn, None, true)).value;
      && "push" !in c.methods
      && var r := Invoke(c, PushCall([x]));
      |r.c.items| == 1 && |r.c.nodes| == 0 && !r.c.dirty
  {
    var opts: Options := [("pushLike", ["unshift"])];
    assert KnownCreators(opts) by {
      assert CreatorNamed(opts[0].0) == Some(PushLike);
    }
    var reg := Register(InitialRegistry(), ArrayBase, opts);
    assert !Listed(opts, "push") by {
      assert opts[0].1 == ["unshift"];
    }
  }

  // ---------------------------------------------------------------------------
  // Sequences of operations

  /** One step a caller can take: an element write or delete through the handler,
      a wrapped method call, or a render. */
  datatype Op<!T> =
    | SetOp(name: string, v: T)
    | DeleteOp(name: string)
    | PushOp(xs: seq<T>)
    | UnshiftOp(xs: seq<T>)
    | PopOp
    | ShiftOp
    | ReverseOp
    | SpliceOp(args: NativeArray.SpliceArgs<T>)
    | SortOp(cb: Callback<T>)
    | RenderOp

  function Step<T, K>(c: Container<T, K>, op: Op<T>): Container<T, K> {
    match op
    case SetOp(name, v) => SetProperty(c, name, v).c
    case DeleteOp(name) => DeleteProperty(c, name).c
    case PushOp(xs) => Push(c, xs).c
    case UnshiftOp(xs) => Unshift(c, xs).c
    case PopOp => Pop(c).c
    case ShiftOp => Shift(c).c
    case ReverseOp => Reverse(c).c
    case SpliceOp(args) => Splice(c, args).c
    case SortOp(cb) => Sort(c, cb).c
    case RenderOp => Render(c).c
  }

  function Run<T, K>(c: Container<T, K>, ops: seq<Op<T>>): Container<T, K>
    decreases |ops|
  {
    if |ops| == 0 then c else Run(Step(c, ops[0]), ops[1..])
  }

  /** One step keeps a wrapped container's arrays equally long. */
  lemma StepKeepsLengths<T, K>(c: Container<T, K>, op: Op<T>)
    requires c.proxied && |c.items| == |c.nodes|
    ensures Step(c, op).proxied && |Step(c, op).items| == |Step(c, op).nodes|
  {
    match op
    case SetOp(name, v) =>
      if ArrayIndex(name).Some? && c.keyFn(v).Returned? {
        assert ContainsDigit(name);
      }
    case _ =>
  }

  /** Any sequence of element writes and deletes, method calls and renders keeps
      the two arrays of a wrapped container equally long. */
  lemma {:induction false} RunKeepsLengths<T, K>(c: Container<T, K>, ops: seq<Op<T>>)
    requires c.proxied && |c.items| == |c.nodes|
    ensures |Run(c, ops).items| == |Run(c, ops).nodes|
    decreases |ops|
  {
    if |ops| > 0 {
      StepKeepsLengths(c, ops[0]);
      RunKeepsLengths(Step(c, ops[0]), ops[1..]);
    }
  }

  /** The operations that keep every node rendered from the item beside it: all
      but `sort` and a `splice` that inserts. */
  predicate KeepsAlignment<T>(op: Op<T>) {
    !op.SortOp? && !(op.SpliceOp? && op.args.Inserted() != [])
  }

  /** One such step keeps every node beside the item it renders. */
  lemma StepKeepsAligned<T, K>(c: Container<T, K>, op: Op<T>)
    requires c.proxied && Aligned(c) && KeepsAlignment(op)
    ensures Step(c, op).proxied && Aligned(Step(c, op))
  {
    match op
    case PushOp(xs) => PushKeepsAligned(c, xs);
    case UnshiftOp(xs) => UnshiftKeepsAligned(c, xs);
    case SpliceOp(args) => SpliceKeepsAligned(c, args);
    case _ =>
  }

  /** Writes, deletes, pushes, unshifts, pops, shifts, reverses, splices that
      insert nothing and renders, in any order, keep a wrapped container aligned. */
  lemma {:induction false} RunKeepsAligned<T, K>(c: Container<T, K>, ops: seq<Op<T>>)
    requires c.proxied && Aligned(c)
    requires forall i :: 0 <= i < |ops| ==> KeepsAlignment(ops[i])
    ensures Aligned(Run(c, ops))
    decreases |ops|
  {
    if |ops| > 0 {
      var d := Step(c, ops[0]);
      StepKeepsAligned(c, ops[0]);
      assert forall i :: 0 <= i < |ops[1..]| ==> ops[1..][i] == ops[i + 1];
      RunKeepsAligned(d, ops[1..]);
    }
  }

  /** Every mutating step leaves the container dirty, and a render right after it
      hands out a generation newer than any before it. */
  lemma MutationThenRenderIsNew<T, K>(c: Container<T, K>, op: Op<T>)
    requires !op.RenderOp? && !op.SetOp? && !op.DeleteOp?
    ensures Step(c, op).dirty
    ensures Render(Step(c, op)).gen > c.gen
  {
    assert Step(c, op).gen == c.gen;
  }

  /** An element write through the handler leaves the container dirty unless it
      throws or names no digit. */
  lemma IndexWriteThenRenderIsNew<T, K>(c: Container<T, K>, i: nat, v: T)
    requires c.proxied && i < MaxLength && c.keyFn(v).Returned?
    ensures SetProperty(c, DecimalString(i), v).c.dirty
    ensures Render(SetProperty(c, DecimalString(i), v).c).gen > c.gen
  {
    DecimalIsIndex(i);
  }
}
