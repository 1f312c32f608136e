/** `createMutableContext`: a React context whose provider hands its consumers
    one object for as long as it stays mounted, merging every new value into
    that object in place instead of replacing it. Objects are an identity plus
    their own enumerable fields. */
module MutableContext {
  import JsValues

  /** An object: its identity and its own enumerable fields. */
  datatype JsObject<V> = JsObject(id: nat, fields: map<string, V>)

  /** `Object.assign(target, source)`: every own field of `source` is copied onto
      `target`, which keeps its identity and the fields `source` lacks. */
  function Assign<V>(target: JsObject<V>, source: JsObject<V>): (r: JsObject<V>)
    ensures r.id == target.id
    ensures r.fields.Keys == target.fields.Keys + source.fields.Keys
    ensures forall f :: f in source.fields ==> r.fields[f] == source.fields[f]
    ensures forall f :: f in target.fields && f !in source.fields ==> r.fields[f] == target.fields[f]
  {
    JsObject(target.id, target.fields + source.fields)
  }

  /** The provider's `useMemo` slot: empty before the first render, then the
      object memoised on it. */
  datatype Cell<V> = Unmounted | Mounted(memo: JsObject<V>)

  /** One render of the merging provider: its slot afterwards and the object it
      hands to the underlying provider. */
  datatype Provided<V> = Provided(cell: Cell<V>, handed: JsObject<V>)

  /** One render of `MutableProvider` with prop `value`. The memo has no
      dependencies, so it is the first render's value object; that object is
      then updated with the current value's fields and handed on. */
  function RenderProvider<V>(cell: Cell<V>, value: JsObject<V>): (r: Provided<V>)
    ensures r.cell == Mounted(r.handed)
    ensures r.handed.id == if cell.Mounted? then cell.memo.id else value.id
    ensures cell.Unmounted? ==> r.handed == value
    ensures forall f :: f in value.fields ==> f in r.handed.fields && r.handed.fields[f] == value.fields[f]
    ensures cell.Mounted? ==>
      forall f :: f in cell.memo.fields && f !in value.fields ==>
        f in r.handed.fields && r.handed.fields[f] == cell.memo.fields[f]
    ensures forall f :: f in r.handed.fields ==> f in value.fields || (cell.Mounted? && f in cell.memo.fields)
  {
    var memo := if cell.Mounted? then cell.memo else value;
    var merged := Assign(memo, value);
    Provided(Mounted(merged), merged)
  }

  /** The objects handed on by successive renders of a provider. */
  function RenderAll<V>(cell: Cell<V>, values: seq<JsObject<V>>): (handed: seq<JsObject<V>>)
    ensures |handed| == |values|
    decreases |values|
  {
    if |values| == 0 then []
    else
      var p := RenderProvider(cell, values[0]);
      [p.handed] + RenderAll(p.cell, values[1..])
  }

  /** The fields of the values merged left to right, later fields winning: the
      reference the provider's object is checked against. */
  function Merged<V>(values: seq<JsObject<V>>): map<string, V>
    decreases |values|
  {
    if |values| == 0 then map[] else Merged(values[..|values| - 1]) + values[|values| - 1].fields
  }

  /** After rendering `values` from the mounted state `memo`, the handed objects
      keep `memo`'s identity and carry `memo`'s fields merged with those values. */
  lemma {:induction false} RenderAllFrom<V>(memo: JsObject<V>, values: seq<JsObject<V>>, i: nat)
    requires i < |values|
    ensures RenderAll(Mounted(memo), values)[i].id == memo.id
    ensures RenderAll(Mounted(memo), values)[i].fields == memo.fields + Merged(values[..i + 1])
    decreases i
  {
    var p := RenderProvider(Mounted(memo), values[0]);
    var rest := RenderAll(p.cell, values[1..]);
    assert RenderAll(Mounted(memo), values) == [p.handed] + rest;
    if i == 0 {
      assert values[..1] == [values[0]];
      assert values[..1][..0] == [];
      assert Merged(values[..1]) == values[0].fields;
    } else {
      RenderAllFrom(p.handed, values[1..], i - 1);
      assert rest[i - 1].fields == p.handed.fields + Merged(values[1..][..i]);
      assert values[1..][..i] == values[..i + 1][1..];
      MergedCons(values[..i + 1]);
      UnionAssoc(memo.fields, values[0].fields, Merged(values[..i + 1][1..]));
    }
  }

  lemma UnionAssoc<V>(a: map<string, V>, b: map<string, V>, c: map<string, V>)
    ensures (a + b) + c == a + (b + c)
  {
  }

  /** Merging is associative with a first value peeled off. */
  lemma {:induction false} MergedCons<V>(values: seq<JsObject<V>>)
    requires |values| > 0
    ensures Merged(values) == values[0].fields + Merged(values[1..])
    decreases |values|
  {
    if |values| > 1 {
      var init := values[..|values| - 1];
      MergedCons(init);
      assert init[0] == values[0];
      assert init[1..] == values[1..][..|values[1..]| - 1];
    } else {
      assert values[..0] == [];
      assert values[1..] == [];
    }
  }

  /** While a provider stays mounted it hands on one and the same object, the
      first value object, holding every field provided so far with the latest
      value for each. */
  lemma StableAndMerged<V>(values: seq<JsObject<V>>, i: nat)
    requires i < |values|
    ensures RenderAll(Unmounted, values)[i].id == values[0].id
    ensures RenderAll(Unmounted, values)[i].fields == Merged(values[..i + 1])
  {
    var first := values[0];
    AssignSelf(first);
    assert RenderAll(Unmounted, values) == [first] + RenderAll(Mounted(first), values[1..]);
    if i == 0 {
      MergedOne(values[..1]);
    } else {
      LaterRender(values, i);
    }
  }

  /** A later render, once the first value object is stored. */
  lemma LaterRender<V>(values: seq<JsObject<V>>, i: nat)
    requires 0 < i < |values|
    ensures RenderAll(Mounted(values[0]), values[1..])[i - 1].id == values[0].id
    ensures RenderAll(Mounted(values[0]), values[1..])[i - 1].fields == Merged(values[..i + 1])
  {
    RenderAllFrom(values[0], values[1..], i - 1);
    assert values[1..][..i] == values[..i + 1][1..];
    MergedCons(values[..i + 1]);
  }

  /** Assigning an object onto itself changes nothing. */
  lemma AssignSelf<V>(o: JsObject<V>)
    ensures Assign(o, o) == o
  {
    assert o.fields + o.fields == o.fields;
  }

  lemma MergedOne<V>(values: seq<JsObject<V>>)
    requires |values| == 1
    ensures Merged(values) == values[0].fields
  {
    assert values[..0] == [];
    assert map[] + values[0].fields == values[0].fields;
  }

  /** The index of the last value that provides field `f`. */
  ghost predicate LastProvides<V>(values: seq<JsObject<V>>, f: string, j: int) {
    0 <= j < |values| && f in values[j].fields
    && forall k :: j < k < |values| ==> f !in values[k].fields
  }

  /** A field of the merged object holds the last value provided for it; a field
      no value provided is absent. */
  lemma {:induction false} MergedField<V>(values: seq<JsObject<V>>, f: string)
    ensures f in Merged(values) <==> exists j :: 0 <= j < |values| && f in values[j].fields
    ensures forall j :: LastProvides(values, f, j) ==> f in Merged(values) && Merged(values)[f] == values[j].fields[f]
    decreases |values|
  {
    if |values| > 0 {
      var init := values[..|values| - 1];
      var last := values[|values| - 1];
      MergedField(init, f);
      assert forall j :: 0 <= j < |init| ==> init[j] == values[j];
      if f !in last.fields && f in Merged(values) {
        var j :| 0 <= j < |init| && f in init[j].fields;
        assert f in values[j].fields;
      }
      forall j | LastProvides(values, f, j)
        ensures f in Merged(values) && Merged(values)[f] == values[j].fields[f]
      {
        if j < |values| - 1 {
          assert LastProvides(init, f, j);
        }
      }
    }
  }

  // ---------------------------------------------------------------------------
  // The context

  /** Which component a context's `Provider` is. */
  datatype ProviderKind = PlainProvider | MergingProvider

  /** A context: the value consumers read with no provider above them, and its
      `Provider`. */
  datatype Context<V> = Context(defaultValue: JsObject<V>, provider: ProviderKind)

  /** React's `createContext`, reduced to what the model needs. */
  function CreateContext<V>(defaultValue: JsObject<V>): Context<V> {
    Context(defaultValue, PlainProvider)
  }

  /** `createMutableContext(defaultValue)`: a context whose `Provider` is the
      merging provider bound to the original one. */
  function CreateMutableContext<V>(defaultValue: JsObject<V>): (ctx: Context<V>)
    ensures ctx.defaultValue == CreateContext(defaultValue).defaultValue
    ensures ctx.provider == MergingProvider
  {
    CreateContext(defaultValue).(provider := MergingProvider)
  }

  /** One render of the context's `Provider` with `value`: the plain provider
      hands on `value` and keeps nothing. */
  function Provide<V>(ctx: Context<V>, cell: Cell<V>, value: JsObject<V>): (r: Provided<V>)
    ensures ctx.provider == PlainProvider ==> r.handed == value && r.cell == cell
    ensures ctx.provider == MergingProvider ==> r == RenderProvider(cell, value)
  {
    match ctx.provider
    case PlainProvider => Provided(cell, value)
    case MergingProvider => RenderProvider(cell, value)
  }

  /** What a consumer reads: the object the nearest provider handed on, or the
      default value with none above it. */
  function Read<V>(ctx: Context<V>, nearest: JsValues.Option<JsObject<V>>): (v: JsObject<V>)
    ensures nearest.None? ==> v == ctx.defaultValue
    ensures nearest.Some? ==> v == nearest.value
  {
    match nearest
    case None => ctx.defaultValue
    case Some(o) => o
  }

  /** Providing `{cb: f1}` and then `{cb: f2}` through a mutable context: both
      reads see the first object, and the second sees `f2`. */
  lemma LatestCallbackSameObject<V>(d: JsObject<V>, first: JsObject<V>, second: JsObject<V>, f1: V, f2: V)
    requires first.fields == map["cb" := f1] && second.fields == map["cb" := f2]
    ensures var ctx := CreateMutableContext(d);
      var p1 := Provide(ctx, Unmounted, first);
      var p2 := Provide(ctx, p1.cell, second);
      && Read(ctx, JsValues.Some(p1.handed)).id == Read(ctx, JsValues.Some(p2.handed)).id == first.id
      && Read(ctx, JsValues.Some(p2.handed)).fields["cb"] == f2
  {
  }
}
