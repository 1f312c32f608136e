/** `registerCustomArray`: a process-wide table from a base-array constructor to
    the class derived from it, whose prototype overrides the named methods with
    one of three wrappers. Registering a base again replaces its class. */
module Registry {
  import opened JsValues

  /** The three wrappers of `methodCreators`. */
  datatype Creator = PushLike | SpliceLike | SortLike

  /** A base-array constructor: the built-in `Array` or some other one. */
  datatype Base = ArrayBase | OtherBase(name: string)

  /** The prototype methods a registered class overrides, by method name. */
  type MethodTable = map<string, Creator>

  /** The `options` argument as `Object.entries` lists it: a creator name and the
      method names it wraps, in insertion order. */
  type Options = seq<(string, seq<string>)>

  type Registry = map<Base, MethodTable>

  function CreatorNamed(name: string): Option<Creator> {
    if name == "pushLike" then Some(PushLike)
    else if name == "spliceLike" then Some(SpliceLike)
    else if name == "sortLike" then Some(SortLike)
    else None
  }

  /** Every entry that lists a method names one of the three creators. */
  ghost predicate KnownCreators(options: Options) {
    forall i :: 0 <= i < |options| && |options[i].1| > 0 ==> CreatorNamed(options[i].0).Some?
  }

  ghost predicate Listed(options: Options, m: string) {
    exists i :: 0 <= i < |options| && m in options[i].1
  }

  /** The creator the last entry listing `m` names: the registration loop assigns
      the prototype entry once per listing, so the last assignment stays. */
  ghost predicate LastListedAs(options: Options, m: string, c: Creator) {
    exists i :: 0 <= i < |options| && m in options[i].1 && CreatorNamed(options[i].0) == Some(c)
      && forall j :: i < j < |options| ==> m !in options[j].1
  }

  /** The registration loop over `options`, starting from the prototype `table`.
      An entry listing no method never looks its creator up; an unknown creator
      name makes the first call throw, before the class is registered. */
  function BuildTable(options: Options, table: MethodTable): (r: Outcome<MethodTable>)
    ensures r.Returned? <==> KnownCreators(options)
    ensures r.Threw? ==> r.exc == TypeError
    ensures r.Returned? ==> forall m :: m in r.value <==> m in table || Listed(options, m)
    ensures r.Returned? ==> forall m :: m in r.value && !Listed(options, m) ==> r.value[m] == table[m]
    ensures r.Returned? ==> forall m, c :: LastListedAs(options, m, c) ==> m in r.value && r.value[m] == c
    decreases |options|
  {
    if |options| == 0 then Returned(table)
    else
      var entry := options[0];
      var rest := options[1..];
      assert forall i :: 0 < i < |options| ==> options[i] == rest[i - 1];
      if |entry.1| == 0 then
        assert forall m :: Listed(options, m) ==> Listed(rest, m);
        assert forall m, c :: LastListedAs(options, m, c) ==> LastListedAs(rest, m, c);
        BuildTable(rest, table)
      else match CreatorNamed(entry.0)
        case None => Threw(TypeError)
        case Some(c) =>
          var next := table + map m | m in entry.1 :: c;
          assert forall m :: Listed(options, m) <==> m in entry.1 || Listed(rest, m);
          LastListedSplit(options, c);
          BuildTable(rest, next)
  }

  lemma LastListedSplit(options: Options, c0: Creator)
    requires |options| > 0 && CreatorNamed(options[0].0) == Some(c0)
    ensures forall m, c :: LastListedAs(options, m, c) ==>
      LastListedAs(options[1..], m, c) || (m in options[0].1 && !Listed(options[1..], m) && c == c0)
  {
    var rest := options[1..];
    forall m, c | LastListedAs(options, m, c)
      ensures LastListedAs(rest, m, c) || (m in options[0].1 && !Listed(rest, m) && c == c0)
    {
      var i :| 0 <= i < |options| && m in options[i].1 && CreatorNamed(options[i].0) == Some(c)
        && forall j :: i < j < |options| ==> m !in options[j].1;
      if i > 0 {
        assert rest[i - 1] == options[i];
        assert forall j :: i - 1 < j < |rest| ==> rest[j] == options[j + 1];
      } else {
        assert forall j :: 0 <= j < |rest| ==> rest[j] == options[j + 1];
      }
    }
  }

  /** `registerCustomArray(Base, options)`: a fresh class whose prototype holds
      the listed wrappers, stored under `Base` with `Map.set`. When the loop
      throws, nothing is stored. */
  function Register(reg: Registry, base: Base, options: Options): (r: Outcome<Registry>)
    ensures r.Returned? <==> KnownCreators(options)
    ensures r.Returned? ==> r.value.Keys == reg.Keys + {base}
    ensures r.Returned? ==> forall b :: b in reg && b != base ==> r.value[b] == reg[b]
    ensures r.Returned? ==> forall m :: m in r.value[base] <==> Listed(options, m)
    ensures r.Returned? ==> forall m, c :: LastListedAs(options, m, c) ==> m in r.value[base] && r.value[base][m] == c
  {
    match BuildTable(options, map[])
    case Threw(e) => Threw(e)
    case Returned(t) => Returned(reg[base := t])
  }

  /** Registering the same base twice: the later registration wins, whatever the
      earlier one held. */
  lemma RegisterLastWins(reg: Registry, base: Base, first: Options, second: Options)
    requires Register(reg, base, first).Returned?
    requires Register(Register(reg, base, first).value, base, second).Returned?
    ensures Register(Register(reg, base, first).value, base, second)
         == Register(reg, base, second)
  {
    var t1 := BuildTable(first, map[]).value;
    var t2 := BuildTable(second, map[]).value;
    assert reg[base := t1][base := t2] == reg[base := t2];
  }

  /** The registration the module performs on load. */
  const DefaultOptions: Options := [
    ("pushLike", ["push", "unshift"]),
    ("spliceLike", ["pop", "shift", "reverse", "splice"]),
    ("sortLike", ["sort"])
  ]

  const DefaultTable: MethodTable := map[
    "push" := PushLike, "unshift" := PushLike,
    "pop" := SpliceLike, "shift" := SpliceLike, "reverse" := SpliceLike, "splice" := SpliceLike,
    "sort" := SortLike
  ]

  lemma DefaultCreatorsKnown()
    ensures KnownCreators(DefaultOptions)
  {
    var o := DefaultOptions;
    assert CreatorNamed(o[0].0) == Some(PushLike);
    assert CreatorNamed(o[1].0) == Some(SpliceLike);
    assert CreatorNamed(o[2].0) == Some(SortLike);
  }

  lemma DefaultListedOnly(m: string)
    ensures Listed(DefaultOptions, m) ==> m in DefaultTable
  {
  }

  lemma DefaultLastListed(m: string)
    requires m in DefaultTable
    ensures LastListedAs(DefaultOptions, m, DefaultTable[m])
  {
    var o := DefaultOptions;
    if m == "push" || m == "unshift" {
      assert m in o[0].1;
    } else if m == "sort" {
      assert m in o[2].1;
    } else {
      assert m in o[1].1;
    }
  }

  /** After loading, only `Array` is registered, and its class wraps exactly the
      seven methods of the default table. */
  lemma DefaultRegistration()
    ensures Register(map[], ArrayBase, DefaultOptions) == Returned(map[ArrayBase := DefaultTable])
  {
    DefaultCreatorsKnown();
    var r := Register(map[], ArrayBase, DefaultOptions).value;
    var t := r[ArrayBase];
    forall m | m in t
      ensures m in DefaultTable && t[m] == DefaultTable[m]
    {
      DefaultListedOnly(m);
      DefaultLastListed(m);
    }
    forall m | m in DefaultTable
      ensures m in t
    {
      DefaultLastListed(m);
    }
    assert t == DefaultTable;
    assert r == map[ArrayBase := DefaultTable];
  }

  /** The registry as it stands once the module has loaded. */
  function InitialRegistry(): (reg: Registry)
    ensures reg == map[ArrayBase := DefaultTable]
  {
    DefaultRegistration();
    Register(map[], ArrayBase, DefaultOptions).value
  }
}
