/** The built-in behaviour of an ordinary JavaScript array that the rendered
    array delegates to (`Array.prototype` methods and element assignment), on
    the array's element slots. Holes are kept where the language keeps them. */
module NativeArray {
  import opened JsValues

  /** `a[i] = v`: an index past the end grows the array, leaving holes between. */
  function WriteAt<X>(s: seq<Slot<X>>, i: nat, v: X): (r: seq<Slot<X>>)
    ensures |r| == if i < |s| then |s| else i + 1
    ensures r[i] == Val(v)
    ensures forall j :: 0 <= j < |r| && j != i ==> r[j] == if j < |s| then s[j] else Hole
  {
    if i < |s| then s[i := Val(v)] else s + Holes(i - |s|) + [Val(v)]
  }

  /** `delete a[i]`: the slot becomes a hole; the length does not change. */
  function DeleteAt<X>(s: seq<Slot<X>>, i: nat): (r: seq<Slot<X>>)
    ensures |r| == |s|
    ensures forall j :: 0 <= j < |s| ==> r[j] == if j == i then Hole else s[j]
  {
    if i < |s| then s[i := Hole] else s
  }

  /** `a.length = n`: truncates, or extends with holes. */
  function SetLength<X>(s: seq<Slot<X>>, n: nat): (r: seq<Slot<X>>)
    ensures |r| == n
    ensures forall j :: 0 <= j < n ==> r[j] == if j < |s| then s[j] else Hole
  {
    if n <= |s| then s[..n] else s + Holes(n - |s|)
  }

  /** `push(v)` with one argument. */
  function PushOne<X>(s: seq<Slot<X>>, v: X): seq<Slot<X>> {
    s + [Val(v)]
  }

  /** `unshift(v)` with one argument: every slot, holes too, moves up by one. */
  function UnshiftOne<X>(s: seq<Slot<X>>, v: X): seq<Slot<X>> {
    [Val(v)] + s
  }

  /** The array after a removing method, and the value the method returned. */
  datatype Taken<X> = Taken(rest: seq<Slot<X>>, elem: Slot<X>)

  /** `pop()`: an empty array stays empty and `undefined` comes back. */
  function Pop<X>(s: seq<Slot<X>>): (r: Taken<X>)
    ensures |s| == 0 ==> r == Taken(s, Hole)
    ensures |s| > 0 ==> r.rest == s[..|s| - 1] && r.elem == s[|s| - 1]
  {
    if |s| == 0 then Taken(s, Hole) else Taken(s[..|s| - 1], s[|s| - 1])
  }

  /** `shift()`: the remaining slots, holes too, move down by one. */
  function Shift<X>(s: seq<Slot<X>>): (r: Taken<X>)
    ensures |s| == 0 ==> r == Taken(s, Hole)
    ensures |s| > 0 ==> r.rest == s[1..] && r.elem == s[0]
  {
    if |s| == 0 then Taken(s, Hole) else Taken(s[1..], s[0])
  }

  /** `reverse()`: slot `i` trades places with slot `|s| - 1 - i`, holes included.
      Also the order in which a one-at-a-time `unshift` loop leaves its arguments. */
  function Reverse<X>(s: seq<X>): (r: seq<X>)
    ensures |r| == |s|
    ensures forall i :: 0 <= i < |s| ==> r[i] == s[|s| - 1 - i]
  {
    seq(|s|, i requires 0 <= i < |s| => s[|s| - 1 - i])
  }

  /** The argument lists `splice` distinguishes: no argument, a start alone (delete
      to the end), or a start, a delete count and the values to insert. Numbers are
      integers; fractional and infinite arguments are not modelled. */
  datatype SpliceArgs<X> =
    | NoArgs
    | StartOnly(start: int)
    | StartCount(start: int, count: int, inserted: seq<X>)
  {
    function Inserted(): seq<X> {
      if StartCount? then inserted else []
    }

    /** The same argument list with the inserted values passed through `f`. */
    function MapInserted<Y>(f: X -> Y): (r: SpliceArgs<Y>)
      ensures |r.Inserted()| == |Inserted()|
      ensures forall j :: 0 <= j < |Inserted()| ==> r.Inserted()[j] == f(Inserted()[j])
    {
      match this
      case NoArgs => NoArgs
      case StartOnly(s) => StartOnly(s)
      case StartCount(s, n, xs) => StartCount(s, n, seq(|xs|, j requires 0 <= j < |xs| => f(xs[j])))
    }
  }

  /** A relative start: negative counts back from the end; both clamp to the array. */
  function ClampStart(rel: int, len: nat): (r: nat)
    ensures r <= len
    ensures rel < 0 ==> r == if len + rel < 0 then 0 else len + rel
    ensures rel >= 0 ==> r == if rel < len then rel else len
  {
    if rel < 0 then (if len + rel < 0 then 0 else len + rel)
    else if rel < len then rel else len
  }

  /** Where `splice` starts for an array of length `len`; an absent start reads as 0. */
  function SpliceStart<X>(args: SpliceArgs<X>, len: nat): (r: nat)
    ensures r <= len
  {
    match args
    case NoArgs => 0
    case StartOnly(s) => ClampStart(s, len)
    case StartCount(s, _, _) => ClampStart(s, len)
  }

  /** How many slots `splice` removes: none without arguments, the whole tail with a
      start alone, otherwise the count clamped to what is left. */
  function SpliceCount<X>(args: SpliceArgs<X>, len: nat): (r: nat)
    ensures SpliceStart(args, len) + r <= len
  {
    var start := SpliceStart(args, len);
    match args
    case NoArgs => 0
    case StartOnly(_) => len - start
    case StartCount(_, n, _) => if n < 0 then 0 else if n < len - start then n else len - start
  }

  /** Where `splice` starts, case by case: at 0 without arguments; at a start
      within the array as given; at a negative start counted back from the end,
      and at 0 if that passes the front; at the end if the start passes it. */
  lemma SpliceStartCases<X>(args: SpliceArgs<X>, len: nat)
    ensures var r := SpliceStart(args, len);
      && (args.NoArgs? ==> r == 0)
      && (!args.NoArgs? && 0 <= args.start <= len ==> r == args.start)
      && (!args.NoArgs? && args.start < 0 && 0 <= len + args.start ==> r == len + args.start)
      && (!args.NoArgs? && len + args.start < 0 ==> r == 0)
      && (!args.NoArgs? && args.start > len ==> r == len)
  {
  }

  /** How many slots `splice` removes, case by case: none without arguments or
      with a count of zero or less; the whole tail with a start alone; the count
      itself when it fits; what is left when it does not. */
  lemma SpliceCountCases<X>(args: SpliceArgs<X>, len: nat)
    ensures var s, r := SpliceStart(args, len), SpliceCount(args, len);
      && (args.NoArgs? ==> r == 0)
      && (args.StartOnly? ==> s + r == len)
      && (args.StartCount? && args.count <= 0 ==> r == 0)
      && (args.StartCount? && 0 <= args.count && s + args.count <= len ==> r == args.count)
      && (args.StartCount? && s + args.count > len ==> s + r == len)
  {
  }

  /** The start and count depend on the argument list's numbers only, not on the
      values it inserts. */
  lemma SpliceBoundsIgnoreInserted<X, Y>(args: SpliceArgs<X>, f: X -> Y, len: nat)
    ensures SpliceStart(args.MapInserted(f), len) == SpliceStart(args, len)
    ensures SpliceCount(args.MapInserted(f), len) == SpliceCount(args, len)
  {
  }

  /** The array after `splice`, and the removed slots it returns (holes stay holes). */
  datatype Spliced<X> = Spliced(rest: seq<Slot<X>>, removed: seq<Slot<X>>)

  function Splice<X>(s: seq<Slot<X>>, args: SpliceArgs<X>): (r: Spliced<X>)
    ensures var start, n := SpliceStart(args, |s|), SpliceCount(args, |s|);
      && r.removed == s[start..start + n]
      && r.rest == s[..start] + Vals(args.Inserted()) + s[start + n..]
      && |r.rest| == |s| - n + |args.Inserted()|
  {
    var start, n := SpliceStart(args, |s|), SpliceCount(args, |s|);
    Spliced(s[..start] + Vals(args.Inserted()) + s[start + n..], s[start..start + n])
  }

  /** `splice` loses nothing: the inserted values sit at the start, and putting
      the removed slots back in their place gives the original array. */
  lemma SpliceRestores<X>(s: seq<Slot<X>>, args: SpliceArgs<X>)
    ensures var r, start, m := Splice(s, args), SpliceStart(args, |s|), |args.Inserted()|;
      && r.rest[start..start + m] == Vals(args.Inserted())
      && s == r.rest[..start] + r.removed + r.rest[start + m..]
  {
    var r, start, n, ins := Splice(s, args), SpliceStart(args, |s|), SpliceCount(args, |s|), Vals(args.Inserted());
    assert r.rest == s[..start] + ins + s[start + n..];
    assert r.rest[..start] == s[..start];
    assert r.rest[start..start + |ins|] == ins;
    assert r.rest[start + |ins|..] == s[start + n..];
    assert s == s[..start] + s[start..start + n] + s[start + n..];
  }

  /** Arguments within the array remove exactly the stretch they name: `count`
      slots from `start`, or everything from `start` when no count is given. */
  lemma SpliceInRange<X>(s: seq<Slot<X>>, args: SpliceArgs<X>)
    ensures args.StartCount? && 0 <= args.start && 0 <= args.count && args.start + args.count <= |s| ==>
      Splice(s, args).removed == s[args.start..args.start + args.count]
    ensures args.StartOnly? && 0 <= args.start <= |s| ==> Splice(s, args).removed == s[args.start..]
  {
    SpliceStartCases(args, |s|);
    SpliceCountCases(args, |s|);
  }
}
