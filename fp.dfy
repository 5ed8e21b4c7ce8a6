/** The higher-order helpers, sequence helpers, reducers and predicates of
    the library's top-level package. Lazy iterators are modelled as finite
    sequences. */
module Fp {
  import opened PyValue

  // ---------------------------------------------------------------------
  // Higher-order functions
  // ---------------------------------------------------------------------

  /** The arguments of one call: positional arguments and keyword arguments. */
  datatype Call<A> = Call(positional: seq<A>, keywords: map<string, A>)

  /** The arguments `pp`'s inner function passes on: the call-time positional
      arguments followed by the stored ones, and the stored keywords
      overridden by the call-time keywords. */
  function PpArgs<A>(args0: seq<A>, kwargs0: map<string, A>, args1: seq<A>, kwargs1: map<string, A>): (c: Call<A>)
    ensures |c.positional| == |args1| + |args0|
    ensures c.positional[..|args1|] == args1 && c.positional[|args1|..] == args0
    ensures c.keywords.Keys == kwargs0.Keys + kwargs1.Keys
    ensures forall k :: k in kwargs1 ==> c.keywords[k] == kwargs1[k]
    ensures forall k :: k in kwargs0 && k !in kwargs1 ==> c.keywords[k] == kwargs0[k]
  {
    Call(args1 + args0, kwargs0 + kwargs1)
  }

  /** `pp(func, *args0, **kwargs0)`: a prepending partial application. */
  function Pp<A(!new), R>(func: Call<A> -> R, args0: seq<A>, kwargs0: map<string, A>): (g: (seq<A>, map<string, A>) -> R)
    ensures forall args1, kwargs1 :: g(args1, kwargs1) == func(PpArgs(args0, kwargs0, args1, kwargs1))
  {
    (args1, kwargs1) => func(PpArgs(args0, kwargs0, args1, kwargs1))
  }

  /** A two-argument function with an `op` keyword that defaults to
      subtraction; `op` names the operator ("sub" or "mul"). */
  function SubOrMul(c: Call<Value>): Value
  {
    if |c.positional| == 2 && c.positional[0].VInt? && c.positional[1].VInt? then
      var a, b := c.positional[0].i, c.positional[1].i;
      if "op" in c.keywords && c.keywords["op"] == VStr("mul") then VInt(a * b) else VInt(a - b)
    else VNone
  }

  /** A partial made with `pp` puts the stored argument after the call-time
      one, and a call-time keyword overrides the default. */
  lemma PpPrependsCallTimeArguments()
    ensures Pp(SubOrMul, [VInt(2)], map[])([VInt(6)], map[]) == VInt(4)
    ensures Pp(SubOrMul, [VInt(2)], map[])([VInt(0)], map[]) == VInt(-2)
    ensures Pp(SubOrMul, [VInt(2)], map[])([VInt(10)], map["op" := VStr("mul")]) == VInt(20)
  {
    var noKw: map<string, Value> := map[];
    assert PpArgs([VInt(2)], noKw, [VInt(6)], noKw).positional == [VInt(6), VInt(2)];
    assert PpArgs([VInt(2)], noKw, [VInt(0)], noKw).positional == [VInt(0), VInt(2)];
    assert PpArgs([VInt(2)], noKw, [VInt(10)], map["op" := VStr("mul")]).positional == [VInt(10), VInt(2)];
  }

  /** `c(f, g)`: composition. */
  function C<X(!new), Y, Z>(f: Y -> Z, g: X -> Y): (h: X -> Z)
    ensures forall x :: h(x) == f(g(x))
  {
    x => f(g(x))
  }

  lemma ComposeAssociative<W(!new), X(!new), Y, Z>(f: Y -> Z, g: X -> Y, h: W -> X, w: W)
    ensures C(C(f, g), h)(w) == C(f, C(g, h))(w)
  {
  }

  /** `const(x)`: a function that answers `x` whatever it is called with. */
  function Const<A(!new), T>(x: T): (k: Call<A> -> T)
    ensures forall c :: k(c) == x
  {
    _ => x
  }

  /** The keyword arguments `kwfunc`'s inner function passes: with a
      non-empty list of keys, only the entries whose key is listed and present
      in the dict; with no keys (None or an empty list), the whole dict. */
  function KwArgs<V>(keys: seq<string>, dct: map<string, V>): (kwargs: map<string, V>)
    ensures |keys| == 0 ==> kwargs == dct
    ensures |keys| > 0 ==> kwargs.Keys == dct.Keys * (set k | k in keys)
    ensures forall k :: k in kwargs ==> k in dct && kwargs[k] == dct[k]
  {
    if |keys| > 0 then map k | k in keys && k in dct :: dct[k] else dct
  }

  /** `kwfunc(func, keys)`: apply a dict as keyword arguments. */
  function KwFunc<V(!new), R>(func: map<string, V> -> R, keys: seq<string>): (g: map<string, V> -> R)
    ensures forall dct :: g(dct) == func(KwArgs(keys, dct))
  {
    dct => func(KwArgs(keys, dct))
  }

  /** Restricting the keyword arguments twice is restricting them once. */
  lemma KwArgsIdempotent<V>(keys: seq<string>, dct: map<string, V>)
    ensures KwArgs(keys, KwArgs(keys, dct)) == KwArgs(keys, dct)
  {
  }

  /** Only the listed keys that are present pass: `dob` is dropped and the
      missing `last` is not invented. */
  lemma KwArgsDropsUnlistedKeys()
    ensures KwArgs(["first", "last"], map["first" := "Gina", "dob" := "1981-08-13"]) == map["first" := "Gina"]
  {
    var r := KwArgs(["first", "last"], map["first" := "Gina", "dob" := "1981-08-13"]);
    assert "first" in r;
    assert r.Keys == {"first"};
  }

  // ---------------------------------------------------------------------
  // trampoline
  // ---------------------------------------------------------------------

  /** What a tail-recursive function returns to `trampoline`: a final value,
      or a zero-argument callable to call next. */
  datatype Bounce<T> = Done(result: T) | More(next: () -> Bounce<T>)

  /** The value reached after `n` calls (or earlier, when a final value comes first). */
  function Advance<T>(b: Bounce<T>, n: nat): (r: Bounce<T>)
    ensures b.Done? ==> r == b
    ensures r.More? ==> b.More?
    decreases n
  {
    if n == 0 || b.Done? then b else Advance(b.next(), n - 1)
  }

  /** The final value, if `trampoline` reaches one within `fuel` calls. */
  function Settle<T>(b: Bounce<T>, fuel: nat): (r: Option<T>)
    ensures r.Some? <==> Advance(b, fuel).Done?
    ensures r.Some? ==> Advance(b, fuel) == Done(r.value)
  {
    if Advance(b, fuel).Done? then Some(Advance(b, fuel).result) else None
  }

  lemma {:induction false} AdvanceStep<T>(b: Bounce<T>, n: nat)
    requires Advance(b, n).More?
    ensures Advance(b, n + 1) == Advance(b, n).next()
    decreases n
  {
    if n > 0 {
      AdvanceStep(b.next(), n - 1);
    }
  }

  /** Once a final value is reached, further fuel changes nothing. */
  lemma {:induction false} AdvanceDone<T>(b: Bounce<T>, n: nat, m: nat)
    requires Advance(b, n).Done? && n <= m
    ensures Advance(b, m) == Advance(b, n)
    decreases n
  {
    if n > 0 && b.More? {
      AdvanceDone(b.next(), n - 1, m - 1);
    }
  }

  /** `trampoline(f)`: keep calling while the value is callable. The loop
      stops at the first final value; `calls` is the number of calls made. */
  method Trampoline<T>(f: Bounce<T>, ghost fuel: nat) returns (r: T, calls: nat)
    requires Settle(f, fuel).Some?
    ensures Advance(f, calls) == Done(r)
    ensures calls <= fuel && Settle(f, fuel) == Some(r)
    ensures forall n :: 0 <= n < calls ==> Advance(f, n).More?
  {
    var b := f;
    calls := 0;
    while b.More?
      invariant calls <= fuel
      invariant b == Advance(f, calls)
      invariant forall n :: 0 <= n < calls ==> Advance(f, n).More?
      decreases fuel - calls
    {
      if calls == fuel {
        assert false;
      }
      AdvanceStep(f, calls);
      b := b.next();
      calls := calls + 1;
    }
    r := b.result;
    AdvanceDone(f, calls, fuel);
  }

  // ---------------------------------------------------------------------
  // Iterators, on finite sequences
  // ---------------------------------------------------------------------

  function Min(a: nat, b: nat): nat { if a <= b then a else b }

  /** `sys.maxsize` on a 64-bit build: the largest count `islice` accepts. */
  const MaxSize: nat := 0x7FFF_FFFF_FFFF_FFFF

  /** The first `n` items, or all of them when fewer. */
  function Prefix<T>(n: nat, xs: seq<T>): (r: seq<T>)
    ensures |r| == Min(n, |xs|) && r <= xs
  {
    xs[..Min(n, |xs|)]
  }

  /** What follows the first `n` items; with the prefix it rebuilds `xs`. */
  function Suffix<T>(n: nat, xs: seq<T>): (r: seq<T>)
    ensures |r| == |xs| - Min(n, |xs|)
    ensures Prefix(n, xs) + r == xs
  {
    assert xs == xs[..Min(n, |xs|)] + xs[Min(n, |xs|)..];
    xs[Min(n, |xs|)..]
  }

  /** `itake(n, xs)`, that is `islice(xs, 0, n)`: the first `n` items, or
      all of them when fewer; a count outside `[0, sys.maxsize]` raises
      ValueError. */
  function Take<T>(n: int, xs: seq<T>): (r: Outcome<seq<T>>)
    ensures r.Raises? <==> n < 0 || n > MaxSize
    ensures r.Raises? ==> r.error == ValueError
    ensures r.Returns? ==> |r.value| == Min(n, |xs|) && r.value <= xs
  {
    if n < 0 || n > MaxSize then Raises(ValueError) else Returns(Prefix(n, xs))
  }

  /** `idrop(n, xs)`, that is `islice(xs, n, None)`: what follows the first
      `n` items; a count outside `[0, sys.maxsize]` raises ValueError. */
  function Drop<T>(n: int, xs: seq<T>): (r: Outcome<seq<T>>)
    ensures r.Raises? <==> n < 0 || n > MaxSize
    ensures r.Raises? ==> r.error == ValueError
    ensures r.Returns? ==> |r.value| == |xs| - Min(n, |xs|)
    ensures r.Returns? ==> forall i :: 0 <= i < |r.value| ==> r.value[i] == xs[i + Min(n, |xs|)]
  {
    if n < 0 || n > MaxSize then Raises(ValueError) else Returns(Suffix(n, xs))
  }

  /** Taking and dropping the same count fail together, and otherwise split
      the sequence. */
  lemma TakeDropSplit<T>(n: int, xs: seq<T>)
    ensures Take(n, xs).Returns? <==> Drop(n, xs).Returns?
    ensures Take(n, xs).Returns? ==> Take(n, xs).value + Drop(n, xs).value == xs
  {
  }

  /** `isplitat(i, xs)`, materialised: the first `i` items and the rest. The
      generator calls `itake(i, ...)` when its first part is requested, so a
      count outside `[0, sys.maxsize]` raises ValueError there. */
  function SplitAt<T>(i: int, xs: seq<T>): (r: Outcome<(seq<T>, seq<T>)>)
    ensures r.Raises? <==> i < 0 || i > MaxSize
    ensures r.Raises? ==> r.error == ValueError
    ensures r.Returns? ==> r.value.0 + r.value.1 == xs && |r.value.0| == Min(i, |xs|)
  {
    match Take(i, xs)
    case Raises(e) => Raises(e)
    case Returns(first) => Returns((first, Suffix(i, xs)))
  }

  /** `ifilter(p, xs)`: the items that satisfy `p`, in their input order. */
  function Filter<T>(p: T -> bool, xs: seq<T>): (r: seq<T>)
    ensures |r| <= |xs|
    ensures forall i :: 0 <= i < |r| ==> p(r[i])
  {
    if |xs| == 0 then []
    else (if p(xs[0]) then [xs[0]] else []) + Filter(p, xs[1..])
  }

  /** The filter keeps every item that satisfies `p`, as often as it occurs,
      and nothing else. */
  lemma {:induction false} FilterCounts<T(!new)>(p: T -> bool, xs: seq<T>, x: T)
    ensures multiset(Filter(p, xs))[x] == if p(x) then multiset(xs)[x] else 0
    decreases |xs|
  {
    if |xs| > 0 {
      assert xs == [xs[0]] + xs[1..];
      FilterCounts(p, xs[1..], x);
    }
  }

  /** Filtering commutes with concatenation: the order of what is kept is the input order. */
  lemma {:induction false} FilterConcat<T>(p: T -> bool, xs: seq<T>, ys: seq<T>)
    ensures Filter(p, xs + ys) == Filter(p, xs) + Filter(p, ys)
    decreases |xs|
  {
    if |xs| == 0 {
      assert xs + ys == ys;
    } else {
      assert (xs + ys)[0] == xs[0];
      assert (xs + ys)[1..] == xs[1..] + ys;
      FilterConcat(p, xs[1..], ys);
    }
  }

  /** `coalesce(items)`: the items that are not None, in input order. */
  function Coalesce(items: seq<Value>): (r: seq<Value>)
    ensures VNone !in r
  {
    var r := Filter(v => v != VNone, items);
    assert forall i :: 0 <= i < |r| ==> r[i] != VNone;
    r
  }

  /** Coalescing keeps every non-None item as often as it occurs. */
  lemma CoalesceKeepsTheRest(items: seq<Value>, v: Value)
    requires v != VNone
    ensures multiset(Coalesce(items))[v] == multiset(items)[v]
  {
    FilterCounts(v => v != VNone, items, v);
  }

  // ---------------------------------------------------------------------
  // Reducers and predicates
  // ---------------------------------------------------------------------

  /** `allmap(f, xs)`: every item satisfies `f`. */
  function AllMap<T>(f: T -> bool, xs: seq<T>): (r: bool)
    ensures r <==> forall i :: 0 <= i < |xs| ==> f(xs[i])
  {
    if |xs| == 0 then true else f(xs[0]) && AllMap(f, xs[1..])
  }

  /** `anymap(f, xs)`: some item satisfies `f`. */
  function AnyMap<T>(f: T -> bool, xs: seq<T>): (r: bool)
    ensures r <==> exists i :: 0 <= i < |xs| && f(xs[i])
  {
    if |xs| == 0 then false
    else if f(xs[0]) then true
    else
      assert forall i :: 1 <= i < |xs| ==> xs[i] == xs[1..][i - 1];
      AnyMap(f, xs[1..])
  }

  /** Once a prefix holds an item that fails `f`, nothing after it matters. */
  lemma AllMapDecidedByPrefix<T>(f: T -> bool, prefix: seq<T>, rest: seq<T>)
    requires !AllMap(f, prefix)
    ensures !AllMap(f, prefix + rest)
  {
    var i :| 0 <= i < |prefix| && !f(prefix[i]);
    assert (prefix + rest)[i] == prefix[i];
  }

  /** Once a prefix holds an item that satisfies `f`, nothing after it matters. */
  lemma AnyMapDecidedByPrefix<T>(f: T -> bool, prefix: seq<T>, rest: seq<T>)
    requires AnyMap(f, prefix)
    ensures AnyMap(f, prefix + rest)
  {
    var i :| 0 <= i < |prefix| && f(prefix[i]);
    assert (prefix + rest)[i] == prefix[i];
  }

  /** `even(x)`: `x mod 2 == 0` (the remainder by 2 is the same under
      floored and Euclidean division), so the even numbers are exactly the
      doubles, negative ones included. */
  function Even(x: int): (r: bool)
    ensures r <==> exists k :: x == 2 * k
  {
    if x % 2 == 0 then
      assert x == 2 * (x / 2);
      true
    else false
  }

  /** `odd(x)`: `x mod 2 != 0`, so the odd numbers are exactly those one
      above a double. */
  function Odd(x: int): (r: bool)
    ensures r <==> exists k :: x == 2 * k + 1
  {
    if x % 2 != 0 then
      assert x == 2 * (x / 2) + 1;
      true
    else false
  }

  lemma OddIsNotEven(x: int)
    ensures Odd(x) == !Even(x)
  {
  }
}
