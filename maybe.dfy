/** The Maybe monad. In the library a Maybe wraps any value and is "just"
    exactly when that value is not None, so `Maybe(None)` is Nothing and no
    Just(None) exists. Here the two cases are explicit, `Of` is the
    None-collapsing constructor, and `Canonical` says that a Maybe of
    dynamic values holds no Just(None). */
module MaybeMonad {
  import opened PyValue

  datatype Maybe<+T> = Just(value: T) | Nothing

  /** `Maybe(v)`. */
  function Of(v: Value): (m: Maybe<Value>)
    ensures m.Just? <==> v != VNone
    ensures m.Just? ==> m.value == v
  {
    if v == VNone then Nothing else Just(v)
  }

  /** No Just(None): the only shape `Maybe(v)` can produce. */
  predicate Canonical(m: Maybe<Value>)
  {
    m.Just? ==> m.value != VNone
  }

  /** The wrapped value; None for Nothing. */
  function Wrapped(m: Maybe<Value>): (v: Value)
    ensures m.Just? ==> v == m.value
    ensures m.Nothing? ==> v == VNone
  {
    match m
    case Just(v) => v
    case Nothing => VNone
  }

  /** `Of` and `Wrapped` are inverse on canonical Maybes. */
  lemma OfWrapped(m: Maybe<Value>)
    requires Canonical(m)
    ensures Of(Wrapped(m)) == m
  {
  }

  lemma WrappedOf(v: Value)
    ensures Canonical(Of(v)) && Wrapped(Of(v)) == v
  {
  }

  /** `__eq__`: two Maybes are equal exactly when their wrapped values are. */
  lemma EqualIffWrappedEqual(a: Value, b: Value)
    ensures Of(a) == Of(b) <==> a == b
  {
    WrappedOf(a);
    WrappedOf(b);
  }

  /** `is_just`. */
  predicate IsJust<T>(m: Maybe<T>)
    ensures IsJust(m) <==> m != Nothing
  {
    m.Just?
  }

  /** `is_nothing`: `not is_just`. */
  predicate IsNothing<T>(m: Maybe<T>)
    ensures IsNothing(m) <==> m == Nothing
  {
    !IsJust(m)
  }

  /** A Maybe built from a value is just exactly when the value is not None,
      and it is nothing exactly when it is not just. */
  lemma IsJustIffNotNone(v: Value)
    ensures IsJust(Of(v)) <==> v != VNone
    ensures IsNothing(Of(v)) <==> !IsJust(Of(v))
  {
  }

  /** `from_just`: the value of a just Maybe; on Nothing it raises ValueError. */
  function FromJust<T>(m: Maybe<T>): (r: Outcome<T>)
    ensures r.Returns? <==> IsJust(m)
    ensures r.Returns? ==> m == Just(r.value)
    ensures r.Raises? ==> r.error == ValueError
  {
    match m
    case Just(v) => Returns(v)
    case Nothing => Raises(ValueError)
  }

  /** `default(d)`: the value when just, `d` when nothing. */
  function Default<T>(m: Maybe<T>, d: T): (r: T)
    ensures IsJust(m) ==> m == Just(r)
    ensures IsNothing(m) ==> r == d
  {
    if IsJust(m) then m.value else d
  }

  /** `default` agrees with `from_just` where the latter is defined, and
      ignores its argument there. */
  lemma DefaultOfJust<T>(m: Maybe<T>, d: T, e: T)
    ensures IsJust(m) ==> FromJust(m) == Returns(Default(m, d)) && Default(m, d) == Default(m, e)
    ensures IsNothing(m) ==> Default(m, d) == d
  {
  }

  /** `cat_maybes(ms)`: the values of the just elements, in input order. */
  function CatMaybes<T>(ms: seq<Maybe<T>>): (r: seq<T>)
    ensures |r| <= |ms|
    ensures forall i :: 0 <= i < |r| ==> Just(r[i]) in ms
  {
    if |ms| == 0 then []
    else
      var rest := CatMaybes(ms[1..]);
      assert forall i :: 0 <= i < |rest| ==> Just(rest[i]) in ms;
      (if IsJust(ms[0]) then [ms[0].value] else []) + rest
  }

  /** Each value appears as often as it appears wrapped in a Just. */
  lemma {:induction false} CatMaybesCounts<T(!new)>(ms: seq<Maybe<T>>, v: T)
    ensures multiset(CatMaybes(ms))[v] == multiset(ms)[Just(v)]
    decreases |ms|
  {
    if |ms| > 0 {
      assert ms == [ms[0]] + ms[1..];
      CatMaybesCounts(ms[1..], v);
    }
  }

  /** The order of the values is the order of the input. */
  lemma {:induction false} CatMaybesConcat<T>(xs: seq<Maybe<T>>, ys: seq<Maybe<T>>)
    ensures CatMaybes(xs + ys) == CatMaybes(xs) + CatMaybes(ys)
    decreases |xs|
  {
    if |xs| == 0 {
      assert xs + ys == ys;
    } else {
      assert (xs + ys)[0] == xs[0];
      assert (xs + ys)[1..] == xs[1..] + ys;
      CatMaybesConcat(xs[1..], ys);
    }
  }

  /** `map_maybes(f, xs)`: the just results of `f` over the items, in order. */
  function MapMaybes<X, T>(f: X -> Maybe<T>, xs: seq<X>): (r: seq<T>)
    ensures |r| <= |xs|
    ensures forall i :: 0 <= i < |xs| && IsJust(f(xs[i])) ==> f(xs[i]).value in r
  {
    if |xs| == 0 then []
    else
      var m := f(xs[0]);
      (if IsJust(m) then [m.value] else []) + MapMaybes(f, xs[1..])
  }

  /** `map_maybes(f, xs)` is `cat_maybes` of `f` mapped over `xs`. */
  lemma {:induction false} MapMaybesIsCatOfMap<X, T>(f: X -> Maybe<T>, xs: seq<X>)
    ensures MapMaybes(f, xs) == CatMaybes(seq(|xs|, i requires 0 <= i < |xs| => f(xs[i])))
    decreases |xs|
  {
    var mapped := seq(|xs|, i requires 0 <= i < |xs| => f(xs[i]));
    if |xs| > 0 {
      MapMaybesIsCatOfMap(f, xs[1..]);
      assert mapped[1..] == seq(|xs[1..]|, i requires 0 <= i < |xs[1..]| => f(xs[1..][i]));
    }
  }

  /** The doctest of `map_maybes`: keep the even numbers. */
  function MaybeEven(x: int): Maybe<int>
  {
    if x % 2 == 0 then Just(x) else Nothing
  }

  lemma MapMaybesKeepsEvens()
    ensures MapMaybes(MaybeEven, [1, 2, 3, 4]) == [2, 4]
  {
    var xs := [1, 2, 3, 4];
    assert MaybeEven(1) == Nothing && MaybeEven(2) == Just(2);
    assert MaybeEven(3) == Nothing && MaybeEven(4) == Just(4);
    assert xs[1..] == [2, 3, 4] && xs[1..][1..] == [3, 4] && xs[1..][1..][1..] == [4];
    assert MapMaybes(MaybeEven, xs[1..][1..]) == [4];
  }

  /** `bind(f)`: `f(value)` when just; Nothing itself otherwise, without
      calling `f` (which therefore may be undefined everywhere). */
  function Bind<T, U>(m: Maybe<T>, f: T --> Maybe<U>): (r: Maybe<U>)
    requires IsJust(m) ==> f.requires(m.value)
    ensures IsNothing(m) ==> r == Nothing
    ensures IsJust(m) ==> r == f(m.value)
  {
    match m
    case Just(v) => f(v)
    case Nothing => Nothing
  }

  lemma BindJust<T, U>(v: T, f: T --> Maybe<U>)
    requires f.requires(v)
    ensures Bind(Just(v), f) == f(v)
  {
  }

  /** Binding Nothing gives Nothing for any `f`, even one that cannot be called. */
  lemma BindNothing<T, U>(f: T --> Maybe<U>)
    ensures Bind(Nothing, f) == Nothing
  {
  }

  /** `bind_(g)`: bind with the value discarded. */
  function BindDiscard<T, U>(m: Maybe<T>, g: () --> Maybe<U>): (r: Maybe<U>)
    requires IsJust(m) ==> g.requires()
    ensures IsNothing(m) ==> r == Nothing
    ensures IsJust(m) ==> r == g()
  {
    Bind(m, (_: T) requires g.requires() => g())
  }

  /** `Nothing.bind_(g)` is Nothing and never calls `g`; `Just(v).bind_(g)` is `g()`. */
  lemma BindDiscardCases<T, U>(m: Maybe<T>, g: () --> Maybe<U>)
    requires IsJust(m) ==> g.requires()
    ensures IsNothing(m) ==> BindDiscard(m, g) == Nothing
    ensures IsJust(m) ==> BindDiscard(m, g) == g()
  {
  }

  /** The monad laws, with `Just` as the unit. */
  lemma LeftIdentity<T, U>(x: T, f: T -> Maybe<U>)
    ensures Bind(Just(x), f) == f(x)
  {
  }

  /** With the library's own unit `Maybe(x)`, left identity holds for every
      value but None ... */
  lemma UnitLeftIdentity(x: Value, f: Value -> Maybe<Value>)
    requires x != VNone
    ensures Bind(Of(x), f) == f(x)
  {
  }

  /** ... and fails at None: `Maybe(None).bind(f)` is Nothing whatever `f(None)` is. */
  lemma UnitLeftIdentityFailsAtNone()
    ensures var f := (v: Value) => Of(VInt(0));
            Bind(Of(VNone), f) == Nothing && f(VNone) == Just(VInt(0))
  {
  }

  lemma RightIdentity<T>(m: Maybe<T>)
    ensures Bind(m, (x: T) => Just(x)) == m
  {
  }

  lemma Associativity<T, U, V>(m: Maybe<T>, f: T -> Maybe<U>, g: U -> Maybe<V>)
    ensures Bind(Bind(m, f), g) == Bind(m, (x: T) => Bind(f(x), g))
  {
  }

  /** `__iter__`: one item when just, none when nothing. */
  function Iter<T>(m: Maybe<T>): (xs: seq<T>)
    ensures |xs| <= 1
    ensures IsJust(m) <==> |xs| == 1
    ensures IsJust(m) ==> xs[0] == m.value
  {
    match m
    case Just(v) => [v]
    case Nothing => []
  }

  /** `from_iterable(xs)`: `Maybe` of the first item, Nothing when there is none. */
  function FromIterable(xs: seq<Value>): (m: Maybe<Value>)
    ensures Canonical(m)
    ensures IsJust(m) <==> |xs| > 0 && xs[0] != VNone
    ensures IsJust(m) ==> m.value == xs[0]
  {
    if |xs| == 0 then Of(VNone) else Of(xs[0])
  }

  /** Iterating a Maybe and collecting it back gives the same Maybe. */
  lemma IterRoundTrip(m: Maybe<Value>)
    requires Canonical(m)
    ensures FromIterable(Iter(m)) == m
  {
  }

  /** A nested generator expression over Maybes (`x for a in m for x in f(a)`). */
  function Comprehension(m: Maybe<Value>, f: Value -> Maybe<Value>): (xs: seq<Value>)
    ensures |xs| <= 1
    ensures |xs| == 1 <==> IsJust(m) && IsJust(f(m.value))
  {
    var outer := Iter(m);
    if |outer| == 0 then [] else Iter(f(outer[0]))
  }

  /** Collecting such a comprehension with `from_iterable` is `bind`. */
  lemma {:induction false} ComprehensionIsBind(m: Maybe<Value>, f: Value -> Maybe<Value>)
    requires Canonical(m)
    requires forall v :: Canonical(f(v))
    ensures FromIterable(Comprehension(m, f)) == Bind(m, f)
  {
    if m.Just? {
      IterRoundTrip(f(m.value));
    }
  }
}
