/** The Either monad: `Right(value)` on success, `Left(error)` on failure;
    a chain of binds stops at the first Left. */
module EitherMonad {
  import Fp

  datatype Either<+E, +T> = Left(error: E) | Right(value: T)

  /** `Either.ret(v)`. */
  function Ret<E, T>(v: T): (m: Either<E, T>)
    ensures IsRight(m) && m.value == v
  {
    Right(v)
  }

  /** `Either.fail(e)`. */
  function Fail<E, T>(e: E): (m: Either<E, T>)
    ensures IsLeft(m) && m.error == e
  {
    Left(e)
  }

  /** `is_left`. */
  predicate IsLeft<E, T>(m: Either<E, T>)
    ensures IsLeft(m) <==> m.Left?
  {
    match m
    case Left(_) => true
    case Right(_) => false
  }

  /** `is_right`: `not is_left()`. */
  predicate IsRight<E, T>(m: Either<E, T>)
    ensures IsRight(m) <==> m.Right?
  {
    !IsLeft(m)
  }

  lemma IsLeftExactlyForLeft<E, T>(m: Either<E, T>)
    ensures IsLeft(m) <==> m.Left?
    ensures IsRight(m) <==> m.Right?
  {
  }

  /** `bind(f)`: `f(value)` on Right; a Left returns itself, without calling
      `f` (which therefore may be undefined everywhere). */
  function Bind<E, T, U>(m: Either<E, T>, f: T --> Either<E, U>): (r: Either<E, U>)
    requires m.Right? ==> f.requires(m.value)
    ensures m.Left? ==> r == Left(m.error)
    ensures m.Right? ==> r == f(m.value)
  {
    match m
    case Left(e) => Left(e)
    case Right(v) => f(v)
  }

  lemma BindRight<E, T, U>(v: T, f: T --> Either<E, U>)
    requires f.requires(v)
    ensures Bind(Right(v), f) == f(v)
  {
  }

  /** Binding a Left gives the same Left for any `f`, even one that cannot be called. */
  lemma BindLeft<E, T, U>(e: E, f: T --> Either<E, U>)
    ensures Bind(Left(e), f) == Left(e)
  {
  }

  /** `bind_(g)`: bind with the value discarded. */
  function BindDiscard<E, T, U>(m: Either<E, T>, g: () --> Either<E, U>): (r: Either<E, U>)
    requires m.Right? ==> g.requires()
    ensures m.Left? ==> r == Left(m.error)
    ensures m.Right? ==> r == g()
  {
    Bind(m, (_: T) requires g.requires() => g())
  }

  /** `Left(e).bind_(g)` is the same `Left(e)`; `Right(v).bind_(g)` is `g()`. */
  lemma BindDiscardCases<E, T, U>(m: Either<E, T>, g: () --> Either<E, U>)
    requires m.Right? ==> g.requires()
    ensures m.Left? ==> BindDiscard(m, g) == Left(m.error)
    ensures m.Right? ==> BindDiscard(m, g) == g()
  {
  }

  /** `either(left_fun, right_fun)`: eliminate by applying the matching function. */
  function Fold<E, T, R>(m: Either<E, T>, leftFun: E -> R, rightFun: T -> R): (r: R)
    ensures m.Left? ==> r == leftFun(m.error)
    ensures m.Right? ==> r == rightFun(m.value)
  {
    match m
    case Left(e) => leftFun(e)
    case Right(v) => rightFun(v)
  }

  /** `default(d)`: the value of a Right, `d` for any Left. */
  function Default<E, T>(m: Either<E, T>, d: T): (r: T)
    ensures m.Left? ==> r == d
    ensures m.Right? ==> r == m.value
  {
    match m
    case Left(_) => d
    case Right(v) => v
  }

  /** `either` applies the matching function; `default` is `either` with a
      constant on the left and the identity on the right; eliminating with the
      two constructors rebuilds the value. */
  lemma FoldCases<E, T, R>(m: Either<E, T>, leftFun: E -> R, rightFun: T -> R, d: T)
    ensures m.Left? ==> Fold(m, leftFun, rightFun) == leftFun(m.error)
    ensures m.Right? ==> Fold(m, leftFun, rightFun) == rightFun(m.value)
    ensures Default(m, d) == Fold(m, (_: E) => d, (v: T) => v)
    ensures Fold(m, (e: E) => Left(e), (v: T) => Right(v)) == m
  {
  }

  /** The monad laws, with `ret` as the unit. */
  lemma LeftIdentity<E, T, U>(x: T, f: T -> Either<E, U>)
    ensures Bind(Ret(x), f) == f(x)
  {
  }

  lemma RightIdentity<E, T>(m: Either<E, T>)
    ensures Bind(m, (x: T) => Ret(x)) == m
  {
  }

  lemma Associativity<E, T, U, V>(m: Either<E, T>, f: T -> Either<E, U>, g: U -> Either<E, V>)
    ensures Bind(Bind(m, f), g) == Bind(m, (x: T) => Bind(f(x), g))
  {
  }

  /** `Either.lefts(xs)`: the Left elements, in input order. */
  function Lefts<E, T>(xs: seq<Either<E, T>>): (r: seq<Either<E, T>>)
    ensures forall i :: 0 <= i < |r| ==> r[i].Left?
  {
    Fp.Filter((m: Either<E, T>) => IsLeft(m), xs)
  }

  /** `Either.rights(xs)`: the Right elements, in input order. */
  function Rights<E, T>(xs: seq<Either<E, T>>): (r: seq<Either<E, T>>)
    ensures forall i :: 0 <= i < |r| ==> r[i].Right?
  {
    Fp.Filter((m: Either<E, T>) => IsRight(m), xs)
  }

  /** Every element is kept by exactly one of `lefts` and `rights`. */
  lemma {:induction false} LeftsRightsPartition<E, T>(xs: seq<Either<E, T>>)
    ensures |Lefts(xs)| + |Rights(xs)| == |xs|
    decreases |xs|
  {
    if |xs| > 0 {
      LeftsRightsPartition(xs[1..]);
    }
  }

  /** Both filters keep every element they select, with its multiplicity. */
  lemma LeftsRightsCounts<E(!new), T(!new)>(xs: seq<Either<E, T>>, m: Either<E, T>)
    ensures multiset(Lefts(xs))[m] == if m.Left? then multiset(xs)[m] else 0
    ensures multiset(Rights(xs))[m] == if m.Right? then multiset(xs)[m] else 0
  {
    Fp.FilterCounts((m: Either<E, T>) => IsLeft(m), xs, m);
    Fp.FilterCounts((m: Either<E, T>) => IsRight(m), xs, m);
  }

  /** The doctest: lefts and rights of `[Left(1), Right(2), Left(3)]`. */
  lemma LeftsRightsExample()
    ensures Lefts([Left(1), Right(2), Left(3)]) == [Left(1), Left(3)]
    ensures Rights([Left(1), Right(2), Left(3)]) == [Right(2)]
  {
    var xs: seq<Either<int, int>> := [Left(1), Right(2), Left(3)];
    assert xs[1..] == [Right(2), Left(3)];
    assert xs[1..][1..] == [Left(3)];
    assert xs[1..][1..][1..] == [];
  }
}
