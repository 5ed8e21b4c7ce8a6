/** Looking values up in nested dicts and lists through a monad. A lookup
    succeeds with `ret(c[k])` and fails with `fail(exception)` when the
    subscript raises (a missing key, an index out of range, a key of the wrong
    type); `get_nested` folds lookups through `bind`, run by `trampoline`.
    The two monads that can carry a lookup, Maybe and Either, each get their
    own instance. */
module Collections {
  import opened PyValue
  import M = MaybeMonad
  import E = EitherMonad
  import Fp

  // ---------------------------------------------------------------------
  // lookup and get
  // ---------------------------------------------------------------------

  /** `lookup(Either, c, k)`. */
  function LookupEither(c: Value, k: Key): (r: E.Either<LookupError, Value>)
    ensures r.Right? <==> Subscript(c, k).Found?
    ensures r.Right? ==> r.value == Subscript(c, k).value
    ensures r.Left? ==> r.error == Subscript(c, k).error
  {
    match Subscript(c, k)
    case Found(v) => E.Ret(v)
    case Raised(e) => E.Fail(e)
  }

  /** `lookup(Maybe, c, k)`: a found None is Nothing as well, since `Maybe(None)` is. */
  function LookupMaybe(c: Value, k: Key): (r: M.Maybe<Value>)
    ensures M.Canonical(r)
    ensures r.Just? <==> Subscript(c, k).Found? && Subscript(c, k).value != VNone
    ensures r.Just? ==> r.value == Subscript(c, k).value
  {
    match Subscript(c, k)
    case Found(v) => M.Of(v)
    case Raised(_) => M.Nothing
  }

  /** `get(Either, k, c)`: lookup with the key first, for partial application. */
  function GetEither(k: Key, c: Value): (r: E.Either<LookupError, Value>)
    ensures r == LookupEither(c, k)
  {
    LookupEither(c, k)
  }

  /** `get(Maybe, k, c)`. */
  function GetMaybe(k: Key, c: Value): (r: M.Maybe<Value>)
    ensures r == LookupMaybe(c, k)
  {
    LookupMaybe(c, k)
  }

  /** The lookup doctests. */
  lemma LookupDoctests()
    ensures LookupMaybe(VMap(map[KStr("foo") := VStr("bar")]), KStr("foo")) == M.Just(VStr("bar"))
    ensures LookupMaybe(VMap(map[]), KStr("foo")) == M.Nothing
    ensures LookupMaybe(VList([VInt(1), VInt(2), VInt(3)]), KInt(2)) == M.Just(VInt(3))
    ensures LookupMaybe(VList([VInt(1), VInt(2), VInt(3)]), KInt(4)) == M.Nothing
    ensures LookupMaybe(VList([VInt(1), VInt(2), VInt(3)]), KStr("not a int")) == M.Nothing
    ensures LookupEither(VList([VInt(1), VInt(2), VInt(3)]), KInt(2)) == E.Right(VInt(3))
    ensures LookupEither(VList([VInt(1), VInt(2), VInt(3)]), KInt(4)) == E.Left(IndexError)
    ensures GetMaybe(KStr("foo"), VMap(map[])) == M.Nothing
  {
  }

  // ---------------------------------------------------------------------
  // get_nested: the definition
  // ---------------------------------------------------------------------

  /** `get_nested(Maybe, c, *keys)`: `ret(c)` without keys, otherwise
      `lookup(c, k).bind(c1 => get_nested(c1, *ks))`. */
  function NestedMaybe(c: Value, keys: seq<Key>): (r: M.Maybe<Value>)
    ensures M.Canonical(r)
    ensures |keys| == 0 ==> r == M.Of(c)
    ensures |keys| > 0 && Subscript(c, keys[0]).Raised? ==> r == M.Nothing
    decreases |keys|
  {
    if |keys| == 0 then M.Of(c)
    else M.Bind(LookupMaybe(c, keys[0]), c1 => NestedMaybe(c1, keys[1..]))
  }

  /** `get_nested(Either, c, *keys)`. */
  function NestedEither(c: Value, keys: seq<Key>): (r: E.Either<LookupError, Value>)
    ensures |keys| == 0 ==> r == E.Right(c)
    ensures |keys| > 0 && Subscript(c, keys[0]).Raised? ==> r == E.Left(Subscript(c, keys[0]).error)
    ensures r.Left? ==> exists i :: 0 <= i < |keys| && r.error in {TypeError, IndexError, KeyError(keys[i])}
    decreases |keys|
  {
    if |keys| == 0 then E.Ret(c)
    else E.Bind(LookupEither(c, keys[0]), c1 => NestedEither(c1, keys[1..]))
  }

  /** `vs` is the chain of values that `keys` reach from `c`, every key found. */
  ghost predicate IsPath(c: Value, keys: seq<Key>, vs: seq<Value>)
  {
    && |vs| == |keys| + 1
    && vs[0] == c
    && forall i :: 0 <= i < |keys| ==> Subscript(vs[i], keys[i]) == Found(vs[i + 1])
  }

  lemma PathStep(c: Value, keys: seq<Key>, vs: seq<Value>, i: nat)
    requires IsPath(c, keys, vs) && i < |keys|
    ensures Subscript(vs[i], keys[i]) == Found(vs[i + 1])
  {
  }

  lemma PathTail(c: Value, keys: seq<Key>, vs: seq<Value>)
    requires IsPath(c, keys, vs) && |keys| > 0
    ensures IsPath(vs[1], keys[1..], vs[1..])
  {
    forall i | 0 <= i < |keys[1..]|
      ensures Subscript(vs[1..][i], keys[1..][i]) == Found(vs[1..][i + 1])
    {
      assert Subscript(vs[i + 1], keys[i + 1]) == Found(vs[i + 2]);
    }
  }

  /** When every key on the path is present, the result is success holding
      the innermost value. */
  lemma {:induction false} FoundPathSucceeds(c: Value, keys: seq<Key>, vs: seq<Value>)
    requires IsPath(c, keys, vs)
    ensures NestedEither(c, keys) == E.Right(vs[|keys|])
    ensures NestedMaybe(c, keys) == M.Of(vs[|keys|])
    decreases |keys|
  {
    if |keys| > 0 {
      assert Subscript(c, keys[0]) == Found(vs[1]);
      if vs[1] == VNone {
        assert |keys| == 1 by {
          if |keys| > 1 {
            PathStep(c, keys, vs, 1);
          }
        }
        assert keys[1..] == [];
      } else {
        PathTail(c, keys, vs);
        FoundPathSucceeds(vs[1], keys[1..], vs[1..]);
      }
    }
  }

  /** When the first `i` keys are found and the next one is not, the whole
      result is failure: the exception of that lookup for Either, Nothing for Maybe. */
  lemma {:induction false} MissingKeyFails(c: Value, keys: seq<Key>, vs: seq<Value>, i: nat)
    requires i < |keys| && IsPath(c, keys[..i], vs)
    requires Subscript(vs[i], keys[i]).Raised?
    ensures NestedEither(c, keys) == E.Left(Subscript(vs[i], keys[i]).error)
    ensures NestedMaybe(c, keys) == M.Nothing
    decreases i
  {
    if i > 0 {
      assert Subscript(c, keys[0]) == Found(vs[1]);
      assert keys[1..][..i - 1] == keys[..i][1..];
      PathTail(c, keys[..i], vs);
      if vs[1] == VNone {
        assert i == 1 by {
          if i > 1 {
            PathStep(c, keys[..i], vs, 1);
          }
        }
        assert Subscript(VNone, keys[1]).Raised?;
      } else {
        MissingKeyFails(vs[1], keys[1..], vs[1..], i - 1);
      }
    }
  }

  /** The Either result never holds less information: Maybe's is its image
      (a Right of None also reads as Nothing). */
  function ToMaybe(m: E.Either<LookupError, Value>): (r: M.Maybe<Value>)
    ensures M.Canonical(r)
  {
    match m
    case Left(_) => M.Nothing
    case Right(v) => M.Of(v)
  }

  lemma {:induction false} NestedMaybeIsNestedEither(c: Value, keys: seq<Key>)
    ensures NestedMaybe(c, keys) == ToMaybe(NestedEither(c, keys))
    decreases |keys|
  {
    if |keys| > 0 {
      match Subscript(c, keys[0])
      case Raised(_) =>
      case Found(v) =>
        if v == VNone {
          if |keys| > 1 {
            assert Subscript(VNone, keys[1..][0]).Raised?;
          }
        } else {
          NestedMaybeIsNestedEither(v, keys[1..]);
        }
    }
  }

  /** The get_nested doctests on nested dicts, and with no keys. */
  lemma NestedDoctests()
    ensures NestedMaybe(Data(), [KStr("foo"), KStr("bar"), KStr("baz")]) == M.Just(VStr("bing"))
    ensures NestedMaybe(Data(), [KStr("foo"), KStr("bing")]) == M.Nothing
    ensures NestedMaybe(Data(), [KStr("blegh"), KStr("bar")]) == M.Nothing
    ensures NestedMaybe(VMap(map[]), []) == M.Just(VMap(map[]))
  {
    var inner := VMap(map[KStr("baz") := VStr("bing")]);
    var middle := VMap(map[KStr("bar") := inner]);
    FoundPathSucceeds(Data(), [KStr("foo"), KStr("bar"), KStr("baz")], [Data(), middle, inner, VStr("bing")]);
    MissingKeyFails(Data(), [KStr("foo"), KStr("bing")], [Data(), middle], 1);
    MissingKeyFails(Data(), [KStr("blegh"), KStr("bar")], [Data()], 0);
  }

  /** The get_nested doctests through a list. */
  lemma NestedListDoctests()
    ensures NestedMaybe(ListData(), [KStr("foo"), KInt(0), KStr("bar")]) == M.Just(VStr("baz"))
    ensures NestedMaybe(ListData(), [KStr("foo"), KInt(1), KStr("bar")]) == M.Nothing
  {
    var entry := VMap(map[KStr("bar") := VStr("baz")]);
    FoundPathSucceeds(ListData(), [KStr("foo"), KInt(0), KStr("bar")], [ListData(), VList([entry]), entry, VStr("baz")]);
    MissingKeyFails(ListData(), [KStr("foo"), KInt(1), KStr("bar")], [ListData(), VList([entry])], 1);
  }

  function Data(): Value
  {
    VMap(map[KStr("foo") := VMap(map[KStr("bar") := VMap(map[KStr("baz") := VStr("bing")])])])
  }

  function ListData(): Value
  {
    VMap(map[KStr("foo") := VList([VMap(map[KStr("bar") := VStr("baz")])])])
  }

  // ---------------------------------------------------------------------
  // get_nested: the trampolined code
  // ---------------------------------------------------------------------

  /** `__get_nested(Maybe, accM, keys)`: the accumulated Maybe when no keys
      are left, otherwise a thunk that binds it to the next lookup. Binding
      Nothing returns Nothing itself, which is not callable, so the trampoline
      stops there. */
  function StepMaybe(acc: M.Maybe<Value>, keys: seq<Key>): (b: Fp.Bounce<M.Maybe<Value>>)
    ensures b.Done? <==> |keys| == 0
    ensures b.Done? ==> b.result == acc
    decreases |keys|
  {
    if |keys| == 0 then Fp.Done(acc)
    else Fp.More(() =>
      match acc
      case Nothing => Fp.Done(acc)
      case Just(c) => StepMaybe(LookupMaybe(c, keys[0]), keys[1..]))
  }

  /** `__get_nested(Either, accM, keys)`. */
  function StepEither(acc: E.Either<LookupError, Value>, keys: seq<Key>): (b: Fp.Bounce<E.Either<LookupError, Value>>)
    ensures b.Done? <==> |keys| == 0
    ensures b.Done? ==> b.result == acc
    decreases |keys|
  {
    if |keys| == 0 then Fp.Done(acc)
    else Fp.More(() =>
      match acc
      case Left(_) => Fp.Done(acc)
      case Right(c) => StepEither(LookupEither(c, keys[0]), keys[1..]))
  }

  /** The trampoline reaches `acc.bind(c => get_nested(c, keys))` within one call per key. */
  lemma {:induction false} StepMaybeSettles(acc: M.Maybe<Value>, keys: seq<Key>)
    requires M.Canonical(acc)
    ensures Fp.Settle(StepMaybe(acc, keys), |keys|) == Some(M.Bind(acc, c => NestedMaybe(c, keys)))
    decreases |keys|
  {
    if |keys| > 0 {
      match acc
      case Nothing =>
        assert StepMaybe(acc, keys).next() == Fp.Done(acc);
        assert Fp.Advance(Fp.Done(acc), |keys| - 1) == Fp.Done(acc);
      case Just(c) =>
        StepMaybeSettles(LookupMaybe(c, keys[0]), keys[1..]);
    }
  }

  lemma {:induction false} StepEitherSettles(acc: E.Either<LookupError, Value>, keys: seq<Key>)
    ensures Fp.Settle(StepEither(acc, keys), |keys|) == Some(E.Bind(acc, c => NestedEither(c, keys)))
    decreases |keys|
  {
    if |keys| > 0 {
      match acc
      case Left(_) =>
        assert StepEither(acc, keys).next() == Fp.Done(acc);
        assert Fp.Advance(Fp.Done(acc), |keys| - 1) == Fp.Done(acc);
      case Right(c) =>
        StepEitherSettles(LookupEither(c, keys[0]), keys[1..]);
    }
  }

  /** Along a path where every key is found, the trampoline makes exactly one
      call per key: fewer calls leave a thunk. */
  lemma {:induction false} FoundPathTakesOneCallPerKey(c: Value, keys: seq<Key>, vs: seq<Value>, n: nat)
    requires IsPath(c, keys, vs) && n < |keys|
    ensures Fp.Advance(StepMaybe(M.Just(c), keys), n).More?
    ensures Fp.Advance(StepEither(E.Right(c), keys), n).More?
    decreases n
  {
    if n > 0 {
      PathStep(c, keys, vs, 0);
      PathStep(c, keys, vs, 1);
      PathTail(c, keys, vs);
      FoundPathTakesOneCallPerKey(vs[1], keys[1..], vs[1..], n - 1);
    }
  }

  /** `get_nested(Maybe, c, *keys)`, as the library runs it: trampoline the
      thunks that `__get_nested` returns. */
  method GetNestedMaybe(c: Value, keys: seq<Key>) returns (r: M.Maybe<Value>, calls: nat)
    ensures r == NestedMaybe(c, keys)
    ensures calls <= |keys|
    ensures forall vs :: IsPath(c, keys, vs) ==> calls == |keys|
  {
    StepMaybeSettles(M.Of(c), keys);
    if c == VNone && |keys| > 0 {
      assert Subscript(c, keys[0]).Raised?;
    }
    r, calls := Fp.Trampoline(StepMaybe(M.Of(c), keys), |keys|);
    forall vs | IsPath(c, keys, vs)
      ensures calls == |keys|
    {
      if calls < |keys| {
        PathStep(c, keys, vs, 0);
        FoundPathTakesOneCallPerKey(c, keys, vs, calls);
      }
    }
  }

  /** `get_nested(Either, c, *keys)`, as the library runs it. */
  method GetNestedEither(c: Value, keys: seq<Key>) returns (r: E.Either<LookupError, Value>, calls: nat)
    ensures r == NestedEither(c, keys)
    ensures calls <= |keys|
    ensures forall vs :: IsPath(c, keys, vs) ==> calls == |keys|
  {
    StepEitherSettles(E.Ret(c), keys);
    r, calls := Fp.Trampoline(StepEither(E.Ret(c), keys), |keys|);
    forall vs | IsPath(c, keys, vs)
      ensures calls == |keys|
    {
      if calls < |keys| {
        FoundPathTakesOneCallPerKey(c, keys, vs, calls);
      }
    }
  }
}
