# fp, modelled in Dafny

A model of the functional-programming helpers of the Python library `fp` and its companion `functools2`. It covers:

- the monads Maybe, Either, State and IO, and their shared `bind_`;
- the nested-lookup helpers `lookup`, `get` and `get_nested` (with its trampolined recursion);
- the small combinators and finite-sequence helpers of `fp` and `functools2`;
- the example routine `collect_stats`, which groups monitoring records by host and application.

The model follows the source module by module:

| Dafny module | file | models |
|---|---|---|
| `PyValue` | pyvalue.dfy | the dynamic values the library inspects, and Python's subscript `c[k]` on dicts, lists, strings and sets |
| `Monad` | monad.dfy | the unit value `noop`, which also stands for the None that running `printLn` returns; `bind_` is written `BindDiscard` in each monad module |
| `MaybeMonad` | maybe.dfy | `fp/monads/maybe.py` |
| `EitherMonad` | either.dfy | `fp/monads/either.py` |
| `StateMonad` | state.dfy | `fp/monads/state.py` |
| `IOMonad` | iomonad.dfy | `fp/monads/iomonad.py` |
| `Collections` | collections.dfy | `fp/collections/__init__.py` |
| `Fp` | fp.dfy | `fp/__init__.py` |
| `Functools2` | functools2.dfy | `functools2/__init__.py` |
| `StatCollector` | stat_collector.dfy | `collect_stats` in `examples/stat_collector.py` |

Design decisions:

- **Maybe.** `Maybe(None)` is Nothing, and no Just wraps None. Maybe is the datatype `Just(value) | Nothing`, and `MaybeMonad.Of` is the constructor from a dynamic value. Python compares Maybes by their wrapped values. Here that is datatype equality on canonical Maybes: `EqualIffWrappedEqual` proves that `Of(a) == Of(b)` exactly when `a == b`.
- **Bind's callback.** `bind` on Nothing or Left never calls its function. The model's `Bind` takes a partial function and requires its precondition only on the Just or Right branch, so a function that would crash on any input can still be bound to Nothing.
- **State and IO.** State wraps a transition `S -> (T, S)`. IO wraps `World -> (T, World)`, where `World` is the trace of printed lines. Building an IO value runs nothing; only `Run` threads the trace, and running the same action twice prints twice.
- **Lookup errors.** `lookup` gives success on a value and failure on KeyError, IndexError and TypeError. Python's rule for negative list and string indices is modelled: an index in `[-n, 0)` counts from the end.
- **Trampolines.** `trampoline` repeatedly calls `f` until the result is not callable. It is modelled over `Bounce = Done(result) | More(next)`. The method takes a ghost fuel bound under which the bounce settles, and returns the number of calls it made.
- **Aliasing in collect_stats.** `collect_stats` shares one application dict between `ret[host]` and `seen[host][appname]`. The model stores, in `seen[host][appname]`, that dict's position in `ret[host]`, and updates the dict at that position.

## Model

| member | source | states |
|---|---|---|
| PyValue.Position | fp/collections/__init__.py:17-28 | an index is valid exactly when it lies in `[-n, n)`, and a negative one counts from the end |
| PyValue.Subscript | fp/collections/__init__.py:8-30 | `c[k]`: a dict gives the entry or KeyError; a list or string gives the item at an integer index or IndexError, and TypeError for a string key; any other container gives TypeError |
| PyValue.FromKey | functools2/__init__.py:66-68 | a set member returned as a value is never None |
| MaybeMonad.Of | fp/monads/maybe.py:12-32 | a Maybe is Just exactly when the wrapped value is not None, and wraps that value |
| MaybeMonad.Wrapped | fp/monads/maybe.py:12-16 | the wrapped value: the Just's value, or None for Nothing |
| MaybeMonad.OfWrapped | fp/monads/maybe.py:12-16 | wrapping the value of a canonical Maybe gives the Maybe back |
| MaybeMonad.WrappedOf | fp/monads/maybe.py:12-16 | a Maybe built from a value is canonical and wraps exactly that value |
| MaybeMonad.EqualIffWrappedEqual | fp/monads/maybe.py:15-16 | two Maybes are equal exactly when their wrapped values are equal |
| MaybeMonad.IsJust | fp/monads/maybe.py:21-32 | `is_just` holds exactly when the Maybe is not Nothing |
| MaybeMonad.IsNothing | fp/monads/maybe.py:34-45 | `is_nothing` holds exactly when the Maybe is Nothing |
| MaybeMonad.IsJustIffNotNone | fp/monads/maybe.py:21-45 | `is_just` holds exactly when the value is not None, and `is_nothing` is its negation |
| MaybeMonad.FromJust | fp/monads/maybe.py:47-64 | `from_just` returns exactly when the Maybe is Just, with its value; on Nothing it raises ValueError |
| MaybeMonad.Default | fp/monads/maybe.py:66-79 | `default(d)` is the value of a Just, and `d` on Nothing |
| MaybeMonad.DefaultOfJust | fp/monads/maybe.py:47-79 | on a Just, `from_just` returns what `default` gives, whatever the default; on Nothing `default` returns the default |
| MaybeMonad.CatMaybes | fp/monads/maybe.py:81-93 | the result is no longer than the input and every item of it came from a Just of the input |
| MaybeMonad.CatMaybesCounts | fp/monads/maybe.py:81-93 | each value occurs in the result exactly as often as its Just occurs in the input, so nothing else is kept |
| MaybeMonad.CatMaybesConcat | fp/monads/maybe.py:81-93 | `cat_maybes` works item by item in input order: it distributes over concatenation |
| MaybeMonad.MapMaybes | fp/monads/maybe.py:95-111 | `map_maybes(f, xs)` has no more items than `xs`, and keeps the value of every Just that `f` gives on an item |
| MaybeMonad.MapMaybesIsCatOfMap | fp/monads/maybe.py:95-111 | `map_maybes(f, xs)` is `cat_maybes` of `f` mapped over `xs` |
| MaybeMonad.MapMaybesKeepsEvens | fp/monads/maybe.py:99-111 | the doctest: `map_maybes(maybe_even, [1, 2, 3, 4])` is `[2, 4]` |
| MaybeMonad.Bind | fp/monads/maybe.py:116-131 | `bind(f)` returns Nothing itself on Nothing, without calling `f`, and `f(value)` on a Just |
| MaybeMonad.BindJust | fp/monads/maybe.py:116-131 | binding a Just applies the function to its value |
| MaybeMonad.BindNothing | fp/monads/maybe.py:116-131 | binding Nothing gives Nothing and places no demand on the function, which is never called |
| MaybeMonad.BindDiscard | fp/monads/monad.py:7-8 | `bind_(g)` is Nothing on Nothing, without calling `g`, and `g()` on a Just |
| MaybeMonad.BindDiscardCases | fp/monads/monad.py:7-8 | `bind_` on Nothing gives Nothing without calling `g`; on a Just it gives `g()` |
| MaybeMonad.LeftIdentity | fp/monads/maybe.py:116-131 | with a Just built directly as the unit, `Just(x).bind(f) == f(x)` for every `x` |
| MaybeMonad.UnitLeftIdentity | fp/monads/maybe.py:12-131 | with the library's unit `Maybe(x)`, `Maybe(x).bind(f) == f(x)` for every `x` other than None |
| MaybeMonad.UnitLeftIdentityFailsAtNone | fp/monads/maybe.py:12-131 | left identity fails at None: `Maybe(None).bind(f)` is Nothing while `f(None)` can be a Just |
| MaybeMonad.RightIdentity | fp/monads/maybe.py:116-131 | `m.bind(Just) == m` |
| MaybeMonad.Associativity | fp/monads/maybe.py:116-131 | binding twice equals binding once with the composed function |
| MaybeMonad.Iter | fp/monads/maybe.py:136-182 | iterating a Maybe yields at most one item: its value when Just, nothing when Nothing |
| MaybeMonad.FromIterable | fp/monads/maybe.py:184-188 | the Maybe of the first item, or Nothing for an empty input; always canonical |
| MaybeMonad.IterRoundTrip | fp/monads/maybe.py:136-188 | `from_iterable(iter(m)) == m` |
| MaybeMonad.Comprehension | fp/monads/maybe.py:146-177 | the generator `x for a in m for x in f(a)` yields at most one item, and one exactly when `m` and `f` of its value are both Just |
| MaybeMonad.ComprehensionIsBind | fp/monads/maybe.py:146-177 | the generator-comprehension idiom of the doctests, collected by `from_iterable`, equals `bind` |
| EitherMonad.Ret | fp/monads/either.py:72-74 | `ret(v)` is a Right holding `v` |
| EitherMonad.Fail | fp/monads/either.py:76-78 | `fail(e)` is a Left holding `e` |
| EitherMonad.IsLeft | fp/monads/either.py:141-180 | `is_left` holds exactly for a Left |
| EitherMonad.IsRight | fp/monads/either.py:98-102 | `is_right` holds exactly for a Right |
| EitherMonad.IsLeftExactlyForLeft | fp/monads/either.py:98-102 | `is_left` holds exactly for Left, and `is_right` exactly for Right |
| EitherMonad.Bind | fp/monads/either.py:125-159 | `bind(f)` on a Left returns that Left, without calling `f`; on a Right it is `f(value)` |
| EitherMonad.BindRight | fp/monads/either.py:158-159 | binding a Right applies the function to its value |
| EitherMonad.BindLeft | fp/monads/either.py:129-130 | binding a Left returns that same Left, and the function is never called |
| EitherMonad.BindDiscard | fp/monads/monad.py:7-8 | `bind_(g)` on a Left returns that Left, without calling `g`; on a Right it is `g()` |
| EitherMonad.Fold | fp/monads/either.py:132-162 | `either(lf, rf)` is `lf(error)` on a Left and `rf(value)` on a Right |
| EitherMonad.Default | fp/monads/either.py:135-165 | `default(d)` is `d` on a Left and the value on a Right |
| EitherMonad.BindDiscardCases | fp/monads/monad.py:7-8 | `bind_` on a Left returns that Left; on a Right it gives `g()` |
| EitherMonad.FoldCases | fp/monads/either.py:132-136 | `either(lf, rf)` is `lf(e)` on Left and `rf(v)` on Right; `default(d)` is `either` with a constant left and the identity right; folding with the two constructors is the identity |
| EitherMonad.LeftIdentity | fp/monads/either.py:72-74 | `ret(x).bind(f) == f(x)` |
| EitherMonad.RightIdentity | fp/monads/either.py:158-159 | `m.bind(ret) == m` |
| EitherMonad.Associativity | fp/monads/either.py:129-159 | binding twice equals binding once with the composed function |
| EitherMonad.Lefts | fp/monads/either.py:104-112 | every item `lefts` keeps is a Left |
| EitherMonad.Rights | fp/monads/either.py:114-122 | every item `rights` keeps is a Right |
| EitherMonad.LeftsRightsPartition | fp/monads/either.py:104-122 | the lengths of `lefts` and `rights` add up to the input's |
| EitherMonad.LeftsRightsCounts | fp/monads/either.py:104-122 | each Left occurs in `lefts` as often as in the input, and each Right likewise in `rights` |
| EitherMonad.LeftsRightsExample | fp/monads/either.py:108-120 | the doctests on `[Left(1), Right(2), Left(3)]` |
| StateMonad.Run | fp/monads/state.py:22-23 | `run(init)` is the value and state the wrapped transition gives from `init` |
| StateMonad.Ret | fp/monads/state.py:32-34 | `ret(v).run(s) == (v, s)` |
| StateMonad.Bind | fp/monads/state.py:25-30 | `m.bind(f).run(s)` runs `m` on `s`, then `f` of its value on the state it left |
| StateMonad.Get | fp/monads/state.py:37-38 | `get().run(s) == (s, s)` |
| StateMonad.Put | fp/monads/state.py:41-42 | `put(x).run(s) == (noop, x)` for every `s` |
| StateMonad.Modify | fp/monads/state.py:45-47 | `modify(f).run(s) == (noop, f(s))` |
| StateMonad.Gets | fp/monads/state.py:50-52 | `gets(f).run(s) == (f(s), s)`: the state is unchanged |
| StateMonad.BindDiscard | fp/monads/monad.py:7-8 | `m.bind_(g).run(s)` runs `g()` on the state `m` leaves, discarding `m`'s value |
| StateMonad.Doctests | fp/monads/state.py:9-16 | the three doctests: `(1, 0)`, `(noop, 1)` and `(1, 0)` |
| StateMonad.LeftIdentity | fp/monads/state.py:25-34 | `ret(x).bind(f)` runs as `f(x)` |
| StateMonad.RightIdentity | fp/monads/state.py:25-34 | `m.bind(ret)` runs as `m` |
| StateMonad.Associativity | fp/monads/state.py:25-30 | binding twice runs as binding once with the composed function |
| IOMonad.Run | fp/monads/iomonad.py:90-91 | `run()` performs the wrapped action on the current trace |
| IOMonad.Ret | fp/monads/iomonad.py:57-69 | running `ret(v)` returns `v` and prints nothing |
| IOMonad.Bind | fp/monads/iomonad.py:71-76 | running `m.bind(f)` runs `m`, then the action `f` makes of its result, on the trace `m` left |
| IOMonad.BindDiscard | fp/monads/monad.py:7-8 | running `m.bind_(g)` runs `m`, then `g()`, discarding `m`'s result |
| IOMonad.Io | fp/monads/iomonad.py:8-16 | calling an `@io` function only builds an action; running it, on any trace, calls the function with the captured argument |
| IOMonad.PrintLine | fp/monads/iomonad.py:19-21 | the body of `printLn`: the trace gains exactly the line `s` at its end, earlier lines untouched, and the unit result stands for the None that `print` returns |
| IOMonad.PrintLn | fp/monads/iomonad.py:19-21 | running `printLn(s)` appends `s` to the trace; its result is the unit value, standing for the None that `print` returns |
| IOMonad.HelloWorld | fp/monads/iomonad.py:47-51 | `printLn("Hello").bind_(lambda: printLn("World"))` prints Hello, then World |
| IOMonad.RetBindPrint | fp/monads/iomonad.py:57-69 | the doctest `IO.ret("Hello").bind(printLn)` prints Hello |
| IOMonad.RunTwicePrintsTwice | fp/monads/iomonad.py:90-91 | `run` re-executes the action: running it twice prints twice |
| IOMonad.LeftIdentity | fp/monads/iomonad.py:57-76 | `ret(x).bind(f)` runs as `f(x)` |
| IOMonad.RightIdentity | fp/monads/iomonad.py:57-76 | `m.bind(ret)` runs as `m` |
| IOMonad.Associativity | fp/monads/iomonad.py:71-76 | binding twice runs as binding once with the composed function |
| IOMonad.Fail | fp/monads/iomonad.py:78-88 | `fail(e)` is an immediate failure carrying `e`, not an action |
| Collections.LookupEither | fp/collections/__init__.py:8-30 | `lookup` with Either: Right of the value when `c[k]` succeeds, Left of the error it raises otherwise |
| Collections.LookupMaybe | fp/collections/__init__.py:8-30 | `lookup` with Maybe: Just of the value when `c[k]` succeeds with a value other than None, Nothing otherwise |
| Collections.GetEither | fp/collections/__init__.py:33-44 | `get(m, key, coll) == lookup(m, coll, key)` |
| Collections.GetMaybe | fp/collections/__init__.py:33-44 | the same for Maybe |
| Collections.LookupDoctests | fp/collections/__init__.py:11-28 | the doctests of `lookup` and `get` |
| Collections.NestedMaybe | fp/collections/__init__.py:47-85 | `get_nested` with Maybe: always canonical; with no keys `Maybe(c)`; Nothing when the first lookup raises |
| Collections.NestedEither | fp/collections/__init__.py:47-85 | `get_nested` with Either: with no keys `Right(c)`; Left of the first lookup's error when it raises; any Left is a TypeError, an IndexError or a KeyError naming one of the keys |
| Collections.PathStep | fp/collections/__init__.py:52-62 | along a path of found values, each key leads from one value to the next |
| Collections.PathTail | fp/collections/__init__.py:73-85 | the rest of a path is a path from the first value reached |
| Collections.FoundPathSucceeds | fp/collections/__init__.py:52-85 | when every key on the path is found, `get_nested` succeeds with the innermost value |
| Collections.MissingKeyFails | fp/collections/__init__.py:52-85 | when a key on the path is missing, `get_nested` fails: Nothing, or Left of that lookup's error |
| Collections.ToMaybe | fp/collections/__init__.py:8-30 | an Either result seen as a canonical Maybe |
| Collections.NestedMaybeIsNestedEither | fp/collections/__init__.py:47-85 | `get_nested` with Maybe is `get_nested` with Either, with Left turned into Nothing |
| Collections.NestedDoctests | fp/collections/__init__.py:51-64 | the doctests of `get_nested` on nested dicts, and no keys returning `ret(collection)` |
| Collections.NestedListDoctests | fp/collections/__init__.py:59-62 | the doctests of `get_nested` through a list |
| Collections.StepMaybe | fp/collections/__init__.py:73-85 | `__get_nested` returns a thunk exactly while keys remain, and the accumulated Maybe once none is left |
| Collections.StepEither | fp/collections/__init__.py:73-85 | the same for Either |
| Collections.StepMaybeSettles | fp/collections/__init__.py:73-85 | the trampolined `__get_nested` settles within one step per key, on `acc.bind(get_nested(keys))` |
| Collections.StepEitherSettles | fp/collections/__init__.py:73-85 | the same for Either |
| Collections.FoundPathTakesOneCallPerKey | fp/collections/__init__.py:66-85 | on a path where every key is found, the trampoline has not finished before one step per key |
| Collections.GetNestedMaybe | fp/collections/__init__.py:47-70 | `get_nested` with Maybe, run through the trampoline, returns the folded lookups, within one call per key and exactly one per key when every key is found |
| Collections.GetNestedEither | fp/collections/__init__.py:47-70 | the same for Either |
| Fp.PpArgs | fp/__init__.py:64-67 | the call `pp` makes: call-time positional arguments first, then the stored ones; call-time keywords override stored ones, and the other stored keywords are kept |
| Fp.Pp | fp/__init__.py:37-68 | the partial calls `func` with the arguments `PpArgs` lays out |
| Fp.PpPrependsCallTimeArguments | fp/tests.py:198-207 | the test: `pp(sub, 2)(6) == 4`, `pp(sub, 2)(0) == -2`, and a call-time keyword overrides |
| Fp.C | fp/__init__.py:71-85 | `c(f, g)(x) == f(g(x))` |
| Fp.ComposeAssociative | fp/__init__.py:71-85 | composition is associative |
| Fp.Const | fp/__init__.py:88-99 | `const(x)` returns `x` whatever it is called with |
| Fp.KwArgs | fp/__init__.py:159-167 | without keys the whole dict is passed; otherwise exactly the entries whose key is listed and present, with their values |
| Fp.KwFunc | fp/__init__.py:122-167 | `kwfunc(f, keys)(dct)` calls `f` with the restricted dict |
| Fp.KwArgsIdempotent | fp/__init__.py:159-167 | restricting twice is restricting once |
| Fp.KwArgsDropsUnlistedKeys | fp/__init__.py:145-155 | the doctest: with keys `first` and `last`, `dob` is dropped |
| Fp.Advance | fp/__init__.py:191-192 | a final value is never called again, and a thunk after `n` calls means a thunk at the start |
| Fp.Settle | fp/__init__.py:191-193 | `trampoline` reaches a final value within `fuel` calls exactly when `Settle` gives one, and it is that value |
| Fp.AdvanceStep | fp/__init__.py:191-192 | one more call from a pending bounce takes its next thunk |
| Fp.AdvanceDone | fp/__init__.py:191-193 | once a result is reached, further steps leave it |
| Fp.Trampoline | fp/__init__.py:170-193 | the loop returns the first non-callable result reached by repeated calls, after exactly the number of calls it reports, each earlier step still pending |
| Fp.Take | fp/__init__.py:215-225 | `islice(xs, 0, n)`: ValueError exactly when `n` is negative or above `sys.maxsize`, otherwise the first `min(n, len)` items, as a prefix |
| Fp.Drop | fp/__init__.py:228-239 | `islice(xs, n, None)`: ValueError exactly when `n` is negative or above `sys.maxsize`, otherwise the items after the first `min(n, len)` |
| Fp.TakeDropSplit | fp/__init__.py:215-239 | taking and dropping the same count raise together, and otherwise concatenate back to the input |
| Fp.SplitAt | fp/__init__.py:242-258 | `isplitat(i, xs)`, materialised: ValueError exactly when `i` is negative or above `sys.maxsize`, otherwise two parts that concatenate back to `xs`, the first holding `min(i, len)` items |
| Fp.Filter | fp/monads/either.py:112 | a filter keeps no more items than it is given, all satisfying the predicate |
| Fp.FilterCounts | fp/monads/either.py:112 | a filter keeps every occurrence of a satisfying item and none of the others |
| Fp.FilterConcat | fp/monads/either.py:112 | a filter keeps order: it distributes over concatenation |
| Fp.Coalesce | fp/__init__.py:271-280 | no None remains |
| Fp.CoalesceKeepsTheRest | fp/__init__.py:271-280 | every other value keeps all its occurrences |
| Fp.AllMap | fp/__init__.py:288-299 | `allmap(f, xs)` holds exactly when `f` holds for every item |
| Fp.AnyMap | fp/__init__.py:302-312 | `anymap(f, xs)` holds exactly when `f` holds for some item |
| Fp.AllMapDecidedByPrefix | fp/__init__.py:288-299 | a prefix with a failing item decides `allmap` whatever follows |
| Fp.AnyMapDecidedByPrefix | fp/__init__.py:302-312 | a prefix with a satisfying item decides `anymap` whatever follows |
| Fp.OddIsNotEven | fp/__init__.py:318-342 | `odd(x)` is `not even(x)` |
| Fp.Even | fp/__init__.py:318-329 | `even(x)` holds exactly for multiples of 2, negative ones included |
| Fp.Odd | fp/__init__.py:332-342 | `odd(x)` holds exactly for numbers one above a multiple of 2, negative ones included |
| Functools2.Quot | functools2/__init__.py:25-28 | floor division: ZeroDivisionError exactly when `y` is 0; otherwise the quotient is the largest integer not above `x / y`, for either sign of `y` |
| Functools2.QuotExamples | functools2/__init__.py:25-28 | `quot(3, 2) == 1`, `quot(-7, 2) == -4`, `quot(7, -2) == -4` where Euclidean division gives -3, and `quot(1, 0)` raises ZeroDivisionError |
| Functools2.Const | functools2/__init__.py:51-52 | `const(x)` is a function of no arguments returning `x` |
| Functools2.Flip | functools2/__init__.py:55-56 | `flip(f)(y, x) == f(x, y)` |
| Functools2.FlipInvolution | functools2/__init__.py:55-56 | flipping twice gives the original function |
| Functools2.Get | functools2/__init__.py:63-73 | None on None; on a set, the key when it is a member and None otherwise; else `obj[key]`, or None when that raises KeyError, IndexError or TypeError |
| Functools2.GetIsLookupWithDefault | functools2/__init__.py:69-73 | outside sets, `get` is the Either `lookup` with default None |
| Functools2.GetTests | fp/tests.py:449-476 | the tests of missing and present keys on None, dicts, lists and sets |
| Functools2.GetKey | functools2/__init__.py:93 | `p(get, key)` |
| Functools2.GetPath | functools2/__init__.py:63-65 | digging with `get` through the keys in order; from None the result is None |
| Functools2.ComposeGets | functools2/__init__.py:101-103 | the `reduce` of composed `get` partials applies the first function, then digs through the keys in order |
| Functools2.GetterAsWritten | functools2/__init__.py:89-103 | `getter` as written: a function of no arguments exactly when there are no keys, otherwise one that digs through the keys in order |
| Functools2.GetterOfNoKeysRaises | functools2/__init__.py:89-90 | as written, the getter of no keys cannot be applied to an object |
| Functools2.Getter | functools2/__init__.py:76-103 | `getter(k1..kn)(obj)` is `get(kn, ... get(k1, obj))`; with no keys, None |
| Functools2.GetterAgreesWithKeys | functools2/__init__.py:92-103 | with at least one key, the getter as written and as corrected agree |
| Functools2.GetPathSplit | functools2/__init__.py:101-103 | digging through the keys splits at any key |
| Functools2.GetterNoneOnceMissing | functools2/__init__.py:76-103 | once a step yields None, the getter yields None |
| Functools2.GetterFindsCity | fp/tests.py:497-498 | `getter("addresses", 0, "city")` finds Reston |
| Functools2.GetterFindsName | fp/tests.py:500-503 | `getter("name")` finds Eric |
| Functools2.GetterMissesAddress | fp/tests.py:505-506 | no address gives None |
| Functools2.GetterMissesCity | fp/tests.py:508-509 | an address without a city gives None |
| Functools2.IAnd | functools2/__init__.py:115-118 | the conjunction of the items |
| Functools2.IOr | functools2/__init__.py:127-130 | the disjunction of the items |
| Functools2.Map | functools2/__init__.py:124 | `imap(f, xs)` is a new sequence of the same length whose items are `f` of the items at the same positions |
| Functools2.IAll | functools2/__init__.py:121-124 | `iall(f, xs)` holds exactly when `f` holds for every item |
| Functools2.IAny | functools2/__init__.py:133-136 | `iany(f, xs)` holds exactly when `f` holds for some item |
| Functools2.IAllIAnyAreAllMapAnyMap | functools2/__init__.py:121-136 | `iall`/`iany` hold exactly when `f` holds for every/some item, as `allmap`/`anymap` |
| Functools2.ReducerTests | fp/tests.py:294-350 | the tests of `iall` and `iany` over evens and odds |
| Functools2.ITake | functools2/__init__.py:147-153 | the counter loop yields the first `max(n, 0)` items, or all when there are fewer |
| Functools2.IDrop | functools2/__init__.py:164-169 | the counter loop skips the first `max(n, 0)` items and yields the rest |
| Functools2.ITakeIDropSplit | functools2/__init__.py:147-169 | what `itake(n)` and `idrop(n)` yield concatenates back to the input |
| Functools2.ITakeIDropVersusIslice | functools2/__init__.py:147-169 | the counter loops agree with the `islice`-based `itake`/`idrop` of the top-level package on every count `islice` accepts; on a negative count `islice` raises ValueError while the loops yield nothing and everything |
| Functools2.ITakeWhile | functools2/__init__.py:156-161 | the longest prefix whose items satisfy the predicate: a prefix, all satisfying, and stopped only at a failing item |
| Functools2.ITakeWhileStopsAtFirstFailure | fp/tests.py:404-421 | the test: items below 4 from 1, 2, 3, 4 and anything after are 1, 2, 3 |
| Functools2.Odd | functools2/__init__.py:188 | `odd = c(not_, even)` holds exactly when `even` does not |
| Functools2.OddIsNotEven | functools2/__init__.py:184-188 | `odd = c(not_, even)` is the negation of `even`, and agrees with `fp.odd` |
| StatCollector.Grouped | examples/stat_collector.py:75-99 | what `collect_stats` returns: exactly the records' hosts, each mapped to its list of application dicts |
| StatCollector.Apps | examples/stat_collector.py:90-93 | a host's distinct applications in first-seen order, no more of them than records |
| StatCollector.AppDictOf | examples/stat_collector.py:91-97 | a fresh dict updated by that application's records in order; it always holds "application" |
| StatCollector.Row | examples/stat_collector.py:86-97 | one dict per application that `Apps` lists, each holding "application" |
| StatCollector.AppsMembers | examples/stat_collector.py:90-93 | an application is listed for a host exactly when some record pairs them |
| StatCollector.AppsDistinct | examples/stat_collector.py:90-93 | no application is listed twice for a host |
| StatCollector.AppsGrowByAppending | examples/stat_collector.py:90-93 | later records never reorder what is already listed: first-seen order |
| StatCollector.AppsOfAbsentHost | examples/stat_collector.py:86-88 | a host without records has no applications |
| StatCollector.AppDictKeys | examples/stat_collector.py:91-97 | an application dict holds "application" and exactly the keys of that application's records |
| StatCollector.AppDictLastRecordWins | examples/stat_collector.py:94-97 | a key holds the value of the last record that set it |
| StatCollector.AppDictName | examples/stat_collector.py:91 | "application" holds the application's name unless a record of it has that key |
| StatCollector.GroupedShape | examples/stat_collector.py:80-93 | the hosts are exactly the records' hosts, each with one dict per listed application, in order |
| StatCollector.GroupedEmpty | examples/stat_collector.py:76-99 | no records give an empty result |
| StatCollector.HostsSnoc | examples/stat_collector.py:86-88 | one record more adds its host |
| StatCollector.AppDictUntouched | examples/stat_collector.py:90-91 | before its first record, an application's dict is the fresh one |
| StatCollector.AppsSnoc | examples/stat_collector.py:90-93 | one record more appends its application when new |
| StatCollector.RowSnoc | examples/stat_collector.py:90-97 | one record more updates, in its host's list, only its own application's dict |
| StatCollector.AbsentHostRow | examples/stat_collector.py:86-88 | a new host starts with an empty list and no positions |
| StatCollector.CollectedSnoc | examples/stat_collector.py:80-97 | the loop's invariant is kept by each record; other hosts keep their lists |
| StatCollector.RegisterNew | examples/stat_collector.py:90-93 | a new application's dict is appended at the end of its host's list and its position recorded |
| StatCollector.RegisterKnown | examples/stat_collector.py:94-95 | a known application changes neither the list nor the positions |
| StatCollector.CollectedIsGrouped | examples/stat_collector.py:99 | once every record is in, the invariant is the result |
| StatCollector.OtherHostsSnoc | examples/stat_collector.py:80-97 | a record leaves every other host's applications and dicts unchanged |
| StatCollector.CollectStats | examples/stat_collector.py:75-99 | the loop returns the grouping of every record |
| StatCollector.OtherHostsAfter | examples/stat_collector.py:80-97 | records of other hosts coming later change no host's list |
| StatCollector.OtherHostsBefore | examples/stat_collector.py:80-97 | records of other hosts coming earlier change no host's list |
| StatCollector.RowIgnoresOtherHosts | examples/stat_collector.py:80-97 | a host's list depends only on its own records |
| StatCollector.BlockGroups | examples/stat_collector.py:5-73 | one host's four records of the example group into its two application dicts |
| StatCollector.ExampleGroups | examples/stat_collector.py:102-109 | `collect_stats(data) == expected` |

## Left out

- `examples/urlrouter.py`: it matches regular expressions through `re` and depends on helpers that the source does not define.
- `collect_stats_fp`, `reduce_app_group` and `reduce_host_group` in `examples/stat_collector.py`: they depend on `mergedict`, `igroupby`, `imap` and `getter` from `fp`, which `fp/__init__.py` does not define.
- `callreturn` (fp/__init__.py:102-119): it mutates an arbitrary object through a method the caller supplies.
- True division (`div`), because it is floating point. `functools2.floordiv` is used by a test but is not defined in the source.
- The operators re-exported from `operator`, and `in_`, `not_in`, `identity`, `iadd`, `iconcat_map`, `isplit_at`, `izip_with`, `is_none` and `not_none` in `functools2`: they are outside the core modelled here. Some are more than a call of a builtin: `isplit_at` is a generator yielding `itake(i, iterable)` and then the iterable itself (not an `iter` of it, unlike the top-level `isplitat`); `is_none` is `x is None` and `not_none` is `c(not_, is_none)`; `identity` returns its argument; `iconcat_map` is `reduce` over `imap`.
- The abstract `Monad.bind` and `MonadIter`: they only raise NotImplementedError. Each concrete monad defines its own `Bind`, and Maybe its `Iter` and `FromIterable`.
- Maybe's `catch` and `ret`, Either's `catch`, `sequence` and `mapM`: they are not defined in the source (Either defines only `ret` and `fail`, either.py:72-78). `lookup`, with Maybe and with Either alike, is given its success and failure outcomes directly.
- The reprs: `Maybe.__repr__` (maybe.py:18-19) prints `Maybe(...)`, and `Left`/`Right` print `Left(...)`/`Right(...)` (either.py:138-139, 167-168). The model has no string forms; the `Just(...)`/`Nothing` form that the doctests of `fp/collections/__init__.py` show is not what these reprs print, and the doctests are modelled on values.
- Laziness and the generator protocol: iterators are finite sequences. `Fp.AllMapDecidedByPrefix`, `Fp.AnyMapDecidedByPrefix` and `Functools2.ITakeWhileStopsAtFirstFailure` state what the crashing-generator tests rely on: the answer depends only on the items up to the deciding one.
- Exceptions: `from_just` on Nothing, `quot` by zero and a negative count to the top-level package's `itake`, `idrop` and `isplitat` are modelled as raised outcomes. `IO.fail` becomes a failure value. An exception raised inside an IO action or a bound function is not modelled.
- Fp.Take, Fp.Drop and Fp.SplitAt take `sys.maxsize` as on a 64-bit build; on other builds `islice` refuses a smaller range of counts.
- Console output: `printLn` appends to an abstract trace.
- Object identity: `Left` and `Right` have no `__eq__`, and `Maybe.__eq__` raises AttributeError against a non-Maybe. The model uses structural equality.
- Python values: dict keys and set elements are strings or integers; floats, tuples and other objects are not modelled. `get` on a set takes its membership test from `issubset`, which only sets have here.
- Fp.Trampoline: a final result that is itself callable is not modelled. `trampoline` would call it again, while `Done` stops there. No caller in the core produces one, because `get_nested` ends on a Maybe or an Either.
- Fp.Trampoline: it is proved for thunk chains that finish within a ghost fuel bound. A chain that never finishes, on which the Python loop runs forever, is not modelled.
- StatCollector.CollectStats: a record lacking one of its four fields, which raises KeyError in the source, is not modelled, because a record is a datatype with all four fields.
- `functools2.c` and `functools2.even` are the same definitions as `fp.c` and `fp.even`, and are modelled once, in `Fp`.
- `six`, `fp.missing_six` and `functools.wraps`: library glue.

## Findings

| source | as written | input that shows it | evidently intended | confidence | as-written member | corrected member |
|---|---|---|---|---|---|---|
| functools2/__init__.py:89-90 | `getter()` with no keys returns this module's `const(None)`, which is `lambda: None` and takes no arguments | `getter()({})` raises TypeError, because the function takes no object | a getter that answers None for any object, as the docstring's "returns default if any of the keys are missing" describes | medium, not executed | Functools2.GetterOfNoKeysRaises | Functools2.Getter |
