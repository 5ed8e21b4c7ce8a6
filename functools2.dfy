/** Operator and higher-order helpers: a None-tolerant `get`, the composed
    `getter`, counter-based `itake`/`idrop`, `itake_while`, the reducers
    `iand`/`iall`/`ior`/`iany`, `flip`, `quot` and the parity predicates.
    `c` is the same composition as the top-level package's and `even` the
    same predicate; both are used from there. */
module Functools2 {
  import opened PyValue
  import Fp
  import E = EitherMonad
  import Collections

  /** `quot(x, y)`: floor division. Dafny's `/` rounds so that the remainder
      is never negative, which differs for a negative divisor; the floor is
      written out. A zero divisor raises ZeroDivisionError. */
  function Quot(x: int, y: int): (r: Outcome<int>)
    ensures r.Raises? <==> y == 0
    ensures r.Raises? ==> r.error == ZeroDivisionError
    ensures y > 0 ==> r.value * y <= x < r.value * y + y
    ensures y < 0 ==> r.value * y + y < x <= r.value * y
  {
    if y == 0 then Raises(ZeroDivisionError)
    else if y > 0 then Returns(x / y)
    else
      var d := -y;
      var q := (-x) / d;
      assert q * d <= -x < q * d + d;
      assert q * y == -(q * d);
      Returns(q)
  }

  /** The test's `floordiv(3, 2) == 1`, where floor and Euclidean division
      part, and division by zero. */
  lemma QuotExamples()
    ensures Quot(3, 2) == Returns(1)
    ensures Quot(-7, 2) == Returns(-4)
    ensures Quot(7, -2) == Returns(-4) && 7 / -2 == -3
    ensures Quot(1, 0) == Raises(ZeroDivisionError)
  {
  }

  /** `const(x)`: a function of no arguments answering `x`. */
  function Const<T>(x: T): (k: () -> T)
    ensures k() == x
  {
    () => x
  }

  /** `flip(f)`: swap the two arguments. */
  function Flip<A(!new), B(!new), R>(f: (A, B) -> R): (g: (B, A) -> R)
    ensures forall y, x :: g(y, x) == f(x, y)
  {
    (y, x) => f(x, y)
  }

  lemma FlipInvolution<A(!new), B(!new), R>(f: (A, B) -> R, x: A, y: B)
    ensures Flip(Flip(f))(x, y) == f(x, y)
  {
  }

  // ---------------------------------------------------------------------
  // get and getter
  // ---------------------------------------------------------------------

  /** `get(key, obj)`: None for a None object; for a set, the key itself if
      it is a member; otherwise `obj[key]`, or None when that raises
      KeyError, IndexError or TypeError. */
  function Get(key: Key, obj: Value): (r: Value)
    ensures obj == VNone ==> r == VNone
    ensures obj.VSet? ==> r == if key in obj.elems then FromKey(key) else VNone
    ensures obj != VNone && !obj.VSet? ==>
              r == if Subscript(obj, key).Found? then Subscript(obj, key).value else VNone
  {
    if obj == VNone then VNone
    else if obj.VSet? && key in obj.elems then FromKey(key)
    else
      match Subscript(obj, key)
      case Found(v) => v
      case Raised(_) => VNone
  }

  /** Outside sets, `get` is an Either lookup with None as the default. */
  lemma GetIsLookupWithDefault(key: Key, obj: Value)
    requires !obj.VSet?
    ensures Get(key, obj) == E.Default(Collections.LookupEither(obj, key), VNone)
  {
  }

  /** The tests of `get`. */
  lemma GetTests()
    ensures Get(KStr("test"), VNone) == VNone
    ensures Get(KStr("test"), VMap(map[])) == VNone
    ensures Get(KStr("test"), VList([])) == VNone
    ensures Get(KInt(0), VList([])) == VNone
    ensures Get(KStr("a"), VSet({})) == VNone
    ensures Get(KStr("test"), VMap(map[KStr("test") := VStr("val")])) == VStr("val")
    ensures Get(KInt(0), VList([VStr("test")])) == VStr("test")
    ensures Get(KStr("a"), VSet({KStr("a")})) == VStr("a")
  {
  }

  /** `p(get, key)`. */
  function GetKey(key: Key): (g: Value -> Value)
    ensures forall obj :: g(obj) == Get(key, obj)
  {
    obj => Get(key, obj)
  }

  /** Digging with `get` through the keys in order; once None is reached it
      stays None. */
  function GetPath(keys: seq<Key>, obj: Value): (r: Value)
    ensures obj == VNone ==> r == VNone
    decreases |keys|
  {
    if |keys| == 0 then obj else GetPath(keys[1..], Get(keys[0], obj))
  }

  /** `reduce(lambda f, key: c(p(get, key), f), keys, first)`: the composed
      partials apply `first`, then dig through the keys left to right. */
  function ComposeGets(first: Value -> Value, keys: seq<Key>): (h: Value -> Value)
    ensures forall obj :: h(obj) == GetPath(keys, first(obj))
    decreases |keys|
  {
    if |keys| == 0 then first else ComposeGets(Fp.C(GetKey(keys[0]), first), keys[1..])
  }

  /** A callable as `getter` returns it: either of no arguments or of one. */
  datatype Callable = Nullary(answer: Value) | Unary(fn: Value -> Value)

  /** Calling a callable with one object: None stands for the TypeError
      raised when it takes no arguments. */
  function CallWith(g: Callable, obj: Value): Option<Value>
  {
    match g
    case Nullary(_) => None
    case Unary(f) => Some(f(obj))
  }

  /** `getter(*keys)` as written: with no keys it returns this module's
      `const(None)`, a function of no arguments. */
  function GetterAsWritten(keys: seq<Key>): (g: Callable)
    ensures g.Nullary? <==> |keys| == 0
    ensures g.Unary? ==> forall obj :: g.fn(obj) == GetPath(keys, obj)
  {
    if |keys| == 0 then Nullary(Const(VNone)())
    else if |keys| == 1 then Unary(GetKey(keys[0]))
    else Unary(ComposeGets(GetKey(keys[0]), keys[1..]))
  }

  /** As written, the getter of no keys cannot be applied to an object. */
  lemma GetterOfNoKeysRaises(obj: Value)
    ensures CallWith(GetterAsWritten([]), obj) == None
  {
  }

  /** `getter(*keys)` as intended: with no keys, a function answering None. */
  function Getter(keys: seq<Key>): (g: Value -> Value)
    ensures |keys| == 0 ==> forall obj :: g(obj) == VNone
    ensures forall obj :: |keys| > 0 ==> g(obj) == GetPath(keys, obj)
  {
    if |keys| == 0 then _ => VNone
    else
      ComposeGets(GetKey(keys[0]), keys[1..])
  }

  /** With at least one key, the getter as written and as intended agree. */
  lemma GetterAgreesWithKeys(keys: seq<Key>, obj: Value)
    requires |keys| > 0
    ensures CallWith(GetterAsWritten(keys), obj) == Some(Getter(keys)(obj))
  {
  }

  /** Digging splits at any key. */
  lemma {:induction false} GetPathSplit(keys: seq<Key>, i: nat, obj: Value)
    requires i <= |keys|
    ensures GetPath(keys, obj) == GetPath(keys[i..], GetPath(keys[..i], obj))
    decreases i
  {
    if i > 0 {
      assert keys[1..][i - 1..] == keys[i..];
      assert keys[..i][1..] == keys[1..][..i - 1];
      GetPathSplit(keys[1..], i - 1, Get(keys[0], obj));
    }
  }

  /** Once a step of the getter yields None, the result is None. */
  lemma GetterNoneOnceMissing(keys: seq<Key>, i: nat, obj: Value)
    requires i <= |keys| && GetPath(keys[..i], obj) == VNone
    ensures Getter(keys)(obj) == VNone
  {
    GetPathSplit(keys, i, obj);
  }

  function CityKeys(): seq<Key>
  {
    [KStr("addresses"), KInt(0), KStr("city")]
  }

  /** The getter tests: `getter("addresses", 0, "city")` on an address with a city. */
  lemma GetterFindsCity()
    ensures Getter(CityKeys())(Addresses([VMap(map[KStr("city") := VStr("Reston")])])) == VStr("Reston")
  {
    var keys := CityKeys();
    var a := VMap(map[KStr("city") := VStr("Reston")]);
    var o := Addresses([a]);
    assert Get(keys[0], o) == VList([a]);
    assert Get(keys[1], VList([a])) == a;
    assert Get(keys[2], a) == VStr("Reston");
    assert GetPath(keys[2..], a) == VStr("Reston");
    assert keys[1..][1..] == keys[2..];
    assert GetPath(keys[1..], VList([a])) == VStr("Reston");
  }

  /** ... and `getter("name")` on a dict with a name. */
  lemma GetterFindsName()
    ensures Getter([KStr("name")])(VMap(map[KStr("name") := VStr("Eric")])) == VStr("Eric")
  {
    assert [KStr("name")][1..] == [];
  }

  /** ... None when there is no address ... */
  lemma GetterMissesAddress()
    ensures Getter(CityKeys())(Addresses([])) == VNone
  {
    var keys := CityKeys();
    assert keys[..2][1..] == [keys[1]] && [keys[1]][1..] == [];
    assert Get(keys[0], Addresses([])) == VList([]);
    assert Get(keys[1], VList([])) == VNone;
    assert GetPath([keys[1]], VList([])) == VNone;
    assert GetPath(keys[..2], Addresses([])) == VNone;
    GetterNoneOnceMissing(keys, 2, Addresses([]));
  }

  /** ... and None when the address has no city. */
  lemma GetterMissesCity()
    ensures Getter(CityKeys())(Addresses([VMap(map[])])) == VNone
  {
    var keys := CityKeys();
    var e := VMap(map[]);
    assert Get(keys[0], Addresses([e])) == VList([e]);
    assert Get(keys[1], VList([e])) == e;
    assert Get(keys[2], e) == VNone;
    assert keys[..3] == keys;
    assert keys[1..][1..] == [keys[2]] && [keys[2]][1..] == [];
    assert GetPath([keys[2]], e) == VNone;
    assert GetPath(keys[1..], VList([e])) == VNone;
    assert GetPath(keys[..3], Addresses([e])) == VNone;
    GetterNoneOnceMissing(keys, 3, Addresses([e]));
  }

  function Addresses(items: seq<Value>): Value
  {
    VMap(map[KStr("addresses") := VList(items)])
  }

  // ---------------------------------------------------------------------
  // Reducers
  // ---------------------------------------------------------------------

  /** `iand(bs)`: the conjunction. */
  function IAnd(bs: seq<bool>): (r: bool)
    ensures r <==> forall i :: 0 <= i < |bs| ==> bs[i]
  {
    if |bs| == 0 then true else bs[0] && IAnd(bs[1..])
  }

  /** `ior(bs)`: the disjunction. */
  function IOr(bs: seq<bool>): (r: bool)
    ensures r <==> exists i :: 0 <= i < |bs| && bs[i]
  {
    if |bs| == 0 then false
    else if bs[0] then true
    else
      assert forall i :: 1 <= i < |bs| ==> bs[i] == bs[1..][i - 1];
      IOr(bs[1..])
  }

  /** `imap(f, xs)`: a new sequence of `f` applied to each item; nothing is
      updated in place. */
  function Map<T, R>(f: T -> R, xs: seq<T>): (ys: seq<R>)
    ensures |ys| == |xs| && forall i :: 0 <= i < |xs| ==> ys[i] == f(xs[i])
  {
    seq(|xs|, i requires 0 <= i < |xs| => f(xs[i]))
  }

  /** `iall(f, xs)`: `iand(imap(f, xs))`. */
  function IAll<T>(f: T -> bool, xs: seq<T>): (r: bool)
    ensures r <==> forall i :: 0 <= i < |xs| ==> f(xs[i])
  {
    IAnd(Map(f, xs))
  }

  /** `iany(f, xs)`: `ior(imap(f, xs))`. */
  function IAny<T>(f: T -> bool, xs: seq<T>): (r: bool)
    ensures r <==> exists i :: 0 <= i < |xs| && f(xs[i])
  {
    IOr(Map(f, xs))
  }

  /** They agree with the top-level package's `allmap` and `anymap`. */
  lemma IAllIAnyAreAllMapAnyMap<T>(f: T -> bool, xs: seq<T>)
    ensures IAll(f, xs) == Fp.AllMap(f, xs)
    ensures IAny(f, xs) == Fp.AnyMap(f, xs)
  {
    var ys := Map(f, xs);
    if IAny(f, xs) {
      var i :| 0 <= i < |ys| && ys[i];
      assert f(xs[i]);
    }
    if Fp.AnyMap(f, xs) {
      var i :| 0 <= i < |xs| && f(xs[i]);
      assert ys[i];
    }
  }

  /** The tests: over 2, 4, 6, 8 every item is even and none is odd. */
  lemma ReducerTests()
    ensures IAll(Fp.Even, [2, 4, 6, 8]) && !IAll(Odd, [2, 4, 6, 8])
    ensures IAny(Fp.Even, [1, 2, 3, 4, 5, 6, 7, 8, 9]) && !IAny(Odd, [2, 4, 6, 8])
  {
    var evens := [2, 4, 6, 8];
    assert Fp.Even(2) && Fp.Even(4) && Fp.Even(6) && Fp.Even(8);
    assert forall i :: 0 <= i < |evens| ==> Fp.Even(evens[i]) && !Odd(evens[i]);
    assert Fp.Even([1, 2, 3, 4, 5, 6, 7, 8, 9][1]);
  }

  // ---------------------------------------------------------------------
  // Iterators, on finite sequences
  // ---------------------------------------------------------------------

  function Max0(n: int): nat
  {
    if n > 0 then n else 0
  }

  /** `itake(n, xs)`: yield items while the counter is positive, decrementing it. */
  method ITake<T>(n: int, xs: seq<T>) returns (r: seq<T>)
    ensures r == Fp.Prefix(Max0(n), xs)
  {
    r := [];
    var k := n;
    var i := 0;
    while i < |xs|
      invariant 0 <= i <= |xs| && i <= Max0(n)
      invariant k == n - i
      invariant r == xs[..i]
    {
      if k > 0 {
        r := r + [xs[i]];
        k := k - 1;
      } else {
        break;
      }
      i := i + 1;
    }
  }

  /** `idrop(n, xs)`: skip items while the counter is positive, decrementing
      it, then yield the rest. */
  method IDrop<T>(n: int, xs: seq<T>) returns (r: seq<T>)
    ensures r == Fp.Suffix(Max0(n), xs)
  {
    r := [];
    var k := n;
    for i := 0 to |xs|
      invariant k == n - Fp.Min(i, Max0(n))
      invariant r == xs[Fp.Min(i, Max0(n))..i]
    {
      if k > 0 {
        k := k - 1;
      } else {
        r := r + [xs[i]];
      }
    }
  }

  /** Whatever the count, `itake` and `idrop` split the sequence. */
  lemma ITakeIDropSplit<T>(n: int, xs: seq<T>)
    ensures Fp.Prefix(Max0(n), xs) + Fp.Suffix(Max0(n), xs) == xs
  {
  }

  /** The counter loops agree with the top-level package's `islice`-based
      `itake` and `idrop` on every count `islice` accepts; on a negative
      count `islice` raises ValueError where the loops yield nothing from
      `itake` and everything from `idrop`. */
  lemma ITakeIDropVersusIslice<T>(n: int, xs: seq<T>)
    ensures 0 <= n <= Fp.MaxSize ==> Fp.Take(n, xs) == Returns(Fp.Prefix(Max0(n), xs))
    ensures 0 <= n <= Fp.MaxSize ==> Fp.Drop(n, xs) == Returns(Fp.Suffix(Max0(n), xs))
    ensures n < 0 ==> Fp.Take(n, xs).Raises? && Fp.Prefix(Max0(n), xs) == []
    ensures n < 0 ==> Fp.Drop(n, xs).Raises? && Fp.Suffix(Max0(n), xs) == xs
  {
  }

  /** `itake_while(p, xs)`: the longest prefix whose items satisfy `p`. */
  function ITakeWhile<T>(p: T -> bool, xs: seq<T>): (r: seq<T>)
    ensures r <= xs
    ensures forall i :: 0 <= i < |r| ==> p(r[i])
    ensures |r| < |xs| ==> !p(xs[|r|])
  {
    if |xs| == 0 || !p(xs[0]) then []
    else [xs[0]] + ITakeWhile(p, xs[1..])
  }

  /** The test: items below 4 from 1, 2, 3, 4, ... stop at 4, so what comes
      after 4 is never looked at. */
  lemma ITakeWhileStopsAtFirstFailure(rest: seq<int>)
    ensures ITakeWhile(x => x < 4, [1, 2, 3, 4] + rest) == [1, 2, 3]
  {
    var xs := [1, 2, 3, 4] + rest;
    assert xs[0] == 1 && xs[1] == 2 && xs[2] == 3 && xs[3] == 4;
  }

  // ---------------------------------------------------------------------
  // Predicates
  // ---------------------------------------------------------------------

  function Not(b: bool): bool
  {
    !b
  }

  /** `odd = c(not_, even)`. */
  function Odd(x: int): (r: bool)
    ensures r <==> !Fp.Even(x)
  {
    Fp.C(Not, Fp.Even)(x)
  }

  /** `odd` is the negation of `even`, and the same as the top-level package's `odd`. */
  lemma OddIsNotEven(x: int)
    ensures Odd(x) == !Fp.Even(x) == Fp.Odd(x)
  {
  }
}
