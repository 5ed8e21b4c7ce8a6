/** The host language's dynamic values, as far as this library looks into
    them, and its subscript operator `c[k]` on dicts, lists, strings and sets. */
module PyValue {

  datatype Option<T> = None | Some(value: T)

  /** Hashable scalars: what may be a dict key or a set element. */
  datatype Key = KStr(s: string) | KInt(i: int)

  /** A dynamically typed value. `VNone` is the language's `None`. */
  datatype Value =
    | VNone
    | VInt(i: int)
    | VStr(s: string)
    | VList(items: seq<Value>)
    | VMap(entries: map<Key, Value>)
    | VSet(elems: set<Key>)

  /** A key seen as an ordinary value. */
  function FromKey(k: Key): (v: Value)
    ensures v != VNone
  {
    match k
    case KStr(s) => VStr(s)
    case KInt(i) => VInt(i)
  }

  /** The three exceptions a subscript can raise. */
  datatype LookupError = KeyError(key: Key) | IndexError | TypeError

  /** The exceptions the arithmetic and slicing builtins the library calls
      raise on arguments they refuse. */
  datatype BuiltinError = ValueError | ZeroDivisionError

  /** The outcome of calling such a builtin: what it returns, or what it raises. */
  datatype Outcome<T> = Returns(value: T) | Raises(error: BuiltinError)

  /** The outcome of evaluating `c[k]`: a value, or the exception raised. */
  datatype Subscripted = Found(value: Value) | Raised(error: LookupError)

  /** The language's index rule for a sequence of length `n`: an index in
      `[0, n)` is taken as it is, one in `[-n, 0)` counts from the end, and any
      other index is out of range. */
  function Position(i: int, n: nat): (r: Option<nat>)
    ensures r.Some? <==> 0 <= i + n && i < n
    ensures r.Some? ==> r.value < n && r.value == if i >= 0 then i else i + n
  {
    if 0 <= i < n then Some(i)
    else if 0 <= i + n && i < 0 then Some(i + n)
    else None
  }

  /** `c[k]`: a dict yields the entry or raises KeyError; a list or string
      takes an integer index (IndexError when out of range, TypeError for a
      string key); indexing a string yields a one-character string; anything
      else, sets included, raises TypeError. */
  function Subscript(c: Value, k: Key): (r: Subscripted)
    ensures c.VMap? ==> r == if k in c.entries then Found(c.entries[k]) else Raised(KeyError(k))
    ensures (c.VList? || c.VStr?) && k.KStr? ==> r == Raised(TypeError)
    ensures c.VList? && k.KInt? ==>
              r == if 0 <= k.i < |c.items| then Found(c.items[k.i])
                   else if 0 <= k.i + |c.items| && k.i < 0 then Found(c.items[k.i + |c.items|])
                   else Raised(IndexError)
    ensures c.VStr? && k.KInt? ==>
              r == if 0 <= k.i < |c.s| then Found(VStr([c.s[k.i]]))
                   else if 0 <= k.i + |c.s| && k.i < 0 then Found(VStr([c.s[k.i + |c.s|]]))
                   else Raised(IndexError)
    ensures !(c.VMap? || c.VList? || c.VStr?) ==> r == Raised(TypeError)
  {
    match c
    case VMap(m) =>
      if k in m then Found(m[k]) else Raised(KeyError(k))
    case VList(xs) =>
      (match k
       case KStr(_) => Raised(TypeError)
       case KInt(i) =>
         var p := Position(i, |xs|);
         if p.Some? then Found(xs[p.value]) else Raised(IndexError))
    case VStr(s) =>
      (match k
       case KStr(_) => Raised(TypeError)
       case KInt(i) =>
         var p := Position(i, |s|);
         if p.Some? then Found(VStr([s[p.value]])) else Raised(IndexError))
    case _ => Raised(TypeError)
  }
}
