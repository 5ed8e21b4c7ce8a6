/** The State monad: a wrapped transition from a state to a value and a new
    state. Nothing is mutated; `bind` threads the state through. */
module StateMonad {
  import opened Monad

  datatype State<!S, T> = State(transition: S -> (T, S))

  /** `run(init)`: the value and the state the wrapped transition gives
      from `init`. */
  function Run<S, T>(m: State<S, T>, init: S): (r: (T, S))
    ensures r == m.transition(init)
  {
    m.transition(init)
  }

  /** `State.ret(v)`: answer `v`, leave the state alone. */
  function Ret<S(!new), T>(v: T): (m: State<S, T>)
    ensures forall s :: Run(m, s) == (v, s)
  {
    State(s => (v, s))
  }

  /** `bind(f)`: run `m`, give its value to `f`, run the result on the new state. */
  function Bind<S(!new), T, U>(m: State<S, T>, f: T -> State<S, U>): (r: State<S, U>)
    ensures forall s :: Run(r, s) == Run(f(Run(m, s).0), Run(m, s).1)
  {
    State(s => var (v0, s0) := Run(m, s); Run(f(v0), s0))
  }

  /** `get()`: answer the state itself. */
  function Get<S(!new)>(): (m: State<S, S>)
    ensures forall s :: Run(m, s) == (s, s)
  {
    State(s => (s, s))
  }

  /** `put(x)`: ignore the state, make `x` the new one, answer noop. */
  function Put<S(!new)>(x: S): (m: State<S, Unit>)
    ensures forall s :: Run(m, s) == (Noop, x)
  {
    State(_ => (Noop, x))
  }

  /** `modify(f)`: `get().bind(x => put(f(x)))`. */
  function Modify<S(!new)>(f: S -> S): (m: State<S, Unit>)
    ensures forall s :: Run(m, s) == (Noop, f(s))
  {
    Bind(Get(), x => Put(f(x)))
  }

  /** `gets(f)`: `get().bind(x => State.ret(f(x)))`. */
  function Gets<S(!new), T>(f: S -> T): (m: State<S, T>)
    ensures forall s :: Run(m, s) == (f(s), s)
  {
    Bind(Get(), x => Ret(f(x)))
  }

  /** `bind_(g)`: bind with the value discarded. */
  function BindDiscard<S(!new), T, U>(m: State<S, T>, g: () -> State<S, U>): (r: State<S, U>)
    ensures forall s :: Run(r, s) == Run(g(), Run(m, s).1)
  {
    Bind(m, _ => g())
  }

  /** The doctests: `get().bind(x => ret(x + 1)).run(0) == (1, 0)`,
      `modify(x => x + 1).run(0) == (noop, 1)`, `gets(x => x + 1).run(0) == (1, 0)`. */
  lemma Doctests()
    ensures Run(Bind(Get(), (x: int) => Ret(x + 1)), 0) == (1, 0)
    ensures Run(Modify((x: int) => x + 1), 0) == (Noop, 1)
    ensures Run(Gets((x: int) => x + 1), 0) == (1, 0)
  {
  }

  /** The monad laws, observed through `run`. */
  lemma LeftIdentity<S(!new), T, U>(x: T, f: T -> State<S, U>, s: S)
    ensures Run(Bind(Ret(x), f), s) == Run(f(x), s)
  {
  }

  lemma RightIdentity<S(!new), T>(m: State<S, T>, s: S)
    ensures Run(Bind(m, (x: T) => Ret(x)), s) == Run(m, s)
  {
  }

  lemma Associativity<S(!new), T, U, V>(m: State<S, T>, f: T -> State<S, U>, g: U -> State<S, V>, s: S)
    ensures Run(Bind(Bind(m, f), g), s) == Run(Bind(m, (x: T) => Bind(f(x), g)), s)
  {
  }
}
