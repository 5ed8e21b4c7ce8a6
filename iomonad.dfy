/** The IO monad: a deferred action. The only effect in the library is
    printing, so an action is modelled as a function from the output written
    so far (the world) to a result and the new output. Building an IO value
    writes nothing; only `Run` threads the world, and it runs the action anew
    on every call. */
module IOMonad {
  import opened Monad

  /** The lines printed so far, oldest first. */
  type World = seq<string>

  datatype IO<T> = IO(action: World -> (T, World))

  /** `run()`: perform the action on the current world. */
  function Run<T>(m: IO<T>, w: World): (r: (T, World))
    ensures r == m.action(w)
  {
    m.action(w)
  }

  /** `IO.ret(v)`: an action that answers `v` and prints nothing. */
  function Ret<T>(v: T): (m: IO<T>)
    ensures forall w :: Run(m, w) == (v, w)
  {
    IO(w => (v, w))
  }

  /** `bind(f)`: an action that runs `m`, gives its value to `f` and runs
      the action `f` returns, effects in that order. */
  function Bind<T, U>(m: IO<T>, f: T -> IO<U>): (r: IO<U>)
    ensures forall w :: Run(r, w) == Run(f(Run(m, w).0), Run(m, w).1)
  {
    IO(w => var (x, w1) := Run(m, w); Run(f(x), w1))
  }

  /** `bind_(g)`: bind with the value discarded. */
  function BindDiscard<T, U>(m: IO<T>, g: () -> IO<U>): (r: IO<U>)
    ensures forall w :: Run(r, w) == Run(g(), Run(m, w).1)
  {
    Bind(m, _ => g())
  }

  /** The `io` decorator: calling the decorated function only captures its
      argument; running the IO calls the wrapped function with it. */
  function Io<A(!new), T>(f: (A, World) -> (T, World)): (lifted: A -> IO<T>)
    ensures forall a, w :: Run(lifted(a), w) == f(a, w)
  {
    a => IO(w => f(a, w))
  }

  /** The body of `printLn`: write one line. The unit result stands for the
      None that `print` returns. */
  function PrintLine(s: string, w: World): (r: (Unit, World))
    ensures r.0 == Noop
    ensures |r.1| == |w| + 1 && r.1[..|w|] == w && r.1[|w|] == s
  {
    (Noop, w + [s])
  }

  /** `printLn(s)`, the `io`-decorated print. */
  function PrintLn(s: string): (m: IO<Unit>)
    ensures forall w :: Run(m, w) == (Noop, w + [s])
  {
    Io(PrintLine)(s)
  }

  /** The doctest: `printLn("Hello").bind_(lambda: printLn("World")).run()`
      prints Hello, then World. */
  lemma HelloWorld(w: World)
    ensures Run(BindDiscard(PrintLn("Hello"), () => PrintLn("World")), w) == (Noop, w + ["Hello", "World"])
  {
    assert Run(PrintLn("Hello"), w).1 == w + ["Hello"];
    assert w + ["Hello"] + ["World"] == w + ["Hello", "World"];
  }

  /** `IO.ret("Hello").bind(printLn).run()` prints Hello. */
  lemma RetBindPrint(w: World)
    ensures Run(Bind(Ret("Hello"), PrintLn), w) == (Noop, w + ["Hello"])
  {
  }

  /** No caching: running the same action twice prints twice. */
  lemma RunTwicePrintsTwice(s: string, w: World)
    ensures Run(PrintLn(s), Run(PrintLn(s), w).1).1 == w + [s, s]
  {
  }

  /** The monad laws, observed through `run`. */
  lemma LeftIdentity<T, U>(x: T, f: T -> IO<U>, w: World)
    ensures Run(Bind(Ret(x), f), w) == Run(f(x), w)
  {
  }

  lemma RightIdentity<T>(m: IO<T>, w: World)
    ensures Run(Bind(m, (x: T) => Ret(x)), w) == Run(m, w)
  {
  }

  lemma Associativity<T, U, V>(m: IO<T>, f: T -> IO<U>, g: U -> IO<V>, w: World)
    ensures Run(Bind(Bind(m, f), g), w) == Run(Bind(m, (x: T) => Bind(f(x), g)), w)
  {
  }

  /** What calling `IO.fail(e)` does: it raises at once, so it never yields an IO. */
  datatype Raised<E> = Raised(exception: E)

  /** `IO.fail(e)`. */
  function Fail<E>(e: E): (r: Raised<E>)
    ensures r.exception == e
  {
    Raised(e)
  }
}
