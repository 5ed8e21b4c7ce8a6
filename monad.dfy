/** What the monad base module provides to the concrete monads: the unit
    value `noop` that `put` and `modify` answer with. It also stands for the
    None that running `printLn` returns, its body being a bare `print`.
    `bind_` (bind with the value discarded) is written once per concrete
    monad, as `BindDiscard` in each of their modules. */
module Monad {

  datatype Unit = Noop
}
