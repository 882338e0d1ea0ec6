/** The optional result shared by the three models. */
module Wrappers {

  /** Python's `None`-or-value results (`backtrack`, `minimax`, `make_safe_move`, ...). */
  datatype Option<+T> = None | Some(value: T)
}
