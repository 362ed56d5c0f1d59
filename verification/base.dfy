/** Shared vocabulary of the model: an optional value and Python's truth test on a role slot. */
module Base {

  /** A value that may be absent; `None` stands for Python's `None`. */
  datatype Option<+T> = None | Some(value: T)

  /** Python truthiness of a slot that holds an integer chat id: both `None` and `0` are false. */
  predicate Truthy(slot: Option<int>)
  {
    slot.Some? && slot.value != 0
  }
}
