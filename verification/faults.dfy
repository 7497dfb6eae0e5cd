/** Failure results for the places where the C++ code has no defined
    behaviour or throws: indexing `m_rows` past its end, and
    `std::string::substr` with a start position past the end. */
module Faults {

  datatype Fault =
    | RowIndexOutOfRange   // `m_rows[i]` with `i >= m_rows.size()`
    | SubstrOutOfRange     // `substr(pos, ...)` with `pos > size()`, which throws

  datatype Result<+T> = Ok(value: T) | Err(fault: Fault) {

    predicate IsFailure() {
      Err?
    }

    function PropagateFailure<U>(): Result<U>
      requires Err?
    {
      Err(fault)
    }

    function Extract(): T
      requires Ok?
    {
      value
    }
  }
}
