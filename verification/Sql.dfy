/** Vocabulary shared by every component: optional values, results, and how a
    call into the database can go wrong. */
module Sql {
  datatype Option<+T> = None | Some(value: T)

  datatype Result<+T, +E> = Ok(value: T) | Err(error: E)

  /** Byte strings (keys, sessions, tokens): compared and copied, never looked into. */
  type Bytes = string

  /** What the database does to the numbered steps of one call: it either carries all of
      them out, or reports an error at the given step and never reaches the later ones. */
  datatype Fault = NoFault | FailAt(step: nat)

  predicate Fails(fault: Fault, step: nat) {
    fault == FailAt(step)
  }
}
