/** The error taxonomy of the to-do core. The source raises ValueError from
    the validators and IndexError from delete_task; here a call that may
    raise returns an Outcome instead, and the message text is replaced by the
    field whose check failed. */
module Outcomes {

  /** The field a validator checks; it stands for the distinct messages of the
      three ValueErrors the validators raise. */
  datatype Field = NameField | DueDateField | PriorityField

  datatype Error =
    | InvalidInput(field: Field)  // ValueError from a validator
    | IndexOutOfRange             // IndexError from an index outside the list

  /** A call that either returns normally or raises one error. */
  datatype Outcome = Pass | Fail(error: Error)

  datatype Option<+T> = None | Some(value: T)
}
