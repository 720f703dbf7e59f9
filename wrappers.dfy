/** Option and Result, the failure-carrying values used across the model. */
module Wrappers {

  datatype Option<+T> = None | Some(value: T)

  datatype Result<+T, +E> = Ok(value: T) | Err(error: E)

  /** The exceptions the modelled code throws, by the JVM class that would be raised. */
  datatype Failure =
    | NumberFormat            // String.toLong / String.toInt rejected the text
    | InvalidDateFormat       // DateTime.parse(s, yyyy-MM-dd) threw IllegalArgumentException
    | NoSuchElement           // List.first() on an empty list
    | TransientConnection     // java.sql.SQLTransientConnectionException from the pool
    | StoreError              // any other exception raised by the database layer
    | SequenceExhausted       // nextval: the id sequence has reached its maximum value
    | UniqueViolation         // an UPDATE that would give two rows the same primary key
}
