/**
 * The values the roster code passes around: a student record (a Python dict
 * with the keys first_name, last_name and present), the errors it raises,
 * and the wrappers that carry a result or an error.
 */
module Roster {

  datatype Option<T> = None | Some(value: T)

  /** The `present` entry of a student dict: `None` until attendance is first
      recorded, then `True` or `False`. */
  datatype Presence = Unrecorded | Recorded(isPresent: bool)

  datatype Student = Student(firstName: string, lastName: string, present: Presence)

  /** The exceptions the roster operations raise. */
  datatype Error =
    | FileNotFound(filename: string)                     // FileNotFoundError from a missing file
    | InvalidLine(line: string)                          // ValueError: a line without 2 or 3 fields
    | StudentNotFound(firstName: string, lastName: string)  // ValueError: no row to edit
    | EndOfInput                                         // EOFError: `input()` found no more answers

  /** A value, or the exception raised instead of returning it. */
  datatype Result<T> = Ok(value: T) | Err(error: Error)

  /** An operation run for its effect: it completed, or it raised. */
  datatype Outcome = Done | Failed(error: Error)
}
