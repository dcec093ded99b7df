/**
 The failure vocabulary of the tool. Every error is fatal: it is reported at
 the top level and the run produces no entries.
 */
module Errors {

  /** An optional value: a compiled pattern, or the raw value of a variable. */
  datatype Option<+T> = None | Some(value: T)

  /** Why a run aborted. Only the variant and the variable name are kept;
      the human-readable message text is not modelled. */
  datatype Error =
    | InvalidPattern                  // the filter pattern does not compile
    | UnsetVariable(name: string)     // a requested variable is absent and fail_unset is on
    | UndecodableValue(name: string)  // a variable's value is not valid Unicode
    | UnreadableKey                   // all-variables mode: neither value nor key decodes

  /** Either the value of a successful step or the error that aborted it. */
  datatype Result<+T> = Ok(value: T) | Err(error: Error)
}
