/** Outcomes shared by every part of the engine. */
module Base {

  datatype Option<+T> = None | Some(value: T)

  /** The ways a conversion ends without a result. In the original program
      each of these terminates the process (`std::exit`, an uncaught
      `std::out_of_range` or `std::regex_error`) or never returns. */
  datatype Failure =
    | ReplaceOutOfRange(compiled: string)  // `std::string::replace` past the end of a compiled pattern
    | MissingFile(name: string)            // an included file cannot be opened
    | IncludeTooDeep(name: string)         // includes nested deeper than the given bound
    | NoFixpoint(key: string)              // a rule still matched after the given number of rewrites
    | RegexError(compiled: string)         // `std::regex` refuses a compiled pattern (a backreference to a group not yet opened)

  datatype Result<+T> = Ok(value: T) | Err(failure: Failure)
}
