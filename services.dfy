/** Results of the calls the program makes to services it does not own (the
    hosted database and its authentication API). The model never performs these
    calls: each handler receives what the awaited call did as a parameter. */
module Services {

  datatype Option<T> = None | Some(value: T)

  /** The error object a Supabase call resolves with: a machine-readable code
      and a human-readable message. */
  datatype ServiceError = ServiceError(code: string, message: string)

  /** What an awaited call did: resolved with no error, resolved with an error
      object, or threw an exception. */
  datatype Outcome = Ok | Err(error: ServiceError) | Threw
}
