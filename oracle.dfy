/**
 * Replies of the collaborators the scripts talk to over the network or to
 * the database (the feature services, the attachment endpoints, PostgreSQL).
 * A call either answers with a value or fails; which one happens is an input
 * of the model, never something it decides.
 */
module Oracle {

  /** The answer to one request: a value, or a failure (a thrown error). */
  datatype Reply<+T> = Ok(value: T) | Err

}
