/** Values shared by the modules of the model: optional values, results with an
    error message, and the open key/value annotations the service attaches to
    messages and passages. */
module Common {

  datatype Option<+T> = None | Some(value: T)

  /** A value, or the message of the exception the source raises instead. */
  datatype Result<+T> = Ok(value: T) | Err(message: string)

  /** A JSON-like annotation dictionary. Its values are never inspected by the
      core, so they are kept as their textual form. */
  type Metadata = map<string, string>

  /** Python's `metadata or {}`: a missing (`None`) or empty dictionary becomes `{}`. */
  function OrEmpty(metadata: Option<Metadata>): (m: Metadata)
    ensures metadata.None? ==> m == map[]
    ensures metadata.Some? ==> m == metadata.value
  {
    match metadata
    case None => map[]
    case Some(d) => if d == map[] then map[] else d
  }
}
