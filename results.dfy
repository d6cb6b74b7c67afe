/** Outcomes of the catalog handlers: a value or one of the typed errors the
    controllers answer with instead of writing to the store. */
module Results {

  datatype Option<+T> = None | Some(value: T)

  /** The field a DuplicateKey or InvalidReference error is about. */
  datatype Field =
    | Serial | Url | Nombre
    | GeneroRef | DirectorRef | ProductoraRef | TipoRef

  datatype Error =
    | NotFound                    // no record with the requested id (404)
    | DuplicateKey(field: Field)  // a unique field would be shared (400)
    | InvalidReference(field: Field)  // a reference is missing or not Activo (400)
    | ValidationFailure           // the record fails its schema when saved (400)

  datatype Result<+T> = Ok(value: T) | Err(error: Error)

  /** `findById` on one table: the stored record, or nothing. */
  function Get<K, V>(m: map<K, V>, k: K): Option<V>
  {
    if k in m then Some(m[k]) else None
  }
}
