/** The record types of the five collections, as their schemas declare them
    (the files under models/). Every stamp is a value of the catalog's logical clock. */
module Models {
  import opened Results

  /** Store-assigned identifier of a record of any kind. */
  type Id = nat

  /** A reading of the logical clock that replaces Date.now. */
  type Stamp = nat

  /** The `estado` enum of Genero, Productora and Director. */
  datatype Estado = Activo | Inactivo

  function EstadoName(e: Estado): string
  {
    match e
    case Activo => "Activo"
    case Inactivo => "Inactivo"
  }

  /** The schema's enum validator: only the two enum names are accepted. */
  function ParseEstado(s: string): (r: Option<Estado>)
    ensures r.Some? <==> s == "Activo" || s == "Inactivo"
    ensures r.Some? ==> EstadoName(r.value) == s
  {
    if s == "Activo" then Some(Activo)
    else if s == "Inactivo" then Some(Inactivo)
    else None
  }

  lemma EstadoRoundTrip(e: Estado)
    ensures ParseEstado(EstadoName(e)) == Some(e)
  {
  }

  /** JavaScript truthiness of an optional string field of a request:
      absent (undefined) and the empty string are falsy. */
  predicate Truthy(s: Option<string>)
  {
    s.Some? && s.value != ""
  }

  /** What the schema's `required: true` accepts for a String path: a value
      that is present and non-empty. */
  predicate RequiredString(s: string)
  {
    s != ""
  }

  /** The estado a create stores: `estado || 'Activo'`. The result is still a
      string; the enum validator checks it when the record is saved. */
  function EstadoOrDefault(estado: Option<string>): string
  {
    if Truthy(estado) then estado.value else EstadoName(Activo)
  }

  datatype Genero = Genero(
    nombre: string,
    estado: Estado,
    descripcion: Option<string>,
    fechaCreacion: Stamp,
    fechaActualizacion: Stamp)

  datatype Director = Director(
    nombres: string,
    estado: Estado,
    fechaCreacion: Stamp,
    fechaActualizacion: Stamp)

  datatype Productora = Productora(
    nombre: string,
    estado: Estado,
    slogan: Option<string>,
    descripcion: Option<string>,
    fechaCreacion: Stamp,
    fechaActualizacion: Stamp)

  /** Tipo has no estado: it can never fail an activity gate. */
  datatype Tipo = Tipo(
    nombre: string,
    descripcion: Option<string>,
    fechaCreacion: Stamp,
    fechaActualizacion: Stamp)

  /** genero, director, productora and tipo are identifiers into the four
      reference collections; nothing stored here tracks their targets. */
  datatype Media = Media(
    serial: string,
    titulo: string,
    sinopsis: string,
    url: string,
    imagenPortada: string,
    anioEstreno: int,
    genero: Id,
    director: Id,
    productora: Id,
    tipo: Id,
    fechaCreacion: Stamp,
    fechaActualizacion: Stamp)

  /** The pre-save hook's guarantee together with a monotone clock: a record
      is stamped no later than the clock and never updated before it was created. */
  predicate StampsOk(creacion: Stamp, actualizacion: Stamp, clock: Stamp)
  {
    creacion <= actualizacion <= clock
  }

  /** The guard of a change-triggered re-check in an update
      (`if (x && x !== doc.x)`): the field is supplied, truthy and different
      from the stored value. */
  predicate Changes(s: Option<string>, current: string)
  {
    Truthy(s) && s.value != current
  }

  /** The same guard for a reference, whose falsy values are already None. */
  predicate ChangesRef(r: Option<Id>, current: Id)
  {
    r.Some? && r.value != current
  }

  /** `if (x !== undefined) doc.x = x`: a plain field is replaced whenever it
      is supplied, whatever its value. */
  function Assign<T>(s: Option<T>, current: T): T
  {
    if s.Some? then s.value else current
  }

  /** For an optional path, supplying a value stores it. */
  function AssignOptional<T>(s: Option<T>, current: Option<T>): Option<T>
  {
    if s.Some? then s else current
  }
}
