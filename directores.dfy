/** The rules of controllers/directorController.js over the Director table.
    Director has no unique path: nothing here consults the other directors. */
module Directores {
  import opened Results
  import opened Models

  predicate Consistent(directores: map<Id, Director>, nextId: nat, clock: Stamp)
  {
    && (forall k :: k in directores ==> k < nextId)
    && (forall k :: k in directores ==>
          RequiredString(directores[k].nombres)
          && StampsOk(directores[k].fechaCreacion, directores[k].fechaActualizacion, clock))
  }

  /** Consistency survives a later counter and a later clock. */
  lemma ConsistentLater(directores: map<Id, Director>, nextId: nat, clock: Stamp, laterId: nat, laterClock: Stamp)
    requires Consistent(directores, nextId, clock) && nextId <= laterId && clock <= laterClock
    ensures Consistent(directores, laterId, laterClock)
  {
  }

  /** crearDirector: no uniqueness check, only the schema validation of save
      (nombres required, estado one of the enum names, `Activo` by default). */
  function Crear(nombres: Option<string>, estado: Option<string>, now: Stamp): (r: Result<Director>)
    ensures r.Ok? <==> Truthy(nombres) && ParseEstado(EstadoOrDefault(estado)).Some?
    ensures r.Err? ==> r.error == ValidationFailure
    ensures r.Ok? ==>
      && nombres == Some(r.value.nombres) && EstadoName(r.value.estado) == EstadoOrDefault(estado)
      && r.value.fechaCreacion == now && r.value.fechaActualizacion == now
    ensures r.Ok? && !Truthy(estado) ==> r.value.estado == Activo
  {
    var e := ParseEstado(EstadoOrDefault(estado));
    if !Truthy(nombres) || e.None? then Err(ValidationFailure)
    else Ok(Director(nombres.value, e.value, now, now))
  }

  /** Two directors may share `nombres`: a create succeeds next to any
      existing director, including one with the same name. */
  lemma NombresNotUnique(directores: map<Id, Director>, nextId: nat, clock: Stamp, nombres: string)
    requires Consistent(directores, nextId, clock) && nombres != ""
    ensures var r := Crear(Some(nombres), None, clock + 1);
      && r.Ok?
      && Consistent(directores[nextId := r.value], nextId + 1, clock + 1)
      && (forall k :: k in directores && directores[k].nombres == nombres ==>
            directores[nextId := r.value][k].nombres == directores[nextId := r.value][nextId].nombres)
  {
  }

  /** actualizarDirector: NotFound, the in-place assignments of `nombres` and
      `estado` whenever they are not undefined, then the validation and the
      stamp of save. There is no uniqueness check. */
  function Actualizar(directores: map<Id, Director>, id: Id, nombres: Option<string>, estado: Option<string>,
                      now: Stamp): (r: Result<Director>)
    ensures r == Err(NotFound) <==> id !in directores
    ensures r == Err(ValidationFailure) <==>
      id in directores
      && (!RequiredString(Assign(nombres, directores[id].nombres))
          || (estado.Some? && ParseEstado(estado.value).None?))
    ensures r.Err? ==> r.error == NotFound || r.error == ValidationFailure
    ensures id in directores && RequiredString(directores[id].nombres) && estado.None? ==>
      (r.Ok? <==> nombres != Some(""))
    ensures r.Ok? ==> id in directores && var d := directores[id];
      && r.value.nombres == Assign(nombres, d.nombres)
      && (estado.Some? ==> ParseEstado(estado.value) == Some(r.value.estado))
      && (estado.None? ==> r.value.estado == d.estado)
      && r.value.fechaCreacion == d.fechaCreacion && r.value.fechaActualizacion == now
    ensures r.Ok? && RequiredString(directores[id].nombres) ==> RequiredString(r.value.nombres)
  {
    if id !in directores then Err(NotFound)
    else
      var d := directores[id];
      var d' := d.(nombres := Assign(nombres, d.nombres));
      if !RequiredString(d'.nombres) then Err(ValidationFailure)
      else if estado.None? then Ok(d'.(fechaActualizacion := now))
      else match ParseEstado(estado.value)
        case None => Err(ValidationFailure)
        case Some(e) => Ok(d'.(estado := e, fechaActualizacion := now))
  }

  lemma ActualizarKeepsConsistent(directores: map<Id, Director>, id: Id, nombres: Option<string>,
                                  estado: Option<string>, nextId: nat, clock: Stamp)
    requires Consistent(directores, nextId, clock)
    requires Actualizar(directores, id, nombres, estado, clock + 1).Ok?
    ensures Consistent(directores[id := Actualizar(directores, id, nombres, estado, clock + 1).value], nextId, clock + 1)
  {
  }

  /** The listing's filter: `estado` when it is truthy, otherwise everything. */
  predicate Selected(estado: Option<string>, d: Director)
  {
    Truthy(estado) ==> EstadoName(d.estado) == estado.value
  }

  function Matching(directores: map<Id, Director>, estado: Option<string>): map<Id, Stamp>
  {
    map k | k in directores && Selected(estado, directores[k]) :: directores[k].fechaCreacion
  }
}
