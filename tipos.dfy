/** The rules of controllers/tipoController.js over the Tipo table. Tipo has
    no estado: its listing has no filter and its create has no default. */
module Tipos {
  import opened Results
  import opened Models

  /** `Tipo.findOne({ nombre })` finds a record; an undefined nombre finds none. */
  predicate NombreTaken(tipos: map<Id, Tipo>, nombre: Option<string>)
  {
    nombre.Some? && exists k :: k in tipos && tipos[k].nombre == nombre.value
  }

  /** The unique index on `nombre`. */
  predicate Unique(tipos: map<Id, Tipo>)
  {
    forall a, b :: a in tipos && b in tipos && a != b ==> tipos[a].nombre != tipos[b].nombre
  }

  predicate Consistent(tipos: map<Id, Tipo>, nextId: nat, clock: Stamp)
  {
    && (forall k :: k in tipos ==> k < nextId)
    && (forall k :: k in tipos ==>
          RequiredString(tipos[k].nombre)
          && StampsOk(tipos[k].fechaCreacion, tipos[k].fechaActualizacion, clock))
    && Unique(tipos)
  }

  /** Consistency survives a later counter and a later clock. */
  lemma ConsistentLater(tipos: map<Id, Tipo>, nextId: nat, clock: Stamp, laterId: nat, laterClock: Stamp)
    requires Consistent(tipos, nextId, clock) && nextId <= laterId && clock <= laterClock
    ensures Consistent(tipos, laterId, laterClock)
  {
  }

  /** crearTipo: the uniqueness check, then the schema validation of save. */
  function Crear(tipos: map<Id, Tipo>, nombre: Option<string>, descripcion: Option<string>, now: Stamp): (r: Result<Tipo>)
    ensures r == Err(DuplicateKey(Nombre)) <==> NombreTaken(tipos, nombre)
    ensures r == Err(ValidationFailure) <==> !NombreTaken(tipos, nombre) && !Truthy(nombre)
    ensures r.Err? ==> r.error == DuplicateKey(Nombre) || r.error == ValidationFailure
    ensures r.Ok? <==> !NombreTaken(tipos, nombre) && Truthy(nombre)
    ensures r.Ok? ==>
      && nombre == Some(r.value.nombre) && r.value.descripcion == descripcion
      && r.value.fechaCreacion == now && r.value.fechaActualizacion == now
    ensures r.Ok? ==> RequiredString(r.value.nombre)
    ensures r.Ok? ==> forall k :: k in tipos ==> tipos[k].nombre != r.value.nombre
  {
    if NombreTaken(tipos, nombre) then Err(DuplicateKey(Nombre))
    else if !Truthy(nombre) then Err(ValidationFailure)
    else Ok(Tipo(nombre.value, descripcion, now, now))
  }

  lemma CrearKeepsConsistent(tipos: map<Id, Tipo>, nombre: Option<string>, descripcion: Option<string>,
                             nextId: nat, clock: Stamp)
    requires Consistent(tipos, nextId, clock)
    requires Crear(tipos, nombre, descripcion, clock + 1).Ok?
    ensures Consistent(tipos[nextId := Crear(tipos, nombre, descripcion, clock + 1).value], nextId + 1, clock + 1)
  {
  }

  /** actualizarTipo: NotFound, the change-triggered uniqueness check, the
      `descripcion` assignment and the stamp of save. Nothing else changes,
      and once the record is found nothing but a duplicate name can fail. */
  function Actualizar(tipos: map<Id, Tipo>, id: Id, nombre: Option<string>, descripcion: Option<string>,
                      now: Stamp): (r: Result<Tipo>)
    ensures r == Err(NotFound) <==> id !in tipos
    ensures r == Err(DuplicateKey(Nombre)) <==>
      id in tipos && Changes(nombre, tipos[id].nombre) && NombreTaken(tipos, nombre)
    ensures r.Err? ==> r.error == NotFound || r.error == DuplicateKey(Nombre)
    ensures r.Ok? ==> id in tipos && var t := tipos[id];
      && r.value.nombre == (if Truthy(nombre) then nombre.value else t.nombre)
      && r.value.descripcion == AssignOptional(descripcion, t.descripcion)
      && r.value.fechaCreacion == t.fechaCreacion && r.value.fechaActualizacion == now
    ensures r.Ok? && RequiredString(tipos[id].nombre) ==> RequiredString(r.value.nombre)
    ensures r.Ok? && Unique(tipos) ==> Unique(tipos[id := r.value])
  {
    if id !in tipos then Err(NotFound)
    else
      var t := tipos[id];
      if Changes(nombre, t.nombre) && NombreTaken(tipos, nombre) then Err(DuplicateKey(Nombre))
      else
        Ok(t.(nombre := if Changes(nombre, t.nombre) then nombre.value else t.nombre,
              descripcion := AssignOptional(descripcion, t.descripcion),
              fechaActualizacion := now))
  }

  lemma ActualizarKeepsConsistent(tipos: map<Id, Tipo>, id: Id, nombre: Option<string>,
                                  descripcion: Option<string>, nextId: nat, clock: Stamp)
    requires Consistent(tipos, nextId, clock)
    requires Actualizar(tipos, id, nombre, descripcion, clock + 1).Ok?
    ensures Consistent(tipos[id := Actualizar(tipos, id, nombre, descripcion, clock + 1).value], nextId, clock + 1)
  {
  }

  /** The listing selects every tipo. */
  function Matching(tipos: map<Id, Tipo>): (r: map<Id, Stamp>)
    ensures |r| == |tipos|
  {
    var r := map k | k in tipos :: tipos[k].fechaCreacion;
    assert r.Keys == tipos.Keys;
    assert |r| == |r.Keys| == |tipos.Keys| == |tipos|;
    r
  }
}
