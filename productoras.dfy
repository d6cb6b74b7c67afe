/** The rules of controllers/productoraController.js over the Productora table. */
module Productoras {
  import opened Results
  import opened Models

  /** `Productora.findOne({ nombre })` finds a record; an undefined nombre finds none. */
  predicate NombreTaken(productoras: map<Id, Productora>, nombre: Option<string>)
  {
    nombre.Some? && exists k :: k in productoras && productoras[k].nombre == nombre.value
  }

  /** The unique index on `nombre`. */
  predicate Unique(productoras: map<Id, Productora>)
  {
    forall a, b :: a in productoras && b in productoras && a != b ==>
      productoras[a].nombre != productoras[b].nombre
  }

  predicate Consistent(productoras: map<Id, Productora>, nextId: nat, clock: Stamp)
  {
    && (forall k :: k in productoras ==> k < nextId)
    && (forall k :: k in productoras ==>
          RequiredString(productoras[k].nombre)
          && StampsOk(productoras[k].fechaCreacion, productoras[k].fechaActualizacion, clock))
    && Unique(productoras)
  }

  /** Consistency survives a later counter and a later clock. */
  lemma ConsistentLater(productoras: map<Id, Productora>, nextId: nat, clock: Stamp, laterId: nat, laterClock: Stamp)
    requires Consistent(productoras, nextId, clock) && nextId <= laterId && clock <= laterClock
    ensures Consistent(productoras, laterId, laterClock)
  {
  }

  /** crearProductora: the uniqueness check, then the schema validation of
      save; `slogan` and `descripcion` are optional, estado defaults to Activo. */
  function Crear(productoras: map<Id, Productora>, nombre: Option<string>, slogan: Option<string>,
                 descripcion: Option<string>, estado: Option<string>, now: Stamp): (r: Result<Productora>)
    ensures r == Err(DuplicateKey(Nombre)) <==> NombreTaken(productoras, nombre)
    ensures r == Err(ValidationFailure) <==>
      !NombreTaken(productoras, nombre) && (!Truthy(nombre) || ParseEstado(EstadoOrDefault(estado)).None?)
    ensures r.Err? ==> r.error == DuplicateKey(Nombre) || r.error == ValidationFailure
    ensures r.Ok? <==> !NombreTaken(productoras, nombre) && Truthy(nombre) && ParseEstado(EstadoOrDefault(estado)).Some?
    ensures r.Ok? ==>
      && nombre == Some(r.value.nombre) && r.value.slogan == slogan && r.value.descripcion == descripcion
      && EstadoName(r.value.estado) == EstadoOrDefault(estado)
      && r.value.fechaCreacion == now && r.value.fechaActualizacion == now
    ensures r.Ok? && !Truthy(estado) ==> r.value.estado == Activo
    ensures r.Ok? ==> RequiredString(r.value.nombre)
    ensures r.Ok? ==> forall k :: k in productoras ==> productoras[k].nombre != r.value.nombre
  {
    if NombreTaken(productoras, nombre) then Err(DuplicateKey(Nombre))
    else
      var e := ParseEstado(EstadoOrDefault(estado));
      if !Truthy(nombre) || e.None? then Err(ValidationFailure)
      else Ok(Productora(nombre.value, e.value, slogan, descripcion, now, now))
  }

  lemma CrearKeepsConsistent(productoras: map<Id, Productora>, nombre: Option<string>, slogan: Option<string>,
                             descripcion: Option<string>, estado: Option<string>, nextId: nat, clock: Stamp)
    requires Consistent(productoras, nextId, clock)
    requires Crear(productoras, nombre, slogan, descripcion, estado, clock + 1).Ok?
    ensures Consistent(productoras[nextId := Crear(productoras, nombre, slogan, descripcion, estado, clock + 1).value],
                       nextId + 1, clock + 1)
  {
  }

  /** actualizarProductora: NotFound, the change-triggered uniqueness check,
      the in-place assignments, then the validation and the stamp of save. */
  function Actualizar(productoras: map<Id, Productora>, id: Id, nombre: Option<string>, slogan: Option<string>,
                      descripcion: Option<string>, estado: Option<string>, now: Stamp): (r: Result<Productora>)
    ensures r == Err(NotFound) <==> id !in productoras
    ensures r == Err(DuplicateKey(Nombre)) <==>
      id in productoras && Changes(nombre, productoras[id].nombre) && NombreTaken(productoras, nombre)
    ensures r == Err(ValidationFailure) <==>
      && id in productoras && !(Changes(nombre, productoras[id].nombre) && NombreTaken(productoras, nombre))
      && estado.Some? && ParseEstado(estado.value).None?
    ensures r.Err? ==> r.error == NotFound || r.error == DuplicateKey(Nombre) || r.error == ValidationFailure
    ensures r.Ok? ==> id in productoras && var p := productoras[id];
      && r.value.nombre == (if Truthy(nombre) then nombre.value else p.nombre)
      && r.value.slogan == AssignOptional(slogan, p.slogan)
      && r.value.descripcion == AssignOptional(descripcion, p.descripcion)
      && (estado.Some? ==> ParseEstado(estado.value) == Some(r.value.estado))
      && (estado.None? ==> r.value.estado == p.estado)
      && r.value.fechaCreacion == p.fechaCreacion && r.value.fechaActualizacion == now
    ensures r.Ok? && RequiredString(productoras[id].nombre) ==> RequiredString(r.value.nombre)
    ensures r.Ok? && Unique(productoras) ==> Unique(productoras[id := r.value])
  {
    if id !in productoras then Err(NotFound)
    else
      var p := productoras[id];
      if Changes(nombre, p.nombre) && NombreTaken(productoras, nombre) then Err(DuplicateKey(Nombre))
      else
        var p' := p.(nombre := if Changes(nombre, p.nombre) then nombre.value else p.nombre,
                     slogan := AssignOptional(slogan, p.slogan),
                     descripcion := AssignOptional(descripcion, p.descripcion));
        if estado.None? then Ok(p'.(fechaActualizacion := now))
        else match ParseEstado(estado.value)
          case None => Err(ValidationFailure)
          case Some(e) => Ok(p'.(estado := e, fechaActualizacion := now))
  }

  lemma ActualizarKeepsConsistent(productoras: map<Id, Productora>, id: Id, nombre: Option<string>,
                                  slogan: Option<string>, descripcion: Option<string>, estado: Option<string>,
                                  nextId: nat, clock: Stamp)
    requires Consistent(productoras, nextId, clock)
    requires Actualizar(productoras, id, nombre, slogan, descripcion, estado, clock + 1).Ok?
    ensures Consistent(productoras[id := Actualizar(productoras, id, nombre, slogan, descripcion, estado, clock + 1).value],
                       nextId, clock + 1)
  {
  }

  /** The listing's filter: `estado` when it is truthy, otherwise everything. */
  predicate Selected(estado: Option<string>, p: Productora)
  {
    Truthy(estado) ==> EstadoName(p.estado) == estado.value
  }

  function Matching(productoras: map<Id, Productora>, estado: Option<string>): map<Id, Stamp>
  {
    map k | k in productoras && Selected(estado, productoras[k]) :: productoras[k].fechaCreacion
  }
}
