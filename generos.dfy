/** The rules of controllers/generoController.js over the Genero table. */
module Generos {
  import opened Results
  import opened Models

  /** `Genero.findOne({ nombre })` finds a record; an undefined nombre finds none. */
  predicate NombreTaken(generos: map<Id, Genero>, nombre: Option<string>)
  {
    nombre.Some? && exists k :: k in generos && generos[k].nombre == nombre.value
  }

  /** The unique index on `nombre`. */
  predicate Unique(generos: map<Id, Genero>)
  {
    forall a, b :: a in generos && b in generos && a != b ==> generos[a].nombre != generos[b].nombre
  }

  predicate Consistent(generos: map<Id, Genero>, nextId: nat, clock: Stamp)
  {
    && (forall k :: k in generos ==> k < nextId)
    && (forall k :: k in generos ==>
          RequiredString(generos[k].nombre)
          && StampsOk(generos[k].fechaCreacion, generos[k].fechaActualizacion, clock))
    && Unique(generos)
  }

  /** Consistency survives a later counter and a later clock. */
  lemma ConsistentLater(generos: map<Id, Genero>, nextId: nat, clock: Stamp, laterId: nat, laterClock: Stamp)
    requires Consistent(generos, nextId, clock) && nextId <= laterId && clock <= laterClock
    ensures Consistent(generos, laterId, laterClock)
  {
  }

  /** crearGenero: the uniqueness check, then the schema validation of save
      (nombre required, estado one of the enum names, `Activo` when none is
      given). */
  function Crear(generos: map<Id, Genero>, nombre: Option<string>, descripcion: Option<string>,
                 estado: Option<string>, now: Stamp): (r: Result<Genero>)
    ensures r == Err(DuplicateKey(Nombre)) <==> NombreTaken(generos, nombre)
    ensures r == Err(ValidationFailure) <==>
      !NombreTaken(generos, nombre) && (!Truthy(nombre) || ParseEstado(EstadoOrDefault(estado)).None?)
    ensures r.Err? ==> r.error == DuplicateKey(Nombre) || r.error == ValidationFailure
    ensures r.Ok? <==> !NombreTaken(generos, nombre) && Truthy(nombre) && ParseEstado(EstadoOrDefault(estado)).Some?
    ensures r.Ok? ==>
      && nombre == Some(r.value.nombre) && r.value.descripcion == descripcion
      && EstadoName(r.value.estado) == EstadoOrDefault(estado)
      && r.value.fechaCreacion == now && r.value.fechaActualizacion == now
    ensures r.Ok? && !Truthy(estado) ==> r.value.estado == Activo
    ensures r.Ok? ==> RequiredString(r.value.nombre)
    ensures r.Ok? ==> forall k :: k in generos ==> generos[k].nombre != r.value.nombre
  {
    if NombreTaken(generos, nombre) then Err(DuplicateKey(Nombre))
    else
      var e := ParseEstado(EstadoOrDefault(estado));
      if !Truthy(nombre) || e.None? then Err(ValidationFailure)
      else Ok(Genero(nombre.value, e.value, descripcion, now, now))
  }

  lemma CrearKeepsConsistent(generos: map<Id, Genero>, nombre: Option<string>, descripcion: Option<string>,
                             estado: Option<string>, nextId: nat, clock: Stamp)
    requires Consistent(generos, nextId, clock)
    requires Crear(generos, nombre, descripcion, estado, clock + 1).Ok?
    ensures Consistent(generos[nextId := Crear(generos, nombre, descripcion, estado, clock + 1).value],
                       nextId + 1, clock + 1)
  {
  }

  /** actualizarGenero: NotFound, the change-triggered uniqueness check, the
      in-place assignments, then the validation and the stamp of save. */
  function Actualizar(generos: map<Id, Genero>, id: Id, nombre: Option<string>, descripcion: Option<string>,
                      estado: Option<string>, now: Stamp): (r: Result<Genero>)
    ensures r == Err(NotFound) <==> id !in generos
    ensures r == Err(DuplicateKey(Nombre)) <==>
      id in generos && Changes(nombre, generos[id].nombre) && NombreTaken(generos, nombre)
    ensures r == Err(ValidationFailure) <==>
      && id in generos && !(Changes(nombre, generos[id].nombre) && NombreTaken(generos, nombre))
      && estado.Some? && ParseEstado(estado.value).None?
    ensures r.Err? ==> r.error == NotFound || r.error == DuplicateKey(Nombre) || r.error == ValidationFailure
    ensures r.Ok? ==> id in generos && var g := generos[id];
      && r.value.nombre == (if Truthy(nombre) then nombre.value else g.nombre)
      && r.value.descripcion == AssignOptional(descripcion, g.descripcion)
      && (estado.Some? ==> ParseEstado(estado.value) == Some(r.value.estado))
      && (estado.None? ==> r.value.estado == g.estado)
      && r.value.fechaCreacion == g.fechaCreacion && r.value.fechaActualizacion == now
    ensures r.Ok? && RequiredString(generos[id].nombre) ==> RequiredString(r.value.nombre)
    ensures r.Ok? && Unique(generos) ==> Unique(generos[id := r.value])
  {
    if id !in generos then Err(NotFound)
    else
      var g := generos[id];
      if Changes(nombre, g.nombre) && NombreTaken(generos, nombre) then Err(DuplicateKey(Nombre))
      else
        var g' := g.(nombre := if Changes(nombre, g.nombre) then nombre.value else g.nombre,
                     descripcion := AssignOptional(descripcion, g.descripcion));
        if estado.None? then Ok(g'.(fechaActualizacion := now))
        else match ParseEstado(estado.value)
          case None => Err(ValidationFailure)
          case Some(e) => Ok(g'.(estado := e, fechaActualizacion := now))
  }

  lemma ActualizarKeepsConsistent(generos: map<Id, Genero>, id: Id, nombre: Option<string>,
                                  descripcion: Option<string>, estado: Option<string>, nextId: nat, clock: Stamp)
    requires Consistent(generos, nextId, clock)
    requires Actualizar(generos, id, nombre, descripcion, estado, clock + 1).Ok?
    ensures Consistent(generos[id := Actualizar(generos, id, nombre, descripcion, estado, clock + 1).value],
                       nextId, clock + 1)
  {
  }

  /** Renaming a genre to the name it already has is not a conflict. */
  lemma SameNombreIsNoConflict(generos: map<Id, Genero>, id: Id, descripcion: Option<string>, now: Stamp)
    requires id in generos
    ensures Actualizar(generos, id, Some(generos[id].nombre), descripcion, None, now).Ok?
  {
  }

  /** The listing's filter: `estado` when it is truthy, otherwise everything. */
  predicate Selected(estado: Option<string>, g: Genero)
  {
    Truthy(estado) ==> EstadoName(g.estado) == estado.value
  }

  function Matching(generos: map<Id, Genero>, estado: Option<string>): map<Id, Stamp>
  {
    map k | k in generos && Selected(estado, generos[k]) :: generos[k].fechaCreacion
  }
}
