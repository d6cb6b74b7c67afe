/** The consistency rules of controllers/mediaController.js, as functions of
    the stored tables: what a create or an update would store, or the first
    error it reports. The Catalog class applies them to its state. */
module Medias {
  import opened Results
  import opened Models

  /** The four reference collections a Media points into. */
  datatype Refs = Refs(
    generos: map<Id, Genero>,
    directores: map<Id, Director>,
    productoras: map<Id, Productora>,
    tipos: map<Id, Tipo>)

  /** The body of a create or update request. A string field is None when the
      request leaves it undefined; a reference is None when it is absent or
      falsy. */
  datatype MediaInput = MediaInput(
    serial: Option<string>,
    titulo: Option<string>,
    sinopsis: Option<string>,
    url: Option<string>,
    imagenPortada: Option<string>,
    anioEstreno: Option<int>,
    genero: Option<Id>,
    director: Option<Id>,
    productora: Option<Id>,
    tipo: Option<Id>)

  /** A Media with its four references looked up at read time (`populate`);
      a reference whose target is gone expands to None. */
  datatype MediaView = MediaView(
    id: Id,
    media: Media,
    genero: Option<Genero>,
    director: Option<Director>,
    productora: Option<Productora>,
    tipo: Option<Tipo>)

  function Populate(refs: Refs, id: Id, m: Media): MediaView
  {
    MediaView(id, m, Get(refs.generos, m.genero), Get(refs.directores, m.director),
              Get(refs.productoras, m.productora), Get(refs.tipos, m.tipo))
  }

  /** The records under `ids`, in that order, each populated. */
  function Views(refs: Refs, medias: map<Id, Media>, ids: seq<Id>): seq<MediaView>
    requires forall i :: 0 <= i < |ids| ==> ids[i] in medias
  {
    seq(|ids|, i requires 0 <= i < |ids| => Populate(refs, ids[i], medias[ids[i]]))
  }

  /** The schema's `required: true` on the string paths, checked on save. */
  predicate Required(m: Media)
  {
    && RequiredString(m.serial)
    && RequiredString(m.titulo)
    && RequiredString(m.sinopsis)
    && RequiredString(m.url)
    && RequiredString(m.imagenPortada)
  }

  /** `Media.findOne({ serial })` finds a record; an undefined serial finds none. */
  predicate SerialTaken(medias: map<Id, Media>, serial: Option<string>)
  {
    serial.Some? && exists k :: k in medias && medias[k].serial == serial.value
  }

  /** `Media.findOne({ url })` finds a record; an undefined url finds none. */
  predicate UrlTaken(medias: map<Id, Media>, url: Option<string>)
  {
    url.Some? && exists k :: k in medias && medias[k].url == url.value
  }

  /** The activity gate: the reference exists and its estado is Activo. */
  predicate GeneroActivo(refs: Refs, g: Option<Id>)
  {
    g.Some? && g.value in refs.generos && refs.generos[g.value].estado == Activo
  }

  predicate DirectorActivo(refs: Refs, d: Option<Id>)
  {
    d.Some? && d.value in refs.directores && refs.directores[d.value].estado == Activo
  }

  predicate ProductoraActiva(refs: Refs, p: Option<Id>)
  {
    p.Some? && p.value in refs.productoras && refs.productoras[p.value].estado == Activo
  }

  /** Tipo has no estado, so it only has to exist. */
  predicate TipoExiste(refs: Refs, t: Option<Id>)
  {
    t.Some? && t.value in refs.tipos
  }

  /** The two unique indexes of the Media schema. */
  predicate Unique(medias: map<Id, Media>)
  {
    forall a, b :: a in medias && b in medias && a != b ==>
      medias[a].serial != medias[b].serial && medias[a].url != medias[b].url
  }

  /** What every successful write keeps: ids below the id counter, every
      record valid against its schema and stamped no later than the clock,
      and both unique indexes. Whether the references resolve is NOT part of
      it: it is checked only by the write that introduces a reference. */
  predicate Consistent(medias: map<Id, Media>, nextId: nat, clock: Stamp)
  {
    && (forall k :: k in medias ==> k < nextId)
    && (forall k :: k in medias ==>
          Required(medias[k]) && StampsOk(medias[k].fechaCreacion, medias[k].fechaActualizacion, clock))
    && Unique(medias)
  }

  /** Consistency survives a later counter and a later clock. */
  lemma ConsistentLater(medias: map<Id, Media>, nextId: nat, clock: Stamp, laterId: nat, laterClock: Stamp)
    requires Consistent(medias, nextId, clock) && nextId <= laterId && clock <= laterClock
    ensures Consistent(medias, laterId, laterClock)
  {
  }

  /** crearMedia: the checks in their fixed order (serial, url, genero,
      director, productora, tipo), then the schema validation of save; the
      first failure is the error. On success, the record to insert, stamped
      `now`. */
  function Crear(medias: map<Id, Media>, refs: Refs, input: MediaInput, now: Stamp): (r: Result<Media>)
    ensures r.Ok? ==>
      && input.serial == Some(r.value.serial) && input.titulo == Some(r.value.titulo)
      && input.sinopsis == Some(r.value.sinopsis) && input.url == Some(r.value.url)
      && input.imagenPortada == Some(r.value.imagenPortada)
      && input.anioEstreno == Some(r.value.anioEstreno)
      && input.genero == Some(r.value.genero) && input.director == Some(r.value.director)
      && input.productora == Some(r.value.productora) && input.tipo == Some(r.value.tipo)
      && r.value.fechaCreacion == now && r.value.fechaActualizacion == now
    ensures r.Ok? ==> Required(r.value)
    ensures r.Ok? ==> forall k :: k in medias ==>
      medias[k].serial != r.value.serial && medias[k].url != r.value.url
    ensures r.Ok? ==>
      && r.value.genero in refs.generos && refs.generos[r.value.genero].estado == Activo
      && r.value.director in refs.directores && refs.directores[r.value.director].estado == Activo
      && r.value.productora in refs.productoras && refs.productoras[r.value.productora].estado == Activo
      && r.value.tipo in refs.tipos
    ensures r.Err? ==>
      || r.error == DuplicateKey(Serial) || r.error == DuplicateKey(Url)
      || r.error == InvalidReference(GeneroRef) || r.error == InvalidReference(DirectorRef)
      || r.error == InvalidReference(ProductoraRef) || r.error == InvalidReference(TipoRef)
      || r.error == ValidationFailure
  {
    if SerialTaken(medias, input.serial) then Err(DuplicateKey(Serial))
    else if UrlTaken(medias, input.url) then Err(DuplicateKey(Url))
    else if !GeneroActivo(refs, input.genero) then Err(InvalidReference(GeneroRef))
    else if !DirectorActivo(refs, input.director) then Err(InvalidReference(DirectorRef))
    else if !ProductoraActiva(refs, input.productora) then Err(InvalidReference(ProductoraRef))
    else if !TipoExiste(refs, input.tipo) then Err(InvalidReference(TipoRef))
    else if !(Truthy(input.serial) && Truthy(input.titulo) && Truthy(input.sinopsis)
              && Truthy(input.url) && Truthy(input.imagenPortada) && input.anioEstreno.Some?) then
      Err(ValidationFailure)
    else
      Ok(Media(input.serial.value, input.titulo.value, input.sinopsis.value, input.url.value,
               input.imagenPortada.value, input.anioEstreno.value, input.genero.value,
               input.director.value, input.productora.value, input.tipo.value, now, now))
  }

  /** The checks of crearMedia run in a fixed order, and the error reported
      is that of the first one that fails. */
  lemma CrearReportsFirstFailure(medias: map<Id, Media>, refs: Refs, input: MediaInput, now: Stamp)
    ensures var r := Crear(medias, refs, input, now);
      var s := SerialTaken(medias, input.serial);
      var u := UrlTaken(medias, input.url);
      var g := GeneroActivo(refs, input.genero);
      var d := DirectorActivo(refs, input.director);
      var p := ProductoraActiva(refs, input.productora);
      var t := TipoExiste(refs, input.tipo);
      && (r == Err(DuplicateKey(Serial)) <==> s)
      && (r == Err(DuplicateKey(Url)) <==> !s && u)
      && (r == Err(InvalidReference(GeneroRef)) <==> !s && !u && !g)
      && (r == Err(InvalidReference(DirectorRef)) <==> !s && !u && g && !d)
      && (r == Err(InvalidReference(ProductoraRef)) <==> !s && !u && g && d && !p)
      && (r == Err(InvalidReference(TipoRef)) <==> !s && !u && g && d && p && !t)
      && (r == Err(ValidationFailure) <==>
            && !s && !u && g && d && p && t
            && !(Truthy(input.serial) && Truthy(input.titulo) && Truthy(input.sinopsis)
                 && Truthy(input.url) && Truthy(input.imagenPortada) && input.anioEstreno.Some?))
      && (r.Ok? ==> !s && !u && g && d && p && t)
  {
  }

  /** A create succeeds exactly when every check passes and every required
      field is present. */
  lemma CrearSucceedsIff(medias: map<Id, Media>, refs: Refs, input: MediaInput, now: Stamp)
    ensures Crear(medias, refs, input, now).Ok? <==>
      && !SerialTaken(medias, input.serial) && !UrlTaken(medias, input.url)
      && GeneroActivo(refs, input.genero) && DirectorActivo(refs, input.director)
      && ProductoraActiva(refs, input.productora) && TipoExiste(refs, input.tipo)
      && Truthy(input.serial) && Truthy(input.titulo) && Truthy(input.sinopsis)
      && Truthy(input.url) && Truthy(input.imagenPortada) && input.anioEstreno.Some?
  {
  }

  /** Inserting what Crear returns under a fresh id keeps the table consistent. */
  lemma CrearKeepsConsistent(medias: map<Id, Media>, refs: Refs, input: MediaInput, nextId: nat, clock: Stamp)
    requires Consistent(medias, nextId, clock)
    requires Crear(medias, refs, input, clock + 1).Ok?
    ensures Consistent(medias[nextId := Crear(medias, refs, input, clock + 1).value], nextId + 1, clock + 1)
  {
  }

  /** The loaded record after actualizarMedia's assignments: a unique key or
      a reference is taken from the request only when it changes, the plain
      fields whenever the request carries them. */
  function Updated(m: Media, input: MediaInput): (u: Media)
    ensures u.serial == (if Truthy(input.serial) then input.serial.value else m.serial)
    ensures u.url == (if Truthy(input.url) then input.url.value else m.url)
    ensures u.genero == Assign(input.genero, m.genero) && u.director == Assign(input.director, m.director)
    ensures u.productora == Assign(input.productora, m.productora) && u.tipo == Assign(input.tipo, m.tipo)
    ensures u.genero != m.genero ==> ChangesRef(input.genero, m.genero)
    ensures u.director != m.director ==> ChangesRef(input.director, m.director)
    ensures u.productora != m.productora ==> ChangesRef(input.productora, m.productora)
    ensures u.tipo != m.tipo ==> ChangesRef(input.tipo, m.tipo)
    ensures u.serial != m.serial ==> Changes(input.serial, m.serial)
    ensures u.url != m.url ==> Changes(input.url, m.url)
    ensures u.titulo == Assign(input.titulo, m.titulo) && u.sinopsis == Assign(input.sinopsis, m.sinopsis)
    ensures u.imagenPortada == Assign(input.imagenPortada, m.imagenPortada)
    ensures u.anioEstreno == Assign(input.anioEstreno, m.anioEstreno)
    ensures u.fechaCreacion == m.fechaCreacion && u.fechaActualizacion == m.fechaActualizacion
  {
    m.(
      serial := if Changes(input.serial, m.serial) then input.serial.value else m.serial,
      url := if Changes(input.url, m.url) then input.url.value else m.url,
      genero := if ChangesRef(input.genero, m.genero) then input.genero.value else m.genero,
      director := if ChangesRef(input.director, m.director) then input.director.value else m.director,
      productora := if ChangesRef(input.productora, m.productora) then input.productora.value else m.productora,
      tipo := if ChangesRef(input.tipo, m.tipo) then input.tipo.value else m.tipo,
      titulo := Assign(input.titulo, m.titulo),
      sinopsis := Assign(input.sinopsis, m.sinopsis),
      imagenPortada := Assign(input.imagenPortada, m.imagenPortada),
      anioEstreno := Assign(input.anioEstreno, m.anioEstreno))
  }

  /** The first of actualizarMedia's unique-key checks that fails: a key is
      checked only when the request changes it. */
  function KeyError(medias: map<Id, Media>, m: Media, input: MediaInput): (e: Option<Error>)
    ensures e.Some? ==> e.value == DuplicateKey(Serial) || e.value == DuplicateKey(Url)
    ensures e == Some(DuplicateKey(Serial)) <==>
      Changes(input.serial, m.serial) && SerialTaken(medias, input.serial)
    ensures e == Some(DuplicateKey(Url)) <==>
      && !(Changes(input.serial, m.serial) && SerialTaken(medias, input.serial))
      && Changes(input.url, m.url) && UrlTaken(medias, input.url)
    ensures !Changes(input.serial, m.serial) && !Changes(input.url, m.url) ==> e.None?
    ensures e.None? ==> forall k :: k in medias ==>
      && (Changes(input.serial, m.serial) ==> medias[k].serial != input.serial.value)
      && (Changes(input.url, m.url) ==> medias[k].url != input.url.value)
  {
    if Changes(input.serial, m.serial) && SerialTaken(medias, input.serial) then Some(DuplicateKey(Serial))
    else if Changes(input.url, m.url) && UrlTaken(medias, input.url) then Some(DuplicateKey(Url))
    else None
  }

  /** The first of actualizarMedia's reference checks that fails: a reference
      is checked only when the request changes it. */
  function RefError(refs: Refs, m: Media, input: MediaInput): (e: Option<Error>)
    ensures e.Some? ==> e.value.InvalidReference?
    ensures e == Some(InvalidReference(GeneroRef)) <==>
      ChangesRef(input.genero, m.genero) && !GeneroActivo(refs, input.genero)
    ensures e == Some(InvalidReference(DirectorRef)) <==>
      && !(ChangesRef(input.genero, m.genero) && !GeneroActivo(refs, input.genero))
      && ChangesRef(input.director, m.director) && !DirectorActivo(refs, input.director)
    ensures e == Some(InvalidReference(ProductoraRef)) <==>
      && !(ChangesRef(input.genero, m.genero) && !GeneroActivo(refs, input.genero))
      && !(ChangesRef(input.director, m.director) && !DirectorActivo(refs, input.director))
      && ChangesRef(input.productora, m.productora) && !ProductoraActiva(refs, input.productora)
    ensures e == Some(InvalidReference(TipoRef)) <==>
      && !(ChangesRef(input.genero, m.genero) && !GeneroActivo(refs, input.genero))
      && !(ChangesRef(input.director, m.director) && !DirectorActivo(refs, input.director))
      && !(ChangesRef(input.productora, m.productora) && !ProductoraActiva(refs, input.productora))
      && ChangesRef(input.tipo, m.tipo) && !TipoExiste(refs, input.tipo)
    ensures (&& !ChangesRef(input.genero, m.genero) && !ChangesRef(input.director, m.director)
             && !ChangesRef(input.productora, m.productora) && !ChangesRef(input.tipo, m.tipo))
      ==> e.None?
    ensures e.None? ==>
      && (ChangesRef(input.genero, m.genero) ==>
            input.genero.value in refs.generos && refs.generos[input.genero.value].estado == Activo)
      && (ChangesRef(input.director, m.director) ==>
            input.director.value in refs.directores && refs.directores[input.director.value].estado == Activo)
      && (ChangesRef(input.productora, m.productora) ==>
            input.productora.value in refs.productoras && refs.productoras[input.productora.value].estado == Activo)
      && (ChangesRef(input.tipo, m.tipo) ==> input.tipo.value in refs.tipos)
  {
    if ChangesRef(input.genero, m.genero) && !GeneroActivo(refs, input.genero) then
      Some(InvalidReference(GeneroRef))
    else if ChangesRef(input.director, m.director) && !DirectorActivo(refs, input.director) then
      Some(InvalidReference(DirectorRef))
    else if ChangesRef(input.productora, m.productora) && !ProductoraActiva(refs, input.productora) then
      Some(InvalidReference(ProductoraRef))
    else if ChangesRef(input.tipo, m.tipo) && !TipoExiste(refs, input.tipo) then
      Some(InvalidReference(TipoRef))
    else None
  }

  /** The key checks come before the reference checks: a duplicate key is
      reported even when a reference would also fail. */
  function UpdateError(medias: map<Id, Media>, refs: Refs, m: Media, input: MediaInput): (e: Option<Error>)
    ensures KeyError(medias, m, input).Some? ==> e == KeyError(medias, m, input)
    ensures KeyError(medias, m, input).None? ==> e == RefError(refs, m, input)
    ensures e.None? <==> KeyError(medias, m, input).None? && RefError(refs, m, input).None?
  {
    if KeyError(medias, m, input).Some? then KeyError(medias, m, input) else RefError(refs, m, input)
  }

  /** actualizarMedia: NotFound, then the change-triggered checks in the order
      serial, url, genero, director, productora, tipo, then the plain fields,
      then the schema validation and the stamp of save. */
  function Actualizar(medias: map<Id, Media>, refs: Refs, id: Id, input: MediaInput, now: Stamp): (r: Result<Media>)
    ensures r == Err(NotFound) <==> id !in medias
    ensures r == Err(DuplicateKey(Serial)) ==>
      id in medias && Changes(input.serial, medias[id].serial) && SerialTaken(medias, input.serial)
    ensures r == Err(DuplicateKey(Url)) ==>
      id in medias && Changes(input.url, medias[id].url) && UrlTaken(medias, input.url)
    ensures r == Err(InvalidReference(GeneroRef)) ==>
      id in medias && ChangesRef(input.genero, medias[id].genero) && !GeneroActivo(refs, input.genero)
    ensures r == Err(InvalidReference(DirectorRef)) ==>
      id in medias && ChangesRef(input.director, medias[id].director) && !DirectorActivo(refs, input.director)
    ensures r == Err(InvalidReference(ProductoraRef)) ==>
      id in medias && ChangesRef(input.productora, medias[id].productora) && !ProductoraActiva(refs, input.productora)
    ensures r == Err(InvalidReference(TipoRef)) ==>
      id in medias && ChangesRef(input.tipo, medias[id].tipo) && !TipoExiste(refs, input.tipo)
    ensures r.Err? ==>
      || r.error == NotFound || r.error == DuplicateKey(Serial) || r.error == DuplicateKey(Url)
      || r.error == InvalidReference(GeneroRef) || r.error == InvalidReference(DirectorRef)
      || r.error == InvalidReference(ProductoraRef) || r.error == InvalidReference(TipoRef)
      || r.error == ValidationFailure
    ensures r.Ok? ==> id in medias && Required(r.value)
    ensures r.Ok? ==> var m := medias[id];
      && r.value.serial == (if Truthy(input.serial) then input.serial.value else m.serial)
      && r.value.url == (if Truthy(input.url) then input.url.value else m.url)
      && r.value.genero == Assign(input.genero, m.genero)
      && r.value.director == Assign(input.director, m.director)
      && r.value.productora == Assign(input.productora, m.productora)
      && r.value.tipo == Assign(input.tipo, m.tipo)
      && r.value.titulo == Assign(input.titulo, m.titulo)
      && r.value.sinopsis == Assign(input.sinopsis, m.sinopsis)
      && r.value.imagenPortada == Assign(input.imagenPortada, m.imagenPortada)
      && r.value.anioEstreno == Assign(input.anioEstreno, m.anioEstreno)
      && r.value.fechaCreacion == m.fechaCreacion
      && r.value.fechaActualizacion == now
    ensures r.Ok? ==> var m := medias[id];
      && (r.value.genero != m.genero ==> GeneroActivo(refs, Some(r.value.genero)))
      && (r.value.director != m.director ==> DirectorActivo(refs, Some(r.value.director)))
      && (r.value.productora != m.productora ==> ProductoraActiva(refs, Some(r.value.productora)))
      && (r.value.tipo != m.tipo ==> TipoExiste(refs, Some(r.value.tipo)))
    ensures r.Ok? && Unique(medias) ==> Unique(medias[id := r.value])
  {
    if id !in medias then Err(NotFound)
    else
      var m := medias[id];
      var e := UpdateError(medias, refs, m, input);
      if e.Some? then Err(e.value)
      else
        var updated := Updated(m, input);
        if !Required(updated) then Err(ValidationFailure)
        else Ok(updated.(fechaActualizacion := now))
  }

  /** The checks of actualizarMedia run in a fixed order, each only when the
      request changes its field, and the error reported is that of the first
      one that fails; the schema validation comes last. */
  lemma ActualizarReportsFirstFailure(medias: map<Id, Media>, refs: Refs, id: Id, input: MediaInput, now: Stamp)
    ensures id in medias ==>
      var r := Actualizar(medias, refs, id, input, now);
      var m := medias[id];
      var s := Changes(input.serial, m.serial) && SerialTaken(medias, input.serial);
      var u := Changes(input.url, m.url) && UrlTaken(medias, input.url);
      var g := ChangesRef(input.genero, m.genero) && !GeneroActivo(refs, input.genero);
      var d := ChangesRef(input.director, m.director) && !DirectorActivo(refs, input.director);
      var p := ChangesRef(input.productora, m.productora) && !ProductoraActiva(refs, input.productora);
      var t := ChangesRef(input.tipo, m.tipo) && !TipoExiste(refs, input.tipo);
      && (r == Err(DuplicateKey(Serial)) <==> s)
      && (r == Err(DuplicateKey(Url)) <==> !s && u)
      && (r == Err(InvalidReference(GeneroRef)) <==> !s && !u && g)
      && (r == Err(InvalidReference(DirectorRef)) <==> !s && !u && !g && d)
      && (r == Err(InvalidReference(ProductoraRef)) <==> !s && !u && !g && !d && p)
      && (r == Err(InvalidReference(TipoRef)) <==> !s && !u && !g && !d && !p && t)
      && (r == Err(ValidationFailure) <==> !s && !u && !g && !d && !p && !t && !Required(Updated(m, input)))
  {
    if id in medias {
      var m := medias[id];
      var e := UpdateError(medias, refs, m, input);
      assert e.Some? ==> Actualizar(medias, refs, id, input, now) == Err(e.value);
    }
  }

  /** An update succeeds exactly when the record exists, no changed key is
      taken, every changed reference passes its gate, and the updated record
      still has every required field. */
  lemma ActualizarSucceedsIff(medias: map<Id, Media>, refs: Refs, id: Id, input: MediaInput, now: Stamp)
    ensures Actualizar(medias, refs, id, input, now).Ok? <==>
      && id in medias
      && !(Changes(input.serial, medias[id].serial) && SerialTaken(medias, input.serial))
      && !(Changes(input.url, medias[id].url) && UrlTaken(medias, input.url))
      && (ChangesRef(input.genero, medias[id].genero) ==> GeneroActivo(refs, input.genero))
      && (ChangesRef(input.director, medias[id].director) ==> DirectorActivo(refs, input.director))
      && (ChangesRef(input.productora, medias[id].productora) ==> ProductoraActiva(refs, input.productora))
      && (ChangesRef(input.tipo, medias[id].tipo) ==> TipoExiste(refs, input.tipo))
      && Required(Updated(medias[id], input))
  {
  }

  /** Replacing a record by what Actualizar returns keeps the table consistent. */
  lemma ActualizarKeepsConsistent(medias: map<Id, Media>, refs: Refs, id: Id, input: MediaInput, nextId: nat, clock: Stamp)
    requires Consistent(medias, nextId, clock)
    requires Actualizar(medias, refs, id, input, clock + 1).Ok?
    ensures Consistent(medias[id := Actualizar(medias, refs, id, input, clock + 1).value], nextId, clock + 1)
  {
  }

  /** The request that resubmits every stored field of a record. */
  function Resubmission(m: Media): MediaInput
  {
    MediaInput(Some(m.serial), Some(m.titulo), Some(m.sinopsis), Some(m.url), Some(m.imagenPortada),
               Some(m.anioEstreno), Some(m.genero), Some(m.director), Some(m.productora), Some(m.tipo))
  }

  /** Resubmitting the current values is not a conflict and re-checks no
      reference: it succeeds whatever has since happened to the referenced
      records (inactivated or deleted), and changes only the update stamp. */
  lemma ResubmitOnlyRestamps(medias: map<Id, Media>, refs: Refs, id: Id, now: Stamp)
    requires id in medias && Required(medias[id])
    ensures Actualizar(medias, refs, id, Resubmission(medias[id]), now)
         == Ok(medias[id].(fechaActualizacion := now))
  {
  }

  /** An update that supplies only plain fields never reports a duplicate or
      an invalid reference, even when a stored reference is now Inactivo or
      gone. */
  lemma PlainUpdateSkipsReferenceChecks(medias: map<Id, Media>, refs: Refs, id: Id, input: MediaInput, now: Stamp)
    requires input.serial.None? && input.url.None?
    requires input.genero.None? && input.director.None? && input.productora.None? && input.tipo.None?
    ensures var r := Actualizar(medias, refs, id, input, now);
      r.Err? ==> r.error == NotFound || r.error == ValidationFailure
  {
  }

  /** The scenario of one Drama genre and a stored Media S1: a second Media
      with serial S1 is refused on its serial even though its url is new. */
  lemma DuplicateSerialExample()
    ensures var refs := Refs(map[0 := Genero("Drama", Activo, None, 1, 1)],
                             map[1 := Director("Ana Ruiz", Activo, 2, 2)],
                             map[2 := Productora("Estudio Norte", Activo, None, None, 3, 3)],
                             map[3 := Tipo("Serie", None, 4, 4)]);
      var s1 := Media("S1", "Uno", "Sinopsis", "u1", "p.png", 2020, 0, 1, 2, 3, 5, 5);
      var again := MediaInput(Some("S1"), Some("Dos"), Some("Sinopsis"), Some("u2"), Some("p.png"),
                              Some(2021), Some(0), Some(1), Some(2), Some(3));
      Crear(map[4 := s1], refs, again, 6) == Err(DuplicateKey(Serial))
  {
    var s1 := Media("S1", "Uno", "Sinopsis", "u1", "p.png", 2020, 0, 1, 2, 3, 5, 5);
    assert map[4 := s1][4].serial == "S1";
  }

  /** Deleting the genre a Media uses leaves the Media's id in place: its
      expansion then finds nothing, and resubmitting the Media unchanged still
      succeeds, because the genre is re-checked only when it changes. */
  lemma DeletedGeneroLeavesStaleReference(medias: map<Id, Media>, refs: Refs, id: Id, now: Stamp)
    requires id in medias && Required(medias[id])
    ensures var gone := refs.(generos := refs.generos - {medias[id].genero});
      && Populate(gone, id, medias[id]).media.genero == medias[id].genero
      && Populate(gone, id, medias[id]).genero.None?
      && Actualizar(medias, gone, id, Resubmission(medias[id]), now) == Ok(medias[id].(fechaActualizacion := now))
  {
    ResubmitOnlyRestamps(medias, refs.(generos := refs.generos - {medias[id].genero}), id, now);
  }

  // ---- obtenerMedias: the filter of the query string ----

  /** The listing's query string. A criterion is None when absent or falsy;
      `titulo` is kept as given because its truthiness is tested by the
      listing itself. */
  datatype MediaQuery = MediaQuery(
    genero: Option<Id>,
    director: Option<Id>,
    productora: Option<Id>,
    tipo: Option<Id>,
    anio: Option<int>,
    titulo: Option<string>,
    page: Option<nat>,
    limit: Option<nat>)

  function LowerChar(c: char): char
  {
    if 'A' <= c <= 'Z' then (c as int + 32) as char else c
  }

  function Lower(s: string): string
  {
    seq(|s|, i requires 0 <= i < |s| => LowerChar(s[i]))
  }

  /** `needle` occurs in `text` at some position. */
  predicate Contains(text: string, needle: string)
    decreases |text|
  {
    (|needle| <= |text| && text[..|needle|] == needle)
    || (|text| > 0 && Contains(text[1..], needle))
  }

  lemma {:induction false} ContainsAt(text: string, needle: string, i: nat)
    requires i + |needle| <= |text| && text[i..i + |needle|] == needle
    ensures Contains(text, needle)
    decreases i
  {
    if i > 0 {
      assert text[1..][i - 1..i - 1 + |needle|] == text[i..i + |needle|];
      ContainsAt(text[1..], needle, i - 1);
    }
  }

  /** `{ $regex: titulo, $options: 'i' }` read as a case-insensitive
      substring test on ASCII letters. */
  predicate TitleMatches(titulo: string, pattern: string)
  {
    Contains(Lower(titulo), Lower(pattern))
  }

  /** The filter object the listing builds: each truthy criterion must hold (AND). */
  predicate Selected(q: MediaQuery, m: Media)
  {
    && (q.genero.Some? ==> m.genero == q.genero.value)
    && (q.director.Some? ==> m.director == q.director.value)
    && (q.productora.Some? ==> m.productora == q.productora.value)
    && (q.tipo.Some? ==> m.tipo == q.tipo.value)
    && (q.anio.Some? ==> m.anioEstreno == q.anio.value)
    && (Truthy(q.titulo) ==> TitleMatches(m.titulo, q.titulo.value))
  }

  /** The selected records with their creation stamps. */
  function Matching(medias: map<Id, Media>, q: MediaQuery): map<Id, Stamp>
  {
    map k | k in medias && Selected(q, medias[k]) :: medias[k].fechaCreacion
  }

  /** The criteria combine with AND: a record is left out of the listing
      exactly when it is not stored or some supplied criterion fails. */
  lemma ExcludedIffSomeCriterionFails(medias: map<Id, Media>, q: MediaQuery, k: Id)
    ensures k !in Matching(medias, q) <==>
      || k !in medias
      || (q.genero.Some? && medias[k].genero != q.genero.value)
      || (q.director.Some? && medias[k].director != q.director.value)
      || (q.productora.Some? && medias[k].productora != q.productora.value)
      || (q.tipo.Some? && medias[k].tipo != q.tipo.value)
      || (q.anio.Some? && medias[k].anioEstreno != q.anio.value)
      || (Truthy(q.titulo) && !TitleMatches(medias[k].titulo, q.titulo.value))
  {
  }

  /** Without criteria the listing selects every stored record. */
  lemma NoCriteriaSelectsAll(medias: map<Id, Media>, page: Option<nat>, limit: Option<nat>)
    ensures Matching(medias, MediaQuery(None, None, None, None, None, None, page, limit)).Keys == medias.Keys
  {
  }

  /** A title filter matches regardless of case, anywhere in the title:
      "man" selects both "Spiderman" and "Manhattan". */
  lemma TitleFilterExamples()
    ensures TitleMatches("Spiderman", "man")
    ensures TitleMatches("Manhattan", "man")
    ensures !TitleMatches("Drama", "man")
  {
    assert Lower("man") == "man";
    assert Lower("Spiderman")[6..9] == "man";
    ContainsAt(Lower("Spiderman"), Lower("man"), 6);
    assert Lower("Manhattan")[0..3] == "man";
    ContainsAt(Lower("Manhattan"), Lower("man"), 0);
    assert Lower("Drama") == "drama";
    assert !Contains("", "man");
    assert !Contains("a", "man");
    assert !Contains("ma", "man");
    assert "ama"[..3][0] != "man"[0];
    assert !Contains("ama", "man");
    assert "rama"[..3][0] != "man"[0];
    assert !Contains("rama", "man");
    assert "drama"[..3][0] != "man"[0];
    assert !Contains("drama", "man");
  }

  /** The page and limit the listing uses: `page = 1` and `limit = 10` by default. */
  function EffectivePage(q: MediaQuery): (p: nat)
    requires q.page.Some? ==> q.page.value >= 1
    ensures p >= 1
  {
    if q.page.Some? then q.page.value else 1
  }

  function EffectiveLimit(q: MediaQuery): (l: nat)
    requires q.limit.Some? ==> q.limit.value >= 1
    ensures l >= 1
  {
    if q.limit.Some? then q.limit.value else 10
  }

  /** One page of the listing, as the response carries it. */
  datatype MediaPage = MediaPage(docs: seq<MediaView>, total: nat, page: nat, pages: nat, limit: nat)
}
