/** The catalog service as a state machine: one table per collection, a
    shared id counter standing for the store's id allocation and a logical
    clock standing for Date.now. Each controller handler is a method that
    either answers with a value or with a typed error; an error leaves every
    table as it was. */
module CatalogService {
  import opened Results
  import opened Models
  import Listing
  import Medias
  import Generos
  import Productoras
  import Tipos
  import Directores

  /** A stored record with its id, as a listing or a create answers it. */
  datatype Row<R> = Row(id: Id, record: R)

  function RowsOf<R>(m: map<Id, R>, ids: seq<Id>): seq<Row<R>>
    requires forall i :: 0 <= i < |ids| ==> ids[i] in m
  {
    seq(|ids|, i requires 0 <= i < |ids| => Row(ids[i], m[ids[i]]))
  }

  /** The rows of a newest-first listing of the selected ids: each selected
      record exactly once, with its stored value, newest first. */
  lemma RowsOfListing<R>(table: map<Id, R>, selected: map<Id, Stamp>, ids: seq<Id>)
    requires forall k :: k in selected ==> k in table
    requires forall k :: k in ids <==> k in selected
    requires |ids| == |selected| && Listing.Distinct(ids)
    requires Listing.Covered(selected, ids) && Listing.Descending(selected, ids)
    ensures |RowsOf(table, ids)| == |selected|
    ensures forall k :: k in selected <==> exists i :: 0 <= i < |ids| && RowsOf(table, ids)[i].id == k
    ensures forall i :: 0 <= i < |ids| ==>
      RowsOf(table, ids)[i].id in selected && RowsOf(table, ids)[i].record == table[RowsOf(table, ids)[i].id]
    ensures forall i, j :: 0 <= i < j < |ids| ==>
      RowsOf(table, ids)[i].id != RowsOf(table, ids)[j].id
      && selected[RowsOf(table, ids)[i].id] >= selected[RowsOf(table, ids)[j].id]
  {
    var rows := RowsOf(table, ids);
    assert forall i :: 0 <= i < |rows| ==> rows[i].id == ids[i];
  }

  /** A `find(filtro).sort({ fechaCreacion: -1 })` on one table, given the
      creation stamps of the records the filter selects: each selected record
      exactly once, with its stored value, newest first. */
  function ListRows<R>(table: map<Id, R>, selected: map<Id, Stamp>, n: nat): (rows: seq<Row<R>>)
    requires forall k :: k in table ==> k < n
    requires forall k :: k in selected ==> k in table
    ensures |rows| == |selected|
    ensures forall k :: k in selected <==> exists i :: 0 <= i < |rows| && rows[i].id == k
    ensures forall i :: 0 <= i < |rows| ==> rows[i].id in selected && rows[i].record == table[rows[i].id]
    ensures forall i, j :: 0 <= i < j < |rows| ==>
      rows[i].id != rows[j].id && selected[rows[i].id] >= selected[rows[j].id]
  {
    var ids := Listing.Ordered(selected, n);
    RowsOfListing(table, selected, ids);
    RowsOf(table, ids)
  }

  /** obtenerMedias: the records the query selects, most recently created
      first, cut to the requested page, with their references expanded.
      `total` counts every selected record, not only the page; the docs are
      described by ListMediasDocs and ListMediasNewestFirst. */
  function ListMedias(medias: map<Id, Media>, refs: Medias.Refs, q: Medias.MediaQuery, n: nat): (res: Medias.MediaPage)
    requires forall k :: k in medias ==> k < n
    requires q.page.Some? ==> q.page.value >= 1
    requires q.limit.Some? ==> q.limit.value >= 1
    ensures q.page.None? ==> res.page == 1
    ensures q.page.Some? ==> res.page == q.page.value
    ensures q.limit.None? ==> res.limit == 10
    ensures q.limit.Some? ==> res.limit == q.limit.value
    ensures res.total == |Medias.Matching(medias, q)| && res.pages == Listing.PageCount(res.total, res.limit)
    ensures |res.docs| <= res.limit
  {
    var page := Medias.EffectivePage(q);
    var limit := Medias.EffectiveLimit(q);
    var matching := Medias.Matching(medias, q);
    var all := Listing.Ordered(matching, n);
    var ids := Listing.Page(all, page, limit);
    Listing.PageKeepsOrder(matching, all, page, limit);
    ViewsInOrder(refs, medias, matching, ids);
    Medias.MediaPage(Medias.Views(refs, medias, ids), |matching|, page, Listing.PageCount(|matching|, limit), limit)
  }

  /** Populating keeps the ids and their order. */
  lemma ViewIds(refs: Medias.Refs, medias: map<Id, Media>, ids: seq<Id>)
    requires forall i :: 0 <= i < |ids| ==> ids[i] in medias
    ensures |Medias.Views(refs, medias, ids)| == |ids|
    ensures forall i :: 0 <= i < |ids| ==> Medias.Views(refs, medias, ids)[i].id == ids[i]
  {
  }

  /** The docs of a listing are the entries of the full newest-first listing
      from position `(page-1)*limit` on: stored records that satisfy the
      query, each with its references expanded. */
  lemma ListMediasDocs(medias: map<Id, Media>, refs: Medias.Refs, q: Medias.MediaQuery, n: nat)
    requires forall k :: k in medias ==> k < n
    requires q.page.Some? ==> q.page.value >= 1
    requires q.limit.Some? ==> q.limit.value >= 1
    ensures var res := ListMedias(medias, refs, q, n);
      var all := Listing.Ordered(Medias.Matching(medias, q), n);
      && |res.docs| == |Listing.Page(all, res.page, res.limit)|
      && forall i :: 0 <= i < |res.docs| ==> res.docs[i].id == all[Listing.Skip(res.page, res.limit) + i]
    ensures var res := ListMedias(medias, refs, q, n);
      forall i :: 0 <= i < |res.docs| ==>
        && res.docs[i].id in medias
        && res.docs[i] == Medias.Populate(refs, res.docs[i].id, medias[res.docs[i].id])
        && Medias.Selected(q, res.docs[i].media)
  {
    var res := ListMedias(medias, refs, q, n);
    var matching := Medias.Matching(medias, q);
    var all := Listing.Ordered(matching, n);
    var ids := Listing.Page(all, res.page, res.limit);
    Listing.PageKeepsOrder(matching, all, res.page, res.limit);
    ViewIds(refs, medias, ids);
    assert res.docs == Medias.Views(refs, medias, ids);
    forall i | 0 <= i < |res.docs|
      ensures res.docs[i].id in medias && res.docs[i] == Medias.Populate(refs, res.docs[i].id, medias[res.docs[i].id])
      ensures Medias.Selected(q, res.docs[i].media)
    {
      assert ids[i] in matching;
      assert res.docs[i] == Medias.Populate(refs, ids[i], medias[ids[i]]);
    }
  }

  /** The docs of a listing are newest first and hold no record twice. */
  lemma ListMediasNewestFirst(medias: map<Id, Media>, refs: Medias.Refs, q: Medias.MediaQuery, n: nat)
    requires forall k :: k in medias ==> k < n
    requires q.page.Some? ==> q.page.value >= 1
    requires q.limit.Some? ==> q.limit.value >= 1
    ensures var docs := ListMedias(medias, refs, q, n).docs;
      forall i, j :: 0 <= i < j < |docs| ==>
        docs[i].id != docs[j].id && docs[i].media.fechaCreacion >= docs[j].media.fechaCreacion
  {
    var matching := Medias.Matching(medias, q);
    var all := Listing.Ordered(matching, n);
    var ids := Listing.Page(all, Medias.EffectivePage(q), Medias.EffectiveLimit(q));
    Listing.PageKeepsOrder(matching, all, Medias.EffectivePage(q), Medias.EffectiveLimit(q));
    ViewsInOrder(refs, medias, matching, ids);
  }

  /** Populating a newest-first list of stored ids without repeats keeps it
      newest first and without repeats. */
  lemma ViewsInOrder(refs: Medias.Refs, medias: map<Id, Media>, stamps: map<Id, Stamp>, ids: seq<Id>)
    requires forall k :: k in stamps ==> k in medias && stamps[k] == medias[k].fechaCreacion
    requires Listing.Covered(stamps, ids) && Listing.Distinct(ids) && Listing.Descending(stamps, ids)
    ensures forall i :: 0 <= i < |ids| ==> ids[i] in medias
    ensures var docs := Medias.Views(refs, medias, ids);
      forall i, j :: 0 <= i < j < |docs| ==>
        docs[i].id != docs[j].id && docs[i].media.fechaCreacion >= docs[j].media.fechaCreacion
  {
    var docs := Medias.Views(refs, medias, ids);
    forall i, j | 0 <= i < j < |docs|
      ensures docs[i].id != docs[j].id && docs[i].media.fechaCreacion >= docs[j].media.fechaCreacion
    {
      assert docs[i].id == ids[i] && docs[j].id == ids[j];
      assert stamps[ids[i]] >= stamps[ids[j]];
    }
  }

  /** obtenerTipos has no filter: its listing holds every tipo, each once,
      newest first. */
  lemma ListAllTipos(tipos: map<Id, Tipo>, n: nat)
    requires forall k :: k in tipos ==> k < n
    ensures var docs := ListRows(tipos, Tipos.Matching(tipos), n);
      && |docs| == |tipos|
      && (forall i :: 0 <= i < |docs| ==> docs[i].id in tipos && docs[i].record == tipos[docs[i].id])
      && (forall k :: k in tipos ==> exists i :: 0 <= i < |docs| && docs[i].id == k)
      && (forall i, j :: 0 <= i < j < |docs| ==>
            docs[i].id != docs[j].id && docs[i].record.fechaCreacion >= docs[j].record.fechaCreacion)
  {
    var all := Tipos.Matching(tipos);
    assert all.Keys == tipos.Keys;
    assert forall k :: k in all ==> all[k] == tipos[k].fechaCreacion;
  }

  /** The body of crearMedia up to the save: the checks in their fixed
      order, then the schema validation, then the new record. */
  method CreateMedia(medias: map<Id, Media>, refs: Medias.Refs, input: Medias.MediaInput, now: Stamp)
    returns (r: Result<Media>)
    ensures r == Medias.Crear(medias, refs, input, now)
  {
    if Medias.SerialTaken(medias, input.serial) {
      return Err(DuplicateKey(Serial));
    }
    if Medias.UrlTaken(medias, input.url) {
      return Err(DuplicateKey(Url));
    }
    if !Medias.GeneroActivo(refs, input.genero) {
      return Err(InvalidReference(GeneroRef));
    }
    if !Medias.DirectorActivo(refs, input.director) {
      return Err(InvalidReference(DirectorRef));
    }
    if !Medias.ProductoraActiva(refs, input.productora) {
      return Err(InvalidReference(ProductoraRef));
    }
    if !Medias.TipoExiste(refs, input.tipo) {
      return Err(InvalidReference(TipoRef));
    }
    if !(Truthy(input.serial) && Truthy(input.titulo) && Truthy(input.sinopsis)
         && Truthy(input.url) && Truthy(input.imagenPortada) && input.anioEstreno.Some?) {
      return Err(ValidationFailure);
    }
    r := Ok(Media(input.serial.value, input.titulo.value, input.sinopsis.value, input.url.value,
                  input.imagenPortada.value, input.anioEstreno.value, input.genero.value,
                  input.director.value, input.productora.value, input.tipo.value, now, now));
  }

  /** actualizarMedia's unique keys: serial, then url, each re-checked and
      assigned only when the request changes it. */
  method AssignKeys(medias: map<Id, Media>, media: Media, input: Medias.MediaInput) returns (r: Result<Media>)
    ensures Medias.KeyError(medias, media, input).Some? ==> r == Err(Medias.KeyError(medias, media, input).value)
    ensures Medias.KeyError(medias, media, input).None? ==>
      r == Ok(media.(serial := if Truthy(input.serial) then input.serial.value else media.serial,
                     url := if Truthy(input.url) then input.url.value else media.url))
  {
    var m := media;
    if Changes(input.serial, m.serial) {
      if Medias.SerialTaken(medias, input.serial) {
        return Err(DuplicateKey(Serial));
      }
      m := m.(serial := input.serial.value);
    }
    if Changes(input.url, m.url) {
      if Medias.UrlTaken(medias, input.url) {
        return Err(DuplicateKey(Url));
      }
      m := m.(url := input.url.value);
    }
    r := Ok(m);
  }

  /** actualizarMedia's references: genero, director, productora, tipo, each
      re-checked and assigned only when the request changes it. */
  method AssignRefs(refs: Medias.Refs, media: Media, input: Medias.MediaInput) returns (r: Result<Media>)
    ensures Medias.RefError(refs, media, input).Some? ==> r == Err(Medias.RefError(refs, media, input).value)
    ensures Medias.RefError(refs, media, input).None? ==>
      r == Ok(media.(genero := Assign(input.genero, media.genero), director := Assign(input.director, media.director),
                     productora := Assign(input.productora, media.productora), tipo := Assign(input.tipo, media.tipo)))
  {
    var m := media;
    if ChangesRef(input.genero, m.genero) {
      if !Medias.GeneroActivo(refs, input.genero) {
        return Err(InvalidReference(GeneroRef));
      }
      m := m.(genero := input.genero.value);
    }
    if ChangesRef(input.director, m.director) {
      if !Medias.DirectorActivo(refs, input.director) {
        return Err(InvalidReference(DirectorRef));
      }
      m := m.(director := input.director.value);
    }
    if ChangesRef(input.productora, m.productora) {
      if !Medias.ProductoraActiva(refs, input.productora) {
        return Err(InvalidReference(ProductoraRef));
      }
      m := m.(productora := input.productora.value);
    }
    if ChangesRef(input.tipo, m.tipo) {
      if !Medias.TipoExiste(refs, input.tipo) {
        return Err(InvalidReference(TipoRef));
      }
      m := m.(tipo := input.tipo.value);
    }
    r := Ok(m);
  }

  /** actualizarMedia's checked fields: the unique keys first, then the
      references, each re-checked and assigned only when the request changes it. */
  method AssignChecked(medias: map<Id, Media>, refs: Medias.Refs, media: Media, input: Medias.MediaInput)
    returns (r: Result<Media>)
    ensures Medias.UpdateError(medias, refs, media, input).Some? ==>
      r == Err(Medias.UpdateError(medias, refs, media, input).value)
    ensures Medias.UpdateError(medias, refs, media, input).None? ==>
      r == Ok(media.(serial := if Truthy(input.serial) then input.serial.value else media.serial,
                     url := if Truthy(input.url) then input.url.value else media.url,
                     genero := Assign(input.genero, media.genero), director := Assign(input.director, media.director),
                     productora := Assign(input.productora, media.productora), tipo := Assign(input.tipo, media.tipo)))
  {
    var keyed := AssignKeys(medias, media, input);
    if keyed.Err? {
      return Err(keyed.error);
    }
    // assigning the keys leaves the references the checks compare against
    assert Medias.RefError(refs, keyed.value, input) == Medias.RefError(refs, media, input);
    r := AssignRefs(refs, keyed.value, input);
  }

  /** The body of actualizarMedia up to the save: load the record, assign the
      checked fields, then the plain ones, validate, stamp. */
  method UpdateMedia(medias: map<Id, Media>, refs: Medias.Refs, id: Id, input: Medias.MediaInput, now: Stamp)
    returns (r: Result<Media>)
    ensures r == Medias.Actualizar(medias, refs, id, input, now)
  {
    if id !in medias {
      return Err(NotFound);
    }
    var media := medias[id];
    ghost var loaded := media;
    var checked := AssignChecked(medias, refs, media, input);
    if checked.Err? {
      return Err(checked.error);
    }
    media := checked.value;
    if input.titulo.Some? { media := media.(titulo := input.titulo.value); }
    if input.sinopsis.Some? { media := media.(sinopsis := input.sinopsis.value); }
    if input.imagenPortada.Some? { media := media.(imagenPortada := input.imagenPortada.value); }
    if input.anioEstreno.Some? { media := media.(anioEstreno := input.anioEstreno.value); }
    assert media == Medias.Updated(loaded, input);
    // save: schema validation, then the pre-save hook stamps the record
    if !Medias.Required(media) {
      return Err(ValidationFailure);
    }
    media := media.(fechaActualizacion := now);
    r := Ok(media);
  }

  class Catalog {
    var medias: map<Id, Media>
    var generos: map<Id, Genero>
    var directores: map<Id, Director>
    var productoras: map<Id, Productora>
    var tipos: map<Id, Tipo>
    var clock: Stamp
    var nextId: nat

    /** The invariants every handler keeps. Deliberately absent: that the
        references of a Media resolve to Activo records. */
    ghost predicate Valid()
      reads this
    {
      && Medias.Consistent(medias, nextId, clock)
      && Generos.Consistent(generos, nextId, clock)
      && Directores.Consistent(directores, nextId, clock)
      && Productoras.Consistent(productoras, nextId, clock)
      && Tipos.Consistent(tipos, nextId, clock)
    }

    /** Advancing the counter and the clock keeps every table consistent. */
    lemma AllLater(laterId: nat, laterClock: Stamp)
      requires Valid() && nextId <= laterId && clock <= laterClock
      ensures Medias.Consistent(medias, laterId, laterClock)
      ensures Generos.Consistent(generos, laterId, laterClock)
      ensures Directores.Consistent(directores, laterId, laterClock)
      ensures Productoras.Consistent(productoras, laterId, laterClock)
      ensures Tipos.Consistent(tipos, laterId, laterClock)
    {
      Medias.ConsistentLater(medias, nextId, clock, laterId, laterClock);
      Generos.ConsistentLater(generos, nextId, clock, laterId, laterClock);
      Directores.ConsistentLater(directores, nextId, clock, laterId, laterClock);
      Productoras.ConsistentLater(productoras, nextId, clock, laterId, laterClock);
      Tipos.ConsistentLater(tipos, nextId, clock, laterId, laterClock);
    }

    function Refs(): Medias.Refs
      reads this
    {
      Medias.Refs(generos, directores, productoras, tipos)
    }

    constructor ()
      ensures Valid()
      ensures medias == map[] && generos == map[] && directores == map[]
      ensures productoras == map[] && tipos == map[]
      ensures clock == 0 && nextId == 0
    {
      medias, generos, directores, productoras, tipos := map[], map[], map[], map[], map[];
      clock, nextId := 0, 0;
    }


    // ---- saves: the only writes to the tables ----

    /** The save of a new Media: the next id, one tick of the clock. */
    method InsertMedia(x: Media) returns (id: Id)
      requires Valid() && Medias.Consistent(medias[nextId := x], nextId + 1, clock + 1)
      modifies this
      ensures Valid()
      ensures id == old(nextId) && medias == old(medias)[id := x]
      ensures nextId == old(nextId) + 1 && clock == old(clock) + 1
      ensures generos == old(generos) && directores == old(directores)
      ensures productoras == old(productoras) && tipos == old(tipos)
    {
      AllLater(nextId + 1, clock + 1);
      clock := clock + 1;
      id := nextId;
      nextId := nextId + 1;
      medias := medias[id := x];
    }

    /** The save of an updated Media under its own id, one tick of the clock. */
    method ReplaceMedia(id: Id, x: Media)
      requires Valid() && Medias.Consistent(medias[id := x], nextId, clock + 1)
      modifies this
      ensures Valid()
      ensures medias == old(medias)[id := x] && clock == old(clock) + 1 && nextId == old(nextId)
      ensures generos == old(generos) && directores == old(directores)
      ensures productoras == old(productoras) && tipos == old(tipos)
    {
      AllLater(nextId, clock + 1);
      clock := clock + 1;
      medias := medias[id := x];
    }

    /** The save of a new Genero: the next id, one tick of the clock. */
    method InsertGenero(x: Genero) returns (id: Id)
      requires Valid() && Generos.Consistent(generos[nextId := x], nextId + 1, clock + 1)
      modifies this
      ensures Valid()
      ensures id == old(nextId) && generos == old(generos)[id := x]
      ensures nextId == old(nextId) + 1 && clock == old(clock) + 1
      ensures medias == old(medias) && directores == old(directores)
      ensures productoras == old(productoras) && tipos == old(tipos)
    {
      AllLater(nextId + 1, clock + 1);
      clock := clock + 1;
      id := nextId;
      nextId := nextId + 1;
      generos := generos[id := x];
    }

    /** The save of an updated Genero under its own id, one tick of the clock. */
    method ReplaceGenero(id: Id, x: Genero)
      requires Valid() && Generos.Consistent(generos[id := x], nextId, clock + 1)
      modifies this
      ensures Valid()
      ensures generos == old(generos)[id := x] && clock == old(clock) + 1 && nextId == old(nextId)
      ensures medias == old(medias) && directores == old(directores)
      ensures productoras == old(productoras) && tipos == old(tipos)
    {
      AllLater(nextId, clock + 1);
      clock := clock + 1;
      generos := generos[id := x];
    }

    /** The save of a new Director: the next id, one tick of the clock. */
    method InsertDirector(x: Director) returns (id: Id)
      requires Valid() && Directores.Consistent(directores[nextId := x], nextId + 1, clock + 1)
      modifies this
      ensures Valid()
      ensures id == old(nextId) && directores == old(directores)[id := x]
      ensures nextId == old(nextId) + 1 && clock == old(clock) + 1
      ensures medias == old(medias) && generos == old(generos)
      ensures productoras == old(productoras) && tipos == old(tipos)
    {
      AllLater(nextId + 1, clock + 1);
      clock := clock + 1;
      id := nextId;
      nextId := nextId + 1;
      directores := directores[id := x];
    }

    /** The save of an updated Director under its own id, one tick of the clock. */
    method ReplaceDirector(id: Id, x: Director)
      requires Valid() && Directores.Consistent(directores[id := x], nextId, clock + 1)
      modifies this
      ensures Valid()
      ensures directores == old(directores)[id := x] && clock == old(clock) + 1 && nextId == old(nextId)
      ensures medias == old(medias) && generos == old(generos)
      ensures productoras == old(productoras) && tipos == old(tipos)
    {
      AllLater(nextId, clock + 1);
      clock := clock + 1;
      directores := directores[id := x];
    }

    /** The save of a new Productora: the next id, one tick of the clock. */
    method InsertProductora(x: Productora) returns (id: Id)
      requires Valid() && Productoras.Consistent(productoras[nextId := x], nextId + 1, clock + 1)
      modifies this
      ensures Valid()
      ensures id == old(nextId) && productoras == old(productoras)[id := x]
      ensures nextId == old(nextId) + 1 && clock == old(clock) + 1
      ensures medias == old(medias) && generos == old(generos)
      ensures directores == old(directores) && tipos == old(tipos)
    {
      AllLater(nextId + 1, clock + 1);
      clock := clock + 1;
      id := nextId;
      nextId := nextId + 1;
      productoras := productoras[id := x];
    }

    /** The save of an updated Productora under its own id, one tick of the clock. */
    method ReplaceProductora(id: Id, x: Productora)
      requires Valid() && Productoras.Consistent(productoras[id := x], nextId, clock + 1)
      modifies this
      ensures Valid()
      ensures productoras == old(productoras)[id := x] && clock == old(clock) + 1 && nextId == old(nextId)
      ensures medias == old(medias) && generos == old(generos)
      ensures directores == old(directores) && tipos == old(tipos)
    {
      AllLater(nextId, clock + 1);
      clock := clock + 1;
      productoras := productoras[id := x];
    }

    /** The save of a new Tipo: the next id, one tick of the clock. */
    method InsertTipo(x: Tipo) returns (id: Id)
      requires Valid() && Tipos.Consistent(tipos[nextId := x], nextId + 1, clock + 1)
      modifies this
      ensures Valid()
      ensures id == old(nextId) && tipos == old(tipos)[id := x]
      ensures nextId == old(nextId) + 1 && clock == old(clock) + 1
      ensures medias == old(medias) && generos == old(generos)
      ensures directores == old(directores) && productoras == old(productoras)
    {
      AllLater(nextId + 1, clock + 1);
      clock := clock + 1;
      id := nextId;
      nextId := nextId + 1;
      tipos := tipos[id := x];
    }

    /** The save of an updated Tipo under its own id, one tick of the clock. */
    method ReplaceTipo(id: Id, x: Tipo)
      requires Valid() && Tipos.Consistent(tipos[id := x], nextId, clock + 1)
      modifies this
      ensures Valid()
      ensures tipos == old(tipos)[id := x] && clock == old(clock) + 1 && nextId == old(nextId)
      ensures medias == old(medias) && generos == old(generos)
      ensures directores == old(directores) && productoras == old(productoras)
    {
      AllLater(nextId, clock + 1);
      clock := clock + 1;
      tipos := tipos[id := x];
    }

    // ---- controllers/mediaController.js ----

    /** obtenerMedias, on the current tables. */
    method ObtenerMedias(q: Medias.MediaQuery) returns (res: Medias.MediaPage)
      requires Valid()
      requires q.page.Some? ==> q.page.value >= 1
      requires q.limit.Some? ==> q.limit.value >= 1
      ensures res == ListMedias(medias, Refs(), q, nextId)
      ensures res.page == (if q.page.Some? then q.page.value else 1)
      ensures res.limit == (if q.limit.Some? then q.limit.value else 10)
      ensures res.total == |Medias.Matching(medias, q)| && |res.docs| <= res.limit
      ensures forall i :: 0 <= i < |res.docs| ==>
        res.docs[i].id in medias && Medias.Selected(q, res.docs[i].media)
        && res.docs[i] == Medias.Populate(Refs(), res.docs[i].id, medias[res.docs[i].id])
      ensures forall i, j :: 0 <= i < j < |res.docs| ==>
        res.docs[i].id != res.docs[j].id && res.docs[i].media.fechaCreacion >= res.docs[j].media.fechaCreacion
    {
      res := ListMedias(medias, Refs(), q, nextId);
      ListMediasDocs(medias, Refs(), q, nextId);
      ListMediasNewestFirst(medias, Refs(), q, nextId);
    }

    /** obtenerMedia: the record with its references expanded, or NotFound. */
    method ObtenerMedia(id: Id) returns (r: Result<Medias.MediaView>)
      ensures id in medias ==> r == Ok(Medias.Populate(Refs(), id, medias[id]))
      ensures id !in medias ==> r == Err(NotFound)
    {
      if id !in medias {
        return Err(NotFound);
      }
      r := Ok(Medias.Populate(Refs(), id, medias[id]));
    }

    /** crearMedia: the ordered checks, then the insertion of one record
        stamped with the advanced clock under a fresh id. */
    method CrearMedia(input: Medias.MediaInput) returns (r: Result<Medias.MediaView>)
      requires Valid()
      modifies this
      ensures Valid()
      ensures var out := Medias.Crear(old(medias), old(Refs()), input, old(clock) + 1);
        if out.Ok? then
          && r == Ok(Medias.Populate(Refs(), old(nextId), out.value))
          && medias == old(medias)[old(nextId) := out.value]
          && nextId == old(nextId) + 1 && clock == old(clock) + 1
        else
          && r == Err(out.error)
          && medias == old(medias) && nextId == old(nextId) && clock == old(clock)
      ensures r.Ok? ==> old(nextId) !in old(medias)
      ensures generos == old(generos) && directores == old(directores)
      ensures productoras == old(productoras) && tipos == old(tipos)
    {
      var out := CreateMedia(medias, Refs(), input, clock + 1);
      if out.Err? {
        return Err(out.error);
      }
      Medias.CrearKeepsConsistent(medias, Refs(), input, nextId, clock);
      var id := InsertMedia(out.value);
      r := Ok(Medias.Populate(Refs(), id, out.value));
    }

    /** actualizarMedia: the field-by-field update of `UpdateMedia`,
        committed to the table only when it succeeds. */
    method ActualizarMedia(id: Id, input: Medias.MediaInput) returns (r: Result<Medias.MediaView>)
      requires Valid()
      modifies this
      ensures Valid()
      ensures var out := Medias.Actualizar(old(medias), old(Refs()), id, input, old(clock) + 1);
        if out.Ok? then
          && r == Ok(Medias.Populate(Refs(), id, out.value))
          && medias == old(medias)[id := out.value] && clock == old(clock) + 1
        else
          && r == Err(out.error) && medias == old(medias) && clock == old(clock)
      ensures nextId == old(nextId) && generos == old(generos) && directores == old(directores)
      ensures productoras == old(productoras) && tipos == old(tipos)
    {
      var out := UpdateMedia(medias, Refs(), id, input, clock + 1);
      if out.Err? {
        return Err(out.error);
      }
      Medias.ActualizarKeepsConsistent(medias, Refs(), id, input, nextId, clock);
      ReplaceMedia(id, out.value);
      r := Ok(Medias.Populate(Refs(), id, out.value));
    }

    /** eliminarMedia: removes exactly that record; no reference entity changes. */
    method EliminarMedia(id: Id) returns (r: Result<()>)
      requires Valid()
      modifies this
      ensures Valid()
      ensures r == (if id in old(medias) then Ok(()) else Err(NotFound))
      ensures medias == old(medias) - {id}
      ensures generos == old(generos) && directores == old(directores)
      ensures productoras == old(productoras) && tipos == old(tipos)
      ensures clock == old(clock) && nextId == old(nextId)
    {
      if id !in medias {
        return Err(NotFound);
      }
      medias := medias - {id};
      r := Ok(());
    }

    // ---- controllers/generoController.js ----

    /** obtenerGeneros: exactly the genres the estado filter selects, each
        once, most recently created first. */
    method ObtenerGeneros(estado: Option<string>) returns (docs: seq<Row<Genero>>)
      requires Valid()
      ensures |docs| == |Generos.Matching(generos, estado)|
      ensures forall i :: 0 <= i < |docs| ==>
        docs[i].id in generos && docs[i].record == generos[docs[i].id]
        && Generos.Selected(estado, docs[i].record)
      ensures forall k :: k in generos && Generos.Selected(estado, generos[k]) ==>
        exists i :: 0 <= i < |docs| && docs[i].id == k
      ensures forall i, j :: 0 <= i < j < |docs| ==>
        docs[i].id != docs[j].id && docs[i].record.fechaCreacion >= docs[j].record.fechaCreacion
    {
      var matching := Generos.Matching(generos, estado);
      assert forall k :: k in generos && Generos.Selected(estado, generos[k]) ==> k in matching;
      docs := ListRows(generos, matching, nextId);
    }

    method ObtenerGenero(id: Id) returns (r: Result<Genero>)
      ensures r == (if id in generos then Ok(generos[id]) else Err(NotFound))
    {
      if id !in generos {
        return Err(NotFound);
      }
      r := Ok(generos[id]);
    }

    method CrearGenero(nombre: Option<string>, descripcion: Option<string>, estado: Option<string>)
      returns (r: Result<Row<Genero>>)
      requires Valid()
      modifies this
      ensures Valid()
      ensures var out := Generos.Crear(old(generos), nombre, descripcion, estado, old(clock) + 1);
        if out.Ok? then
          && r == Ok(Row(old(nextId), out.value))
          && generos == old(generos)[old(nextId) := out.value]
          && nextId == old(nextId) + 1 && clock == old(clock) + 1
        else
          && r == Err(out.error)
          && generos == old(generos) && nextId == old(nextId) && clock == old(clock)
      ensures medias == old(medias) && directores == old(directores)
      ensures productoras == old(productoras) && tipos == old(tipos)
    {
      if Generos.NombreTaken(generos, nombre) {
        return Err(DuplicateKey(Nombre));
      }
      var e := ParseEstado(EstadoOrDefault(estado));
      if !Truthy(nombre) || e.None? {
        return Err(ValidationFailure);
      }
      var genero := Genero(nombre.value, e.value, descripcion, clock + 1, clock + 1);
      assert Generos.Crear(generos, nombre, descripcion, estado, clock + 1) == Ok(genero);
      Generos.CrearKeepsConsistent(generos, nombre, descripcion, estado, nextId, clock);
      var id := InsertGenero(genero);
      r := Ok(Row(id, genero));
    }

    method ActualizarGenero(id: Id, nombre: Option<string>, descripcion: Option<string>, estado: Option<string>)
      returns (r: Result<Genero>)
      requires Valid()
      modifies this
      ensures Valid()
      ensures var out := Generos.Actualizar(old(generos), id, nombre, descripcion, estado, old(clock) + 1);
        && r == out
        && (out.Ok? ==> generos == old(generos)[id := out.value] && clock == old(clock) + 1)
        && (out.Err? ==> generos == old(generos) && clock == old(clock))
      ensures nextId == old(nextId) && medias == old(medias) && directores == old(directores)
      ensures productoras == old(productoras) && tipos == old(tipos)
    {
      if id !in generos {
        return Err(NotFound);
      }
      var genero := generos[id];
      if Changes(nombre, genero.nombre) {
        if Generos.NombreTaken(generos, nombre) {
          return Err(DuplicateKey(Nombre));
        }
        genero := genero.(nombre := nombre.value);
      }
      if descripcion.Some? { genero := genero.(descripcion := descripcion); }
      if estado.Some? {
        var e := ParseEstado(estado.value);
        if e.None? {
          return Err(ValidationFailure);
        }
        genero := genero.(estado := e.value);
      }
      genero := genero.(fechaActualizacion := clock + 1);
      assert Generos.Actualizar(generos, id, nombre, descripcion, estado, clock + 1) == Ok(genero);
      Generos.ActualizarKeepsConsistent(generos, id, nombre, descripcion, estado, nextId, clock);
      ReplaceGenero(id, genero);
      r := Ok(genero);
    }

    /** eliminarGenero: removes only that genre; Media that reference it are
        neither checked nor changed. */
    method EliminarGenero(id: Id) returns (r: Result<()>)
      requires Valid()
      modifies this
      ensures Valid()
      ensures r == (if id in old(generos) then Ok(()) else Err(NotFound))
      ensures generos == old(generos) - {id}
      ensures medias == old(medias) && directores == old(directores)
      ensures productoras == old(productoras) && tipos == old(tipos)
      ensures clock == old(clock) && nextId == old(nextId)
    {
      if id !in generos {
        return Err(NotFound);
      }
      generos := generos - {id};
      r := Ok(());
    }

    // ---- controllers/productoraController.js ----

    method ObtenerProductoras(estado: Option<string>) returns (docs: seq<Row<Productora>>)
      requires Valid()
      ensures |docs| == |Productoras.Matching(productoras, estado)|
      ensures forall i :: 0 <= i < |docs| ==>
        docs[i].id in productoras && docs[i].record == productoras[docs[i].id]
        && Productoras.Selected(estado, docs[i].record)
      ensures forall k :: k in productoras && Productoras.Selected(estado, productoras[k]) ==>
        exists i :: 0 <= i < |docs| && docs[i].id == k
      ensures forall i, j :: 0 <= i < j < |docs| ==>
        docs[i].id != docs[j].id && docs[i].record.fechaCreacion >= docs[j].record.fechaCreacion
    {
      var matching := Productoras.Matching(productoras, estado);
      assert forall k :: k in productoras && Productoras.Selected(estado, productoras[k]) ==> k in matching;
      docs := ListRows(productoras, matching, nextId);
    }

    method ObtenerProductora(id: Id) returns (r: Result<Productora>)
      ensures r == (if id in productoras then Ok(productoras[id]) else Err(NotFound))
    {
      if id !in productoras {
        return Err(NotFound);
      }
      r := Ok(productoras[id]);
    }

    method CrearProductora(nombre: Option<string>, slogan: Option<string>, descripcion: Option<string>,
                           estado: Option<string>) returns (r: Result<Row<Productora>>)
      requires Valid()
      modifies this
      ensures Valid()
      ensures var out := Productoras.Crear(old(productoras), nombre, slogan, descripcion, estado, old(clock) + 1);
        if out.Ok? then
          && r == Ok(Row(old(nextId), out.value))
          && productoras == old(productoras)[old(nextId) := out.value]
          && nextId == old(nextId) + 1 && clock == old(clock) + 1
        else
          && r == Err(out.error)
          && productoras == old(productoras) && nextId == old(nextId) && clock == old(clock)
      ensures medias == old(medias) && generos == old(generos)
      ensures directores == old(directores) && tipos == old(tipos)
    {
      if Productoras.NombreTaken(productoras, nombre) {
        return Err(DuplicateKey(Nombre));
      }
      var e := ParseEstado(EstadoOrDefault(estado));
      if !Truthy(nombre) || e.None? {
        return Err(ValidationFailure);
      }
      var productora := Productora(nombre.value, e.value, slogan, descripcion, clock + 1, clock + 1);
      assert Productoras.Crear(productoras, nombre, slogan, descripcion, estado, clock + 1) == Ok(productora);
      Productoras.CrearKeepsConsistent(productoras, nombre, slogan, descripcion, estado, nextId, clock);
      var id := InsertProductora(productora);
      r := Ok(Row(id, productora));
    }

    method ActualizarProductora(id: Id, nombre: Option<string>, slogan: Option<string>,
                                descripcion: Option<string>, estado: Option<string>)
      returns (r: Result<Productora>)
      requires Valid()
      modifies this
      ensures Valid()
      ensures var out := Productoras.Actualizar(old(productoras), id, nombre, slogan, descripcion, estado, old(clock) + 1);
        && r == out
        && (out.Ok? ==> productoras == old(productoras)[id := out.value] && clock == old(clock) + 1)
        && (out.Err? ==> productoras == old(productoras) && clock == old(clock))
      ensures nextId == old(nextId) && medias == old(medias) && generos == old(generos)
      ensures directores == old(directores) && tipos == old(tipos)
    {
      var table := productoras;
      if id !in table {
        return Err(NotFound);
      }
      var productora := table[id];
      if Changes(nombre, productora.nombre) {
        if Productoras.NombreTaken(table, nombre) {
          return Err(DuplicateKey(Nombre));
        }
        productora := productora.(nombre := nombre.value);
      }
      if slogan.Some? { productora := productora.(slogan := slogan); }
      if descripcion.Some? { productora := productora.(descripcion := descripcion); }
      if estado.Some? {
        var e := ParseEstado(estado.value);
        if e.None? {
          return Err(ValidationFailure);
        }
        productora := productora.(estado := e.value);
      }
      productora := productora.(fechaActualizacion := clock + 1);
      assert Productoras.Actualizar(table, id, nombre, slogan, descripcion, estado, clock + 1) == Ok(productora);
      Productoras.ActualizarKeepsConsistent(table, id, nombre, slogan, descripcion, estado, nextId, clock);
      ReplaceProductora(id, productora);
      r := Ok(productora);
    }

    /** eliminarProductora: removes only that productora, with no cascade to Media. */
    method EliminarProductora(id: Id) returns (r: Result<()>)
      requires Valid()
      modifies this
      ensures Valid()
      ensures r == (if id in old(productoras) then Ok(()) else Err(NotFound))
      ensures productoras == old(productoras) - {id}
      ensures medias == old(medias) && generos == old(generos)
      ensures directores == old(directores) && tipos == old(tipos)
      ensures clock == old(clock) && nextId == old(nextId)
    {
      if id !in productoras {
        return Err(NotFound);
      }
      productoras := productoras - {id};
      r := Ok(());
    }

    // ---- controllers/tipoController.js ----

    /** obtenerTipos: every tipo, each once, most recently created first. */
    method ObtenerTipos() returns (docs: seq<Row<Tipo>>)
      requires Valid()
      ensures |docs| == |tipos|
      ensures forall i :: 0 <= i < |docs| ==> docs[i].id in tipos && docs[i].record == tipos[docs[i].id]
      ensures forall k :: k in tipos ==> exists i :: 0 <= i < |docs| && docs[i].id == k
      ensures forall i, j :: 0 <= i < j < |docs| ==>
        docs[i].id != docs[j].id && docs[i].record.fechaCreacion >= docs[j].record.fechaCreacion
    {
      ListAllTipos(tipos, nextId);
      docs := ListRows(tipos, Tipos.Matching(tipos), nextId);
    }

    method ObtenerTipo(id: Id) returns (r: Result<Tipo>)
      ensures r == (if id in tipos then Ok(tipos[id]) else Err(NotFound))
    {
      if id !in tipos {
        return Err(NotFound);
      }
      r := Ok(tipos[id]);
    }

    method CrearTipo(nombre: Option<string>, descripcion: Option<string>) returns (r: Result<Row<Tipo>>)
      requires Valid()
      modifies this
      ensures Valid()
      ensures var out := Tipos.Crear(old(tipos), nombre, descripcion, old(clock) + 1);
        if out.Ok? then
          && r == Ok(Row(old(nextId), out.value))
          && tipos == old(tipos)[old(nextId) := out.value]
          && nextId == old(nextId) + 1 && clock == old(clock) + 1
        else
          && r == Err(out.error)
          && tipos == old(tipos) && nextId == old(nextId) && clock == old(clock)
      ensures medias == old(medias) && generos == old(generos)
      ensures directores == old(directores) && productoras == old(productoras)
    {
      if Tipos.NombreTaken(tipos, nombre) {
        return Err(DuplicateKey(Nombre));
      }
      if !Truthy(nombre) {
        return Err(ValidationFailure);
      }
      var tipo := Tipo(nombre.value, descripcion, clock + 1, clock + 1);
      assert Tipos.Crear(tipos, nombre, descripcion, clock + 1) == Ok(tipo);
      Tipos.CrearKeepsConsistent(tipos, nombre, descripcion, nextId, clock);
      var id := InsertTipo(tipo);
      r := Ok(Row(id, tipo));
    }

    method ActualizarTipo(id: Id, nombre: Option<string>, descripcion: Option<string>) returns (r: Result<Tipo>)
      requires Valid()
      modifies this
      ensures Valid()
      ensures var out := Tipos.Actualizar(old(tipos), id, nombre, descripcion, old(clock) + 1);
        && r == out
        && (out.Ok? ==> tipos == old(tipos)[id := out.value] && clock == old(clock) + 1)
        && (out.Err? ==> tipos == old(tipos) && clock == old(clock))
      ensures nextId == old(nextId) && medias == old(medias) && generos == old(generos)
      ensures directores == old(directores) && productoras == old(productoras)
    {
      if id !in tipos {
        return Err(NotFound);
      }
      var tipo := tipos[id];
      if Changes(nombre, tipo.nombre) {
        if Tipos.NombreTaken(tipos, nombre) {
          return Err(DuplicateKey(Nombre));
        }
        tipo := tipo.(nombre := nombre.value);
      }
      if descripcion.Some? { tipo := tipo.(descripcion := descripcion); }
      tipo := tipo.(fechaActualizacion := clock + 1);
      assert Tipos.Actualizar(tipos, id, nombre, descripcion, clock + 1) == Ok(tipo);
      Tipos.ActualizarKeepsConsistent(tipos, id, nombre, descripcion, nextId, clock);
      ReplaceTipo(id, tipo);
      r := Ok(tipo);
    }

    /** eliminarTipo: removes only that tipo, with no cascade to Media. */
    method EliminarTipo(id: Id) returns (r: Result<()>)
      requires Valid()
      modifies this
      ensures Valid()
      ensures r == (if id in old(tipos) then Ok(()) else Err(NotFound))
      ensures tipos == old(tipos) - {id}
      ensures medias == old(medias) && generos == old(generos)
      ensures directores == old(directores) && productoras == old(productoras)
      ensures clock == old(clock) && nextId == old(nextId)
    {
      if id !in tipos {
        return Err(NotFound);
      }
      tipos := tipos - {id};
      r := Ok(());
    }

    // ---- controllers/directorController.js ----

    method ObtenerDirectores(estado: Option<string>) returns (docs: seq<Row<Director>>)
      requires Valid()
      ensures |docs| == |Directores.Matching(directores, estado)|
      ensures forall i :: 0 <= i < |docs| ==>
        docs[i].id in directores && docs[i].record == directores[docs[i].id]
        && Directores.Selected(estado, docs[i].record)
      ensures forall k :: k in directores && Directores.Selected(estado, directores[k]) ==>
        exists i :: 0 <= i < |docs| && docs[i].id == k
      ensures forall i, j :: 0 <= i < j < |docs| ==>
        docs[i].id != docs[j].id && docs[i].record.fechaCreacion >= docs[j].record.fechaCreacion
    {
      var matching := Directores.Matching(directores, estado);
      assert forall k :: k in directores && Directores.Selected(estado, directores[k]) ==> k in matching;
      docs := ListRows(directores, matching, nextId);
    }

    method ObtenerDirector(id: Id) returns (r: Result<Director>)
      ensures r == (if id in directores then Ok(directores[id]) else Err(NotFound))
    {
      if id !in directores {
        return Err(NotFound);
      }
      r := Ok(directores[id]);
    }

    /** crearDirector: no uniqueness check against the other directors. */
    method CrearDirector(nombres: Option<string>, estado: Option<string>) returns (r: Result<Row<Director>>)
      requires Valid()
      modifies this
      ensures Valid()
      ensures var out := Directores.Crear(nombres, estado, old(clock) + 1);
        if out.Ok? then
          && r == Ok(Row(old(nextId), out.value))
          && directores == old(directores)[old(nextId) := out.value]
          && nextId == old(nextId) + 1 && clock == old(clock) + 1
        else
          && r == Err(out.error)
          && directores == old(directores) && nextId == old(nextId) && clock == old(clock)
      ensures medias == old(medias) && generos == old(generos)
      ensures productoras == old(productoras) && tipos == old(tipos)
    {
      var e := ParseEstado(EstadoOrDefault(estado));
      if !Truthy(nombres) || e.None? {
        return Err(ValidationFailure);
      }
      var director := Director(nombres.value, e.value, clock + 1, clock + 1);
      var id := InsertDirector(director);
      r := Ok(Row(id, director));
    }

    method ActualizarDirector(id: Id, nombres: Option<string>, estado: Option<string>) returns (r: Result<Director>)
      requires Valid()
      modifies this
      ensures Valid()
      ensures var out := Directores.Actualizar(old(directores), id, nombres, estado, old(clock) + 1);
        && r == out
        && (out.Ok? ==> directores == old(directores)[id := out.value] && clock == old(clock) + 1)
        && (out.Err? ==> directores == old(directores) && clock == old(clock))
      ensures nextId == old(nextId) && medias == old(medias) && generos == old(generos)
      ensures productoras == old(productoras) && tipos == old(tipos)
    {
      if id !in directores {
        return Err(NotFound);
      }
      var director := directores[id];
      if nombres.Some? { director := director.(nombres := nombres.value); }
      if !RequiredString(director.nombres) {
        return Err(ValidationFailure);
      }
      if estado.Some? {
        var e := ParseEstado(estado.value);
        if e.None? {
          return Err(ValidationFailure);
        }
        director := director.(estado := e.value);
      }
      director := director.(fechaActualizacion := clock + 1);
      assert Directores.Actualizar(directores, id, nombres, estado, clock + 1) == Ok(director);
      Directores.ActualizarKeepsConsistent(directores, id, nombres, estado, nextId, clock);
      ReplaceDirector(id, director);
      r := Ok(director);
    }

    /** eliminarDirector: removes only that director, with no cascade to Media. */
    method EliminarDirector(id: Id) returns (r: Result<()>)
      requires Valid()
      modifies this
      ensures Valid()
      ensures r == (if id in old(directores) then Ok(()) else Err(NotFound))
      ensures directores == old(directores) - {id}
      ensures medias == old(medias) && generos == old(generos)
      ensures productoras == old(productoras) && tipos == old(tipos)
      ensures clock == old(clock) && nextId == old(nextId)
    {
      if id !in directores {
        return Err(NotFound);
      }
      directores := directores - {id};
      r := Ok(());
    }
  }
}
