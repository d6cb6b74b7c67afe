# peliculas-api catalog consistency, in Dafny

This project models the consistency rules of the peliculas-api catalog
service. The service keeps five collections: Media (films and series), and
the four reference kinds Genero, Director, Productora and Tipo that a Media
points to by id. Its controllers check a request before they write to the
store.

The model is a state machine. The `Catalog` class (`catalog.dfy`) holds one
map `id → record` per collection, a shared id counter and a logical clock.
Every controller handler is a method of that class. It answers with a value
or with a typed error: `NotFound`, `DuplicateKey(field)`,
`InvalidReference(field)` or `ValidationFailure`. On an error no table,
counter or clock changes.

Each handler is proved against a pure function of the old state. These
functions live in one module per controller: `Medias`, `Generos`,
`Productoras`, `Tipos` and `Directores`. Each says what a create or an
update stores, or which error it reports first. The lemmas beside them prove
what the service promises:

- the create checks run in a fixed order, and the first one that fails is the error reported;
- serial, url and the reference `nombre`s stay unique;
- an update re-checks a key or a reference only when the request changes it;
- every save restamps `fechaActualizacion`, and `fechaCreacion ≤ fechaActualizacion ≤ clock` always holds;
- listings return exactly the selected records, newest first, paged as `[(page-1)*limit, page*limit)`.

The invariant `Catalog.Valid()` deliberately does not say that the references
of a stored Media resolve to Activo records. The service checks a reference
only at the write that introduces it. Deleting or inactivating a genre,
director, productora or tipo later leaves the Media untouched.
`Medias.DeletedGeneroLeavesStaleReference` states this.

Files:

- `results.dfy`: `Option`, `Result` and the error kinds.
- `models.dfy`: the record types of `models/`, the `estado` enum, JavaScript truthiness and the assignment rules.
- `listing.dfy`: sorting by creation stamp and paging.
- `medias.dfy`: the Media rules.
- `generos.dfy`, `productoras.dfy`, `tipos.dfy`, `directores.dfy`: the rules for the four reference kinds.
- `catalog.dfy`: the state and its handlers.

Modelling conventions:

- A request field that is `undefined` is `None`.
- JavaScript truthiness of a string is `Truthy`: the value is present and not `""`.
- Mongoose's `required` rejects a missing or empty string at save.
- The `estado` enum validator is `ParseEstado`, which accepts exactly `"Activo"` and `"Inactivo"`.
- `findOne({ f: undefined })` finds nothing.
- Ids are naturals drawn from one counter shared by all kinds.
- `Date.now` is a clock that ticks once per successful save.

## Model

| member | source | states |
|---|---|---|
| Models.ParseEstado | models/Genero.js:9-13 | The enum accepts exactly "Activo" and "Inactivo"; a parsed value prints back as the string it came from. |
| Models.EstadoRoundTrip | models/Productora.js:9-13 | Printing an estado and parsing it back gives the same estado. |
| Listing.KeysBelow | controllers/mediaController.js:25-32 | The stored ids below the counter, each once, in strictly ascending order: a key is listed iff it is stored. |
| Listing.DistinctCard | controllers/mediaController.js:37 | A list without repeats has as many elements as the set of its elements, so `total` is the number of ids listed. |
| Listing.InsertByStamp | controllers/mediaController.js:28 | Inserting one id into a newest-first list gives a newest-first list holding the same ids plus that one. |
| Listing.SortByCreation | controllers/mediaController.js:28 | `sort: { fechaCreacion: -1 }`: the result is a permutation of the input, ordered by creation stamp descending. |
| Listing.DistinctByMultiset | controllers/mediaController.js:28 | A permutation of a list without repeats has no repeats either. |
| Listing.MultiplicityAtMostOne | controllers/mediaController.js:28 | In a list without repeats, every element occurs at most once. |
| Listing.Ordered | controllers/mediaController.js:28-33 | The whole listing: every selected id exactly once, none other, no repeats, newest first. |
| Listing.Page | controllers/mediaController.js:26-27 | Page `page` of size `limit` holds at most `limit` entries, namely the entries from position `(page-1)*limit` on. |
| Listing.PageKeepsOrder | controllers/mediaController.js:26-28 | A page of a newest-first listing without repeats is itself newest first and without repeats. |
| Listing.PageCount | controllers/mediaController.js:39 | `pages` is the least number of `limit`-sized pages that holds `total` entries. |
| Listing.EntryOnItsPage | controllers/mediaController.js:26-39 | Every entry of the listing appears on page `i / limit + 1`, at the matching position, and that page is within the page count. |
| Listing.PagesOfTenExample | controllers/mediaController.js:11 | 25 records in pages of the default limit 10 make 3 pages: 10 entries on the first, 5 on the third, none on the fourth. |
| Medias.Crear | controllers/mediaController.js:81-170 | The create checks run in order serial, url, genero, director, productora, tipo, then validation. On success the stored fields equal the inputs, both stamps equal the save time, and no stored record shares the new serial or url. The error is one of the two DuplicateKey, the four InvalidReference or ValidationFailure; a create never reports NotFound. |
| Medias.CrearReportsFirstFailure | controllers/mediaController.js:89-140 | Each error kind is reported iff its check fails and every earlier check passed. Genero, director and productora must exist and be Activo; a tipo only has to exist. ValidationFailure is reported iff all six checks pass and a required field (serial, titulo, sinopsis, url, imagenPortada, anioEstreno) is missing or empty. |
| Medias.CrearSucceedsIff | controllers/mediaController.js:89-155 | A create succeeds iff no stored Media has its serial or url, the three gated references are Activo, the tipo exists and every required field is present. |
| Medias.CrearKeepsConsistent | models/Media.js:4-63 | Inserting a created Media under a fresh id keeps serial and url unique and keeps the stamps in order. |
| Medias.Updated | controllers/mediaController.js:189-260 | The loaded record after the update's assignments. A key is taken from the request only when truthy, and a reference only when supplied. A field differs from the stored one only where the request changes it. The plain fields follow `!== undefined`. |
| Medias.KeyError | controllers/mediaController.js:189-210 | Only DuplicateKey(Serial) or DuplicateKey(Url). DuplicateKey(Serial) is reported iff the request changes serial to a taken one; DuplicateKey(Url) iff that does not happen and the request changes url to a taken one. An update that changes neither key never fails here. When nothing is reported, no stored record holds a changed key. |
| Medias.RefError | controllers/mediaController.js:213-255 | Only InvalidReference. Each of InvalidReference(genero), (director), (productora), (tipo) is reported iff the request changes that reference to one that fails its gate and no earlier reference in that order failed. An update that changes no reference never fails here. When nothing is reported, every changed genero, director and productora exists and is Activo, and every changed tipo exists. |
| Medias.UpdateError | controllers/mediaController.js:189-255 | The key checks come before the reference checks: a duplicate key wins over an invalid reference, which is reported only when both keys pass; when no key fails, the reference error (or its absence) is what is reported. Nothing is reported iff both kinds of checks pass. |
| Medias.Required | models/Media.js:4-25 | The schema paths with `required: true` that are strings: serial, titulo, sinopsis, url and imagenPortada must be non-empty. |
| Medias.Actualizar | controllers/mediaController.js:173-277 | NotFound iff the id is not stored. A duplicate or invalid reference is reported only for a field the request changes, and the error is one of NotFound, the two DuplicateKey, the four InvalidReference or ValidationFailure. On success every field follows the request, with `fechaCreacion` kept and `fechaActualizacion` set to the save time. A changed reference passes its gate. Serial and url stay unique. |
| Medias.ActualizarReportsFirstFailure | controllers/mediaController.js:189-262 | For a stored record, each error kind is reported iff its check fails and every earlier check passed. The order is serial, url, genero, director, productora, tipo, and a check runs only when the request changes its field. ValidationFailure is reported iff every check passes and the updated record lacks a required field. |
| Medias.ActualizarSucceedsIff | controllers/mediaController.js:173-262 | An update succeeds iff the record is stored, no changed key is taken, every changed reference passes its gate, and the updated record keeps every required field. |
| Medias.ActualizarKeepsConsistent | controllers/mediaController.js:262 | Replacing the record with the updated one keeps the table consistent. |
| Medias.ResubmitOnlyRestamps | controllers/mediaController.js:189-255 | Resubmitting a record's own values re-checks nothing and changes only `fechaActualizacion`. |
| Medias.PlainUpdateSkipsReferenceChecks | controllers/mediaController.js:213-260 | An update carrying only plain fields never reports a duplicate or an invalid reference, even if a stored reference is now Inactivo or gone. |
| Medias.DuplicateSerialExample | controllers/mediaController.js:89-95 | Given genre Drama and Media S1 with url u1, a second Media with serial S1 and url u2 fails with DuplicateKey(Serial). |
| Medias.DeletedGeneroLeavesStaleReference | controllers/generoController.js:145 | After its genre is deleted, a Media keeps the genre's id, expands it to nothing, and resubmitting it unchanged still succeeds. |
| Medias.ContainsAt | controllers/mediaController.js:22 | The substring test finds a needle that occurs at any position of the text. |
| Medias.TitleFilterExamples | controllers/mediaController.js:21-23 | The title filter "man" selects "Spiderman" and "Manhattan" and rejects "Drama". |
| Medias.TitleMatches | controllers/mediaController.js:21-23 | The `$regex` filter with `$options: 'i'`: the lower-cased title contains the lower-cased pattern. |
| Medias.Selected | controllers/mediaController.js:14-23 | The filter object: each supplied criterion must hold, and a falsy title is ignored. |
| Medias.ExcludedIffSomeCriterionFails | controllers/mediaController.js:14-23 | The criteria combine with AND: a record is left out exactly when it is not stored or some supplied criterion fails. |
| Medias.NoCriteriaSelectsAll | controllers/mediaController.js:14 | With no criterion the filter is `{}`, and every stored record is selected. |
| CatalogService.ListMedias | controllers/mediaController.js:8-49 | The page is the supplied one or 1, and the limit the supplied one or 10. `total` counts every selected record. There are at most `limit` docs. `pages` is the page count of `total`. |
| CatalogService.ListRows | controllers/generoController.js:13 | A filtered `find` sorted by `fechaCreacion: -1` returns each selected record exactly once, with its stored value, newest first. |
| CatalogService.AssignKeys | controllers/mediaController.js:189-210 | The serial and url steps of an update: the first duplicate among the changed keys, or the record with the changed keys assigned. |
| CatalogService.AssignRefs | controllers/mediaController.js:213-255 | The four reference steps: the first changed reference that fails its gate, or the record with the changed references assigned. |
| CatalogService.AssignChecked | controllers/mediaController.js:189-255 | The key steps and then the reference steps of an update: the error `Medias.UpdateError` reports, or the record with the changed keys and references assigned. |
| CatalogService.CreateMedia | controllers/mediaController.js:81-155 | The create's checks, one statement after another up to the save, compute exactly what `Medias.Crear` states. |
| CatalogService.ListMediasDocs | controllers/mediaController.js:25-33 | Doc `i` of the page is the record at position `(page-1)*limit + i` of the full newest-first listing. It is stored and satisfies the query, and its references are expanded, as populate does. |
| CatalogService.ListMediasNewestFirst | controllers/mediaController.js:28 | The docs of a page are pairwise distinct and ordered by `fechaCreacion`, newest first. |
| CatalogService.UpdateMedia | controllers/mediaController.js:173-262 | The field-by-field update, up to the save, computes exactly what `Medias.Actualizar` states. |
| CatalogService.Catalog.Valid | models/Media.js:4-63 | The invariant of the state: every table has its ids below the counter, its required fields present, its unique indexes held and its stamps ordered no later than the clock. |
| CatalogService.Catalog.InsertMedia | controllers/mediaController.js:155 | `save()` of a new Media: the record is stored under the next id, the counter and the clock advance, the other tables stay, and the invariant is kept. |
| CatalogService.Catalog.ReplaceMedia | controllers/mediaController.js:262 | `save()` of a loaded Media: the record under its id is replaced, the clock advances, the rest stays, and the invariant is kept. |
| CatalogService.Catalog.ObtenerMedias | controllers/mediaController.js:8-49 | The listing on the current tables is `ListMedias`, with page 1 and limit 10 by default. `total` counts every selected record. Each of the at most `limit` docs is a stored record that satisfies the query, with its references expanded. The docs are distinct and newest first. |
| CatalogService.Catalog.ObtenerMedia | controllers/mediaController.js:52-78 | The stored Media with its references expanded, or NotFound. |
| CatalogService.Catalog.CrearMedia | controllers/mediaController.js:81-170 | On success, one record is inserted under a fresh id, and the clock and counter advance. On an error nothing changes. The reference tables never change. |
| CatalogService.Catalog.ActualizarMedia | controllers/mediaController.js:173-277 | On success the record is replaced by the updated one and the clock advances. On an error nothing changes. |
| CatalogService.Catalog.EliminarMedia | controllers/mediaController.js:280-304 | NotFound iff the id is not stored. Otherwise exactly that Media is removed, and no reference entity changes. |
| Generos.Crear | controllers/generoController.js:54-87 | DuplicateKey iff a genre has the name. ValidationFailure iff the name is free but empty, or the estado is invalid. No other error occurs, so a create succeeds iff the name is free and non-empty and the estado is valid. On success the genre is stored with the name and with `estado` Activo when none is given. The new name is unique. |
| Generos.CrearKeepsConsistent | models/Genero.js:4-31 | Inserting a created genre keeps names unique and stamps ordered. |
| Generos.Actualizar | controllers/generoController.js:90-131 | NotFound iff the id is not stored. DuplicateKey iff the name is changed to a taken one. ValidationFailure iff neither of those happens and a supplied estado is invalid. No other error occurs. On success `descripcion` and `estado` follow `!== undefined`, the stamps are refreshed and names stay unique. |
| Generos.ActualizarKeepsConsistent | controllers/generoController.js:117 | Replacing a genre by its update keeps the table consistent. |
| Generos.SameNombreIsNoConflict | controllers/generoController.js:103-112 | Resubmitting a genre's own name is not a conflict. |
| CatalogService.Catalog.ObtenerGeneros | controllers/generoController.js:4-26 | Each returned genre is stored with its stored value and matches the estado filter, and every stored genre that matches it is returned; each once, as many as match, newest first. |
| CatalogService.Catalog.ObtenerGenero | controllers/generoController.js:29-51 | The stored genre, or NotFound. |
| CatalogService.Catalog.CrearGenero | controllers/generoController.js:54-87 | Stores what `Generos.Crear` returns under a fresh id; on an error nothing changes. |
| CatalogService.Catalog.ActualizarGenero | controllers/generoController.js:90-131 | Replaces the genre by what `Generos.Actualizar` returns; on an error nothing changes. |
| CatalogService.Catalog.EliminarGenero | controllers/generoController.js:134-158 | NotFound iff the id is not stored. Otherwise only that genre is removed, and the Media that use it are not changed. |
| CatalogService.Catalog.InsertGenero | controllers/generoController.js:73 | `save()` of a new genre under the next id; counter and clock advance; the other tables stay; the invariant is kept. |
| CatalogService.Catalog.ReplaceGenero | controllers/generoController.js:117 | `save()` of a loaded genre under its id; the clock advances; the rest stays; the invariant is kept. |
| Productoras.Crear | controllers/productoraController.js:54-88 | DuplicateKey iff the name is taken. ValidationFailure iff the name is free but empty, or the estado is invalid. No other error occurs, so a create succeeds iff the name is free and non-empty and the estado is valid. On success `slogan` and `descripcion` are stored as given, `estado` is Activo by default and the name is unique. |
| Productoras.CrearKeepsConsistent | models/Productora.js:4-35 | Inserting a created productora keeps names unique and stamps ordered. |
| Productoras.Actualizar | controllers/productoraController.js:91-133 | NotFound iff the id is not stored. DuplicateKey iff the name is changed to a taken one. ValidationFailure iff neither of those happens and a supplied estado is invalid. No other error occurs. `slogan`, `descripcion` and `estado` follow `!== undefined`. Names stay unique. |
| Productoras.ActualizarKeepsConsistent | controllers/productoraController.js:119 | Replacing a productora by its update keeps the table consistent. |
| CatalogService.Catalog.ObtenerProductoras | controllers/productoraController.js:4-26 | Each returned productora is stored with its stored value and matches the estado filter, and every stored productora that matches it is returned; each once, newest first. |
| CatalogService.Catalog.ObtenerProductora | controllers/productoraController.js:29-51 | The stored productora, or NotFound. |
| CatalogService.Catalog.CrearProductora | controllers/productoraController.js:54-88 | Stores what `Productoras.Crear` returns under a fresh id; on an error nothing changes. |
| CatalogService.Catalog.ActualizarProductora | controllers/productoraController.js:91-133 | Replaces the productora by what `Productoras.Actualizar` returns; on an error nothing changes. |
| CatalogService.Catalog.EliminarProductora | controllers/productoraController.js:136-160 | NotFound iff the id is not stored. Otherwise only that productora is removed, with no cascade to Media. |
| CatalogService.Catalog.InsertProductora | controllers/productoraController.js:74 | `save()` of a new productora under the next id; counter and clock advance; the other tables stay; the invariant is kept. |
| CatalogService.Catalog.ReplaceProductora | controllers/productoraController.js:119 | `save()` of a loaded productora under its id; the clock advances; the rest stays; the invariant is kept. |
| Tipos.Crear | controllers/tipoController.js:47-79 | DuplicateKey iff the name is taken; ValidationFailure iff the name is free but empty. No other error occurs, so a create succeeds iff the name is free and non-empty. On success the stored name is unique. A tipo has no estado. |
| Tipos.CrearKeepsConsistent | models/Tipo.js:4-26 | Inserting a created tipo keeps names unique and stamps ordered. |
| Tipos.Actualizar | controllers/tipoController.js:82-122 | NotFound iff the id is not stored. DuplicateKey iff the name is changed to a taken one. No other error occurs. `descripcion` follows `!== undefined`. Names stay unique. |
| Tipos.ActualizarKeepsConsistent | controllers/tipoController.js:108 | Replacing a tipo by its update keeps the table consistent. |
| CatalogService.Catalog.ObtenerTipos | controllers/tipoController.js:4-19 | Every stored tipo is returned and only stored tipos, with their stored values, each once, newest first. |
| CatalogService.Catalog.ObtenerTipo | controllers/tipoController.js:22-44 | The stored tipo, or NotFound. |
| CatalogService.Catalog.CrearTipo | controllers/tipoController.js:47-79 | Stores what `Tipos.Crear` returns under a fresh id; on an error nothing changes. |
| CatalogService.Catalog.ActualizarTipo | controllers/tipoController.js:82-122 | Replaces the tipo by what `Tipos.Actualizar` returns; on an error nothing changes. |
| CatalogService.Catalog.EliminarTipo | controllers/tipoController.js:125-149 | NotFound iff the id is not stored. Otherwise only that tipo is removed, with no cascade. |
| CatalogService.Catalog.InsertTipo | controllers/tipoController.js:65 | `save()` of a new tipo under the next id; counter and clock advance; the other tables stay; the invariant is kept. |
| CatalogService.Catalog.ReplaceTipo | controllers/tipoController.js:108 | `save()` of a loaded tipo under its id; the clock advances; the rest stays; the invariant is kept. |
| Directores.Crear | controllers/directorController.js:54-77 | Succeeds iff `nombres` is non-empty and the estado is valid, with Activo by default; the only error is ValidationFailure. |
| Directores.NombresNotUnique | controllers/directorController.js:56-63 | A director whose `nombres` is already stored is still created: there is no uniqueness check. |
| Directores.Actualizar | controllers/directorController.js:80-109 | NotFound iff the id is not stored. ValidationFailure iff the resulting name is empty or the estado is invalid. No other error occurs. `nombres` and `estado` replace the stored values exactly when supplied. |
| Directores.ActualizarKeepsConsistent | controllers/directorController.js:95 | Replacing a director by its update keeps the stamps ordered. |
| CatalogService.Catalog.ObtenerDirectores | controllers/directorController.js:4-26 | Each returned director is stored with its stored value and matches the estado filter, and every stored director that matches it is returned; each once, newest first. |
| CatalogService.Catalog.ObtenerDirector | controllers/directorController.js:29-51 | The stored director, or NotFound. |
| CatalogService.Catalog.CrearDirector | controllers/directorController.js:54-77 | Stores what `Directores.Crear` returns under a fresh id; on an error nothing changes. |
| CatalogService.Catalog.ActualizarDirector | controllers/directorController.js:80-109 | Replaces the director by what `Directores.Actualizar` returns; on an error nothing changes. |
| CatalogService.Catalog.EliminarDirector | controllers/directorController.js:112-136 | NotFound iff the id is not stored. Otherwise only that director is removed, with no cascade. |
| CatalogService.Catalog.InsertDirector | controllers/directorController.js:63 | `save()` of a new director under the next id; counter and clock advance; the other tables stay; the invariant is kept. |
| CatalogService.Catalog.ReplaceDirector | controllers/directorController.js:95 | `save()` of a loaded director under its id; the clock advances; the rest stays; the invariant is kept. |

## Left out

- app.js and routes/: bootstrap, CORS, body limits and Express wiring are framework glue with no catalog logic.
- HTTP status codes and the JSON envelopes: each response branch is a `Result` value or an `Error` instead.
- mongoose-paginate-v2 and Mongoose internals, including ObjectId casting and the cast error a malformed id raises. These are foreign libraries; paging and `populate` are stated abstractly.
- Listing.PageCount: an empty listing is taken to have 0 pages, `ceil(0 / limit)`. The paging library is not part of this model and may report 1 page instead.
- Medias.TitleMatches: `$regex` with `$options: 'i'` is modelled as an ASCII case-insensitive substring test, because no regex engine is visible. Regex metacharacters in the filter and non-ASCII case folding are not modelled.
- Medias.EffectivePage, Medias.EffectiveLimit and CatalogService.ListMedias: these require a supplied page and limit of at least 1. `parseInt` of a non-numeric string (NaN) and of zero or negative values is not modelled, because the paginate library decides those cases.
- CatalogService.Catalog.ObtenerMedias: carries the same requirement that a supplied page and limit be at least 1, for the same reason.
- `Date.now` is a logical clock that ticks once per save. Wall-clock values and clock skew are not modelled.
- The check-then-save race between concurrent requests is concurrency. The model is sequential; a unique-index violation at save, which the handlers report through their generic catch, is not modelled.
- `anioEstreno` is a JavaScript `Number` (models/Media.js:26-29), so a non-integer year such as 2020.5 is accepted. The model stores the year as an integer, and the listing's `anio` criterion (controllers/mediaController.js:20) is compared with it as an integer.
- `null` values in a request body, and JavaScript truthiness beyond "absent or empty string" (for example `0` as a reference), are not modelled.
- `findOne({ serial: undefined })` is taken to match nothing, so a create without serial or url fails validation instead of a uniqueness check.
- CatalogService.Catalog.Valid: it deliberately does not state that Media references resolve to Activo records. The service does not keep that property either.
- Choices where the code's behaviour may surprise, which the model follows:
  - An update replaces serial, url and the references only when the value is truthy and differs from the stored one, not whenever it is present.
  - An update that empties a required string fails validation at save.
  - A validation failure carries no field name, because the handlers report Mongoose's message and not a field.
