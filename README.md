# Movies Web API — a verified model of the request handlers

The system is a small CRUD web API over a movie catalogue. It has two tables,
Genres and Movies, and the movie rows refer to genre rows. Two controllers
handle the requests:

- `GenresController` lists genres by name, creates, renames and deletes them.
- `MoviesController` lists movies by rate (all of them, or one genre's), fetches
  one joined with its genre, and creates, updates and deletes movies. Create and
  Update validate an uploaded poster: extension `.jpg` or `.png`, at most 1 MiB.
  They also check that the genre exists.

The model keeps that structure:

- `Entities` (entities.dfy): the rows (`Genre`, `Movie`), the request and
  response shapes (`CreateMovieDto`, `UpdateMovieDto`, `GenreDto`,
  `MovieDetailsDto`, `FormFile`) and the handler outcome
  `Ok(value) | BadRequest(message) | NotFound(message)`.
- `Store` (store.dfy): the database context as a class
  `ApplicationDbContext`. Its two map fields hold the tables, keyed by primary
  key. Two identity counters number new rows. `Valid()` says that every row
  sits under its own key and every key is below its table's counter. Adding a
  row and saving is `AddGenre` / `AddMovie`.
- `FilePath` (file_path.dfy): `Path.GetExtension`.
- `Text` (text.dfy): the decimal rendering of ids inside messages.
- `Movies` (movies_controller.dfy): the constants, the poster validator, the
  three read queries, and class `MoviesController` with `Create`, `Update` and
  `DeleteById`.
- `Genres` (genres_controller.dfy): the name order, the sorted listing, and
  class `GenresController` with `Create`, `Update` and `Delete`.
- `Scenarios` (scenarios.dfy): short request sequences proved from the handlers'
  contracts alone.

The read queries are pure LINQ queries (filter, order, project) in the source.
Here each is a function over the two maps. The mutating handlers change the
tables, so here each is a method on a controller class. The class holds the
shared `ApplicationDbContext`, and each method's `ensures` states the whole new
state in terms of the old one.

Modelling choices that go beyond the shown code:

- Include on the `Genre` navigation is taken as an inner join, so a movie whose
  genre row is gone is not listed, and GetById reports it as missing. The
  navigation is required because `GenreId` is a non-nullable `byte`.
  MoviesAPI/Models/Movie.cs is not part of this model.
  `Movies.GetAllListsEveryMovie` shows that no movie is dropped as long as every
  movie's genre exists.
- `Path.GetExtension` follows the .NET algorithm with the Windows separators.
  The extension starts at the last `'.'` of the last path segment; `'/'` and
  `'\'` separate segments. It is empty when that `'.'` is the final character. `Movies.AllowedExtensionExactly`
  proves that the check accepts exactly the names ending in `.jpg` or `.png`
  (case-sensitive).
- The database assigns identities. The model uses a counter per table, starting
  at 1, so each new id is one not already in the table.

## Model

| member | source | states |
|---|---|---|
| `Movies.AllowedExtensionExactly` | MoviesAPI/Controllers/MoviesController.cs:11 | the extension check passes exactly when the file name ends in ".jpg" or ".png"; any other name, including ".JPG" or ".jpeg", is refused |
| `Movies.ValidatePoster` | MoviesAPI/Controllers/MoviesController.cs:92-100 | a name without an allowed extension gets "Only jpg and png images are allowed!" whatever its size; an allowed name over 1,048,576 bytes gets "Max allowed size is 1MB !"; the poster passes exactly when both hold, so exactly 1,048,576 bytes passes |
| `FilePath.Extension` | MoviesAPI/Controllers/MoviesController.cs:92 | Path.GetExtension returns either nothing or a suffix of the name made of a '.' and at least one more character, with no '.' or directory separator after the first |
| `FilePath.ExtensionOfSuffix` | MoviesAPI/Controllers/MoviesController.cs:92 | a name that ends with such a suffix has exactly that suffix as its extension (the converse of the above) |
| `Movies.MoviesController.Create` | MoviesAPI/Controllers/MoviesController.cs:90-124 | checks the extension, then the size, then the genre, and returns the first failure's message with nothing changed; success happens exactly when all three pass; it inserts one movie under a fresh id with the given title, year, rate, store line, genre id and the uploaded bytes; it returns that movie, and the other movies and all genres are unchanged |
| `Movies.MoviesController.Update` | MoviesAPI/Controllers/MoviesController.cs:127-166 | an absent id gives "No movie was found with id {id} !"; next an unknown genre gives "Invalid GenreId", before any poster check; next a supplied poster must pass the extension and size checks; any failure changes nothing; on success the movie gets the five new fields, keeps its old poster when none is sent, and no other row changes |
| `Movies.MoviesController.DeleteById` | MoviesAPI/Controllers/MoviesController.cs:169-182 | an absent id gives "No Movie with id {id} !" with nothing changed; a present id is removed alone and its last values are returned |
| `Movies.GetAll` | MoviesAPI/Controllers/MoviesController.cs:20-39 | lists every movie whose genre exists, each exactly once, in non-increasing rate order; each entry copies its movie and carries its genre's name |
| `Movies.GetByGenreId` | MoviesAPI/Controllers/MoviesController.cs:67-87 | lists exactly the movies with that genre id, each once, in non-increasing rate order, with the genre's name; an unknown genre gives an empty list |
| `Movies.GetById` | MoviesAPI/Controllers/MoviesController.cs:42-64 | succeeds exactly when the movie and its genre exist; otherwise it gives "No movie with id {id} !"; on success every field equals the stored movie's and the genre name is the joined genre's |
| `Movies.GetByIdAgreesWithGetAll` | MoviesAPI/Controllers/MoviesController.cs:22-63 | GetById's movie is one GetAll lists, and each entry GetAll lists is what GetById returns for its id |
| `Movies.GetByGenreIdFiltersGetAll` | MoviesAPI/Controllers/MoviesController.cs:22-84 | GetByGenreId lists exactly the GetAll entries of that genre |
| `Movies.GetAllListsEveryMovie` | MoviesAPI/Controllers/MoviesController.cs:22-36 | while every movie's genre exists, every movie is listed |
| `Movies.SortByRateDescending` | MoviesAPI/Controllers/MoviesController.cs:23 | OrderByDescending(Rate) gives a permutation of its input in non-increasing rate order and keeps distinct ids distinct |
| `Movies.InsertByRate` | MoviesAPI/Controllers/MoviesController.cs:23 | inserting one entry into a list in rate order keeps the order and adds exactly that entry |
| `Movies.JoinRows` | MoviesAPI/Controllers/MoviesController.cs:22-35 | the join emits one entry per selected row and nothing else, each the projection of its movie and genre |
| `Genres.GetAll` | MoviesAPI/Controllers/GenresController.cs:18-22 | lists every stored genre exactly once (as many entries as rows, distinct ids, each a stored row) in ascending name order |
| `Genres.GetAllOnlyTiesUnordered` | MoviesAPI/Controllers/GenresController.cs:20 | two listed genres whose names are in the wrong order have equal names: the listing leaves only ties open |
| `Genres.SortByName` | MoviesAPI/Controllers/GenresController.cs:20 | OrderBy(Name) gives a permutation of its input in ascending name order and keeps distinct ids distinct |
| `Genres.InsertByName` | MoviesAPI/Controllers/GenresController.cs:20 | inserting one genre into a list in name order keeps the order and adds exactly that genre |
| `Genres.NameLeTotal` | MoviesAPI/Controllers/GenresController.cs:20 | any two names are comparable in the name order |
| `Genres.NameLeTransitive` | MoviesAPI/Controllers/GenresController.cs:20 | the name order is transitive |
| `Genres.NameLeAntisymmetric` | MoviesAPI/Controllers/GenresController.cs:20 | two names each at most the other are equal |
| `Genres.Rows` | MoviesAPI/Controllers/GenresController.cs:20 | a scan of the Genres table meets every row once |
| `Genres.GenresController.Create` | MoviesAPI/Controllers/GenresController.cs:25-31 | always succeeds; adds exactly one genre with the given name under an id not in the table and returns it; existing genres and all movies are unchanged |
| `Genres.GenresController.Update` | MoviesAPI/Controllers/GenresController.cs:33-45 | an absent id gives NotFound "No genre was found with Id {id}" with nothing changed; a present id gets the new name, keeps its id, and no other row changes |
| `Genres.GenresController.Delete` | MoviesAPI/Controllers/GenresController.cs:47-59 | an absent id gives NotFound with nothing changed; a present id is removed alone even if movies refer to it; the movies are untouched |
| `Store.ApplicationDbContext.AddMovie` | MoviesAPI/Controllers/MoviesController.cs:121-122 | adding a movie and saving gives it an id not yet in the table and inserts it there, leaving every other row as it was |
| `Store.ApplicationDbContext.AddGenre` | MoviesAPI/Controllers/GenresController.cs:28-29 | adding a genre and saving gives it an id not yet in the table and inserts it there, leaving every other row as it was |
| `Store.SortedKeys` | MoviesAPI/Controllers/MoviesController.cs:22 | a table's keys in strictly ascending order, each exactly once |
| `Text.IntToStringInjective` | MoviesAPI/Controllers/MoviesController.cs:48 | different ids are rendered as different decimal strings |
| `Movies.NoMovieMessageNamesOneId` | MoviesAPI/Controllers/MoviesController.cs:48 | equal "No movie with id {id} !" messages mean equal ids |
| `Movies.NoMovieFoundMessageNamesOneId` | MoviesAPI/Controllers/MoviesController.cs:133 | equal "No movie was found with id {id} !" messages mean equal ids |
| `Movies.NoMovieToDeleteMessageNamesOneId` | MoviesAPI/Controllers/MoviesController.cs:175 | equal "No Movie with id {id} !" messages mean equal ids |
| `Genres.NoGenreMessageNamesOneId` | MoviesAPI/Controllers/GenresController.cs:39 | equal "No genre was found with Id {id}" messages mean equal ids |
| `Text.NatToStringRoundTrip` | MoviesAPI/Controllers/MoviesController.cs:48 | reading back the decimal digits of an id gives the id |
| `Scenarios.CreateThenGetById` | MoviesAPI/Controllers/MoviesController.cs:44-63 | after a successful create, GetById on the new id returns the uploaded poster bytes and the referenced genre's name; after a failed create nothing has changed |
| `Scenarios.DeleteTwice` | MoviesAPI/Controllers/MoviesController.cs:171-181 | a second delete of the same id always gives "No Movie with id {id} !" |
| `Scenarios.UpdateWithoutPosterKeepsPoster` | MoviesAPI/Controllers/MoviesController.cs:142-162 | the update succeeds exactly when the movie and the new genre exist; a fetch afterwards shows the same id, the new title, year, rate, store line and genre id with that genre's name, next to the old poster |
| `Scenarios.DeleteGenreHidesItsMovies` | MoviesAPI/Controllers/GenresController.cs:50-58 | deleting a genre that a movie refers to succeeds; the movie stays in its table, but GetById no longer finds it |

## Left out

- Entity Framework internals: change tracking, `Include`, `FindAsync`. A fetched row that is modified and then saved is modelled as writing the new value back into the map, so an entity is a value and nothing is aliased.
- SaveChanges is a commit that always succeeds. Database errors and connectivity failures are not modelled; the source does not handle them either.
- `async`/`await` and the copy of the upload into a `MemoryStream`: the copied bytes are the upload's bytes.
- Concurrency between requests (last writer wins): the handlers contain no such logic.
- Rate is a `double` in the source and an `int` here. Only non-increasing order is claimed; the order of equal rates is left open, as is the order of equal names.
- Genre names are compared in ordinal order (character by character). The database's collation, which may ignore case, is not modelled.
- Genre ids and `GenreId` are `byte` in the source and unbounded integers here. The overflow of the identity column after 255 genres is not modelled.
- HTTP routing, status-code serialisation, and JSON/multipart binding. Only the outcome kind and its message are modelled. A create request without a poster is refused by model binding before the handler runs, so `CreateMovieDto.poster` is never absent.
- The validation attributes on the request DTOs (`[MaxLength]` in MoviesAPI/Dtos/BaseMovieDto.cs:6,10) are checked by model binding before the handler runs, so they are not modelled.
- The attributes on the `Genre` entity (MoviesAPI/Models/Genre.cs:9-10) are not checked before the handler, which builds the entity itself. A name longer than 100 characters reaches SaveChanges and is refused by the database column. That failure is a SaveChanges failure, which is not modelled (see above), so `Genres.GenresController.Create` and `Update` accept any name.
- On Linux and macOS .NET treats only `'/'` as a directory separator, and `'\'` is an ordinary character. There `GetExtension("x.jpg\y")` is `".jpg\y"`, while `FilePath.Extension` gives `""`. Neither is an allowed extension, so this does not change which posters pass.
- The database's foreign-key policy when a genre row is deleted is not modelled. The shown code removes only the genre row, and that is what the model does. Under Entity Framework's conventions a required relationship gets cascade delete, which would also remove the genre's movies. The orphaned movie that `Scenarios.DeleteGenreHidesItsMovies` shows is therefore the case of a schema without that foreign-key constraint, not what a conventionally generated schema does.
