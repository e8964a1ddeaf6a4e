/** The rows of the two tables of the movie catalogue and the shapes the
    request handlers receive and return. */
module Entities {

  /** An unsigned 8-bit value: the element type of a poster image. */
  type byte = b: int | 0 <= b < 256

  datatype Option<T> = None | Some(value: T)

  /** What a request handler answers: a 200 with a payload, or a 400 / 404
      carrying a human-readable message. */
  datatype Outcome<T> = Ok(value: T) | BadRequest(message: string) | NotFound(message: string)

  /** A row of the Genres table. */
  datatype Genre = Genre(id: int, name: string)

  /** A row of the Movies table; `genreId` refers to a row of the Genres table. */
  datatype Movie = Movie(
    id: int,
    title: string,
    year: int,
    rate: int,
    storeLine: string,
    poster: seq<byte>,
    genreId: int)

  /** A movie joined with its genre, flattened for the API. */
  datatype MovieDetailsDto = MovieDetailsDto(
    id: int,
    genreId: int,
    genreName: string,
    poster: seq<byte>,
    rate: int,
    storeLine: string,
    title: string,
    year: int)

  /** An uploaded file of a multipart form: its client-side name and its
      bytes (the file's Length is the number of bytes). */
  datatype FormFile = FormFile(fileName: string, content: seq<byte>)

  datatype GenreDto = GenreDto(name: string)

  /** The form of a create-movie request: the poster is mandatory. */
  datatype CreateMovieDto = CreateMovieDto(
    title: string,
    year: int,
    rate: int,
    storeLine: string,
    genreId: int,
    poster: FormFile)

  /** The form of an update-movie request: the poster may be absent. */
  datatype UpdateMovieDto = UpdateMovieDto(
    title: string,
    year: int,
    rate: int,
    storeLine: string,
    genreId: int,
    poster: Option<FormFile>)

  /** Every genre row is stored under its own primary key. */
  predicate GenresKeyed(genres: map<int, Genre>)
  {
    forall k :: k in genres ==> genres[k].id == k
  }

  /** Every movie row is stored under its own primary key. */
  predicate MoviesKeyed(movies: map<int, Movie>)
  {
    forall k :: k in movies ==> movies[k].id == k
  }

  /** Referential integrity: every movie's genre is a row of the Genres table. */
  predicate ReferencesResolve(movies: map<int, Movie>, genres: map<int, Genre>)
  {
    forall k :: k in movies ==> movies[k].genreId in genres
  }
}
