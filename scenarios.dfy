/** Short request sequences against one database, each proved from the
    handlers' contracts alone: what a client observes across calls. */
module Scenarios {
  import opened Entities
  import opened Store
  import opened Movies
  import Genres

  /** Creating a movie and then fetching it by the id it was given returns
      the uploaded poster bytes and the name of the genre it refers to. */
  method CreateThenGetById(c: MoviesController, dto: CreateMovieDto)
    returns (created: Outcome<Movie>, fetched: Outcome<MovieDetailsDto>)
    requires c.context.Valid()
    modifies c.context
    ensures created.Ok? ==>
      && fetched.Ok?
      && fetched.value.id == created.value.id
      && fetched.value.poster == dto.poster.content
      && dto.genreId in old(c.context.genres)
      && fetched.value.genreName == old(c.context.genres[dto.genreId].name)
      && fetched.value.title == dto.title
      && fetched.value.rate == dto.rate
    ensures !created.Ok? ==> fetched == BadRequest(created.message) && unchanged(c.context)
  {
    created := c.Create(dto);
    if created.Ok? {
      fetched := GetById(c.context.movies, c.context.genres, created.value.id);
    } else {
      fetched := BadRequest(created.message);
    }
  }

  /** Deleting the same movie twice: the second call always reports that
      there is no such movie, and the table ends without it. */
  method DeleteTwice(c: MoviesController, id: int) returns (first: Outcome<Movie>, second: Outcome<Movie>)
    requires c.context.Valid()
    modifies c.context
    ensures id in old(c.context.movies) ==> first == Ok(old(c.context.movies[id]))
    ensures id !in old(c.context.movies) ==> first == BadRequest(NoMovieToDeleteMessage(id))
    ensures second == BadRequest(NoMovieToDeleteMessage(id))
    ensures c.context.movies == old(c.context.movies) - {id}
    ensures c.context.genres == old(c.context.genres)
  {
    first := c.DeleteById(id);
    second := c.DeleteById(id);
  }

  /** Updating a movie without a poster: a fetch afterwards shows all five
      new fields and the new genre's name next to the poster the movie had
      before. */
  method UpdateWithoutPosterKeepsPoster(c: MoviesController, id: int, dto: UpdateMovieDto)
    returns (updated: Outcome<Movie>, fetched: Outcome<MovieDetailsDto>)
    requires c.context.Valid()
    requires dto.poster.None?
    modifies c.context
    ensures updated.Ok? <==> id in old(c.context.movies) && dto.genreId in old(c.context.genres)
    ensures updated.Ok? ==>
      && fetched.Ok?
      && fetched.value.id == id
      && fetched.value.poster == old(c.context.movies[id].poster)
      && fetched.value.title == dto.title
      && fetched.value.year == dto.year
      && fetched.value.rate == dto.rate
      && fetched.value.storeLine == dto.storeLine
      && fetched.value.genreId == dto.genreId
      && fetched.value.genreName == old(c.context.genres[dto.genreId].name)
  {
    updated := c.Update(id, dto);
    fetched := GetById(c.context.movies, c.context.genres, id);
  }

  /** Deleting a genre that a movie still refers to is allowed; the movie
      stays in its table but the join no longer finds it, so fetching it
      reports that there is no such movie. */
  method DeleteGenreHidesItsMovies(movies: MoviesController, genres: Genres.GenresController, movieId: int)
    returns (deleted: Outcome<()>, fetched: Outcome<MovieDetailsDto>)
    requires movies.context == genres.context && genres.context.Valid()
    requires movieId in genres.context.movies
    requires genres.context.movies[movieId].genreId in genres.context.genres
    modifies genres.context
    ensures deleted == Ok(())
    ensures movies.context.movies == old(movies.context.movies)
    ensures fetched == BadRequest(NoMovieMessage(movieId))
  {
    deleted := genres.Delete(genres.context.movies[movieId].genreId);
    fetched := GetById(movies.context.movies, movies.context.genres, movieId);
  }
}
