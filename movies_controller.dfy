/** The movie request handlers: three read queries (pure joins over the two
    tables) and the create, update and delete handlers that change the
    Movies table. */
module Movies {
  import opened Entities
  import opened Store
  import FilePath
  import Text

  /** The only poster extensions accepted; matched exactly (case-sensitive). */
  const AllowedExtensions: seq<string> := [".jpg", ".png"]
  /** 1 MiB: the largest poster accepted, in bytes. */
  const MaxAllowedPosterSize: nat := 1_048_576

  const ExtensionMessage: string := "Only jpg and png images are allowed!"
  const SizeMessage: string := "Max allowed size is 1MB !"
  /** Create and Update word the unknown-genre message differently. */
  const CreateGenreMessage: string := "Invalid GenreId !"
  const UpdateGenreMessage: string := "Invalid GenreId"

  function NoMovieMessage(id: int): string
  {
    "No movie with id " + Text.IntToString(id) + " !"
  }

  function NoMovieFoundMessage(id: int): string
  {
    "No movie was found with id " + Text.IntToString(id) + " !"
  }

  function NoMovieToDeleteMessage(id: int): string
  {
    "No Movie with id " + Text.IntToString(id) + " !"
  }

  /** Each not-found message names exactly one id. */
  lemma NoMovieMessageNamesOneId(a: int, b: int)
    requires NoMovieMessage(a) == NoMovieMessage(b)
    ensures a == b
  {
    Text.FramedNumberInjective("No movie with id ", a, b, " !");
  }

  lemma NoMovieFoundMessageNamesOneId(a: int, b: int)
    requires NoMovieFoundMessage(a) == NoMovieFoundMessage(b)
    ensures a == b
  {
    Text.FramedNumberInjective("No movie was found with id ", a, b, " !");
  }

  lemma NoMovieToDeleteMessageNamesOneId(a: int, b: int)
    requires NoMovieToDeleteMessage(a) == NoMovieToDeleteMessage(b)
    ensures a == b
  {
    Text.FramedNumberInjective("No Movie with id ", a, b, " !");
  }

  // ---------------------------------------------------------------------
  // Poster validation

  /** A file name the extension check lets through, stated without
      reference to Path.GetExtension. */
  predicate IsImageFileName(name: string)
  {
    FilePath.EndsWith(name, ".jpg") || FilePath.EndsWith(name, ".png")
  }

  /** The extension check accepts exactly the names ending in ".jpg" or
      ".png": a name such as "a.JPG", "a.jpeg" or "jpg" is refused. */
  lemma AllowedExtensionExactly(name: string)
    ensures FilePath.Extension(name) in AllowedExtensions <==> IsImageFileName(name)
  {
    var e := FilePath.Extension(name);
    if FilePath.EndsWith(name, ".jpg") {
      assert FilePath.IsExtension(".jpg") by { assert ".jpg"[1..] == "jpg"; }
      FilePath.ExtensionOfSuffix(name, ".jpg");
    } else if FilePath.EndsWith(name, ".png") {
      assert FilePath.IsExtension(".png") by { assert ".png"[1..] == "png"; }
      FilePath.ExtensionOfSuffix(name, ".png");
    }
  }

  /** The two poster checks, in the order both Create and Update run them:
      the extension first, then the size. */
  function ValidatePoster(poster: FormFile): (error: Option<string>)
    ensures !IsImageFileName(poster.fileName) ==> error == Some(ExtensionMessage)
    ensures IsImageFileName(poster.fileName) && |poster.content| > 1_048_576 ==> error == Some(SizeMessage)
    ensures error == None <==> IsImageFileName(poster.fileName) && |poster.content| <= 1_048_576
  {
    AllowedExtensionExactly(poster.fileName);
    if FilePath.Extension(poster.fileName) !in AllowedExtensions then Some(ExtensionMessage)
    else if |poster.content| > MaxAllowedPosterSize then Some(SizeMessage)
    else None
  }

  // ---------------------------------------------------------------------
  // Read queries

  /** The movie row under key `k` has its genre row: the row survives the
      inner join with the Genres table that Include performs. */
  predicate Joins(movies: map<int, Movie>, genres: map<int, Genre>, k: int)
  {
    k in movies && movies[k].genreId in genres
  }

  /** The projection of a movie row and its genre onto the details DTO. */
  function DetailsOf(movies: map<int, Movie>, genres: map<int, Genre>, k: int): MovieDetailsDto
    requires Joins(movies, genres, k)
  {
    var m := movies[k];
    MovieDetailsDto(m.id, m.genreId, genres[m.genreId].name, m.poster, m.rate, m.storeLine, m.title, m.year)
  }

  /** The row under `k` passes the optional genre filter. */
  predicate Selected(movies: map<int, Movie>, genres: map<int, Genre>, filter: Option<int>, k: int)
  {
    Joins(movies, genres, k) && (filter.Some? ==> movies[k].genreId == filter.value)
  }

  predicate ByRateDescending(s: seq<MovieDetailsDto>)
  {
    forall i, j :: 0 <= i < j < |s| ==> s[i].rate >= s[j].rate
  }

  predicate DistinctIds(s: seq<MovieDetailsDto>)
  {
    forall i, j :: 0 <= i < j < |s| ==> s[i].id != s[j].id
  }

  /** Scans the rows listed by `keys`, joins each with its genre, drops those
      without one or outside the filter, and projects the rest. */
  function JoinRows(keys: seq<int>, movies: map<int, Movie>, genres: map<int, Genre>, filter: Option<int>): (r: seq<MovieDetailsDto>)
    requires MoviesKeyed(movies)
    requires forall i, j :: 0 <= i < j < |keys| ==> keys[i] != keys[j]
    ensures DistinctIds(r)
    ensures forall d :: d in r ==> d.id in keys && Selected(movies, genres, filter, d.id) && d == DetailsOf(movies, genres, d.id)
    ensures forall k :: k in keys && Selected(movies, genres, filter, k) ==> DetailsOf(movies, genres, k) in r
    decreases |keys|
  {
    if keys == [] then []
    else
      var rest := JoinRows(keys[1..], movies, genres, filter);
      if Selected(movies, genres, filter, keys[0]) then [DetailsOf(movies, genres, keys[0])] + rest else rest
  }

  /** No entry of `s` has the id of `x`. */
  predicate IdFresh(x: MovieDetailsDto, s: seq<MovieDetailsDto>)
  {
    forall y :: y in s ==> y.id != x.id
  }

  /** Prepending an entry whose rate bounds every other keeps the order, and
      keeps the ids distinct when its id is new. */
  lemma PrependByRate(x: MovieDetailsDto, s: seq<MovieDetailsDto>)
    requires ByRateDescending(s)
    requires forall y :: y in s ==> y.rate <= x.rate
    ensures ByRateDescending([x] + s)
    ensures DistinctIds(s) && IdFresh(x, s) ==> DistinctIds([x] + s)
  {
    var r := [x] + s;
    forall i, j | 0 <= i < j < |r| ensures r[i].rate >= r[j].rate {
      assert r[j] == s[j - 1];
      if i > 0 { assert r[i] == s[i - 1]; }
    }
    if DistinctIds(s) && IdFresh(x, s) {
      forall i, j | 0 <= i < j < |r| ensures r[i].id != r[j].id {
        assert r[j] == s[j - 1];
        if i > 0 { assert r[i] == s[i - 1]; }
      }
    }
  }

  /** The first case of InsertByRate: `d` goes in front. */
  lemma InsertInFront(d: MovieDetailsDto, s: seq<MovieDetailsDto>)
    requires ByRateDescending(s)
    requires s == [] || d.rate >= s[0].rate
    ensures ByRateDescending([d] + s)
    ensures DistinctIds(s) && IdFresh(d, s) ==> DistinctIds([d] + s)
  {
    assert forall y :: y in s ==> y.rate <= d.rate;
    PrependByRate(d, s);
  }

  /** Every entry of a permutation of tail + [d] is d or one of tail. */
  lemma RestMembers(d: MovieDetailsDto, tail: seq<MovieDetailsDto>, rest: seq<MovieDetailsDto>)
    requires multiset(rest) == multiset(tail) + multiset{d}
    ensures forall y :: y in rest ==> y == d || y in tail
  {
    forall y | y in rest ensures y == d || y in tail {
      assert y in multiset(rest);
    }
  }

  /** In rate order the head has the highest rate. */
  lemma TailBelowHead(s: seq<MovieDetailsDto>)
    requires s != [] && ByRateDescending(s)
    ensures forall y :: y in s[1..] ==> y.rate <= s[0].rate
  {
    forall y | y in s[1..] ensures y.rate <= s[0].rate {
      var k :| 0 <= k < |s[1..]| && s[1..][k] == y;
      assert s[k + 1] == y;
    }
  }

  /** With distinct ids, no later entry shares the head's id. */
  lemma HeadIdNotInTail(s: seq<MovieDetailsDto>)
    requires s != [] && DistinctIds(s)
    ensures IdFresh(s[0], s[1..])
  {
    forall y | y in s[1..] ensures y.id != s[0].id {
      var k :| 0 <= k < |s[1..]| && s[1..][k] == y;
      assert s[k + 1] == y;
    }
  }

  lemma TailDistinct(s: seq<MovieDetailsDto>)
    requires s != [] && DistinctIds(s)
    ensures DistinctIds(s[1..])
  {
    var tail := s[1..];
    forall i, j | 0 <= i < j < |tail| ensures tail[i].id != tail[j].id {
      assert tail[i] == s[i + 1] && tail[j] == s[j + 1];
    }
  }

  /** The second case of InsertByRate: `d` goes into the tail, behind s[0]. */
  lemma InsertBehind(d: MovieDetailsDto, s: seq<MovieDetailsDto>, rest: seq<MovieDetailsDto>)
    requires ByRateDescending(s) && s != [] && d.rate < s[0].rate
    requires ByRateDescending(rest) && multiset(rest) == multiset(s[1..]) + multiset{d}
    requires DistinctIds(s[1..]) && IdFresh(d, s[1..]) ==> DistinctIds(rest)
    ensures ByRateDescending([s[0]] + rest)
    ensures multiset([s[0]] + rest) == multiset(s) + multiset{d}
    ensures DistinctIds(s) && IdFresh(d, s) ==> DistinctIds([s[0]] + rest)
  {
    var tail := s[1..];
    assert s == [s[0]] + tail;
    RestMembers(d, tail, rest);
    TailBelowHead(s);
    if DistinctIds(s) && IdFresh(d, s) {
      TailDistinct(s);
      HeadIdNotInTail(s);
      assert s[0] in s;
      assert IdFresh(s[0], rest);
    }
    PrependByRate(s[0], rest);
  }

  /** Inserts `d` before the first entry whose rate it is not below. */
  function InsertByRate(d: MovieDetailsDto, s: seq<MovieDetailsDto>): (r: seq<MovieDetailsDto>)
    requires ByRateDescending(s)
    ensures ByRateDescending(r)
    ensures multiset(r) == multiset(s) + multiset{d}
    ensures DistinctIds(s) && IdFresh(d, s) ==> DistinctIds(r)
    decreases |s|
  {
    if s == [] || d.rate >= s[0].rate then
      InsertInFront(d, s);
      [d] + s
    else
      var rest := InsertByRate(d, s[1..]);
      InsertBehind(d, s, rest);
      [s[0]] + rest
  }

  /** The head of a list with distinct ids has an id nothing in a
      permutation of the tail has. */
  lemma HeadIdFresh(s: seq<MovieDetailsDto>, rest: seq<MovieDetailsDto>)
    requires s != [] && DistinctIds(s) && multiset(rest) == multiset(s[1..])
    ensures DistinctIds(s[1..]) && IdFresh(s[0], rest)
  {
    var tail := s[1..];
    TailDistinct(s);
    forall y | y in rest ensures y.id != s[0].id {
      assert y in multiset(rest);
      var k :| 0 <= k < |tail| && tail[k] == y;
      assert tail[k] == s[k + 1];
    }
  }

  /** OrderByDescending(m => m.Rate): a permutation in non-increasing rate
      order (an insertion sort; which of two equal rates comes first is not
      part of the promise). */
  function SortByRateDescending(s: seq<MovieDetailsDto>): (r: seq<MovieDetailsDto>)
    ensures ByRateDescending(r)
    ensures multiset(r) == multiset(s)
    ensures DistinctIds(s) ==> DistinctIds(r)
    decreases |s|
  {
    if s == [] then []
    else
      var rest := SortByRateDescending(s[1..]);
      assert s == [s[0]] + s[1..];
      if DistinctIds(s) then
        HeadIdFresh(s, rest);
        InsertByRate(s[0], rest)
      else
        InsertByRate(s[0], rest)
  }

  /** The query behind GetAll and GetByGenreId: scan, join, filter, order by
      rate descending, project. */
  function Listing(movies: map<int, Movie>, genres: map<int, Genre>, filter: Option<int>): (r: seq<MovieDetailsDto>)
    requires MoviesKeyed(movies)
    ensures ByRateDescending(r)
    ensures DistinctIds(r)
    ensures forall d :: d in r ==> Selected(movies, genres, filter, d.id) && d == DetailsOf(movies, genres, d.id)
    ensures forall k :: Selected(movies, genres, filter, k) ==> DetailsOf(movies, genres, k) in r
  {
    var keys := SortedKeys(movies.Keys);
    var joined := JoinRows(keys, movies, genres, filter);
    var r := SortByRateDescending(joined);
    assert forall d :: d in r <==> d in joined by {
      forall d ensures d in r <==> d in joined {
        assert d in r <==> d in multiset(r);
      }
    }
    r
  }

  /** GET /movies: every movie with its genre, in non-increasing rate order,
      each exactly once, each carrying its genre's name. */
  function GetAll(movies: map<int, Movie>, genres: map<int, Genre>): (r: seq<MovieDetailsDto>)
    requires MoviesKeyed(movies)
    ensures ByRateDescending(r)
    ensures DistinctIds(r)
    ensures forall d :: d in r ==>
      && Joins(movies, genres, d.id)
      && d == DetailsOf(movies, genres, d.id)
      && d.genreName == genres[movies[d.id].genreId].name
    ensures forall k :: Joins(movies, genres, k) ==> DetailsOf(movies, genres, k) in r
  {
    Listing(movies, genres, None)
  }

  /** GET /movies/GetByGenreId: exactly the movies of that genre, in
      non-increasing rate order; no check that the genre exists, so an
      unknown genre gives an empty list. */
  function GetByGenreId(movies: map<int, Movie>, genres: map<int, Genre>, genreId: int): (r: seq<MovieDetailsDto>)
    requires MoviesKeyed(movies)
    ensures ByRateDescending(r)
    ensures DistinctIds(r)
    ensures forall d :: d in r ==>
      && Joins(movies, genres, d.id)
      && d.genreId == genreId
      && d == DetailsOf(movies, genres, d.id)
      && d.genreName == genres[genreId].name
    ensures forall k :: k in movies && movies[k].genreId == genreId && genreId in genres ==> DetailsOf(movies, genres, k) in r
    ensures genreId !in genres ==> r == []
  {
    var r := Listing(movies, genres, Some(genreId));
    assert r != [] ==> r[0] in r;
    assert forall d :: d in r ==> movies[d.id].genreId == genreId;
    r
  }

  /** GET /movies/{id}: the stored movie joined with its genre, or the
      not-found message when there is no such movie (or it has lost its
      genre row, which the inner join drops). */
  function GetById(movies: map<int, Movie>, genres: map<int, Genre>, id: int): (r: Outcome<MovieDetailsDto>)
    requires MoviesKeyed(movies)
    ensures r.Ok? <==> Joins(movies, genres, id)
    ensures !r.Ok? ==> r == BadRequest(NoMovieMessage(id))
    ensures r.Ok? ==>
      && r.value.id == id
      && r.value.title == movies[id].title
      && r.value.year == movies[id].year
      && r.value.rate == movies[id].rate
      && r.value.storeLine == movies[id].storeLine
      && r.value.poster == movies[id].poster
      && r.value.genreId == movies[id].genreId
      && r.value.genreName == genres[movies[id].genreId].name
  {
    if Joins(movies, genres, id) then Ok(DetailsOf(movies, genres, id))
    else BadRequest(NoMovieMessage(id))
  }

  /** GetById and GetAll agree: the one movie GetById returns is listed by
      GetAll, and every listed entry is what GetById returns for its id. */
  lemma GetByIdAgreesWithGetAll(movies: map<int, Movie>, genres: map<int, Genre>, id: int)
    requires MoviesKeyed(movies)
    ensures GetById(movies, genres, id).Ok? ==> GetById(movies, genres, id).value in GetAll(movies, genres)
    ensures forall d :: d in GetAll(movies, genres) ==> GetById(movies, genres, d.id) == Ok(d)
  {
  }

  /** GetByGenreId is GetAll restricted to one genre. */
  lemma GetByGenreIdFiltersGetAll(movies: map<int, Movie>, genres: map<int, Genre>, genreId: int)
    requires MoviesKeyed(movies)
    ensures forall d :: d in GetByGenreId(movies, genres, genreId) <==> d in GetAll(movies, genres) && d.genreId == genreId
  {
  }

  /** No movie is dropped by the join while every movie's genre exists. */
  lemma GetAllListsEveryMovie(movies: map<int, Movie>, genres: map<int, Genre>)
    requires MoviesKeyed(movies) && ReferencesResolve(movies, genres)
    ensures forall k :: k in movies ==> exists d :: d in GetAll(movies, genres) && d.id == k
  {
    var r := GetAll(movies, genres);
    forall k | k in movies ensures exists d :: d in r && d.id == k {
      assert Joins(movies, genres, k);
      assert DetailsOf(movies, genres, k) in r;
    }
  }

  // ---------------------------------------------------------------------
  // State-changing handlers

  class MoviesController {
    const context: ApplicationDbContext

    constructor (context: ApplicationDbContext)
      ensures this.context == context
    {
      this.context := context;
    }

    /** POST /movies: checks the poster's extension, then its size, then the
        genre, stopping at the first failure; on success inserts one movie
        carrying the uploaded bytes. */
    method Create(dto: CreateMovieDto) returns (r: Outcome<Movie>)
      requires context.Valid()
      modifies context
      ensures context.Valid()
      ensures !IsImageFileName(dto.poster.fileName) ==> r == BadRequest(ExtensionMessage)
      ensures IsImageFileName(dto.poster.fileName) && |dto.poster.content| > 1_048_576 ==> r == BadRequest(SizeMessage)
      ensures ValidatePoster(dto.poster) == None && dto.genreId !in old(context.genres) ==> r == BadRequest(CreateGenreMessage)
      ensures r.Ok? <==> ValidatePoster(dto.poster) == None && dto.genreId in old(context.genres)
      ensures !r.Ok? ==> r.BadRequest? && unchanged(context)
      ensures r.Ok? ==>
        && r.value == Movie(r.value.id, dto.title, dto.year, dto.rate, dto.storeLine, dto.poster.content, dto.genreId)
        && r.value.id !in old(context.movies)
        && context.movies == old(context.movies)[r.value.id := r.value]
      ensures context.genres == old(context.genres)
      ensures ReferencesResolve(old(context.movies), old(context.genres)) ==> ReferencesResolve(context.movies, context.genres)
    {
      var posterError := ValidatePoster(dto.poster);
      if posterError.Some? {
        return BadRequest(posterError.value);
      }
      if dto.genreId !in context.genres {
        return BadRequest(CreateGenreMessage);
      }
      var movie := Movie(0, dto.title, dto.year, dto.rate, dto.storeLine, dto.poster.content, dto.genreId);
      movie := context.AddMovie(movie);
      r := Ok(movie);
    }

    /** PUT /movies?id=: finds the movie, checks the genre, then (only when a
        poster is sent) the poster's extension and size; on success
        overwrites the five fields and the poster if one was sent. */
    method Update(id: int, dto: UpdateMovieDto) returns (r: Outcome<Movie>)
      requires context.Valid()
      modifies context
      ensures context.Valid()
      ensures id !in old(context.movies) ==> r == BadRequest(NoMovieFoundMessage(id))
      ensures id in old(context.movies) && dto.genreId !in old(context.genres) ==> r == BadRequest(UpdateGenreMessage)
      ensures (id in old(context.movies) && dto.genreId in old(context.genres) && dto.poster.Some?
               && ValidatePoster(dto.poster.value).Some?)
              ==> r == BadRequest(ValidatePoster(dto.poster.value).value)
      ensures r.Ok? <==> id in old(context.movies) && dto.genreId in old(context.genres)
                         && (dto.poster.None? || ValidatePoster(dto.poster.value) == None)
      ensures !r.Ok? ==> r.BadRequest? && unchanged(context)
      ensures r.Ok? ==>
        && r.value == Movie(id, dto.title, dto.year, dto.rate, dto.storeLine,
                            if dto.poster.Some? then dto.poster.value.content else old(context.movies[id].poster),
                            dto.genreId)
        && context.movies == old(context.movies)[id := r.value]
      ensures context.genres == old(context.genres)
      ensures ReferencesResolve(old(context.movies), old(context.genres)) ==> ReferencesResolve(context.movies, context.genres)
    {
      if id !in context.movies {
        return BadRequest(NoMovieFoundMessage(id));
      }
      var movie := context.movies[id];
      if dto.genreId !in context.genres {
        return BadRequest(UpdateGenreMessage);
      }
      if dto.poster.Some? {
        var posterError := ValidatePoster(dto.poster.value);
        if posterError.Some? {
          return BadRequest(posterError.value);
        }
        movie := movie.(poster := dto.poster.value.content);
      }
      movie := movie.(title := dto.title);
      movie := movie.(storeLine := dto.storeLine);
      movie := movie.(year := dto.year);
      movie := movie.(rate := dto.rate);
      movie := movie.(genreId := dto.genreId);
      // SaveChanges: the tracked row is written back.
      context.movies := context.movies[id := movie];
      r := Ok(movie);
    }

    /** DELETE /movies/{id}: removes exactly that movie and returns it. */
    method DeleteById(id: int) returns (r: Outcome<Movie>)
      requires context.Valid()
      modifies context
      ensures context.Valid()
      ensures id !in old(context.movies) ==> r == BadRequest(NoMovieToDeleteMessage(id)) && unchanged(context)
      ensures id in old(context.movies) ==> r == Ok(old(context.movies[id])) && context.movies == old(context.movies) - {id}
      ensures context.genres == old(context.genres)
      ensures ReferencesResolve(old(context.movies), old(context.genres)) ==> ReferencesResolve(context.movies, context.genres)
    {
      if id !in context.movies {
        return BadRequest(NoMovieToDeleteMessage(id));
      }
      var movie := context.movies[id];
      context.movies := context.movies - {id};
      r := Ok(movie);
    }
  }
}
