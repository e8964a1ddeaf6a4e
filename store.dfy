/** The database context: the Genres and Movies tables as maps from primary
    key to row, with the identity counters the database uses to number new
    rows. */
module Store {
  import opened Entities

  /** A non-empty set has an element. */
  lemma HasElement(s: set<int>)
    requires s != {}
    ensures exists y :: y in s
  {
    if forall y :: y !in s {
      assert false;
    }
  }

  /** Every non-empty finite set of integers has a least element. */
  lemma {:induction false} LeastExists(s: set<int>)
    requires s != {}
    ensures exists m :: m in s && forall k :: k in s ==> m <= k
    decreases |s|
  {
    HasElement(s);
    var x :| x in s;
    var t := s - {x};
    if t == {} {
      forall k | k in s ensures x <= k { assert k !in t; }
    } else {
      LeastExists(t);
      var m :| m in t && forall k :: k in t ==> m <= k;
      var least := if x < m then x else m;
      forall k | k in s ensures least <= k {
        if k != x { assert k in t; }
      }
      assert least in s;
    }
  }

  function Least(s: set<int>): (m: int)
    requires s != {}
    ensures m in s && forall k :: k in s ==> m <= k
  {
    LeastExists(s);
    var m :| m in s && forall k :: k in s ==> m <= k;
    m
  }

  /** The keys of a table in ascending order: the order in which a scan of
      the table meets its rows. */
  function SortedKeys(s: set<int>): (r: seq<int>)
    ensures |r| == |s|
    ensures forall i, j :: 0 <= i < j < |r| ==> r[i] < r[j]
    ensures forall k :: k in r <==> k in s
    decreases |s|
  {
    if s == {} then []
    else
      var m := Least(s);
      [m] + SortedKeys(s - {m})
  }

  class ApplicationDbContext {
    var genres: map<int, Genre>
    var movies: map<int, Movie>
    /** The identity values the next inserted genre and movie receive. */
    var nextGenreId: int
    var nextMovieId: int

    /** Rows sit under their own keys, and every key is below its table's
        identity counter, so the counter is always a fresh key. */
    predicate Valid()
      reads this
    {
      && GenresKeyed(genres)
      && MoviesKeyed(movies)
      && (forall k :: k in genres ==> k < nextGenreId)
      && (forall k :: k in movies ==> k < nextMovieId)
    }

    /** An empty database; identity columns start at 1. */
    constructor ()
      ensures Valid()
      ensures genres == map[] && movies == map[]
    {
      genres := map[];
      movies := map[];
      nextGenreId := 1;
      nextMovieId := 1;
    }

    /** Add followed by SaveChanges: the row receives the next identity value
        and is inserted under it. */
    method AddGenre(g: Genre) returns (added: Genre)
      requires Valid()
      modifies this
      ensures Valid()
      ensures added == g.(id := added.id) && added.id !in old(genres)
      ensures genres == old(genres)[added.id := added]
      ensures movies == old(movies)
    {
      added := g.(id := nextGenreId);
      genres := genres[added.id := added];
      nextGenreId := nextGenreId + 1;
    }

    /** Add followed by SaveChanges, for the Movies table. */
    method AddMovie(m: Movie) returns (added: Movie)
      requires Valid()
      modifies this
      ensures Valid()
      ensures added == m.(id := added.id) && added.id !in old(movies)
      ensures movies == old(movies)[added.id := added]
      ensures genres == old(genres)
    {
      added := m.(id := nextMovieId);
      movies := movies[added.id := added];
      nextMovieId := nextMovieId + 1;
    }
  }
}
