/** The genre request handlers: the list ordered by name, and the create,
    update and delete handlers that change the Genres table. */
module Genres {
  import opened Entities
  import opened Store
  import Text

  function NoGenreMessage(id: int): string
  {
    "No genre was found with Id " + Text.IntToString(id)
  }

  /** The not-found message names exactly one id. */
  lemma NoGenreMessageNamesOneId(a: int, b: int)
    requires NoGenreMessage(a) == NoGenreMessage(b)
    ensures a == b
  {
    Text.FramedNumberInjective("No genre was found with Id ", a, b, "");
  }

  // ---------------------------------------------------------------------
  // The order of names

  /** Ordinal string order: compares character codes from the left, and a
      proper prefix comes first. */
  predicate NameLe(a: string, b: string)
    decreases |a|
  {
    a == [] || (b != [] && (a[0] < b[0] || (a[0] == b[0] && NameLe(a[1..], b[1..]))))
  }

  lemma {:induction false} NameLeTotal(a: string, b: string)
    ensures NameLe(a, b) || NameLe(b, a)
    decreases |a|
  {
    if a != [] && b != [] && a[0] == b[0] {
      NameLeTotal(a[1..], b[1..]);
    }
  }

  lemma {:induction false} NameLeTransitive(a: string, b: string, c: string)
    requires NameLe(a, b) && NameLe(b, c)
    ensures NameLe(a, c)
    decreases |a|
  {
    if a != [] && a[0] == b[0] && b[0] == c[0] {
      NameLeTransitive(a[1..], b[1..], c[1..]);
    }
  }

  /** Two names each at most the other are the same name. */
  lemma {:induction false} NameLeAntisymmetric(a: string, b: string)
    requires NameLe(a, b) && NameLe(b, a)
    ensures a == b
    decreases |a|
  {
    if a != [] {
      NameLeAntisymmetric(a[1..], b[1..]);
      assert a == [a[0]] + a[1..] && b == [b[0]] + b[1..];
    }
  }

  // ---------------------------------------------------------------------
  // GET /genres

  predicate ByName(s: seq<Genre>)
  {
    forall i, j :: 0 <= i < j < |s| ==> NameLe(s[i].name, s[j].name)
  }

  predicate DistinctIds(s: seq<Genre>)
  {
    forall i, j :: 0 <= i < j < |s| ==> s[i].id != s[j].id
  }

  /** No entry of `s` has the id of `x`. */
  predicate IdFresh(x: Genre, s: seq<Genre>)
  {
    forall y :: y in s ==> y.id != x.id
  }

  /** Prepending a genre whose name comes before every other keeps the
      order, and keeps the ids distinct when its id is new. */
  lemma PrependByName(x: Genre, s: seq<Genre>)
    requires ByName(s)
    requires forall y :: y in s ==> NameLe(x.name, y.name)
    ensures ByName([x] + s)
    ensures DistinctIds(s) && IdFresh(x, s) ==> DistinctIds([x] + s)
  {
    var r := [x] + s;
    forall i, j | 0 <= i < j < |r| ensures NameLe(r[i].name, r[j].name) {
      assert r[j] == s[j - 1];
      if i > 0 { assert r[i] == s[i - 1]; }
    }
    if DistinctIds(s) && IdFresh(x, s) {
      forall i, j | 0 <= i < j < |r| ensures r[i].id != r[j].id {
        assert r[j] == s[j - 1];
        if i > 0 { assert r[i] == s[i - 1]; }
      }
    }
  }

  /** The first case of InsertByName: `g` goes in front. */
  lemma InsertInFront(g: Genre, s: seq<Genre>)
    requires ByName(s)
    requires s == [] || NameLe(g.name, s[0].name)
    ensures ByName([g] + s)
    ensures DistinctIds(s) && IdFresh(g, s) ==> DistinctIds([g] + s)
  {
    forall y | y in s ensures NameLe(g.name, y.name) {
      var k :| 0 <= k < |s| && s[k] == y;
      if k > 0 { NameLeTransitive(g.name, s[0].name, y.name); }
    }
    PrependByName(g, s);
  }

  /** Every entry of a permutation of `tail` plus `g` is `g` or in `tail`. */
  lemma RestMembers(g: Genre, tail: seq<Genre>, rest: seq<Genre>)
    requires multiset(rest) == multiset(tail) + multiset{g}
    ensures forall y :: y in rest ==> y == g || y in tail
  {
    forall y | y in rest ensures y == g || y in tail {
      assert y in multiset(rest);
    }
  }

  /** In name order the head's name comes before every later name. */
  lemma HeadBeforeTail(s: seq<Genre>)
    requires s != [] && ByName(s)
    ensures forall y :: y in s[1..] ==> NameLe(s[0].name, y.name)
  {
    forall y | y in s[1..] ensures NameLe(s[0].name, y.name) {
      var k :| 0 <= k < |s[1..]| && s[1..][k] == y;
      assert s[k + 1] == y;
    }
  }

  /** With distinct ids, no later entry shares the head's id. */
  lemma HeadIdNotInTail(s: seq<Genre>)
    requires s != [] && DistinctIds(s)
    ensures IdFresh(s[0], s[1..])
  {
    forall y | y in s[1..] ensures y.id != s[0].id {
      var k :| 0 <= k < |s[1..]| && s[1..][k] == y;
      assert s[k + 1] == y;
    }
  }

  lemma TailDistinct(s: seq<Genre>)
    requires s != [] && DistinctIds(s)
    ensures DistinctIds(s[1..])
  {
    var tail := s[1..];
    forall i, j | 0 <= i < j < |tail| ensures tail[i].id != tail[j].id {
      assert tail[i] == s[i + 1] && tail[j] == s[j + 1];
    }
  }

  /** The second case of InsertByName: `g` goes into the tail, behind s[0]. */
  lemma InsertBehind(g: Genre, s: seq<Genre>, rest: seq<Genre>)
    requires ByName(s) && s != [] && !NameLe(g.name, s[0].name)
    requires ByName(rest) && multiset(rest) == multiset(s[1..]) + multiset{g}
    requires DistinctIds(s[1..]) && IdFresh(g, s[1..]) ==> DistinctIds(rest)
    ensures ByName([s[0]] + rest)
    ensures multiset([s[0]] + rest) == multiset(s) + multiset{g}
    ensures DistinctIds(s) && IdFresh(g, s) ==> DistinctIds([s[0]] + rest)
  {
    var tail := s[1..];
    assert s == [s[0]] + tail;
    RestMembers(g, tail, rest);
    HeadBeforeTail(s);
    NameLeTotal(g.name, s[0].name);
    if DistinctIds(s) && IdFresh(g, s) {
      TailDistinct(s);
      HeadIdNotInTail(s);
      assert s[0] in s;
      assert IdFresh(s[0], rest);
    }
    PrependByName(s[0], rest);
  }

  /** Inserts `g` before the first genre whose name it does not come after. */
  function InsertByName(g: Genre, s: seq<Genre>): (r: seq<Genre>)
    requires ByName(s)
    ensures ByName(r)
    ensures multiset(r) == multiset(s) + multiset{g}
    ensures DistinctIds(s) && IdFresh(g, s) ==> DistinctIds(r)
    decreases |s|
  {
    if s == [] || NameLe(g.name, s[0].name) then
      InsertInFront(g, s);
      [g] + s
    else
      var rest := InsertByName(g, s[1..]);
      InsertBehind(g, s, rest);
      [s[0]] + rest
  }

  /** The head of a list with distinct ids has an id nothing in a
      permutation of the tail has. */
  lemma HeadIdFresh(s: seq<Genre>, rest: seq<Genre>)
    requires s != [] && DistinctIds(s) && multiset(rest) == multiset(s[1..])
    ensures DistinctIds(s[1..]) && IdFresh(s[0], rest)
  {
    var tail := s[1..];
    TailDistinct(s);
    forall y | y in rest ensures y.id != s[0].id {
      assert y in multiset(rest);
      var k :| 0 <= k < |tail| && tail[k] == y;
      assert tail[k] == s[k + 1];
    }
  }

  /** OrderBy(g => g.Name): a permutation in ascending name order (an
      insertion sort; which of two equal names comes first is not part of
      the promise). */
  function SortByName(s: seq<Genre>): (r: seq<Genre>)
    ensures ByName(r)
    ensures multiset(r) == multiset(s)
    ensures DistinctIds(s) ==> DistinctIds(r)
    decreases |s|
  {
    if s == [] then []
    else
      var rest := SortByName(s[1..]);
      assert s == [s[0]] + s[1..];
      if DistinctIds(s) then
        HeadIdFresh(s, rest);
        InsertByName(s[0], rest)
      else
        InsertByName(s[0], rest)
  }

  /** The rows stored under `keys`, in that order. */
  function RowsAt(keys: seq<int>, genres: map<int, Genre>): (r: seq<Genre>)
    requires forall i :: 0 <= i < |keys| ==> keys[i] in genres
    ensures |r| == |keys|
    ensures forall i :: 0 <= i < |r| ==> r[i] == genres[keys[i]]
    decreases |keys|
  {
    if keys == [] then [] else [genres[keys[0]]] + RowsAt(keys[1..], genres)
  }

  /** Listing the rows under distinct keys of a keyed table gives genres
      with distinct ids, and exactly the stored genres when the keys are all
      of the table's keys. */
  lemma RowsAtKeys(genres: map<int, Genre>, keys: seq<int>)
    requires GenresKeyed(genres)
    requires forall i, j :: 0 <= i < j < |keys| ==> keys[i] < keys[j]
    requires forall i :: 0 <= i < |keys| ==> keys[i] in genres
    requires forall k :: k in genres ==> k in keys
    ensures DistinctIds(RowsAt(keys, genres))
    ensures forall g: Genre :: g in RowsAt(keys, genres) <==> g.id in genres && genres[g.id] == g
  {
    var r := RowsAt(keys, genres);
    forall i, j | 0 <= i < j < |r| ensures r[i].id != r[j].id {
      assert r[i].id == keys[i] && r[j].id == keys[j];
    }
    forall g: Genre ensures g in r <==> g.id in genres && genres[g.id] == g {
      if g in r {
        var i :| 0 <= i < |r| && r[i] == g;
        assert keys[i] in genres;
      }
      if g.id in genres && genres[g.id] == g {
        var i :| 0 <= i < |keys| && keys[i] == g.id;
        assert r[i] == g;
      }
    }
  }

  /** The rows of the Genres table in key order. */
  function Rows(genres: map<int, Genre>): (r: seq<Genre>)
    requires GenresKeyed(genres)
    ensures |r| == |genres|
    ensures DistinctIds(r)
    ensures forall g :: g in r <==> g.id in genres && genres[g.id] == g
  {
    var keys := SortedKeys(genres.Keys);
    assert forall i :: 0 <= i < |keys| ==> keys[i] in genres by {
      forall i | 0 <= i < |keys| ensures keys[i] in genres {
        assert keys[i] in keys;
      }
    }
    RowsAtKeys(genres, keys);
    assert |genres| == |genres.Keys|;
    RowsAt(keys, genres)
  }

  /** GET /genres: every genre exactly once, in ascending name order. */
  function GetAll(genres: map<int, Genre>): (r: seq<Genre>)
    requires GenresKeyed(genres)
    ensures ByName(r)
    ensures |r| == |genres|
    ensures DistinctIds(r)
    ensures forall g :: g in r <==> g.id in genres && genres[g.id] == g
  {
    var rows := Rows(genres);
    var r := SortByName(rows);
    assert |r| == |rows| by {
      assert |multiset(r)| == |multiset(rows)|;
    }
    assert forall g :: g in r <==> g in rows by {
      forall g ensures g in r <==> g in rows {
        assert g in r <==> g in multiset(r);
      }
    }
    r
  }

  /** Genres with equal names are the only ones whose relative order the
      listing leaves open: any two listed genres in the opposite order have
      the same name. */
  lemma GetAllOnlyTiesUnordered(genres: map<int, Genre>, i: int, j: int)
    requires GenresKeyed(genres)
    requires 0 <= i < j < |GetAll(genres)|
    requires NameLe(GetAll(genres)[j].name, GetAll(genres)[i].name)
    ensures GetAll(genres)[i].name == GetAll(genres)[j].name
  {
    var r := GetAll(genres);
    NameLeAntisymmetric(r[i].name, r[j].name);
  }

  // ---------------------------------------------------------------------
  // State-changing handlers

  class GenresController {
    const context: ApplicationDbContext

    constructor (context: ApplicationDbContext)
      ensures this.context == context
    {
      this.context := context;
    }

    /** POST /genres: inserts one genre with the given name under a fresh
        id and returns it. */
    method Create(dto: GenreDto) returns (r: Outcome<Genre>)
      requires context.Valid()
      modifies context
      ensures context.Valid()
      ensures r.Ok? && r.value.name == dto.name
      ensures r.value.id !in old(context.genres)
      ensures context.genres == old(context.genres)[r.value.id := r.value]
      ensures context.movies == old(context.movies)
      ensures ReferencesResolve(old(context.movies), old(context.genres)) ==> ReferencesResolve(context.movies, context.genres)
    {
      var genre := Genre(0, dto.name);
      genre := context.AddGenre(genre);
      r := Ok(genre);
    }

    /** PUT /genres/{id}: renames that genre; NotFound when there is none. */
    method Update(id: int, dto: GenreDto) returns (r: Outcome<Genre>)
      requires context.Valid()
      modifies context
      ensures context.Valid()
      ensures id !in old(context.genres) ==> r == NotFound(NoGenreMessage(id)) && unchanged(context)
      ensures id in old(context.genres) ==>
        && r == Ok(Genre(id, dto.name))
        && context.genres == old(context.genres)[id := Genre(id, dto.name)]
      ensures context.movies == old(context.movies)
      ensures ReferencesResolve(old(context.movies), old(context.genres)) ==> ReferencesResolve(context.movies, context.genres)
    {
      if id !in context.genres {
        return NotFound(NoGenreMessage(id));
      }
      var genre := context.genres[id];
      genre := genre.(name := dto.name);
      context.genres := context.genres[id := genre];
      r := Ok(genre);
    }

    /** DELETE /genres/{id}: removes exactly that genre, even when movies
        still refer to it; NotFound when there is none. */
    method Delete(id: int) returns (r: Outcome<()>)
      requires context.Valid()
      modifies context
      ensures context.Valid()
      ensures id !in old(context.genres) ==> r == NotFound(NoGenreMessage(id)) && unchanged(context)
      ensures id in old(context.genres) ==> r == Ok(()) && context.genres == old(context.genres) - {id}
      ensures context.movies == old(context.movies)
      ensures ReferencesResolve(old(context.movies), old(context.genres))
              && (forall k :: k in old(context.movies) ==> old(context.movies[k]).genreId != id)
              ==> ReferencesResolve(context.movies, context.genres)
    {
      if id !in context.genres {
        return NotFound(NoGenreMessage(id));
      }
      context.genres := context.genres - {id};
      r := Ok(());
    }
  }
}
