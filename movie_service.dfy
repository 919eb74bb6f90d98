/**
  The movie service: the decision logic between the HTTP controllers and the
  movie repository. Sorting, paging and the genre join happen in the
  database; the service only chooses which repository call to make, rejects
  bad requests and empty results, and draws a random sample.

  The repository is modelled by what it answers: for each call the service
  can make, the sequence that call returns, plus the movie count. Every
  operation reports, beside its outcome, the repository calls it made, in
  order.
 */
module MovieService {
  import opened Common
  import Shuffle

  /** A movie as the service sees it. Prices and ratings are compared only
      by the database, so they are not part of the model. */
  datatype Movie = Movie(id: int, translatedName: string, originalName: string)

  /** The one sort a request may ask for. */
  datatype SortDirective = Unsorted | RatingDesc | PriceDesc | PriceAsc

  /** A page request: page number, page size and sort. */
  datatype PageRequest = PageRequest(page: nat, size: nat, sort: SortDirective)

  /** A call the service makes on the movie repository. */
  datatype RepositoryCall =
    | CountCall
    | FindAllCall(sort: SortDirective)
    | FindByGenreCall(genreId: int, page: PageRequest)

  /** The repository's answers. `findAll(Unsorted)` is the unsorted
      `findAll()`, `findAll(d)` otherwise the one given a Sort. */
  datatype MovieRepository = MovieRepository(
    findAll: SortDirective -> seq<Movie>,
    findMoviesByGenreId: (int, PageRequest) -> seq<Movie>,
    count: nat)

  /** What an operation returns or throws, and the repository calls it made. */
  datatype Response = Response(result: Result<seq<Movie>>, calls: seq<RepositoryCall>)

  /** Size of the random sample. */
  const RandomMoviesCount: nat := 3

  /** `Map.get`: the value under k, or None where Java gives null. */
  function Get(m: map<string, string>, k: string): (r: Option<string>)
    ensures r.Some? <==> k in m
    ensures r.Some? ==> r.value == m[k]
  {
    if k in m then Some(m[k]) else None
  }

  /** A map with one entry, whose key and value are known, is that entry. */
  lemma SingleEntry(m: map<string, string>, k: string)
    requires |m| == 1 && k in m
    ensures m == map[k := m[k]]
  {
    assert |m.Keys - {k}| == 0;
    assert m.Keys == {k} by {
      assert m.Keys - {k} == {};
    }
  }

  /** Sort-parameter resolution, in the order the service tests it: more than
      one parameter is a bad request; none means unsorted; then
      `rating=desc`, `price=desc` and `price=asc`; anything else, including
      `rating=asc`, is a bad request. The contract is the accepted table. */
  function ResolveSort(params: map<string, string>): (r: Result<SortDirective>)
    ensures |params| > 1 ==> r == Err(BadRequest)
    ensures r == Ok(Unsorted) <==> params == map[]
    ensures r == Ok(RatingDesc) <==> params == map["rating" := "desc"]
    ensures r == Ok(PriceDesc) <==> params == map["price" := "desc"]
    ensures r == Ok(PriceAsc) <==> params == map["price" := "asc"]
    ensures r.Err? ==> r.error == BadRequest
  {
    if |params| > 1 then Err(BadRequest)
    else if |params| == 0 then Ok(Unsorted)
    else if Get(params, "rating") == Some("desc") then
      SingleEntry(params, "rating");
      Ok(RatingDesc)
    else if Get(params, "price") == Some("desc") then
      SingleEntry(params, "price");
      Ok(PriceDesc)
    else if Get(params, "price") == Some("asc") then
      SingleEntry(params, "price");
      Ok(PriceAsc)
    else
      Err(BadRequest)
  }

  /** The empty-result policy for movies. */
  function ValidateMovies(movies: seq<Movie>): (r: Result<seq<Movie>>)
    ensures r.Ok? <==> |movies| > 0
    ensures r.Ok? ==> r.value == movies
    ensures r.Err? ==> r.error == MoviesNotFound
  {
    RequireNonEmpty(movies, MoviesNotFound)
  }

  /** All movies, optionally sorted. A bad request makes no repository call;
      otherwise exactly one fetch, for the resolved sort, whose result is
      returned unchanged unless it is empty. */
  function FindAllMovies(repo: MovieRepository, params: map<string, string>): (resp: Response)
    ensures |params| > 1 ==> resp == Response(Err(BadRequest), [])
    ensures resp.result == Err(BadRequest) <==> ResolveSort(params).Err?
    ensures ResolveSort(params).Err? ==> resp.calls == []
    ensures ResolveSort(params).Ok? ==> resp.calls == [FindAllCall(ResolveSort(params).value)]
    ensures resp.result == Err(MoviesNotFound) <==>
              ResolveSort(params).Ok? && repo.findAll(ResolveSort(params).value) == []
    ensures resp.result.Ok? <==>
              ResolveSort(params).Ok? && |repo.findAll(ResolveSort(params).value)| > 0
    ensures resp.result.Ok? ==>
              ResolveSort(params).Ok? && resp.result.value == repo.findAll(ResolveSort(params).value)
              && |resp.result.value| > 0
  {
    match ResolveSort(params)
    case Err(e) => Response(Err(e), [])
    case Ok(sort) => Response(ValidateMovies(repo.findAll(sort)), [FindAllCall(sort)])
  }

  /** Movies of one genre, optionally sorted. The checks come in the
      service's order: the number of parameters first, then the movie count
      (zero means not found, whatever the parameter says), then the
      parameter's value. The fetch asks for page 0 with a page size equal
      to the movie count. */
  function FindMoviesByGenreId(repo: MovieRepository, genreId: int, params: map<string, string>): (resp: Response)
    ensures |params| > 1 ==> resp == Response(Err(BadRequest), [])
    ensures |params| <= 1 && repo.count == 0 ==> resp == Response(Err(MoviesNotFound), [CountCall])
    ensures |params| <= 1 && repo.count > 0 && ResolveSort(params).Err? ==>
              resp == Response(Err(BadRequest), [CountCall])
    ensures repo.count > 0 && ResolveSort(params).Ok? ==>
              var request := PageRequest(0, repo.count, ResolveSort(params).value);
              && resp.calls == [CountCall, FindByGenreCall(genreId, request)]
              && (resp.result.Ok? <==> |repo.findMoviesByGenreId(genreId, request)| > 0)
              && (resp.result.Ok? ==> resp.result.value == repo.findMoviesByGenreId(genreId, request))
              && (resp.result.Err? ==> resp.result.error == MoviesNotFound)
  {
    if |params| > 1 then Response(Err(BadRequest), [])
    else if repo.count == 0 then Response(Err(MoviesNotFound), [CountCall])
    else
      match ResolveSort(params)
      case Err(e) => Response(Err(e), [CountCall])
      case Ok(sort) =>
        var request := PageRequest(0, repo.count, sort);
        Response(ValidateMovies(repo.findMoviesByGenreId(genreId, request)), [CountCall, FindByGenreCall(genreId, request)])
  }

  /** Both list operations reject exactly the same parameter maps once the
      catalog is not empty; with an empty catalog the genre listing reports
      not found where the full listing reports a bad request. */
  lemma ListOperationsRejectAlike(repo: MovieRepository, genreId: int, params: map<string, string>)
    ensures repo.count > 0 ==>
              (FindMoviesByGenreId(repo, genreId, params).result == Err(BadRequest)
               <==> FindAllMovies(repo, params).result == Err(BadRequest))
    ensures repo.count == 0 && |params| == 1 && ResolveSort(params).Err? ==>
              FindMoviesByGenreId(repo, genreId, params).result == Err(MoviesNotFound)
              && FindAllMovies(repo, params).result == Err(BadRequest)
  {
  }

  /** The repository pages the genre's matches `all` for a sort consistently:
      page 0 of any size holds the first matches, and there are no more
      matches than movies. */
  ghost predicate PagesMatches(repo: MovieRepository, genreId: int, sort: SortDirective, all: seq<Movie>)
  {
    && |all| <= repo.count
    && forall size: nat :: repo.findMoviesByGenreId(genreId, PageRequest(0, size, sort))
                             == all[..if size < |all| then size else |all|]
  }

  /** Why the page size is the movie count: against a repository that pages
      consistently, the genre listing returns every match, not a truncated
      page. */
  lemma GenrePageHoldsAllMatches(repo: MovieRepository, genreId: int, params: map<string, string>, all: seq<Movie>)
    requires repo.count > 0 && ResolveSort(params).Ok?
    requires PagesMatches(repo, genreId, ResolveSort(params).value, all)
    ensures FindMoviesByGenreId(repo, genreId, params).result ==
              if |all| == 0 then Err(MoviesNotFound) else Ok(all)
  {
    var request := PageRequest(0, repo.count, ResolveSort(params).value);
    assert repo.findMoviesByGenreId(genreId, request) == all[..|all|];
    assert all[..|all|] == all;
  }

  /** Three random movies: fetch every movie, reject an empty list, shuffle
      the list in place and take its first three. A list of one or two
      movies makes `subList(0, 3)` throw. */
  method FindRandomMovies(repo: MovieRepository, nextInt: nat -> nat) returns (resp: Response)
    requires Shuffle.ValidRandom(nextInt)
    ensures resp.calls == [FindAllCall(Unsorted)]
    ensures resp.result == Err(MoviesNotFound) <==> |repo.findAll(Unsorted)| == 0
    ensures resp.result == Err(IndexOutOfBounds) <==> 0 < |repo.findAll(Unsorted)| < RandomMoviesCount
    ensures resp.result.Ok? <==> |repo.findAll(Unsorted)| >= RandomMoviesCount
    ensures resp.result.Ok? ==>
              && |resp.result.value| == RandomMoviesCount
              && resp.result.value == Shuffle.Shuffled(repo.findAll(Unsorted), nextInt)[..RandomMoviesCount]
              && multiset(resp.result.value) <= multiset(repo.findAll(Unsorted))
    ensures resp.result.Ok? && NoDuplicates(repo.findAll(Unsorted)) ==> NoDuplicates(resp.result.value)
  {
    var movies := repo.findAll(Unsorted);
    var validated := ValidateMovies(movies);
    if validated.Err? {
      return Response(validated, [FindAllCall(Unsorted)]);
    }
    var list := new Movie[|movies|](i requires 0 <= i < |movies| => movies[i]);
    assert list[..] == movies;
    Shuffle.ShuffleInPlace(list, nextInt);
    if list.Length < RandomMoviesCount {
      return Response(Err(IndexOutOfBounds), [FindAllCall(Unsorted)]);
    }
    var sample := list[..RandomMoviesCount];
    assert list[..] == sample + list[RandomMoviesCount..];
    if NoDuplicates(movies) {
      SampleHasNoDuplicates(movies, sample);
    }
    resp := Response(Ok(sample), [FindAllCall(Unsorted)]);
  }

  /** No element occurs twice in s. */
  ghost predicate NoDuplicates<T>(s: seq<T>)
  {
    forall i, j :: 0 <= i < j < |s| ==> s[i] != s[j]
  }

  lemma {:induction false} NoDuplicatesOccursOnce<T>(s: seq<T>, x: T)
    requires NoDuplicates(s)
    ensures multiset(s)[x] <= 1
  {
    if |s| > 0 {
      assert NoDuplicates(s[1..]) by {
        forall i, j | 0 <= i < j < |s| - 1 ensures s[1..][i] != s[1..][j] {
          assert s[1..][i] == s[i + 1] && s[1..][j] == s[j + 1];
        }
      }
      NoDuplicatesOccursOnce(s[1..], x);
      assert s == [s[0]] + s[1..];
      if x == s[0] {
        assert x !in s[1..];
      }
    }
  }

  lemma RepeatedOccursTwice<T>(s: seq<T>, i: nat, j: nat)
    requires i < j < |s| && s[i] == s[j]
    ensures multiset(s)[s[i]] >= 2
  {
    assert s == s[..j] + [s[j]] + s[j + 1..];
    assert s[i] in s[..j];
  }

  /** Drawing without replacement: a sample whose multiset lies within that
      of a catalog without duplicate movies has no duplicates either. */
  lemma SampleHasNoDuplicates(catalog: seq<Movie>, sample: seq<Movie>)
    requires NoDuplicates(catalog)
    requires multiset(sample) <= multiset(catalog)
    ensures NoDuplicates(sample)
  {
    forall i, j | 0 <= i < j < |sample| ensures sample[i] != sample[j] {
      if sample[i] == sample[j] {
        RepeatedOccursTwice(sample, i, j);
        NoDuplicatesOccursOnce(catalog, sample[i]);
        assert false;
      }
    }
  }
}
