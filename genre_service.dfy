/**
  The genre service: one fetch of every genre, then the not-found check.
 */
module GenreService {
  import opened Common

  /** A genre as the service sees it; names need not be unique. */
  datatype Genre = Genre(id: int, name: string)

  /** All genres. The repository's `findAll()` result is the parameter, so a
      call performs exactly one fetch and yields exactly one outcome. */
  function FindAllGenres(genreRepositoryFindAll: seq<Genre>): (r: Result<seq<Genre>>)
    ensures r.Ok? <==> |genreRepositoryFindAll| > 0
    ensures r.Err? ==> r.error == GenresNotFound
    ensures r.Ok? ==> r.value == genreRepositoryFindAll && |r.value| > 0
  {
    RequireNonEmpty(genreRepositoryFindAll, GenresNotFound)
  }
}
