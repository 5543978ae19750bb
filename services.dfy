/** `RelevanciaService` (GitHubSearchApp.Application/Services/RelevanciaService.cs): the score
    again, and the ordering by it. Both are pure; the class holds no state. */
module RelevanciaService {
  import opened NetTypes
  import opened RepositoryEntity
  import opened RelevanceCalculator
  import opened Ranking

  /** `CalcularRelevancia`: `repo.Stars * 2 + repo.Forks + repo.Watchers` in 32-bit arithmetic,
      the same value `RelevanceCalculator.Calcular` gives. */
  function CalcularRelevancia(repo: Repository): (score: int32)
    reads repo
    ensures score == Calcular(repo)
    ensures NoOverflow(repo.Data()) ==> score == 2 * repo.stars + repo.forks + repo.watchers
  {
    Wrap32(Wrap32(Wrap32(repo.stars * 2) + repo.forks) + repo.watchers)
  }

  /** `OrdenarRepositoriosPorRelevancia`: a new list holding the same repositories, highest
      relevance first, ties in input order. */
  function OrdenarRepositoriosPorRelevancia(repos: seq<Repository>): (ordered: seq<Repository>)
    reads set y | y in repos
    ensures multiset(ordered) == multiset(repos)
    ensures IsStableDescendingSort(repos, ordered)
  {
    OrderByRelevanceSorted(repos);
    OrderByRelevanceStable(repos);
    OrderByRelevance(repos)
  }
}

/** `RepositorioService` (GitHubSearchApp.Application/Services/RepositorioService.cs). The GitHub
    client is an injected interface, so the two listing operations take what the client call
    produced (its list, or the exception it threw) and rank it. The favorites operations are a
    copy of `FavoritosService`'s code over the service's own cache entry; the service owns one
    store and forwards to it. */
module RepositorioService {
  import opened NetTypes
  import opened RepositoryEntity
  import opened RelevanceCalculator
  import opened Ranking
  import Favoritos = FavoritosService

  /** The result of a client call as the service sees it. */
  function Fetched<E>(fetched: Result<seq<Repository>, E>): seq<Repository>
  {
    if fetched.Success? then fetched.value else []
  }

  /** `BuscarRepositorios`: the search results ranked by `RelevanceCalculator.Calcular`; an
      exception from the client is rethrown as it is. */
  function BuscarRepositorios<E>(fetched: Result<seq<Repository>, E>): (r: Result<seq<Repository>, E>)
    reads set y | y in Fetched(fetched)
    ensures fetched.Failure? ==> r == fetched
    ensures fetched.Success? ==> r.Success?
    ensures r.Success? ==> multiset(r.value) == multiset(fetched.value)
    ensures r.Success? ==> IsStableDescendingSort(fetched.value, r.value)
  {
    match fetched
    case Failure(e) => Failure(e)
    case Success(repos) =>
      OrderByRelevanceSorted(repos);
      OrderByRelevanceStable(repos);
      Success(OrderByRelevance(repos))
  }

  /** The key written inline in `ListarRepositoriosDoUsuario`; it is the relevance score. */
  function UserListingKey(repo: Repository): (key: int32)
    reads repo
    ensures key == Calcular(repo)
  {
    Wrap32(Wrap32(Wrap32(repo.stars * 2) + repo.forks) + repo.watchers)
  }

  /** `ListarRepositoriosDoUsuario`: the user's repositories ordered by the inline key
      `UserListingKey`. That key is `Calcular` on every repository, so the ordering is the one
      search ranking performs; client exceptions are rethrown. */
  function ListarRepositoriosDoUsuario<E>(fetched: Result<seq<Repository>, E>)
    : (r: Result<seq<Repository>, E>)
    reads set y | y in Fetched(fetched)
    ensures r == BuscarRepositorios(fetched)
    ensures fetched.Failure? ==> r == fetched
    ensures r.Success? ==> multiset(r.value) == multiset(fetched.value)
    ensures r.Success? ==> IsStableDescendingSort(fetched.value, r.value)
    ensures fetched.Success? && fetched.value == [] ==> r == Success([])
  {
    assert forall y :: y in Fetched(fetched) ==> UserListingKey(y) == Calcular(y);
    BuscarRepositorios(fetched)
  }

  class RepositorioService {
    /** The service's own favorites entry in its memory cache. */
    const favoritos: Favoritos.FavoritosService

    ghost predicate Valid()
      reads favoritos
    {
      favoritos.Valid()
    }

    constructor ()
      ensures Valid() && fresh(favoritos) && favoritos.cache == None
    {
      favoritos := new Favoritos.FavoritosService();
    }

    method AdicionarFavorito(repo: Repository) returns (outcome: Outcome<Favoritos.FavoritesError>)
      requires Valid()
      modifies favoritos
      ensures Valid()
      ensures outcome.Pass? <==> !Favoritos.ContainsId(old(favoritos.Favorites()), repo.id)
      ensures outcome.Pass? ==> favoritos.cache == Some(old(favoritos.Favorites()) + [repo])
      ensures outcome.Fail? ==>
        outcome == Fail(Favoritos.AlreadyFavorited) && favoritos.cache == Some(old(favoritos.Favorites()))
    {
      outcome := favoritos.AdicionarFavorito(repo);
    }

    method RemoverFavorito(repoId: int64)
      requires Valid()
      modifies favoritos
      ensures Valid()
      ensures favoritos.cache == Some(Favoritos.WithoutId(old(favoritos.Favorites()), repoId))
      ensures !Favoritos.ContainsId(favoritos.Favorites(), repoId)
      ensures !Favoritos.ContainsId(old(favoritos.Favorites()), repoId) ==>
        favoritos.Favorites() == old(favoritos.Favorites())
    {
      favoritos.RemoverFavorito(repoId);
    }

    method ListarFavoritos() returns (list: seq<Repository>)
      requires Valid()
      modifies favoritos
      ensures Valid()
      ensures list == old(favoritos.Favorites()) && favoritos.cache == Some(list)
    {
      list := favoritos.ListarFavoritos();
    }
  }
}
