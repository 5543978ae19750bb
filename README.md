# GitHubSearchApp core, modelled in Dafny

GitHubSearchApp is a small ASP.NET backend. It proxies GitHub's repository search and
user-repository listing, ranks the results by a relevance score, and keeps an in-process
list of favorite repositories. This project models the logic between the HTTP layer and the
GitHub HTTP client, and proves properties of that model:

- the `Repository` entity: constructor guards, `Update`, and identity by `Id`;
- the relevance score `Stars * 2 + Forks + Watchers`, evaluated in unchecked 32-bit arithmetic;
- the stable descending ordering by relevance that `RelevanciaService` and `RepositorioService`
  perform with LINQ `OrderByDescending`;
- the favorites store: a cached list, created lazily, in which ids stay unique;
- the GitHub client's argument and status guards, and the loop that filters and maps
  deserialised items onto `Repository` objects.

Files:

- `net_types.dfy`: C# `int`/`long`, unchecked wrap-around, `string.IsNullOrWhiteSpace`, and
  Option/Result/Outcome.
- `repository.dfy`: the `Repository` class.
- `relevance.dfy`: `RelevanceCalculator.Calcular` and its arithmetic properties.
- `ranking.dfy`: the stable sort, with its specification and proofs.
- `favoritos.dfy`: `FavoritosService`.
- `github_repository.dfy`: `GitHubRepository`.
- `services.dfy`: `RelevanciaService` and `RepositorioService`.

How the model is built:

- **Entity.** `Repository` is a class. `Id`, `Name` and `HtmlUrl` are `const` fields, because
  only the C# constructor assigns them. `Valid()`, `Equals` and `GetHashCode` read no mutable
  field. Dafny therefore guarantees that `Update` cannot change validity, equality or the hash
  code.
- **Construction.** The C# constructor throws `ArgumentException`. The model splits it in two:
  - `Repository.Create` performs the two guards (name first, then URL) and returns a `Result`.
  - The Dafny constructor performs the assignments that follow the guards.
- **Integers.** C# `int` is the subset type `int32`. Every `*` and `+` in the score wraps
  exactly as unchecked C# arithmetic does (`Wrap32`).
- **Whitespace.** `IsWhiteSpace` lists the code points that .NET `char.IsWhiteSpace` accepts.
  Dafny characters are Unicode scalar values, so no approximation is involved.
- **Ranking.** It is a function over sequences of `Repository` references and reads their
  counts. Its specification is `IsStableDescendingSort`:
  - the output is non-increasing in `Calcular`;
  - for every score, the repositories with that score appear in input order.

  `SortedTiesDetermine` proves that these two conditions admit exactly one output. So the
  specification pins down the list LINQ returns, and idempotence follows.
- **Favorites.** The memory-cache entry under "favoritos" is a field
  `cache: Option<seq<Repository>>`. `None` means the entry is absent. The class invariant is
  `UniqueIds`.
- **RepositorioService favorites.** `RepositorioService` repeats the favorites code of
  `FavoritosService` over its own cache entry. Apart from exception and log message texts, the
  difference is that its `ObterFavoritos` is private. The model gives the service its own
  `FavoritosService` instance and forwards to it. So the copied code is modelled once, and the
  contracts of the forwarding methods are those of the store.
- **HTTP and JSON.** The response status and the deserialised body are parameters of
  `SearchAsync` and `GetUserRepositoriesAsync`. The GitHub client is an injected interface in
  `RepositorioService`. So `BuscarRepositorios` and `ListarRepositoriosDoUsuario` take the
  outcome of the client call: its list, or the exception it threw.

Facts about the code that shape the model:

- **Blank queries.** `RepositorioService` does not check the query itself. `ReposController`
  rejects a blank `nome` before calling the service, and `GitHubRepository.SearchAsync`
  rejects a blank query before any request.
- **Null payloads.** `GitHubRepository` turns a null payload or a null `Items` into an empty
  list. A null list given to the service would throw.
- **Client errors.** Client exceptions are rethrown unchanged (`throw;`).
- **Favorites order.** The favorites keep insertion order, because the store is a `List`.

## Model

| member | source | states |
|---|---|---|
| `NetTypes.Wrap32` | GitHubSearchApp.Application/Utils/RelevanceCalculator.cs:14 | an unchecked `int` operation yields its exact result when that fits in 32 bits, and otherwise the result shifted by 2^32 |
| `RepositoryEntity.Repository.Create` | GitHubSearchApp.Domain/Entities/Repository.cs:57-71 | a null or blank name fails with the name error even when the URL is also bad; a good name with a null or blank URL fails with the URL error; otherwise it returns a fresh valid object whose every field equals its argument, with the counts not range-checked |
| `RepositoryEntity.Repository.constructor` | GitHubSearchApp.Domain/Entities/Repository.cs:64-70 | after the guards, each field holds its argument and the object is valid (name and URL non-blank) |
| `RepositoryEntity.Repository.Update` | GitHubSearchApp.Domain/Entities/Repository.cs:80-86 | replaces description (null becomes ""), stars, forks and watchers; id, name and URL are unchanged |
| `RepositoryEntity.EqualsIsEquivalence` | GitHubSearchApp.Domain/Entities/Repository.cs:99-105 | equality by id is reflexive, symmetric and transitive, and never holds against null |
| `RepositoryEntity.Repository.Equals` | GitHubSearchApp.Domain/Entities/Repository.cs:99-103 | a repository equals itself, never equals null, and anything it equals has its hash code |
| `RepositoryEntity.Repository.GetHashCode` | GitHubSearchApp.Domain/Entities/Repository.cs:107 | the hash depends on the id alone: an id in `int` range hashes to itself when non-negative and to its bitwise complement when negative |
| `RepositoryEntity.Int64HashCode` | GitHubSearchApp.Domain/Entities/Repository.cs:107 | `Int64.GetHashCode`: on values in `int` range, the exclusive-or of the two halves is the value itself or its bitwise complement |
| `RepositoryEntity.EqualsAgreesWithHash` | GitHubSearchApp.Domain/Entities/Repository.cs:107 | equal repositories have equal hash codes |
| `RelevanceCalculator.Calcular` | GitHubSearchApp.Application/Utils/RelevanceCalculator.cs:12-15 | when the exact value fits in an `int`, the score is exactly `2*Stars + Forks + Watchers` |
| `RelevanceCalculator.CalcularAgreesModulo` | GitHubSearchApp.Application/Utils/RelevanceCalculator.cs:14 | in every case the score is congruent to `2*Stars + Forks + Watchers` modulo 2^32 |
| `RelevanceCalculator.ScoreDependsOnCountsOnly` | GitHubSearchApp.Application/Utils/RelevanceCalculator.cs:14 | repositories with the same three counts score the same, whatever their id, name, description or URL |
| `RelevanceCalculator.ScoreMonotone` | GitHubSearchApp.Application/Utils/RelevanceCalculator.cs:14 | without overflow, raising any count never lowers the score |
| `RelevanceCalculator.OneMoreStarAddsTwo` | GitHubSearchApp.Application/Utils/RelevanceCalculator.cs:14 | without overflow, one extra star adds exactly 2 |
| `RelevanceCalculator.ScoreNonNegative` | GitHubSearchApp.Application/Utils/RelevanceCalculator.cs:14 | non-negative counts whose sum fits give a non-negative score |
| `RelevanceCalculator.OverflowMakesScoreNegative` | GitHubSearchApp.Application/Utils/RelevanceCalculator.cs:14 | 2^30 stars and no forks or watchers score -2^31, so the bound in the two lemmas above is necessary |
| `Ranking.Insert` | GitHubSearchApp.Application/Services/RelevanciaService.cs:33 | one insertion step of the sort adds exactly the inserted repository to the multiset |
| `Ranking.OrderByRelevance` | GitHubSearchApp.Application/Services/RelevanciaService.cs:33 | the ordered list is a permutation of the input, with the same elements and the same multiplicities |
| `Ranking.OrderByRelevanceSorted` | GitHubSearchApp.Application/Services/RelevanciaService.cs:24-33 | the ordered list is non-increasing in relevance |
| `Ranking.OrderByRelevanceStable` | GitHubSearchApp.Application/Services/RelevanciaService.cs:33 | repositories with equal relevance keep their relative input order |
| `Ranking.InsertTies` | GitHubSearchApp.Application/Services/RelevanciaService.cs:33 | an insertion puts the inserted repository ahead of every repository already placed with the same score |
| `Ranking.SortedTiesDetermine` | GitHubSearchApp.Application/Services/RelevanciaService.cs:33 | two lists that are both non-increasing and agree on the order within every score are equal |
| `Ranking.OrderByRelevanceCharacterised` | GitHubSearchApp.Application/Services/RelevanciaService.cs:33 | a list is a stable descending sort of the input if and only if it is the ordered list |
| `Ranking.OrderByRelevanceOfSorted` | GitHubSearchApp.Application/Services/RelevanciaService.cs:33 | an input already in ranked order comes back unchanged |
| `Ranking.OrderByRelevanceIdempotent` | GitHubSearchApp.Application/Services/RelevanciaService.cs:33 | ranking twice gives the same list as ranking once |
| `Ranking.RankingExample` | GitHubSearchApp.Application/Services/RelevanciaService.cs:33 | three repositories listed in increasing score (27, 30, 42, say) come back in reverse order |
| `RelevanciaService.CalcularRelevancia` | GitHubSearchApp.Application/Services/RelevanciaService.cs:19-22 | computes the same value as `RelevanceCalculator.Calcular`, which is `2*Stars + Forks + Watchers` without overflow |
| `RelevanciaService.OrdenarRepositoriosPorRelevancia` | GitHubSearchApp.Application/Services/RelevanciaService.cs:30-36 | the result is a permutation of the input, non-increasing in relevance, and keeps ties in input order |
| `FavoritosService.FirstIndexOfId` | GitHubSearchApp.Application/Services/FavoritosService.cs:59 | returns -1 exactly when no entry has the id; otherwise the position of the first entry with it |
| `FavoritosService.WithoutId` | GitHubSearchApp.Application/Services/FavoritosService.cs:59-62 | the `Remove` of the first match drops at most one entry, and drops one only when some entry has the id |
| `FavoritosService.WithoutIdAt` | GitHubSearchApp.Application/Services/FavoritosService.cs:59-62 | removing the first entry with the id leaves the entries before and after it, in order |
| `FavoritosService.WithoutAbsentId` | GitHubSearchApp.Application/Services/FavoritosService.cs:66-71 | removing an absent id changes nothing |
| `FavoritosService.WithoutIdIsFilter` | GitHubSearchApp.Application/Services/FavoritosService.cs:59-65 | with unique ids, removal equals keeping exactly the entries with another id, in order |
| `FavoritosService.OtherIdsShape` | GitHubSearchApp.Application/Services/FavoritosService.cs:59-65 | keeping the entries with another id leaves no entry with the id, keeps only original entries, and keeps ids unique |
| `FavoritosService.WithoutIdKeepsUnique` | GitHubSearchApp.Application/Services/FavoritosService.cs:59-65 | removal keeps ids unique and leaves no entry with the removed id |
| `FavoritosService.AppendKeepsUnique` | GitHubSearchApp.Application/Services/FavoritosService.cs:40-45 | appending a repository with a new id keeps ids unique |
| `FavoritosService.AddThenRemoveRestores` | GitHubSearchApp.Application/Services/FavoritosService.cs:40-62 | adding a repository with a new id and then removing that id restores the previous list exactly |
| `FavoritosService.FavoritosService.constructor` | GitHubSearchApp.Application/Services/FavoritosService.cs:13-16 | a new store has no cache entry and satisfies the unique-id invariant |
| `FavoritosService.FavoritosService.ObterFavoritos` | GitHubSearchApp.Application/Services/FavoritosService.cs:25-34 | returns the cached list, or stores and returns an empty one when there is none; later calls return the same list |
| `FavoritosService.FavoritosService.ListarFavoritos` | GitHubSearchApp.Application/Services/FavoritosService.cs:18-23 | returns the current contents, creating the empty entry on first use |
| `FavoritosService.FavoritosService.AdicionarFavorito` | GitHubSearchApp.Application/Services/FavoritosService.cs:36-53 | succeeds exactly when the id is absent, and then appends the repository at the end; on a duplicate id it fails with the already-favorited error and leaves the list unchanged; ids stay unique |
| `FavoritosService.FavoritosService.RemoverFavorito` | GitHubSearchApp.Application/Services/FavoritosService.cs:55-72 | removes the first (with unique ids, the only) entry with the id, keeping the others in order; an absent id is a silent no-op; ids stay unique |
| `NetTypes.IsNullOrWhiteSpace` | GitHubSearchApp.Domain/Entities/Repository.cs:59-62 | `string.IsNullOrWhiteSpace`: null and the empty string count as blank |
| `NetTypes.BlankStrings` | GitHubSearchApp.Domain/Entities/Repository.cs:59-62 | null and "" are blank; a non-null string is blank exactly when `IsBlank` holds, i.e. every character is .NET white space; a string with an ASCII letter or digit anywhere is not blank |
| `GitHubRepository.IsSuccessStatusCode` | GitHubSearchApp.Infrastructure/Repositories/GitHubRepository.cs:48 | a status is a success exactly when it is in the 2xx class |
| `GitHubRepository.SearchItems` | GitHubSearchApp.Infrastructure/Repositories/GitHubRepository.cs:60 | a null payload or null `Items` gives no items; otherwise the payload's items |
| `GitHubRepository.UserItems` | GitHubSearchApp.Infrastructure/Repositories/GitHubRepository.cs:101 | a null payload gives no items; otherwise the payload's list |
| `GitHubRepository.ToData` | GitHubSearchApp.Infrastructure/Repositories/GitHubRepository.cs:65-72 | a kept item's constructor arguments: the item's id and three counts, and "" for a null description |
| `GitHubRepository.UsableItemsPassGuards` | GitHubSearchApp.Infrastructure/Repositories/GitHubRepository.cs:62-72 | the skip condition `Usable` keeps only items with a non-null, non-empty name and URL, and the state built from a kept item passes the constructor's guards, so the constructor never throws inside the loop |
| `GitHubRepository.Converted` | GitHubSearchApp.Infrastructure/Repositories/GitHubRepository.cs:58-75 | the filter-map yields at most as many repositories as items, and every one of them has a non-blank name and URL, so the constructor's guards never fire here |
| `GitHubRepository.ConvertedAppend` | GitHubSearchApp.Infrastructure/Repositories/GitHubRepository.cs:60-73 | converting a concatenation converts each part in turn, so the output keeps the input order |
| `GitHubRepository.ConvertedMembers` | GitHubSearchApp.Infrastructure/Repositories/GitHubRepository.cs:62-72 | every item with a non-blank name and URL appears in the output, mapped by `ToData`, and nothing else does |
| `GitHubRepository.ToRepositories` | GitHubSearchApp.Infrastructure/Repositories/GitHubRepository.cs:99-116 | the loop builds fresh, valid repositories whose states are exactly the filter-map of the items |
| `GitHubRepository.SearchAsync` | GitHubSearchApp.Infrastructure/Repositories/GitHubRepository.cs:40-76 | a null or blank query fails before any request; then a non-2xx status fails with that status; otherwise the result is the filter-map of the items, and a null body or null `Items` gives an empty list |
| `GitHubRepository.GetUserRepositoriesAsync` | GitHubSearchApp.Infrastructure/Repositories/GitHubRepository.cs:81-117 | the same guards for the user name and the status; otherwise the filter-map of the items, with a null list giving an empty result |
| `RepositorioService.BuscarRepositorios` | GitHubSearchApp.Application/Services/RepositorioService.cs:22-39 | a client exception is rethrown unchanged and no list is returned; otherwise the client's list comes back as a permutation, non-increasing in `Calcular` and stable on ties |
| `RepositorioService.UserListingKey` | GitHubSearchApp.Application/Services/RepositorioService.cs:93 | the inline key equals `RelevanceCalculator.Calcular` for every repository |
| `RepositorioService.ListarRepositoriosDoUsuario` | GitHubSearchApp.Application/Services/RepositorioService.cs:86-103 | produces exactly what search ranking produces for the same client outcome: errors rethrown, otherwise a permutation in stable descending order, and an empty list for an empty client list |
| `RepositorioService.RepositorioService.constructor` | GitHubSearchApp.Application/Services/RepositorioService.cs:16-20 | the service starts with its own favorites store, which has no cache entry yet |
| `RepositorioService.RepositorioService.AdicionarFavorito` | GitHubSearchApp.Application/Services/RepositorioService.cs:41-58 | appends when the id is new; on a duplicate it fails with the already-favorited error and leaves the store unchanged; ids stay unique |
| `RepositorioService.RepositorioService.RemoverFavorito` | GitHubSearchApp.Application/Services/RepositorioService.cs:60-77 | removes the entry with the id if there is one, and is otherwise a silent no-op; ids stay unique |
| `RepositorioService.RepositorioService.ListarFavoritos` | GitHubSearchApp.Application/Services/RepositorioService.cs:79-84 | returns the current contents of a store whose entry is created empty on first use |

## Left out

- The HTTP exchange is not modelled. This covers the `HttpClient` header setup in the
  `GitHubRepository` constructor, `GetAsync`, `ReadAsStringAsync` and `Uri.EscapeDataString`.
  The status code and the deserialised body are parameters instead.
- `JsonSerializer.Deserialize` is foreign library code. A malformed payload, which throws
  `JsonException`, is not modelled. Neither is a JSON `null` element inside the item array,
  which would throw `NullReferenceException` in the loop.
- Output is not modelled: `Console.WriteLine(json)` and every `FileLogger.Log`/`LogError`
  call are treated as no-ops.
- `Repository.ToString` is left out. It only formats text for debugging.
- RepositoryEntity.Repository.Create and the constructor take a non-null description. This
  follows the C# parameter's non-nullable annotation. A null passed anyway would be stored as
  it is. A null name or URL is modelled and is rejected.
- Concurrency is not modelled. The services are singletons that mutate an unsynchronised
  `List`; the model treats every operation as sequential, and `async` calls as synchronous.
- Memory-cache expiry and eviction are not modelled; they are unused. The cache is one
  optional slot.
- List aliasing is not modelled. `ListarFavoritos` returns the live list object. The model
  returns the current sequence value, so a caller mutating the store through that alias is
  not represented.
- The ordering functions return a new sequence, and Dafny sequences are values. So "the input
  list is not modified" holds by construction rather than being stated as a contract.
- RepositorioService.BuscarRepositorios and RepositorioService.ListarRepositoriosDoUsuario
  assume the client's list is never null. The client shown never returns null. The null case
  is not modelled: there `OrderByDescending` throws `ArgumentNullException`
  (RepositorioService.cs:29 and :93).
- Exception and log messages are not modelled, only the error kinds.
- `GitHubService`, the controllers, the DTOs and `Program.cs` are not modelled. They are
  forwarding, routing and wiring with no logic of the core.
