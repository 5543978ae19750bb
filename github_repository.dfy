/** The GitHub client (GitHubSearchApp.Infrastructure/Repositories/GitHubRepository.cs) after the
    HTTP exchange: the argument guard, the status check, and the loop that turns deserialised
    items into `Repository` objects. The request, the response status and the deserialised body
    are inputs here. */
module GitHubRepository {
  import opened NetTypes
  import opened RepositoryEntity

  /** One element of the JSON payload; the three strings may be JSON null. */
  datatype GitHubRepoItem = GitHubRepoItem(
    id: int64,
    name: Option<string>,
    html_url: Option<string>,
    description: Option<string>,
    stargazers_count: int32,
    forks_count: int32,
    watchers_count: int32)

  /** The search endpoint's payload; `Items` may be null. */
  datatype GitHubSearchResult = GitHubSearchResult(items: Option<seq<GitHubRepoItem>>)

  /** What came back from `GetAsync`: the status code and the deserialised body, which is null
      when the JSON text is `null`. */
  datatype HttpResponse<+T> = HttpResponse(statusCode: int, body: Option<T>)

  /** `ArgumentException` for a blank query or user name, `HttpRequestException` for a
      status outside 2xx. */
  datatype ClientError = BlankArgument | HttpError(statusCode: int)

  /** `HttpResponseMessage.IsSuccessStatusCode`. */
  predicate IsSuccessStatusCode(statusCode: int)
    ensures IsSuccessStatusCode(statusCode) <==> statusCode / 100 == 2
  {
    200 <= statusCode <= 299
  }

  /** An item the loop keeps: neither name nor URL is null or white space. */
  predicate Usable(item: GitHubRepoItem)
  {
    !IsNullOrWhiteSpace(item.name) && !IsNullOrWhiteSpace(item.html_url)
  }

  /** The arguments the loop passes to the `Repository` constructor for a kept item. */
  function ToData(item: GitHubRepoItem): (d: RepoData)
    requires Usable(item)
    ensures item.description.None? ==> d.description == ""
    ensures d.stars == item.stargazers_count && d.forks == item.forks_count
    ensures d.watchers == item.watchers_count && d.id == item.id
  {
    RepoData(item.id, item.name.value,
             if item.description.Some? then item.description.value else "",
             item.html_url.value, item.stargazers_count, item.forks_count, item.watchers_count)
  }

  /** A kept item has a non-empty name and URL, and its state passes the constructor's
      guards. */
  lemma UsableItemsPassGuards(item: GitHubRepoItem)
    requires Usable(item)
    ensures item.name.Some? && |item.name.value| > 0
    ensures item.html_url.Some? && |item.html_url.value| > 0
    ensures !IsBlank(ToData(item).name) && !IsBlank(ToData(item).htmlUrl)
  {
  }

  /** The filter-map the loop performs: skip unusable items, map the others, keep the order.
      Every repository it produces passes the constructor's guards. */
  function Converted(items: seq<GitHubRepoItem>): (r: seq<RepoData>)
    ensures |r| <= |items|
    ensures forall d :: d in r ==> !IsBlank(d.name) && !IsBlank(d.htmlUrl)
  {
    if items == [] then []
    else (if Usable(items[0]) then [ToData(items[0])] else []) + Converted(items[1..])
  }

  /** Converting a concatenation converts each part in turn: the output keeps the input
      order. */
  lemma {:induction false} ConvertedAppend(a: seq<GitHubRepoItem>, b: seq<GitHubRepoItem>)
    ensures Converted(a + b) == Converted(a) + Converted(b)
  {
    if a == [] {
      assert a + b == b;
    } else {
      var head := if Usable(a[0]) then [ToData(a[0])] else [];
      calc {
        Converted(a + b);
        { assert (a + b)[0] == a[0] && (a + b)[1..] == a[1..] + b; }
        head + Converted(a[1..] + b);
        { ConvertedAppend(a[1..], b); }
        head + (Converted(a[1..]) + Converted(b));
        (head + Converted(a[1..])) + Converted(b);
        Converted(a) + Converted(b);
      }
    }
  }

  /** Exactly the usable items appear in the output, each mapped by `ToData`. */
  lemma {:induction false} ConvertedMembers(items: seq<GitHubRepoItem>)
    ensures forall i :: 0 <= i < |items| && Usable(items[i]) ==> ToData(items[i]) in Converted(items)
    ensures forall d :: d in Converted(items) ==>
      exists i :: 0 <= i < |items| && Usable(items[i]) && d == ToData(items[i])
  {
    if items != [] {
      ConvertedMembers(items[1..]);
      forall i | 0 <= i < |items| && Usable(items[i])
        ensures ToData(items[i]) in Converted(items)
      {
        if i > 0 { assert items[i] == items[1..][i - 1]; }
      }
      forall d | d in Converted(items)
        ensures exists i :: 0 <= i < |items| && Usable(items[i]) && d == ToData(items[i])
      {
        if Usable(items[0]) && d == ToData(items[0]) {
        } else {
          assert d in Converted(items[1..]);
          var i :| 0 <= i < |items[1..]| && Usable(items[1..][i]) && d == ToData(items[1..][i]);
          assert items[i + 1] == items[1..][i];
        }
      }
    }
  }

  /** One more item extends the conversion of a prefix by that item's conversion. */
  lemma ConvertedStep(items: seq<GitHubRepoItem>, i: int)
    requires 0 <= i < |items|
    ensures Converted(items[..i + 1])
         == Converted(items[..i]) + (if Usable(items[i]) then [ToData(items[i])] else [])
  {
    assert items[..i + 1] == items[..i] + [items[i]];
    ConvertedAppend(items[..i], [items[i]]);
    assert [items[i]][1..] == [];
  }

  /** The `new Repository(...)` call in the loop, with a null description passed as "". */
  method NewRepository(item: GitHubRepoItem) returns (repo: Repository)
    requires Usable(item)
    ensures fresh(repo) && repo.Data() == ToData(item)
  {
    repo := new Repository(item.id, item.name.value,
                           if item.description.Some? then item.description.value else "",
                           item.html_url.value, item.stargazers_count, item.forks_count,
                           item.watchers_count);
  }

  /** The `foreach` loop of both operations: a fresh `Repository` per usable item, in order. */
  method ToRepositories(items: seq<GitHubRepoItem>) returns (list: seq<Repository>)
    ensures Snapshots(list) == Converted(items)
    ensures forall r :: r in list ==> fresh(r) && r.Valid()
  {
    list := [];
    for i := 0 to |items|
      invariant Snapshots(list) == Converted(items[..i])
      invariant forall r :: r in list ==> fresh(r)
    {
      var item := items[i];
      ghost var before := Snapshots(list);
      ConvertedStep(items, i);
      if !Usable(item) {
        continue;
      }
      var repo := NewRepository(item);
      assert Snapshots(list) == before;
      SnapshotsAppend(list, repo);
      list := list + [repo];
    }
    assert items[..|items|] == items;
    ConvertedAreValid(list, items);
  }

  /** Repositories whose states are a conversion all pass the constructor's guards. */
  lemma ConvertedAreValid(list: seq<Repository>, items: seq<GitHubRepoItem>)
    requires Snapshots(list) == Converted(items)
    ensures forall r :: r in list ==> r.Valid()
  {
    forall r | r in list
      ensures r.Valid()
    {
      var j :| 0 <= j < |list| && list[j] == r;
      SnapshotsAt(list, j);
      assert Snapshots(list)[j] in Converted(items);
    }
  }

  /** `searchResult?.Items ?? new List<GitHubRepoItem>()`. */
  function SearchItems(body: Option<GitHubSearchResult>): (items: seq<GitHubRepoItem>)
    ensures body.None? || body.value.items.None? ==> items == []
    ensures body.Some? && body.value.items.Some? ==> items == body.value.items.value
  {
    if body.Some? && body.value.items.Some? then body.value.items.value else []
  }

  /** `repoItems ?? new List<GitHubRepoItem>()`. */
  function UserItems(body: Option<seq<GitHubRepoItem>>): (items: seq<GitHubRepoItem>)
    ensures body.None? ==> items == []
    ensures body.Some? ==> items == body.value
  {
    if body.Some? then body.value else []
  }

  /** `SearchAsync`: the query is checked before any request, then the status, then the items
      are converted. */
  method SearchAsync(query: Option<string>, response: HttpResponse<GitHubSearchResult>)
    returns (result: Result<seq<Repository>, ClientError>)
    ensures IsNullOrWhiteSpace(query) ==> result == Failure(BlankArgument)
    ensures !IsNullOrWhiteSpace(query) && !IsSuccessStatusCode(response.statusCode) ==>
      result == Failure(HttpError(response.statusCode))
    ensures result.Success? <==> !IsNullOrWhiteSpace(query) && IsSuccessStatusCode(response.statusCode)
    ensures result.Success? ==> Snapshots(result.value) == Converted(SearchItems(response.body))
    ensures result.Success? ==> forall r :: r in result.value ==> fresh(r) && r.Valid()
    ensures result.Success? && SearchItems(response.body) == [] ==> result.value == []
  {
    if IsNullOrWhiteSpace(query) {
      return Failure(BlankArgument);
    }
    if !IsSuccessStatusCode(response.statusCode) {
      return Failure(HttpError(response.statusCode));
    }
    var list := ToRepositories(SearchItems(response.body));
    return Success(list);
  }

  /** `GetUserRepositoriesAsync`: the same shape over the user-listing payload. */
  method GetUserRepositoriesAsync(username: Option<string>,
                                  response: HttpResponse<seq<GitHubRepoItem>>)
    returns (result: Result<seq<Repository>, ClientError>)
    ensures IsNullOrWhiteSpace(username) ==> result == Failure(BlankArgument)
    ensures !IsNullOrWhiteSpace(username) && !IsSuccessStatusCode(response.statusCode) ==>
      result == Failure(HttpError(response.statusCode))
    ensures result.Success? <==> !IsNullOrWhiteSpace(username) && IsSuccessStatusCode(response.statusCode)
    ensures result.Success? ==> Snapshots(result.value) == Converted(UserItems(response.body))
    ensures result.Success? ==> forall r :: r in result.value ==> fresh(r) && r.Valid()
    ensures result.Success? && UserItems(response.body) == [] ==> result.value == []
  {
    if IsNullOrWhiteSpace(username) {
      return Failure(BlankArgument);
    }
    if !IsSuccessStatusCode(response.statusCode) {
      return Failure(HttpError(response.statusCode));
    }
    var list := ToRepositories(UserItems(response.body));
    return Success(list);
  }
}
