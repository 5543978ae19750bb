/** The favorites store (GitHubSearchApp.Application/Services/FavoritosService.cs): one
    `List<Repository>` kept in the memory cache under the key "favoritos", created empty on first
    use, appended to by `AdicionarFavorito` and shrunk by `RemoverFavorito`. */
module FavoritosService {
  import opened NetTypes
  import opened RepositoryEntity

  /** The `InvalidOperationException` thrown for a repository that is already a favorite. */
  datatype FavoritesError = AlreadyFavorited

  predicate ContainsId(s: seq<Repository>, id: int64)
  {
    exists i :: 0 <= i < |s| && s[i].id == id
  }

  /** No two entries share an id. */
  predicate UniqueIds(s: seq<Repository>)
  {
    forall i, j :: 0 <= i < j < |s| ==> s[i].id != s[j].id
  }

  /** `FirstOrDefault(f => f.Id == id)` (and `Any` with the same condition): the position of
      the first entry with the id, or -1 when there is none. */
  method FirstIndexOfId(s: seq<Repository>, id: int64) returns (i: int)
    ensures -1 <= i < |s|
    ensures i == -1 <==> !ContainsId(s, id)
    ensures 0 <= i ==> s[i].id == id && forall j :: 0 <= j < i ==> s[j].id != id
  {
    i := 0;
    while i < |s|
      invariant 0 <= i <= |s|
      invariant forall j :: 0 <= j < i ==> s[j].id != id
    {
      if s[i].id == id {
        return;
      }
      i := i + 1;
    }
    i := -1;
  }

  /** The list after `favoritos.Remove(repo)` where `repo` is the first entry with the id.
      `List.Remove` looks for the first element `Equals` to `repo`, and `Equals` compares ids,
      so it removes exactly that entry. */
  function WithoutId(s: seq<Repository>, id: int64): (r: seq<Repository>)
    ensures |s| - 1 <= |r| <= |s|
    ensures |r| < |s| ==> ContainsId(s, id)
  {
    if s == [] then []
    else if s[0].id == id then s[1..]
    else [s[0]] + WithoutId(s[1..], id)
  }

  /** The entries whose id differs from `id`, in order: the reference for removal. */
  function OtherIds(s: seq<Repository>, id: int64): (r: seq<Repository>)
  {
    if s == [] then []
    else if s[0].id == id then OtherIds(s[1..], id)
    else [s[0]] + OtherIds(s[1..], id)
  }

  lemma {:induction false} WithoutIdAt(s: seq<Repository>, id: int64, i: int)
    requires 0 <= i < |s| && s[i].id == id
    requires forall j :: 0 <= j < i ==> s[j].id != id
    ensures WithoutId(s, id) == s[..i] + s[i + 1..]
  {
    if i == 0 {
      assert s[..0] + s[1..] == s[1..];
    } else {
      assert s[0].id != id;
      assert WithoutId(s, id) == [s[0]] + WithoutId(s[1..], id);
      WithoutIdAt(s[1..], id, i - 1);
      assert s[1..][..i - 1] == s[1..i] && s[1..][i..] == s[i + 1..];
      assert s[..i] == [s[0]] + s[1..i];
    }
  }

  /** Removing an id that is absent changes nothing. */
  lemma {:induction false} WithoutAbsentId(s: seq<Repository>, id: int64)
    requires !ContainsId(s, id)
    ensures WithoutId(s, id) == s
  {
    if s != [] {
      assert !ContainsId(s[1..], id) by {
        forall j | 0 <= j < |s[1..]| ensures s[1..][j].id != id {
          assert s[1..][j] == s[j + 1];
        }
      }
      WithoutAbsentId(s[1..], id);
      assert s == [s[0]] + s[1..];
    }
  }

  lemma {:induction false} UniqueTail(s: seq<Repository>)
    requires UniqueIds(s) && s != []
    ensures UniqueIds(s[1..]) && !ContainsId(s[1..], s[0].id)
  {
    forall i, j | 0 <= i < j < |s[1..]| ensures s[1..][i].id != s[1..][j].id {
      assert s[1..][i] == s[i + 1] && s[1..][j] == s[j + 1];
    }
    forall j | 0 <= j < |s[1..]| ensures s[1..][j].id != s[0].id {
      assert s[1..][j] == s[j + 1];
    }
  }

  /** With unique ids, removal deletes exactly the entries with that id and keeps the others
      in order. */
  lemma {:induction false} WithoutIdIsFilter(s: seq<Repository>, id: int64)
    requires UniqueIds(s)
    ensures WithoutId(s, id) == OtherIds(s, id)
  {
    if s != [] {
      UniqueTail(s);
      WithoutIdIsFilter(s[1..], id);
      if s[0].id == id {
        WithoutAbsentId(s[1..], id);
        OtherIdsOfAbsent(s[1..], id);
      }
    }
  }

  lemma {:induction false} OtherIdsOfAbsent(s: seq<Repository>, id: int64)
    requires !ContainsId(s, id)
    ensures OtherIds(s, id) == s
  {
    if s != [] {
      assert !ContainsId(s[1..], id) by {
        forall j | 0 <= j < |s[1..]| ensures s[1..][j].id != id {
          assert s[1..][j] == s[j + 1];
        }
      }
      OtherIdsOfAbsent(s[1..], id);
      assert s == [s[0]] + s[1..];
    }
  }

  lemma {:induction false} OtherIdsShape(s: seq<Repository>, id: int64)
    ensures !ContainsId(OtherIds(s, id), id)
    ensures forall y :: y in OtherIds(s, id) ==> y in s
    ensures UniqueIds(s) ==> UniqueIds(OtherIds(s, id))
  {
    if s != [] {
      OtherIdsShape(s[1..], id);
      var r := OtherIds(s, id);
      if UniqueIds(s) {
        UniqueTail(s);
        if s[0].id != id {
          forall i, j | 0 <= i < j < |r| ensures r[i].id != r[j].id {
            if i == 0 {
              assert r[j] in OtherIds(s[1..], id);
              var k :| 0 <= k < |s[1..]| && s[1..][k] == r[j];
            } else {
              assert r[i] == OtherIds(s[1..], id)[i - 1];
              assert r[j] == OtherIds(s[1..], id)[j - 1];
            }
          }
        }
      }
      if s[0].id != id {
        forall j | 0 <= j < |r| ensures r[j].id != id {
          if j > 0 { assert r[j] == OtherIds(s[1..], id)[j - 1]; }
        }
      }
    }
  }

  /** Removal keeps ids unique and leaves no entry with the removed id. */
  lemma WithoutIdKeepsUnique(s: seq<Repository>, id: int64)
    requires UniqueIds(s)
    ensures UniqueIds(WithoutId(s, id)) && !ContainsId(WithoutId(s, id), id)
  {
    WithoutIdIsFilter(s, id);
    OtherIdsShape(s, id);
  }

  /** Appending a repository whose id is absent keeps ids unique. */
  lemma AppendKeepsUnique(s: seq<Repository>, repo: Repository)
    requires UniqueIds(s) && !ContainsId(s, repo.id)
    ensures UniqueIds(s + [repo])
  {
    var t := s + [repo];
    forall i, j | 0 <= i < j < |t| ensures t[i].id != t[j].id {
      if j == |s| {
        assert t[i] == s[i];
      }
    }
  }

  /** Adding a repository whose id is new and then removing that id restores the list. */
  lemma {:induction false} AddThenRemoveRestores(s: seq<Repository>, repo: Repository)
    requires !ContainsId(s, repo.id)
    ensures WithoutId(s + [repo], repo.id) == s
  {
    var t := s + [repo];
    if s == [] {
      assert t == [repo] && t[1..] == [];
    } else {
      assert t[0] == s[0] && s[0].id != repo.id;
      assert !ContainsId(s[1..], repo.id) by {
        forall j | 0 <= j < |s[1..]| ensures s[1..][j].id != repo.id {
          assert s[1..][j] == s[j + 1];
        }
      }
      assert t[1..] == s[1..] + [repo];
      assert WithoutId(t, repo.id) == [s[0]] + WithoutId(s[1..] + [repo], repo.id);
      AddThenRemoveRestores(s[1..], repo);
      assert s == [s[0]] + s[1..];
    }
  }

  class FavoritosService {
    /** The cache entry under "favoritos": absent until first use. */
    var cache: Option<seq<Repository>>

    /** What the store holds now; an absent entry reads as the empty list. */
    function Favorites(): seq<Repository>
      reads this
    {
      if cache.Some? then cache.value else []
    }

    ghost predicate Valid()
      reads this
    {
      UniqueIds(Favorites())
    }

    constructor ()
      ensures Valid() && cache == None
    {
      cache := None;
    }

    /** Returns the cached list, storing an empty one first when the entry is absent. */
    method ObterFavoritos() returns (favoritos: seq<Repository>)
      requires Valid()
      modifies this
      ensures Valid()
      ensures favoritos == old(Favorites()) && cache == Some(favoritos)
    {
      if cache.None? {
        cache := Some([]);
      }
      favoritos := cache.value;
    }

    method ListarFavoritos() returns (favoritos: seq<Repository>)
      requires Valid()
      modifies this
      ensures Valid()
      ensures favoritos == old(Favorites()) && cache == Some(favoritos)
    {
      favoritos := ObterFavoritos();
    }

    /** Appends `repo` when no favorite has its id; otherwise fails and keeps the list. */
    method AdicionarFavorito(repo: Repository) returns (outcome: Outcome<FavoritesError>)
      requires Valid()
      modifies this
      ensures Valid()
      ensures outcome.Pass? <==> !ContainsId(old(Favorites()), repo.id)
      ensures outcome.Pass? ==> cache == Some(old(Favorites()) + [repo])
      ensures outcome.Fail? ==> outcome == Fail(AlreadyFavorited) && cache == Some(old(Favorites()))
    {
      var favoritos := ObterFavoritos();
      var i := FirstIndexOfId(favoritos, repo.id);
      if i == -1 {
        AppendKeepsUnique(favoritos, repo);
        cache := Some(favoritos + [repo]);
        outcome := Pass;
      } else {
        outcome := Fail(AlreadyFavorited);
      }
    }

    /** Removes the entry with `repoId` if there is one; an absent id is not an error. */
    method RemoverFavorito(repoId: int64)
      requires Valid()
      modifies this
      ensures Valid()
      ensures cache == Some(WithoutId(old(Favorites()), repoId))
      ensures !ContainsId(Favorites(), repoId)
      ensures !ContainsId(old(Favorites()), repoId) ==> Favorites() == old(Favorites())
    {
      var favoritos := ObterFavoritos();
      var i := FirstIndexOfId(favoritos, repoId);
      WithoutIdKeepsUnique(favoritos, repoId);
      if i != -1 {
        WithoutIdAt(favoritos, repoId, i);
        cache := Some(favoritos[..i] + favoritos[i + 1..]);
      } else {
        WithoutAbsentId(favoritos, repoId);
      }
    }
  }
}
