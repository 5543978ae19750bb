/** The domain entity `Repository` (GitHubSearchApp.Domain/Entities/Repository.cs). */
module RepositoryEntity {
  import opened NetTypes

  /** The observable state of a `Repository` object at one moment. */
  datatype RepoData = RepoData(
    id: int64,
    name: string,
    description: string,
    htmlUrl: string,
    stars: int32,
    forks: int32,
    watchers: int32)

  /** Which `ArgumentException` the constructor throws: the `paramName` it names. */
  datatype ArgumentError = BlankName | BlankHtmlUrl

  /** A public GitHub repository. `Id`, `Name` and `HtmlUrl` have private setters that only the
      constructor uses, so they are `const` here; `Update` assigns the other four. */
  class Repository {
    const id: int64
    const name: string
    const htmlUrl: string
    var description: string
    var stars: int32
    var forks: int32
    var watchers: int32

    /** The entity invariant: the two guarded fields are not blank. It reads no mutable
        field, so once established by the constructor it holds for the object's lifetime. */
    predicate Valid()
    {
      !IsBlank(name) && !IsBlank(htmlUrl)
    }

    function Data(): RepoData
      reads this
    {
      RepoData(id, name, description, htmlUrl, stars, forks, watchers)
    }

    /** The assignments that follow the two guards of the C# constructor; `Create` below
        performs the guards. */
    constructor (id: int64, name: string, description: string, htmlUrl: string,
                 stars: int32, forks: int32, watchers: int32)
      requires !IsBlank(name) && !IsBlank(htmlUrl)
      ensures Valid()
      ensures Data() == RepoData(id, name, description, htmlUrl, stars, forks, watchers)
    {
      this.id := id;
      this.name := name;
      this.description := description;
      this.htmlUrl := htmlUrl;
      this.stars := stars;
      this.forks := forks;
      this.watchers := watchers;
    }

    /** `new Repository(...)` with its guards: the name is checked first, then the URL, each
        rejected when null or white space; the three counts are taken as they are. */
    static method Create(id: int64, name: Option<string>, description: string,
                         htmlUrl: Option<string>, stars: int32, forks: int32, watchers: int32)
      returns (r: Result<Repository, ArgumentError>)
      ensures IsNullOrWhiteSpace(name) ==> r == Failure(BlankName)
      ensures !IsNullOrWhiteSpace(name) && IsNullOrWhiteSpace(htmlUrl) ==> r == Failure(BlankHtmlUrl)
      ensures r.Success? <==> !IsNullOrWhiteSpace(name) && !IsNullOrWhiteSpace(htmlUrl)
      ensures r.Success? ==> fresh(r.value) && r.value.Valid()
      ensures r.Success? ==>
        r.value.Data() == RepoData(id, name.value, description, htmlUrl.value, stars, forks, watchers)
    {
      if IsNullOrWhiteSpace(name) {
        return Failure(BlankName);
      }
      if IsNullOrWhiteSpace(htmlUrl) {
        return Failure(BlankHtmlUrl);
      }
      var repo := new Repository(id, name.value, description, htmlUrl.value, stars, forks, watchers);
      return Success(repo);
    }

    /** Replaces the metrics; a null description becomes the empty string. */
    method Update(description: Option<string>, stars: int32, forks: int32, watchers: int32)
      modifies this
      ensures Data() == old(Data()).(
        description := if description.Some? then description.value else "",
        stars := stars, forks := forks, watchers := watchers)
    {
      this.description := if description.Some? then description.value else "";
      this.stars := stars;
      this.forks := forks;
      this.watchers := watchers;
    }

    /** `IEquatable<Repository>.Equals`: identity by `Id` alone, so two equal repositories
        always hash alike. */
    predicate Equals(other: Repository?)
      ensures Equals(other) ==> other != null && GetHashCode() == other.GetHashCode()
      ensures other == this ==> Equals(other)
    {
      other != null && id == other.id
    }

    /** `Id.GetHashCode()`: a function of the id alone; an id that fits in an `int` hashes to
        itself when non-negative and to its bitwise complement when negative. */
    function GetHashCode(): (h: int32)
      ensures 0 <= id < TwoTo31 ==> h == id
      ensures -TwoTo31 <= id < 0 ==> h == -1 - id
    {
      Int64HashCode(id)
    }
  }

  /** `Int64.GetHashCode`: the low 32 bits of the value exclusive-or'ed with its high 32 bits,
      read as a signed `int`. On values that fit in an `int` the high half is all zeros or all
      ones, so the hash is the value itself or its bitwise complement. */
  function Int64HashCode(x: int64): (h: int32)
    ensures 0 <= x < TwoTo31 ==> h == x
    ensures -TwoTo31 <= x < 0 ==> h == -1 - x
  {
    var u := if x < 0 then x + TwoTo64 else x;
    var low, high := u % TwoTo32, u / TwoTo32;
    Pow2Of32();
    if 0 <= x < TwoTo31 then XorZero(low, 32); Wrap32(Xor(low, high, 32))
    else if -TwoTo31 <= x < 0 then XorOnes(low, 32); Wrap32(Xor(low, high, 32))
    else Wrap32(Xor(low, high, 32))
  }

  function Pow2(n: nat): (p: nat)
    ensures p >= 1
  {
    if n == 0 then 1 else 2 * Pow2(n - 1)
  }

  lemma {:induction false} Pow2Add(m: nat, n: nat)
    ensures Pow2(m + n) == Pow2(m) * Pow2(n)
  {
    if m > 0 {
      Pow2Add(m - 1, n);
    }
  }

  lemma Pow2Of32()
    ensures Pow2(32) == TwoTo32
  {
    assert Pow2(8) == 256;
    Pow2Add(8, 8);
    Pow2Add(16, 16);
  }

  /** Bitwise exclusive-or of the low `n` bits of `a` and `b`. */
  function Xor(a: nat, b: nat, n: nat): (r: nat)
    ensures r < Pow2(n)
  {
    if n == 0 then 0 else (a % 2 + b % 2) % 2 + 2 * Xor(a / 2, b / 2, n - 1)
  }

  /** Exclusive-or with zero leaves an `n`-bit value unchanged. */
  lemma {:induction false} XorZero(a: nat, n: nat)
    requires a < Pow2(n)
    ensures Xor(a, 0, n) == a
  {
    if n > 0 {
      XorZero(a / 2, n - 1);
    }
  }

  /** Exclusive-or with all ones complements an `n`-bit value. */
  lemma {:induction false} XorOnes(a: nat, n: nat)
    requires a < Pow2(n)
    ensures Xor(a, Pow2(n) - 1, n) == Pow2(n) - 1 - a
  {
    if n > 0 {
      XorOnes(a / 2, n - 1);
      assert (Pow2(n) - 1) % 2 == 1 && (Pow2(n) - 1) / 2 == Pow2(n - 1) - 1;
    }
  }

  /** `Equals` is an equivalence relation whatever the non-identity fields hold. */
  lemma EqualsIsEquivalence(a: Repository, b: Repository, c: Repository)
    ensures a.Equals(a)
    ensures a.Equals(b) <==> b.Equals(a)
    ensures a.Equals(b) && b.Equals(c) ==> a.Equals(c)
    ensures !a.Equals(null)
  {
  }

  /** Equal repositories have equal hash codes, as `GetHashCode` must agree with `Equals`. */
  lemma EqualsAgreesWithHash(a: Repository, b: Repository)
    requires a.Equals(b)
    ensures a.GetHashCode() == b.GetHashCode()
  {
  }

  /** The states of a list of repositories, element by element. */
  function Snapshots(s: seq<Repository>): (r: seq<RepoData>)
    reads set y | y in s
    ensures |r| == |s|
  {
    if s == [] then [] else [s[0].Data()] + Snapshots(s[1..])
  }

  /** Appending a repository appends its state. */
  lemma SnapshotsAppend(s: seq<Repository>, repo: Repository)
    ensures Snapshots(s + [repo]) == Snapshots(s) + [repo.Data()]
  {
    if s != [] {
      assert (s + [repo])[1..] == s[1..] + [repo];
      SnapshotsAppend(s[1..], repo);
    }
  }

  /** Element `i` of the states is the state of element `i`. */
  lemma {:induction false} SnapshotsAt(s: seq<Repository>, i: int)
    requires 0 <= i < |s|
    ensures Snapshots(s)[i] == s[i].Data()
  {
    if i > 0 {
      SnapshotsAt(s[1..], i - 1);
    }
  }
}
