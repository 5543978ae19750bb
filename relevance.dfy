/** The relevance score (GitHubSearchApp.Application/Utils/RelevanceCalculator.cs). C# `int`
    arithmetic is unchecked, so each operation wraps modulo 2^32 exactly as the runtime does. */
module RelevanceCalculator {
  import opened NetTypes
  import opened RepositoryEntity

  /** The mathematical value of `Stars * 2 + Forks + Watchers`. */
  function ExactScore(d: RepoData): int
  {
    2 * d.stars + d.forks + d.watchers
  }

  /** The exact score fits in an `int`, so no step of the C# expression overflows its result. */
  predicate NoOverflow(d: RepoData)
  {
    -TwoTo31 <= ExactScore(d) < TwoTo31
  }

  /** `RelevanceCalculator.Calcular`: `repo.Stars * 2 + repo.Forks + repo.Watchers`, each of the
      three operations wrapping in 32 bits. The result differs from the exact score by a multiple
      of 2^32, and equals it whenever it fits. */
  function Calcular(repo: Repository): (score: int32)
    reads repo
    ensures NoOverflow(repo.Data()) ==> score == 2 * repo.stars + repo.forks + repo.watchers
  {
    var doubled := Wrap32(repo.stars * 2);
    var withForks := Wrap32(doubled + repo.forks);
    Wrap32(withForks + repo.watchers)
  }

  /** In every case, overflowing or not, the score agrees with the exact value modulo 2^32. */
  lemma CalcularAgreesModulo(repo: Repository)
    ensures (Calcular(repo) - ExactScore(repo.Data())) % TwoTo32 == 0
  {
    var d := Calcular(repo) - ExactScore(repo.Data());
    assert d == -2 * TwoTo32 || d == -TwoTo32 || d == 0 || d == TwoTo32 || d == 2 * TwoTo32;
  }

  /** The score looks at the three counts only: id, name, description and URL play no part. */
  lemma ScoreDependsOnCountsOnly(a: Repository, b: Repository)
    requires a.stars == b.stars && a.forks == b.forks && a.watchers == b.watchers
    ensures Calcular(a) == Calcular(b)
  {
  }

  /** Without overflow, raising any count never lowers the score. */
  lemma ScoreMonotone(a: Repository, b: Repository)
    requires NoOverflow(a.Data()) && NoOverflow(b.Data())
    requires a.stars <= b.stars && a.forks <= b.forks && a.watchers <= b.watchers
    ensures Calcular(a) <= Calcular(b)
  {
  }

  /** Without overflow, one more star adds exactly two to the score. */
  lemma OneMoreStarAddsTwo(a: Repository, b: Repository)
    requires NoOverflow(a.Data()) && NoOverflow(b.Data())
    requires b.stars == a.stars + 1 && b.forks == a.forks && b.watchers == a.watchers
    ensures Calcular(b) == Calcular(a) + 2
  {
  }

  /** Non-negative counts whose exact score fits give a non-negative score. */
  lemma ScoreNonNegative(a: Repository)
    requires a.stars >= 0 && a.forks >= 0 && a.watchers >= 0
    requires NoOverflow(a.Data())
    ensures Calcular(a) >= 0
  {
  }

  /** The bound in the lemmas above is needed: `Stars * 2` overflows from 2^30 stars on, and
      such a repository scores lower than one with no stars at all. */
  lemma OverflowMakesScoreNegative(a: Repository)
    requires a.stars == 0x4000_0000 && a.forks == 0 && a.watchers == 0
    ensures Calcular(a) == -TwoTo31
  {
  }
}
