/** The ordering step shared by RelevanciaService.cs:33 and RepositorioService.cs:29 and :93:
    LINQ's `OrderByDescending(key).ToList()` with the relevance score as key. LINQ's ordering
    is stable, so repositories with equal scores keep their input order. The sort is given here
    as an insertion sort over a fresh sequence (the input is a value and cannot change), and is
    characterised by the two properties below: the output is non-increasing in score, and for
    every score the repositories with that score appear in the same order as in the input. */
module Ranking {
  import opened RepositoryEntity
  import opened RelevanceCalculator

  /** Non-increasing in relevance. */
  ghost predicate SortedDesc(s: seq<Repository>)
    reads s
  {
    forall i, j :: 0 <= i < j < |s| ==> Calcular(s[i]) >= Calcular(s[j])
  }

  /** The repositories of `s` whose score is `k`, in their order in `s`. */
  function WithScore(s: seq<Repository>, k: int): (r: seq<Repository>)
    reads s
  {
    if s == [] then []
    else if Calcular(s[0]) == k then [s[0]] + WithScore(s[1..], k)
    else WithScore(s[1..], k)
  }

  /** Stability: for every score, `t` lists the repositories of `s` with that score in the
      order `s` lists them. */
  ghost predicate SameTies(s: seq<Repository>, t: seq<Repository>)
    reads s, t
  {
    forall k :: WithScore(s, k) == WithScore(t, k)
  }

  /** `t` is what a stable descending sort of `s` by relevance produces. */
  ghost predicate IsStableDescendingSort(s: seq<Repository>, t: seq<Repository>)
    reads s, t
  {
    SortedDesc(t) && SameTies(s, t)
  }

  /** Puts `x` in front of the first element that does not score more than it. */
  function Insert(x: Repository, t: seq<Repository>): (r: seq<Repository>)
    reads x, set y | y in t
    ensures multiset(r) == multiset{x} + multiset(t)
  {
    if t == [] || Calcular(x) >= Calcular(t[0]) then [x] + t
    else
      assert t == [t[0]] + t[1..];
      [t[0]] + Insert(x, t[1..])
  }

  /** `OrderByDescending(Calcular).ToList()`: a permutation of its input. */
  function OrderByRelevance(s: seq<Repository>): (r: seq<Repository>)
    reads set y | y in s
    ensures multiset(r) == multiset(s)
  {
    if s == [] then []
    else
      var rest := OrderByRelevance(s[1..]);
      assert s == [s[0]] + s[1..];
      assert forall y :: y in rest ==> y in multiset(rest);
      Insert(s[0], rest)
  }

  // ---------------------------------------------------------------------------------------
  // Sortedness

  lemma {:induction false} ConsSorted(x: Repository, t: seq<Repository>)
    requires SortedDesc(t)
    requires forall y :: y in t ==> Calcular(x) >= Calcular(y)
    ensures SortedDesc([x] + t)
  {
    var s := [x] + t;
    forall i, j | 0 <= i < j < |s| ensures Calcular(s[i]) >= Calcular(s[j]) {
      if i > 0 {
        assert s[i] == t[i - 1] && s[j] == t[j - 1];
      } else {
        assert s[j] in t;
      }
    }
  }

  lemma {:induction false} InsertSorted(x: Repository, t: seq<Repository>)
    requires SortedDesc(t)
    ensures SortedDesc(Insert(x, t))
  {
    if t == [] || Calcular(x) >= Calcular(t[0]) {
      forall y | y in t ensures Calcular(x) >= Calcular(y) {
        var j :| 0 <= j < |t| && t[j] == y;
        if j > 0 { assert Calcular(t[0]) >= Calcular(t[j]); }
      }
      ConsSorted(x, t);
    } else {
      var tail := t[1..];
      assert SortedDesc(tail) by {
        forall i, j | 0 <= i < j < |tail| ensures Calcular(tail[i]) >= Calcular(tail[j]) {
          assert tail[i] == t[i + 1] && tail[j] == t[j + 1];
        }
      }
      InsertSorted(x, tail);
      var r := Insert(x, tail);
      forall y | y in r ensures Calcular(t[0]) >= Calcular(y) {
        assert y in multiset(r);
        if y != x {
          assert y in multiset(tail);
          var j :| 0 <= j < |tail| && tail[j] == y;
          assert t[j + 1] == y;
        }
      }
      ConsSorted(t[0], r);
    }
  }

  /** The ranked list is non-increasing in relevance. */
  lemma {:induction false} OrderByRelevanceSorted(s: seq<Repository>)
    ensures SortedDesc(OrderByRelevance(s))
  {
    if s != [] {
      OrderByRelevanceSorted(s[1..]);
      InsertSorted(s[0], OrderByRelevance(s[1..]));
    }
  }

  // ---------------------------------------------------------------------------------------
  // Stability

  /** Inserting `x` puts it ahead of every later repository with its score. */
  lemma {:induction false} InsertTies(x: Repository, t: seq<Repository>, k: int)
    ensures WithScore(Insert(x, t), k)
         == (if Calcular(x) == k then [x] else []) + WithScore(t, k)
  {
    if t == [] || Calcular(x) >= Calcular(t[0]) {
      assert ([x] + t)[1..] == t;
    } else {
      InsertTies(x, t[1..], k);
      assert ([t[0]] + Insert(x, t[1..]))[1..] == Insert(x, t[1..]);
      if Calcular(t[0]) == k {
        assert Calcular(x) != k;
      }
    }
  }

  /** Repositories with equal scores keep their input order. */
  lemma {:induction false} OrderByRelevanceStable(s: seq<Repository>)
    ensures SameTies(s, OrderByRelevance(s))
  {
    if s != [] {
      OrderByRelevanceStable(s[1..]);
      forall k ensures WithScore(s, k) == WithScore(OrderByRelevance(s), k) {
        InsertTies(s[0], OrderByRelevance(s[1..]), k);
      }
    }
  }

  // ---------------------------------------------------------------------------------------
  // The two properties determine the result

  lemma {:induction false} WithScoreWitness(s: seq<Repository>, k: int)
    requires WithScore(s, k) != []
    ensures exists j :: 0 <= j < |s| && Calcular(s[j]) == k
  {
    if Calcular(s[0]) != k {
      WithScoreWitness(s[1..], k);
      var j :| 0 <= j < |s[1..]| && Calcular(s[1..][j]) == k;
      assert s[j + 1] == s[1..][j];
    }
  }

  lemma {:induction false} SortedTail(s: seq<Repository>)
    requires SortedDesc(s) && s != []
    ensures SortedDesc(s[1..])
  {
    var t := s[1..];
    forall i, j | 0 <= i < j < |t| ensures Calcular(t[i]) >= Calcular(t[j]) {
      assert t[i] == s[i + 1] && t[j] == s[j + 1];
    }
  }

  /** The head of a sorted list carries its highest score, and a score that occurs in it is
      at most that. */
  lemma {:induction false} HeadScoreIsLargest(a: seq<Repository>, b: seq<Repository>)
    requires SortedDesc(a) && SortedDesc(b) && SameTies(a, b) && a != []
    ensures b != [] && Calcular(b[0]) >= Calcular(a[0])
  {
    var k := Calcular(a[0]);
    assert WithScore(a, k) != [];
    assert WithScore(b, k) != [];
    WithScoreWitness(b, k);
    var j :| 0 <= j < |b| && Calcular(b[j]) == k;
    if j > 0 { assert Calcular(b[0]) >= Calcular(b[j]); }
  }

  /** Any two stable descending sorts of the same list are equal. */
  lemma {:induction false} SortedTiesDetermine(a: seq<Repository>, b: seq<Repository>)
    requires SortedDesc(a) && SortedDesc(b) && SameTies(a, b)
    ensures a == b
    decreases |a|
  {
    if a == [] {
      if b != [] { HeadScoreIsLargest(b, a); }
    } else {
      HeadScoreIsLargest(a, b);
      HeadScoreIsLargest(b, a);
      var k := Calcular(a[0]);
      assert WithScore(a, k)[0] == a[0];
      assert WithScore(b, k)[0] == b[0];
      assert a[0] == b[0];
      forall k' ensures WithScore(a[1..], k') == WithScore(b[1..], k') {
        assert WithScore(a, k') == WithScore(b, k');
        if Calcular(a[0]) == k' {
          assert WithScore(a, k') == [a[0]] + WithScore(a[1..], k');
          assert WithScore(b, k') == [b[0]] + WithScore(b[1..], k');
          assert WithScore(a[1..], k') == WithScore(a, k')[1..];
        }
      }
      SortedTail(a);
      SortedTail(b);
      SortedTiesDetermine(a[1..], b[1..]);
      assert a == [a[0]] + a[1..] && b == [b[0]] + b[1..];
    }
  }

  /** `OrderByRelevance` is exactly a stable descending sort by relevance: it is one, and no
      other list is. */
  lemma OrderByRelevanceCharacterised(s: seq<Repository>, t: seq<Repository>)
    ensures IsStableDescendingSort(s, t) <==> t == OrderByRelevance(s)
  {
    OrderByRelevanceSorted(s);
    OrderByRelevanceStable(s);
    if IsStableDescendingSort(s, t) {
      SortedTiesDetermine(t, OrderByRelevance(s));
    }
  }

  /** Ranking an already ranked list gives it back unchanged; in particular ranking is
      idempotent. */
  lemma OrderByRelevanceOfSorted(s: seq<Repository>)
    requires SortedDesc(s)
    ensures OrderByRelevance(s) == s
  {
    OrderByRelevanceCharacterised(s, s);
  }

  lemma OrderByRelevanceIdempotent(s: seq<Repository>)
    ensures OrderByRelevance(OrderByRelevance(s)) == OrderByRelevance(s)
  {
    OrderByRelevanceSorted(s);
    OrderByRelevanceOfSorted(OrderByRelevance(s));
  }

  lemma InsertStep(x: Repository, t: seq<Repository>)
    ensures t == [] ==> Insert(x, t) == [x]
    ensures t != [] && Calcular(x) < Calcular(t[0]) ==> Insert(x, t) == [t[0]] + Insert(x, t[1..])
  {
  }

  /** Repositories listed in increasing score come back reversed; for instance scores 27, 30
      and 42 (ids 1, 2, 3) rank as ids 3, 2, 1. */
  lemma RankingExample(a: Repository, b: Repository, c: Repository)
    requires Calcular(a) < Calcular(b) < Calcular(c)
    ensures OrderByRelevance([a, b, c]) == [c, b, a]
  {
    assert [a, b, c][1..] == [b, c] && [b, c][1..] == [c] && [c][1..] == [];
    assert [c, b][1..] == [b] && [b][1..] == [];
    InsertStep(c, []);
    InsertStep(b, []);
    InsertStep(b, [c]);
    InsertStep(a, []);
    InsertStep(a, [b]);
    InsertStep(a, [c, b]);
    var one := OrderByRelevance([c]);
    assert one == Insert(c, OrderByRelevance([])) == [c];
    var two := OrderByRelevance([b, c]);
    assert two == Insert(b, one) == [c, b];
    assert OrderByRelevance([a, b, c]) == Insert(a, two);
  }
}
