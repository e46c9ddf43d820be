/**
 * Selection and ranking of the listing (app.js `loadProjects`, lines
 * 103-124): the filter on published, live repositories, the three-tier
 * comparator and the in-place sort that `Array.prototype.sort` performs.
 */
module Ranking {
  import opened Repos
  import Sorting

  /** Repositories that always come first, in this order. */
  const Priority: seq<string> := ["mysite", "fetchquesttracker", "swedishprivacyaudit"]

  /** The repository of this page itself, never shown. */
  const SelfName := "gitpagehub"

  predicate Qualifies(r: Repo) {
    r.hasPages && !r.archived && r.name != SelfName
  }

  /** a is b with some elements left out, the rest in the same order. */
  ghost predicate IsSubsequence(a: seq<Repo>, b: seq<Repo>)
    decreases |b|
  {
    a == [] || (b != [] && ((a[0] == b[0] && IsSubsequence(a[1..], b[1..])) || IsSubsequence(a, b[1..])))
  }

  /** `repos.filter(repo => repo.has_pages && !repo.archived && repo.name !== 'gitpagehub')`. */
  function SelectPublished(repos: seq<Repo>): (selected: seq<Repo>)
    ensures forall r :: r in selected ==> Qualifies(r)
    ensures forall r :: multiset(selected)[r] == if Qualifies(r) then multiset(repos)[r] else 0
    ensures IsSubsequence(selected, repos)
  {
    if repos == [] then []
    else
      assert repos == [repos[0]] + repos[1..];
      var rest := SelectPublished(repos[1..]);
      if Qualifies(repos[0]) then [repos[0]] + rest else rest
  }

  /** `Array.prototype.indexOf`: the first position of x, or -1. */
  function IndexOf(xs: seq<string>, x: string): (i: int)
    ensures -1 <= i < |xs|
    ensures i == -1 <==> x !in xs
    ensures 0 <= i ==> xs[i] == x && forall j :: 0 <= j < i ==> xs[j] != x
  {
    if xs == [] then -1
    else if xs[0] == x then 0
    else
      var k := IndexOf(xs[1..], x);
      if k == -1 then -1 else k + 1
  }

  predicate InPriority(r: Repo) {
    r.name in Priority
  }

  /** `a.topics?.includes('featured') || false`: a missing topic list is not featured. */
  predicate IsFeatured(r: Repo) {
    r.topics.Some? && "featured" in r.topics.value
  }

  /** The sort callback: negative puts a first, positive puts b first. */
  function Compare(a: Repo, b: Repo): int
  {
    var aIndex := IndexOf(Priority, a.name);
    var bIndex := IndexOf(Priority, b.name);
    if aIndex != -1 && bIndex != -1 then aIndex - bIndex
    else if aIndex != -1 then -1
    else if bIndex != -1 then 1
    else if IsFeatured(a) && !IsFeatured(b) then -1
    else if !IsFeatured(a) && IsFeatured(b) then 1
    else b.updatedAt - a.updatedAt
  }

  /**
   * An independent statement of the ranking: the priority position (every
   * other record after the whole list), then featured first, then the most
   * recent update first, compared lexicographically.
   */
  datatype RankKey = RankKey(tier: int, featured: int, recency: int)

  function Key(r: Repo): RankKey {
    var i := IndexOf(Priority, r.name);
    if i != -1 then RankKey(i, 0, 0)
    else RankKey(|Priority|, if IsFeatured(r) then 0 else 1, -r.updatedAt)
  }

  predicate KeyBefore(x: RankKey, y: RankKey) {
    || x.tier < y.tier
    || (x.tier == y.tier && x.featured < y.featured)
    || (x.tier == y.tier && x.featured == y.featured && x.recency < y.recency)
  }

  /** The comparator's sign is the lexicographic order of the keys. */
  lemma CompareIsKeyOrder(a: Repo, b: Repo)
    ensures Compare(a, b) < 0 <==> KeyBefore(Key(a), Key(b))
    ensures Compare(a, b) == 0 <==> Key(a) == Key(b)
    ensures Compare(a, b) > 0 <==> KeyBefore(Key(b), Key(a))
  {
  }

  /** Swapping the arguments flips the sign. */
  lemma CompareAntisymmetric(a: Repo, b: Repo)
    ensures Compare(a, b) < 0 <==> Compare(b, a) > 0
    ensures Compare(a, b) == 0 <==> Compare(b, a) == 0
  {
    CompareIsKeyOrder(a, b);
    CompareIsKeyOrder(b, a);
  }

  /** "Sorts no later than" is transitive, so with antisymmetry the comparator is a total preorder. */
  lemma CompareTransitive(a: Repo, b: Repo, c: Repo)
    requires Compare(a, b) <= 0 && Compare(b, c) <= 0
    ensures Compare(a, c) <= 0
  {
    CompareIsKeyOrder(a, b);
    CompareIsKeyOrder(b, c);
    CompareIsKeyOrder(a, c);
  }

  /** The comparator meets `Array.prototype.sort`'s requirement of a consistent comparison. */
  lemma CompareIsTotalPreorder()
    ensures Sorting.TotalPreorder(Compare)
  {
    forall a: Repo, b: Repo
      ensures Compare(a, b) < 0 <==> Compare(b, a) > 0
    {
      CompareAntisymmetric(a, b);
    }
    forall a: Repo, b: Repo, c: Repo | Compare(a, b) <= 0 && Compare(b, c) <= 0
      ensures Compare(a, c) <= 0
    {
      CompareTransitive(a, b, c);
    }
  }

  /**
   * What a sorted listing looks like: priority records first and in list
   * order, then featured before the rest, and within a tier the most
   * recently updated first.
   */
  lemma SortedTiers(r: seq<Repo>)
    requires Sorting.Sorted(r, Compare)
    ensures forall i, j :: 0 <= i < |r| && 0 <= j < |r| && InPriority(r[i]) && !InPriority(r[j]) ==> i < j
    ensures forall i, j :: 0 <= i < j < |r| && InPriority(r[i]) && InPriority(r[j]) ==>
      IndexOf(Priority, r[i].name) <= IndexOf(Priority, r[j].name)
    ensures forall i, j ::
      (0 <= i < |r| && 0 <= j < |r| && !InPriority(r[i]) && !InPriority(r[j])
       && IsFeatured(r[i]) && !IsFeatured(r[j])) ==> i < j
    ensures forall i, j ::
      (0 <= i < j < |r| && !InPriority(r[i]) && !InPriority(r[j])
       && IsFeatured(r[i]) == IsFeatured(r[j])) ==> r[i].updatedAt >= r[j].updatedAt
  {
  }

  /** The listing in the order the page shows it. */
  function Ranked(repos: seq<Repo>): seq<Repo>
  {
    Sorting.InsertionSort(SelectPublished(repos), Compare)
  }

  /**
   * The ranked listing holds each qualifying record as often as the input
   * does and nothing else, sorted by the comparator, with records the
   * comparator ties in their input order.
   */
  lemma RankedListing(repos: seq<Repo>)
    ensures forall r :: multiset(Ranked(repos))[r] == if Qualifies(r) then multiset(repos)[r] else 0
    ensures Sorting.Sorted(Ranked(repos), Compare)
    ensures forall e :: Sorting.Ties(Ranked(repos), e, Compare) == Sorting.Ties(SelectPublished(repos), e, Compare)
    ensures Ranked(repos) == [] <==> forall r :: r in repos ==> !Qualifies(r)
  {
    var selected := SelectPublished(repos);
    CompareIsTotalPreorder();
    Sorting.InsertionSortPermutes(selected, Compare);
    Sorting.InsertionSortSorted(selected, Compare);
    forall e
      ensures Sorting.Ties(Ranked(repos), e, Compare) == Sorting.Ties(selected, e, Compare)
    {
      Sorting.InsertionSortStable(selected, e, Compare);
    }
    if Ranked(repos) == [] {
      forall r | r in repos
        ensures !Qualifies(r)
      {
        assert multiset(Ranked(repos))[r] == 0;
      }
    } else {
      var r := Ranked(repos)[0];
      assert r in multiset(Ranked(repos));
    }
  }

  /** The comparator's verdicts on the three records of the example below. */
  lemma ExampleVerdicts(a: Repo, b: Repo, c: Repo)
    requires a.name == Priority[0]
    requires !InPriority(b) && IsFeatured(b)
    requires !InPriority(c) && !IsFeatured(c) && c.updatedAt > b.updatedAt
    ensures Compare(b, a) > 0 && Compare(c, b) > 0 && Compare(c, a) > 0
  {
    assert IndexOf(Priority, a.name) == 0;
  }

  /** When every record qualifies, the listing is a rearrangement of the input. */
  lemma RankedKeepsAll(repos: seq<Repo>)
    requires forall r :: r in repos ==> Qualifies(r)
    ensures multiset(Ranked(repos)) == multiset(repos)
  {
    RankedListing(repos);
    forall z
      ensures multiset(Ranked(repos))[z] == multiset(repos)[z]
    {
      if !Qualifies(z) {
        assert z !in repos;
      }
    }
  }

  /**
   * A priority record, a featured one and a more recently updated plain one
   * are shown in that order, whatever order they arrive in.
   */
  lemma RankingExample(repos: seq<Repo>, a: Repo, b: Repo, c: Repo)
    requires multiset(repos) == multiset{a, b, c}
    requires Qualifies(a) && Qualifies(b) && Qualifies(c)
    requires a.name == Priority[0]
    requires !InPriority(b) && IsFeatured(b)
    requires !InPriority(c) && !IsFeatured(c) && c.updatedAt > b.updatedAt
    ensures Ranked(repos) == [a, b, c]
  {
    forall r | r in repos
      ensures Qualifies(r)
    {
      assert r in multiset(repos);
    }
    RankedKeepsAll(repos);
    RankedListing(repos);
    CompareIsTotalPreorder();
    ExampleVerdicts(a, b, c);
    Sorting.SortedThree(Ranked(repos), a, b, c, Compare);
  }
}
