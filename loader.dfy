/**
 * The page's loader (app.js `loadProjects`): one fetch outcome in, the
 * projects grid rewritten as the error message, the empty-state message,
 * or one card per ranked repository.
 */
module Loader {
  import opened Repos
  import Ranking
  import Sorting

  /**
   * What the request to the listing endpoint produced: a failure (network
   * error, a status that is not ok, an unreadable body) or the parsed list.
   */
  datatype Fetch = Failed | Fetched(records: seq<Repo>)

  /** A child of the grid: a card, or a placeholder message. */
  datatype GridItem = CardItem(card: Card) | Message(text: string)

  const EmptyMessage := "No projects found."

  const ErrorMessage := "Could not load projects. Please try again later."

  /** The three end states of a load. */
  datatype Outcome = LoadFailed | NoProjects | Populated

  /** The `projects-grid` element, as the list of its children in document order. */
  class Grid {
    var items: seq<GridItem>

    constructor ()
      ensures items == []
    {
      items := [];
    }

    /** `grid.innerHTML = ''`. */
    method Clear()
      modifies this
      ensures items == []
    {
      items := [];
    }

    /** `grid.innerHTML = '<div class="empty"><p>…</p></div>'`: the message replaces everything. */
    method ShowMessage(text: string)
      modifies this
      ensures items == [Message(text)]
    {
      items := [Message(text)];
    }

    /** `grid.appendChild(...)`. */
    method Append(item: GridItem)
      modifies this
      ensures items == old(items) + [item]
    {
      items := items + [item];
    }
  }

  /** The items `render` makes of `s`, in order. */
  function Rendered(s: seq<Repo>, render: Repo -> GridItem): (items: seq<GridItem>)
    ensures |items| == |s|
  {
    if s == [] then []
    else Rendered(s[..|s| - 1], render) + [render(s[|s| - 1])]
  }

  lemma RenderedSnoc(s: seq<Repo>, r: Repo, render: Repo -> GridItem)
    ensures Rendered(s + [r], render) == Rendered(s, render) + [render(r)]
  {
    assert (s + [r])[..|s|] == s;
  }

  /** Item i of the rendering is the rendering of the i-th record. */
  lemma {:induction false} RenderedAt(s: seq<Repo>, render: Repo -> GridItem, i: int)
    requires 0 <= i < |s|
    ensures Rendered(s, render)[i] == render(s[i])
  {
    if i < |s| - 1 {
      RenderedAt(s[..|s| - 1], render, i);
    }
  }

  /** `repo => createCard(repo)`, at clock reading `nowMs`. */
  function CardOf(nowMs: int): Repo -> GridItem
  {
    r => CardItem(CreateCard(r, nowMs))
  }

  /** One card per record, in order. */
  function CardsFor(ranked: seq<Repo>, nowMs: int): seq<GridItem>
  {
    Rendered(ranked, CardOf(nowMs))
  }

  /** Item i of the grid is the card of the i-th ranked record, and there are no others. */
  lemma CardsForAt(ranked: seq<Repo>, nowMs: int)
    ensures |CardsFor(ranked, nowMs)| == |ranked|
    ensures forall i :: 0 <= i < |ranked| ==> CardsFor(ranked, nowMs)[i] == CardItem(CreateCard(ranked[i], nowMs))
  {
    forall i | 0 <= i < |ranked|
      ensures CardsFor(ranked, nowMs)[i] == CardItem(CreateCard(ranked[i], nowMs))
    {
      RenderedAt(ranked, CardOf(nowMs), i);
    }
  }

  function OutcomeOf(fetched: Fetch): Outcome
  {
    if fetched.Failed? then LoadFailed
    else if Ranking.Ranked(fetched.records) == [] then NoProjects
    else Populated
  }

  /**
   * A failed fetch is the only way to the error state, and a successful one
   * ends empty exactly when no record qualifies.
   */
  lemma OutcomeCases(fetched: Fetch)
    ensures OutcomeOf(fetched) == LoadFailed <==> fetched.Failed?
    ensures OutcomeOf(fetched) == NoProjects <==>
      fetched.Fetched? && forall r :: r in fetched.records ==> !Ranking.Qualifies(r)
  {
    if fetched.Fetched? {
      Ranking.RankedListing(fetched.records);
    }
  }

  /** `pagesRepos.forEach(repo => grid.appendChild(render(repo)))`. */
  method Populate(grid: Grid, ranked: array<Repo>, render: Repo -> GridItem)
    modifies grid
    ensures grid.items == old(grid.items) + Rendered(ranked[..], render)
  {
    ghost var before := grid.items;
    var i := 0;
    while i < ranked.Length
      invariant 0 <= i <= ranked.Length
      invariant grid.items == before + Rendered(ranked[..i], render)
    {
      assert ranked[..i + 1] == ranked[..i] + [ranked[i]];
      RenderedSnoc(ranked[..i], ranked[i], render);
      grid.Append(render(ranked[i]));
      i := i + 1;
    }
    assert ranked[..ranked.Length] == ranked[..];
  }

  /** `repos.filter(...).sort(...)`: the listing in a fresh array, sorted in place. */
  method SortedListing(records: seq<Repo>) returns (ranked: array<Repo>)
    ensures fresh(ranked)
    ensures ranked[..] == Ranking.Ranked(records)
  {
    var selected := Ranking.SelectPublished(records);
    ranked := new Repo[|selected|](i requires 0 <= i < |selected| => selected[i]);
    assert ranked[..] == selected;
    Sorting.SortInPlace(ranked, Ranking.Compare);
  }

  /**
   * `loadProjects` once its fetch has settled, with `nowMs` the clock
   * reading used for the cards' ages.
   */
  method LoadProjects(grid: Grid, fetched: Fetch, nowMs: int) returns (outcome: Outcome)
    modifies grid
    ensures outcome == OutcomeOf(fetched)
    ensures outcome == LoadFailed ==> grid.items == [Message(ErrorMessage)]
    ensures outcome == NoProjects ==> grid.items == [Message(EmptyMessage)]
    ensures outcome == Populated ==> grid.items == CardsFor(Ranking.Ranked(fetched.records), nowMs)
  {
    if fetched.Failed? {
      grid.ShowMessage(ErrorMessage);
      return LoadFailed;
    }
    var ranked := SortedListing(fetched.records);
    grid.Clear();
    if ranked.Length == 0 {
      grid.ShowMessage(EmptyMessage);
      return NoProjects;
    }
    Populate(grid, ranked, CardOf(nowMs));
    return Populated;
  }
}
