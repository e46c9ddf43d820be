# gitpagehub listing core, in Dafny

gitpagehub is a one-page portfolio. Its script (`app.js`) fetches the
owner's public GitHub repositories and renders a card for each one that has
a published GitHub Pages site. This project models the deterministic core of
that script and proves what it promises:

- **Humanize** — `humanizeRepoName`: turns `-` and `_` into spaces, then
  upper-cases every character at which the regular expression `\b\w`
  matches.
- **TimeAgo** — `timeAgo`: puts an elapsed time in whole seconds into flat
  units (a 365-day year, a 30-day month, a week, a day, an hour, a minute).
  The source's loop over the unit table is kept as a method. It is proved
  equal to a functional specification.
- **Repos** — the repository record, `getPagesUrl`, and the fields that
  `createCard` derives from a record: link, title, brand colours,
  description or placeholder, language badge and colour, and the
  "Updated …" line.
- **Ranking** — the filter of `loadProjects`, the comparator's three tiers
  (PRIORITY position, the `featured` topic, then the most recent update
  first), and the listing those produce.
- **Sorting** — the sort that `loadProjects` performs in place, as an
  insertion sort on an array. It is generic in the comparator and proved to
  be a stable, sorted permutation.
- **Loader** — `loadProjects` once its fetch has settled. The grid is a
  class whose children are a sequence. It is cleared, then given either a
  placeholder message or one appended card per ranked record.
- **Wrappers** — an `Option` type for the record fields that may be absent.

Timestamps are integer milliseconds. The clock reading is a parameter
(`nowMs`). The fetch result is the datatype `Fetch`: either a failure or the
parsed list of records.

## Model

| member | source | states |
|---|---|---|
| Humanize.Upper | app.js:17 | `toUpperCase` on a `\w` character changes only `a`..`z`, each to the capital at the same alphabet position; the result is a word character, a letter or digit, or a separator exactly when the input is |
| Humanize.SeparatorsToSpaces | app.js:16 | same length; every `-` and `_` becomes a space and every other character is kept |
| Humanize.UpcaseWordStarts | app.js:17 | same length; a character is upper-cased exactly where `\b\w` matches (a word character not preceded by one) and every other character is kept |
| Humanize.HumanizeRepoName | app.js:14-18 | same length as the name; separators become spaces; a letter or digit that starts the name or follows a non-alphanumeric character is upper-cased; every other character is unchanged; no `-` or `_` remains |
| Humanize.HumanizeIdempotent | app.js:14-18 | humanizing a title again leaves it unchanged |
| Humanize.HumanizeWord | app.js:14-18 | a name of letters and digits only comes out with just its first character capitalized |
| Humanize.HumanizeAfterWord | app.js:14-18 | a leading alphanumeric word and the separator after it become the capitalized word and a space, and the rest of the name humanizes as if it stood alone |
| Humanize.HumanizeThreeWords | app.js:14-18 | three alphanumeric words joined by hyphens or underscores become the three capitalized words separated by spaces |
| Humanize.HumanizeExample | app.js:14-18 | `fetch-quest_tracker` becomes `Fetch Quest Tracker` |
| TimeAgo.ElapsedSeconds | app.js:23 | the result is the floor of the millisecond difference divided by 1000 |
| TimeAgo.NatToString | app.js:37 | the count is printed as at least one decimal digit, with no leading zero |
| TimeAgo.DecimalRoundTrip | app.js:37 | the printed count reads back as the count |
| TimeAgo.DivisionReachesOne | app.js:35-36 | `Math.floor(seconds / size) >= 1` holds exactly when `seconds >= size` |
| TimeAgo.FirstFit | app.js:34-39 | the index found is the first unit whose size is at most the elapsed time, or the end of the table when no unit fits |
| TimeAgo.AgeOf | app.js:34-40 | every bucket other than "just now" names a unit of the table and a count of at least one |
| TimeAgo.TimeAgo | app.js:20-41 | the source's loop with its early return yields exactly the text of the functional specification |
| TimeAgo.JustNowIff | app.js:34-40 | the text is `just now` exactly when less than 60 s have passed, negative elapsed times included |
| TimeAgo.LargestUnitFits | app.js:25-39 | "just now" exactly below 60 s; otherwise the unit fits, no larger unit fits, and count × size ≤ elapsed < (count + 1) × size |
| TimeAgo.CountBelowNextUnit | app.js:25-39 | the count stays below the next unit up: at most 12 months, 4 weeks, 6 days, 23 hours or 59 minutes |
| TimeAgo.PluralIff | app.js:37 | the unit is plural (the text ends in `s ago`) exactly when the count exceeds one |
| TimeAgo.NinetySeconds | app.js:25-40 | 90 s reads `1 minute ago` |
| TimeAgo.OneHour | app.js:25-40 | 3600 s reads `1 hour ago` |
| TimeAgo.TwoHours | app.js:25-40 | 7200 s reads `2 hours ago` |
| TimeAgo.ThirtySeconds | app.js:25-40 | 30 s reads `just now` |
| Repos.LowerChar | app.js:44 | `toLowerCase` on one ASCII character: `A`..`Z` become the lower-case letter at the same alphabet position, every other character is kept |
| Repos.ToLower | app.js:44 | `toLowerCase` keeps the length, turns each ASCII capital into its own lower-case letter and keeps every other character |
| Repos.PagesUrl | app.js:43-48 | every URL starts with the site root and ends with `/`; the URL is the bare root exactly for the `lumikitten.github.io` repository; otherwise the repository name sits between the root and the final `/` |
| Repos.PagesUrlInjective | app.js:43-48 | two repositories with the same URL have the same name |
| Repos.SiteNames | app.js:44-45 | the owner `LumiKitten` gives the site repository `lumikitten.github.io` and the root `https://lumikitten.github.io/` |
| Repos.LanguageColor | app.js:58 | the colour is always a table entry: the language's own entry when it has one, otherwise the `default` colour, including when the language is missing |
| Repos.CardDerivation | app.js:56-92 | link is the pages URL; title is the humanized name; the brand background and border are present exactly for `mysite`, `fetchquesttracker` and `swedishprivacyaudit`; the description is shown exactly when it is non-empty, otherwise the placeholder; the badge is present exactly when the language is non-empty and carries its colour; the date line is `Updated ` plus the relative age |
| Repos.CardPlaceholders | app.js:79-87 | a record with neither description nor language gets the placeholder and no badge, and still gets a non-empty `Updated …` line |
| Ranking.SelectPublished | app.js:104 | the selection keeps exactly the records with `has_pages`, not `archived` and not named `gitpagehub`, each as often as in the input, as a subsequence of the input |
| Ranking.IndexOf | app.js:107-108 | `indexOf` returns -1 exactly when the name is absent, otherwise the position of its first occurrence |
| Ranking.CompareIsKeyOrder | app.js:105-124 | the comparator's sign is the lexicographic order of (PRIORITY position, not featured, minus the update time) |
| Ranking.CompareAntisymmetric | app.js:105-124 | swapping the arguments flips the sign, and ties are symmetric |
| Ranking.CompareTransitive | app.js:105-124 | "sorts no later than" is transitive |
| Ranking.CompareIsTotalPreorder | app.js:105-124 | the comparator is a consistent comparison: sign antisymmetric and transitive |
| Ranking.SortedTiers | app.js:110-123 | in a sorted listing every PRIORITY record precedes every other record; PRIORITY records follow list order; among the rest, featured records (a missing topic list counts as not featured) precede the others; within a tier the update times do not increase |
| Ranking.RankedListing | app.js:103-124 | the ranked listing is a permutation of the qualifying records, sorted by the comparator, with tied records in input order; it is empty exactly when no record qualifies |
| Ranking.RankedKeepsAll | app.js:103-124 | when every record qualifies, the listing is a rearrangement of the whole input |
| Ranking.ExampleVerdicts | app.js:105-124 | a featured record sorts after `mysite`, and a newer record that is not featured sorts after both |
| Ranking.RankingExample | app.js:103-124 | `mysite`, then a featured record, then a newer record that is not featured, whatever the arrival order |
| Sorting.InsertionSortPermutes | app.js:105 | the sort returns a permutation of its input |
| Sorting.InsertionSortSorted | app.js:105 | under a consistent comparator, the sort's output is sorted |
| Sorting.InsertionSortStable | app.js:105 | the elements that tie with any given element keep their input order (`Array.prototype.sort` is stable) |
| Sorting.ShiftGreater | app.js:105 | one pass shifts right, by one place, the elements of the sorted prefix that compare greater than the element being placed; it stops after an element that is not greater, or at the front; the rest of the array is left alone |
| Sorting.InsertLast | app.js:105 | the prefix `a[..i+1]` becomes the specification's insertion of `a[i]` into `a[..i]`, and the rest of the array is unchanged |
| Sorting.SortInPlace | app.js:105 | the array ends as the specification's insertion sort of its old contents |
| Loader.Grid.Clear | app.js:126 | `innerHTML = ''` leaves the grid without children |
| Loader.Grid.ShowMessage | app.js:129 | the message element replaces every child |
| Loader.Grid.Append | app.js:134 | `appendChild` adds one item at the end and keeps the others |
| Loader.CardsForAt | app.js:133-135 | the cards are one per record: item i is the card of the i-th record |
| Loader.Populate | app.js:133-135 | the `forEach` loop appends the rendering of each record, in order, after what the grid held |
| Loader.SortedListing | app.js:103-124 | the filtered and sorted array holds exactly the ranked listing |
| Loader.OutcomeCases | app.js:97-139 | the error state arises exactly from a failed fetch; a successful fetch ends empty exactly when no record qualifies |
| Loader.LoadProjects | app.js:94-141 | a failed fetch leaves only the error message; an empty listing leaves only `No projects found.`; otherwise the grid holds exactly one card per ranked record, in ranked order, with nothing from before |

## Left out

- The request to the GitHub API, `response.ok` and `response.json()` (app.js:98-101) are network I/O. Their result is the input `Fetch`: `Failed` or the parsed records.
- Reading the clock and parsing ISO-8601 dates (app.js:21-23, 123) are replaced by integer millisecond timestamps. `nowMs` is a parameter, and one reading serves every card, whereas the source reads the clock once per card.
- The card's markup, SVG, inline styles, CSS classes and the `target`/`rel`/`className` constants (app.js:61-65, 72-89) are not modelled. The card is the record of its derived fields. The source does no HTML escaping, so there is none to model.
- `makeFaviconRound` (app.js:143-171) is canvas drawing and image loading.
- The `DOMContentLoaded` wiring and the two concurrent tasks (app.js:173-176) are not modelled.
- `console.error` logging (app.js:138) is not modelled.
- An exception thrown after the grid was cleared cannot happen in the model. The source's `catch` would then replace partial contents with the error message. In the model, only a failed fetch leads to the error state.
- JavaScript quirks are not modelled:
  - lookups that hit the prototype chain in `LANGUAGE_COLORS[…]` and `REPO_BRAND_COLORS[…]` (for a language named `constructor`, say);
  - `NaN` from an unparseable `updated_at` in the comparator;
  - Unicode behaviour of `\b\w` and `toUpperCase`.

  Names are ASCII and records are well formed.
- Sorting.SortInPlace: `Array.prototype.sort` fixes no algorithm, only stability and consistency with the comparator. The model uses insertion sort. Its output is proved sorted, a permutation and stable. The model does not prove that every stable sort gives this same output.
- Humanize.HumanizeRepoName: `toUpperCase` is modelled on ASCII only, and `\w` is the ASCII class `[A-Za-z0-9_]`.
