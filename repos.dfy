/**
 * Repository records as the listing API supplies them, the published-site
 * URL of each (app.js `getPagesUrl`) and the fields a card derives from a
 * record (app.js `createCard`).
 */
module Repos {
  import opened Wrappers
  import Humanize
  import TimeAgo

  /** One record of the listing; `updatedAt` is the `updated_at` instant in milliseconds. */
  datatype Repo = Repo(
    name: string,
    description: Option<string>,
    language: Option<string>,
    updatedAt: int,
    hasPages: bool,
    archived: bool,
    topics: Option<seq<string>>)

  /** A JavaScript-truthy optional string: present and not empty. */
  predicate Truthy(s: Option<string>) {
    s.Some? && s.value != ""
  }

  const Owner := "LumiKitten"

  /** `toLowerCase` on one ASCII character. */
  function LowerChar(c: char): (l: char)
    ensures !('A' <= l <= 'Z')
    ensures 'A' <= c <= 'Z' ==> l as int - 'a' as int == c as int - 'A' as int
    ensures !('A' <= c <= 'Z') ==> l == c
  {
    if 'A' <= c <= 'Z' then (c as int + 32) as char else c
  }

  /** `toLowerCase` over ASCII. */
  function ToLower(s: string): (r: string)
    ensures |r| == |s|
    ensures forall i :: 0 <= i < |s| ==> r[i] == LowerChar(s[i])
  {
    seq(|s|, i requires 0 <= i < |s| => LowerChar(s[i]))
  }

  /** The owner's own site repository, served at the root of the owner's site. */
  const SiteRepoName := ToLower(Owner) + ".github.io"

  const SiteRoot := "https://" + SiteRepoName + "/"

  function PagesUrl(repo: Repo): (url: string)
    ensures |url| >= |SiteRoot| && url[..|SiteRoot|] == SiteRoot && url[|url| - 1] == '/'
    ensures url == SiteRoot <==> repo.name == SiteRepoName
    ensures url != SiteRoot ==> url[|SiteRoot|..|url| - 1] == repo.name
  {
    if repo.name == SiteRepoName then SiteRoot
    else SiteRoot + repo.name + "/"
  }

  /** Distinct repositories link to distinct places. */
  lemma PagesUrlInjective(a: Repo, b: Repo)
    requires PagesUrl(a) == PagesUrl(b)
    ensures a.name == b.name
  {
    if PagesUrl(a) == SiteRoot {
    } else {
      var url := PagesUrl(a);
      assert a.name == url[|SiteRoot|..|url| - 1] == b.name;
    }
  }

  /** The owner name lower-cases to `lumikitten`. */
  lemma SiteNames()
    ensures SiteRepoName == "lumikitten.github.io"
    ensures SiteRoot == "https://lumikitten.github.io/"
  {
    var lower := ToLower(Owner);
    assert lower[0] == 'l';
    assert lower[1] == 'u';
    assert lower[2] == 'm';
    assert lower[3] == 'i';
    assert lower[4] == 'k';
    assert lower[5] == 'i';
    assert lower[6] == 't';
    assert lower[7] == 't';
    assert lower[8] == 'e';
    assert lower[9] == 'n';
    assert lower == "lumikitten";
  }

  const LanguageColors: map<string, string> := map[
    "JavaScript" := "#f0db4f",
    "TypeScript" := "#3178c6",
    "HTML" := "#e34c26",
    "CSS" := "#563d7c",
    "Python" := "#3572A5",
    "PowerShell" := "#012456",
    "default" := "#d4a5a5"
  ]

  const DefaultColor := LanguageColors["default"]

  const BrandColors: map<string, string> := map[
    "mysite" := "#2e1065",
    "fetchquesttracker" := "#0c0e0d",
    "swedishprivacyaudit" := "#1a1410"
  ]

  /** The border that goes with a brand background. */
  const BrandBorder := "rgba(255, 255, 255, 0.1)"

  /** `LANGUAGE_COLORS[repo.language] || LANGUAGE_COLORS.default`. */
  function LanguageColor(language: Option<string>): (color: string)
    ensures color in LanguageColors.Values
    ensures language.Some? && language.value in LanguageColors ==> color == LanguageColors[language.value]
    ensures (language.None? || language.value !in LanguageColors) ==> color == DefaultColor
  {
    if language.Some? && language.value in LanguageColors then LanguageColors[language.value]
    else DefaultColor
  }

  datatype BrandStyle = BrandStyle(background: string, border: string)

  datatype DescriptionLine = Text(text: string) | NoDescription

  datatype Badge = Badge(language: string, color: string)

  /** The decisions a card embodies; its markup is not modelled. */
  datatype Card = Card(
    href: string,
    title: string,
    brand: Option<BrandStyle>,
    description: DescriptionLine,
    badge: Option<Badge>,
    date: string)

  /** The card for a repository, with `nowMs` the clock reading in milliseconds. */
  function CreateCard(repo: Repo, nowMs: int): Card
  {
    Card(
      PagesUrl(repo),
      Humanize.HumanizeRepoName(repo.name),
      if repo.name in BrandColors then Some(BrandStyle(BrandColors[repo.name], BrandBorder)) else None,
      if Truthy(repo.description) then Text(repo.description.value) else NoDescription,
      if Truthy(repo.language) then Some(Badge(repo.language.value, LanguageColor(repo.language))) else None,
      "Updated " + TimeAgo.TimeAgoText(TimeAgo.ElapsedSeconds(nowMs, repo.updatedAt)))
  }

  /**
   * Each field of a card and the decision behind it: the link, the title,
   * the brand colours for exactly the three branded repositories, the
   * description or the placeholder, the badge exactly when a language is
   * set, and the age line.
   */
  lemma CardDerivation(repo: Repo, nowMs: int)
    ensures var card := CreateCard(repo, nowMs);
      && card.href == PagesUrl(repo)
      && card.title == Humanize.HumanizeRepoName(repo.name)
      && (card.brand.Some? <==> repo.name in {"mysite", "fetchquesttracker", "swedishprivacyaudit"})
      && (card.brand.Some? ==> card.brand.value == BrandStyle(BrandColors[repo.name], BrandBorder))
      && (card.description == NoDescription <==> !Truthy(repo.description))
      && (card.description.Text? ==> card.description.text == repo.description.value != "")
      && (card.badge.None? <==> !Truthy(repo.language))
      && (card.badge.Some? ==> card.badge.value == Badge(repo.language.value, LanguageColor(repo.language)))
      && card.date == "Updated " + TimeAgo.TimeAgoText(TimeAgo.ElapsedSeconds(nowMs, repo.updatedAt))
  {
  }

  /** A record without a description shows the placeholder; one without a language has no badge but still a date. */
  lemma CardPlaceholders(repo: Repo, nowMs: int)
    requires repo.description.None? && repo.language.None?
    ensures CreateCard(repo, nowMs).description == NoDescription
    ensures CreateCard(repo, nowMs).badge.None?
    ensures var date := CreateCard(repo, nowMs).date; |date| > 8 && date[..8] == "Updated "
  {
    var elapsed := TimeAgo.ElapsedSeconds(nowMs, repo.updatedAt);
    TimeAgo.JustNowIff(elapsed);
    var a := TimeAgo.AgeOf(elapsed);
    assert |TimeAgo.TimeAgoText(elapsed)| > 0 by {
      if a.Ago? {
        assert |TimeAgo.NatToString(a.count)| >= 1;
      }
    }
  }
}
