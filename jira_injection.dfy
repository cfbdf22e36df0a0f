/** `JiraInjection`: the project's releases, sorted by release date and numbered, the
    release that follows a date, and the fixed bugs assembled page by page. Dates are day
    numbers; the HTTP requests and the JSON binding are replaced by the values they yield. */
module JiraInjection {
  import opened Wrappers
  import opened SeqFacts
  import Sorting

  /** A calendar day (`LocalDate`), as a day number. */
  type Date = int

  datatype JiraVersion = JiraVersion(name: string, releaseDate: Date, id: int)

  /** A search hit: its key, its affected versions and its two dates. */
  datatype SearchIssue = SearchIssue(key: string, versions: seq<JiraVersion>, created: Date, resolutionDate: Date)

  /** One page of the search: the server's `total` and the issues of the page. */
  datatype SearchResponse = SearchResponse(total: int, issues: seq<SearchIssue>)

  datatype JiraTicket = JiraTicket(
    key: string, created: Date, resolutionDate: Date,
    openingVersion: Option<JiraVersion>, fixedVersion: Option<JiraVersion>,
    affectedVersions: seq<JiraVersion>)

  // ----- releases -----

  /** `Comparator.comparing(JiraVersion::getReleaseDate)`, as an order. */
  function ReleaseDateLe(a: JiraVersion, b: JiraVersion): bool {
    a.releaseDate <= b.releaseDate
  }

  lemma ReleaseDateLeTotal()
    ensures Sorting.TotalPreorder(ReleaseDateLe)
  {
  }

  /** The releases after the `setId(i + 1)` loop: everything kept, the ids 1..n in order. */
  function Numbered(rs: seq<JiraVersion>): (r: seq<JiraVersion>)
    ensures |r| == |rs|
    ensures forall i :: 0 <= i < |r| ==>
              r[i].id == i + 1 && r[i].name == rs[i].name && r[i].releaseDate == rs[i].releaseDate
  {
    seq(|rs|, i requires 0 <= i < |rs| => rs[i].(id := i + 1))
  }

  predicate DateSorted(rs: seq<JiraVersion>) {
    forall i, j :: 0 <= i < j < |rs| ==> rs[i].releaseDate <= rs[j].releaseDate
  }

  /** What `injectReleases` leaves: the versions reordered by release date and numbered
      from 1 in that order. */
  lemma InjectedReleases(versions: seq<JiraVersion>)
    ensures var sorted := Sorting.SortBy(versions, ReleaseDateLe);
            var r := Numbered(sorted);
            && multiset(sorted) == multiset(versions)
            && |r| == |versions|
            && DateSorted(r)
            && forall i :: 0 <= i < |r| ==> r[i] == sorted[i].(id := i + 1)
  {
    ReleaseDateLeTotal();
    Sorting.SortBySorted(versions, ReleaseDateLe);
  }

  /** `releases.stream().filter(r -> !r.getReleaseDate().isBefore(d)).findFirst()`: the
      position of the first release dated on or after `d`. */
  function FirstOnOrAfter(rs: seq<JiraVersion>, d: Date): (r: Option<nat>)
    ensures r.Some? ==> r.value < |rs| && rs[r.value].releaseDate >= d
                        && forall j :: 0 <= j < r.value ==> rs[j].releaseDate < d
    ensures r.None? ==> forall j :: 0 <= j < |rs| ==> rs[j].releaseDate < d
  {
    if rs == [] then None
    else if rs[0].releaseDate >= d then Some(0)
    else match FirstOnOrAfter(rs[1..], d)
      case None => None
      case Some(i) => Some(i + 1)
  }

  /** `getReleaseAfterOrEqualDate`: nothing before the releases are loaded; otherwise the
      first release, in list order, not dated before `d`. */
  function ReleaseAfterOrEqualDate(releases: Option<seq<JiraVersion>>, d: Date): (r: Option<JiraVersion>)
    ensures releases.None? ==> r.None?
    ensures releases.Some? ==>
              (r.None? <==> forall j :: 0 <= j < |releases.value| ==> releases.value[j].releaseDate < d)
    ensures r.Some? ==> releases.Some? && r.value in releases.value && r.value.releaseDate >= d
  {
    if releases.None? then None
    else match FirstOnOrAfter(releases.value, d)
      case None => None
      case Some(i) => Some(releases.value[i])
  }

  /** On releases sorted by date, the release found is the earliest one dated on or after
      `d`, and exactly the releases before it are dated before `d`. */
  lemma EarliestOnOrAfter(rs: seq<JiraVersion>, d: Date)
    requires DateSorted(rs)
    ensures var r := FirstOnOrAfter(rs, d);
            r.Some? ==>
              (forall j :: 0 <= j < |rs| && rs[j].releaseDate >= d ==> rs[r.value].releaseDate <= rs[j].releaseDate)
              && forall j :: 0 <= j < |rs| ==> (rs[j].releaseDate < d <==> j < r.value)
  {
  }

  // ----- tickets -----

  /** The ticket built from one search hit. */
  function TicketOf(issue: SearchIssue, releases: Option<seq<JiraVersion>>): JiraTicket {
    JiraTicket(issue.key, issue.created, issue.resolutionDate,
               ReleaseAfterOrEqualDate(releases, issue.created),
               ReleaseAfterOrEqualDate(releases, issue.resolutionDate),
               issue.versions)
  }

  function Tickets(issues: seq<SearchIssue>, releases: Option<seq<JiraVersion>>): (r: seq<JiraTicket>)
    ensures |r| == |issues|
    ensures forall i :: 0 <= i < |issues| ==>
              r[i].key == issues[i].key && r[i].affectedVersions == issues[i].versions
              && r[i].created == issues[i].created && r[i].resolutionDate == issues[i].resolutionDate
              && r[i].openingVersion == ReleaseAfterOrEqualDate(releases, issues[i].created)
              && r[i].fixedVersion == ReleaseAfterOrEqualDate(releases, issues[i].resolutionDate)
  {
    seq(|issues|, i requires 0 <= i < |issues| => TicketOf(issues[i], releases))
  }

  lemma TicketsSnoc(issues: seq<SearchIssue>, issue: SearchIssue, releases: Option<seq<JiraVersion>>)
    ensures Tickets(issues + [issue], releases) == Tickets(issues, releases) + [TicketOf(issue, releases)]
  {
  }

  /** The number of issues on the pages before page `k`: the `startAt` of page `k`. */
  function Offset(pages: seq<SearchResponse>, k: nat): int
    requires k <= |pages|
  {
    if k == 0 then 0 else Offset(pages, k - 1) + |pages[k - 1].issues|
  }

  /** The issues of the pages, in page order. */
  function AllIssues(pages: seq<SearchResponse>): seq<SearchIssue> {
    if pages == [] then [] else AllIssues(pages[..|pages| - 1]) + pages[|pages| - 1].issues
  }

  lemma AllIssuesSnoc(pages: seq<SearchResponse>, k: nat)
    requires k < |pages|
    ensures AllIssues(pages[..k + 1]) == AllIssues(pages[..k]) + pages[k].issues
  {
    assert pages[..k + 1][..k] == pages[..k];
  }

  /** Every issue of every page is among all the issues. */
  lemma {:induction false} AllIssuesHas(pages: seq<SearchResponse>, k: nat, i: nat)
    requires k < |pages| && i < |pages[k].issues|
    ensures exists j :: 0 <= j < |AllIssues(pages)| && AllIssues(pages)[j] == pages[k].issues[i]
  {
    var n := |pages| - 1;
    var front := AllIssues(pages[..n]);
    if k == n {
      assert AllIssues(pages)[|front| + i] == pages[k].issues[i];
    } else {
      AllIssuesHas(pages[..n], k, i);
      var j :| 0 <= j < |front| && front[j] == pages[..n][k].issues[i];
      assert AllIssues(pages)[j] == front[j];
    }
  }

  /** The pages are the responses the `do/while` asks for: after each page the loop goes on
      exactly when the issues seen so far are fewer than that page's `total`. */
  predicate Paged(pages: seq<SearchResponse>) {
    |pages| >= 1
    && forall k :: 0 <= k < |pages| ==> (Offset(pages, k + 1) < pages[k].total <==> k + 1 < |pages|)
  }

  /** `result.sort(Comparator.comparing(JiraTicket::getResolutionDate))`, as an order. */
  function ResolutionLe(a: JiraTicket, b: JiraTicket): bool {
    a.resolutionDate <= b.resolutionDate
  }

  predicate ResolutionSorted(ts: seq<JiraTicket>) {
    forall i, j :: 0 <= i < j < |ts| ==> ts[i].resolutionDate <= ts[j].resolutionDate
  }

  /** `fetchFixedBugs` returns a ticket for every issue of every page, each with the
      releases that follow its two dates, ordered by resolution date. */
  lemma FetchedTickets(pages: seq<SearchResponse>, releases: Option<seq<JiraVersion>>)
    ensures var all := Tickets(AllIssues(pages), releases);
            var result := Sorting.SortBy(all, ResolutionLe);
            ResolutionSorted(result) && multiset(result) == multiset(all)
    ensures forall k, i :: 0 <= k < |pages| && 0 <= i < |pages[k].issues| ==>
              TicketOf(pages[k].issues[i], releases) in Sorting.SortBy(Tickets(AllIssues(pages), releases), ResolutionLe)
  {
    var all := Tickets(AllIssues(pages), releases);
    assert Sorting.TotalPreorder(ResolutionLe);
    Sorting.SortBySorted(all, ResolutionLe);
    var result := Sorting.SortBy(all, ResolutionLe);
    forall k, i | 0 <= k < |pages| && 0 <= i < |pages[k].issues|
      ensures TicketOf(pages[k].issues[i], releases) in result
    {
      AllIssuesHas(pages, k, i);
      var j :| 0 <= j < |AllIssues(pages)| && AllIssues(pages)[j] == pages[k].issues[i];
      assert all[j] == TicketOf(pages[k].issues[i], releases);
      assert all[j] in multiset(all);
    }
  }

  // ----- the object -----

  class JiraInjection {
    /** `null` until `injectReleases` is called. */
    var releases: Option<seq<JiraVersion>>

    constructor()
      ensures releases.None?
    {
      releases := None;
    }

    /** `injectReleases`, given the versions the project API returns. */
    method InjectReleases(versions: seq<JiraVersion>)
      modifies this
      ensures releases == Some(Numbered(Sorting.SortBy(versions, ReleaseDateLe)))
    {
      var sorted := Sorting.SortBy(versions, ReleaseDateLe);
      var rs := sorted;
      for i := 0 to |rs|
        invariant |rs| == |sorted|
        invariant forall j :: 0 <= j < i ==> rs[j] == sorted[j].(id := j + 1)
        invariant forall j :: i <= j < |rs| ==> rs[j] == sorted[j]
      {
        rs := rs[i := rs[i].(id := i + 1)];
      }
      assert rs == Numbered(sorted);
      releases := Some(rs);
    }

    /** `fetchFixedBugs`, given the pages the search API returns. */
    method FetchFixedBugs(pages: seq<SearchResponse>) returns (result: seq<JiraTicket>)
      requires Paged(pages)
      ensures result == Sorting.SortBy(Tickets(AllIssues(pages), releases), ResolutionLe)
    {
      result := [];
      var startAt := 0;
      var k := 0;
      var more := true;
      while more
        invariant 0 <= k <= |pages| && (more <==> k < |pages|)
        invariant startAt == Offset(pages, k)
        invariant result == Tickets(AllIssues(pages[..k]), releases)
        decreases |pages| - k
      {
        var sr := pages[k];
        var total := sr.total;
        ghost var seen := AllIssues(pages[..k]);
        for i := 0 to |sr.issues|
          invariant result == Tickets(seen + sr.issues[..i], releases)
        {
          var issue := sr.issues[i];
          var opening := ReleaseAfterOrEqualDate(releases, issue.created);
          var fixed := ReleaseAfterOrEqualDate(releases, issue.resolutionDate);
          var t := JiraTicket(issue.key, issue.created, issue.resolutionDate, opening, fixed, issue.versions);
          TicketsSnoc(seen + sr.issues[..i], issue, releases);
          assert seen + sr.issues[..i + 1] == (seen + sr.issues[..i]) + [issue];
          result := result + [t];
        }
        assert sr.issues[..|sr.issues|] == sr.issues;
        AllIssuesSnoc(pages, k);
        startAt := startAt + |sr.issues|;
        k := k + 1;
        more := startAt < total;
      }
      TakeAll(pages);
      result := Sorting.SortBy(result, ResolutionLe);
    }
  }
}
