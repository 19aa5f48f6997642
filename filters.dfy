/** The standard filter catalogue (`getStandardFiltersList`) and the choice
    of listing procedure made by `getIssues`. */
module Filters {
  import opened Base
  import opened Remote

  /** The two copies of the client: the namespaced `src/MantisPhpClient.php`
      and the older root-level `MantisPhpClient.php`. */
  datatype Edition = Namespaced | Legacy

  const All := "all"
  const AssignedToMe := "assigned_to_me"
  const Unassigned := "unassigned"
  const ReportedByMe := "reported_by_me"
  const MonitoredByMe := "monitored_by_me"

  /** The label key of the `all` filter; every other filter's key is its id. */
  const AllIssues := "all_issues"

  /** Every standard filter, in the order the client lists them. */
  const Catalogue: seq<string> := [All, AssignedToMe, Unassigned, ReportedByMe, MonitoredByMe]

  /** A filter entry (`MantisClientFilter`, `Filter` in the legacy copy). */
  datatype Filter = Filter(id: string, name: string)

  /** Whether a catalogue filter is offered: `all` always; the others only
      from MantisBT 1.2.16 on, and of those only `unassigned` to an
      anonymous session. */
  predicate Offered(id: string, atLeast: bool, anonymous: bool)
  {
    id == All || (atLeast && (id == Unassigned || !anonymous))
  }

  /** `xs` can be obtained from `ys` by deleting entries: same order. */
  predicate Subsequence(xs: seq<string>, ys: seq<string>)
    decreases |ys|
  {
    xs == [] || (ys != [] && ((xs[0] == ys[0] && Subsequence(xs[1..], ys[1..])) || Subsequence(xs, ys[1..])))
  }

  /** The catalogue entries of `ids` that are offered, in order. */
  function Select(ids: seq<string>, atLeast: bool, anonymous: bool): (r: seq<string>)
    ensures forall id :: id in r <==> id in ids && Offered(id, atLeast, anonymous)
    ensures Subsequence(r, ids)
    ensures |r| <= |ids|
  {
    if ids == [] then []
    else
      var head := if Offered(ids[0], atLeast, anonymous) then [ids[0]] else [];
      var r := head + Select(ids[1..], atLeast, anonymous);
      assert head != [] ==> r[0] == ids[0] && r[1..] == Select(ids[1..], atLeast, anonymous);
      assert head == [] ==> r == Select(ids[1..], atLeast, anonymous);
      r
  }

  function StandardFilterIds(atLeast: bool, anonymous: bool): seq<string>
  {
    Select(Catalogue, atLeast, anonymous)
  }

  /** The three lists the client can produce. */
  lemma StandardFilterIdsCases(atLeast: bool, anonymous: bool)
    ensures !atLeast ==> StandardFilterIds(atLeast, anonymous) == [All]
    ensures atLeast && !anonymous ==> StandardFilterIds(atLeast, anonymous) == Catalogue
    ensures atLeast && anonymous ==> StandardFilterIds(atLeast, anonymous) == [All, Unassigned]
  {
    var s4 := [MonitoredByMe] + [];
    var s3 := [ReportedByMe] + s4;
    var s2 := [Unassigned] + s3;
    var s1 := [AssignedToMe] + s2;
    assert Catalogue == [All] + s1;
    assert Select([], atLeast, anonymous) == [];
    OfferedCatalogue(atLeast, anonymous);
    var full := atLeast && !anonymous;
    SelectCons(MonitoredByMe, [], atLeast, anonymous);
    var r4 := if full then [MonitoredByMe] else [];
    assert Select(s4, atLeast, anonymous) == r4;
    SelectCons(ReportedByMe, s4, atLeast, anonymous);
    var r3 := (if full then [ReportedByMe] else []) + r4;
    assert Select(s3, atLeast, anonymous) == r3;
    SelectCons(Unassigned, s3, atLeast, anonymous);
    var r2 := (if atLeast then [Unassigned] else []) + r3;
    assert Select(s2, atLeast, anonymous) == r2;
    SelectCons(AssignedToMe, s2, atLeast, anonymous);
    var r1 := (if full then [AssignedToMe] else []) + r2;
    assert Select(s1, atLeast, anonymous) == r1;
    SelectCons(All, s1, atLeast, anonymous);
    assert StandardFilterIds(atLeast, anonymous) == [All] + r1;
  }

  /** Which catalogue entries are offered, entry by entry. */
  lemma OfferedCatalogue(atLeast: bool, anonymous: bool)
    ensures Offered(All, atLeast, anonymous)
    ensures Offered(Unassigned, atLeast, anonymous) == atLeast
    ensures Offered(AssignedToMe, atLeast, anonymous) == (atLeast && !anonymous)
    ensures Offered(ReportedByMe, atLeast, anonymous) == (atLeast && !anonymous)
    ensures Offered(MonitoredByMe, atLeast, anonymous) == (atLeast && !anonymous)
  {
    assert AssignedToMe[1] != All[1] && AssignedToMe[0] != Unassigned[0];
    assert ReportedByMe[0] != All[0] && ReportedByMe[0] != Unassigned[0];
    assert MonitoredByMe[0] != All[0] && MonitoredByMe[0] != Unassigned[0];
    assert Unassigned[0] != All[0];
  }

  lemma SelectCons(id: string, rest: seq<string>, atLeast: bool, anonymous: bool)
    ensures Select([id] + rest, atLeast, anonymous)
         == (if Offered(id, atLeast, anonymous) then [id] else []) + Select(rest, atLeast, anonymous)
  {
    assert ([id] + rest)[1..] == rest;
  }

  /** The language key a filter's name is looked up under. */
  function LabelKey(id: string): (key: string)
    ensures id == All ==> key == AllIssues
    ensures id != All ==> key == id
  {
    if id == All then AllIssues else id
  }

  /** A filter's name: the label key itself, or in the legacy copy the key
      translated by `lang_get_text`. */
  function FilterName(edition: Edition, id: string, langGetText: string -> string): string
  {
    if edition == Namespaced then LabelKey(id) else langGetText(LabelKey(id))
  }

  /** The fallback `lang_get_text` defined when the host application has
      none: it returns its argument. */
  function LangFallback(key: string): string
  {
    key
  }

  /** The filter list `getStandardFiltersList` returns. */
  function StandardFilters(edition: Edition, atLeast: bool, anonymous: bool,
                           langGetText: string -> string): (r: seq<Filter>)
    ensures |r| == |StandardFilterIds(atLeast, anonymous)|
    ensures forall i :: 0 <= i < |r| ==> r[i].id == StandardFilterIds(atLeast, anonymous)[i]
    ensures forall f :: f in r ==>
      f.id in Catalogue && Offered(f.id, atLeast, anonymous) && f.name == FilterName(edition, f.id, langGetText)
  {
    var ids := StandardFilterIds(atLeast, anonymous);
    seq(|ids|, i requires 0 <= i < |ids| => Filter(ids[i], FilterName(edition, ids[i], langGetText)))
  }

  /** Builds the standard filter list by appending entries one at a time. */
  method BuildStandardFilters(edition: Edition, atLeast: bool, anonymous: bool,
                              langGetText: string -> string)
    returns (filters: seq<Filter>)
    ensures filters == StandardFilters(edition, atLeast, anonymous, langGetText)
  {
    filters := [];
    filters := filters + [Filter(All, FilterName(edition, All, langGetText))];
    if atLeast {
      if !anonymous {
        filters := filters + [Filter(AssignedToMe, FilterName(edition, AssignedToMe, langGetText))];
      }
      filters := filters + [Filter(Unassigned, FilterName(edition, Unassigned, langGetText))];
      if !anonymous {
        filters := filters + [Filter(ReportedByMe, FilterName(edition, ReportedByMe, langGetText))];
        filters := filters + [Filter(MonitoredByMe, FilterName(edition, MonitoredByMe, langGetText))];
      }
    }
    StandardFilterIdsCases(atLeast, anonymous);
  }

  /** In the namespaced copy `all` is named `all_issues` and every other
      filter is named by its id. */
  lemma NamespacedFilterNames(atLeast: bool, anonymous: bool, langGetText: string -> string)
    ensures forall f :: f in StandardFilters(Namespaced, atLeast, anonymous, langGetText) ==>
      f.name == (if f.id == All then AllIssues else f.id)
  {
  }

  /** With the fallback `lang_get_text` the legacy copy lists exactly what
      the namespaced copy lists. */
  lemma LegacyFallbackAgrees(atLeast: bool, anonymous: bool, langGetText: string -> string)
    ensures StandardFilters(Legacy, atLeast, anonymous, LangFallback)
         == StandardFilters(Namespaced, atLeast, anonymous, langGetText)
  {
  }

  /** The `$p_filter_id` argument of `getIssues`: a number (a numeric
      string is represented by its value) or a keyword. */
  datatype FilterId = Numeric(n: int) | Keyword(k: string)

  /** A positive numeric filter id names a custom filter. */
  predicate IsCustomFilter(filter: FilterId)
  {
    filter.Numeric? && filter.n > 0
  }

  /** The relation a standard-filter keyword asks for, if it is one of the
      four the client routes specially. */
  function KeywordRelation(k: string): (r: Option<Relation>)
  {
    if k == AssignedToMe || k == Unassigned then Some(Assigned)
    else if k == MonitoredByMe then Some(Monitored)
    else if k == ReportedByMe then Some(Reported)
    else None
  }

  /** The user a keyword filter is about: nobody (id 0) for `unassigned`,
      otherwise the session's effective user by name. */
  function KeywordTarget(k: string, effective: Option<string>): UserRef
  {
    if k == Unassigned then UserRef(Some(0), None, None) else UserRef(None, effective, None)
  }

  /** The listing call `getIssues` makes. `atLeast` says whether the
      instance runs MantisBT 1.2.16 or later; it is consulted only for a
      filter that is not a custom filter. */
  function Route(user: string, password: string, projectId: int, page: int, perPage: int,
                 filter: FilterId, atLeast: bool, effective: Option<string>): (c: Call)
    ensures IsListing(c) && c.user == user && c.password == password
  {
    if IsCustomFilter(filter) then
      McFilterGetIssues(user, password, projectId, filter.n, page, perPage)
    else if atLeast && filter.Keyword? && KeywordRelation(filter.k).Some? then
      McProjectGetIssuesForUser(user, password, ProjectId(projectId), KeywordRelation(filter.k).value,
                                KeywordTarget(filter.k, effective), page, perPage)
    else
      McProjectGetIssues(user, password, projectId, page, perPage)
  }

  /** A custom filter goes to `mc_filter_get_issues`, whatever the version. */
  lemma RouteCustomFilter(user: string, password: string, projectId: int, page: int, perPage: int,
                          n: int, atLeast: bool, effective: Option<string>)
    requires n > 0
    ensures Route(user, password, projectId, page, perPage, Numeric(n), atLeast, effective)
         == McFilterGetIssues(user, password, projectId, n, page, perPage)
  {
  }

  /** From 1.2.16 on, each of the four keywords goes to
      `mc_project_get_issues_for_user` with its relation and target. */
  lemma RouteKeywords(user: string, password: string, projectId: int, page: int, perPage: int,
                      effective: Option<string>)
    ensures Route(user, password, projectId, page, perPage, Keyword(AssignedToMe), true, effective)
         == McProjectGetIssuesForUser(user, password, ProjectId(projectId), Assigned,
                                      UserRef(None, effective, None), page, perPage)
    ensures Route(user, password, projectId, page, perPage, Keyword(Unassigned), true, effective)
         == McProjectGetIssuesForUser(user, password, ProjectId(projectId), Assigned,
                                      UserRef(Some(0), None, None), page, perPage)
    ensures Route(user, password, projectId, page, perPage, Keyword(MonitoredByMe), true, effective)
         == McProjectGetIssuesForUser(user, password, ProjectId(projectId), Monitored,
                                      UserRef(None, effective, None), page, perPage)
    ensures Route(user, password, projectId, page, perPage, Keyword(ReportedByMe), true, effective)
         == McProjectGetIssuesForUser(user, password, ProjectId(projectId), Reported,
                                      UserRef(None, effective, None), page, perPage)
  {
  }

  /** Everything else lists all issues of the project with
      `mc_project_get_issues`. */
  lemma RouteFallback(user: string, password: string, projectId: int, page: int, perPage: int,
                      filter: FilterId, atLeast: bool, effective: Option<string>)
    requires !IsCustomFilter(filter)
    requires !atLeast || filter.Numeric? || filter.k !in [AssignedToMe, Unassigned, MonitoredByMe, ReportedByMe]
    ensures Route(user, password, projectId, page, perPage, filter, atLeast, effective)
         == McProjectGetIssues(user, password, projectId, page, perPage)
  {
  }

  /** Every standard filter the client offers is routed: `all` to the plain
      project listing, every other one to a per-user listing. */
  lemma {:induction false} OfferedFiltersRouted(user: string, password: string, projectId: int, page: int,
                                                perPage: int, atLeast: bool, anonymous: bool,
                                                effective: Option<string>)
    ensures forall id :: id in StandardFilterIds(atLeast, anonymous) ==>
      var c := Route(user, password, projectId, page, perPage, Keyword(id), atLeast, effective);
      if id == All then c.McProjectGetIssues? else c.McProjectGetIssuesForUser?
  {
    forall id | id in StandardFilterIds(atLeast, anonymous)
      ensures var c := Route(user, password, projectId, page, perPage, Keyword(id), atLeast, effective);
              if id == All then c.McProjectGetIssues? else c.McProjectGetIssuesForUser?
    {
      assert id in Catalogue && Offered(id, atLeast, anonymous);
    }
  }
}
