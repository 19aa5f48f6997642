/** The client session (`MantisPhpClient`): its fields, its two caches, the
    effective user, and the operations of the core with the calls each makes
    to the remote service. */
module Client {
  import opened Base
  import opened Text
  import opened Endpoint
  import opened Projects
  import opened Remote
  import opened Filters

  /** `ALL_PROJECTS`: the project id meaning every project. */
  const AllProjects := 0

  /** The literal the legacy copy sends in place of `ALL_PROJECTS`. */
  const AllProjectsLiteral := "ALL_PROJECTS"

  // ---------------------------------------------------------------------
  // Lookups by id: the `foreach` searches of `getNote` and
  // `getIssueAttachment`.

  /** The id a note entry is matched by; a `null` entry matches nothing. */
  function NoteKey(entry: Option<Note>): Option<int>
  {
    if entry.Some? then Some(entry.value.id) else None
  }

  /** The id an attachment is matched by. */
  function AttachmentKey(attachment: Attachment): Option<int>
  {
    Some(attachment.id)
  }

  /** The first position at or after `from` whose key is `id`. */
  function FirstKeyed<T>(xs: seq<T>, key: T -> Option<int>, id: int, from: nat): (r: Option<nat>)
    ensures r.Some? ==> from <= r.value < |xs| && key(xs[r.value]) == Some(id)
    ensures r.Some? ==> forall j :: from <= j < r.value ==> key(xs[j]) != Some(id)
    ensures r.None? ==> forall j :: from <= j < |xs| ==> key(xs[j]) != Some(id)
    decreases |xs| - from
  {
    if from >= |xs| then None
    else if key(xs[from]) == Some(id) then Some(from)
    else FirstKeyed(xs, key, id, from + 1)
  }

  /** Walks the list in order and stops at the first entry whose key is
      `id`. */
  method IndexOfKey<T>(xs: seq<T>, key: T -> Option<int>, id: int) returns (r: Option<nat>)
    ensures r == FirstKeyed(xs, key, id, 0)
  {
    var i := 0;
    while i < |xs|
      invariant 0 <= i <= |xs|
      invariant FirstKeyed(xs, key, id, 0) == FirstKeyed(xs, key, id, i)
    {
      if key(xs[i]) == Some(id) {
        return Some(i);
      }
      i := i + 1;
    }
    return None;
  }

  /** The note of an issue with id `noteId`: the first non-null entry of
      the notes list carrying it; `None` when the list is absent or has
      none. */
  function NoteIn(issue: Issue, noteId: int): (r: Option<Note>)
    ensures r.Some? ==> r.value.id == noteId && issue.notes.Some? && r in issue.notes.value
    ensures r.Some? ==> exists i :: (0 <= i < |issue.notes.value| && issue.notes.value[i] == r
                                      && forall j :: 0 <= j < i ==> NoteKey(issue.notes.value[j]) != Some(noteId))
    ensures r.None? <==> issue.notes.None? || Some(noteId) !in Keys(issue.notes.value, NoteKey)
  {
    if issue.notes.None? then None
    else
      var notes := issue.notes.value;
      match FirstKeyed(notes, NoteKey, noteId, 0)
      case None =>
        KeysMembership(notes, NoteKey, noteId);
        None
      case Some(i) =>
        KeysMembership(notes, NoteKey, noteId);
        assert forall j :: 0 <= j < i ==> NoteKey(notes[j]) != Some(noteId);
        notes[i]
  }

  /** The attachments the search walks: none when the field is absent. */
  function AttachmentsOf(issue: Issue): seq<Attachment>
  {
    if issue.attachments.Some? then issue.attachments.value else []
  }

  /** The attachment of an issue with id `fileId`, if any. */
  function AttachmentIn(issue: Issue, fileId: int): (r: Option<Attachment>)
    ensures r.Some? ==> r.value.id == fileId && r.value in AttachmentsOf(issue)
    ensures r.Some? ==> exists i :: (0 <= i < |AttachmentsOf(issue)| && AttachmentsOf(issue)[i] == r.value
                                      && forall j :: 0 <= j < i ==> AttachmentsOf(issue)[j].id != fileId)
    ensures r.None? <==> forall a :: a in AttachmentsOf(issue) ==> a.id != fileId
  {
    var attachments := AttachmentsOf(issue);
    match FirstKeyed(attachments, AttachmentKey, fileId, 0)
    case None => None
    case Some(i) =>
      assert forall j :: 0 <= j < i ==> AttachmentKey(attachments[j]) != Some(fileId);
      Some(attachments[i])
  }

  /** The keys of a list, in order. */
  function Keys<T>(xs: seq<T>, key: T -> Option<int>): seq<Option<int>>
  {
    seq(|xs|, j requires 0 <= j < |xs| => key(xs[j]))
  }

  lemma KeysMembership<T>(xs: seq<T>, key: T -> Option<int>, id: int)
    ensures FirstKeyed(xs, key, id, 0).None? <==> Some(id) !in Keys(xs, key)
  {
    var r := FirstKeyed(xs, key, id, 0);
    if r.Some? {
      assert Keys(xs, key)[r.value] == Some(id);
    }
  }

  // ---------------------------------------------------------------------
  // Reply shaping.

  /** `getIssue`: an issue whose custom fields are absent or `null` gets an
      empty list; nothing else changes. */
  function WithCustomFields(issue: Issue): (r: Issue)
    ensures r.customFields.Some?
    ensures issue.customFields.Some? ==> r == issue
    ensures issue.customFields.None? ==> r.customFields == Some([])
    ensures r.id == issue.id && r.summary == issue.summary
    ensures r.notes == issue.notes && r.attachments == issue.attachments
  {
    if issue.customFields.None? then issue.(customFields := Some([])) else issue
  }

  lemma WithCustomFieldsIdempotent(issue: Issue)
    ensures WithCustomFields(WithCustomFields(issue)) == WithCustomFields(issue)
  {
  }

  /** What `getIssue` returns for a reply of `mc_issue_get`. */
  function IssueOutcome(reply: Reply): Result<Issue, Error>
  {
    if reply.IssueRecord? then Ok(WithCustomFields(reply.issue)) else Err(SoapFault)
  }

  /** A reply passed on unchanged, or the fault it carries. */
  function PlainOutcome(reply: Reply): Result<Value, Error>
  {
    if reply.Plain? then Ok(reply.value) else Err(SoapFault)
  }

  /** `getCustomFiltersList`: the filters when the reply is an array, and
      an empty list for any other reply. */
  function CustomFilters(reply: Reply): (r: Result<seq<Value>, Error>)
    ensures r.Err? <==> reply.Fault?
    ensures reply.Fault? ==> r == Err(SoapFault)
    ensures r.Ok? && r.value != [] ==> reply == Plain(List(r.value))
    ensures reply.Plain? && reply.value.List? ==> r == Ok(reply.value.items)
  {
    if reply.Fault? then Err(SoapFault)
    else if reply.Plain? && reply.value.List? then Ok(reply.value.items)
    else Ok([])
  }

  /** `updateNote`: a falsy reply is turned into an error. */
  function NoteUpdateOutcome(reply: Reply): (r: Result<(), Error>)
    ensures r.Ok? <==> !reply.Fault? && TruthyReply(reply)
    ensures reply.Fault? ==> r == Err(SoapFault)
    ensures r.Err? && !reply.Fault? ==> r.error == OperationFailed(NoteUpdateFailed)
  {
    if reply.Fault? then Err(SoapFault)
    else if TruthyReply(reply) then Ok(())
    else Err(OperationFailed(NoteUpdateFailed))
  }

  /** What a fault caught by `catch (Exception …)` turns into: the legacy
      copy catches it and answers `false`; in the namespaced copy the name
      resolves to a class the fault is not an instance of, so the fault
      propagates. */
  function CaughtFault(edition: Edition): Result<bool, Error>
  {
    if edition == Namespaced then Err(SoapFault) else Ok(false)
  }

  /** `checkAnonymousAccess`: the login reply cast to a boolean (namespaced),
      or `true` whenever the login did not fail (legacy). */
  function AnonymousAccessOutcome(edition: Edition, reply: Reply): (r: Result<bool, Error>)
    ensures edition == Legacy ==> r == Ok(!reply.Fault?)
    ensures edition == Namespaced ==> (r.Err? <==> reply.Fault?)
    ensures edition == Namespaced && reply.Fault? ==> r == Err(SoapFault)
    ensures edition == Namespaced && !reply.Fault? ==> r == Ok(TruthyReply(reply))
  {
    if reply.Fault? then CaughtFault(edition)
    else if edition == Namespaced then Ok(TruthyReply(reply))
    else Ok(true)
  }

  /** The project argument of the `userExists` probe. */
  function ProbeProject(edition: Edition): ProjectRef
  {
    if edition == Namespaced then ProjectId(AllProjects) else ProjectLiteral(AllProjectsLiteral)
  }

  /** The probe `userExists` sends: issues reported by the user, one per
      page, first page. */
  function ProbeCall(edition: Edition, user: string, password: string, target: UserRef): (c: Call)
    ensures c.McProjectGetIssuesForUser? && c.relation == Reported && c.target == target
    ensures edition == Namespaced ==> c.project == ProjectId(AllProjects)
    ensures edition == Legacy ==> c.project == ProjectLiteral(AllProjectsLiteral)
    ensures c.page == 1 && c.perPage == 1
    ensures c.user == user && c.password == password
  {
    McProjectGetIssuesForUser(user, password, ProbeProject(edition), Reported, target, 1, 1)
  }

  /** `userExists` after the probe: a reply means the user exists; a fault
      is caught or propagates depending on the copy. */
  function ProbeOutcome(edition: Edition, reply: Reply): (r: Result<bool, Error>)
    ensures !reply.Fault? ==> r == Ok(true)
    ensures reply.Fault? && edition == Legacy ==> r == Ok(false)
    ensures reply.Fault? && edition == Namespaced ==> r == Err(SoapFault)
  {
    if reply.Fault? then CaughtFault(edition) else Ok(true)
  }

  /** `addNote`'s payload: the text, plus the view state when one is given
      (the legacy copy has no view state parameter). */
  function NotePayload(edition: Edition, text: string, viewState: Option<ViewState>): (d: NoteData)
    ensures d.text == text
    ensures edition == Legacy ==> d.viewState.None?
    ensures edition == Namespaced ==> d.viewState == viewState
  {
    NoteData(text, if edition == Namespaced then viewState else None)
  }

  /** The user data `authenticateUser` returns. */
  datatype UserData = UserData(name: string, id: int, realName: string, email: Option<string>,
                               accessLevel: Value, timezone: Value)

  /** The user data of a login reply: the account's fields, with an absent
      real name given as the empty string. */
  function UserDataOf(login: LoginData): (d: UserData)
    ensures d.name == login.account.name && d.id == login.account.id
    ensures login.account.realName.Some? ==> d.realName == login.account.realName.value
    ensures login.account.realName.None? ==> d.realName == ""
    ensures d.email == login.account.email
    ensures d.accessLevel == login.accessLevel && d.timezone == login.timezone
  {
    UserData(login.account.name, login.account.id,
             if login.account.realName.Some? then login.account.realName.value else "",
             login.account.email, login.accessLevel, login.timezone)
  }

  /** `isAnonymousAccess`: the effective user is set, not empty, and not
      the configured user. */
  predicate IsAnonymous(username: string, effective: Option<string>)
  {
    effective.Some? && effective.value != "" && effective.value != username
  }

  // ---------------------------------------------------------------------
  // Caches and the call log.

  /** The calls a version lookup makes: none once the version is cached. */
  function VersionCalls(cached: Option<string>): seq<Call>
  {
    if cached.None? then [McVersion] else []
  }

  /** The version cache after a lookup answered by `reply`. */
  function VersionAfter(cached: Option<string>, reply: Reply): Option<string>
  {
    if cached.Some? then cached
    else if reply.Plain? && reply.value.Str? then Some(reply.value.s)
    else None
  }

  /** The calls a project-list lookup makes: none once the list is cached. */
  function ProjectsCalls(cached: Option<seq<Project>>, user: string, password: string): seq<Call>
  {
    if cached.None? then [McProjectsGetUserAccessible(user, password)] else []
  }

  /** The project cache after a lookup answered by `reply`. */
  function ProjectsAfter(cached: Option<seq<Project>>, reply: Reply): Option<seq<Project>>
  {
    if cached.Some? then cached
    else if reply.Projects? then Some(reply.projects)
    else None
  }

  /** The number of issue-listing calls in a call log. */
  function CountListing(calls: seq<Call>): nat
  {
    if calls == [] then 0
    else CountListing(calls[..|calls| - 1]) + (if IsListing(calls[|calls| - 1]) then 1 else 0)
  }

  lemma {:induction false} CountListingAppend(calls: seq<Call>, more: seq<Call>)
    ensures CountListing(calls + more) == CountListing(calls) + CountListing(more)
    decreases |more|
  {
    if more == [] {
      assert calls + more == calls;
    } else {
      var n := |more| - 1;
      assert (calls + more)[..|calls + more| - 1] == calls + more[..n];
      CountListingAppend(calls, more[..n]);
    }
  }

  /** A session of the client with one MantisBT instance. */
  class Session {
    const edition: Edition
    /** `soap_uri`: the SOAP endpoint. */
    const soapUri: string
    /** `mantis_uri`: the root of the MantisBT instance, found with the
        corrected `/api` search (`InstanceRoot`); it equals the root as
        written whenever no `/api` precedes the host. */
    const mantisUri: string
    const username: string
    const password: string
    const service: Service
    /** `version_compare( $version, '1.2.16dev' ) >= 0`. */
    const atLeastThreshold: string -> bool
    /** The host application's `lang_get_text` (used by the legacy copy). */
    const langGetText: string -> string

    /** `mantis_version`: cached after the first successful lookup. */
    var mantisVersion: Option<string>
    /** `projects`: cached after the first successful lookup. */
    var projects: Option<seq<Project>>
    /** `effective_username`: the user the service knows the session as. */
    var effectiveUsername: Option<string>

    ghost predicate Valid()
      reads this, service
    {
      service.Valid()
    }

    /** Resolves the endpoint from `url` step by step and derives the
        instance root; nothing is cached and no call is made. */
    constructor (edition: Edition, url: string, username: string, password: string,
                 service: Service, atLeastThreshold: string -> bool,
                 langGetText: string -> string)
      requires service.Valid()
      ensures Valid()
      ensures soapUri == SoapUri(url) && mantisUri == InstanceRoot(soapUri)
      ensures (forall j :: 0 <= j < HostStart(soapUri) ==> !MatchAt(soapUri, ApiMarker, j)) ==>
        mantisUri == InstanceRootAsWritten(soapUri)
      ensures this.edition == edition && this.username == username && this.password == password
      ensures this.service == service && this.atLeastThreshold == atLeastThreshold
      ensures this.langGetText == langGetText
      ensures mantisVersion.None? && projects.None? && effectiveUsername.None?
    {
      this.edition := edition;
      var uri := TrimRight(url);
      if !Contains(uri, ServicePage) {
        uri := uri + ServicePath;
      }
      if !Contains(uri, Scheme) {
        uri := DefaultScheme + uri;
      }
      soapUri := uri;
      mantisUri := InstanceRoot(uri);
      if forall j :: 0 <= j < HostStart(uri) ==> !MatchAt(uri, ApiMarker, j) {
        RootsAgreeAfterScheme(uri);
      }
      this.service := service;
      this.atLeastThreshold := atLeastThreshold;
      this.langGetText := langGetText;
      mantisVersion := None;
      this.username := username;
      this.password := password;
      projects := None;
      effectiveUsername := None;
    }

    /** `getMantisVersion`: asks the service only while nothing is cached. */
    method GetMantisVersion() returns (r: Result<string, Error>)
      requires Valid()
      modifies this, service
      ensures Valid()
      ensures service.log == old(service.log) + VersionCalls(old(mantisVersion))
      ensures mantisVersion == VersionAfter(old(mantisVersion), service.respond(|old(service.log)|, McVersion))
      ensures r == (if mantisVersion.Some? then Ok(mantisVersion.value) else Err(SoapFault))
      ensures projects == old(projects) && effectiveUsername == old(effectiveUsername)
    {
      if mantisVersion.None? {
        var reply := service.Invoke(McVersion);
        if reply.Fault? {
          return Err(SoapFault);
        }
        mantisVersion := Some(reply.value.s);
      }
      return Ok(mantisVersion.value);
    }

    /** `getProjects`: asks the service only while nothing is cached. */
    method GetProjects() returns (r: Result<seq<Project>, Error>)
      requires Valid()
      modifies this, service
      ensures Valid()
      ensures service.log == old(service.log) + ProjectsCalls(old(projects), username, password)
      ensures projects == ProjectsAfter(old(projects),
                                        service.respond(|old(service.log)|, McProjectsGetUserAccessible(username, password)))
      ensures r == (if projects.Some? then Ok(projects.value) else Err(SoapFault))
      ensures mantisVersion == old(mantisVersion) && effectiveUsername == old(effectiveUsername)
    {
      if projects.None? {
        var reply := service.Invoke(McProjectsGetUserAccessible(username, password));
        if reply.Fault? {
          return Err(SoapFault);
        }
        projects := Some(reply.projects);
      }
      return Ok(projects.value);
    }

    /** `getProjectById`: the first project of the (cached) project tree,
        in pre-order, with the id; `None` when there is none. */
    method GetProjectById(id: int) returns (r: Result<Option<Project>, Error>)
      requires Valid()
      modifies this, service
      ensures Valid()
      ensures service.log == old(service.log) + ProjectsCalls(old(projects), username, password)
      ensures projects == ProjectsAfter(old(projects),
                                        service.respond(|old(service.log)|, McProjectsGetUserAccessible(username, password)))
      ensures r == (if projects.Some? then Ok(FirstWithId(PreOrder(projects.value), id)) else Err(SoapFault))
      ensures mantisVersion == old(mantisVersion) && effectiveUsername == old(effectiveUsername)
    {
      var list :- GetProjects();
      var found := ProjectFromTree(id, list);
      SearchFromIsFirstInPreOrder(id, list, 0);
      return Ok(found);
    }

    /** `isAnonymousAccess`. */
    predicate IsAnonymousAccess()
      reads this
    {
      IsAnonymous(username, effectiveUsername)
    }

    /** `getStandardFiltersList`: the standard filters offered for the
        instance's version and the session's anonymity. */
    method GetStandardFiltersList() returns (r: Result<seq<Filter>, Error>)
      requires Valid()
      modifies this, service
      ensures Valid()
      ensures service.log == old(service.log) + VersionCalls(old(mantisVersion))
      ensures mantisVersion == VersionAfter(old(mantisVersion), service.respond(|old(service.log)|, McVersion))
      ensures projects == old(projects) && effectiveUsername == old(effectiveUsername)
      ensures mantisVersion.None? ==> r == Err(SoapFault)
      ensures mantisVersion.Some? ==>
        r == Ok(StandardFilters(edition, atLeastThreshold(mantisVersion.value), IsAnonymousAccess(), langGetText))
    {
      var anonymous := IsAnonymousAccess();
      var version :- GetMantisVersion();
      var filters := BuildStandardFilters(edition, atLeastThreshold(version), anonymous, langGetText);
      return Ok(filters);
    }

    /** `getCustomFiltersList`: the project's saved filters, or an empty list
        when the reply is not an array. */
    method GetCustomFiltersList(projectId: int) returns (r: Result<seq<Value>, Error>)
      requires Valid()
      modifies service
      ensures Valid()
      ensures service.log == old(service.log) + [McFilterGet(username, password, projectId)]
      ensures r == CustomFilters(service.respond(|old(service.log)|, McFilterGet(username, password, projectId)))
    {
      var reply := service.Invoke(McFilterGet(username, password, projectId));
      if reply.Fault? {
        return Err(SoapFault);
      }
      if !reply.value.List? {
        return Ok([]);
      }
      return Ok(reply.value.items);
    }

    /** `userExists`: refuses below MantisBT 1.2.16 without probing;
        otherwise probes for issues reported by the user. */
    method UserExists(user: UserRef) returns (r: Result<bool, Error>)
      requires Valid()
      modifies this, service
      ensures Valid()
      ensures mantisVersion == VersionAfter(old(mantisVersion), service.respond(|old(service.log)|, McVersion))
      ensures projects == old(projects) && effectiveUsername == old(effectiveUsername)
      ensures mantisVersion.None? ==>
        r == Err(SoapFault) && service.log == old(service.log) + VersionCalls(old(mantisVersion))
      ensures mantisVersion.Some? && !atLeastThreshold(mantisVersion.value) ==>
        r == Err(Unsupported(UserExistsUnsupported))
        && service.log == old(service.log) + VersionCalls(old(mantisVersion))
      ensures mantisVersion.Some? && atLeastThreshold(mantisVersion.value) ==>
        var probe := ProbeCall(edition, username, password, user);
        var before := old(service.log) + VersionCalls(old(mantisVersion));
        service.log == before + [probe] && r == ProbeOutcome(edition, service.respond(|before|, probe))
    {
      var version :- GetMantisVersion();
      if atLeastThreshold(version) {
        var reply := service.Invoke(ProbeCall(edition, username, password, user));
        if reply.Fault? {
          return CaughtFault(edition);
        }
        return Ok(true);
      } else {
        return Err(Unsupported(UserExistsUnsupported));
      }
    }

    /** `getIssues`: exactly one listing call, chosen by `Route`; the
        version is looked up only for a filter that is not a custom
        filter. `perPage` is `$g_issues_list_limit`. */
    method GetIssues(projectId: int, page: int, filter: FilterId, perPage: int)
      returns (r: Result<Value, Error>)
      requires Valid()
      modifies this, service
      ensures Valid()
      ensures projects == old(projects) && effectiveUsername == old(effectiveUsername)
      ensures IsCustomFilter(filter) ==>
        var call := McFilterGetIssues(username, password, projectId, filter.n, page, perPage);
        mantisVersion == old(mantisVersion) && service.log == old(service.log) + [call]
        && r == PlainOutcome(service.respond(|old(service.log)|, call))
      ensures !IsCustomFilter(filter) ==>
        mantisVersion == VersionAfter(old(mantisVersion), service.respond(|old(service.log)|, McVersion))
      ensures !IsCustomFilter(filter) && mantisVersion.None? ==>
        r == Err(SoapFault) && service.log == old(service.log) + VersionCalls(old(mantisVersion))
      ensures !IsCustomFilter(filter) && mantisVersion.Some? ==>
        var call := Route(username, password, projectId, page, perPage, filter,
                          atLeastThreshold(mantisVersion.value), effectiveUsername);
        var before := old(service.log) + VersionCalls(old(mantisVersion));
        service.log == before + [call] && r == PlainOutcome(service.respond(|before|, call))
      ensures CountListing(service.log) ==
        CountListing(old(service.log)) + (if IsCustomFilter(filter) || mantisVersion.Some? then 1 else 0)
    {
      var call;
      if IsCustomFilter(filter) {
        call := McFilterGetIssues(username, password, projectId, filter.n, page, perPage);
      } else {
        var version := GetMantisVersion();
        CountListingAppend(old(service.log), VersionCalls(old(mantisVersion)));
        if version.Err? {
          return Err(version.error);
        }
        call := Route(username, password, projectId, page, perPage, filter,
                      atLeastThreshold(version.value), effectiveUsername);
      }
      ghost var before := service.log;
      var reply := service.Invoke(call);
      CountListingAppend(before, [call]);
      r := PlainOutcome(reply);
    }

    /** `getIssue`: the issue, with custom fields defaulted to empty. */
    method GetIssue(issueId: int) returns (r: Result<Issue, Error>)
      requires Valid()
      modifies service
      ensures Valid()
      ensures service.log == old(service.log) + [McIssueGet(username, password, issueId)]
      ensures r == IssueOutcome(service.respond(|old(service.log)|, McIssueGet(username, password, issueId)))
    {
      var reply := service.Invoke(McIssueGet(username, password, issueId));
      if reply.Fault? {
        return Err(SoapFault);
      }
      var issue := reply.issue;
      if issue.customFields.None? {
        issue := issue.(customFields := Some([]));
      }
      return Ok(issue);
    }

    /** `addNote`: sends the note payload and returns the service's reply
        (the new note's id). */
    method AddNote(issueId: int, text: string, viewState: Option<ViewState>) returns (r: Result<Value, Error>)
      requires Valid()
      modifies service
      ensures Valid()
      ensures var call := McIssueNoteAdd(username, password, issueId, NotePayload(edition, text, viewState));
        service.log == old(service.log) + [call] && r == PlainOutcome(service.respond(|old(service.log)|, call))
    {
      var data := NoteData(text, None);
      if edition == Namespaced && viewState.Some? {
        data := data.(viewState := viewState);
      }
      var reply := service.Invoke(McIssueNoteAdd(username, password, issueId, data));
      r := PlainOutcome(reply);
    }

    /** `getNote`: fetches the issue and returns its note with `noteId`. */
    method GetNote(issueId: int, noteId: int) returns (r: Result<Option<Note>, Error>)
      requires Valid()
      modifies service
      ensures Valid()
      ensures service.log == old(service.log) + [McIssueGet(username, password, issueId)]
      ensures var issue := IssueOutcome(service.respond(|old(service.log)|, McIssueGet(username, password, issueId)));
        r == (if issue.Ok? then Ok(NoteIn(issue.value, noteId)) else Err(SoapFault))
    {
      var issue :- GetIssue(issueId);
      if issue.notes.Some? {
        var i := IndexOfKey(issue.notes.value, NoteKey, noteId);
        if i.Some? {
          return Ok(issue.notes.value[i.value]);
        }
      }
      return Ok(None);
    }

    /** `updateNote`: sends `{id, text}`; a falsy reply is an error. */
    method UpdateNote(id: int, text: string) returns (r: Result<(), Error>)
      requires Valid()
      modifies service
      ensures Valid()
      ensures var call := McIssueNoteUpdate(username, password, NoteUpdate(id, text));
        service.log == old(service.log) + [call] && r == NoteUpdateOutcome(service.respond(|old(service.log)|, call))
    {
      var reply := service.Invoke(McIssueNoteUpdate(username, password, NoteUpdate(id, text)));
      if reply.Fault? {
        return Err(SoapFault);
      }
      if !TruthyReply(reply) {
        return Err(OperationFailed(NoteUpdateFailed));
      }
      return Ok(());
    }

    /** `checkAnonymousAccess`: tries to log in with empty credentials. */
    method CheckAnonymousAccess() returns (r: Result<bool, Error>)
      requires Valid()
      modifies service
      ensures Valid()
      ensures service.log == old(service.log) + [McLogin("", "")]
      ensures r == AnonymousAccessOutcome(edition, service.respond(|old(service.log)|, McLogin("", "")))
    {
      var reply := service.Invoke(McLogin("", ""));
      if reply.Fault? {
        return CaughtFault(edition);
      }
      if edition == Namespaced {
        return Ok(TruthyReply(reply));
      }
      return Ok(true);
    }

    /** `authenticateUser`: looks up the version, logs in, and on success
        adopts the account name as the effective user. */
    method AuthenticateUser() returns (r: Result<UserData, Error>)
      requires Valid()
      modifies this, service
      ensures Valid()
      ensures mantisVersion == VersionAfter(old(mantisVersion), service.respond(|old(service.log)|, McVersion))
      ensures projects == old(projects)
      ensures mantisVersion.None? ==>
        r == Err(SoapFault) && service.log == old(service.log) + VersionCalls(old(mantisVersion))
        && effectiveUsername == old(effectiveUsername)
      ensures mantisVersion.Some? ==>
        var before := old(service.log) + VersionCalls(old(mantisVersion));
        var reply := service.respond(|before|, McLogin(username, password));
        service.log == before + [McLogin(username, password)]
        && (reply.Fault? ==> r == Err(SoapFault) && effectiveUsername == old(effectiveUsername))
        && (reply.LoginRecord? ==> r == Ok(UserDataOf(reply.login))
                                   && effectiveUsername == Some(reply.login.account.name))
    {
      var version :- GetMantisVersion();
      var reply := service.Invoke(McLogin(username, password));
      if reply.Fault? {
        return Err(SoapFault);
      }
      var data := UserDataOf(reply.login);
      effectiveUsername := Some(reply.login.account.name);
      return Ok(data);
    }

    /** `setEffectiveUserName`: sets the effective user and nothing else. */
    method SetEffectiveUserName(name: Option<string>)
      requires Valid()
      modifies this
      ensures Valid()
      ensures effectiveUsername == name
      ensures mantisVersion == old(mantisVersion) && projects == old(projects)
      ensures IsAnonymousAccess() <==> name.Some? && name.value != "" && name.value != username
    {
      effectiveUsername := name;
    }

    /** `getIssueAttachment`: fetches the issue, finds the attachment and,
        only when it is found, fetches its content into it. */
    method GetIssueAttachment(issueId: int, fileId: int) returns (r: Result<Option<Attachment>, Error>)
      requires Valid()
      modifies service
      ensures Valid()
      ensures var issueCall := McIssueGet(username, password, issueId);
        var issue := IssueOutcome(service.respond(|old(service.log)|, issueCall));
        var contentCall := McIssueAttachmentGet(username, password, fileId);
        if issue.Err? then
          r == Err(SoapFault) && service.log == old(service.log) + [issueCall]
        else if AttachmentIn(issue.value, fileId).None? then
          r == Ok(None) && service.log == old(service.log) + [issueCall]
        else
          var content := service.respond(|old(service.log)| + 1, contentCall);
          service.log == old(service.log) + [issueCall, contentCall]
          && r == (if content.Plain?
                   then Ok(Some(AttachmentIn(issue.value, fileId).value.(content := Some(content.value))))
                   else Err(SoapFault))
    {
      var issue :- GetIssue(issueId);
      var attachments := if issue.attachments.Some? then issue.attachments.value else [];
      var i := IndexOfKey(attachments, AttachmentKey, fileId);
      if i.None? {
        return Ok(None);
      }
      var attachment := attachments[i.value];
      var reply := service.Invoke(McIssueAttachmentGet(username, password, fileId));
      if reply.Fault? {
        return Err(SoapFault);
      }
      attachment := attachment.(content := Some(reply.value));
      return Ok(Some(attachment));
    }
  }
}
