# MantisPhpClient in Dafny

A model of the core of MantisPhpClient, the PHP client for the MantisBT /
MantisHub SOAP API (`mantisconnect.php`). Most of the client forwards
`(username, password, …)` to one remote `mc_*` procedure. The model covers
the logic that sits inside that plumbing:

- **Endpoint resolution** in the constructor: trailing spaces and slashes
  are trimmed; `/api/soap/mantisconnect.php` is appended unless
  `mantisconnect.php` already occurs; `http://` is prefixed unless `http`
  occurs somewhere. Both searches are case-insensitive, like PHP's
  `stristr`. The instance root (`mantis_uri`) is then derived from the
  endpoint (modules `Text`, `Endpoint`).
- **The project tree search** (`getProjectFromProjectTree`). It is a
  depth-first, first-match search over the project forest. Its
  specification is the pre-order listing of the forest (module
  `Projects`).
- **The standard filter catalogue** (`getStandardFiltersList`) and the
  **routing of `getIssues`** to exactly one of three listing procedures
  (module `Filters`).
- **The session** (`Client.Session`). It holds:
  - the credentials;
  - the version and project caches;
  - the effective user name.

  It also holds every operation of the core, written step by step against
  a remote service. The shaping of replies, the id lookups and the
  outcome of each remote reply are pure functions beside it (module
  `Client`).

The remote SOAP service is `Remote.Service`, an oracle. The `n`-th call `c`
is answered by `respond(n, c)`, and every call is appended to a ghost
`log`. A reply is either a fault or a decoded value. `Conforms(respond)`
says each reply has the shape the service description gives the procedure
called. Every session contract states the exact calls the operation adds
to the log. That is how "no remote call once cached" and "exactly one
listing call" are expressed.

The two copies of the client are one class with an `edition` field:

- `Namespaced` is `src/MantisPhpClient.php`.
- `Legacy` is the root-level `MantisPhpClient.php`.

The copies differ in five places, and the model keeps those apart:

- the view state of `addNote`;
- filter names through `lang_get_text`;
- the result of `checkAnonymousAccess`;
- the project argument of the `userExists` probe;
- whether a caught SOAP fault is really caught.

On that last point, the namespaced copy's unqualified
`catch (Exception …)` inside `namespace MantisHub` names
`MantisHub\Exception`, so it does not catch a `SoapFault`. In that copy
the faults of `userExists` and `checkAnonymousAccess` therefore propagate
(`Client.CaughtFault`). The legacy copy catches them and answers `false`.
The library's descriptions of these methods say they answer `false`. The
model follows the code.

Calls to code outside the repository are parameters of the session:

- `atLeastThreshold` stands for `version_compare($v, '1.2.16dev') >= 0`.
- `langGetText` stands for the host application's `lang_get_text`.
- `getIssues` takes the page size (`$g_issues_list_limit`) as an argument.

## Model

| member | source | states |
|---|---|---|
| Text.FindFrom | src/MantisPhpClient.php:75 | the case-insensitive search behind `stristr`: the first match at or after `start`, and `None` exactly when there is no match there |
| Text.ContainsIff | src/MantisPhpClient.php:80 | `stristr(h, n) !== false` holds exactly when `n` occurs in `h` ignoring ASCII case |
| Text.TrimRight | src/MantisPhpClient.php:72 | `rtrim(s, ' /')` is a prefix of `s`; it ends in neither a space nor a slash; everything removed is spaces and slashes |
| Text.TrimRightUnique | src/MantisPhpClient.php:72 | trimming `core + pad` gives `core` whenever `core` does not end in a trim character and `pad` is all spaces and slashes |
| Endpoint.SoapUri | src/MantisPhpClient.php:72-82 | the resolver itself: trim trailing spaces and slashes, append `/api/soap/mantisconnect.php` unless `mantisconnect.php` occurs, prefix `http://` unless `http` occurs; its properties are the lemmas below |
| Endpoint.SoapUriHasMarkers | src/MantisPhpClient.php:72-82 | after construction `soap_uri` contains `mantisconnect.php` and `http`, case-insensitively, whatever the address |
| Endpoint.SoapUriKeepsGivenScheme | src/MantisPhpClient.php:80-82 | an address that already contains `http` is never given a second scheme |
| Endpoint.SoapUriOfBareAddress | src/MantisPhpClient.php:72-82 | a trimmed address with neither marker becomes `http://` + address + `/api/soap/mantisconnect.php` |
| Endpoint.SoapUriIdempotent | src/MantisPhpClient.php:72-82 | resolving `soap_uri` again yields `soap_uri` |
| Endpoint.SoapUriIgnoresTrailing | src/MantisPhpClient.php:72 | appending any run of spaces and slashes to the address does not change the endpoint |
| Endpoint.SoapUriOfSecureEndpoint | src/MantisPhpClient.php:72-82 | a full `https://host/api/soap/mantisconnect.php/` address keeps its scheme and loses only the trailing slash |
| Endpoint.InstanceRootAsWritten | src/MantisPhpClient.php:84-85 | `mantis_uri` as written is a prefix of `soap_uri` that ends at the first case-insensitive `/api`, or is all of it when there is none |
| Endpoint.InstanceRootAsWrittenOfBareHost | src/MantisPhpClient.php:84-85 | for a host with no space or slash that contains neither `http` nor `mantisconnect.php` and does not begin with `api`, `mantis_uri` as written is `http://host` |
| Endpoint.InstanceRootAsWrittenOfApiHost | src/MantisPhpClient.php:84-85 | for a host with no space or slash that contains neither `http` nor `mantisconnect.php` and begins with `api`, `mantis_uri` as written is `http:/` (see Findings) |
| Endpoint.InstanceRoot | src/MantisPhpClient.php:84-85 | the corrected root is a prefix of `soap_uri` ending at the first `/api` at or after the host, or all of it |
| Endpoint.RootsAgreeAfterScheme | src/MantisPhpClient.php:84-85 | the corrected root equals the root as written whenever no `/api` occurs before the host |
| Endpoint.InstanceRootOfBareHost | src/MantisPhpClient.php:84-85 | for every host with no space or slash that contains neither `http` nor `mantisconnect.php` (so both are added), the corrected root is `http://host` |
| Endpoint.InstanceRootOfSecureEndpoint | src/MantisPhpClient.php:84-85 | for a full `https://host/...` endpoint the corrected root is `https://host` |
| Client.Session.constructor | src/MantisPhpClient.php:71-85 | `soap_uri` is resolved from the address step by step and equals `SoapUri(url)`. `mantis_uri` is the corrected root `InstanceRoot(soap_uri)`, and it equals the root as written whenever no `/api` occurs before the host (see Findings). The version, projects and effective user start unset. The legacy copy, MantisPhpClient.php lines 64-78, does the same |
| Projects.ProjectFromTree | src/MantisPhpClient.php:365-380 | the `foreach` loop with its recursive descent returns exactly what `SearchFrom` gives: the current project if it carries the id, else a match below it, else the search over the later siblings (the legacy copy, MantisPhpClient.php lines 346-361, is the same) |
| Projects.SearchFrom | src/MantisPhpClient.php:365-380 | the recursion of `getProjectFromProjectTree` over positions: a project it returns carries the requested id |
| Projects.SearchFromIsFirstInPreOrder | src/MantisPhpClient.php:365-380 | that search returns exactly the first project of the pre-order listing that carries the id, or `None` when none does |
| Projects.SearchStep | src/MantisPhpClient.php:367-377 | the first pre-order match from a position is the project there when it matches, else the first match among its subprojects, else the first match among the later siblings |
| Projects.FirstWithId | src/MantisPhpClient.php:365-380 | a found node carries the requested id and is in the listing; nothing is found exactly when no listed node carries the id |
| Projects.FirstWithIdIsFirst | src/MantisPhpClient.php:366-368 | any node carrying the id guarantees a result, and the result comes no later in the listing than that node |
| Projects.SearchPrefersEarlierSiblings | src/MantisPhpClient.php:366-377 | the subtrees of earlier siblings are searched before later siblings; a match among the first `k` projects is the answer |
| Projects.ListingClosed | src/MantisPhpClient.php:370-371 | the search descends only into listed `subprojects`, and the subprojects of every listed project are listed too |
| Projects.SiblingsListed | src/MantisPhpClient.php:365-366 | every project of the list is visited |
| Projects.FoundIffInTree | src/MantisPhpClient.php:365-380 | the search finds a project exactly when some project of the tree carries the id; any top-level project with the id guarantees a result |
| Filters.Select | src/MantisPhpClient.php:168-189 | the offered filters are exactly the catalogue entries the version and anonymity allow, and they keep the catalogue's order (the result is a subsequence of the catalogue) |
| Filters.StandardFilterIdsCases | src/MantisPhpClient.php:168-189 | below 1.2.16: `[all]`; at or above and not anonymous: all five filters in order; at or above and anonymous: `[all, unassigned]` |
| Filters.StandardFilters | src/MantisPhpClient.php:168-189 | one filter per offered id, in the order of the offered ids: each is a catalogue entry allowed by the version and anonymity, named by `FilterName` |
| Filters.FilterName | MantisPhpClient.php:155-176 | a filter is named by its label key in the namespaced copy, and by `lang_get_text` of that key in the legacy copy |
| Filters.LangFallback | MantisPhpClient.php:730-737 | the fallback `lang_get_text` returns its argument |
| Filters.BuildStandardFilters | src/MantisPhpClient.php:169-186 | appending filters one at a time produces exactly the offered list with their names |
| Filters.LabelKey | src/MantisPhpClient.php:170 | `all` is labelled `all_issues`; every other filter's label is its id |
| Filters.NamespacedFilterNames | src/MantisPhpClient.php:168-189 | in the namespaced copy `all` is named `all_issues` and every other filter is named by its id |
| Filters.LegacyFallbackAgrees | MantisPhpClient.php:730-737 | with the fallback `lang_get_text`, the legacy list equals the namespaced one |
| Filters.Route | src/MantisPhpClient.php:413-458 | `getIssues` makes a listing call, with the session's credentials first |
| Filters.RouteCustomFilter | src/MantisPhpClient.php:417-421 | a positive numeric filter goes to `mc_filter_get_issues` with that id, whatever the version |
| Filters.RouteKeywords | src/MantisPhpClient.php:425-448 | from 1.2.16 on, the four keywords go to `mc_project_get_issues_for_user`. The relations are assigned, assigned, monitored and reported. The target is `{name: effective user}`, except `{id: 0}` for `unassigned` |
| Filters.RouteFallback | src/MantisPhpClient.php:452-455 | every other filter, and every keyword below 1.2.16, goes to `mc_project_get_issues` |
| Filters.OfferedFiltersRouted | src/MantisPhpClient.php:413-458 | every offered standard filter is routed: `all` lists all issues, every other one is a per-user listing |
| Client.FirstKeyed | src/MantisPhpClient.php:685-692 | the first position whose id matches; nothing earlier matches; `None` exactly when nothing matches |
| Client.IndexOfKey | src/MantisPhpClient.php:685-692 | the `foreach` with early exit finds exactly the first matching position |
| Client.NoteIn | src/MantisPhpClient.php:554-566 | the note returned carries the id and is the first non-null entry of the issue's notes to do so; `None` exactly when the notes are absent or no non-null note carries the id |
| Client.AttachmentIn | src/MantisPhpClient.php:685-696 | the attachment found carries the id and is the first of the issue's attachments to do so; `None` exactly when none does |
| Client.WithCustomFields | src/MantisPhpClient.php:474-482 | custom fields become `[]` only when absent or null; all other fields are unchanged |
| Client.CustomFilters | src/MantisPhpClient.php:196-203 | a SOAP fault propagates as the fault; an array reply is returned as it is; any other reply becomes `[]` |
| Remote.Truthy | src/MantisPhpClient.php:581 | PHP truthiness: `null`, `false`, `0`, `''`, `'0'` and the empty array are false, everything else true |
| Remote.TruthyReply | src/MantisPhpClient.php:602 | a decoded reply cast to a boolean: records are true, a project list is true unless empty, a plain value as `Truthy` |
| Client.NoteUpdateOutcome | src/MantisPhpClient.php:575-585 | `updateNote` succeeds exactly when the reply is truthy; a falsy reply throws "Unable to update issue note."; a SOAP fault propagates as the fault |
| Client.AnonymousAccessOutcome | src/MantisPhpClient.php:600-606 | the namespaced copy returns the login reply cast to a boolean, and a SOAP fault propagates as the fault; the legacy copy (MantisPhpClient.php lines 568-576) answers `true` whenever `mc_login('', '')` does not fail, whatever it returns, and `false` when it fails |
| Client.ProbeCall | src/MantisPhpClient.php:395 | the probe asks for issues the user reported, on page 1 with one issue per page; the legacy probe (MantisPhpClient.php line 375) sends the literal `'ALL_PROJECTS'` as the project |
| Client.ProbeOutcome | src/MantisPhpClient.php:394-399 | a probe reply means the user exists; a fault propagates in the namespaced copy, and in the legacy copy (MantisPhpClient.php lines 373-379) it means the user does not exist |
| Client.NotePayload | src/MantisPhpClient.php:523-533 | the note payload carries the text, plus the view state when one is given; the legacy payload (MantisPhpClient.php lines 496-502) carries only the text |
| Client.IsAnonymous | src/MantisPhpClient.php:653-655 | the session is anonymous exactly when the effective user is set, non-empty and differs from the configured user name |
| Client.UserDataOf | src/MantisPhpClient.php:622-627 | the returned user data copies the account fields and gives `real_name` as `''` when absent |
| Client.Session.GetMantisVersion | src/MantisPhpClient.php:147-153 | `mc_version` is called only while the cache is empty; once a version is cached it is returned with no call |
| Client.Session.GetProjects | src/MantisPhpClient.php:333-339 | `mc_projects_get_user_accessible` is called only while the cache is empty; after that the cached list is returned with no call |
| Client.Session.GetProjectById | src/MantisPhpClient.php:346-349 | the result is the first pre-order match in the (possibly cached) project list |
| Client.Session.GetStandardFiltersList | src/MantisPhpClient.php:168-189 | the result is the offered list for the looked-up version and the session's anonymity; a version fault propagates |
| Client.Session.GetCustomFiltersList | src/MantisPhpClient.php:196-203 | one `mc_filter_get` call; an array reply is returned, anything else becomes `[]` |
| Client.Session.UserExists | src/MantisPhpClient.php:390-403 | below 1.2.16 it throws "userExists() can only be called on v1.2.16+." without probing; otherwise it sends exactly one probe and answers from it |
| Client.Session.GetIssues | src/MantisPhpClient.php:413-458 | exactly one listing call, the one `Route` chooses; the version is looked up only for a filter that is not a custom filter |
| Client.Session.GetIssue | src/MantisPhpClient.php:474-482 | one `mc_issue_get` call; the issue is returned with its custom fields defaulted |
| Client.Session.AddNote | src/MantisPhpClient.php:523-533 | one `mc_issue_note_add` call with the edition's payload; the reply is returned |
| Client.Session.GetNote | src/MantisPhpClient.php:554-566 | one `mc_issue_get` call; the result is the issue's first non-null note with the id, or `None` |
| Client.Session.UpdateNote | src/MantisPhpClient.php:575-585 | one `mc_issue_note_update` call with `{id, text}`; it throws exactly when the reply is falsy |
| Client.Session.CheckAnonymousAccess | src/MantisPhpClient.php:600-606 | one `mc_login('', '')` call, answered as each copy does |
| Client.Session.AuthenticateUser | src/MantisPhpClient.php:614-642 | the version is looked up first; a successful login sets the effective user to the account name and returns its user data; a fault leaves the effective user unchanged |
| Client.Session.SetEffectiveUserName | src/MantisPhpClient.php:647-656 | only the effective user changes. The session is then anonymous exactly when that name is set, non-empty and not the configured user name |
| Client.Session.GetIssueAttachment | src/MantisPhpClient.php:680-701 | the issue is fetched; with no matching attachment the answer is `None` and `mc_issue_attachment_get` is not called; otherwise the content is fetched once and stored in the attachment |

## Left out

- Transport is not modelled: `SoapClient` construction and its options, WSDL caching, the user agent, `validate()`, `getResponse()`, `getMantisUri()` and `getMantisSoapUri()`. The service is the `Remote.Service` oracle.
- The one-line pass-throughs are not modelled, because each only forwards its arguments to one remote procedure. They are `getCategoriesList`, `getEnum*`, `getVersionsList`, `getProjectUsers`, `getProjectIdByName`, `addIssue`, `updateIssue`, `deleteIssue`, `deleteNote`, `getCustomFieldDefinitions`, `getDefaultProject`, `getUserLanguage`, `getConfigString` and `getUserPreference`.
- `version_compare` and the host's `lang_get_text` are not part of the repository; they are the session parameters `atLeastThreshold` and `langGetText`.
- `setTimeZone` is not modelled, because it changes the process-wide timezone and depends on the runtime's zone table.
- `addAttachment` is not modelled, because it reads a file (`file_get_contents`). The `error_log` calls are not modelled either.
- Client.Session.AuthenticateUser: the failure path does not model the logged line.
- PHP's loose comparisons are not modelled: ids are integers and user names plain strings. So `==` between numeric strings (`"1" == "01"`) and `empty("0")` in `isAnonymousAccess` are not captured.
- Client.Session.GetIssues: the filter id is `Numeric(n)` or `Keyword(k)`; a numeric string is represented by its value.
- Client.Session.GetIssues: the legacy `switch ( $p_filter_id )` has no `(string)` cast. Before PHP 8 the integer `0` loosely equals `'assigned_to_me'` there, so the default filter would route to the assigned-to-me listing. The model follows PHP 8, under which both copies route identically.
- Client.Session.GetIssue and Client.Session.GetIssueAttachment return updated values. PHP sets `custom_fields` and `content` on the object it received, so aliasing of that object is not captured.
- Client.Session.constructor: stores the corrected root `InstanceRoot(soap_uri)` as `mantis_uri`, not the prefix before the first `/api` anywhere that the source computes. The two differ only when `/api` occurs before the host, as in the Findings row; `Endpoint.InstanceRootAsWritten` models the source's computation.
- Case folding is ASCII only. PHP's `stristr` before PHP 8.2 folds case by the current locale, so non-ASCII letters in an address are not matched case-insensitively here.
- Replies whose shape differs from the service description (for example a non-object from `mc_issue_get`, where PHP would fail on the property access) are excluded by `Remote.Conforms`.
- `samples/create_issue.php` is a demo caller and is not part of this model.

## Findings

| source | as written | input that shows it | evidently intended | confidence | as-written member | corrected member |
|---|---|---|---|---|---|---|
| src/MantisPhpClient.php:84-85 (also MantisPhpClient.php:77-78) | `mantis_uri` ends at the first case-insensitive `/api` anywhere in `soap_uri`, including the second slash of `://` | address `apimantis.example.com`: `soap_uri` is `http://apimantis.example.com/api/soap/mantisconnect.php`, and `mantis_uri` comes out as `http:/` | the root of the instance, `http://apimantis.example.com`, found by looking for `/api` only from the host on | not executed | Endpoint.InstanceRootAsWrittenOfApiHost | Endpoint.InstanceRootOfBareHost |
