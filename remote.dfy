/** The MantisBT SOAP service as the client sees it: the remote procedures
    the client calls, the shapes of their replies, and an oracle that
    answers each call and records it in a log. */
module Remote {
  import opened Base
  import opened Projects

  /** A loosely typed PHP value, for replies the client passes on without
      looking inside. */
  datatype Value =
    | Null
    | Bool(b: bool)
    | Int(i: int)
    | Str(s: string)
    | List(items: seq<Value>)
    | Object(fields: map<string, Value>)

  /** PHP truthiness of a value, as used by `if ( !$t_result )`. */
  predicate Truthy(v: Value)
  {
    match v
    case Null => false
    case Bool(b) => b
    case Int(i) => i != 0
    case Str(s) => s != "" && s != "0"
    case List(items) => items != []
    case Object(_) => true
  }

  /** PHP truthiness of a decoded reply: records are objects, which are
      always true; a project list is true unless empty. */
  predicate TruthyReply(r: Reply)
  {
    match r
    case Fault => false
    case Plain(v) => Truthy(v)
    case Projects(ps) => ps != []
    case IssueRecord(_) => true
    case LoginRecord(_) => true
  }

  /** The relation argument of `mc_project_get_issues_for_user`. */
  datatype Relation = Assigned | Monitored | Reported

  /** The project argument of `mc_project_get_issues_for_user`: a project id,
      or a literal string sent in place of one. */
  datatype ProjectRef = ProjectId(id: int) | ProjectLiteral(literal: string)

  /** A user reference (`ObjectRef`-like): any of id, name and email. */
  datatype UserRef = UserRef(id: Option<int>, name: Option<string>, email: Option<string>)

  /** A note view state reference (public or private). */
  datatype ViewState = ViewState(id: Option<int>, name: Option<string>)

  /** The payload of `mc_issue_note_add`. */
  datatype NoteData = NoteData(text: string, viewState: Option<ViewState>)

  /** The payload of `mc_issue_note_update`. */
  datatype NoteUpdate = NoteUpdate(id: int, text: string)

  /** A note of an issue. */
  datatype Note = Note(id: int, text: string)

  /** An attachment record of an issue; `content` is absent in what the
      service returns and is filled in by the client. */
  datatype Attachment = Attachment(id: int, filename: string, content: Option<Value>)

  /** An issue record. A field is `None` when the service left it out or
      sent `null`; note entries can themselves be `null`. */
  datatype Issue = Issue(
    id: int,
    summary: string,
    customFields: Option<seq<Value>>,
    notes: Option<seq<Option<Note>>>,
    attachments: Option<seq<Attachment>>)

  /** The account part of the `mc_login` reply. */
  datatype Account = Account(name: string, id: int, realName: Option<string>, email: Option<string>)

  /** The `mc_login` reply. */
  datatype LoginData = LoginData(account: Account, accessLevel: Value, timezone: Value)

  /** The remote procedures the client core calls, with their arguments;
      the credentials come first wherever the procedure takes them. */
  datatype Call =
    | McVersion
    | McLogin(user: string, password: string)
    | McProjectsGetUserAccessible(user: string, password: string)
    | McFilterGet(user: string, password: string, projectId: int)
    | McFilterGetIssues(user: string, password: string, projectId: int, filterId: int, page: int, perPage: int)
    | McProjectGetIssuesForUser(user: string, password: string, project: ProjectRef, relation: Relation,
                                target: UserRef, page: int, perPage: int)
    | McProjectGetIssues(user: string, password: string, projectId: int, page: int, perPage: int)
    | McIssueGet(user: string, password: string, issueId: int)
    | McIssueNoteAdd(user: string, password: string, issueId: int, note: NoteData)
    | McIssueNoteUpdate(user: string, password: string, update: NoteUpdate)
    | McIssueAttachmentGet(user: string, password: string, fileId: int)

  /** The three procedures that list issues; `getIssues` calls exactly one. */
  predicate IsListing(c: Call)
  {
    c.McFilterGetIssues? || c.McProjectGetIssuesForUser? || c.McProjectGetIssues?
  }

  /** What the service answers: a SOAP fault, or a decoded reply. */
  datatype Reply =
    | Fault
    | Plain(value: Value)
    | Projects(projects: seq<Project>)
    | IssueRecord(issue: Issue)
    | LoginRecord(login: LoginData)

  /** A reply has the shape the service description gives the procedure
      called; any call may fail with a fault. */
  predicate Fits(c: Call, r: Reply)
  {
    r.Fault? ||
    match c
    case McVersion => r.Plain? && r.value.Str?
    case McLogin(_, _) => r.LoginRecord?
    case McProjectsGetUserAccessible(_, _) => r.Projects?
    case McIssueGet(_, _, _) => r.IssueRecord?
    case _ => r.Plain?
  }

  /** Every answer of the oracle fits the call it answers. */
  ghost predicate Conforms(respond: (nat, Call) -> Reply)
  {
    forall n: nat, c: Call :: Fits(c, respond(n, c))
  }

  /** Why a client operation throws. */
  datatype Error =
    | SoapFault
    | Unsupported(message: string)
    | OperationFailed(message: string)

  const UserExistsUnsupported := "userExists() can only be called on v1.2.16+."
  const NoteUpdateFailed := "Unable to update issue note."

  /** The remote service. The `n`-th call `c` is answered by `respond(n, c)`,
      so answers may change over time; `log` records every call made. */
  class Service {
    const respond: (nat, Call) -> Reply
    var served: nat
    ghost var log: seq<Call>

    ghost predicate Valid()
      reads this
    {
      served == |log| && Conforms(respond)
    }

    constructor (respond: (nat, Call) -> Reply)
      requires Conforms(respond)
      ensures Valid() && this.respond == respond && log == []
    {
      this.respond := respond;
      served := 0;
      log := [];
    }

    /** Sends one call and returns the service's answer to it. */
    method Invoke(c: Call) returns (r: Reply)
      requires Valid()
      modifies this
      ensures Valid()
      ensures log == old(log) + [c]
      ensures r == respond(|old(log)|, c) && Fits(c, r)
    {
      r := respond(served, c);
      log := log + [c];
      served := served + 1;
    }
  }
}
