/** The project hierarchy returned by `mc_projects_get_user_accessible` and
    the client's depth-first search for a project by id. */
module Projects {
  import opened Base

  /** The `subprojects` field of a project record: `Unset` when the field is
      absent or is not an array, in which case the search does not descend. */
  datatype Subprojects = Unset | Listed(items: seq<Project>)

  /** A project record as the service returns it. */
  datatype Project = Project(id: int, name: string, subprojects: Subprojects)

  /** Every node of `forest[i..]` and of the subtrees below them, in
      pre-order: a node, then its whole subtree, then its later siblings. */
  function PreOrderFrom(forest: seq<Project>, i: nat): seq<Project>
    decreases Listed(forest), |forest| - i
  {
    if i >= |forest| then []
    else
      var p := forest[i];
      [p] + (if p.subprojects.Listed? then PreOrderFrom(p.subprojects.items, 0) else [])
        + PreOrderFrom(forest, i + 1)
  }

  /** Every node of a project forest in pre-order. */
  function PreOrder(forest: seq<Project>): seq<Project>
  {
    PreOrderFrom(forest, 0)
  }

  /** The subtree below a project that the search visits. */
  function Below(p: Project): seq<Project>
  {
    if p.subprojects.Listed? then PreOrder(p.subprojects.items) else []
  }

  /** The first node of a node list that carries `id`, if any. */
  function FirstWithId(nodes: seq<Project>, id: int): (r: Option<Project>)
    ensures r.Some? ==> r.value.id == id && r.value in nodes
    ensures r.None? <==> forall p :: p in nodes ==> p.id != id
  {
    if nodes == [] then None
    else if nodes[0].id == id then Some(nodes[0])
    else FirstWithId(nodes[1..], id)
  }

  /** The node found comes before every other node with that id. */
  lemma {:induction false} FirstWithIdIsFirst(nodes: seq<Project>, id: int, i: nat)
    requires i < |nodes| && nodes[i].id == id
    ensures FirstWithId(nodes, id).Some?
    ensures exists k :: 0 <= k <= i && nodes[k] == FirstWithId(nodes, id).value
    decreases i
  {
    if nodes[0].id != id {
      assert nodes[1..][i - 1] == nodes[i];
      FirstWithIdIsFirst(nodes[1..], id, i - 1);
      var k :| 0 <= k <= i - 1 && nodes[1..][k] == FirstWithId(nodes[1..], id).value;
      assert nodes[k + 1] == nodes[1..][k];
    } else {
      assert nodes[0] == FirstWithId(nodes, id).value;
    }
  }

  lemma {:induction false} FirstWithIdConcat(a: seq<Project>, b: seq<Project>, id: int)
    ensures FirstWithId(a + b, id) ==
      if FirstWithId(a, id).Some? then FirstWithId(a, id) else FirstWithId(b, id)
    decreases |a|
  {
    if a != [] {
      assert (a + b)[0] == a[0];
      assert (a + b)[1..] == a[1..] + b;
      FirstWithIdConcat(a[1..], b, id);
    } else {
      assert a + b == b;
    }
  }

  /** One step of the pre-order listing: node `i`, its subtree, the rest. */
  lemma PreOrderFromStep(forest: seq<Project>, i: nat)
    requires i < |forest|
    ensures PreOrderFrom(forest, i) == [forest[i]] + Below(forest[i]) + PreOrderFrom(forest, i + 1)
  {
  }

  /** What the listing from position `i` yields: project `i` if it
      matches, else a match below it, else a match among its later
      siblings. */
  lemma SearchStep(id: int, forest: seq<Project>, i: nat)
    requires i < |forest|
    ensures FirstWithId(PreOrderFrom(forest, i), id) ==
      if forest[i].id == id then Some(forest[i])
      else if FirstWithId(Below(forest[i]), id).Some? then FirstWithId(Below(forest[i]), id)
      else FirstWithId(PreOrderFrom(forest, i + 1), id)
  {
    var p := forest[i];
    var rest := PreOrderFrom(forest, i + 1);
    PreOrderFromStep(forest, i);
    assert [p] + Below(p) + rest == [p] + (Below(p) + rest);
    FirstWithIdConcat([p], Below(p) + rest, id);
    FirstWithIdConcat(Below(p), rest, id);
  }

  /** The search written as a recursion over positions: project `i`, then
      its listed subprojects, then its later siblings. */
  function SearchFrom(id: int, forest: seq<Project>, i: nat): (r: Option<Project>)
    ensures r.Some? ==> r.value.id == id
    decreases Listed(forest), |forest| - i
  {
    if i >= |forest| then None
    else if forest[i].id == id then Some(forest[i])
    else
      var below := if forest[i].subprojects.Listed? then SearchFrom(id, forest[i].subprojects.items, 0) else None;
      if below.Some? then below else SearchFrom(id, forest, i + 1)
  }

  /** The recursion finds the first match of the pre-order listing. */
  lemma {:induction false} SearchFromIsFirstInPreOrder(id: int, forest: seq<Project>, i: nat)
    ensures SearchFrom(id, forest, i) == FirstWithId(PreOrderFrom(forest, i), id)
    decreases Listed(forest), |forest| - i
  {
    if i < |forest| {
      SearchStep(id, forest, i);
      if forest[i].subprojects.Listed? {
        SearchFromIsFirstInPreOrder(id, forest[i].subprojects.items, 0);
      }
      SearchFromIsFirstInPreOrder(id, forest, i + 1);
    }
  }

  /** `getProjectFromProjectTree`: walk the list in order; return a project
      whose id matches, otherwise search its subprojects (when they form a
      list) and return what is found there; `None` (PHP `null`) when nothing
      matches. The result is `SearchFrom(id, projects, 0)`, which
      `SearchFromIsFirstInPreOrder` shows is the first node of the
      pre-order listing that carries the id. */
  method ProjectFromTree(id: int, projects: seq<Project>) returns (r: Option<Project>)
    ensures r == SearchFrom(id, projects, 0)
    decreases Listed(projects)
  {
    ghost var target := SearchFrom(id, projects, 0);
    var i := 0;
    while i < |projects|
      invariant 0 <= i <= |projects|
      invariant target == SearchFrom(id, projects, i)
    {
      var project := projects[i];
      if project.id == id {
        return Some(project);
      }
      if project.subprojects.Listed? {
        assert project in projects;
        var found := ProjectFromTree(id, project.subprojects.items);
        if found != None {
          return found;
        }
      }
      i := i + 1;
    }
    r := None;
  }

  /** Splitting the sibling list at `k` splits the pre-order listing there. */
  lemma {:induction false} PreOrderFromSplit(forest: seq<Project>, i: nat, k: nat)
    requires i <= k <= |forest|
    ensures PreOrderFrom(forest, i) == PreOrderFrom(forest[..k], i) + PreOrderFrom(forest, k)
    decreases k - i
  {
    if i < k {
      PreOrderFromSplit(forest, i + 1, k);
      assert forest[..k][i] == forest[i];
      PreOrderFromStep(forest, i);
      PreOrderFromStep(forest[..k], i);
    }
  }

  /** Earlier siblings' subtrees are searched before later siblings: a match
      among the first `k` projects is the answer for the whole list, and
      with no match there the answer is the one among the rest. */
  lemma SearchPrefersEarlierSiblings(id: int, forest: seq<Project>, k: nat)
    requires k <= |forest|
    ensures FirstWithId(PreOrder(forest), id) ==
      if FirstWithId(PreOrder(forest[..k]), id).Some? then FirstWithId(PreOrder(forest[..k]), id)
      else FirstWithId(PreOrderFrom(forest, k), id)
  {
    PreOrderFromSplit(forest, 0, k);
    FirstWithIdConcat(PreOrder(forest[..k]), PreOrderFrom(forest, k), id);
  }

  /** Every project of the list from position `i` on is in the listing. */
  lemma {:induction false} SiblingsListed(forest: seq<Project>, i: nat, j: nat)
    requires i <= j < |forest|
    ensures forest[j] in PreOrderFrom(forest, i)
    decreases j - i
  {
    PreOrderFromStep(forest, i);
    if i < j {
      SiblingsListed(forest, i + 1, j);
    }
  }

  /** The listing is closed under descent: the subprojects of every listed
      project are listed too, so the listing is the whole tree. */
  lemma {:induction false} ListingClosed(forest: seq<Project>, i: nat, p: Project, c: Project)
    requires p in PreOrderFrom(forest, i)
    requires p.subprojects.Listed? && c in p.subprojects.items
    ensures c in PreOrderFrom(forest, i)
    decreases Listed(forest), |forest| - i
  {
    PreOrderFromStep(forest, i);
    var q := forest[i];
    if p == q {
      var j :| 0 <= j < |q.subprojects.items| && q.subprojects.items[j] == c;
      SiblingsListed(q.subprojects.items, 0, j);
    } else if p in Below(q) {
      ListingClosed(q.subprojects.items, 0, p, c);
    } else {
      ListingClosed(forest, i + 1, p, c);
    }
  }

  /** The search finds a project exactly when some project anywhere in the
      tree carries the id, and what it finds carries that id. */
  lemma FoundIffInTree(id: int, forest: seq<Project>)
    ensures FirstWithId(PreOrder(forest), id).Some? <==>
      exists p :: p in PreOrder(forest) && p.id == id
    ensures forall j :: 0 <= j < |forest| && forest[j].id == id ==>
      FirstWithId(PreOrder(forest), id).Some?
  {
    forall j | 0 <= j < |forest| && forest[j].id == id
      ensures FirstWithId(PreOrder(forest), id).Some?
    {
      SiblingsListed(forest, 0, j);
    }
  }
}
