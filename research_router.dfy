/** backend/app/routers/research.py: every project in its display order; one project by
    id; the creation of a project. */
module ResearchRouter {
  import opened Wrappers
  import opened Schemas
  import opened Listing

  /** The `research_projects` table: its rows in insertion order and the next id. */
  class ProjectTable {
    var rows: seq<ResearchProjectResponse>
    var nextId: int

    ghost predicate Valid()
      reads this
    {
      nextId >= 1 &&
      (forall i :: 0 <= i < |rows| ==> 1 <= rows[i].id < nextId) &&
      (forall i, j :: 0 <= i < j < |rows| ==> rows[i].id < rows[j].id) &&
      (forall i :: 0 <= i < |rows| ==> rows[i].project.status.Some? && rows[i].project.order.Some?)
    }

    constructor ()
      ensures Valid() && rows == []
    {
      rows := [];
      nextId := 1;
    }

    /** `create_project`: one new row with the payload as stored and a fresh id. */
    method CreateProject(project: ResearchProject) returns (r: ResearchProjectResponse)
      requires Valid()
      modifies this
      ensures Valid()
      ensures r.project == StoredProject(project)
      ensures rows == old(rows) + [r]
      ensures forall x :: x in old(rows) ==> x.id != r.id
    {
      r := ResearchProjectResponse(nextId, StoredProject(project));
      rows := rows + [r];
      nextId := nextId + 1;
    }
  }

  /** The row the ORM inserts for a project: a None `status` or `order` is not sent, so
      the column default, "Completed" or 0, is stored instead. Every other field is
      stored as given, NULL included. */
  function StoredProject(project: ResearchProject): (s: ResearchProject)
    ensures s.status == Some(project.status.GetOr("Completed"))
    ensures s.order == Some(project.order.GetOr(0))
    ensures s.(status := project.status, order := project.order) == project
  {
    project.(status := Some(project.status.GetOr("Completed")), order := Some(project.order.GetOr(0)))
  }

  /** `order_by(order)`, ascending. */
  predicate ProjectBefore(a: ResearchProjectResponse, b: ResearchProjectResponse, nullsLargest: bool) {
    AscLe(a.project.order, b.project.order, nullsLargest)
  }

  lemma ProjectBeforeIsTotalPreorder(nullsLargest: bool)
    ensures TotalPreorder((a, b) => ProjectBefore(a, b, nullsLargest))
  {
  }

  /** `get_all_projects()`: every row, smallest `order` first. */
  function GetAllProjects(rows: seq<ResearchProjectResponse>, nullsLargest: bool): (r: seq<ResearchProjectResponse>)
    ensures multiset(r) == multiset(rows)
    ensures SortedBy(r, (a, b) => ProjectBefore(a, b, nullsLargest))
  {
    ProjectBeforeIsTotalPreorder(nullsLargest);
    SortBySorted(rows, (a, b) => ProjectBefore(a, b, nullsLargest));
    SortBy(rows, (a, b) => ProjectBefore(a, b, nullsLargest))
  }

  /** Every stored project has an `order`, so the listing of a table filled through
      `create_project` is the same wherever the database sorts NULL. */
  lemma ProjectsListedIgnoringNulls(t: ProjectTable)
    requires t.Valid()
    ensures GetAllProjects(t.rows, true) == GetAllProjects(t.rows, false)
  {
    SortByAgree(t.rows, (a, b) => ProjectBefore(a, b, true), (a, b) => ProjectBefore(a, b, false));
  }

  /** `get_project(project_id)`: the row with that id, or a 404. */
  function GetProject(rows: seq<ResearchProjectResponse>, projectId: int): (r: Result<ResearchProjectResponse, HttpError>)
    ensures r.Success? ==> r.value in rows && r.value.id == projectId
    ensures r.Failure? <==> forall x :: x in rows ==> x.id != projectId
    ensures r.Failure? ==> r.error == HttpError(404, "Research project not found")
  {
    match First(rows, (p: ResearchProjectResponse) => p.id == projectId)
    case Some(p) => Success(p)
    case None => Failure(HttpError(404, "Research project not found"))
  }
}
