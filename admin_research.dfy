/** frontend/src/pages/AdminResearch.jsx: the research projects admin view. It lists
    the projects, opens a form for a new one or for editing one, saves it and deletes
    projects behind a confirmation. */
module AdminResearch {
  import opened Wrappers
  import opened Text
  import opened Schemas
  import opened Browser
  import opened AdminCommon
  import Display
  import ResearchRouter

  datatype ProjectForm = ProjectForm(
    title: string, description: string, imageUrl: string, projectUrl: string,
    technologies: string, status: Option<string>, startDate: string, endDate: string,
    order: Option<int>)

  /** The choices of the status drop-down, the first being the default. */
  const StatusOptions := ["Completed", "Ongoing", "Planned"]

  /** The empty form: status "Completed", order 0. */
  const DefaultForm := ProjectForm("", "", "", "", "", Some("Completed"), "", "", Some(0))

  /** The form `handleEdit` fills from a project: a missing link, technology list or
      date becomes the empty string; title, description, status and order are
      copied. */
  function FormFor(p: ResearchProjectResponse): (f: ProjectForm)
    ensures f.title == p.project.title && f.description == p.project.description
    ensures f.status == p.project.status && f.order == p.project.order
    ensures f.imageUrl == OrElse(p.project.imageUrl, "") && f.projectUrl == OrElse(p.project.projectUrl, "")
    ensures f.technologies == OrElse(p.project.technologies, "")
    ensures f.startDate == OrElse(p.project.startDate, "") && f.endDate == OrElse(p.project.endDate, "")
  {
    ProjectForm(
      p.project.title, p.project.description, OrElse(p.project.imageUrl, ""),
      OrElse(p.project.projectUrl, ""), OrElse(p.project.technologies, ""), p.project.status,
      OrElse(p.project.startDate, ""), OrElse(p.project.endDate, ""), p.project.order)
  }

  /** A project with every optional text set survives the round trip through the edit
      form. */
  lemma FormForRoundTrip(p: ResearchProjectResponse)
    requires Truthy(p.project.imageUrl) && Truthy(p.project.projectUrl) && Truthy(p.project.technologies)
    requires Truthy(p.project.startDate) && Truthy(p.project.endDate)
    ensures var f := FormFor(p);
            ResearchProject(f.title, f.description, Some(f.imageUrl), Some(f.projectUrl), Some(f.technologies),
                            f.status, Some(f.startDate), Some(f.endDate), f.order) == p.project
  {
  }

  /** Every status the form offers gets its own badge colour in the list. */
  lemma StatusOptionsDistinctBadges(i: nat, j: nat)
    requires i < j < |StatusOptions|
    ensures Display.StatusBadge(Some(StatusOptions[i])) != Display.StatusBadge(Some(StatusOptions[j]))
  {
    Display.StatusOptionsBadges();
  }

  /** The title the delete prompt names. */
  function ProjectTitle(projects: seq<ResearchProjectResponse>, id: int): string {
    RecordTitle(projects, id, (p: ResearchProjectResponse) => p.id, (p: ResearchProjectResponse) => p.project.title, "this project")
  }

  class ProjectAdmin {
    const window: Window
    var projects: seq<ResearchProjectResponse>
    var showForm: bool
    var editingId: Option<int>
    var formData: ProjectForm
    var calls: seq<Call<ProjectForm>>

    /** A closed form edits nothing. */
    ghost predicate Valid()
      reads this
    {
      !showForm ==> editingId == None
    }

    constructor (w: Window)
      ensures Valid()
      ensures window == w && projects == [] && !showForm && editingId == None
      ensures formData == DefaultForm && calls == []
    {
      window := w;
      projects := [];
      showForm := false;
      editingId := None;
      formData := DefaultForm;
      calls := [];
    }

    /** `fetchProjects`: on success every stored project in display order; on failure
        the list is kept. */
    method FetchProjects(rows: seq<ResearchProjectResponse>, nullsLargest: bool, reachable: bool)
      requires Valid()
      modifies this
      ensures Valid()
      ensures calls == old(calls) + [FetchAll]
      ensures projects == if reachable then ResearchRouter.GetAllProjects(rows, nullsLargest) else old(projects)
      ensures reachable ==> multiset(projects) == multiset(rows)
      ensures showForm == old(showForm) && editingId == old(editingId) && formData == old(formData)
    {
      calls := calls + [FetchAll];
      if reachable {
        projects := ResearchRouter.GetAllProjects(rows, nullsLargest);
      }
    }

    /** `verifyAuthentication`, the only mount effect: the list is fetched only once
        the backend accepts the token. */
    method VerifyAuthentication(verified: bool, rows: seq<ResearchProjectResponse>, nullsLargest: bool, reachable: bool)
      requires Valid()
      modifies this, window
      ensures Valid()
      ensures !Truthy(old(window.adminToken)) ==>
                calls == old(calls) && projects == old(projects) &&
                window.history == old(window.history) + [LoginPath] && window.adminToken == old(window.adminToken)
      ensures Truthy(old(window.adminToken)) && verified ==>
                calls == old(calls) + [Verify, FetchAll] &&
                projects == (if reachable then ResearchRouter.GetAllProjects(rows, nullsLargest) else old(projects)) &&
                window.adminToken == old(window.adminToken) && window.history == old(window.history)
      ensures Truthy(old(window.adminToken)) && !verified ==>
                calls == old(calls) + [Verify] && projects == old(projects) &&
                window.adminToken == None && window.history == old(window.history) + [LoginPath]
      ensures showForm == old(showForm) && editingId == old(editingId) && formData == old(formData)
    {
      if !Truthy(window.adminToken) {
        window.Navigate(LoginPath);
        return;
      }
      calls := calls + [Verify];
      if verified {
        FetchProjects(rows, nullsLargest, reachable);
      } else {
        window.Logout();
      }
    }

    method HandleLogout()
      modifies window
      ensures window.adminToken == None && window.history == old(window.history) + [LoginPath]
    {
      window.Logout();
    }

    /** `handleEdit(project)`: the form filled from the project, open, editing it. */
    method HandleEdit(p: ResearchProjectResponse)
      requires Valid()
      modifies this
      ensures Valid()
      ensures formData == FormFor(p) && editingId == Some(p.id) && showForm
      ensures projects == old(projects) && calls == old(calls)
    {
      formData := FormFor(p);
      editingId := Some(p.id);
      showForm := true;
    }

    /** `resetForm`: the defaults, closed, editing nothing. */
    method ResetForm()
      modifies this
      ensures Valid()
      ensures formData == DefaultForm && !showForm && editingId == None
      ensures projects == old(projects) && calls == old(calls)
    {
      formData := DefaultForm;
      showForm := false;
      editingId := None;
    }

    /** The header button: opens the form as it is, or closes it through `resetForm`. */
    method ToggleForm()
      requires Valid()
      modifies this
      ensures Valid()
      ensures showForm == !old(showForm)
      ensures old(showForm) ==> editingId == None && formData == DefaultForm
      ensures !old(showForm) ==> editingId == old(editingId) && formData == old(formData)
      ensures projects == old(projects) && calls == old(calls)
    {
      if showForm {
        ResetForm();
      } else {
        showForm := true;
      }
    }

    /** The status drop-down: one of its three options. */
    method SetStatus(choice: string)
      requires choice in StatusOptions
      modifies this
      ensures formData == old(formData).(status := Some(choice))
      ensures showForm == old(showForm) && editingId == old(editingId)
      ensures projects == old(projects) && calls == old(calls)
    {
      formData := formData.(status := Some(choice));
    }

    /** The order input: `parseInt(value)`, with no fallback, so a cleared field is NaN
        and goes to the backend as JSON null. */
    method SetOrder(value: string)
      modifies this
      ensures formData == old(formData).(order := ParseInt(value))
      ensures value == "" ==> formData.order == None
      ensures showForm == old(showForm) && editingId == old(editingId)
      ensures projects == old(projects) && calls == old(calls)
    {
      ParseIntDefined(value);
      formData := formData.(order := ParseInt(value));
    }

    /** The browser refuses to submit with an empty title or description, or a link
        it does not read as a URL. */
    predicate Blocked(urlsAccepted: bool)
      reads this
    {
      formData.title == "" || formData.description == "" || !urlsAccepted
    }

    /** `handleSubmit`: an update of the project being edited, or a new one. A saved
        form goes through `resetForm` and the list is fetched again; a failed save
        changes nothing but the calls made. `urlsAccepted` is the browser's verdict on
        the image and project links, which always accepts empty ones. */
    method HandleSubmit(urlsAccepted: bool, saved: bool, rows: seq<ResearchProjectResponse>, nullsLargest: bool, reachable: bool)
      requires Valid() && showForm
      requires formData.imageUrl == "" && formData.projectUrl == "" ==> urlsAccepted
      modifies this
      ensures Valid()
      ensures old(Blocked(urlsAccepted)) ==>
                calls == old(calls) && formData == old(formData) && showForm && editingId == old(editingId) &&
                projects == old(projects)
      ensures !old(Blocked(urlsAccepted)) && !saved ==>
                calls == old(calls) + [SaveCall(old(editingId), old(formData))] &&
                formData == old(formData) && showForm && editingId == old(editingId) && projects == old(projects)
      ensures !old(Blocked(urlsAccepted)) && saved ==>
                calls == old(calls) + [SaveCall(old(editingId), old(formData)), FetchAll] &&
                formData == DefaultForm && !showForm && editingId == None &&
                projects == (if reachable then ResearchRouter.GetAllProjects(rows, nullsLargest) else old(projects))
    {
      if Blocked(urlsAccepted) {
        return;
      }
      calls := calls + [SaveCall(editingId, formData)];
      if saved {
        ResetForm();
        FetchProjects(rows, nullsLargest, reachable);
      }
    }

    /** `handleDelete(id)`: the shorter prompt names the project; a refused prompt
        calls nothing, an accepted one deletes and, when that succeeds, fetches the
        list. */
    method HandleDelete(id: int, confirmed: bool, deleted: bool, rows: seq<ResearchProjectResponse>, nullsLargest: bool, reachable: bool)
      returns (prompt: string)
      requires Valid()
      modifies this
      ensures Valid()
      ensures prompt == ShortDeletePrompt(ProjectTitle(old(projects), id))
      ensures !confirmed ==> calls == old(calls) && projects == old(projects)
      ensures confirmed && !deleted ==> calls == old(calls) + [Delete(id)] && projects == old(projects)
      ensures confirmed && deleted ==>
                calls == old(calls) + [Delete(id), FetchAll] &&
                projects == (if reachable then ResearchRouter.GetAllProjects(rows, nullsLargest) else old(projects))
      ensures showForm == old(showForm) && editingId == old(editingId) && formData == old(formData)
    {
      prompt := ShortDeletePrompt(ProjectTitle(projects, id));
      if !confirmed {
        return;
      }
      calls := calls + [Delete(id)];
      if deleted {
        FetchProjects(rows, nullsLargest, reachable);
      }
    }
  }
}
