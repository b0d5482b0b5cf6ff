/** frontend/src/pages/AdminPapers.jsx: the publications admin view. It lists the
    publications, opens a form for a new one or for editing one, saves it and deletes
    publications behind a confirmation. */
module AdminPapers {
  import opened Wrappers
  import opened Schemas
  import opened Browser
  import opened AdminCommon
  import PapersRouter

  datatype PaperForm = PaperForm(
    title: string, authors: string, journal: string, year: int, doi: string,
    pdfUrl: string, summary: string, citation: string, order: Option<int>)

  /** The empty form: this year, order 0. */
  function DefaultForm(currentYear: int): (f: PaperForm)
    ensures f.year == currentYear && f.order == Some(0)
    ensures f.title == f.authors == f.journal == f.doi == f.pdfUrl == f.summary == f.citation == ""
  {
    PaperForm("", "", "", currentYear, "", "", "", "", Some(0))
  }

  /** The form `handleEdit` fills from a publication: a missing or zero year becomes
      this year, a missing text field the empty string; title, authors and order are
      copied. */
  function FormFor(p: PublicationResponse, currentYear: int): (f: PaperForm)
    ensures f.title == p.paper.title && f.authors == p.paper.authors && f.order == p.paper.order
    ensures f.year == if TruthyInt(p.paper.year) then p.paper.year.value else currentYear
    ensures f.journal == OrElse(p.paper.journal, "") && f.doi == OrElse(p.paper.doi, "")
    ensures f.pdfUrl == OrElse(p.paper.pdfUrl, "") && f.summary == OrElse(p.paper.summary, "")
    ensures f.citation == OrElse(p.paper.citation, "")
  {
    PaperForm(
      p.paper.title, p.paper.authors, OrElse(p.paper.journal, ""),
      if TruthyInt(p.paper.year) then p.paper.year.value else currentYear,
      OrElse(p.paper.doi, ""), OrElse(p.paper.pdfUrl, ""), OrElse(p.paper.summary, ""),
      OrElse(p.paper.citation, ""), p.paper.order)
  }

  /** A publication with every field set (and a year other than 0) survives the
      round trip through the edit form. */
  lemma FormForRoundTrip(p: PublicationResponse, currentYear: int)
    requires TruthyInt(p.paper.year)
    requires Truthy(p.paper.journal) && Truthy(p.paper.doi) && Truthy(p.paper.pdfUrl)
    requires Truthy(p.paper.summary) && Truthy(p.paper.citation)
    ensures var f := FormFor(p, currentYear);
            Publication(f.title, f.authors, Some(f.journal), Some(f.year), Some(f.doi),
                        Some(f.pdfUrl), Some(f.summary), Some(f.citation), f.order) == p.paper
  {
  }

  /** A publication without a year comes back from the edit form dated this year. */
  lemma FormForDatesUndated(p: PublicationResponse, currentYear: int)
    requires p.paper.year == None || p.paper.year == Some(0)
    ensures FormFor(p, currentYear).year == currentYear
  {
  }

  /** The title the delete prompt names. */
  function PaperTitle(papers: seq<PublicationResponse>, id: int): string {
    RecordTitle(papers, id, (p: PublicationResponse) => p.id, (p: PublicationResponse) => p.paper.title, "this publication")
  }

  /** The range the year input accepts. */
  const MinYear := 1900
  const MaxYear := 2100

  class PaperAdmin {
    const window: Window
    /** `new Date().getFullYear()`. */
    const currentYear: int
    var papers: seq<PublicationResponse>
    var showForm: bool
    var editingId: Option<int>
    var formData: PaperForm
    var calls: seq<Call<PaperForm>>

    /** A closed form edits nothing. */
    ghost predicate Valid()
      reads this
    {
      !showForm ==> editingId == None
    }

    constructor (w: Window, currentYear: int)
      ensures Valid()
      ensures window == w && this.currentYear == currentYear
      ensures papers == [] && !showForm && editingId == None
      ensures formData == DefaultForm(currentYear) && calls == []
    {
      window := w;
      this.currentYear := currentYear;
      papers := [];
      showForm := false;
      editingId := None;
      formData := DefaultForm(currentYear);
      calls := [];
    }

    /** `fetchPapers`: on success every stored publication, newest year first; on
        failure the list is kept. */
    method FetchPapers(rows: seq<PublicationResponse>, nullsLargest: bool, reachable: bool)
      requires Valid()
      modifies this
      ensures Valid()
      ensures calls == old(calls) + [FetchAll]
      ensures papers == if reachable then PapersRouter.GetAllPublications(rows, nullsLargest) else old(papers)
      ensures reachable ==> multiset(papers) == multiset(rows)
      ensures showForm == old(showForm) && editingId == old(editingId) && formData == old(formData)
    {
      calls := calls + [FetchAll];
      if reachable {
        papers := PapersRouter.GetAllPublications(rows, nullsLargest);
      }
    }

    /** `verifyAuthentication`, the only mount effect: the list is fetched only once
        the backend accepts the token. */
    method VerifyAuthentication(verified: bool, rows: seq<PublicationResponse>, nullsLargest: bool, reachable: bool)
      requires Valid()
      modifies this, window
      ensures Valid()
      ensures !Truthy(old(window.adminToken)) ==>
                calls == old(calls) && papers == old(papers) &&
                window.history == old(window.history) + [LoginPath] && window.adminToken == old(window.adminToken)
      ensures Truthy(old(window.adminToken)) && verified ==>
                calls == old(calls) + [Verify, FetchAll] &&
                papers == (if reachable then PapersRouter.GetAllPublications(rows, nullsLargest) else old(papers)) &&
                window.adminToken == old(window.adminToken) && window.history == old(window.history)
      ensures Truthy(old(window.adminToken)) && !verified ==>
                calls == old(calls) + [Verify] && papers == old(papers) &&
                window.adminToken == None && window.history == old(window.history) + [LoginPath]
      ensures showForm == old(showForm) && editingId == old(editingId) && formData == old(formData)
    {
      if !Truthy(window.adminToken) {
        window.Navigate(LoginPath);
        return;
      }
      calls := calls + [Verify];
      if verified {
        FetchPapers(rows, nullsLargest, reachable);
      } else {
        window.Logout();
      }
    }

    method HandleLogout()
      modifies window
      ensures window.adminToken == None && window.history == old(window.history) + [LoginPath]
    {
      window.Logout();
    }

    /** `handleEdit(paper)`: the form filled from the publication, open, editing it. */
    method HandleEdit(p: PublicationResponse)
      requires Valid()
      modifies this
      ensures Valid()
      ensures formData == FormFor(p, currentYear) && editingId == Some(p.id) && showForm
      ensures papers == old(papers) && calls == old(calls)
    {
      formData := FormFor(p, currentYear);
      editingId := Some(p.id);
      showForm := true;
    }

    /** `resetForm`: the defaults, closed, editing nothing. */
    method ResetForm()
      modifies this
      ensures Valid()
      ensures formData == DefaultForm(currentYear) && !showForm && editingId == None
      ensures papers == old(papers) && calls == old(calls)
    {
      formData := DefaultForm(currentYear);
      showForm := false;
      editingId := None;
    }

    /** The header button: opens the form as it is, or closes it through `resetForm`. */
    method ToggleForm()
      requires Valid()
      modifies this
      ensures Valid()
      ensures showForm == !old(showForm)
      ensures old(showForm) ==> editingId == None && formData == DefaultForm(currentYear)
      ensures !old(showForm) ==> editingId == old(editingId) && formData == old(formData)
      ensures papers == old(papers) && calls == old(calls)
    {
      if showForm {
        ResetForm();
      } else {
        showForm := true;
      }
    }

    /** The year input: `parseInt(value) || currentYear`. */
    method SetYear(value: string)
      modifies this
      ensures formData == old(formData).(year := NumberOr(value, currentYear))
      ensures showForm == old(showForm) && editingId == old(editingId)
      ensures papers == old(papers) && calls == old(calls)
    {
      formData := formData.(year := NumberOr(value, currentYear));
    }

    /** The order input: `parseInt(value) || 0`. */
    method SetOrder(value: string)
      modifies this
      ensures formData == old(formData).(order := Some(NumberOr(value, 0)))
      ensures showForm == old(showForm) && editingId == old(editingId)
      ensures papers == old(papers) && calls == old(calls)
    {
      formData := formData.(order := Some(NumberOr(value, 0)));
    }

    /** The browser refuses to submit with an empty title or author list, a year
        outside 1900 to 2100, or a PDF link it does not read as a URL. */
    predicate Blocked(pdfUrlAccepted: bool)
      reads this
    {
      formData.title == "" || formData.authors == "" ||
      formData.year < MinYear || formData.year > MaxYear || !pdfUrlAccepted
    }

    /** `handleSubmit`: an update of the publication being edited, or a new one. A
        saved form goes through `resetForm` and the list is fetched again; a failed
        save changes nothing but the calls made. `pdfUrlAccepted` is the browser's
        verdict on the PDF link, which always accepts an empty one. */
    method HandleSubmit(pdfUrlAccepted: bool, saved: bool, rows: seq<PublicationResponse>, nullsLargest: bool, reachable: bool)
      requires Valid() && showForm
      requires formData.pdfUrl == "" ==> pdfUrlAccepted
      modifies this
      ensures Valid()
      ensures old(Blocked(pdfUrlAccepted)) ==>
                calls == old(calls) && formData == old(formData) && showForm && editingId == old(editingId) &&
                papers == old(papers)
      ensures !old(Blocked(pdfUrlAccepted)) && !saved ==>
                calls == old(calls) + [SaveCall(old(editingId), old(formData))] &&
                formData == old(formData) && showForm && editingId == old(editingId) && papers == old(papers)
      ensures !old(Blocked(pdfUrlAccepted)) && saved ==>
                calls == old(calls) + [SaveCall(old(editingId), old(formData)), FetchAll] &&
                formData == DefaultForm(currentYear) && !showForm && editingId == None &&
                papers == (if reachable then PapersRouter.GetAllPublications(rows, nullsLargest) else old(papers))
      ensures !old(Blocked(pdfUrlAccepted)) ==> MinYear <= old(formData).year <= MaxYear
    {
      if Blocked(pdfUrlAccepted) {
        return;
      }
      calls := calls + [SaveCall(editingId, formData)];
      if saved {
        ResetForm();
        FetchPapers(rows, nullsLargest, reachable);
      }
    }

    /** `handleDelete(id)`: the prompt names the publication; a refused prompt calls
        nothing, an accepted one deletes and, when that succeeds, fetches the list. */
    method HandleDelete(id: int, confirmed: bool, deleted: bool, rows: seq<PublicationResponse>, nullsLargest: bool, reachable: bool)
      returns (prompt: string)
      requires Valid()
      modifies this
      ensures Valid()
      ensures prompt == DeletePrompt(PaperTitle(old(papers), id))
      ensures !confirmed ==> calls == old(calls) && papers == old(papers)
      ensures confirmed && !deleted ==> calls == old(calls) + [Delete(id)] && papers == old(papers)
      ensures confirmed && deleted ==>
                calls == old(calls) + [Delete(id), FetchAll] &&
                papers == (if reachable then PapersRouter.GetAllPublications(rows, nullsLargest) else old(papers))
      ensures showForm == old(showForm) && editingId == old(editingId) && formData == old(formData)
    {
      prompt := DeletePrompt(PaperTitle(papers, id));
      if !confirmed {
        return;
      }
      calls := calls + [Delete(id)];
      if deleted {
        FetchPapers(rows, nullsLargest, reachable);
      }
    }
  }

  /** Editing a publication and leaving with either Cancel leaves an empty form:
      "New Publication" then starts from the defaults. */
  method EditCancelThenNew(v: PaperAdmin, p: PublicationResponse)
    requires v.Valid() && !v.showForm
    modifies v
    ensures v.showForm && v.editingId == None && v.formData == DefaultForm(v.currentYear)
    ensures v.calls == old(v.calls)
  {
    v.HandleEdit(p);
    v.ResetForm();
    v.ToggleForm();
  }
}
