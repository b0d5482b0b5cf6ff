/** The loading / error / retry cycle of the public pages. The list pages
    (frontend/src/pages/Blog.jsx, Papers.jsx, Research.jsx) hold `items`, `loading` and
    `error`; the detail pages (BlogDetail.jsx, ResearchDetail.jsx) hold one `item`
    instead. A call to the backend is given as its outcome: `Some(data)` for a response,
    `None` for a thrown error. */
module Pages {
  import opened Wrappers
  import opened Schemas
  import BlogsRouter
  import PapersRouter
  import ResearchRouter

  const BlogListFailure := "Failed to load blog posts. Please try again later."
  const PapersFailure := "Failed to load publications. Please try again later."
  const ResearchListFailure := "Failed to load research projects. Please try again later."
  const BlogDetailFailure := "Failed to load blog post"
  const BlogNotFound := "Blog post not found"
  const ResearchDetailFailure := "Failed to load research project"
  const ResearchNotFound := "Research project not found"

  // ---------------------------------------------------------------------------
  // List pages

  /** What a list page renders: the spinner, the error with its Retry button, the
      "nothing yet" message, or one card per item. */
  datatype ListView<T> = Spinner | ErrorView(message: string) | EmptyView | Cards(items: seq<T>)

  class ListPage<T> {
    var items: seq<T>
    var loading: bool
    var error: Option<string>
    /** The message `setError` stores when the call fails. */
    const failureMessage: string

    /** The first render: no items, `loading` true, no error. */
    constructor (failureMessage: string)
      ensures this.failureMessage == failureMessage
      ensures items == [] && loading && error == None
    {
      this.failureMessage := failureMessage;
      items := [];
      loading := true;
      error := None;
    }

    /** `if (loading) … if (error) … items.length === 0 ? … : …`. */
    function View(): (v: ListView<T>)
      reads this
      ensures v.Spinner? <==> loading
      ensures v.ErrorView? <==> !loading && Truthy(error)
      ensures v.ErrorView? ==> v.message == error.value
      ensures v.EmptyView? <==> !loading && !Truthy(error) && items == []
      ensures v.Cards? ==> v.items == items && items != []
    {
      if loading then Spinner
      else if Truthy(error) then ErrorView(error.value)
      else if items == [] then EmptyView
      else Cards(items)
    }

    /** `setLoading(true)` before the call is awaited. */
    method StartFetch()
      modifies this
      ensures loading
      ensures items == old(items) && error == old(error)
    {
      loading := true;
    }

    /** The rest of the fetch: the items on success, the message on failure, and
        `loading` cleared in `finally` either way. The error is never reset. */
    method FinishFetch(response: Option<seq<T>>)
      modifies this
      ensures !loading
      ensures response.Some? ==> items == response.value && error == old(error)
      ensures response.None? ==> items == old(items) && error == Some(failureMessage)
    {
      match response {
        case Some(data) => items := data;
        case None => error := Some(failureMessage);
      }
      loading := false;
    }

    /** The whole fetch, as the mount effect and the Retry button run it. */
    method Fetch(response: Option<seq<T>>)
      modifies this
      ensures !loading
      ensures response.Some? ==> items == response.value && error == old(error)
      ensures response.None? ==> items == old(items) && error == Some(failureMessage)
    {
      StartFetch();
      FinishFetch(response);
    }

    /** The fetch with the error reset on success, so that a Retry that succeeds
        shows the items. */
    method FetchClearingError(response: Option<seq<T>>)
      modifies this
      ensures !loading
      ensures response.Some? ==> items == response.value && error == None
      ensures response.None? ==> items == old(items) && error == Some(failureMessage)
    {
      StartFetch();
      FinishFetch(response);
      if response.Some? {
        error := None;
      }
    }
  }

  /** A failed load followed by a Retry whose call succeeds: the page still shows the
      error, whatever the response holds. */
  method RetryAfterFailure<T>(page: ListPage<T>, data: seq<T>) returns (v: ListView<T>)
    requires page.failureMessage != ""
    modifies page
    ensures v == page.View() == ErrorView(page.failureMessage)
    ensures page.items == data
  {
    page.Fetch(None);
    page.Fetch(Some(data));
    v := page.View();
  }

  /** The same sequence with the error reset on success shows the items, or the
      "nothing yet" message when there are none. */
  method RetryAfterFailureClearing<T>(page: ListPage<T>, data: seq<T>) returns (v: ListView<T>)
    modifies page
    ensures v == page.View()
    ensures v == if data == [] then EmptyView else Cards(data)
  {
    page.FetchClearingError(None);
    page.FetchClearingError(Some(data));
    v := page.View();
  }

  /** The public blog page after its mount fetch: the published posts the backend
      lists with the default window, newest first, or the error. */
  method LoadBlogPage(rows: seq<BlogPostResponse>, reachable: bool) returns (page: ListPage<BlogPostResponse>)
    ensures fresh(page)
    ensures var listed := BlogsRouter.GetAllBlogs(rows, BlogsRouter.DefaultSkip, BlogsRouter.DefaultLimit);
            page.View() == if !reachable then ErrorView(BlogListFailure)
                           else if listed == [] then EmptyView else Cards(listed)
  {
    page := new ListPage(BlogListFailure);
    var response := if reachable then Some(BlogsRouter.GetAllBlogs(rows, BlogsRouter.DefaultSkip, BlogsRouter.DefaultLimit)) else None;
    page.Fetch(response);
  }

  /** The publications page after its mount fetch. */
  method LoadPapersPage(rows: seq<PublicationResponse>, nullsLargest: bool, reachable: bool)
    returns (page: ListPage<PublicationResponse>)
    ensures fresh(page)
    ensures var listed := PapersRouter.GetAllPublications(rows, nullsLargest);
            page.View() == if !reachable then ErrorView(PapersFailure)
                           else if listed == [] then EmptyView else Cards(listed)
  {
    page := new ListPage(PapersFailure);
    var response := if reachable then Some(PapersRouter.GetAllPublications(rows, nullsLargest)) else None;
    page.Fetch(response);
  }

  /** The research page after its mount fetch. */
  method LoadResearchPage(rows: seq<ResearchProjectResponse>, nullsLargest: bool, reachable: bool)
    returns (page: ListPage<ResearchProjectResponse>)
    ensures fresh(page)
    ensures var listed := ResearchRouter.GetAllProjects(rows, nullsLargest);
            page.View() == if !reachable then ErrorView(ResearchListFailure)
                           else if listed == [] then EmptyView else Cards(listed)
  {
    page := new ListPage(ResearchListFailure);
    var response := if reachable then Some(ResearchRouter.GetAllProjects(rows, nullsLargest)) else None;
    page.Fetch(response);
  }

  // ---------------------------------------------------------------------------
  // Detail pages

  /** What a detail page renders: the spinner, the not-found view with its text, or
      the record. */
  datatype DetailView<T> = DetailSpinner | NotFound(message: string) | Shown(item: T)

  class DetailPage<T> {
    var item: Option<T>
    var loading: bool
    var error: Option<string>
    const failureMessage: string
    /** The text shown when there is neither an error nor a record. */
    const notFoundMessage: string

    constructor (failureMessage: string, notFoundMessage: string)
      ensures this.failureMessage == failureMessage && this.notFoundMessage == notFoundMessage
      ensures item == None && loading && error == None
    {
      this.failureMessage := failureMessage;
      this.notFoundMessage := notFoundMessage;
      item := None;
      loading := true;
      error := None;
    }

    /** `if (loading) … if (error || !item) <p>{error || notFound}</p> …`. */
    function View(): (v: DetailView<T>)
      reads this
      ensures v.DetailSpinner? <==> loading
      ensures v.NotFound? <==> !loading && (Truthy(error) || item.None?)
      ensures v.NotFound? ==> v.message == OrElse(error, notFoundMessage)
      ensures v.Shown? ==> item == Some(v.item)
    {
      if loading then DetailSpinner
      else if Truthy(error) || item.None? then NotFound(OrElse(error, notFoundMessage))
      else Shown(item.value)
    }

    /** The fetch run whenever the route id changes: the record on success, the
        message on failure, `loading` cleared in `finally`; the error is never reset. */
    method Fetch(response: Option<T>)
      modifies this
      ensures !loading
      ensures response.Some? ==> item == response && error == old(error)
      ensures response.None? ==> item == old(item) && error == Some(failureMessage)
    {
      loading := true;
      match response {
        case Some(_) => item := response;
        case None => error := Some(failureMessage);
      }
      loading := false;
    }

    /** The fetch with the error reset on success. */
    method FetchClearingError(response: Option<T>)
      modifies this
      ensures !loading
      ensures response.Some? ==> item == response && error == None
      ensures response.None? ==> item == old(item) && error == Some(failureMessage)
    {
      Fetch(response);
      if response.Some? {
        error := None;
      }
    }
  }

  /** The first fetch of a fresh detail page decides the view: the record, or the
      failure text. The fallback "not found" text is never the one shown, because a
      missing record always comes with an error. */
  method LoadDetail<T>(failureMessage: string, notFoundMessage: string, response: Option<T>)
    returns (page: DetailPage<T>)
    requires failureMessage != ""
    ensures fresh(page)
    ensures page.View() == if response.Some? then Shown(response.value) else NotFound(failureMessage)
  {
    page := new DetailPage(failureMessage, notFoundMessage);
    page.Fetch(response);
  }

  /** A route change after a failed load: the record of the new id arrives, and the
      page still shows the old failure. */
  method NewIdAfterFailure<T>(page: DetailPage<T>, record: T) returns (v: DetailView<T>)
    requires page.failureMessage != ""
    modifies page
    ensures v == page.View() == NotFound(page.failureMessage)
    ensures page.item == Some(record)
  {
    page.Fetch(None);
    page.Fetch(Some(record));
    v := page.View();
  }

  /** The same route change with the error reset on success shows the new record. */
  method NewIdAfterFailureClearing<T>(page: DetailPage<T>, record: T) returns (v: DetailView<T>)
    modifies page
    ensures v == page.View() == Shown(record)
  {
    page.FetchClearingError(None);
    page.FetchClearingError(Some(record));
    v := page.View();
  }

  /** `/blog/:id`: every stored post, a draft included, is shown on its own page when
      the backend is reachable; an unknown id shows the failure text. */
  method LoadBlogDetail(t: BlogsRouter.BlogTable, id: int, reachable: bool) returns (page: DetailPage<BlogPostResponse>)
    requires t.Valid()
    ensures fresh(page)
    ensures var r := BlogsRouter.GetBlog(t.rows, id);
            page.View() == if reachable && r.Success? then Shown(r.value) else NotFound(BlogDetailFailure)
    ensures reachable ==> forall x :: x in t.rows && x.id == id ==> page.View() == Shown(x)
  {
    var r := BlogsRouter.GetBlog(t.rows, id);
    var response := if reachable && r.Success? then Some(r.value) else None;
    page := LoadDetail(BlogDetailFailure, BlogNotFound, response);
    forall x | x in t.rows && x.id == id {
      BlogsRouter.GetBlogFindsEveryRow(t, x);
    }
  }

  /** `/research/:id`: the project with that id, or the failure text. */
  method LoadResearchDetail(rows: seq<ResearchProjectResponse>, id: int, reachable: bool)
    returns (page: DetailPage<ResearchProjectResponse>)
    ensures fresh(page)
    ensures var r := ResearchRouter.GetProject(rows, id);
            page.View() == if reachable && r.Success? then Shown(r.value) else NotFound(ResearchDetailFailure)
  {
    var r := ResearchRouter.GetProject(rows, id);
    var response := if reachable && r.Success? then Some(r.value) else None;
    page := LoadDetail(ResearchDetailFailure, ResearchNotFound, response);
  }
}
