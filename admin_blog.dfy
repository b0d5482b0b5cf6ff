/** frontend/src/pages/Admin.jsx: the blog admin view. It lists posts, opens a form
    for a new post or for editing one, saves it, deletes posts behind a confirmation,
    and offers a Markdown toolbar over the content field. */
module AdminBlog {
  import opened Wrappers
  import opened Schemas
  import opened Browser
  import opened AdminCommon
  import BlogsRouter

  // ---------------------------------------------------------------------------
  // The Markdown toolbar

  /** What a toolbar button wraps around the selection, and what it puts there when
      nothing is selected. */
  datatype Markup = Markup(open: string, placeholder: string, close: string)

  /** The six toolbar buttons. */
  function MarkupFor(syntax: string): Option<Markup> {
    if syntax == "bold" then Some(Markup("**", "bold text", "**"))
    else if syntax == "italic" then Some(Markup("_", "italic text", "_"))
    else if syntax == "heading" then Some(Markup("## ", "Heading", ""))
    else if syntax == "link" then Some(Markup("[", "link text", "](url)"))
    else if syntax == "code" then Some(Markup("```python\n", "code here", "\n```"))
    else if syntax == "list" then Some(Markup("\n- ", "list item", "\n- item 2"))
    else None
  }

  /** `s || fallback` on strings: the fallback replaces only the empty string. */
  function StrOr(s: string, fallback: string): (r: string)
    ensures s != "" ==> r == s
    ensures s == "" ==> r == fallback
  {
    if s == "" then fallback else s
  }

  /** `insertMarkdown(syntax)` on `text` with the selection `[start, end)`: the new
      content and the new caret position, or None for an unknown syntax. The content
      is the text before the selection, the opening mark, the selection (or the
      placeholder when it is empty), the closing mark and the text after; the caret
      lands just after the opening mark. */
  function InsertMarkdownText(text: string, start: nat, end: nat, syntax: string): (r: Option<(string, nat)>)
    requires start <= end <= |text|
    ensures r.Some? <==> MarkupFor(syntax).Some?
    ensures r.Some? ==>
              var m := MarkupFor(syntax).value;
              var body := StrOr(text[start..end], m.placeholder);
              r.value.0 == text[..start] + m.open + body + m.close + text[end..] &&
              r.value.1 == start + |m.open|
  {
    var before, selected, after := text[..start], text[start..end], text[end..];
    if syntax == "bold" then
      Some((before + "**" + StrOr(selected, "bold text") + "**" + after, start + 2))
    else if syntax == "italic" then
      Some((before + "_" + StrOr(selected, "italic text") + "_" + after, start + 1))
    else if syntax == "heading" then
      Some((before + "## " + StrOr(selected, "Heading") + after, start + 3))
    else if syntax == "link" then
      Some((before + "[" + StrOr(selected, "link text") + "](url)" + after, start + 1))
    else if syntax == "code" then
      Some((before + "```python\n" + StrOr(selected, "code here") + "\n```" + after, start + 10))
    else if syntax == "list" then
      Some((before + "\n- " + StrOr(selected, "list item") + "\n- item 2" + after, start + 3))
    else None
  }

  /** The caret lands on the first character of the inserted body, inside the new
      text, and the text around the insertion is kept. */
  lemma CaretOnBody(text: string, start: nat, end: nat, syntax: string)
    requires start <= end <= |text| && MarkupFor(syntax).Some?
    ensures var (t, caret) := InsertMarkdownText(text, start, end, syntax).value;
            var m := MarkupFor(syntax).value;
            var body := StrOr(text[start..end], m.placeholder);
            caret + |body| <= |t| && t[caret..caret + |body|] == body &&
            t[..start] == text[..start] && t[|t| - (|text| - end)..] == text[end..]
  {
    var (t, caret) := InsertMarkdownText(text, start, end, syntax).value;
    var m := MarkupFor(syntax).value;
    var body := StrOr(text[start..end], m.placeholder);
    var before, after := text[..start], text[end..];
    assert t == before + m.open + body + m.close + after;
    assert t == (before + m.open) + body + (m.close + after);
    assert |before + m.open| == caret;
  }

  // ---------------------------------------------------------------------------
  // The form

  datatype BlogForm = BlogForm(
    title: string, content: string, excerpt: string,
    author: Option<string>, published: Option<bool>, tags: string)

  /** The empty form: author "Pratush Kumar", published. */
  const DefaultForm := BlogForm("", "", "", Some("Pratush Kumar"), Some(true), "")

  /** The form `handleEdit` fills from a post: a missing excerpt or tag list becomes
      the empty string, every other field is copied. */
  function FormFor(b: BlogPostResponse): (f: BlogForm)
    ensures f.title == b.post.title && f.content == b.post.content
    ensures f.author == b.post.author && f.published == b.post.published
    ensures f.excerpt == OrElse(b.post.excerpt, "") && f.tags == OrElse(b.post.tags, "")
  {
    BlogForm(b.post.title, b.post.content, OrElse(b.post.excerpt, ""), b.post.author, b.post.published, OrElse(b.post.tags, ""))
  }

  /** Filling the form from a post and saving it sends the post's own fields back,
      with an absent excerpt or tag list sent as "". */
  lemma FormForRoundTrip(b: BlogPostResponse)
    requires Truthy(b.post.excerpt) && Truthy(b.post.tags)
    ensures var f := FormFor(b);
            BlogPost(f.title, f.content, Some(f.excerpt), f.author, f.published, Some(f.tags)) == b.post
  {
  }

  /** The title the delete prompt names. */
  function BlogTitle(blogs: seq<BlogPostResponse>, id: int): string {
    RecordTitle(blogs, id, (b: BlogPostResponse) => b.id, (b: BlogPostResponse) => b.post.title, "this blog post")
  }

  class BlogAdmin {
    const window: Window
    var blogs: seq<BlogPostResponse>
    var showForm: bool
    var editingId: Option<int>
    var formData: BlogForm
    var previewMode: bool
    /** Where `insertMarkdown` puts the caret once the textarea has focus again. */
    var caret: Option<nat>
    var calls: seq<Call<BlogForm>>

    /** The list only ever holds published posts (it comes from the public listing),
        and a closed form edits nothing. */
    ghost predicate Valid()
      reads this
    {
      (forall b :: b in blogs ==> BlogsRouter.IsPublished(b)) &&
      (!showForm ==> editingId == None)
    }

    constructor (w: Window)
      ensures Valid()
      ensures window == w && blogs == [] && !showForm && editingId == None
      ensures formData == DefaultForm && !previewMode && caret == None && calls == []
    {
      window := w;
      blogs := [];
      showForm := false;
      editingId := None;
      formData := DefaultForm;
      previewMode := false;
      caret := None;
      calls := [];
    }

    /** `fetchBlogs`: `blogAPI.getAll()` with its default window. On success the list
        is what the public listing returns for the table `rows`; on failure it is
        kept. Drafts are never listed. */
    method FetchBlogs(rows: seq<BlogPostResponse>, reachable: bool)
      requires Valid()
      modifies this
      ensures Valid()
      ensures calls == old(calls) + [FetchAll]
      ensures blogs == if reachable then BlogsRouter.GetAllBlogs(rows, BlogsRouter.DefaultSkip, BlogsRouter.DefaultLimit) else old(blogs)
      ensures showForm == old(showForm) && editingId == old(editingId) && formData == old(formData)
      ensures previewMode == old(previewMode) && caret == old(caret)
    {
      calls := calls + [FetchAll];
      if reachable {
        blogs := BlogsRouter.GetAllBlogs(rows, BlogsRouter.DefaultSkip, BlogsRouter.DefaultLimit);
      }
    }

    /** `verifyAuthentication`: without a token the view goes to the login page and
        calls nothing; with one it asks the backend, then loads the list, or drops the
        token and goes to the login page when the check fails. */
    method VerifyAuthentication(verified: bool, rows: seq<BlogPostResponse>, reachable: bool)
      requires Valid()
      modifies this, window
      ensures Valid()
      ensures !Truthy(old(window.adminToken)) ==>
                calls == old(calls) && blogs == old(blogs) &&
                window.history == old(window.history) + [LoginPath] && window.adminToken == old(window.adminToken)
      ensures Truthy(old(window.adminToken)) && verified ==>
                calls == old(calls) + [Verify, FetchAll] &&
                blogs == (if reachable then BlogsRouter.GetAllBlogs(rows, BlogsRouter.DefaultSkip, BlogsRouter.DefaultLimit) else old(blogs)) &&
                window.adminToken == old(window.adminToken) && window.history == old(window.history)
      ensures Truthy(old(window.adminToken)) && !verified ==>
                calls == old(calls) + [Verify] && blogs == old(blogs) &&
                window.adminToken == None && window.history == old(window.history) + [LoginPath]
      ensures showForm == old(showForm) && editingId == old(editingId) && formData == old(formData)
      ensures previewMode == old(previewMode) && caret == old(caret)
    {
      if !Truthy(window.adminToken) {
        window.Navigate(LoginPath);
        return;
      }
      calls := calls + [Verify];
      if verified {
        FetchBlogs(rows, reachable);
      } else {
        window.Logout();
      }
    }

    /** The two mount effects: the authentication check, then a list fetch that runs
        whatever the check decides. */
    method Mount(verified: bool, rows: seq<BlogPostResponse>, reachable: bool)
      requires Valid()
      modifies this, window
      ensures Valid()
      ensures !Truthy(old(window.adminToken)) ==>
                calls == old(calls) + [FetchAll] &&
                window.adminToken == old(window.adminToken) && window.history == old(window.history) + [LoginPath]
      ensures Truthy(old(window.adminToken)) && verified ==>
                calls == old(calls) + [Verify, FetchAll, FetchAll] &&
                window.adminToken == old(window.adminToken) && window.history == old(window.history)
      ensures Truthy(old(window.adminToken)) && !verified ==>
                calls == old(calls) + [Verify, FetchAll] &&
                window.adminToken == None && window.history == old(window.history) + [LoginPath]
      ensures blogs == if reachable then BlogsRouter.GetAllBlogs(rows, BlogsRouter.DefaultSkip, BlogsRouter.DefaultLimit) else old(blogs)
      ensures showForm == old(showForm) && editingId == old(editingId) && formData == old(formData)
      ensures previewMode == old(previewMode) && caret == old(caret)
    {
      VerifyAuthentication(verified, rows, reachable);
      FetchBlogs(rows, reachable);
    }

    /** `handleLogout`: no confirmation. */
    method HandleLogout()
      modifies window
      ensures window.adminToken == None && window.history == old(window.history) + [LoginPath]
    {
      window.Logout();
    }

    /** `handleEdit(blog)`: the form filled from the post, open, editing that id. */
    method HandleEdit(b: BlogPostResponse)
      requires Valid()
      modifies this
      ensures Valid()
      ensures formData == FormFor(b) && editingId == Some(b.id) && showForm
      ensures blogs == old(blogs) && calls == old(calls) && previewMode == old(previewMode) && caret == old(caret)
    {
      formData := FormFor(b);
      editingId := Some(b.id);
      showForm := true;
    }

    /** The browser refuses to submit while a `required` field is empty: the title
        always, the content only while its textarea is shown (not in preview). */
    predicate Blocked()
      reads this
    {
      formData.title == "" || (!previewMode && formData.content == "")
    }

    /** `handleSubmit`: an update of the post being edited, or a new post. A saved
        form is reset to the defaults and closed, and the list is fetched again; a
        failed save changes nothing but the calls made. */
    method HandleSubmit(saved: bool, rows: seq<BlogPostResponse>, reachable: bool)
      requires Valid() && showForm
      modifies this
      ensures Valid()
      ensures old(Blocked()) ==>
                calls == old(calls) && formData == old(formData) && showForm && editingId == old(editingId) &&
                blogs == old(blogs)
      ensures !old(Blocked()) && !saved ==>
                calls == old(calls) + [SaveCall(old(editingId), old(formData))] &&
                formData == old(formData) && showForm && editingId == old(editingId) && blogs == old(blogs)
      ensures !old(Blocked()) && saved ==>
                calls == old(calls) + [SaveCall(old(editingId), old(formData)), FetchAll] &&
                formData == DefaultForm && !showForm && editingId == None &&
                blogs == (if reachable then BlogsRouter.GetAllBlogs(rows, BlogsRouter.DefaultSkip, BlogsRouter.DefaultLimit) else old(blogs))
      ensures previewMode == old(previewMode) && caret == old(caret)
    {
      if Blocked() {
        return;
      }
      calls := calls + [SaveCall(editingId, formData)];
      if saved {
        formData := DefaultForm;
        showForm := false;
        editingId := None;
        FetchBlogs(rows, reachable);
      }
    }

    /** `handleDelete(id)`: the prompt names the post's title; a refused prompt calls
        nothing, an accepted one deletes and, when that succeeds, fetches the list. */
    method HandleDelete(id: int, confirmed: bool, deleted: bool, rows: seq<BlogPostResponse>, reachable: bool)
      returns (prompt: string)
      requires Valid()
      modifies this
      ensures Valid()
      ensures prompt == DeletePrompt(BlogTitle(old(blogs), id))
      ensures !confirmed ==> calls == old(calls) && blogs == old(blogs)
      ensures confirmed && !deleted ==> calls == old(calls) + [Delete(id)] && blogs == old(blogs)
      ensures confirmed && deleted ==>
                calls == old(calls) + [Delete(id), FetchAll] &&
                blogs == (if reachable then BlogsRouter.GetAllBlogs(rows, BlogsRouter.DefaultSkip, BlogsRouter.DefaultLimit) else old(blogs))
      ensures showForm == old(showForm) && editingId == old(editingId) && formData == old(formData)
      ensures previewMode == old(previewMode) && caret == old(caret)
    {
      prompt := DeletePrompt(BlogTitle(blogs, id));
      if !confirmed {
        return;
      }
      calls := calls + [Delete(id)];
      if deleted {
        FetchBlogs(rows, reachable);
      }
    }

    /** The header button ("New Post" / "Cancel"): opening keeps the form as it is;
        closing also clears the edited id and resets the form. */
    method ToggleForm()
      requires Valid()
      modifies this
      ensures Valid()
      ensures showForm == !old(showForm)
      ensures old(showForm) ==> editingId == None && formData == DefaultForm
      ensures !old(showForm) ==> editingId == old(editingId) && formData == old(formData)
      ensures blogs == old(blogs) && calls == old(calls) && previewMode == old(previewMode) && caret == old(caret)
    {
      var wasShown := showForm;
      showForm := !showForm;
      if wasShown {
        editingId := None;
        formData := DefaultForm;
      }
    }

    /** The Cancel button under the form: closes it and clears the edited id, and
        keeps what was typed. */
    method CancelForm()
      requires Valid()
      modifies this
      ensures Valid()
      ensures !showForm && editingId == None
      ensures formData == old(formData)
      ensures blogs == old(blogs) && calls == old(calls) && previewMode == old(previewMode) && caret == old(caret)
    {
      showForm := false;
      editingId := None;
    }

    /** A Cancel that also resets the form, as the header button does when it closes. */
    method CancelFormResetting()
      requires Valid()
      modifies this
      ensures Valid()
      ensures !showForm && editingId == None && formData == DefaultForm
      ensures blogs == old(blogs) && calls == old(calls) && previewMode == old(previewMode) && caret == old(caret)
    {
      showForm := false;
      editingId := None;
      formData := DefaultForm;
    }

    method TogglePreview()
      modifies this
      ensures previewMode == !old(previewMode)
      ensures formData == old(formData) && showForm == old(showForm) && editingId == old(editingId)
      ensures blogs == old(blogs) && calls == old(calls) && caret == old(caret)
    {
      previewMode := !previewMode;
    }

    /** `insertMarkdown(syntax)` with the textarea's selection `[start, end)`. Only the
        content changes, and the caret is set; an unknown syntax changes nothing.
        Without the textarea (form closed or in preview) the handler fails and
        nothing changes either. */
    method InsertMarkdown(syntax: string, start: nat, end: nat)
      requires start <= end <= |formData.content|
      modifies this
      ensures var r := InsertMarkdownText(old(formData.content), start, end, syntax);
              if old(showForm) && !old(previewMode) && r.Some? then
                formData == old(formData).(content := r.value.0) && caret == Some(r.value.1)
              else
                formData == old(formData) && caret == old(caret)
      ensures showForm == old(showForm) && editingId == old(editingId) && previewMode == old(previewMode)
      ensures blogs == old(blogs) && calls == old(calls)
    {
      if !showForm || previewMode {
        return;
      }
      var r := InsertMarkdownText(formData.content, start, end, syntax);
      if r.Some? {
        formData := formData.(content := r.value.0);
        caret := Some(r.value.1);
      }
    }
  }

  /** Editing a post, leaving with the Cancel under the form and opening "New Post"
      shows the cancelled post's fields in a form for a new post; submitting it
      creates a second copy of that post. */
  method EditCancelThenNew(v: BlogAdmin, b: BlogPostResponse, rows: seq<BlogPostResponse>)
    requires v.Valid() && !v.showForm && !v.previewMode
    requires b.post.title != "" && b.post.content != ""
    modifies v
    ensures v.calls == old(v.calls) + [Create(FormFor(b)), FetchAll]
  {
    v.HandleEdit(b);
    v.CancelForm();
    v.ToggleForm();
    assert v.formData == FormFor(b) && v.editingId == None;
    v.HandleSubmit(true, rows, true);
  }

  /** With the resetting Cancel the new form is empty, and submitting it as it is is
      refused by the browser. */
  method EditCancelThenNewResetting(v: BlogAdmin, b: BlogPostResponse, rows: seq<BlogPostResponse>)
    requires v.Valid() && !v.showForm && !v.previewMode
    modifies v
    ensures v.formData == DefaultForm && v.showForm && v.editingId == None
    ensures v.calls == old(v.calls)
  {
    v.HandleEdit(b);
    v.CancelFormResetting();
    v.ToggleForm();
    v.HandleSubmit(true, rows, true);
  }
}
