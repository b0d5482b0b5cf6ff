/** backend/app/schemas.py: the request and response records of the API, with the
    defaults pydantic fills in for fields a request body leaves out. */
module Schemas {
  import opened Wrappers

  /** A JSON value of a request body, as far as the schemas distinguish them. */
  datatype Json = JNull | JBool(b: bool) | JInt(i: int) | JStr(s: string) | JOther

  type Body = map<string, Json>

  datatype Kind = Str | Int | Bool | Email

  /** One declared field: a required one has no default; an optional one
      (`Optional[...] = default`) also accepts an explicit null. */
  datatype Field = Field(name: string, kind: Kind, required: bool)

  /** Whether the JSON value has the field's type; `isEmail` is the EmailStr check. */
  predicate HasKind(v: Json, k: Kind, isEmail: string -> bool) {
    match k
    case Str => v.JStr?
    case Int => v.JInt?
    case Bool => v.JBool?
    case Email => v.JStr? && isEmail(v.s)
  }

  /** Whether the body gives the field an acceptable value, or may leave it out. */
  predicate Accepts(body: Body, f: Field, isEmail: string -> bool) {
    if f.name !in body then !f.required
    else HasKind(body[f.name], f.kind, isEmail) || (!f.required && body[f.name] == JNull)
  }

  /** The names of the fields the body gets wrong, in declaration order: the locations
      of pydantic's validation errors. */
  function Rejected(fields: seq<Field>, body: Body, isEmail: string -> bool): (names: seq<string>)
    ensures |names| <= |fields|
    ensures names == [] <==> forall i :: 0 <= i < |fields| ==> Accepts(body, fields[i], isEmail)
    ensures forall i :: 0 <= i < |fields| && !Accepts(body, fields[i], isEmail) ==> fields[i].name in names
    ensures forall n :: n in names ==>
      exists i :: 0 <= i < |fields| && fields[i].name == n && !Accepts(body, fields[i], isEmail)
  {
    if fields == [] then []
    else (if Accepts(body, fields[0], isEmail) then [] else [fields[0].name]) + Rejected(fields[1..], body, isEmail)
  }

  /** The value of an optional string field: the default when absent, None for null. */
  function OptStr(body: Body, key: string, default: Option<string>): (v: Option<string>)
    ensures key !in body ==> v == default
    ensures key in body && body[key].JStr? ==> v == Some(body[key].s)
    ensures key in body && !body[key].JStr? ==> v == None
  {
    if key !in body then default else if body[key].JStr? then Some(body[key].s) else None
  }

  function OptInt(body: Body, key: string, default: Option<int>): (v: Option<int>)
    ensures key !in body ==> v == default
    ensures key in body && body[key].JInt? ==> v == Some(body[key].i)
    ensures key in body && !body[key].JInt? ==> v == None
  {
    if key !in body then default else if body[key].JInt? then Some(body[key].i) else None
  }

  function OptBool(body: Body, key: string, default: Option<bool>): (v: Option<bool>)
    ensures key !in body ==> v == default
    ensures key in body && body[key].JBool? ==> v == Some(body[key].b)
    ensures key in body && !body[key].JBool? ==> v == None
  {
    if key !in body then default else if body[key].JBool? then Some(body[key].b) else None
  }

  /** The string of a required field the body is known to give. */
  function ReqStr(body: Body, key: string): string
    requires key in body && body[key].JStr?
  {
    body[key].s
  }

  // ---------------------------------------------------------------------------
  // Blog posts

  /** `BlogPostBase`; `BlogPostCreate` adds nothing to it. */
  datatype BlogPost = BlogPost(
    title: string, content: string, excerpt: Option<string>,
    author: Option<string>, published: Option<bool>, tags: Option<string>)

  const BlogPostFields := [
    Field("title", Str, true), Field("content", Str, true), Field("excerpt", Str, false),
    Field("author", Str, false), Field("published", Bool, false), Field("tags", Str, false)]

  /** `BlogPostResponse`: the stored post with its id and timestamps. */
  datatype BlogPostResponse = BlogPostResponse(id: int, post: BlogPost, createdAt: int, updatedAt: int)

  function AnyEmail(s: string): bool { true }

  /** Validation of a `BlogPostCreate` body. */
  function ParseBlogPost(body: Body): (r: Result<BlogPost, seq<string>>)
    ensures r.Failure? <==> Rejected(BlogPostFields, body, AnyEmail) != []
    ensures r.Failure? ==> r.error == Rejected(BlogPostFields, body, AnyEmail)
    ensures r.Success? ==>
              "title" in body && body["title"] == JStr(r.value.title) &&
              "content" in body && body["content"] == JStr(r.value.content) &&
              r.value.excerpt == OptStr(body, "excerpt", None) &&
              r.value.author == OptStr(body, "author", Some("Your Name")) &&
              r.value.published == OptBool(body, "published", Some(true)) &&
              r.value.tags == OptStr(body, "tags", None)
  {
    var bad := Rejected(BlogPostFields, body, AnyEmail);
    if bad != [] then Failure(bad)
    else
      assert Accepts(body, BlogPostFields[0], AnyEmail) && Accepts(body, BlogPostFields[1], AnyEmail);
      Success(BlogPost(
        ReqStr(body, "title"), ReqStr(body, "content"), OptStr(body, "excerpt", None),
        OptStr(body, "author", Some("Your Name")), OptBool(body, "published", Some(true)),
        OptStr(body, "tags", None)))
  }

  /** A body with only a title and a content is a published post by "Your Name" with
      no excerpt and no tags; a body without a title or without a content is refused. */
  lemma BlogPostDefaults(title: string, content: string)
    ensures ParseBlogPost(map["title" := JStr(title), "content" := JStr(content)]) ==
              Success(BlogPost(title, content, None, Some("Your Name"), Some(true), None))
    ensures ParseBlogPost(map["content" := JStr(content)]) == Failure(["title"])
    ensures ParseBlogPost(map["title" := JStr(title)]) == Failure(["content"])
  {
    BlogPostFull(title, content);
    BlogPostNoTitle(content);
    BlogPostNoContent(title);
  }

  lemma BlogPostFull(title: string, content: string)
    ensures ParseBlogPost(map["title" := JStr(title), "content" := JStr(content)]) ==
              Success(BlogPost(title, content, None, Some("Your Name"), Some(true), None))
  {
    var full := map["title" := JStr(title), "content" := JStr(content)];
    assert forall i :: 0 <= i < |BlogPostFields| ==> Accepts(full, BlogPostFields[i], AnyEmail);
  }

  lemma BlogPostNoTitle(content: string)
    ensures ParseBlogPost(map["content" := JStr(content)]) == Failure(["title"])
  {
    var noTitle := map["content" := JStr(content)];
    assert !Accepts(noTitle, BlogPostFields[0], AnyEmail);
    assert Rejected(BlogPostFields[1..], noTitle, AnyEmail) == [];
    assert Rejected(BlogPostFields, noTitle, AnyEmail) == ["title"];
  }

  lemma BlogPostNoContent(title: string)
    ensures ParseBlogPost(map["title" := JStr(title)]) == Failure(["content"])
  {
    var noContent := map["title" := JStr(title)];
    assert Accepts(noContent, BlogPostFields[0], AnyEmail);
    assert !Accepts(noContent, BlogPostFields[1], AnyEmail);
    assert Rejected(BlogPostFields[2..], noContent, AnyEmail) == [];
    assert BlogPostFields[1..][1..] == BlogPostFields[2..];
    assert Rejected(BlogPostFields, noContent, AnyEmail) == ["content"];
  }

  // ---------------------------------------------------------------------------
  // Contact messages

  /** `ContactMessageBase`; `ContactMessageCreate` adds nothing to it. */
  datatype ContactMessage = ContactMessage(name: string, email: string, subject: Option<string>, message: string)

  const ContactMessageFields := [
    Field("name", Str, true), Field("email", Email, true), Field("subject", Str, false), Field("message", Str, true)]

  /** `ContactMessageResponse`: the stored message, its id, its time and the read flag. */
  datatype ContactMessageResponse = ContactMessageResponse(id: int, msg: ContactMessage, createdAt: int, read: bool)

  /** Validation of a `ContactMessageCreate` body; `isEmail` is the EmailStr check. */
  function ParseContactMessage(body: Body, isEmail: string -> bool): (r: Result<ContactMessage, seq<string>>)
    ensures r.Failure? <==> Rejected(ContactMessageFields, body, isEmail) != []
    ensures r.Failure? ==> r.error == Rejected(ContactMessageFields, body, isEmail)
    ensures r.Success? ==>
              "name" in body && body["name"] == JStr(r.value.name) &&
              "email" in body && body["email"] == JStr(r.value.email) && isEmail(r.value.email) &&
              "message" in body && body["message"] == JStr(r.value.message) &&
              r.value.subject == OptStr(body, "subject", None)
  {
    var bad := Rejected(ContactMessageFields, body, isEmail);
    if bad != [] then Failure(bad)
    else
      assert Accepts(body, ContactMessageFields[0], isEmail) && Accepts(body, ContactMessageFields[1], isEmail);
      assert Accepts(body, ContactMessageFields[3], isEmail);
      Success(ContactMessage(
        ReqStr(body, "name"), ReqStr(body, "email"), OptStr(body, "subject", None), ReqStr(body, "message")))
  }

  /** The subject is the only optional field of a contact message; an address the
      EmailStr check refuses makes the body invalid. */
  lemma ContactMessageDefaults(name: string, email: string, message: string, isEmail: string -> bool)
    ensures var body := map["name" := JStr(name), "email" := JStr(email), "message" := JStr(message)];
            ParseContactMessage(body, isEmail) ==
              if isEmail(email) then Success(ContactMessage(name, email, None, message)) else Failure(["email"])
  {
    var body := map["name" := JStr(name), "email" := JStr(email), "message" := JStr(message)];
    if isEmail(email) {
      assert forall i :: 0 <= i < |ContactMessageFields| ==> Accepts(body, ContactMessageFields[i], isEmail);
    } else {
      assert Accepts(body, ContactMessageFields[0], isEmail);
      assert !Accepts(body, ContactMessageFields[1], isEmail);
      var rest := ContactMessageFields[2..];
      assert ContactMessageFields[1..][1..] == rest;
      assert Accepts(body, rest[0], isEmail) && Accepts(body, rest[1], isEmail);
      assert Rejected(rest, body, isEmail) == [];
      assert Rejected(ContactMessageFields[1..], body, isEmail) == ["email"];
      assert Rejected(ContactMessageFields, body, isEmail) == ["email"];
    }
  }

  // ---------------------------------------------------------------------------
  // Research projects

  /** `ResearchProjectBase`; `ResearchProjectCreate` adds nothing to it. */
  datatype ResearchProject = ResearchProject(
    title: string, description: string, imageUrl: Option<string>, projectUrl: Option<string>,
    technologies: Option<string>, status: Option<string>, startDate: Option<string>,
    endDate: Option<string>, order: Option<int>)

  const ResearchProjectFields := [
    Field("title", Str, true), Field("description", Str, true), Field("image_url", Str, false),
    Field("project_url", Str, false), Field("technologies", Str, false), Field("status", Str, false),
    Field("start_date", Str, false), Field("end_date", Str, false), Field("order", Int, false)]

  /** `ResearchProjectResponse`: the stored project and its id. */
  datatype ResearchProjectResponse = ResearchProjectResponse(id: int, project: ResearchProject)

  /** Validation of a `ResearchProjectCreate` body. */
  function ParseResearchProject(body: Body): (r: Result<ResearchProject, seq<string>>)
    ensures r.Failure? <==> Rejected(ResearchProjectFields, body, AnyEmail) != []
    ensures r.Failure? ==> r.error == Rejected(ResearchProjectFields, body, AnyEmail)
    ensures r.Success? ==>
              "title" in body && body["title"] == JStr(r.value.title) &&
              "description" in body && body["description"] == JStr(r.value.description) &&
              r.value.imageUrl == OptStr(body, "image_url", None) &&
              r.value.projectUrl == OptStr(body, "project_url", None) &&
              r.value.technologies == OptStr(body, "technologies", None) &&
              r.value.status == OptStr(body, "status", Some("Completed")) &&
              r.value.startDate == OptStr(body, "start_date", None) &&
              r.value.endDate == OptStr(body, "end_date", None) &&
              r.value.order == OptInt(body, "order", Some(0))
  {
    var bad := Rejected(ResearchProjectFields, body, AnyEmail);
    if bad != [] then Failure(bad)
    else
      assert Accepts(body, ResearchProjectFields[0], AnyEmail) && Accepts(body, ResearchProjectFields[1], AnyEmail);
      Success(ResearchProject(
        ReqStr(body, "title"), ReqStr(body, "description"), OptStr(body, "image_url", None),
        OptStr(body, "project_url", None), OptStr(body, "technologies", None),
        OptStr(body, "status", Some("Completed")), OptStr(body, "start_date", None),
        OptStr(body, "end_date", None), OptInt(body, "order", Some(0))))
  }

  /** A body with only a title and a description is a completed project of order 0
      with every other field empty. */
  lemma ResearchProjectDefaults(title: string, description: string)
    ensures ParseResearchProject(map["title" := JStr(title), "description" := JStr(description)]) ==
              Success(ResearchProject(title, description, None, None, None, Some("Completed"), None, None, Some(0)))
  {
    var body := map["title" := JStr(title), "description" := JStr(description)];
    assert forall i :: 0 <= i < |ResearchProjectFields| ==> Accepts(body, ResearchProjectFields[i], AnyEmail);
  }

  // ---------------------------------------------------------------------------
  // Publications

  /** `PublicationBase`; `PublicationCreate` adds nothing to it. */
  datatype Publication = Publication(
    title: string, authors: string, journal: Option<string>, year: Option<int>,
    doi: Option<string>, pdfUrl: Option<string>, summary: Option<string>,
    citation: Option<string>, order: Option<int>)

  const PublicationFields := [
    Field("title", Str, true), Field("authors", Str, true), Field("journal", Str, false),
    Field("year", Int, false), Field("doi", Str, false), Field("pdf_url", Str, false),
    Field("abstract", Str, false), Field("citation", Str, false), Field("order", Int, false)]

  /** `PublicationResponse`: the stored publication and its id. */
  datatype PublicationResponse = PublicationResponse(id: int, paper: Publication)

  /** Validation of a `PublicationCreate` body. */
  function ParsePublication(body: Body): (r: Result<Publication, seq<string>>)
    ensures r.Failure? <==> Rejected(PublicationFields, body, AnyEmail) != []
    ensures r.Failure? ==> r.error == Rejected(PublicationFields, body, AnyEmail)
    ensures r.Success? ==>
              "title" in body && body["title"] == JStr(r.value.title) &&
              "authors" in body && body["authors"] == JStr(r.value.authors) &&
              r.value.journal == OptStr(body, "journal", None) &&
              r.value.year == OptInt(body, "year", None) &&
              r.value.doi == OptStr(body, "doi", None) &&
              r.value.pdfUrl == OptStr(body, "pdf_url", None) &&
              r.value.summary == OptStr(body, "abstract", None) &&
              r.value.citation == OptStr(body, "citation", None) &&
              r.value.order == OptInt(body, "order", Some(0))
  {
    var bad := Rejected(PublicationFields, body, AnyEmail);
    if bad != [] then Failure(bad)
    else
      assert Accepts(body, PublicationFields[0], AnyEmail) && Accepts(body, PublicationFields[1], AnyEmail);
      Success(Publication(
        ReqStr(body, "title"), ReqStr(body, "authors"), OptStr(body, "journal", None),
        OptInt(body, "year", None), OptStr(body, "doi", None), OptStr(body, "pdf_url", None),
        OptStr(body, "abstract", None), OptStr(body, "citation", None), OptInt(body, "order", Some(0))))
  }

  /** A body with only a title and authors is a publication of order 0 with no year
      and every other field empty. */
  lemma PublicationDefaults(title: string, authors: string)
    ensures ParsePublication(map["title" := JStr(title), "authors" := JStr(authors)]) ==
              Success(Publication(title, authors, None, None, None, None, None, None, Some(0)))
  {
    var body := map["title" := JStr(title), "authors" := JStr(authors)];
    assert forall i :: 0 <= i < |PublicationFields| ==> Accepts(body, PublicationFields[i], AnyEmail);
  }
}
