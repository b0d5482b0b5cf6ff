/** frontend/src/pages/AdminDashboard.jsx: the admin landing page. It checks the
    token, shows who is signed in, and counts the blog posts, research projects and
    publications the public listings return. */
module AdminDashboard {
  import opened Wrappers
  import opened Schemas
  import opened Listing
  import opened Browser
  import BlogsRouter
  import ResearchRouter
  import PapersRouter

  /** The counts shown on the three section cards. */
  datatype Stats = Stats(blogs: nat, research: nat, papers: nat)

  /** `blogAPI.getAll(0, 100)`: the dashboard asks for at most this many posts. */
  const BlogCountLimit: nat := 100

  /** The counts `fetchStats` computes from the three responses: the published posts,
      capped at the hundred the request asks for, and every research project and
      publication. */
  function CountsFor(blogRows: seq<BlogPostResponse>, projectRows: seq<ResearchProjectResponse>,
                     paperRows: seq<PublicationResponse>, nullsLargest: bool): (s: Stats)
    ensures var published := |Filter(blogRows, BlogsRouter.IsPublished)|;
      s.blogs == if published < BlogCountLimit then published else BlogCountLimit
    ensures s.research == |projectRows| && s.papers == |paperRows|
  {
    var blogs := BlogsRouter.GetAllBlogs(blogRows, 0, BlogCountLimit);
    var projects := ResearchRouter.GetAllProjects(projectRows, nullsLargest);
    var papers := PapersRouter.GetAllPublications(paperRows, nullsLargest);
    assert |projects| == |multiset(projects)| == |multiset(projectRows)| == |projectRows|;
    assert |papers| == |multiset(papers)| == |multiset(paperRows)| == |paperRows|;
    Stats(|blogs|, |projects|, |papers|)
  }

  /** The name in the header: `username || 'Admin'`. */
  function DisplayName(username: Option<string>): (name: string)
    ensures Truthy(username) ==> name == username.value
    ensures !Truthy(username) ==> name == "Admin"
  {
    OrElse(username, "Admin")
  }

  /** The colours the section cards are drawn in. */
  datatype Color = Blue | Green | Purple

  function ColorName(color: Color): string {
    match color
    case Blue => "blue"
    case Green => "green"
    case Purple => "purple"
  }

  /** `getColorClasses(color)`: the background, text and border classes of the
      colour, `bg-<name>-100 text-<name>-600 border-<name>-200`. */
  function ColorClasses(color: Color): (c: string)
    ensures "bg-" + ColorName(color) <= c
  {
    var name := ColorName(color);
    "bg-" + name + "-100 text-" + name + "-600 border-" + name + "-200"
  }

  /** Different colours get different classes. */
  lemma ColorClassesInjective(a: Color, b: Color)
    requires a != b
    ensures ColorClasses(a) != ColorClasses(b)
  {
    var na, nb := ColorName(a), ColorName(b);
    assert na[0] != nb[0];
    assert ColorClasses(a)[3] == ("bg-" + na)[3] == na[0];
    assert ColorClasses(b)[3] == ("bg-" + nb)[3] == nb[0];
  }

  /** A section card: its title, the count it shows, its colour and where it leads. */
  datatype Section = Section(title: string, count: nat, color: Color, path: string)

  /** `adminSections`: blogs, research and publications, in that order. */
  function Sections(stats: Stats): seq<Section> {
    [Section("Blog Posts", stats.blogs, Blue, "/admin/blogs"),
     Section("Research Projects", stats.research, Green, "/admin/research"),
     Section("Publications", stats.papers, Purple, "/admin/papers")]
  }

  /** The three cards show the three counts, lead to three different views and are
      drawn in three different colours. */
  lemma SectionsDistinct(stats: Stats, i: nat, j: nat)
    requires i < j < |Sections(stats)|
    ensures Sections(stats)[i].path != Sections(stats)[j].path
    ensures ColorClasses(Sections(stats)[i].color) != ColorClasses(Sections(stats)[j].color)
    ensures [Sections(stats)[0].count, Sections(stats)[1].count, Sections(stats)[2].count] ==
              [stats.blogs, stats.research, stats.papers]
  {
    var s := Sections(stats);
    assert s[0].path[7] == 'b' && s[1].path[7] == 'r' && s[2].path[7] == 'p';
    ColorClassesInjective(s[i].color, s[j].color);
  }

  class Dashboard {
    const window: Window
    var stats: Stats
    /** `username`; None is what an answer without a username leaves there. */
    var username: Option<string>

    constructor (w: Window)
      ensures window == w && stats == Stats(0, 0, 0) && username == Some("")
    {
      window := w;
      stats := Stats(0, 0, 0);
      username := Some("");
    }

    /** `verifyAuthentication`: without a token, the login page; with one, the
        backend's answer: `Some(name)` (the name possibly absent) on success, None on
        failure, which drops the token and goes to the login page. */
    method VerifyAuthentication(answer: Option<Option<string>>)
      modifies this, window
      ensures !Truthy(old(window.adminToken)) ==>
                username == old(username) && window.adminToken == old(window.adminToken) &&
                window.history == old(window.history) + [LoginPath]
      ensures Truthy(old(window.adminToken)) && answer.Some? ==>
                username == answer.value && window.adminToken == old(window.adminToken) &&
                window.history == old(window.history)
      ensures Truthy(old(window.adminToken)) && answer.None? ==>
                username == old(username) && window.adminToken == None &&
                window.history == old(window.history) + [LoginPath]
      ensures stats == old(stats)
    {
      if !Truthy(window.adminToken) {
        window.Navigate(LoginPath);
        return;
      }
      match answer {
        case Some(name) => username := name;
        case None => window.Logout();
      }
    }

    /** `fetchStats`: the three listings at once; the counts when all three answer,
        the old counts when any of them fails. */
    method FetchStats(blogRows: seq<BlogPostResponse>, projectRows: seq<ResearchProjectResponse>,
                      paperRows: seq<PublicationResponse>, nullsLargest: bool, allAnswered: bool)
      modifies this
      ensures stats == if allAnswered then CountsFor(blogRows, projectRows, paperRows, nullsLargest) else old(stats)
      ensures username == old(username)
    {
      if allAnswered {
        stats := CountsFor(blogRows, projectRows, paperRows, nullsLargest);
      }
    }

    /** The mount effect: the token check and the counts, independently of each other;
        the counts load even when the check sends the user to the login page. */
    method Mount(answer: Option<Option<string>>, blogRows: seq<BlogPostResponse>,
                 projectRows: seq<ResearchProjectResponse>, paperRows: seq<PublicationResponse>,
                 nullsLargest: bool, allAnswered: bool)
      modifies this, window
      ensures stats == if allAnswered then CountsFor(blogRows, projectRows, paperRows, nullsLargest) else old(stats)
      ensures !Truthy(old(window.adminToken)) ==>
                username == old(username) && window.adminToken == old(window.adminToken) &&
                window.history == old(window.history) + [LoginPath]
      ensures Truthy(old(window.adminToken)) && answer.Some? ==>
                username == answer.value && window.adminToken == old(window.adminToken) &&
                window.history == old(window.history)
      ensures Truthy(old(window.adminToken)) && answer.None? ==>
                username == old(username) && window.adminToken == None &&
                window.history == old(window.history) + [LoginPath]
    {
      VerifyAuthentication(answer);
      FetchStats(blogRows, projectRows, paperRows, nullsLargest, allAnswered);
    }

    /** `handleLogout`: only after the user confirms. */
    method HandleLogout(confirmed: bool)
      modifies window
      ensures confirmed ==> window.adminToken == None && window.history == old(window.history) + [LoginPath]
      ensures !confirmed ==> window.adminToken == old(window.adminToken) && window.history == old(window.history)
    {
      if confirmed {
        window.Logout();
      }
    }
  }
}
