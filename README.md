# Portfolio site: a Dafny model of its logic

The site is an academic portfolio made of two parts. A FastAPI backend stores blog
posts, research projects, publications and contact messages. A React frontend shows
them publicly and offers password-protected admin views. This project models the parts
of both that hold logic and proves what they promise:

- **Backend.**
  - The settings read at import and their validation (`Config`).
  - The choice and rewriting of the database URL (`Database`).
  - Request validation with its defaults (`Schemas`).
  - The four routers (`BlogsRouter`, `PapersRouter`, `ResearchRouter`, `ContactRouter`). They share one filter / stable sort / offset-limit pipeline (`Listing`). A created row is what the ORM stores: an attribute left at None takes its column's default.
- **Frontend utilities.**
  - The HTML escaper, the e-mail check, token expiry and the rate limiter (`Security`).
  - The session poller (`SessionTimeout`).
  - The browser state they touch, as a `Window` object holding the stored token and the navigation history (`Browser`).
- **Public pages.**
  - The loading / error / retry cycle of the list and detail pages (`Pages`).
  - The display rules: excerpt fallback, tag chips, status badges, the code-block language, date lines and publication links (`Display`).
  - The JavaScript string semantics these rules depend on (`Text`): whitespace, trim, split, `parseInt`.
- **Admin views.** Each is a class over its React state, and backend calls are recorded in a `calls` log:
  - blog posts with the Markdown toolbar (`AdminBlog`);
  - publications (`AdminPapers`);
  - research projects (`AdminResearch`);
  - the dashboard (`AdminDashboard`);
  - what the four share (`AdminCommon`).

Conventions:

- A backend call is modelled as its outcome. It is a parameter, such as `reachable`, `saved` or `verified`, or an `Option` whose `None` is a thrown error.
- The clock is an integer `now`.
- Decoding a JWT payload is a function parameter `decode`.
- Where a database leaves the position of NULL keys open, a `nullsLargest` flag chooses it.
- JavaScript truthiness is written out by `Truthy` and `TruthyInt`: an absent or empty string is falsy, and so are null and 0.

## Model

| member | source | states |
|---|---|---|
| Security.Escape | frontend/src/utils/security.js:9-15 | the escaped text is never shorter, holds none of `< > " ' /`, and text without special characters or `&` is unchanged |
| Security.ChainedReplaceIsEscape | frontend/src/utils/security.js:9-15 | the six chained global replaces, `&` first, equal the single per-character entity map, so nothing is escaped twice |
| Security.ChainedReplaceAppend | frontend/src/utils/security.js:9-15 | the replace chain distributes over concatenation |
| Security.Entity | frontend/src/utils/security.js:10-15 | every character maps to a non-empty text |
| Security.EntityIsPlain | frontend/src/utils/security.js:10-15 | an entity holds no special character, and a plain character other than `&` is kept as it is |
| Security.ApplyRulesAppend | frontend/src/utils/security.js:10-15 | any chain of global replaces distributes over concatenation |
| Security.ApplyRulesAbsent | frontend/src/utils/security.js:10-15 | a chain of replaces leaves text without any of its characters unchanged |
| Security.ApplyRulesChar | frontend/src/utils/security.js:10-15 | a single character becomes the replacement of its first rule when no later rule touches that replacement |
| Security.ChainedReplaceChar | frontend/src/utils/security.js:10-15 | the six chained replaces turn each single character into its entity, `&amp;` not being escaped again |
| Security.SanitizeInput | frontend/src/utils/security.js:6-16 | a non-string is returned unchanged; a string is escaped |
| Security.UnescapeEscape | frontend/src/utils/security.js:9-15 | decoding the five entities and `&amp;` undoes the escaping |
| Security.UnescapeEntity | frontend/src/utils/security.js:10-15 | decoding an entity gives back its character and continues after it |
| Security.SanitizeInjective | frontend/src/utils/security.js:9-15 | two different strings never sanitise to the same text |
| Security.EmailCharacterization | frontend/src/utils/security.js:35-38 | the regex holds iff the address is L@R, with L non-empty and free of whitespace and `@`, and R free of them with a `.` neither first nor last |
| Security.RegexGivesShape | frontend/src/utils/security.js:36-37 | a match of the regex splits into a non-empty local part, `@`, and a domain with an inner `.` |
| Security.ShapeGivesRegex | frontend/src/utils/security.js:36-37 | every such address matches the regex |
| Security.ValidEmailHasOneAt | frontend/src/utils/security.js:36 | a valid address has exactly one `@` |
| Security.IsTokenExpired | frontend/src/utils/security.js:43-52 | a missing or empty token is expired, and so is an undecodable one; otherwise a token is expired exactly when `exp*1000 < now`, so `exp*1000 == now` is not expired |
| Security.ExpiryIsPermanent | frontend/src/utils/security.js:48 | a token expired now is expired at every later time |
| Security.CheckTokenExpiration | frontend/src/utils/security.js:57-67 | returns false, removes the token and goes to the login page iff the token is expired; otherwise storage and history are untouched |
| Security.WaitSeconds | frontend/src/utils/security.js:79 | the wait is the whole seconds rounding up the remaining milliseconds, at least 1 |
| Security.RateLimiter.RateLimit | frontend/src/utils/security.js:74-85 | with a recorded non-zero timestamp less than `limitMs` ago it refuses with the wait and leaves the map alone; otherwise it records `now` for that key only |
| Security.RateLimiter.constructor | frontend/src/utils/security.js:72 | the request map starts empty |
| Security.RateLimitWindow | frontend/src/utils/security.js:74-85 | two calls of `rateLimit(key)` with the default 5000 ms limit: the first is accepted exactly when the limiter does not refuse it, and then the second, less than 5000 ms later, is refused with `ceil((5000 - elapsed) / 1000)` seconds to wait and the key's record stays at the first call's time; no other key's record changes |
| SessionTimeout.Classify | frontend/src/components/SessionTimeout.jsx:13-36 | no token stops the poller; an undecodable payload is only logged; `remaining <= 0` expires; `0 < remaining < 300000` warns with the whole minutes left (0 to 4); anything else, five minutes exactly included, is idle |
| SessionTimeout.PollerVersusIsTokenExpired | frontend/src/components/SessionTimeout.jsx:20-33 | the poller and `isTokenExpired` disagree exactly on undecodable tokens and on `exp*1000 == now` |
| SessionTimeout.SessionMonitor.Tick | frontend/src/components/SessionTimeout.jsx:12-37 | one interval run: stops, logs, shows the warning with its minutes, or removes the token and navigates; an idle tick keeps the previous warning state |
| SessionTimeout.SessionMonitor.constructor | frontend/src/components/SessionTimeout.jsx:8-9 | the warning starts hidden with no time left, and the poller runs |
| SessionTimeout.SessionMonitor.Dismiss | frontend/src/components/SessionTimeout.jsx:58 | hides the notice and changes nothing else |
| SessionTimeout.SessionMonitor.Rendered | frontend/src/components/SessionTimeout.jsx:42-55 | nothing renders while the warning is hidden; the notice shows the minutes left |
| SessionTimeout.MinuteWord | frontend/src/components/SessionTimeout.jsx:53 | "minute" exactly when the count is 1, "minutes" otherwise |
| SessionTimeout.DismissThenTick | frontend/src/components/SessionTimeout.jsx:27-29 | a dismissed warning comes back at the next tick inside the window |
| Environment.GetenvOr | backend/app/config.py:9 | the variable's value when set, the default otherwise |
| Config.Load | backend/app/config.py:6-20 | each setting is its variable; the defaults are admin, the SQLite URL, localhost:3000, development and onboarding@resend.dev |
| Config.Bullets | backend/app/config.py:36 | one `  - ` line per error, in order |
| Config.ErrorMessage | backend/app/config.py:36 | the message starts with the heading line |
| Config.ErrorMessageLines | backend/app/config.py:36 | split on newlines, the message is the heading followed by one bullet per error |
| Config.Messages | backend/app/config.py:26-33 | one message per problem, in order, each the text the validator appends |
| Config.HeadingIsOneLine | backend/app/config.py:36 | the heading of the error message is a single line |
| Config.BulletsHaveNoNewline | backend/app/config.py:36 | bullets built from one-line errors are single lines |
| Config.Validate | backend/app/config.py:22-38 | an empty or placeholder secret, an unset or placeholder password, and localhost in production origins each add their problem, in that order; it fails iff some problem is present, carrying exactly the problems found, and otherwise returns true |
| Config.Problems | backend/app/config.py:24-33 | a problem is listed iff the settings have it, and the problems come in the order the checks run |
| Config.Import | backend/app/config.py:40-44 | importing fails iff the environment is production and validation finds a problem; the error text is the heading and one bullet per problem found; otherwise the settings are loaded |
| Config.DefaultOriginsFailInProduction | backend/app/config.py:14 | production with ALLOWED_ORIGINS unset always fails validation |
| Database.NormalizeUrl | backend/app/database.py:26-27 | a `postgres://` URL becomes `postgresql://` plus the same remainder; any other URL is unchanged |
| Database.ReplaceFirst | backend/app/database.py:27 | `replace(..., 1)` on a URL starting with the pattern swaps that prefix; without the pattern the URL is unchanged |
| Database.DatabaseUrl | backend/app/database.py:19-27 | the SQLite file by default, otherwise the normalised variable |
| Database.NormalizeIdempotent | backend/app/database.py:26-27 | normalising twice is normalising once |
| Database.NormalizeKeepsRest | backend/app/database.py:26-27 | the rewrite adds two characters and keeps everything after the scheme |
| Database.EngineFor | backend/app/database.py:35-53 | the SQLite branch is taken iff "sqlite" occurs in the URL; otherwise a pool of 5 plus 10, pre-ping, recycled hourly |
| Database.DefaultEngineIsSqlite | backend/app/database.py:19 | without DATABASE_URL the SQLite branch is taken |
| Database.PostgresUrlNamingSqlite | backend/app/database.py:26-35 | every `postgres://` URL with "sqlite" after its scheme is rewritten to `postgresql://` and still gets the SQLite configuration |
| Schemas.Rejected | backend/app/schemas.py:6-12 | the rejected field names: empty iff every field is acceptable, every bad field is named, and every name belongs to a bad field |
| Schemas.OptStr | backend/app/schemas.py:9 | an absent optional field takes its default, and an explicit null is None |
| Schemas.OptInt | backend/app/schemas.py:55 | an absent integer field takes its default; a non-integer value is rejected as None |
| Schemas.OptBool | backend/app/schemas.py:10 | an absent boolean field takes its default; a non-boolean value is rejected as None |
| Schemas.ParseBlogPost | backend/app/schemas.py:6-15 | a body is accepted iff no field is rejected; the post carries the body's values |
| Schemas.BlogPostDefaults | backend/app/schemas.py:6-12 | title and content are required; the defaults are no excerpt or tags, author "Your Name", published |
| Schemas.BlogPostFull | backend/app/schemas.py:6-12 | a title and a content alone make a published post by "Your Name" without excerpt or tags |
| Schemas.BlogPostNoTitle | backend/app/schemas.py:7 | a body without a title is rejected naming only `title` |
| Schemas.BlogPostNoContent | backend/app/schemas.py:8 | a body without content is rejected naming only `content` |
| Schemas.ParseContactMessage | backend/app/schemas.py:27-34 | a body is accepted iff name, a valid e-mail and message are given; the subject is optional |
| Schemas.ContactMessageDefaults | backend/app/schemas.py:27-31 | name, e-mail and message alone make a message without subject |
| Schemas.ParseResearchProject | backend/app/schemas.py:46-58 | a body is accepted iff no field is rejected; the project carries the body's values |
| Schemas.ResearchProjectDefaults | backend/app/schemas.py:46-55 | title and description alone make a completed project of order 0 |
| Schemas.ParsePublication | backend/app/schemas.py:68-80 | a body is accepted iff no field is rejected; the publication carries the body's values |
| Schemas.PublicationDefaults | backend/app/schemas.py:68-77 | title and authors alone make a publication of order 0 with every other field empty |
| Listing.SortBySorted | backend/app/routers/blogs.py:13 | `order_by` yields a sorted rearrangement of exactly the rows it is given |
| Listing.SortBy | backend/app/routers/blogs.py:13 | the sorted rows are a rearrangement of the given rows |
| Listing.InsertAgree | backend/app/routers/research.py:13 | inserting with two orders that agree on the new row against every listed row gives the same listing |
| Listing.SortByAgree | backend/app/routers/research.py:13 | two orders that agree on every pair of the table's rows sort the table identically |
| Listing.Insert | backend/app/routers/blogs.py:13 | inserting adds exactly that row |
| Listing.InsertSorted | backend/app/routers/blogs.py:13 | inserting into a sorted list keeps it sorted |
| Listing.Filter | backend/app/routers/blogs.py:13 | the rows satisfying the predicate and no others |
| Listing.FilterAppend | backend/app/routers/blogs.py:13 | filtering keeps table order: filtering `a + b` is filtering `a` followed by filtering `b` |
| Listing.FilterMultiset | backend/app/routers/blogs.py:13 | each passing row is kept as many times as the table holds it, every other row not at all |
| Listing.Window | backend/app/routers/blogs.py:13 | `offset(skip).limit(limit)`: row `skip + i` at position `i`, at most `limit` rows |
| Listing.WindowsTile | backend/app/routers/blogs.py:11-13 | two consecutive pages are the double-length page |
| Listing.WindowAll | backend/app/routers/blogs.py:13 | a window from 0 at least as long as the list is the list |
| Listing.WindowOfSorted | backend/app/routers/blogs.py:13 | a page of a sorted listing is sorted and holds only listed rows |
| Listing.WindowFirstPage | backend/app/routers/blogs.py:13 | the first page of a sorted listing holds its first elements: everything left out comes after everything kept |
| Listing.AscLeAntisymmetric | backend/app/routers/research.py:13 | two keys tie iff they are equal, NULLs included |
| Listing.First | backend/app/routers/blogs.py:19 | `first()`: None iff no row matches, otherwise some matching row of the table (SQL names no particular one) |
| Listing.FirstUnique | backend/app/routers/blogs.py:19 | with a single matching row, `first()` finds it |
| BlogsRouter.BlogTable.CreateBlog | backend/app/routers/blogs.py:24-31 | exactly one row is appended, carrying the payload as the ORM stores it, the time and a fresh id; the new post is listed unless the request set `published` to false; the table keeps its invariant that `author` and `published` are never NULL |
| BlogsRouter.StoredPost | backend/app/models.py:13-16 | a None `author` or `published` is stored as its column default, "Your Name" or true; every other field is stored as given |
| BlogsRouter.BlogTable.constructor | backend/app/routers/blogs.py:24-31 | the table starts empty |
| BlogsRouter.NewerFirstIsTotalPreorder | backend/app/routers/blogs.py:13 | newest-first is a total preorder |
| BlogsRouter.GetAllBlogs | backend/app/routers/blogs.py:10-14 | exactly `min(limit, max(0, published - skip))` posts, each a published row, newest first |
| BlogsRouter.GetAllBlogsFirstPage | backend/app/routers/blogs.py:10-14 | the first page shows the newest published posts: every published post left out is no newer than every post shown |
| BlogsRouter.GetAllBlogsPagesTile | backend/app/routers/blogs.py:11-13 | the pages at `skip` and `skip + limit` together are the page of size `2 * limit` at `skip` |
| BlogsRouter.GetAllBlogsComplete | backend/app/routers/blogs.py:13 | a page at least as long as the published posts lists every one of them exactly once |
| BlogsRouter.GetBlog | backend/app/routers/blogs.py:16-22 | a row with that id, whether published or not, or 404 "Blog post not found" iff none has it |
| BlogsRouter.GetBlogFindsEveryRow | backend/app/routers/blogs.py:19 | every stored post, drafts included, is found by its id |
| PapersRouter.PublicationTable.CreatePublication | backend/app/routers/papers.py:24-31 | exactly one row with the payload as the ORM stores it and a fresh id; `order` is never NULL in the table |
| PapersRouter.StoredPublication | backend/app/models.py:71 | a None `order` is stored as the column default 0; every other field, a NULL `year` included, is stored as given |
| PapersRouter.PublicationTable.constructor | backend/app/routers/papers.py:24-31 | the table starts empty |
| PapersRouter.PaperBeforeIsTotalPreorder | backend/app/routers/papers.py:13 | year descending then order ascending is a total preorder |
| PapersRouter.GetAllPublications | backend/app/routers/papers.py:10-14 | every row, none filtered, sorted by year descending then order |
| PapersRouter.ListedByYearThenOrder | backend/app/routers/papers.py:13 | of two listed publications, the earlier is not older, and within a year its order is not larger |
| PapersRouter.GetPublication | backend/app/routers/papers.py:16-22 | the row with that id, or 404 "Publication not found" iff none |
| ResearchRouter.ProjectTable.CreateProject | backend/app/routers/research.py:24-31 | exactly one row with the payload as the ORM stores it and a fresh id; `status` and `order` are never NULL in the table |
| ResearchRouter.StoredProject | backend/app/models.py:49-52 | a None `status` or `order` is stored as its column default, "Completed" or 0; every other field is stored as given |
| ResearchRouter.ProjectsListedIgnoringNulls | backend/app/routers/research.py:10-14 | a table filled through `create_project` is listed the same whether the database sorts NULL first or last |
| ResearchRouter.ProjectTable.constructor | backend/app/routers/research.py:24-31 | the table starts empty |
| ResearchRouter.ProjectBeforeIsTotalPreorder | backend/app/routers/research.py:13 | ascending `order` is a total preorder |
| ResearchRouter.GetAllProjects | backend/app/routers/research.py:10-14 | every row, none filtered, sorted by `order` |
| ResearchRouter.GetProject | backend/app/routers/research.py:16-22 | the row with that id, or 404 "Research project not found" iff none |
| ContactRouter.MessageTable.CreateContactMessage | backend/app/routers/contact.py:10-20 | exactly one new unread row with the payload, the time and a fresh id |
| ContactRouter.MessageTable.constructor | backend/app/routers/contact.py:10-20 | the table starts empty |
| ContactRouter.NewerFirstIsTotalPreorder | backend/app/routers/contact.py:25 | newest-first is a total preorder |
| ContactRouter.GetAllMessages | backend/app/routers/contact.py:22-26 | exactly `min(limit, max(0, messages - skip))` messages of the table, read or not, newest first |
| ContactRouter.GetAllMessagesFirstPage | backend/app/routers/contact.py:22-26 | the first page shows the newest messages: every message left out is no newer than every message shown |
| ContactRouter.GetAllMessagesPagesTile | backend/app/routers/contact.py:23-25 | the pages at `skip` and `skip + limit` together are the page of size `2 * limit` at `skip` |
| ContactRouter.GetAllMessagesComplete | backend/app/routers/contact.py:25 | a page at least as long as the table lists every message exactly once |
| ContactRouter.NewMessageListedFirst | backend/app/routers/contact.py:23-25 | a message newer than all others heads the default listing |
| Text.Split | frontend/src/pages/Blog.jsx:104 | `split(',')`: at least one piece, none containing the separator |
| Text.JoinSplit | frontend/src/pages/Blog.jsx:104 | joining the pieces gives the string back |
| Text.SplitJoin | frontend/src/pages/Blog.jsx:104 | splitting joined separator-free pieces gives the pieces back |
| Text.SplitCount | frontend/src/pages/Blog.jsx:104 | there is one piece more than separators |
| Text.Trim | frontend/src/pages/Blog.jsx:110 | `trim()` keeps a contiguous part of the text with only whitespace cut on either side, and what it keeps neither starts nor ends with whitespace |
| Text.TrimStart | frontend/src/pages/AdminResearch.jsx:323 | `parseInt` first skips the leading whitespace run, all of it and nothing more |
| Text.SpaceRunFrom | frontend/src/pages/Blog.jsx:110 | the whitespace run starting at a position ends at the first non-whitespace character or at the end |
| Text.SpaceRunBefore | frontend/src/pages/Blog.jsx:110 | the whitespace run ending at a position starts just after a non-whitespace character or at the start |
| Text.TrimNoSpace | frontend/src/pages/Blog.jsx:110 | text without whitespace is its own trim |
| Text.ParseIntDefined | frontend/src/pages/AdminResearch.jsx:323 | `parseInt` is a number iff, after leading whitespace and one optional sign, a digit follows |
| Text.ParseNumeral | frontend/src/pages/AdminPapers.jsx:244 | `parseInt` reads a decimal numeral, with or without a minus sign, as its value |
| Text.ParseIntOfNat | frontend/src/pages/AdminPapers.jsx:326 | a decimal numeral followed by a non-digit parses as its value, and with a minus sign as its negation |
| Text.LeadingNumber | frontend/src/pages/AdminPapers.jsx:244 | a number iff the text starts with a digit |
| Text.NatToStringValue | frontend/src/pages/AdminPapers.jsx:244 | the decimal notation of a number reads back as the number |
| Display.CardText | frontend/src/pages/Blog.jsx:98 | a truthy excerpt as is, otherwise the first 150 characters of the content followed by `...` |
| Display.Chips | frontend/src/pages/Blog.jsx:102-111 | no chips for absent or empty tags; otherwise one chip per comma-separated piece, so commas plus one, the k-th being the k-th piece trimmed |
| Display.TrimAll | frontend/src/pages/Blog.jsx:104-110 | `map(t => t.trim())`: one trimmed piece per piece, in order |
| Display.TrimmedPiecesAreChips | frontend/src/pages/Blog.jsx:104-110 | the trimmed pieces of a split hold no comma and neither start nor end with whitespace |
| Display.TrimmedIsChip | frontend/src/pages/Blog.jsx:110 | a comma-free piece trims to a chip |
| Display.TrimKeepsOut | frontend/src/pages/Blog.jsx:110 | trimming adds no character |
| Display.ChipsJoin | frontend/src/pages/BlogDetail.jsx:94-103 | for tags without whitespace, the chips joined with commas are the tags |
| Display.PiecesNoSpace | frontend/src/pages/Blog.jsx:104 | the comma-separated pieces of a whitespace-free tag list are whitespace-free |
| Display.TrimAllNoSpace | frontend/src/pages/Blog.jsx:110 | trimming whitespace-free chips changes none of them |
| Display.StatusBadge | frontend/src/pages/Research.jsx:84-90 | green iff "Completed", blue iff "Ongoing", yellow for anything else |
| Display.StatusOptionsBadges | frontend/src/pages/AdminResearch.jsx:373-377 | the three admin statuses get three different badges and class lists |
| Display.BadgeClasses | frontend/src/pages/Research.jsx:84-88 | each badge's classes start with the background of its colour |
| Display.BadgeClassesInjective | frontend/src/pages/Research.jsx:84-88 | different badges get different class lists |
| Display.WordRun | frontend/src/pages/BlogDetail.jsx:117 | the greedy `\w+`: the longest word-character prefix |
| Display.FindMatch | frontend/src/pages/BlogDetail.jsx:117 | the leftmost position where `language-` followed by a word character occurs |
| Display.CodeLanguage | frontend/src/pages/BlogDetail.jsx:117 | the word after the leftmost `language-` match in the class name, or none |
| Display.LanguageOfWord | frontend/src/pages/ResearchDetail.jsx:141-156 | `language-w` yields `w` for every word `w` |
| Display.StripTrailingNewline | frontend/src/pages/BlogDetail.jsx:125 | one trailing newline is removed if present; otherwise the code is unchanged |
| Display.StripOnlyOne | frontend/src/pages/BlogDetail.jsx:125 | of two trailing newlines only one is removed |
| Display.RenderCode | frontend/src/pages/BlogDetail.jsx:116-131 | highlighted iff the block is not inline and has a language; highlighted code loses one trailing newline; plain code is kept verbatim |
| Display.DateLine | frontend/src/pages/Research.jsx:117-121 | a line iff a start date is set; it continues with `- end` iff an end date is set |
| Display.DoiLink | frontend/src/pages/Papers.jsx:110-120 | a link iff the DOI is non-empty, namely `https://doi.org/` followed by the DOI |
| Display.PdfLink | frontend/src/pages/Papers.jsx:121-131 | a link iff the PDF URL is non-empty, to that URL |
| Display.JournalPrefix | frontend/src/pages/Papers.jsx:85 | `journal, ` when the journal is set, nothing otherwise |
| Display.YearSlotOf | frontend/src/pages/Papers.jsx:86 | the year is shown iff it is truthy; a year of 0 renders a stray `0` |
| Pages.ListPage.View | frontend/src/pages/Blog.jsx:36-74 | the spinner iff loading; the error iff loaded with an error; the empty message iff no items; otherwise the cards |
| Pages.ListPage.constructor | frontend/src/pages/Blog.jsx:6-8 | no items, loading, no error |
| Pages.ListPage.StartFetch | frontend/src/pages/Blog.jsx:16 | loading is set and nothing else changes |
| Pages.ListPage.FinishFetch | frontend/src/pages/Blog.jsx:17-24 | loading ends; the response's items, or the failure text with the items kept |
| Pages.ListPage.Fetch | frontend/src/pages/Blog.jsx:14-25 | loading ends either way; the items on success, the failure text on error, and the error is never reset |
| Pages.ListPage.FetchClearingError | frontend/src/pages/Blog.jsx:14-25 | as Fetch, with the error reset on success |
| Pages.RetryAfterFailure | frontend/src/pages/Blog.jsx:44-55 | after a failure, a Retry that succeeds still shows the error |
| Pages.RetryAfterFailureClearing | frontend/src/pages/Blog.jsx:44-55 | with the reset, the Retry shows the cards or the empty message |
| Pages.LoadBlogPage | frontend/src/pages/Blog.jsx:10-25 | after mount: the backend's published newest-first posts, or the failure text |
| Pages.LoadPapersPage | frontend/src/pages/Papers.jsx:14-46 | after mount: every publication in listing order, or the failure text |
| Pages.LoadResearchPage | frontend/src/pages/Research.jsx:14-46 | after mount: every project in listing order, or the failure text |
| Pages.DetailPage.View | frontend/src/pages/BlogDetail.jsx:42-61 | the spinner iff loading; not found iff an error or no record, with the error text or the fallback; otherwise the record |
| Pages.DetailPage.constructor | frontend/src/pages/BlogDetail.jsx:12-14 | no record, loading, no error |
| Pages.DetailPage.Fetch | frontend/src/pages/BlogDetail.jsx:20-31 | loading ends either way; the record on success, the failure text on error, never reset |
| Pages.DetailPage.FetchClearingError | frontend/src/pages/BlogDetail.jsx:20-31 | as Fetch, with the error reset on success |
| Pages.LoadDetail | frontend/src/pages/ResearchDetail.jsx:20-52 | the first fetch shows the record or the failure text, never the fallback |
| Pages.NewIdAfterFailure | frontend/src/pages/BlogDetail.jsx:16-31 | after a failed load, the record of the next id arrives and the old failure is still shown |
| Pages.NewIdAfterFailureClearing | frontend/src/pages/BlogDetail.jsx:16-31 | with the reset, the new record is shown |
| Pages.LoadBlogDetail | frontend/src/pages/BlogDetail.jsx:20-61 | every stored post, a draft included, is shown on its own page; an unknown id shows the failure text |
| Pages.LoadResearchDetail | frontend/src/pages/ResearchDetail.jsx:20-52 | the project with that id, or the failure text |
| AdminCommon.SaveCall | frontend/src/pages/Admin.jsx:64-70 | an update of the edited id iff `editingId` is truthy, a creation otherwise, carrying the form |
| Browser.Window.constructor | frontend/src/pages/Admin.jsx:8 | a window with the given token and no navigation yet |
| Browser.Window.Logout | frontend/src/pages/Admin.jsx:33-36 | the token is removed and the login page is pushed |
| Browser.Window.Navigate | frontend/src/pages/Admin.jsx:20-21 | the path is pushed and the token kept |
| AdminCommon.RecordTitle | frontend/src/pages/Admin.jsx:108-109 | the title of a listed record with that id, or the fallback iff none is listed |
| AdminCommon.RecordTitleOfListed | frontend/src/pages/AdminPapers.jsx:92-93 | with unique ids, the prompt names the record being deleted |
| AdminCommon.DeletePrompt | frontend/src/pages/Admin.jsx:111 | the question, the title and the warning, in that order |
| AdminCommon.DeletePromptInjective | frontend/src/pages/AdminPapers.jsx:95 | different titles give different prompts |
| AdminCommon.ShortDeletePrompt | frontend/src/pages/AdminResearch.jsx:94 | the shorter question, the title and the warning |
| AdminCommon.NumberOr | frontend/src/pages/AdminPapers.jsx:326 | `parseInt(v) \|\| fallback`: the number unless it is NaN or 0 |
| AdminCommon.NumberOrOfNumeral | frontend/src/pages/AdminPapers.jsx:244 | a typed numeral gives its value, and 0 gives the fallback |
| AdminCommon.NumberOrOfNegative | frontend/src/pages/AdminPapers.jsx:326 | a minus sign gives the negative value |
| AdminCommon.NumberOrOfEmpty | frontend/src/pages/AdminPapers.jsx:326 | a cleared input gives the fallback |
| AdminBlog.InsertMarkdownText | frontend/src/pages/Admin.jsx:125-166 | for the six toolbar syntaxes: the text before, the opening mark, the selection or the placeholder, the closing mark, the text after; the caret at start plus the opening mark's length; nothing for any other syntax |
| AdminBlog.StrOr | frontend/src/pages/Admin.jsx:139-159 | `selected \|\| placeholder`: the selection when non-empty, the placeholder otherwise |
| AdminBlog.CaretOnBody | frontend/src/pages/Admin.jsx:137-169 | the caret lands on the first character of the inserted body, inside the text, and the text around it is kept |
| AdminBlog.FormFor | frontend/src/pages/Admin.jsx:92-100 | the post's fields, with a missing excerpt or tag list as the empty string |
| AdminBlog.FormForRoundTrip | frontend/src/pages/Admin.jsx:92-100 | a post with excerpt and tags survives the edit form unchanged |
| AdminBlog.BlogAdmin.FetchBlogs | frontend/src/pages/Admin.jsx:52-59 | the listing's first page on success, the old list on failure; only published posts are ever listed |
| AdminBlog.BlogAdmin.constructor | frontend/src/pages/Admin.jsx:9-46 | no posts, the form closed with its defaults, not editing, no preview, no calls |
| AdminBlog.BlogAdmin.VerifyAuthentication | frontend/src/pages/Admin.jsx:17-32 | no token: the login page and no call; verified: the list is fetched; refused: the token is dropped and the login page shown |
| AdminBlog.BlogAdmin.Mount | frontend/src/pages/Admin.jsx:13-59 | the authentication check and then a list fetch whatever it decides: without a token, one fetch and the login page; with a verified token, verify and two fetches, token and history kept; with a refused one, verify, one fetch, the token dropped and the login page; the list is the listing whenever the backend answers; the form is untouched |
| AdminBlog.BlogAdmin.HandleLogout | frontend/src/pages/Admin.jsx:33-36 | the token is removed and the login page shown, without confirmation |
| AdminBlog.BlogAdmin.HandleEdit | frontend/src/pages/Admin.jsx:92-104 | the form filled from the post, open, editing its id |
| AdminBlog.BlogAdmin.HandleSubmit | frontend/src/pages/Admin.jsx:61-90 | refused by the browser without a title, or without content outside preview, calling nothing and keeping form and list; otherwise an update or creation, and on success the defaults (author "Pratush Kumar", published), closed, a fresh list; preview and caret untouched |
| AdminBlog.BlogAdmin.HandleDelete | frontend/src/pages/Admin.jsx:106-123 | the prompt names the title; refused means no call; a successful delete refetches; form, preview and caret untouched |
| AdminBlog.BlogAdmin.ToggleForm | frontend/src/pages/Admin.jsx:216-228 | opening keeps the form; closing also resets it and clears the edited id; list, calls, preview and caret untouched |
| AdminBlog.BlogAdmin.CancelForm | frontend/src/pages/Admin.jsx:435-438 | closes and clears the edited id, keeping what was typed; list, calls, preview and caret untouched |
| AdminBlog.BlogAdmin.CancelFormResetting | frontend/src/pages/Admin.jsx:435-438 | the corrected Cancel also resets the form; list, calls, preview and caret untouched |
| AdminBlog.BlogAdmin.TogglePreview | frontend/src/pages/Admin.jsx:46 | flips preview; form, list, calls and caret untouched |
| AdminBlog.BlogAdmin.InsertMarkdown | frontend/src/pages/Admin.jsx:125-171 | only the content changes, to the spliced text, and the caret is set; no change without the textarea or for an unknown syntax |
| AdminBlog.EditCancelThenNew | frontend/src/pages/Admin.jsx:435-438 | edit, bottom Cancel, New Post and Save create a copy of the cancelled post |
| AdminBlog.EditCancelThenNewResetting | frontend/src/pages/Admin.jsx:435-438 | with the corrected Cancel the new form is empty and a bare submit is refused |
| AdminPapers.DefaultForm | frontend/src/pages/AdminPapers.jsx:13-23 | empty texts, the current year, order 0 |
| AdminPapers.FormFor | frontend/src/pages/AdminPapers.jsx:74-85 | missing texts become "", a falsy year becomes the current year, title, authors and order are copied |
| AdminPapers.FormForRoundTrip | frontend/src/pages/AdminPapers.jsx:74-85 | a fully filled publication survives the edit form unchanged |
| AdminPapers.FormForDatesUndated | frontend/src/pages/AdminPapers.jsx:79 | a publication without a year comes back dated this year |
| AdminPapers.PaperAdmin.FetchPapers | frontend/src/pages/AdminPapers.jsx:46-53 | every publication in listing order on success, the old list on failure |
| AdminPapers.PaperAdmin.constructor | frontend/src/pages/AdminPapers.jsx:9-23 | no publications, the form closed with this year's defaults, no calls |
| AdminPapers.PaperAdmin.VerifyAuthentication | frontend/src/pages/AdminPapers.jsx:29-44 | no token: login and no call; the list is fetched only after a successful verify; a refusal drops the token |
| AdminPapers.PaperAdmin.HandleEdit | frontend/src/pages/AdminPapers.jsx:74-89 | the form filled from the publication, open, editing it |
| AdminPapers.PaperAdmin.HandleLogout | frontend/src/pages/AdminPapers.jsx:125-128 | the token is removed and the login page shown |
| AdminPapers.PaperAdmin.ResetForm | frontend/src/pages/AdminPapers.jsx:109-123 | the defaults, closed, editing nothing |
| AdminPapers.PaperAdmin.ToggleForm | frontend/src/pages/AdminPapers.jsx:172-176 | opening keeps the form; closing resets it |
| AdminPapers.PaperAdmin.SetYear | frontend/src/pages/AdminPapers.jsx:244 | the year becomes the parsed number, or the current year for NaN or 0 |
| AdminPapers.PaperAdmin.SetOrder | frontend/src/pages/AdminPapers.jsx:326 | the order becomes the parsed number, or 0 |
| AdminPapers.PaperAdmin.HandleSubmit | frontend/src/pages/AdminPapers.jsx:55-72 | refused by the browser without title or authors, with a year outside 1900 to 2100 or a bad PDF link, calling nothing and keeping form and list; otherwise update or create, and on success reset and refetch |
| AdminPapers.PaperAdmin.HandleDelete | frontend/src/pages/AdminPapers.jsx:91-107 | the prompt names the title or "this publication"; refused means no call; success refetches |
| AdminPapers.EditCancelThenNew | frontend/src/pages/AdminPapers.jsx:341-347 | after edit and Cancel, New Publication opens the empty form |
| AdminResearch.FormFor | frontend/src/pages/AdminResearch.jsx:73-84 | missing links, technologies and dates become ""; status and order are copied |
| AdminResearch.FormForRoundTrip | frontend/src/pages/AdminResearch.jsx:73-84 | a fully filled project survives the edit form unchanged |
| AdminResearch.StatusOptionsDistinctBadges | frontend/src/pages/AdminResearch.jsx:284-286 | every status offered gets its own badge |
| AdminResearch.ProjectAdmin.FetchProjects | frontend/src/pages/AdminResearch.jsx:45-52 | every project in listing order on success, the old list on failure |
| AdminResearch.ProjectAdmin.constructor | frontend/src/pages/AdminResearch.jsx:9-22 | no projects, the form closed with its defaults, no calls |
| AdminResearch.ProjectAdmin.VerifyAuthentication | frontend/src/pages/AdminResearch.jsx:28-43 | no token: login and no call; the list is fetched only after a successful verify; a refusal drops the token |
| AdminResearch.ProjectAdmin.HandleEdit | frontend/src/pages/AdminResearch.jsx:73-88 | the form filled from the project, open, editing it |
| AdminResearch.ProjectAdmin.HandleLogout | frontend/src/pages/AdminResearch.jsx:124-127 | the token is removed and the login page shown |
| AdminResearch.ProjectAdmin.ResetForm | frontend/src/pages/AdminResearch.jsx:108-122 | the defaults (status "Completed", order 0), closed, editing nothing |
| AdminResearch.ProjectAdmin.ToggleForm | frontend/src/pages/AdminResearch.jsx:171-176 | opening keeps the form; closing resets it |
| AdminResearch.ProjectAdmin.SetStatus | frontend/src/pages/AdminResearch.jsx:280-286 | the status becomes one of the three options |
| AdminResearch.ProjectAdmin.SetOrder | frontend/src/pages/AdminResearch.jsx:323 | the order is `parseInt` of the input with no fallback, so a cleared field is null |
| AdminResearch.ProjectAdmin.HandleSubmit | frontend/src/pages/AdminResearch.jsx:54-71 | refused without title or description or with a bad link, calling nothing and keeping form and list; otherwise update or create, and on success reset and refetch |
| AdminResearch.ProjectAdmin.HandleDelete | frontend/src/pages/AdminResearch.jsx:90-106 | the short prompt names the title or "this project"; refused means no call; success refetches |
| AdminDashboard.CountsFor | frontend/src/pages/AdminDashboard.jsx:46-58 | the blog count is the number of published posts capped at 100; the other counts are the table sizes |
| AdminDashboard.DisplayName | frontend/src/pages/AdminDashboard.jsx:120 | the username when truthy, "Admin" otherwise |
| AdminDashboard.ColorClasses | frontend/src/pages/AdminDashboard.jsx:98-105 | each section colour's classes start with its background class |
| AdminDashboard.ColorClassesInjective | frontend/src/pages/AdminDashboard.jsx:98-105 | different colours get different classes |
| AdminDashboard.SectionsDistinct | frontend/src/pages/AdminDashboard.jsx:71-96 | the three cards show the three counts, lead to three views and have three colours |
| AdminDashboard.Dashboard.VerifyAuthentication | frontend/src/pages/AdminDashboard.jsx:29-44 | no token: login and no call; success sets the username; failure drops the token |
| AdminDashboard.Dashboard.constructor | frontend/src/pages/AdminDashboard.jsx:17-22 | zero counts and an empty username |
| AdminDashboard.Dashboard.FetchStats | frontend/src/pages/AdminDashboard.jsx:46-62 | the counts when all three listings answer, the old counts otherwise |
| AdminDashboard.Dashboard.Mount | frontend/src/pages/AdminDashboard.jsx:24-62 | the counts load independently of the authentication check; without a token, the login page; with an accepted one, the name shown and token and history kept; with a refused one, the token dropped and the login page |
| AdminDashboard.Dashboard.HandleLogout | frontend/src/pages/AdminDashboard.jsx:64-69 | the token is removed only when the user confirms |

## Left out

- The frontend's API client exports no `authAPI` and no `update` or `delete` on any resource, yet the admin views use them. Admin.jsx:4, AdminPapers.jsx:4, AdminResearch.jsx:4 and AdminDashboard.jsx:13 import `authAPI` by name; a named import of a missing export is a module link error, so as written those four views do not load at all. Within a view, `update` and `delete` are undefined properties: calling one throws a `TypeError`, which the handler's `catch` treats as a failed save or delete. The model gives each call's outcome as a parameter, so both paths are covered for the client the views were written against.
- The API client has no request interceptor, no 401 handling and no timeout. Nothing about them is modelled.
- JWT payload decoding (`atob` plus `JSON.parse`) is the parameter `decode`, which also stands for JavaScript's coercion of `exp` by `*`: `null` is 0 (so expired), `true` is 1, a numeric string is its number, and only values that coerce to NaN (an absent `exp`, a non-numeric string, an object) are `Claims(None)`. A payload that is JSON `null` throws on `.exp` and is `Malformed`.
- Security.IsTokenExpired: `exp` is an integer; a NumericDate with a fractional part is not modelled.
- Strings are sequences of Unicode characters, where JavaScript counts UTF-16 code units. Outside the Basic Multilingual Plane the two differ, so `substring(0, 150)` in Display.CardText and the `selectionStart`/`selectionEnd` offsets in AdminBlog.InsertMarkdownText are exact only for text without such characters.
- Text.ParseInt: integers are unbounded; JavaScript's `parseInt` returns a double and loses precision beyond 2^53.
- Security.RateLimiter.RateLimit: the thrown `Error` with the message "Please wait N seconds before trying again" is the outcome `TooSoon(N)`.
- `isValidUrl` depends on the browser's URL parser and is not modelled. The browser's verdict on `type="url"` inputs is a parameter of the submit handlers, and it always accepts an empty field.
- Concurrency is not modelled. Each handler is one atomic step, and the two mount effects of the blog admin view and of the dashboard run in a fixed order. `Promise.all` is a single outcome: all three answer or the counts are kept.
- Alerts, `console.error`, `window.scrollTo`, `window.open` and the textarea focus after `insertMarkdown` (a `setTimeout`) are not modelled, except as the `caret` field.
- Only the year, order and status inputs are modelled among the form's `onChange` handlers. Every other input stores its text as typed.
- `new Date().getFullYear()` is read once, when a publications admin view is created.
- Rendering is not modelled: react-markdown, syntax highlighting, `toLocaleDateString` and the markup of the static pages.
- `main.py`, `email_utils.py`, `routers/auth.py` and `add_sample_data.py` are not part of this model. Of `models.py` only the column defaults are modelled, because the ORM stores them in place of a None attribute; column types and lengths are not.
- How SQL sorts NULL keys is database-defined and given by `nullsLargest`. The order among equal keys is not defined by the database either; the model uses a stable sort.
- Pydantic's lax coercion (a numeric string accepted as an integer, for instance) is not modelled. A field of the wrong JSON type is rejected.
- Negative `skip` or `limit` values cannot be given to the routers in the model, which takes them as `nat`.
- `parseInt`'s hexadecimal prefix and its radix argument are not modelled. Numerals are decimal.
- AdminDashboard.ColorClasses: takes one of the three colours the sections use; the fallback to blue's classes for any other colour name is not modelled, since no section uses one.
- Config.Validate: its failure carries the problems found; the text of the `ValueError` is built from them by `Config.Import`.
- The frontend's session timeout runs on the admin blog, publications and research views. The dashboard imports no `SessionTimeout`.

## Findings

| source | as written | input that shows it | evidently intended | confidence | as-written member | corrected member |
|---|---|---|---|---|---|---|
| frontend/src/pages/Blog.jsx:14-25 | the list pages (also Papers.jsx:14-25 and Research.jsx:14-25) set `error` on failure and never clear it, so Retry cannot leave the error view | a first fetch that fails, then Retry with the backend reachable | a successful fetch clears the error and shows the items | high, not executed | Pages.RetryAfterFailure | Pages.RetryAfterFailureClearing |
| frontend/src/pages/BlogDetail.jsx:16-31 | the detail pages (also ResearchDetail.jsx:20-31) keep `error` when the route id changes | open an id whose fetch fails, then navigate to an existing id | the new record is shown | medium, not executed | Pages.NewIdAfterFailure | Pages.NewIdAfterFailureClearing |
| frontend/src/pages/Admin.jsx:435-438 | the Cancel under the blog form clears the edited id but keeps the typed fields, unlike the header toggle and both Cancel paths of the other admin views | edit a post, press that Cancel, press New Post, press Save | New Post opens an empty form; as written it saves a duplicate of the post | medium, not executed | AdminBlog.EditCancelThenNew | AdminBlog.EditCancelThenNewResetting |
