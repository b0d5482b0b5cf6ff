/** The display rules of the public pages (frontend/src/pages/Blog.jsx, BlogDetail.jsx,
    Papers.jsx, Research.jsx, ResearchDetail.jsx) and of the lists on the admin pages:
    what text, links, chips and badges a stored record turns into. */
module Display {
  import opened Wrappers
  import opened Text

  // ---------------------------------------------------------------------------
  // Excerpts

  /** Characters of content shown on a public blog card and on an admin list row. */
  const PublicExcerptLength: nat := 150
  const AdminExcerptLength: nat := 100

  function Min(a: nat, b: nat): nat {
    if a <= b then a else b
  }

  /** `excerpt || content.substring(0, n) + '...'`: the excerpt when it is non-empty,
      otherwise the first `n` characters of the content (all of it when shorter) and
      an ellipsis. */
  function CardText(excerpt: Option<string>, content: string, n: nat): (text: string)
    ensures Truthy(excerpt) ==> text == excerpt.value
    ensures !Truthy(excerpt) ==>
              |text| == Min(n, |content|) + 3 && text[..|text| - 3] <= content && text[|text| - 3..] == "..."
  {
    if Truthy(excerpt) then excerpt.value else content[..Min(n, |content|)] + "..."
  }

  // ---------------------------------------------------------------------------
  // Comma-separated tags and technologies

  function TrimAll(parts: seq<string>): (r: seq<string>)
    ensures |r| == |parts|
    ensures forall k :: 0 <= k < |r| ==> r[k] == Trim(parts[k])
  {
    if parts == [] then [] else [Trim(parts[0])] + TrimAll(parts[1..])
  }

  /** `tags && tags.split(',').map(t => t.trim())`: no chip for a missing or empty
      string, otherwise one chip per comma-separated piece, trimmed. */
  function Chips(tags: Option<string>): (chips: seq<string>)
    ensures !Truthy(tags) ==> chips == []
    ensures Truthy(tags) ==> |chips| == Count(tags.value, ',') + 1
    ensures Truthy(tags) ==>
              |chips| == |Split(tags.value, ',')| &&
              forall k :: 0 <= k < |chips| ==> chips[k] == Trim(Split(tags.value, ',')[k])
    ensures forall k :: 0 <= k < |chips| ==> Chip(chips[k])
  {
    if Truthy(tags) then
      var parts := Split(tags.value, ',');
      SplitCount(tags.value, ',');
      TrimmedPiecesAreChips(parts);
      TrimAll(parts)
    else []
  }

  /** A chip holds no comma and neither starts nor ends with white space. */
  predicate Chip(c: string) {
    ',' !in c && (c == [] || (!IsSpace(c[0]) && !IsSpace(c[|c| - 1])))
  }

  /** Comma-free pieces trim to chips. */
  lemma TrimmedPiecesAreChips(parts: seq<string>)
    requires forall k :: 0 <= k < |parts| ==> ',' !in parts[k]
    ensures forall k :: 0 <= k < |parts| ==> Chip(TrimAll(parts)[k])
  {
    var r := TrimAll(parts);
    forall k | 0 <= k < |parts| ensures Chip(r[k]) {
      TrimmedIsChip(parts[k]);
    }
  }

  /** A comma-free piece trims to a chip. */
  lemma TrimmedIsChip(p: string)
    requires ',' !in p
    ensures Chip(Trim(p))
  {
    TrimKeepsOut(p, ',');
  }

  /** Trimming adds no character: a piece without `c` trims to one without `c`. */
  lemma TrimKeepsOut(p: string, c: char)
    requires c !in p
    ensures c !in Trim(p)
  {
    var t := Trim(p);
    var i, j :| 0 <= i <= j <= |p| && t == p[i..j];
    forall x | 0 <= x < |t| ensures t[x] != c {
      assert p[i + x] == t[x];
    }
  }

  /** The pieces of a string without white space have none either. */
  lemma PiecesNoSpace(tags: string)
    requires NoSpace(tags)
    ensures forall k :: 0 <= k < |Split(tags, ',')| ==> NoSpace(Split(tags, ',')[k])
  {
    var parts := Split(tags, ',');
    SplitPiecesFrom(tags, ',');
    forall k | 0 <= k < |parts| ensures NoSpace(parts[k]) {
      forall i | 0 <= i < |parts[k]| ensures !IsSpace(parts[k][i]) {
        var c := parts[k][i];
        assert c in tags;
      }
    }
  }

  lemma TrimAllNoSpace(parts: seq<string>)
    requires forall k :: 0 <= k < |parts| ==> NoSpace(parts[k])
    ensures TrimAll(parts) == parts
  {
    forall k | 0 <= k < |parts| ensures TrimAll(parts)[k] == parts[k] {
      TrimNoSpace(parts[k]);
    }
  }

  /** Without white space in the tag string, the chips joined by commas give the
      string back: splitting loses nothing and trimming removes nothing. */
  lemma ChipsJoin(tags: string)
    requires tags != "" && NoSpace(tags)
    ensures Join(Chips(Some(tags)), ',') == tags
  {
    PiecesNoSpace(tags);
    TrimAllNoSpace(Split(tags, ','));
    JoinSplit(tags, ',');
  }

  // ---------------------------------------------------------------------------
  // Status badges

  datatype Badge = Green | Blue | Yellow

  /** The badge of a research project's status: green for "Completed", blue for
      "Ongoing", yellow for any other value, a missing status included. */
  function StatusBadge(status: Option<string>): (b: Badge)
    ensures b == Green <==> status == Some("Completed")
    ensures b == Blue <==> status == Some("Ongoing")
    ensures b == Yellow <==> status != Some("Completed") && status != Some("Ongoing")
  {
    if status == Some("Completed") then Green
    else if status == Some("Ongoing") then Blue
    else Yellow
  }

  function BadgeName(b: Badge): string {
    match b
    case Green => "green"
    case Blue => "blue"
    case Yellow => "yellow"
  }

  /** The classes of a badge: `bg-<colour>-100 text-<colour>-800`. */
  function BadgeClasses(b: Badge): (classes: string)
    ensures "bg-" + BadgeName(b) <= classes
  {
    var name := BadgeName(b);
    "bg-" + name + "-100 text-" + name + "-800"
  }

  /** Different badges get different class lists. */
  lemma BadgeClassesInjective(a: Badge, b: Badge)
    requires a != b
    ensures BadgeClasses(a) != BadgeClasses(b)
  {
    var na, nb := BadgeName(a), BadgeName(b);
    assert na[0] != nb[0];
    assert BadgeClasses(a)[3] == ("bg-" + na)[3] == na[0];
    assert BadgeClasses(b)[3] == ("bg-" + nb)[3] == nb[0];
  }

  /** The three statuses the admin form offers get three different badges, and so
      three different class lists. */
  lemma StatusOptionsBadges()
    ensures StatusBadge(Some("Completed")) == Green
    ensures StatusBadge(Some("Ongoing")) == Blue
    ensures StatusBadge(Some("Planned")) == Yellow
    ensures forall a: Badge, b: Badge :: a != b ==> BadgeClasses(a) != BadgeClasses(b)
  {
    var p: string := "Planned";
    assert p[0] == 'P';
    forall a: Badge, b: Badge | a != b ensures BadgeClasses(a) != BadgeClasses(b) {
      BadgeClassesInjective(a, b);
    }
  }

  // ---------------------------------------------------------------------------
  // Code blocks of the Markdown renderer

  const LanguagePrefix := "language-"

  /** `language-(\w+)` matches at position `i`. */
  predicate MatchAt(s: string, i: int) {
    0 <= i && i + 10 <= |s| && LanguagePrefix <= s[i..] && IsWordChar(s[i + 9])
  }

  /** The greedy `\w+`: the longest prefix of word characters. */
  function WordRun(s: string): (r: string)
    ensures r <= s
    ensures forall i :: 0 <= i < |r| ==> IsWordChar(r[i])
    ensures |r| == |s| || !IsWordChar(s[|r|])
  {
    if s != [] && IsWordChar(s[0]) then [s[0]] + WordRun(s[1..]) else []
  }

  /** The leftmost match at or after `i`. */
  function FindMatch(s: string, i: nat): (r: Option<nat>)
    ensures r.Some? ==> i <= r.value && MatchAt(s, r.value) && forall j :: i <= j < r.value ==> !MatchAt(s, j)
    ensures r.None? ==> forall j :: i <= j ==> !MatchAt(s, j)
    decreases |s| - i
  {
    if i + 10 > |s| then None
    else if MatchAt(s, i) then Some(i)
    else FindMatch(s, i + 1)
  }

  /** `/language-(\w+)/.exec(className || '')`, group 1: the word after the leftmost
      "language-" that is followed by a word character; None when there is none. */
  function CodeLanguage(className: Option<string>): (lang: Option<string>)
    ensures var s := className.GetOr("");
            lang.None? <==> forall j :: !MatchAt(s, j)
    ensures var s := className.GetOr("");
            lang.Some? ==>
              |lang.value| >= 1 &&
              exists i :: MatchAt(s, i) && (forall j :: 0 <= j < i ==> !MatchAt(s, j)) && lang.value == WordRun(s[i + 9..])
  {
    var s := className.GetOr("");
    match FindMatch(s, 0)
    case None => None
    case Some(i) => Some(WordRun(s[i + 9..]))
  }

  /** A class "language-" followed by a word yields exactly that word. */
  lemma LanguageOfWord(w: string)
    requires |w| >= 1 && forall i :: 0 <= i < |w| ==> IsWordChar(w[i])
    ensures CodeLanguage(Some(LanguagePrefix + w)) == Some(w)
  {
    var s := LanguagePrefix + w;
    assert MatchAt(s, 0);
    assert s[9..] == w;
    assert WordRun(w) == w;
  }

  /** `String(children).replace(/\n$/, '')`: one final newline removed, if there is one. */
  function StripTrailingNewline(s: string): (r: string)
    ensures s != [] && s[|s| - 1] == '\n' ==> s == r + "\n"
    ensures s == [] || s[|s| - 1] != '\n' ==> r == s
  {
    if s != [] && s[|s| - 1] == '\n' then s[..|s| - 1] else s
  }

  /** Only one newline goes: a block ending in two keeps the first of them. */
  lemma StripOnlyOne(s: string)
    ensures StripTrailingNewline(s + "\n\n") == s + "\n"
  {
    assert (s + "\n\n")[..|s| + 1] == s + "\n";
  }

  datatype CodeBlock =
    | Highlighted(language: string, code: string)
    | PlainCode(className: Option<string>, code: string)

  /** The `code` renderer: a block (not inline) whose class names a language is
      highlighted in that language, without its final newline; anything else is
      rendered as it came. */
  function RenderCode(inline: bool, className: Option<string>, children: string): (b: CodeBlock)
    ensures b.Highlighted? <==> !inline && CodeLanguage(className).Some?
    ensures b.Highlighted? ==> b.language == CodeLanguage(className).value &&
                               (children == b.code || children == b.code + "\n")
    ensures b.PlainCode? ==> b.className == className && b.code == children
  {
    var lang := CodeLanguage(className);
    if !inline && lang.Some? then Highlighted(lang.value, StripTrailingNewline(children))
    else PlainCode(className, children)
  }

  // ---------------------------------------------------------------------------
  // Research dates

  /** `start_date && <p>{start_date} {end_date && '- ' + end_date}</p>`: no line
      without a start date; the start, a space, and "- end" only when there is an end. */
  function DateLine(start: Option<string>, end: Option<string>): (line: Option<string>)
    ensures line.Some? <==> Truthy(start)
    ensures line.Some? ==> |line.value| > |start.value| && line.value[..|start.value| + 1] == start.value + " "
    ensures line.Some? && Truthy(end) ==> line.value[|start.value| + 1..] == "- " + end.value
    ensures line.Some? && !Truthy(end) ==> |line.value| == |start.value| + 1
  {
    if !Truthy(start) then None
    else if Truthy(end) then Some(start.value + " " + "- " + end.value)
    else Some(start.value + " ")
  }

  // ---------------------------------------------------------------------------
  // Publication links and labels

  const DoiResolver := "https://doi.org/"

  /** The DOI link: the resolver followed by the DOI, only for a non-empty DOI. */
  function DoiLink(doi: Option<string>): (href: Option<string>)
    ensures href.Some? <==> Truthy(doi)
    ensures href.Some? ==> DoiResolver <= href.value && href.value[|DoiResolver|..] == doi.value
  {
    if Truthy(doi) then Some(DoiResolver + doi.value) else None
  }

  /** The PDF link is the stored URL itself, only when it is non-empty. */
  function PdfLink(pdfUrl: Option<string>): (href: Option<string>)
    ensures href.Some? <==> Truthy(pdfUrl)
    ensures href.Some? ==> href == pdfUrl
  {
    if Truthy(pdfUrl) then pdfUrl else None
  }

  /** `journal && <span>{journal}, </span>`. */
  function JournalPrefix(journal: Option<string>): (p: string)
    ensures Truthy(journal) ==> |p| == |journal.value| + 2 && p[..|journal.value|] == journal.value && p[|journal.value|..] == ", "
    ensures !Truthy(journal) ==> p == ""
  {
    if Truthy(journal) then journal.value + ", " else ""
  }

  /** What `year && <span>{year}</span>` puts on the page: nothing for a missing year,
      a bare "0" (React prints the falsy number itself) for year 0, the year otherwise. */
  datatype YearSlot = NoYear | StrayZero | YearShown(year: int)

  function YearSlotOf(year: Option<int>): (slot: YearSlot)
    ensures slot.YearShown? <==> TruthyInt(year)
    ensures slot.StrayZero? <==> year == Some(0)
    ensures slot.NoYear? <==> year.None?
    ensures slot.YearShown? ==> slot.year == year.value
  {
    match year
    case None => NoYear
    case Some(y) => if y == 0 then StrayZero else YearShown(y)
  }
}
