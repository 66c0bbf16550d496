/**
 * `create_foundation_pages.py`: renders the standard foundation page from an
 * f-string template (`create_foundation_page`) and writes, under
 * `foundations/`, every page of the `pages` table whose file does not exist
 * yet (`main`).
 */
module FoundationPages {
  import opened Text
  import Bulk

  /** What every `<title>` of the site ends with; the template appends it after `{title}`. */
  const SiteSuffix := " - GCC Design System"
  const TitleOpen := "<title>"
  const TitleClose := "</title>"
  const HeadingOpen := "<h1>"
  const HeadingClose := "</h1>"

  function PageTitle(t: string): string {
    TitleOpen + t + TitleClose
  }

  function Heading(t: string): string {
    HeadingOpen + t + HeadingClose
  }

  /** The document head up to the `<title>` element. */
  const HeadStart := "<!DOCTYPE html>\n<html lang=\"en\">\n<head>\n    <meta charset=\"UTF-8\">\n    <meta name=\"viewport\" content=\"width=device-width, initial-scale=1.0\">\n    "

  /** From the end of the `<title>` element to the navigation: the stylesheet link and the sidebar header. */
  const SidebarStart := "\n    <link rel=\"stylesheet\" href=\"../styles.css\">\n</head>\n<body>\n    <div class=\"layout\">\n        <aside class=\"sidebar\" id=\"sidebar\">\n            <div class=\"sidebar-header\">\n                <h1 class=\"sidebar-title\">GCC Design System</h1>\n                <button class=\"sidebar-toggle\" id=\"sidebarToggle\" aria-label=\"Toggle navigation\">\n                    <span></span>\n                    <span></span>\n                    <span></span>\n                </button>\n            </div>\n"

  /** From the navigation to the page heading. */
  const SidebarEnd := "\n        </aside>\n\n        <main class=\"main-content\">\n            <div class=\"content-wrapper\">\n                "

  const LeadOpen := "\n                <p class=\"lead\">"
  const LeadClose := "</p>\n"

  /** After the page copy: the closing tags and the script. */
  const PageEnd := "\n            </div>\n        </main>\n    </div>\n\n    <script src=\"../script.js\"></script>\n</body>\n</html>"

  /** The fixed text of the page template, between and around the values it inserts. */
  datatype Chrome = Chrome(head: string, sidebarStart: string, sidebarEnd: string,
                           leadOpen: string, leadClose: string, end: string)

  /** The template of `create_foundation_page`. */
  const Layout := Chrome(HeadStart, SidebarStart, SidebarEnd, LeadOpen, LeadClose, PageEnd)

  /** The f-string with the fixed text `c`: each value is inserted verbatim, in template order. */
  function Page(c: Chrome, title: string, nav: string, uiTitle: string, description: string, copy: string): string {
    c.head + PageTitle(title + SiteSuffix) + (c.sidebarStart + nav + c.sidebarEnd) +
    (Heading(uiTitle) + c.leadOpen + description + c.leadClose + copy) + c.end
  }

  /**
   * `create_foundation_page`.  `nav` is what `get_nav_html` returns; `filename`
   * only feeds two locals the template never uses.
   */
  function CreateFoundationPage(filename: string, title: string, uiTitle: string, description: string,
                                contentSections: string, nav: string): string {
    Page(Layout, title, nav, uiTitle, description, contentSections)
  }

  /** `p` occurs in `a + p + b` right after `a`. */
  lemma OccursBetween(a: string, p: string, b: string)
    ensures OccursAt(a + p + b, p, |a|)
  {
    assert (a + p + b)[|a|..|a| + |p|] == p;
  }

  lemma EndsWithSuffix(a: string, b: string)
    ensures EndsWith(a + b, b)
  {
    assert (a + b)[|a|..] == b;
  }

  /** A text that starts with `h + e` has `e` right after `h`. */
  lemma PrefixedAt(h: string, e: string, s: string)
    requires h + e <= s
    ensures OccursAt(s, e, |h|)
  {
    assert s[|h|..|h| + |e|] == (h + e)[|h|..];
  }

  lemma PrefixOfAppend(a: string, b: string)
    ensures a <= a + b
  {
    assert (a + b)[..|a|] == a;
  }

  /** A text made of a head, an element, a middle, a body and an end, located by their lengths. */
  lemma Regroup(head: string, element: string, middle: string, body: string, end: string)
    ensures var page := head + element + middle + body + end;
      head <= page &&
      OccursAt(page, element, |head|) &&
      OccursAt(page, middle, |head| + |element|) &&
      OccursAt(page, body, |head| + |element| + |middle|) &&
      EndsWith(page, end)
  {
    var p1 := head + element;
    var p2 := p1 + middle;
    var p3 := p2 + body;
    PrefixOfAppend(head, element);
    PrefixOfAppend(p1, middle);
    PrefixOfAppend(p2, body);
    PrefixOfAppend(p3, end);
    PrefixedAt(head, element, p3 + end);
    PrefixedAt(p1, middle, p3 + end);
    PrefixedAt(p2, body, p3 + end);
    EndsWithSuffix(p3, end);
  }

  /**
   * The rendered page: the head, then a `<title>` element holding the title
   * followed by the site suffix; right after it the navigation between the
   * sidebar tags; then the heading, the lead paragraph and the page copy;
   * the closing text at the end.
   */
  lemma PageLayout(c: Chrome, title: string, nav: string, uiTitle: string, description: string, copy: string)
    ensures var page := Page(c, title, nav, uiTitle, description, copy);
      var k := |c.head| + |PageTitle(title + SiteSuffix)| + |c.sidebarStart| + |nav| + |c.sidebarEnd|;
      c.head <= page &&
      OccursAt(page, PageTitle(title + SiteSuffix), |c.head|) &&
      OccursAt(page, c.sidebarStart + nav + c.sidebarEnd, |c.head| + |PageTitle(title + SiteSuffix)|) &&
      OccursAt(page, Heading(uiTitle) + c.leadOpen + description + c.leadClose + copy, k) &&
      EndsWith(page, c.end)
  {
    Regroup(c.head, PageTitle(title + SiteSuffix), c.sidebarStart + nav + c.sidebarEnd,
            Heading(uiTitle) + c.leadOpen + description + c.leadClose + copy, c.end);
  }

  /** One entry of the `pages` table. */
  datatype PageInfo = PageInfo(title: string, uiTitle: string, description: string, content: string)

  /** The page `main` writes for one entry of the table. */
  function Render(entry: (string, PageInfo), c: Chrome, nav: string): string {
    Page(c, entry.1.title, nav, entry.1.uiTitle, entry.1.description, entry.1.content)
  }

  /** `title` with the site suffix removed when it ends with it. */
  function StripSuffix(title: string): (name: string)
    ensures EndsWith(title, SiteSuffix) ==> name + SiteSuffix == title
    ensures !EndsWith(title, SiteSuffix) ==> name == title
  {
    if EndsWith(title, SiteSuffix) then title[..|title| - |SiteSuffix|] else title
  }

  /** Every title of the table already ends with the site suffix. */
  lemma TitlesSuffixed()
    ensures forall i | 0 <= i < |Pages| :: EndsWith(Pages[i].1.title, SiteSuffix)
  {
    var names := ["Effects", "2 Spacing System", "2 Grid System", "Icons", "Illustrations", "Logo", "System Resources"];
    forall i | 0 <= i < |Pages| ensures EndsWith(Pages[i].1.title, SiteSuffix) {
      assert Pages[i].1.title == names[i] + SiteSuffix;
      EndsWithSuffix(names[i], SiteSuffix);
    }
  }

  /**
   * As written, the template appends the suffix to titles that already end
   * with it: every page of the table gets the suffix twice in its `<title>`.
   */
  lemma TitleSuffixTwice(i: nat, c: Chrome, nav: string)
    requires i < |Pages|
    ensures var name := StripSuffix(Pages[i].1.title);
      name + SiteSuffix == Pages[i].1.title &&
      OccursAt(Render(Pages[i], c, nav), PageTitle(name + SiteSuffix + SiteSuffix), |c.head|)
  {
    TitlesSuffixed();
    var e := Pages[i].1;
    PageLayout(c, e.title, nav, e.uiTitle, e.description, e.content);
  }

  /** The page with the suffix added only to titles that lack it. */
  function CorrectedPage(c: Chrome, title: string, nav: string, uiTitle: string, description: string, copy: string): (page: string)
    ensures EndsWith(title, SiteSuffix) ==> OccursAt(page, PageTitle(title), |c.head|)
    ensures !EndsWith(title, SiteSuffix) ==> OccursAt(page, PageTitle(title + SiteSuffix), |c.head|)
  {
    var name := StripSuffix(title);
    PageLayout(c, name, nav, uiTitle, description, copy);
    Page(c, name, nav, uiTitle, description, copy)
  }

  /** With the correction, every page of the table carries its own title exactly. */
  lemma CorrectedTitles(i: nat, c: Chrome, nav: string)
    requires i < |Pages|
    ensures var e := Pages[i].1;
      OccursAt(CorrectedPage(c, e.title, nav, e.uiTitle, e.description, e.content), PageTitle(e.title), |c.head|)
  {
    TitlesSuffixed();
  }

  const FoundationsDir := "foundations/"

  /** `foundations_dir / filename`. */
  function PagePath(filename: string): string {
    FoundationsDir + filename
  }

  lemma PagePathInjective(a: string, b: string)
    requires a != b
    ensures PagePath(a) != PagePath(b)
  {
    assert PagePath(a)[|FoundationsDir|..] == a;
    assert PagePath(b)[|FoundationsDir|..] == b;
  }

  /** The keys of a dictionary are distinct. */
  predicate DistinctNames(pages: seq<(string, PageInfo)>) {
    forall i, j | 0 <= i < j < |pages| :: pages[i].0 != pages[j].0
  }

  lemma PagesDistinct()
    ensures DistinctNames(Pages)
  {
  }

  /** One turn of `main`'s loop: the page is written and counted only when its file is missing. */
  function CreateStep(o: Bulk.Outcome, entry: (string, PageInfo), c: Chrome, nav: string): Bulk.Outcome {
    var path := PagePath(entry.0);
    if path in o.tree then o
    else Bulk.Outcome(o.tree[path := Render(entry, c, nav)], o.updated + 1, o.writes + [path])
  }

  /** `main`'s loop over the entries in order: the tree, `created_count`, and the paths reported as created. */
  function CreateAll(fs: Bulk.Tree, pages: seq<(string, PageInfo)>, c: Chrome, nav: string): Bulk.Outcome
    decreases |pages|
  {
    if pages == [] then Bulk.Outcome(fs, 0, [])
    else CreateStep(CreateAll(fs, pages[..|pages| - 1], c, nav), pages[|pages| - 1], c, nav)
  }

  /** The paths of the entries whose file is not in `fs`, in table order. */
  function Missing(fs: Bulk.Tree, pages: seq<(string, PageInfo)>): seq<string>
    decreases |pages|
  {
    if pages == [] then []
    else
      var path := PagePath(pages[|pages| - 1].0);
      Missing(fs, pages[..|pages| - 1]) + if path in fs then [] else [path]
  }

  /** Every path of the table. */
  function Paths(pages: seq<(string, PageInfo)>): set<string> {
    set i | 0 <= i < |pages| :: PagePath(pages[i].0)
  }

  /** What `main` promises when the file names are distinct. */
  predicate CreatesMissing(fs: Bulk.Tree, pages: seq<(string, PageInfo)>, c: Chrome, nav: string, o: Bulk.Outcome) {
    o.tree.Keys == fs.Keys + Paths(pages) &&
    KeepsExisting(fs, o) &&
    WritesPages(fs, pages, c, nav, o) &&
    o.writes == Missing(fs, pages) && o.updated == |o.writes|
  }

  /** Every file that existed is left as it was. */
  predicate KeepsExisting(fs: Bulk.Tree, o: Bulk.Outcome) {
    forall p | p in fs :: p in o.tree && o.tree[p] == fs[p]
  }

  /** Every page whose file was missing now holds the rendered page. */
  predicate WritesPages(fs: Bulk.Tree, pages: seq<(string, PageInfo)>, c: Chrome, nav: string, o: Bulk.Outcome) {
    forall i | 0 <= i < |pages| && PagePath(pages[i].0) !in fs ::
      PagePath(pages[i].0) in o.tree && o.tree[PagePath(pages[i].0)] == Render(pages[i], c, nav)
  }

  /** The loop of `main` over a table of pages rendered with the fixed text `c`. */
  method CreateMissing(fs: Bulk.Tree, pages: seq<(string, PageInfo)>, c: Chrome, nav: string)
    returns (tree: Bulk.Tree, created: nat, reported: seq<string>)
    ensures Bulk.Outcome(tree, created, reported) == CreateAll(fs, pages, c, nav)
    ensures DistinctNames(pages) ==> CreatesMissing(fs, pages, c, nav, Bulk.Outcome(tree, created, reported))
  {
    tree, created, reported := fs, 0, [];
    var i := 0;
    while i < |pages|
      invariant 0 <= i <= |pages|
      invariant Bulk.Outcome(tree, created, reported) == CreateAll(fs, pages[..i], c, nav)
    {
      assert pages[..i + 1][..i] == pages[..i];
      var (filename, info) := pages[i];
      var path := PagePath(filename);
      if path !in tree {
        var page := Page(c, info.title, nav, info.uiTitle, info.description, info.content);
        tree := tree[path := page];
        created := created + 1;
        reported := reported + [path];
      }
      i := i + 1;
    }
    assert pages[..|pages|] == pages;
    if DistinctNames(pages) {
      CreateAllEffect(fs, pages, c, nav);
    }
  }

  /** `main`: the seven pages of the table, with the template of `create_foundation_page`. */
  method CreateFoundationPages(fs: Bulk.Tree, nav: string)
    returns (tree: Bulk.Tree, created: nat, reported: seq<string>)
    ensures Bulk.Outcome(tree, created, reported) == CreateAll(fs, Pages, Layout, nav)
    ensures CreatesMissing(fs, Pages, Layout, nav, Bulk.Outcome(tree, created, reported))
  {
    PagesDistinct();
    tree, created, reported := CreateMissing(fs, Pages, Layout, nav);
  }

  /**
   * With distinct file names, `main` keeps every existing file, adds exactly
   * the missing pages, and counts and reports each of them once.
   */
  lemma {:induction false} CreateAllEffect(fs: Bulk.Tree, pages: seq<(string, PageInfo)>, c: Chrome, nav: string)
    requires DistinctNames(pages)
    ensures CreatesMissing(fs, pages, c, nav, CreateAll(fs, pages, c, nav))
    decreases |pages|
  {
    if pages != [] {
      var n := |pages| - 1;
      var init := pages[..n];
      assert DistinctNames(init);
      CreateAllEffect(fs, init, c, nav);
      LastPathFresh(pages);
      CreateLast(fs, pages, c, nav);
    }
  }

  /** The table's paths are those of all but its last entry, and the last entry's path. */
  lemma PathsSnoc(pages: seq<(string, PageInfo)>)
    requires pages != []
    ensures Paths(pages) == Paths(pages[..|pages| - 1]) + {PagePath(pages[|pages| - 1].0)}
  {
    var n := |pages| - 1;
    forall i | 0 <= i < n ensures pages[i] == pages[..n][i] { }
  }

  /** With distinct file names, the last entry's file is not one of those before it. */
  lemma LastPathFresh(pages: seq<(string, PageInfo)>)
    requires pages != [] && DistinctNames(pages)
    ensures PagePath(pages[|pages| - 1].0) !in Paths(pages[..|pages| - 1])
  {
    var n := |pages| - 1;
    forall i | 0 <= i < n ensures PagePath(pages[..n][i].0) != PagePath(pages[n].0) {
      assert pages[..n][i] == pages[i];
      PagePathInjective(pages[i].0, pages[n].0);
    }
  }

  /** The step for the last entry keeps what `main` promised for the entries before it. */
  lemma CreateLast(fs: Bulk.Tree, pages: seq<(string, PageInfo)>, c: Chrome, nav: string)
    requires pages != []
    requires CreatesMissing(fs, pages[..|pages| - 1], c, nav, CreateAll(fs, pages[..|pages| - 1], c, nav))
    requires PagePath(pages[|pages| - 1].0) !in Paths(pages[..|pages| - 1])
    ensures CreatesMissing(fs, pages, c, nav, CreateAll(fs, pages, c, nav))
  {
    var n := |pages| - 1;
    var o := CreateAll(fs, pages[..n], c, nav);
    PathsSnoc(pages);
    LastKeys(fs, pages, c, nav, o);
    LastWritten(fs, pages, c, nav, o);
  }

  /** The last step adds the last entry's file, keeps the others, and reports it when it was missing. */
  lemma LastKeys(fs: Bulk.Tree, pages: seq<(string, PageInfo)>, c: Chrome, nav: string, o: Bulk.Outcome)
    requires pages != [] && o == CreateAll(fs, pages[..|pages| - 1], c, nav)
    requires o.tree.Keys == fs.Keys + Paths(pages[..|pages| - 1]) && KeepsExisting(fs, o)
    requires o.writes == Missing(fs, pages[..|pages| - 1]) && o.updated == |o.writes|
    requires PagePath(pages[|pages| - 1].0) !in Paths(pages[..|pages| - 1])
    requires Paths(pages) == Paths(pages[..|pages| - 1]) + {PagePath(pages[|pages| - 1].0)}
    ensures var o' := CreateAll(fs, pages, c, nav);
      o'.tree.Keys == fs.Keys + Paths(pages) && KeepsExisting(fs, o') &&
      o'.writes == Missing(fs, pages) && o'.updated == |o'.writes|
  {
  }

  /** The last entry's page is written exactly when its file is missing, and the earlier pages stay. */
  lemma LastWritten(fs: Bulk.Tree, pages: seq<(string, PageInfo)>, c: Chrome, nav: string, o: Bulk.Outcome)
    requires pages != [] && o == CreateAll(fs, pages[..|pages| - 1], c, nav)
    requires o.tree.Keys == fs.Keys + Paths(pages[..|pages| - 1])
    requires WritesPages(fs, pages[..|pages| - 1], c, nav, o)
    requires PagePath(pages[|pages| - 1].0) !in Paths(pages[..|pages| - 1])
    ensures WritesPages(fs, pages, c, nav, CreateAll(fs, pages, c, nav))
  {
    var n := |pages| - 1;
    var init := pages[..n];
    forall i | 0 <= i <= n && PagePath(pages[i].0) !in fs
      ensures PagePath(pages[i].0) in CreateAll(fs, pages, c, nav).tree
      ensures CreateAll(fs, pages, c, nav).tree[PagePath(pages[i].0)] == Render(pages[i], c, nav)
    {
      if i < n {
        assert pages[i] == init[i];
        assert PagePath(pages[i].0) in Paths(init);
      }
    }
  }

  /** Once every page of the table exists, `main` writes nothing and reports nothing. */
  lemma {:induction false} NothingMissing(fs: Bulk.Tree, pages: seq<(string, PageInfo)>, c: Chrome, nav: string)
    requires Paths(pages) <= fs.Keys
    ensures CreateAll(fs, pages, c, nav) == Bulk.Outcome(fs, 0, [])
    ensures Missing(fs, pages) == []
    decreases |pages|
  {
    if pages != [] {
      var n := |pages| - 1;
      assert Paths(pages[..n]) <= Paths(pages) by {
        forall i | 0 <= i < n ensures pages[..n][i] == pages[i] { }
      }
      assert PagePath(pages[n].0) in Paths(pages);
      NothingMissing(fs, pages[..n], c, nav);
    }
  }

  /** Every run leaves every page of the table in the tree, and keeps the files it found. */
  lemma {:induction false} CreateAllCovers(fs: Bulk.Tree, pages: seq<(string, PageInfo)>, c: Chrome, nav: string)
    ensures fs.Keys + Paths(pages) <= CreateAll(fs, pages, c, nav).tree.Keys
    decreases |pages|
  {
    if pages != [] {
      var n := |pages| - 1;
      CreateAllCovers(fs, pages[..n], c, nav);
      forall p | p in Paths(pages) ensures p in CreateAll(fs, pages, c, nav).tree {
        var i :| 0 <= i < |pages| && p == PagePath(pages[i].0);
        if i < n {
          assert pages[..n][i] == pages[i];
          assert p in Paths(pages[..n]);
        }
      }
    }
  }

  /** Running `main` a second time creates nothing and leaves the tree as the first run left it. */
  lemma Rerun(fs: Bulk.Tree, pages: seq<(string, PageInfo)>, c: Chrome, nav: string)
    ensures var first := CreateAll(fs, pages, c, nav).tree;
      CreateAll(first, pages, c, nav) == Bulk.Outcome(first, 0, [])
  {
    CreateAllCovers(fs, pages, c, nav);
    NothingMissing(CreateAll(fs, pages, c, nav).tree, pages, c, nav);
  }

  lemma {:induction false} AllMissing(fs: Bulk.Tree, pages: seq<(string, PageInfo)>)
    requires forall i | 0 <= i < |pages| :: PagePath(pages[i].0) !in fs
    ensures Missing(fs, pages) == seq(|pages|, i requires 0 <= i < |pages| => PagePath(pages[i].0))
    decreases |pages|
  {
    if pages != [] {
      var n := |pages| - 1;
      assert forall i | 0 <= i < n :: pages[..n][i] == pages[i];
      AllMissing(fs, pages[..n]);
    }
  }

  /** On a site without any of the seven pages, `main` creates all of them, in table order. */
  lemma FreshSite(fs: Bulk.Tree, c: Chrome, nav: string)
    requires forall i | 0 <= i < |Pages| :: PagePath(Pages[i].0) !in fs
    ensures CreateAll(fs, Pages, c, nav).updated == 7
    ensures CreateAll(fs, Pages, c, nav).writes == seq(7, i requires 0 <= i < 7 => PagePath(Pages[i].0))
  {
    PagesDistinct();
    CreateAllEffect(fs, Pages, c, nav);
    AllMissing(fs, Pages);
  }

  /** The `content` of each entry: the page copy, whose text no property here depends on. */
  const EffectsCopy: string
  const SpacingCopy: string
  const GridCopy: string
  const IconsCopy: string
  const IllustrationsCopy: string
  const LogoCopy: string
  const SystemResourcesCopy: string

  /** The `pages` table: file name, then `title`, `ui_title`, `description` and `content`, in insertion order. */
  const Pages: seq<(string, PageInfo)> := [
    ("effects.html", PageInfo("Effects" + SiteSuffix, "Effects",
      "Shadows, blurs, overlays, and other visual effects used throughout the GCC Design System.",
      EffectsCopy)),
    ("spacing.html", PageInfo("2 Spacing System" + SiteSuffix, "2 Spacing System",
      "The spacing scale and system used for consistent spacing throughout the GCC Design System.",
      SpacingCopy)),
    ("grid.html", PageInfo("2 Grid System" + SiteSuffix, "2 Grid System",
      "The layout grid system used for consistent page and component layouts in the GCC Design System.",
      GridCopy)),
    ("icons.html", PageInfo("Icons" + SiteSuffix, "Icons",
      "The icon system, sizes, and usage guidelines for the GCC Design System.",
      IconsCopy)),
    ("illustrations.html", PageInfo("Illustrations" + SiteSuffix, "Illustrations",
      "Illustration system and usage guidelines for the GCC Design System.",
      IllustrationsCopy)),
    ("logo.html", PageInfo("Logo" + SiteSuffix, "Logo",
      "Logo usage guidelines and specifications for the GCC Design System.",
      LogoCopy)),
    ("system-resources.html", PageInfo("System Resources" + SiteSuffix, "System Resources",
      "System resources, assets, and design files available for the GCC Design System.",
      SystemResourcesCopy))
  ]
}
