/**
 * `update_site_structure.py`: give every page the new sidebar navigation,
 * rename three section titles and relabel nine navigation links.
 */
module SiteStructure {
  import opened Text
  import opened Template
  import opened Rewrite
  import Bulk
  import Anchors
  import Markup
  import SyncDocs

  // ---------------------------------------------------------------------
  // Base path

  /** `Path(path).parts` for a relative path: its `/`-separated components, without empty ones and `.`. */
  function Parts(path: string): seq<string> {
    Components(Split(path, "/"))
  }

  function Components(segments: seq<string>): (parts: seq<string>)
    ensures |parts| <= |segments|
  {
    if segments == [] then []
    else (if segments[0] == "" || segments[0] == "." then [] else [segments[0]]) + Components(segments[1..])
  }

  /** Python's `s * n`, which is empty for `n <= 0`. */
  function PyRepeat(s: string, n: int): string {
    if n <= 0 then "" else Repeat(s, n)
  }

  /** `calculate_base_path`, branch for branch. */
  function CalculateBasePath(path: string): string {
    var depth := |Parts(path)| - 1;
    if depth == 1 then ""
    else if depth == 2 then "../"
    else if depth == 3 then "../../"
    else PyRepeat("../", depth - 1)
  }

  /**
   * Whatever the branches say, the result is one `../` per component beyond
   * the second: the first directory level gets no prefix at all.
   */
  lemma BasePathClosedForm(path: string)
    ensures CalculateBasePath(path) == Repeat("../", if |Parts(path)| >= 2 then |Parts(path)| - 2 else 0)
  {
    assert Repeat("../", 1) == "../";
    assert Repeat("../", 2) == "../" + "../";
  }

  /** One `../` per directory the page is in: the prefix that reaches the site root. */
  function BasePath(path: string): (prefix: string)
    ensures |prefix| == 3 * (if |Parts(path)| >= 1 then |Parts(path)| - 1 else 0)
  {
    RepeatLength("../", if |Parts(path)| >= 1 then |Parts(path)| - 1 else 0);
    Repeat("../", if |Parts(path)| >= 1 then |Parts(path)| - 1 else 0)
  }

  /** `calculate_base_path` is one level short for every page below the root. */
  lemma BasePathOneShort(path: string)
    ensures |Parts(path)| >= 2 ==> BasePath(path) == CalculateBasePath(path) + "../"
    ensures |Parts(path)| < 2 ==> BasePath(path) == CalculateBasePath(path) == ""
  {
    BasePathClosedForm(path);
    if |Parts(path)| >= 2 {
      RepeatSnoc("../", |Parts(path)| - 2);
    }
  }

  /** A path as `rglob` yields it: no empty component and no `.`. */
  predicate CleanPath(path: string) {
    forall i | 0 <= i < |Split(path, "/")| :: Split(path, "/")[i] != "" && Split(path, "/")[i] != "."
  }

  lemma {:induction false} CleanComponents(segments: seq<string>)
    requires forall i | 0 <= i < |segments| :: segments[i] != "" && segments[i] != "."
    decreases |segments|
    ensures Components(segments) == segments
  {
    if segments != [] {
      CleanComponents(segments[1..]);
      assert [segments[0]] + segments[1..] == segments;
    }
  }

  /** For the paths `rglob` yields, the corrected base path is the prefix `get_root_prefix` computes. */
  lemma BasePathIsRootPrefix(path: string)
    requires CleanPath(path)
    ensures BasePath(path) == SyncDocs.GetRootPrefix(path)
  {
    CleanComponents(Split(path, "/"));
  }

  /** A single clean component. */
  predicate Name(s: string) {
    s != "" && s != "." && NoChar(s, '/')
  }

  lemma NameSplit(name: string)
    requires Name(name)
    ensures Split(name, "/") == [name]
  {
    NoLeadNoOccurrence(name, "/");
  }

  lemma SlashLone()
    ensures LoneLead("/")
  {
  }

  lemma PathSplit(dir: string, rest: string)
    requires Name(dir)
    ensures Split(dir + "/" + rest, "/") == [dir] + Split(rest, "/")
  {
    NoLeadNoOccurrence(dir, "/");
    SlashLone();
    SplitOnce(dir, "/", rest);
  }

  /** `index.html` and every other page at the root get no prefix, as the comments intend. */
  lemma BasePathTop(name: string)
    requires Name(name)
    ensures CalculateBasePath(name) == "" && BasePath(name) == ""
  {
    NameSplit(name);
  }

  /** A page such as `components/x.html` gets no prefix, although it is one level below the root. */
  lemma BasePathOneDown(dir: string, name: string)
    requires Name(dir) && Name(name)
    ensures CalculateBasePath(dir + "/" + name) == ""
    ensures BasePath(dir + "/" + name) == "../"
  {
    PathSplit(dir, name);
    NameSplit(name);
    CleanComponents([dir, name]);
    assert Repeat("../", 1) == "../";
  }

  /** A page such as `foundations/typography/x.html` gets `../`, although it is two levels below the root. */
  lemma BasePathTwoDown(dir: string, sub: string, name: string)
    requires Name(dir) && Name(sub) && Name(name)
    ensures CalculateBasePath(dir + "/" + sub + "/" + name) == "../"
    ensures BasePath(dir + "/" + sub + "/" + name) == "../../"
  {
    ThreeParts(dir, sub, name);
    assert Repeat("../", 1) == "../";
    assert Repeat("../", 2) == "../" + "../";
  }

  lemma ThreeParts(dir: string, sub: string, name: string)
    requires Name(dir) && Name(sub) && Name(name)
    ensures |Parts(dir + "/" + sub + "/" + name)| == 3
  {
    var rest := sub + "/" + name;
    PathAssoc(dir, sub, name);
    PathSplit(dir, rest);
    PathSplit(sub, name);
    NameSplit(name);
    Cons3(Split(dir + "/" + rest, "/"), Split(rest, "/"), Split(name, "/"), dir, sub, name);
    NamesClean([dir, sub, name]);
    PartsCount(dir + "/" + rest, [dir, sub, name]);
  }

  lemma NamesClean(segments: seq<string>)
    requires |segments| == 3 && Name(segments[0]) && Name(segments[1]) && Name(segments[2])
    ensures forall i | 0 <= i < |segments| :: segments[i] != "" && segments[i] != "."
  {
  }

  lemma PathAssoc(dir: string, sub: string, name: string)
    ensures dir + "/" + sub + "/" + name == dir + "/" + (sub + "/" + name)
  {
  }

  lemma Cons3(a: seq<string>, b: seq<string>, c: seq<string>, x: string, y: string, z: string)
    requires a == [x] + b && b == [y] + c && c == [z]
    ensures a == [x, y, z]
  {
  }

  lemma PartsCount(path: string, segments: seq<string>)
    requires Split(path, "/") == segments
    requires forall i | 0 <= i < |segments| :: segments[i] != "" && segments[i] != "."
    ensures |Parts(path)| == |segments|
  {
    CleanComponents(segments);
  }

  // ---------------------------------------------------------------------
  // The new navigation

  const NavOpen := "<nav class=\"sidebar-nav\">"
  const NavClose := "</nav>"
  /** The twelve spaces that `get_new_nav_html` puts before the opening tag. */
  const NavIndent := "            "
  const BasePathName := "base_path"

  /**
   * The text `get_new_nav_html` returns, with the list markup between the
   * `nav` tags (over a hundred lines of links) given as `navList`.
   */
  function NavTemplate(navList: string): string {
    NavIndent + NavOpen + navList + NavClose
  }

  /** The markup between the tags uses braces only in `{base_path}` fields, as the script's template does. */
  predicate FieldsOnly(navList: string) {
    forall i | 0 <= i < |Split(navList, Field(BasePathName))| :: BraceFree(Split(navList, Field(BasePathName))[i])
  }

  lemma NavConstants()
    ensures LoneLead(NavOpen) && LoneLead(NavClose) && NavOpen[0] == NavClose[0]
    ensures NoChar(NavIndent, '<') && BraceFree(NavIndent + NavOpen) && BraceFree(NavClose)
    ensures |NavIndent| == 12
  {
  }

  /**
   * `get_new_nav_html().format(base_path=...)`: every `{base_path}` of the
   * list markup becomes the base path, and the indentation and the tags come
   * through as they are.
   */
  lemma NavRendering(navList: string, basePath: string)
    requires FieldsOnly(navList)
    ensures Format(NavTemplate(navList), map[BasePathName := basePath]) ==
      Ok(NavIndent + NavOpen + ReplaceAll(navList, Field(BasePathName), basePath) + NavClose)
  {
    var fields := map[BasePathName := basePath];
    var head := NavIndent + NavOpen;
    var rendered := ReplaceAll(navList, Field(BasePathName), basePath);
    NavConstants();
    FormatIsReplace(navList, BasePathName, fields);
    FormatAppendPlain(navList, NavClose, fields);
    FormatPlainPrefix(head, navList + NavClose, fields);
    ConcatAssoc(head, navList, NavClose);
    ConcatAssoc(head, rendered, NavClose);
  }

  /** `re.sub(r'<nav class="sidebar-nav">.*?</nav>', new_nav, content, flags=re.DOTALL)`. */
  function NavRule(nav: string): (r: Rule)
    ensures WellFormed(r)
  {
    Rule(LazySpan(NavOpen, NavClose), Const(nav))
  }

  /**
   * The first navigation block of a page is replaced by the new one, and
   * the text before it is kept; a page without `</nav>` is left as it is.
   */
  lemma NavReplaced(nav: string, a: string, m: string, b: string)
    requires !Contains(a, NavOpen) && !Contains(m, NavClose)
    ensures Sub(NavRule(nav), a + NavOpen + m + NavClose + b) == a + nav + Sub(NavRule(nav), b)
    ensures !Contains(b, NavClose) ==> Sub(NavRule(nav), b) == b
  {
    NavConstants();
    SpanReplaced(NavRule(nav), a, m, b);
    if !Contains(b, NavClose) {
      SpanNoClose(NavRule(nav), b);
    }
  }

  /** The indentation is all spaces and the opening tag starts with `<`, so neither can overlap the other. */
  lemma NavOpenIsolated()
    ensures Isolated(NavOpen, NavIndent)
  {
    forall k | 0 < k < |NavOpen| ensures !PrefixRelated(NavOpen[k..], NavIndent) {
      if k == 4 {
        assert NavOpen[k..][1] != NavIndent[1];
      } else {
        assert NavOpen[k..][0] != NavIndent[0];
      }
    }
    forall k | 0 < k < |NavIndent| ensures !PrefixRelated(NavIndent[k..], NavOpen) {
      assert NavIndent[k..][0] != NavOpen[0];
    }
    NoLeadNoOccurrence(NavIndent, NavOpen);
    assert NavIndent[0] != NavOpen[0];
  }

  /** The text before an opening tag, followed by the indentation, still holds no opening tag. */
  lemma IndentedPrefix(a: string)
    requires !Contains(a, NavOpen)
    ensures !Contains(a + NavIndent, NavOpen)
  {
    NavOpenIsolated();
    NoLeadNoOccurrence("", NavOpen);
    ConcatNoOccur(a, NavIndent, "", NavOpen);
    assert a + NavIndent + "" == a + NavIndent;
  }

  /**
   * The inserted block starts with the template's indentation, which lies
   * outside the span the pattern matches: on the next run the block is
   * matched again and the indentation in front of it doubles, so the script
   * rewrites every page each time it runs.
   */
  lemma NavReindents(inner: string, a: string, m: string, b: string)
    requires !Contains(inner, NavClose) && !Contains(a, NavOpen) && !Contains(m, NavClose) && !Contains(b, NavClose)
    ensures var r := NavRule(NavIndent + NavOpen + inner + NavClose);
      var once := Sub(r, a + NavOpen + m + NavClose + b);
      once == a + (NavIndent + NavOpen + inner + NavClose) + b &&
      Sub(r, once) == a + NavIndent + (NavIndent + NavOpen + inner + NavClose) + b &&
      |Sub(r, once)| == |once| + 12
  {
    var nav := NavIndent + NavOpen + inner + NavClose;
    NavConstants();
    NavReplaced(nav, a, m, b);
    var a2 := a + NavIndent;
    IndentedPrefix(a);
    NavReplaced(nav, a2, inner, b);
    ReindentShape(a, inner, b);
  }

  lemma ReindentShape(a: string, inner: string, b: string)
    ensures a + (NavIndent + NavOpen + inner + NavClose) + b == a + NavIndent + NavOpen + inner + NavClose + b
  {
  }

  /** The nav replacement with the indentation left out of the inserted text. */
  function CorrectedNavRule(inner: string): (r: Rule)
    ensures WellFormed(r)
  {
    Rule(LazySpan(NavOpen, NavClose), Const(NavOpen + inner + NavClose))
  }

  /** Without the indentation, a second run leaves every page as the first run left it. */
  lemma CorrectedNavIdempotent(inner: string, s: string)
    requires !Contains(inner, NavClose)
    ensures Sub(CorrectedNavRule(inner), Sub(CorrectedNavRule(inner), s)) == Sub(CorrectedNavRule(inner), s)
  {
    NavConstants();
    SpanIdempotent(CorrectedNavRule(inner), inner, s);
  }

  // ---------------------------------------------------------------------
  // Section titles

  const SpanOpen := "<span class=\"nav-section-title\">"
  const SpanClose := "</span>"

  /** A section title element: `<span class="nav-section-title">T</span>`. */
  function SectionTitle(t: string): string {
    SpanOpen + t + SpanClose
  }

  /** The `replacements` table: plain-text patterns, so each `re.sub` is a `str.replace`. */
  const SectionTitles: seq<(string, string)> := [
    (SectionTitle("Core Components"), SectionTitle("Components")),
    (SectionTitle("Content & Commerce Patterns"), SectionTitle("Patterns")),
    (SectionTitle("Product / Market Specific"), SectionTitle("Product / Market"))
  ]

  function SectionRules(): (rules: seq<Rule>)
    ensures |rules| == 3 && AllWellFormed(rules)
  {
    LiteralRules(SectionTitles)
  }

  lemma SpanTags()
    ensures |SpanOpen| == 32 && Markup.OpenTag(SpanOpen) && Markup.CloseTag(SpanClose)
  {
  }

  /** Each pair of the table, with the title texts of its old and new element. */
  lemma SectionTitleTexts()
    ensures SectionTitles[0] == (SectionTitle("Core Components"), SectionTitle("Components"))
    ensures SectionTitles[1] == (SectionTitle("Content & Commerce Patterns"), SectionTitle("Patterns"))
    ensures SectionTitles[2] == (SectionTitle("Product / Market Specific"), SectionTitle("Product / Market"))
    ensures NoChar("Core Components", '<') && NoChar("Components", '<')
    ensures NoChar("Content & Commerce Patterns", '<') && NoChar("Patterns", '<')
    ensures NoChar("Product / Market Specific", '<') && NoChar("Product / Market", '<')
  {
  }

  /** No new title can create or complete an old one: the table is settled. */
  lemma SectionTitlesSettled()
    ensures Settled(SectionTitles)
  {
    SectionTitleTexts();
    var old0, old1, old2 := "Core Components", "Content & Commerce Patterns", "Product / Market Specific";
    var new0, new1, new2 := "Components", "Patterns", "Product / Market";
    SpanTags();
    Markup.ElementShaped(SpanOpen, old0, SpanClose);
    Markup.ElementShaped(SpanOpen, old1, SpanClose);
    Markup.ElementShaped(SpanOpen, old2, SpanClose);
    Markup.ElementShaped(SpanOpen, new0, SpanClose);
    Markup.ElementShaped(SpanOpen, new1, SpanClose);
    Markup.ElementShaped(SpanOpen, new2, SpanClose);
    Markup.ElementsDiffer(SpanOpen, old0, new0, SpanClose, 2);
    Markup.ElementsDiffer(SpanOpen, old0, new1, SpanClose, 0);
    Markup.ElementsDiffer(SpanOpen, old0, new2, SpanClose, 0);
    Markup.ElementsDiffer(SpanOpen, old1, new1, SpanClose, 0);
    Markup.ElementsDiffer(SpanOpen, old1, new2, SpanClose, 0);
    Markup.ElementsDiffer(SpanOpen, old2, new2, SpanClose, 16);
    forall k, j | 0 <= k <= j < 3 ensures Isolated(SectionTitles[k].0, SectionTitles[j].1) {
      Markup.TagShapedIsolated(SectionTitles[k].0, SectionTitles[j].1);
    }
  }

  /** Renaming the section titles twice is renaming them once. */
  lemma SectionTitlesIdempotent(s: string)
    ensures Pipeline(SectionRules(), Pipeline(SectionRules(), s)) == Pipeline(SectionRules(), s)
  {
    SectionTitlesSettled();
    PipelineIdempotent(SectionTitles, s);
  }

  /** The title loop is three `str.replace` calls in table order; a page without the old titles keeps its text. */
  lemma SectionTitlesReplace(s: string)
    ensures Pipeline(SectionRules(), s) == ReplaceChain(SectionTitles, s)
    ensures NoneOccur(SectionTitles, s) ==> Pipeline(SectionRules(), s) == s
  {
    LiteralPipeline(SectionTitles, s);
    if NoneOccur(SectionTitles, s) {
      ChainUntouched(SectionTitles, s);
    }
  }

  // ---------------------------------------------------------------------
  // Link labels

  /** The `link_replacements` table: the end of the `href`, the old label and the new one. */
  const LinkLabels: seq<(string, string, string)> := [
    ("color.html", "1 Color Library", "Color"),
    ("typography/gt-walsheim.html", "GT Walsheim", "Typography: GT Walsheim"),
    ("typography/noto-sans-jp.html", "Noto Sans Japan (JP)", "Typography: Noto Sans Japan"),
    ("spacing.html", "2 Spacing System", "Spacing"),
    ("grid.html", "2 Grid System", "Grid System"),
    ("icons.html", "Icons GCC Component", "Icon"),
    ("illustrations.html", "Illustrations GCC Component", "Illustration"),
    ("logo.html", "Logo GCC Component", "Logo"),
    ("system-resources.html", "System Resources GCC Component", "System Resources")
  ]

  /**
   * `re.sub(r'<a href="[^"]*SUFFIX" class="nav-link[^"]*">OLD</a>',
   * lambda m: m.group(0).replace(OLD, NEW), content)`.
   */
  function LinkRule(entry: (string, string, string)): (r: Rule)
    requires |entry.1| > 0
    ensures WellFormed(r)
  {
    Rule(Anchor(entry.0, "nav-link", true, entry.1), Within(entry.1, entry.2))
  }

  lemma LinkLabelsNonEmpty()
    ensures forall i | 0 <= i < |LinkLabels| :: |LinkLabels[i].1| > 0 && !Contains(AnchorEnd, LinkLabels[i].1)
  {
    forall i | 0 <= i < |LinkLabels| ensures |LinkLabels[i].1| > 0 && !Contains(AnchorEnd, LinkLabels[i].1) {
      LabelLead(i);
      NoLeadNoOccurrence(AnchorEnd, LinkLabels[i].1);
    }
  }

  lemma LabelLead(i: nat)
    requires i < |LinkLabels|
    ensures |LinkLabels[i].1| > 0 && NoChar(AnchorEnd, LinkLabels[i].1[0])
  {
  }

  function LinkRules(): (rules: seq<Rule>)
    ensures |rules| == |LinkLabels| && AllWellFormed(rules)
    ensures forall i | 0 <= i < |LinkLabels| :: |LinkLabels[i].1| > 0 && rules[i] == LinkRule(LinkLabels[i])
  {
    LinkLabelsNonEmpty();
    seq(|LinkLabels|, i requires 0 <= i < |LinkLabels| => LinkRule(LinkLabels[i]))
  }

  /**
   * Rule `i` turns a navigation link to a page ending in its suffix, with
   * class `nav-link` followed by anything, whose label is the old one, into
   * the same link with the new label; the text before the link is kept.
   * The replacement acts on the whole match, so it needs the old label's
   * first character to be absent from the link before the label.
   */
  lemma LinkRelabelled(i: nat, a: string, href: string, tail: string, b: string)
    requires i < |LinkLabels|
    requires NoChar(a, '<') && NoChar(href, '"') && EndsWith(href, LinkLabels[i].0) && NoChar(tail, '"')
    requires |LinkLabels[i].1| > 0 && NoChar(Anchors.AnchorHead(href, "nav-link" + tail), LinkLabels[i].1[0])
    ensures Sub(LinkRules()[i], a + AnchorText(href, "nav-link" + tail, LinkLabels[i].1) + b) ==
      a + AnchorText(href, "nav-link" + tail, LinkLabels[i].2) + Sub(LinkRules()[i], b)
  {
    LinkLabelsNonEmpty();
    Anchors.SubWithin(LinkRules()[i], a, href, tail, b);
  }

  /** A rule whose old label never stands before `</a>` leaves the page alone. */
  lemma LinkRulesAbsent(s: string)
    requires forall i | 0 <= i < |LinkLabels| :: !Contains(s, LinkClose(LinkLabels[i].1))
    ensures Pipeline(LinkRules(), s) == s
  {
    var rules := LinkRules();
    forall i | 0 <= i < |rules| ensures Sub(rules[i], s) == s {
      AnchorAbsent(rules[i], s);
    }
    PipelineFixed(rules, s);
  }

  // ---------------------------------------------------------------------
  // One page, and the whole site

  /**
   * The text `update_navigation_in_file` leaves in a page: the navigation
   * block replaced, then the section titles and the link labels renamed.
   * When `.format` fails on the template the exception handler returns
   * before anything is written, so the page keeps its text.
   */
  function NavigationEdit(path: string, content: string, navList: string): string {
    match Format(NavTemplate(navList), map[BasePathName := CalculateBasePath(path)])
    case Err(_) => content
    case Ok(nav) => Pipeline(LinkRules(), Pipeline(SectionRules(), Sub(NavRule(nav), content)))
  }

  /** The body of `update_navigation_in_file` after the read: the new text, and whether it differs. */
  method UpdateNavigationInFile(path: string, content: string, navList: string)
    returns (newContent: string, changed: bool)
    ensures newContent == NavigationEdit(path, content, navList)
    ensures changed <==> newContent != content
  {
    var rendered := Format(NavTemplate(navList), map[BasePathName := CalculateBasePath(path)]);
    if rendered.Err? {
      return content, false;
    }
    newContent := Sub(NavRule(rendered.value), content);
    newContent := ApplyRules(SectionRules(), newContent);
    newContent := ApplyRules(LinkRules(), newContent);
    changed := newContent != content;
  }

  /**
   * A page whose first navigation block is `NavOpen + m + NavClose` gets the
   * rendered template in its place, with `{base_path}` filled in from the
   * page's path, before the titles and labels are renamed; the text around
   * the block is kept.
   */
  lemma NavigationEditBlock(path: string, navList: string, a: string, m: string, b: string)
    requires FieldsOnly(navList)
    requires !Contains(a, NavOpen) && !Contains(m, NavClose) && !Contains(b, NavClose)
    ensures NavigationEdit(path, a + NavOpen + m + NavClose + b, navList) ==
      Pipeline(LinkRules(), Pipeline(SectionRules(),
        a + (NavIndent + NavOpen + ReplaceAll(navList, Field(BasePathName), CalculateBasePath(path)) + NavClose) + b))
  {
    NavRendering(navList, CalculateBasePath(path));
    var nav := NavIndent + NavOpen + ReplaceAll(navList, Field(BasePathName), CalculateBasePath(path)) + NavClose;
    NavReplaced(nav, a, m, b);
  }

  /**
   * A page without `</nav>`, without the old section titles and without an
   * old link label before `</a>` is not rewritten, so it is neither written
   * nor counted.
   */
  lemma NavigationEditUntouched(path: string, content: string, navList: string)
    requires !Contains(content, NavClose) && NoneOccur(SectionTitles, content)
    requires forall i | 0 <= i < |LinkLabels| :: !Contains(content, LinkClose(LinkLabels[i].1))
    ensures NavigationEdit(path, content, navList) == content
  {
    var rendered := Format(NavTemplate(navList), map[BasePathName := CalculateBasePath(path)]);
    if rendered.Ok? {
      SpanNoClose(NavRule(rendered.value), content);
      SectionTitlesReplace(content);
      LinkRulesAbsent(content);
    }
  }

  /** No old section title on the page, and no old link label standing between `">` and `</a>`. */
  predicate NothingToRename(s: string) {
    NoneOccur(SectionTitles, s) && forall i | 0 <= i < |LinkLabels| :: !Contains(s, LinkClose(LinkLabels[i].1))
  }

  lemma NothingToRenameKept(s: string)
    requires NothingToRename(s)
    ensures Pipeline(LinkRules(), Pipeline(SectionRules(), s)) == s
  {
    SectionTitlesReplace(s);
    LinkRulesAbsent(s);
  }

  /**
   * The whole page edit never settles: a page with one navigation block,
   * and nothing for the renamings to act on, gets the rendered block on the
   * first run and the same block twelve spaces further in on the second, so
   * `update_navigation_in_file` finds it changed and writes it again.
   */
  lemma NavigationEditGrows(path: string, navList: string, a: string, m: string, b: string)
    requires FieldsOnly(navList) && !Contains(ReplaceAll(navList, Field(BasePathName), CalculateBasePath(path)), NavClose)
    requires !Contains(a, NavOpen) && !Contains(m, NavClose) && !Contains(b, NavClose)
    requires var nav := NavIndent + NavOpen + ReplaceAll(navList, Field(BasePathName), CalculateBasePath(path)) + NavClose;
      NothingToRename(a + nav + b) && NothingToRename(a + NavIndent + nav + b)
    ensures var nav := NavIndent + NavOpen + ReplaceAll(navList, Field(BasePathName), CalculateBasePath(path)) + NavClose;
      var once := NavigationEdit(path, a + NavOpen + m + NavClose + b, navList);
      once == a + nav + b &&
      NavigationEdit(path, once, navList) == a + NavIndent + nav + b &&
      |NavigationEdit(path, once, navList)| == |once| + 12
  {
    var inner := ReplaceAll(navList, Field(BasePathName), CalculateBasePath(path));
    var nav := NavIndent + NavOpen + inner + NavClose;
    NavigationEditBlock(path, navList, a, m, b);
    NothingToRenameKept(a + nav + b);
    IndentedPrefix(a);
    ReindentShape(a, inner, b);
    assert a + nav + b == (a + NavIndent) + NavOpen + inner + NavClose + b;
    NavigationEditBlock(path, navList, a + NavIndent, inner, b);
    NothingToRenameKept(a + NavIndent + nav + b);
  }

  /**
   * The template's GT Walsheim link, without its `href`: the label
   * `Typography: GT Walsheim` ends in the old label `GT Walsheim`, but not
   * right after `">`, so the link rule for that label leaves it alone.
   */
  const GtWalsheimOpen := "<a class=\"nav-link\">"
  const GtWalsheimLabel := "Typography: GT Walsheim</a>"
  const GtWalsheimLink := GtWalsheimOpen + GtWalsheimLabel

  /** Without a field, the link renders as it is for every page. */
  lemma GtWalsheimRendered(path: string)
    ensures FieldsOnly(GtWalsheimLink)
    ensures ReplaceAll(GtWalsheimLink, Field(BasePathName), CalculateBasePath(path)) == GtWalsheimLink
  {
    var f := Field(BasePathName);
    assert BraceFree(GtWalsheimOpen) && BraceFree(GtWalsheimLabel) && f[0] == '{';
    NoCharConcat(GtWalsheimOpen, GtWalsheimLabel, '{');
    NoCharConcat(GtWalsheimOpen, GtWalsheimLabel, '}');
    NoLeadNoOccurrence(GtWalsheimLink, f);
    SplitNone(GtWalsheimLink, f);
  }

  /** The navigation block holding only the link has no `</nav>` inside, no old title and no old label. */
  lemma GtWalsheimBlockClean()
    ensures !Contains(GtWalsheimLink, NavClose)
    ensures NothingToRename(NavOpen + GtWalsheimLink + NavClose)
  {
    LinkNoNavClose();
    BlockNoTitle();
    BlockNoLabel();
  }

  lemma LinkNoNavClose()
    ensures !Contains(GtWalsheimLink, NavClose)
  {
    assert TripleFree(GtWalsheimOpen, '<', '/', 'n') && TripleFree(GtWalsheimLabel, '<', '/', 'n');
    TripleFreeJoin(GtWalsheimOpen, GtWalsheimLabel, '<', '/', 'n');
    NoLeadTripleNoOccurrence(GtWalsheimLink, NavClose);
  }

  lemma BlockNoTitle()
    ensures NoneOccur(SectionTitles, NavOpen + GtWalsheimLink + NavClose)
  {
    var block := NavOpen + GtWalsheimLink + NavClose;
    BlockPairFree();
    forall i | 0 <= i < |SectionTitles| ensures !Contains(block, SectionTitles[i].0) {
      SectionTitleTexts();
      NoLeadPairNoOccurrence(block, SectionTitles[i].0);
    }
  }

  lemma BlockNoLabel()
    ensures forall i | 0 <= i < |LinkLabels| :: !Contains(NavOpen + GtWalsheimLink + NavClose, LinkClose(LinkLabels[i].1))
  {
    var block := NavOpen + GtWalsheimLink + NavClose;
    forall i | 0 <= i < |LinkLabels| ensures !Contains(block, LinkClose(LinkLabels[i].1)) {
      LabelCloseShape(i);
      BlockTripleFree(LinkLabels[i].1[0]);
      NoLeadTripleNoOccurrence(block, LinkClose(LinkLabels[i].1));
    }
  }

  /** No `<s`, the start of every section title, in the block. */
  lemma BlockPairFree()
    ensures PairFree(NavOpen + GtWalsheimLink + NavClose, '<', 's')
  {
    var o, l := GtWalsheimOpen, GtWalsheimLabel;
    ConcatAssoc(NavOpen, o, l);
    assert PairFree(NavOpen, '<', 's') && PairFree(o, '<', 's') && PairFree(l, '<', 's') && PairFree(NavClose, '<', 's');
    PairFreeJoin(NavOpen, o, '<', 's');
    PairFreeJoin(NavOpen + o, l, '<', 's');
    PairFreeJoin(NavOpen + o + l, NavClose, '<', 's');
  }

  /** Every `">` of the block is followed by `<` or `T`. */
  lemma BlockTripleFree(c: char)
    requires c != '<' && c != 'T'
    ensures TripleFree(NavOpen + GtWalsheimLink + NavClose, '"', '>', c)
  {
    var o, l := GtWalsheimOpen, GtWalsheimLabel;
    ConcatAssoc(NavOpen, o, l);
    assert TripleFree(NavOpen, '"', '>', c) && TripleFree(o, '"', '>', c);
    assert TripleFree(l, '"', '>', c) && TripleFree(NavClose, '"', '>', c);
    TripleFreeJoin(NavOpen, o, '"', '>', c);
    TripleFreeJoin(NavOpen + o, l, '"', '>', c);
    TripleFreeJoin(NavOpen + o + l, NavClose, '"', '>', c);
  }

  /** `">LABEL</a>` for an old label: its third character is neither `<` nor `T`. */
  lemma LabelCloseShape(i: nat)
    requires i < |LinkLabels|
    ensures var x := LinkClose(LinkLabels[i].1); |x| > 2 && x[0] == '"' && x[1] == '>' && x[2] != '<' && x[2] != 'T'
  {
    LabelLead(i);
  }

  /** Spaces in front of a text with nothing to rename add nothing to rename. */
  lemma IndentNothingToRename(s: string)
    requires NothingToRename(s)
    ensures NothingToRename(NavIndent + s)
  {
    forall i | 0 <= i < |SectionTitles| ensures !Contains(NavIndent + s, SectionTitles[i].0) {
      SectionTitleTexts();
      NoOccurAfterLeadFree(NavIndent, s, SectionTitles[i].0);
    }
    forall i | 0 <= i < |LinkLabels| ensures !Contains(NavIndent + s, LinkClose(LinkLabels[i].1)) {
      NoOccurAfterLeadFree(NavIndent, s, LinkClose(LinkLabels[i].1));
    }
  }

  /**
   * The same for a page that is just an empty navigation block, with the
   * conditions on the rendered list alone: nothing to rename once it sits
   * between the tags.
   */
  lemma BareNavGrows(path: string, navList: string)
    requires FieldsOnly(navList)
    requires var inner := ReplaceAll(navList, Field(BasePathName), CalculateBasePath(path));
      !Contains(inner, NavClose) && NothingToRename(NavOpen + inner + NavClose)
    ensures var inner := ReplaceAll(navList, Field(BasePathName), CalculateBasePath(path));
      var once := NavigationEdit(path, NavOpen + NavClose, navList);
      once == NavIndent + NavOpen + inner + NavClose &&
      |NavigationEdit(path, once, navList)| == |once| + 12
  {
    var inner := ReplaceAll(navList, Field(BasePathName), CalculateBasePath(path));
    var block := NavOpen + inner + NavClose;
    var nav := NavIndent + NavOpen + inner + NavClose;
    IndentNothingToRename(block);
    ConcatAssoc(NavIndent, NavOpen + inner, NavClose);
    ConcatAssoc(NavIndent, NavOpen, inner);
    assert nav == NavIndent + block;
    IndentNothingToRename(nav);
    NoLeadNoOccurrence("", NavOpen);
    NoLeadNoOccurrence("", NavClose);
    EmptyEnds(NavIndent, nav);
    EmptyEnds(NavOpen, NavClose);
    NavigationEditGrows(path, navList, "", "", "");
  }

  /**
   * The script's own template is covered: on a page whose navigation list
   * is the GT Walsheim link, the second run finds the page twelve
   * characters longer, so it is written again.
   */
  lemma GtWalsheimPageGrows(path: string)
    ensures var once := NavigationEdit(path, NavOpen + NavClose, GtWalsheimLink);
      once == NavIndent + NavOpen + GtWalsheimLink + NavClose &&
      |NavigationEdit(path, once, GtWalsheimLink)| == |once| + 12
  {
    GtWalsheimRendered(path);
    GtWalsheimBlockClean();
    BareNavGrows(path, GtWalsheimLink);
  }

  lemma EmptyEnds(x: string, y: string)
    ensures "" + y + "" == y && "" + x + y + "" == x + y && "" + x + "" + y + "" == x + y
  {
  }

  /** `main`: every page found is updated in listing order, written and counted when it changed. */
  method UpdateSite(fs: Bulk.Tree, files: seq<string>, navList: string)
    returns (tree: Bulk.Tree, updated: nat, writes: seq<string>)
    ensures var o := Bulk.RunAll(fs, files, (p, c) => NavigationEdit(p, c, navList));
      tree == o.tree && updated == o.updated && writes == o.writes
    ensures Bulk.Distinct(files) ==>
      tree.Keys == fs.Keys && updated == |writes| &&
      forall p | p in fs :: tree[p] == if p in files then NavigationEdit(p, fs[p], navList) else fs[p]
  {
    var edit := (p, c) => NavigationEdit(p, c, navList);
    tree, updated, writes := Bulk.UpdateAll(fs, files, edit);
    if Bulk.Distinct(files) {
      Bulk.RunAllEffect(fs, files, edit);
    }
  }
}
