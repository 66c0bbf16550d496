/**
 * `update_page_titles.py`: renames three pages in their `<title>` element and
 * in their `<h1>` heading.  Every pattern is plain text, so each `re.sub`
 * call replaces every occurrence of the old element by the new one.
 */
module PageTitles {
  import opened Text
  import opened Rewrite
  import Markup
  import Bulk

  const TitleOpen := "<title>"
  const TitleClose := "</title>"
  const HeadingOpen := "<h1>"
  const HeadingClose := "</h1>"

  function PageTitle(t: string): string {
    TitleOpen + t + TitleClose
  }

  function Heading(t: string): string {
    HeadingOpen + t + HeadingClose
  }

  /** What every page title ends with. */
  const SiteSuffix := " - GCC Design System"

  /** The `title_updates` table. */
  const TitleUpdates: seq<(string, string)> := [
    (PageTitle("Color" + SiteSuffix), PageTitle("1 Color Library" + SiteSuffix)),
    (PageTitle("Iconography" + SiteSuffix), PageTitle("Icons" + SiteSuffix)),
    (PageTitle("Spacing & Grid" + SiteSuffix), PageTitle("2 Spacing System" + SiteSuffix))
  ]

  /** The `h1_updates` table. */
  const HeadingUpdates: seq<(string, string)> := [
    (Heading("Color"), Heading("1 Color Library")),
    (Heading("Iconography"), Heading("Icons")),
    (Heading("Spacing & Grid"), Heading("2 Spacing System"))
  ]

  lemma TablesNonEmpty()
    ensures NonEmptyPatterns(TitleUpdates) && NonEmptyPatterns(HeadingUpdates)
  {
  }

  function TitleRules(): (rules: seq<Rule>)
    ensures |rules| == 3 && AllWellFormed(rules)
  {
    TablesNonEmpty();
    LiteralRules(TitleUpdates)
  }

  function HeadingRules(): (rules: seq<Rule>)
    ensures |rules| == 3 && AllWellFormed(rules)
  {
    TablesNonEmpty();
    LiteralRules(HeadingUpdates)
  }

  /** The text `update_file` leaves in a page: the title rules, then the heading rules. */
  function UpdatedTitles(content: string): string {
    Pipeline(HeadingRules(), Pipeline(TitleRules(), content))
  }

  /** The body of `update_file` after the read: its two rule loops, and whether the text changed. */
  method UpdateFile(content: string) returns (newContent: string, changed: bool)
    ensures newContent == UpdatedTitles(content)
    ensures changed <==> newContent != content
  {
    newContent := ApplyRules(TitleRules(), content);
    newContent := ApplyRules(HeadingRules(), newContent);
    changed := newContent != content;
  }

  /** `main`: every page found is updated in listing order, written and counted when it changed. */
  method UpdateTitles(fs: Bulk.Tree, files: seq<string>)
    returns (tree: Bulk.Tree, updated: nat, writes: seq<string>)
    ensures var o := Bulk.RunAll(fs, files, (p, c) => UpdatedTitles(c));
      tree == o.tree && updated == o.updated && writes == o.writes
    ensures Bulk.Distinct(files) ==>
      tree.Keys == fs.Keys && updated == |writes| &&
      forall p | p in fs :: tree[p] == if p in files then UpdatedTitles(fs[p]) else fs[p]
  {
    var edit := (p: string, c: string) => UpdatedTitles(c);
    tree, updated, writes := Bulk.UpdateAll(fs, files, edit);
    if Bulk.Distinct(files) {
      Bulk.RunAllEffect(fs, files, edit);
    }
  }

  /**
   * The update is six `str.replace` calls: the three title pairs in table
   * order, then the three heading pairs in table order.
   */
  lemma TitlesInOrder(s: string)
    ensures NonEmptyPatterns(TitleUpdates + HeadingUpdates)
    ensures UpdatedTitles(s) == ReplaceChain(TitleUpdates + HeadingUpdates, s)
  {
    TablesNonEmpty();
    LiteralRulesAppend(TitleUpdates, HeadingUpdates);
    PipelineAppend(TitleRules(), HeadingRules(), s);
    LiteralPipeline(TitleUpdates + HeadingUpdates, s);
  }

  /** A page holding none of the six old elements keeps its text, so it is not written. */
  lemma TitlesUntouched(s: string)
    requires NoneOccur(TitleUpdates, s) && NoneOccur(HeadingUpdates, s)
    ensures UpdatedTitles(s) == s
  {
    TitlesInOrder(s);
    var all := TitleUpdates + HeadingUpdates;
    forall i | 0 <= i < |all| ensures !Contains(s, all[i].0) {
      if i >= 3 {
        assert all[i] == HeadingUpdates[i - 3];
      }
    }
    ChainUntouched(all, s);
  }

  /** Updating the titles of a page a second time changes nothing. */
  lemma TitlesIdempotent(s: string)
    ensures UpdatedTitles(UpdatedTitles(s)) == UpdatedTitles(s)
  {
    var all := TitleUpdates + HeadingUpdates;
    TablesNonEmpty();
    TitleTableSettled();
    HeadingTableSettled();
    TablesApart();
    SettledConcat(TitleUpdates, HeadingUpdates);
    TitlesInOrder(s);
    TitlesInOrder(UpdatedTitles(s));
    LiteralPipeline(all, s);
    LiteralPipeline(all, UpdatedTitles(s));
    PipelineIdempotent(all, s);
  }

  lemma TagFacts()
    ensures Markup.OpenTag(TitleOpen) && Markup.CloseTag(TitleClose)
    ensures Markup.OpenTag(HeadingOpen) && Markup.CloseTag(HeadingClose)
  {
  }

  /** The page names the two tables rename, old and new. */
  lemma NameTexts()
    ensures NoChar("Color", '<') && NoChar("1 Color Library", '<')
    ensures NoChar("Iconography", '<') && NoChar("Icons", '<')
    ensures NoChar("Spacing & Grid", '<') && NoChar("2 Spacing System", '<')
    ensures NoChar(SiteSuffix, '<')
  {
  }

  /**
   * Two names that differ at a position both have, wrapped in the same tags,
   * give elements neither of which can create or complete the other.
   */
  lemma RenameIsolated(o: string, c: string, a: string, b: string, k: nat)
    requires Markup.OpenTag(o) && Markup.CloseTag(c) && NoChar(a, '<') && NoChar(b, '<')
    requires k < |a| && k < |b| && a[k] != b[k]
    ensures Isolated(o + a + c, o + b + c)
  {
    Markup.ElementShaped(o, a, c);
    Markup.ElementShaped(o, b, c);
    Markup.ElementsDiffer(o, a, b, c, k);
    Markup.TagShapedIsolated(o + a + c, o + b + c);
  }

  /** A name followed by the site suffix. */
  lemma Suffixed(a: string, k: nat)
    requires NoChar(a, '<') && k < |a|
    ensures NoChar(a + SiteSuffix, '<') && k < |a + SiteSuffix| && (a + SiteSuffix)[k] == a[k]
  {
    NameTexts();
    NoCharConcat(a, SiteSuffix, '<');
  }

  /** Renaming the title of a page with `k` a position where the names differ. */
  lemma TitleRenameIsolated(a: string, b: string, k: nat)
    requires NoChar(a, '<') && NoChar(b, '<') && k < |a| && k < |b| && a[k] != b[k]
    ensures Isolated(PageTitle(a + SiteSuffix), PageTitle(b + SiteSuffix))
  {
    TagFacts();
    Suffixed(a, k);
    Suffixed(b, k);
    RenameIsolated(TitleOpen, TitleClose, a + SiteSuffix, b + SiteSuffix, k);
  }

  /** No new title can create or complete an old one. */
  lemma TitleTableSettled()
    ensures Settled(TitleUpdates)
  {
    NameTexts();
    TitleRenameIsolated("Color", "1 Color Library", 0);
    TitleRenameIsolated("Color", "Icons", 0);
    TitleRenameIsolated("Color", "2 Spacing System", 0);
    TitleRenameIsolated("Iconography", "Icons", 4);
    TitleRenameIsolated("Iconography", "2 Spacing System", 0);
    TitleRenameIsolated("Spacing & Grid", "2 Spacing System", 0);
    forall k, j | 0 <= k <= j < 3 ensures Isolated(TitleUpdates[k].0, TitleUpdates[j].1) {
    }
  }

  /** No new heading can create or complete an old one. */
  lemma HeadingTableSettled()
    ensures Settled(HeadingUpdates)
  {
    NameTexts();
    TagFacts();
    RenameIsolated(HeadingOpen, HeadingClose, "Color", "1 Color Library", 0);
    RenameIsolated(HeadingOpen, HeadingClose, "Color", "Icons", 0);
    RenameIsolated(HeadingOpen, HeadingClose, "Color", "2 Spacing System", 0);
    RenameIsolated(HeadingOpen, HeadingClose, "Iconography", "Icons", 4);
    RenameIsolated(HeadingOpen, HeadingClose, "Iconography", "2 Spacing System", 0);
    RenameIsolated(HeadingOpen, HeadingClose, "Spacing & Grid", "2 Spacing System", 0);
    forall k, j | 0 <= k <= j < 3 ensures Isolated(HeadingUpdates[k].0, HeadingUpdates[j].1) {
    }
  }

  /** A new heading cannot create or complete an old title: the tags differ at their second character. */
  lemma TablesApart()
    ensures forall k, j | 0 <= k < 3 && 0 <= j < 3 :: Isolated(TitleUpdates[k].0, HeadingUpdates[j].1)
  {
    NameTexts();
    var titles := ["Color", "Iconography", "Spacing & Grid"];
    var headings := ["1 Color Library", "Icons", "2 Spacing System"];
    forall k, j | 0 <= k < 3 && 0 <= j < 3 ensures Isolated(TitleUpdates[k].0, HeadingUpdates[j].1) {
      assert TitleUpdates[k].0 == PageTitle(titles[k] + SiteSuffix) && NoChar(titles[k], '<');
      assert HeadingUpdates[j].1 == Heading(headings[j]) && NoChar(headings[j], '<');
      NoCharConcat(titles[k], SiteSuffix, '<');
      TitleApart(titles[k] + SiteSuffix, headings[j]);
    }
  }

  lemma TitleApart(t: string, h: string)
    requires NoChar(t, '<') && NoChar(h, '<')
    ensures Isolated(PageTitle(t), Heading(h))
  {
    TagFacts();
    Markup.ElementShaped(TitleOpen, t, TitleClose);
    Markup.ElementShaped(HeadingOpen, h, HeadingClose);
    Markup.TagsDiffer(TitleOpen, t, TitleClose, HeadingOpen, h, HeadingClose, 1);
    Markup.TagShapedIsolated(PageTitle(t), Heading(h));
  }
}
