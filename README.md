# GCC Design System documentation site: maintenance scripts

The GCC Design System documentation is a static HTML site. It is kept in
shape by six one-shot Python scripts. This project models those scripts in
Dafny and proves what they do to the pages.

- `tools/sync_docs.py` injects the shared sidebar and component-header
  partials into every page. Each partial goes between a pair of HTML comment
  markers. Each is rendered with a root-relative prefix that depends on the
  page's depth.
- `update_site_structure.py` replaces each page's sidebar navigation block
  with a freshly rendered one. It then renames section titles and navigation
  link labels.
- `update_page_titles.py` renames three pages in their `<title>` and `<h1>`.
- `tools/update_navigation_labels.py` relabels `nav-link` anchors from a
  dictionary of old and new labels.
- `tools/update_typography_nav.py` replaces a nested Typography sub-menu with
  one flat link. The link's target depends on the page's path.
- `create_foundation_pages.py` renders the missing foundation pages from one
  template and writes only the pages whose file does not exist yet.

## How the model is built

- **Documents and the site.** A page is a `string`. The site is a
  `map<string, string>` from path to text (`Bulk.Tree`). Reading a page is a
  map lookup and writing it is a map update.
- **Directory listings.** The results of `Path.rglob`, `os.walk` and
  `os.listdir` are parameters, given as sequences in the order the script
  would see them.
- **Python string operations.**
  - `module Text` defines `str.find`, `str.replace`, `str.split`,
    `str.join`, `in` and `s * n` recursively. It relates them: `replace` is
    `join` of `split`, and `split` and `join` are inverses.
  - `module Template` defines `str.format` over named fields, with
    `ValueError` and `KeyError` as an error result. When the template has
    only one field name, it proves `format` equal to `replace`.
- **Regular expressions.**
  - `module Rewrite` models `re.sub` as the left-to-right scan Python
    performs (`Sub`). The scan uses a hand-written matcher for each shape of
    pattern the scripts use: plain text, the DOTALL `open.*?close` span, and
    the `<a href="[^"]*SUFFIX" class="CLS[^"]*">CAPTION</a>` link.
  - A plain-text pattern is proved to substitute exactly as `str.replace`
    does.
  - `module Anchors` proves what the link matcher accepts and what it
    rejects.
- **Script loops.** Each script's `update_*` function becomes a method.
  - The method threads the page text through its rule loops, as the script
    does.
  - It is proved equal to a specification function of the page text.
  - It returns `changed` exactly when the text differs.
- **Per-page main loops.** The `main` loops that count updated pages are
  one generic loop (`Bulk.UpdateAll`), proved against `Bulk.RunAll`.
- **Deviations from the code's own intent.** Two intents are read off the
  code itself.
  - The comments at update_site_structure.py:132-137 tie each depth to the
    prefix that reaches the site root: `""` at the root, `../` one level
    down, `../../` two levels down.
  - The drivers write a page only when its text changed
    (update_site_structure.py:198-202). So a second run over an updated site
    is meant to find nothing to do.
  - The code does not keep either intent everywhere. The model follows the
    code, and the discrepancies are listed under Findings.
- **Corrected versions.** Each discrepancy comes with a corrected definition
  and a proof that the correction keeps the promise. The per-script drivers
  keep the behaviour as written.

## Model

| member | source | states |
|---|---|---|
| Text.Find | tools/sync_docs.py:36 | the result is present exactly when the marker occurs in the page, and it is the first index where it occurs |
| Text.Split | tools/sync_docs.py:40-41 | split always yields at least one piece, and exactly one piece when the separator does not occur |
| Text.SplitJoin | tools/sync_docs.py:40-41 | joining the pieces of a split with the same separator gives the original text back |
| Text.JoinSplit | tools/sync_docs.py:40-41 | splitting a join gives back the pieces, when no piece holds the separator's first character |
| Text.ReplaceAllIsJoinSplit | tools/sync_docs.py:37 | `str.replace` replaces every occurrence of the placeholder and keeps the text between occurrences verbatim |
| Text.SplitCharCount | tools/sync_docs.py:10 | splitting at `/` yields one piece more than there are separators |
| Text.ReplaceAllLeavesNone | update_page_titles.py:32-37 | after `replace(old, new)`, with `new` unable to create or complete `old`, no `old` is left; text free of a fragment stays free of it |
| Template.FormatPlain | update_site_structure.py:153 | a template without braces renders to itself, whatever the fields |
| Template.FormatMissing | tools/sync_docs.py:46-56 | a `{name}` with no value raises `KeyError(name)` when nothing before it is malformed |
| Template.FormatJoin | update_site_structure.py:153 | when the only braces are `{name}` fields between brace-free pieces, rendering joins the pieces with the field's value |
| Template.FormatIsReplace | update_site_structure.py:153 | when `{name}` is the template's only use of braces, `format` succeeds and equals replacing every `{name}` by its value |
| Template.FormatFieldAfter | tools/sync_docs.py:46-56 | a field with a value after brace-free text renders as that text and the value, followed by the rendering of the rest or its error |
| Rewrite.MatchAt | update_site_structure.py:157-158 | a match is non-empty, fits in the text, starts with the pattern's lead character, and a link match ends with its caption and `</a>` |
| Rewrite.ApplyRules | update_page_titles.py:32-37 | the rule loop reassigning `content` computes the rules' substitutions applied in list order |
| Rewrite.SubLiteral | update_page_titles.py:33 | `re.sub` with a pattern free of metacharacters is `str.replace` |
| Rewrite.SubNoMatch | update_site_structure.py:158 | text in which the pattern matches nowhere is left as it is |
| Rewrite.PipelineAppend | update_page_titles.py:32-37 | running two rule lists one after the other is running their concatenation |
| Rewrite.LiteralPipeline | update_site_structure.py:170-171 | the `re.sub` loop over a plain-text table is the chain of `str.replace` calls in table order |
| Rewrite.ChainUntouched | update_page_titles.py:39-43 | content holding none of the old strings comes out unchanged |
| Rewrite.ChainClears | update_page_titles.py:10-21 | after a settled table runs, none of its old strings is left in the text |
| Rewrite.PipelineIdempotent | update_page_titles.py:10-37 | a settled plain-text table run a second time changes nothing |
| Rewrite.SpanNoClose | update_site_structure.py:157-158 | a page without `</nav>` is left as it is, even if it has an opening tag |
| Rewrite.SpanReplaced | update_site_structure.py:157-158 | the first span from the opening tag to the nearest following close is replaced and the text before it is kept |
| Rewrite.SpanIdempotent | update_site_structure.py:157-158 | a span rule whose replacement is exactly one complete span is idempotent |
| Rewrite.SubSameCaption | tools/update_navigation_labels.py:13 | a relabelling rule whose new label is its old label never changes a page |
| Rewrite.AnchorAbsent | update_site_structure.py:195-196 | a link rule leaves a page alone when its label never stands between `">` and `</a>` |
| Anchors.AnchorMatches | tools/update_navigation_labels.py:42-46 | the link pattern matches a link whose `href` ends with the suffix and whose class and label are the pattern's, covering exactly that link |
| Anchors.AnchorMatchOnly | tools/update_navigation_labels.py:42-46 | the exact-class link pattern matches a plain link only when suffix, class and label all agree, so "1 Color Library" is not matched by "Color" |
| Anchors.SubAnchorKept | tools/update_navigation_labels.py:42-50 | a link with another label, class or `href` suffix is kept verbatim, as is the text before it |
| Anchors.SubRelabel | tools/update_navigation_labels.py:42-46 | group 1, the new label and group 2 rebuild the link with the same `href` and class and the new label |
| Anchors.SubWithin | update_site_structure.py:174-196 | `m.group(0).replace(old, new)` changes only the label inside the matched link, keeping `href`, class and the text around the link |
| Markup.TagShapedIsolated | update_page_titles.py:10-21 | replacing with one element cannot create or complete another element that is not a prefix of it |
| Bulk.UpdateAll | update_page_titles.py:48-59 | the loop over the listed pages computes the tree, the count and the written pages of the specification `RunAll` |
| Bulk.RunAllEffect | update_page_titles.py:48-59 | with a repetition-free listing, no file is created or removed, listed pages hold their update, others are unchanged, exactly the changed pages are written, and the count is their number |
| SiteStructure.BasePathClosedForm | update_site_structure.py:127-139 | the four branches amount to one `../` per path component beyond the second, and none for shorter paths |
| SiteStructure.BasePath | update_site_structure.py:127-139 | the corrected prefix has three characters per directory the page is in |
| SiteStructure.BasePathOneShort | update_site_structure.py:127-139 | for every page below the root, the prefix as written is one `../` shorter than the one that reaches the root |
| SiteStructure.BasePathIsRootPrefix | update_site_structure.py:127-139 | for clean relative paths, the corrected prefix is the prefix `get_root_prefix` computes |
| SiteStructure.BasePathTop | update_site_structure.py:132-133 | `index.html` and every other root page get no prefix |
| SiteStructure.BasePathOneDown | update_site_structure.py:134-135 | `components/x.html` gets `""` although the root is one level up |
| SiteStructure.BasePathTwoDown | update_site_structure.py:136-137 | `foundations/typography/x.html` gets `../` although the root is two levels up |
| SiteStructure.NavRendering | update_site_structure.py:153 | `.format(base_path=...)` replaces every `{base_path}` of the navigation markup and keeps the indentation and the tags |
| SiteStructure.NavReplaced | update_site_structure.py:157-158 | the first navigation block is replaced by the new one, the text before it is kept, and text without `</nav>` is kept |
| SiteStructure.NavReindents | update_site_structure.py:153-158 | on any page whose text before the first `<nav class="sidebar-nav">` holds no other such tag, the inserted block carries twelve spaces of indentation outside the matched span, so a second run adds twelve more characters |
| SiteStructure.NavigationEditGrows | update_site_structure.py:150-202 | a page with one navigation block, no old section title and no old label between `">` and `</a>` gets the rendered block on the first run and the same block twelve spaces further in on the second, so the second run finds it changed and writes it again |
| SiteStructure.BareNavGrows | update_site_structure.py:150-202 | an empty navigation block, filled with a list that has no `</nav>` and nothing to rename once its prefix is in, becomes the indented rendered block on the first run and grows by twelve characters on the second |
| SiteStructure.GtWalsheimPageGrows | update_site_structure.py:150-202 | with a list holding one `nav-link` anchor captioned `Typography: GT Walsheim`, the caption of the template's line 25, an empty navigation block becomes that list in the block indented twelve spaces, and a second run makes the page twelve characters longer |
| SiteStructure.GtWalsheimBlockClean | update_site_structure.py:174-196 | a `nav-link` anchor captioned `Typography: GT Walsheim` (the caption of line 25) holds no `</nav>`, and the navigation block made from it holds no old section title and no old label between `">` and `</a>` |
| SiteStructure.CorrectedNavIdempotent | update_site_structure.py:157-158 | with the indentation left out of the replacement, a second run leaves every page as the first left it |
| SiteStructure.SectionTitlesSettled | update_site_structure.py:161-168 | no new section title can create or complete an old one |
| SiteStructure.SectionTitlesReplace | update_site_structure.py:161-171 | the title loop is three `str.replace` calls in table order, and a page without the old titles is unchanged |
| SiteStructure.SectionTitlesIdempotent | update_site_structure.py:161-171 | renaming the section titles twice is renaming them once |
| SiteStructure.LinkRelabelled | update_site_structure.py:174-196 | each link rule turns a matching `nav-link...` anchor into the same anchor with the new label and keeps the text before it |
| SiteStructure.LinkRulesAbsent | update_site_structure.py:174-196 | a page where no old label stands between `">` and `</a>` is left as it is by the link rules |
| SiteStructure.UpdateNavigationInFile | update_site_structure.py:141-205 | the new text is the nav replacement, then the section rules, then the link rules, or the old text when `.format` raises; `changed` holds exactly when it differs |
| SiteStructure.NavigationEditBlock | update_site_structure.py:150-196 | the first navigation block is replaced by the template rendered with the page's base path, the text around it is kept, and then titles and labels are renamed |
| SiteStructure.NavigationEditUntouched | update_site_structure.py:198-202 | a page with no `</nav>`, no old section title and no old label between `">` and `</a>` is not changed, so it is not written |
| SiteStructure.UpdateSite | update_site_structure.py:207-218 | `main` rewrites exactly the listed pages whose text changes, keeps the others and counts the written pages |
| PageTitles.UpdateFile | update_page_titles.py:23-46 | the two loops compute the title rules then the heading rules, and `changed` holds exactly when the text differs |
| PageTitles.UpdateTitles | update_page_titles.py:48-59 | `main` rewrites exactly the listed pages whose titles change and counts them |
| PageTitles.TitlesInOrder | update_page_titles.py:32-37 | the update is six `str.replace` calls: the three title pairs in order, then the three heading pairs |
| PageTitles.TitlesUntouched | update_page_titles.py:39-43 | a page with none of the six old elements keeps its text and is not written |
| PageTitles.TitleTableSettled | update_page_titles.py:10-14 | no new `<title>` element can create or complete an old one |
| PageTitles.HeadingTableSettled | update_page_titles.py:17-21 | no new `<h1>` element can create or complete an old one |
| PageTitles.TablesApart | update_page_titles.py:10-21 | no new heading can create or complete an old title |
| PageTitles.TitlesIdempotent | update_page_titles.py:10-37 | updating the titles of a page a second time changes nothing |
| NavigationLabels.ApplyTable | tools/update_navigation_labels.py:37-50 | the nested loops over the table and its two patterns compute the table's substitutions in order |
| NavigationLabels.UpdateNavigationInFile | tools/update_navigation_labels.py:28-57 | the new text is the table's substitutions applied to the page, and `changed` holds exactly when it differs |
| NavigationLabels.UpdateLabels | tools/update_navigation_labels.py:62-73 | `main` rewrites exactly the listed pages whose labels change and counts them |
| NavigationLabels.LinkRelabelled | tools/update_navigation_labels.py:42-46 | one link passes through a rule relabelled when the rule matches it and verbatim otherwise |
| NavigationLabels.SubPieces | tools/update_navigation_labels.py:49-50 | a link rule rewrites a page piece by piece: markup is kept, and each link is relabelled or kept on its own |
| NavigationLabels.PipelinePieces | tools/update_navigation_labels.py:37-50 | the whole rule list also acts piece by piece |
| NavigationLabels.PieceAfterTable | tools/update_navigation_labels.py:37-50 | the table's rules give a link of class `nav-link` or `nav-link active` its chained label and keep every other piece |
| NavigationLabels.ChainLabelMiss | tools/update_navigation_labels.py:37-50 | a label that is no key of the table is kept |
| NavigationLabels.ChainLabelHit | tools/update_navigation_labels.py:11-20 | with distinct keys and no new label equal to another key, a key's label ends up as that entry's value, whatever the entries' order |
| NavigationLabels.NavUnchained | tools/update_navigation_labels.py:11-20 | no new label of `nav_updates` is the key of another entry |
| NavigationLabels.NavUpdatesDictionary | tools/update_navigation_labels.py:11-20 | `nav_updates` acts as a dictionary: a key's label becomes its value and any other label is kept |
| NavigationLabels.LabelsOnPage | tools/update_navigation_labels.py:28-57 | on a page of markup and links, every `nav-link` or `nav-link active` link gets its dictionary label; other links and all markup are kept |
| NavigationLabels.EffectsUnchanged | tools/update_navigation_labels.py:13 | the `'Effects': 'Effects'` entry never changes a page |
| TypographyNav.LinkTarget | tools/update_typography_nav.py:18-29 | the target is one of four `href`s, and `foundations/typography.html` only for the exact path `index.html` |
| TypographyNav.ReplacementIsTarget | tools/update_typography_nav.py:18-29 | each `'x/' in p or p.startswith('x/')` test is the containment test alone; the `foundations/` test wins over the others |
| TypographyNav.UpdateTypographyNav | tools/update_typography_nav.py:8-40 | the new text is the collapse rewrite with the link chosen for the path, and `changed` holds exactly when it differs |
| TypographyNav.UpdateTypography | tools/update_typography_nav.py:42-62 | the walk rewrites the pages `WalkFiles` lists, in walk order, and records exactly the changed ones |
| TypographyNav.UpdateDirectory | tools/update_typography_nav.py:54-58 | the inner loop extends the run by the directory's `.html` files in listing order |
| TypographyNav.UpdatePage | tools/update_typography_nav.py:56-58 | one page is updated and appended to `updated` exactly when its text changed |
| TypographyNav.HtmlPathsExactly | tools/update_typography_nav.py:54-56 | a directory contributes exactly its `.html` files joined to its path |
| TypographyNav.WalkFilesListed | tools/update_typography_nav.py:47-57 | every `.html` file of a directory that is not skipped is processed |
| TypographyNav.WalkFilesFrom | tools/update_typography_nav.py:47-57 | every processed page is an `.html` file of a directory that is not skipped |
| TypographyNav.IndexBranchDead | tools/update_typography_nav.py:56 | a joined path holds a `/`, so the walk never produces the exact path `index.html` |
| TypographyNav.MetaBranchDead | tools/update_typography_nav.py:49-56 | a processed page never contains `tools/meta/`, so the fourth test never holds in `main` |
| TypographyNav.RootIndexFallsThrough | tools/update_typography_nav.py:26-29 | the walked root page `./index.html` gets `typography.html`, while `index.html` would get `foundations/typography.html` |
| TypographyNav.OtherDirectoriesFallThrough | tools/update_typography_nav.py:18-29 | pages under `./meta/` and `./product-specific/` pass none of the directory tests and also get `typography.html` |
| TypographyNav.CorrectedRootIndex | tools/update_typography_nav.py:26-29 | with the walk's `./` removed, the root page links into `foundations/` and every other page keeps its link |
| SyncDocs.RootPrefixDepth | tools/sync_docs.py:9-11 | the prefix is one `../` per separator, three characters each, and the `depth > 0` guard never changes the result |
| SyncDocs.RootPrefixTop | tools/sync_docs.py:9-11 | a page at the root gets no prefix |
| SyncDocs.RootPrefixOneDown | tools/sync_docs.py:9-11 | a page one directory down gets `../` |
| SyncDocs.SidebarMarkers | tools/sync_docs.py:38-39 | the sidebar comment markers begin alike, hold no line break, and neither is a prefix of the other |
| SyncDocs.HeaderMarkers | tools/sync_docs.py:57-58 | the header comment markers begin alike, hold no line break, and neither is a prefix of the other |
| SyncDocs.InjectWellFormed | tools/sync_docs.py:38-42 | with one start marker followed by one end marker, the text outside the markers is kept and the partial sits between them on lines of its own |
| SyncDocs.InjectMissingEnd | tools/sync_docs.py:40-41 | a start marker with no end marker before the next start marker (or the end) raises `IndexError` |
| SyncDocs.InjectTruncates | tools/sync_docs.py:40-42 | with repeated markers, only the text before the first start and between the first and second marker after it survive |
| SyncDocs.InjectIdempotent | tools/sync_docs.py:40-42 | on a page with one well-ordered marker pair and a partial without markers, injecting twice is injecting once |
| SyncDocs.SidebarRendering | tools/sync_docs.py:37 | the sidebar is the template with every `{ROOT}` replaced by the prefix and the text between kept |
| SyncDocs.ChangelogLink | tools/sync_docs.py:46-56 | a header whose only field is `{CHANGELOG_URL}` renders with each such field replaced by the prefix followed by `meta/changelog.html` |
| SyncDocs.ChangelogField | tools/sync_docs.py:46-56 | wherever `{CHANGELOG_URL}` stands among the header's nine fields, the plain text before it is kept, it becomes the prefix followed by `meta/changelog.html`, and the rest renders with the same values or fails as it would alone |
| SyncDocs.ProcessUnmarked | tools/sync_docs.py:35-45 | a page without either start marker comes out unchanged |
| SyncDocs.ProcessSidebarPage | tools/sync_docs.py:35-45 | a page with one sidebar marker pair and no header marker gets the sidebar rendered for its depth, and nothing else changes |
| SyncDocs.ProcessBothPairs | tools/sync_docs.py:35-56 | a page with a sidebar marker pair followed by a header marker pair gets the sidebar rendered for its depth in the first and the formatted header in the second, and the text before, between and after the blocks is kept |
| SyncDocs.ProcessNoHeader | tools/sync_docs.py:44-45 | the header step keeps a page without a header start marker |
| SyncDocs.FilesToProcess | tools/sync_docs.py:21-26 | the list is `index.html` followed by the `.html` files of each existing target directory, in order |
| SyncDocs.ListedShape | tools/sync_docs.py:22-26 | every listed page is an `.html` file exactly one directory down |
| SyncDocs.FilesToProcessPrefixes | tools/sync_docs.py:21-33 | every processed page gets the prefix `""` (the root index) or `../` |
| SyncDocs.StepWrites | tools/sync_docs.py:28-64 | a step without an exception follows a run without one and writes its page |
| SyncDocs.SyncRunStops | tools/sync_docs.py:28-64 | once an exception is raised, later pages are neither visited nor written |
| SyncDocs.SyncWritesAll | tools/sync_docs.py:63-64 | when no exception is raised, every processed page is written back, changed or not |
| SyncDocs.Sync | tools/sync_docs.py:13-66 | `sync` builds the page list and processes and writes the pages in order until the first exception |
| FoundationPages.PageLayout | create_foundation_pages.py:126-159 | the page holds, in order and with nothing between them, the head, the title followed by the site suffix, the navigation between the sidebar tags, and the heading, lead paragraph and copy; it ends with the closing text |
| FoundationPages.TitlesSuffixed | create_foundation_pages.py:164-373 | every title of the `pages` table already ends with ` - GCC Design System` |
| FoundationPages.TitleSuffixTwice | create_foundation_pages.py:131 | every generated `<title>` carries the site suffix twice |
| FoundationPages.CorrectedPage | create_foundation_pages.py:131 | the corrected template adds the suffix only to a title that lacks it |
| FoundationPages.CorrectedTitles | create_foundation_pages.py:131 | with the correction, each page's `<title>` is its table title exactly |
| FoundationPages.PagePathInjective | create_foundation_pages.py:382 | distinct file names give distinct paths under `foundations/` |
| FoundationPages.PagesDistinct | create_foundation_pages.py:164-373 | the table's file names are distinct |
| FoundationPages.CreateMissing | create_foundation_pages.py:380-402 | the loop computes `CreateAll` and, with distinct names, keeps every existing file, adds exactly the missing pages and counts them |
| FoundationPages.CreateFoundationPages | create_foundation_pages.py:375-402 | `main` over the seven pages keeps existing files, creates exactly the missing ones and counts them |
| FoundationPages.CreateAllEffect | create_foundation_pages.py:380-402 | with distinct file names, existing files are byte-identical, missing pages hold their rendering, and `created_count` is the number of missing pages |
| FoundationPages.NothingMissing | create_foundation_pages.py:384-400 | once every page exists, `main` writes and counts nothing |
| FoundationPages.CreateAllCovers | create_foundation_pages.py:381-400 | after any run every page of the table exists and every file found is still there |
| FoundationPages.Rerun | create_foundation_pages.py:375-402 | a second run creates nothing and leaves the tree as the first run left it |
| FoundationPages.FreshSite | create_foundation_pages.py:380-402 | on a site without any of the pages, all seven are created in table order |

## Left out

- File I/O, `mkdir`, `os.path.exists` and every `print` are not modelled. The site is a map, a write is a map update, and existence is map membership.
- The order of `Path.rglob`, `os.walk` and `os.listdir` is not modelled. Each is a sequence parameter. The whole-site properties assume a listing without repetitions, which these calls guarantee.
- `datetime.now()` at tools/sync_docs.py:7 is a `today` parameter.
- The partial templates `tools/partials/sidebar.html` and `component-header.html` are not part of this model. Their text is a parameter.
- The navigation markup that `get_new_nav_html` and `get_nav_html` return is a parameter, apart from the twelve-space indentation and the `nav` tags. This is over a hundred lines of list items. So the claim that every `href` in the foundation navigation starts with `../` is not stated.
- FoundationPages.CreateFoundationPage: states no contract of its own. Its layout is stated by `PageLayout` over the template's fixed text. The body does not read `filename`, like the unused `active_class` and `page_name` locals at create_foundation_pages.py:123-124.
- The `content` copy of the seven foundation pages is left unspecified. No property depends on it.
- The DOTALL multi-`.*?` regex of tools/update_typography_nav.py:32-34 is not modelled. It is the `collapse` parameter, and the properties are about the link it is given and the pages it is applied to. The unused pattern at line 15 is not modelled.
- The `typography_labels` dictionary at tools/update_navigation_labels.py:22-26 is never used by the script and is not modelled.
- The `try`/`except` handlers of update_site_structure.py, update_page_titles.py and tools/update_navigation_labels.py only print and return `False`. Of the exceptions the modelled text can raise inside them, the model covers the `.format` error at update_site_structure.py:153 and takes the handler's path for it. tools/sync_docs.py has no handler: its `IndexError` at line 41 and the header's `.format` errors at lines 46-56 stop the run, which the model states with `SyncError` and `SyncDocs.SyncRunStops`. Unreadable files and encoding errors are outside the model.
- TypographyNav.UpdateTypography: a listed page missing from the tree is passed over, as in the other bulk scripts. tools/update_typography_nav.py has no handler, so there `open` would raise and end the run. `os.walk` lists only files that exist, so this does not arise for the listing it produces.
- Template.Format: a format spec (`{name:spec}`), a conversion (`{name!r}`), an attribute or index field (`{a.b}`, `{a[0]}`), a positional field (`{}`, `{0}`) and nested fields are read as plain key names. None of the templates in the model uses them.
- `os.sep` is `/`. `Path(...).parts` is modelled for relative paths, which is what `rglob` yields.
- TypographyNav.LinkTarget: states only that `foundations/typography.html` implies the exact path `index.html`. The converse is stated for `ReplacementLink` by `RootIndexFallsThrough`.
- Navigation links with attributes other than `href` and `class` fall outside `NavigationLabels.Piece`. The script does not match them, but that is stated only through `Anchors.AnchorMatchOnly` for plain links.
- `assets/js/script.js` is browser UI code (DOM events, `window.innerWidth`) and is not modelled.

## Findings

| source | as written | input that shows it | evidently intended | confidence | as-written member | corrected member |
|---|---|---|---|---|---|---|
| update_site_structure.py:12 | the new navigation text starts with twelve spaces, which lie outside the span `<nav class="sidebar-nav">.*?</nav>` that is replaced | a page whose only navigation block is empty, rendered with a list holding an anchor captioned `Typography: GT Walsheim` as the template does, run twice: the second run inserts twelve more spaces, so the page is rewritten and counted again | rerunning the script leaves pages unchanged | not executed | SiteStructure.NavReindents, SiteStructure.NavigationEditGrows, SiteStructure.GtWalsheimPageGrows | SiteStructure.CorrectedNavIdempotent |
| update_site_structure.py:127-139 | `depth = len(parts) - 1` counts the file name's level, so `depth == 1` is a page one directory down, not `index.html` | `components/button.html` gets `""` and `foundations/typography/gt-walsheim.html` gets `../` | one `../` per directory, as `get_root_prefix` computes | not executed | SiteStructure.BasePathOneDown | SiteStructure.BasePathIsRootPrefix |
| tools/update_typography_nav.py:26-29 | the root-index test compares with `'index.html'`, but `os.walk('.')` produces `./index.html` | `./index.html` falls through to `typography.html`, a file that does not exist at the root | the root page links to `foundations/typography.html` | not executed | TypographyNav.RootIndexFallsThrough | TypographyNav.CorrectedRootIndex |
| create_foundation_pages.py:131 | the template appends ` - GCC Design System` to `title`, which already ends with it | the `effects.html` entry renders `<title>Effects - GCC Design System - GCC Design System</title>` | the suffix appears once | not executed | FoundationPages.TitleSuffixTwice | FoundationPages.CorrectedTitles |
