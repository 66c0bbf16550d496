/**
 * `tools/sync_docs.py`: re-inject the shared sidebar and component-header
 * partials between comment markers in every page of the site.
 */
module SyncDocs {
  import opened Text
  import opened Template
  import Bulk
  import Markup

  const TargetDirs: seq<string> := ["components", "foundations", "patterns", "product-specific", "meta"]
  const SidebarStart := "<!-- GCC:SIDEBAR_START -->"
  const SidebarEnd := "<!-- GCC:SIDEBAR_END -->"
  const HeaderStart := "<!-- GCC:HEADER_START -->"
  const HeaderEnd := "<!-- GCC:HEADER_END -->"
  const RootField := "{ROOT}"

  // ---------------------------------------------------------------------
  // Root prefix

  /** `get_root_prefix`: one `../` per separator in the path (`os.sep` is `/`). */
  function GetRootPrefix(path: string): string {
    var depth := |Split(path, "/")| - 1;
    if depth > 0 then Repeat("../", depth) else ""
  }

  /**
   * The prefix climbs one level per `/` in the path, three characters each;
   * the `depth > 0` guard never changes the result.
   */
  lemma RootPrefixDepth(path: string)
    ensures GetRootPrefix(path) == Repeat("../", CountChar(path, '/'))
    ensures |GetRootPrefix(path)| == 3 * CountChar(path, '/')
  {
    SplitCharCount(path, '/');
    assert "/" == ['/'];
    RepeatLength("../", CountChar(path, '/'));
  }

  /** A page at the root needs no prefix. */
  lemma RootPrefixTop(name: string)
    requires NoChar(name, '/')
    ensures GetRootPrefix(name) == ""
  {
    RootPrefixDepth(name);
    NoCharCount(name, '/');
  }

  /** A page one directory down climbs one level. */
  lemma RootPrefixOneDown(dir: string, name: string)
    requires NoChar(dir, '/') && NoChar(name, '/')
    ensures GetRootPrefix(dir + "/" + name) == "../"
  {
    OneSeparator(dir, name);
    RootPrefixDepth(dir + "/" + name);
    assert Repeat("../", 1) == "../";
  }

  lemma OneSeparator(dir: string, name: string)
    requires NoChar(dir, '/') && NoChar(name, '/')
    ensures CountChar(dir + "/" + name, '/') == 1
  {
    assert dir + "/" + name == dir + ("/" + name);
    CountCharConcat(dir, "/" + name, '/');
    CountCharConcat("/", name, '/');
    NoCharCount(dir, '/');
    NoCharCount(name, '/');
    assert CountChar("/", '/') == 1 + CountChar("", '/');
  }

  lemma {:induction false} CountCharConcat(a: string, b: string, c: char)
    decreases |a|
    ensures CountChar(a + b, c) == CountChar(a, c) + CountChar(b, c)
  {
    if a != [] {
      assert (a + b)[1..] == a[1..] + b;
      CountCharConcat(a[1..], b, c);
    } else {
      assert a + b == b;
    }
  }

  // ---------------------------------------------------------------------
  // Marker injection

  datatype SyncError =
      /** `parts[1].split(end_marker)[1]` with no end marker: `IndexError`. */
    | IndexError
      /** `open(file_path)` on a page that does not exist. */
    | FileNotFound(path: string)
      /** `header_template.format(...)` raised. */
    | FormatFailed(error: FormatError)

  /**
   * One injection step: keep the text before the first `start`, and from the
   * text between the first and second `start` (or the end) keep what follows
   * its first `end`.
   */
  function Inject(content: string, start: string, end: string, rendered: string): Result<string, SyncError>
    requires |start| > 0 && |end| > 0
  {
    if !Contains(content, start) then Ok(content)
    else
      var parts := Split(content, start);
      var pieces := Split(parts[1], end);
      if |pieces| < 2 then Err(IndexError)
      else Ok(parts[0] + start + "\n" + rendered + "\n" + end + pieces[1])
  }

  /** A comment marker: its first character occurs nowhere else in it, and it holds no line break. */
  predicate Marker(x: string) {
    LoneLead(x) && NoChar(x, '\n')
  }

  /** Two markers that begin alike and neither of which is a prefix of the other. */
  predicate MarkerPair(start: string, end: string) {
    Marker(start) && Marker(end) && start[0] == end[0] && !PrefixRelated(start, end)
  }

  /** Neither marker occurs in `s`. */
  predicate Unmarked(s: string, start: string, end: string) {
    !Contains(s, start) && !Contains(s, end)
  }

  /** The sidebar comment markers form a marker pair. */
  lemma SidebarMarkers()
    ensures MarkerPair(SidebarStart, SidebarEnd)
  {
    SidebarStartMarker();
    SidebarEndMarker();
    Markup.DifferAt(SidebarStart, SidebarEnd, 17);
  }

  /** The header comment markers form a marker pair. */
  lemma HeaderMarkers()
    ensures MarkerPair(HeaderStart, HeaderEnd)
  {
    HeaderStartMarker();
    HeaderEndMarker();
    Markup.DifferAt(HeaderStart, HeaderEnd, 16);
  }

  lemma SidebarStartMarker()
    ensures Marker(SidebarStart)
  {
  }

  lemma SidebarEndMarker()
    ensures Marker(SidebarEnd)
  {
  }

  lemma HeaderStartMarker()
    ensures Marker(HeaderStart)
  {
  }

  lemma HeaderEndMarker()
    ensures Marker(HeaderEnd)
  {
  }

  /** Gluing unmarked texts around one marker of the pair does not create the other. */
  lemma GlueUnmarked(a: string, y: string, b: string, start: string, end: string)
    requires MarkerPair(start, end) && Unmarked(a, start, end) && Unmarked(b, start, end)
    ensures !Contains(a + end + b, start)
    ensures !Contains(a + start + b, end)
  {
    LoneLeadIsolated(start, end);
    LoneLeadIsolated(end, start);
    ConcatNoOccur(a, end, b, start);
    ConcatNoOccur(a, start, b, end);
  }

  /**
   * A page with exactly one start marker followed by exactly one end marker:
   * the text before the start marker and after the end marker is kept, and
   * the rendered partial sits between the markers on lines of its own.
   */
  lemma InjectWellFormed(pre: string, mid: string, post: string, start: string, end: string, rendered: string)
    requires MarkerPair(start, end)
    requires Unmarked(pre, start, end) && Unmarked(mid, start, end) && Unmarked(post, start, end)
    ensures Inject(pre + start + mid + end + post, start, end, rendered) ==
      Ok(pre + start + "\n" + rendered + "\n" + end + post)
  {
    var x := mid + end + post;
    assert pre + start + mid + end + post == pre + start + x;
    GlueUnmarked(mid, [], post, start, end);
    SplitNone(x, start);
    SplitOnce(mid, end, post);
    SplitNone(post, end);
    InjectAt(pre, x, x, post, start, end, rendered);
  }

  /**
   * A start marker with no end marker before the next start marker (or the
   * end of the page) makes `split(end_marker)[1]` raise `IndexError`.
   */
  lemma InjectMissingEnd(pre: string, mid: string, tail: string, start: string, end: string, rendered: string)
    requires MarkerPair(start, end) && !Contains(pre, start) && Unmarked(mid, start, end)
    requires tail == [] || start <= tail
    ensures Inject(pre + start + mid + tail, start, end, rendered) == Err(IndexError)
  {
    var x := mid + tail;
    assert pre + start + mid + tail == pre + start + x;
    if tail == [] {
      assert x == mid;
      SplitNone(mid, start);
    } else {
      assert x == mid + start + tail[|start|..];
      SplitOnce(mid, start, tail[|start|..]);
    }
    SplitNone(mid, end);
    InjectErrAt(pre, x, mid, start, end, rendered);
  }

  /** Injection after the first start marker fails when the text up to the next one holds no end marker. */
  lemma InjectErrAt(pre: string, x: string, upto: string, start: string, end: string, rendered: string)
    requires MarkerPair(start, end) && !Contains(pre, start)
    requires Split(x, start)[0] == upto && Split(upto, end) == [upto]
    ensures Inject(pre + start + x, start, end, rendered) == Err(IndexError)
  {
    SplitOnce(pre, start, x);
  }

  /**
   * With repeated markers, only the text before the first start marker and
   * the text between the first and the next marker after it survive:
   * everything from that next marker on is dropped.
   */
  lemma InjectTruncates(pre: string, mid: string, post: string, stop: string, rest: string,
                        start: string, end: string, rendered: string)
    requires MarkerPair(start, end)
    requires Unmarked(pre, start, end) && Unmarked(mid, start, end) && Unmarked(post, start, end)
    requires stop == start || (stop == end && !Contains(rest, start))
    ensures Inject(pre + start + mid + end + post + stop + rest, start, end, rendered) ==
      Ok(pre + start + "\n" + rendered + "\n" + end + post)
  {
    var kept := mid + end + post;
    var x := kept + stop + rest;
    assert pre + start + mid + end + post + stop + rest == pre + start + x;
    GlueUnmarked(mid, [], post, start, end);
    if stop == start {
      TruncatedAtStart(mid, post, rest, start, end);
      InjectAt(pre, x, kept, post, start, end, rendered);
    } else {
      TruncatedAtEnd(mid, post, rest, start, end);
      InjectAt(pre, x, x, post, start, end, rendered);
    }
  }

  /** A second start marker ends the text the first one opens. */
  lemma TruncatedAtStart(mid: string, post: string, rest: string, start: string, end: string)
    requires MarkerPair(start, end) && Unmarked(mid, start, end) && Unmarked(post, start, end)
    requires !Contains(mid + end + post, start)
    ensures Split(mid + end + post + start + rest, start)[0] == mid + end + post
    ensures Split(mid + end + post, end) == [mid, post]
  {
    SplitOnce(mid + end + post, start, rest);
    SplitOnce(mid, end, post);
    SplitNone(post, end);
  }

  /** After a second end marker, the text holds no start marker, and `split` keeps only what lies between the two. */
  lemma TruncatedAtEnd(mid: string, post: string, rest: string, start: string, end: string)
    requires MarkerPair(start, end) && Unmarked(mid, start, end) && Unmarked(post, start, end)
    requires !Contains(mid + end + post, start) && !Contains(rest, start)
    ensures Split(mid + end + post + end + rest, start)[0] == mid + end + post + end + rest
    ensures |Split(mid + end + post + end + rest, end)| >= 2
    ensures Split(mid + end + post + end + rest, end)[1] == post
  {
    LoneLeadIsolated(start, end);
    ConcatNoOccur(mid + end + post, end, rest, start);
    SplitNone(mid + end + post + end + rest, start);
    SecondEnd(mid, post, rest, end);
  }

  /** Split at the end marker, text holding it twice yields what lies between the two as its second part. */
  lemma SecondEnd(mid: string, post: string, rest: string, end: string)
    requires LoneLead(end) && !Contains(mid, end) && !Contains(post, end)
    ensures |Split(mid + end + post + end + rest, end)| >= 2
    ensures Split(mid + end + post + end + rest, end)[1] == post
  {
    assert mid + end + post + end + rest == mid + end + (post + end + rest);
    SplitOnce(mid, end, post + end + rest);
    SplitOnce(post, end, rest);
  }

  /** Injection after the first start marker, given the text up to the next one and what follows its first end marker. */
  lemma InjectAt(pre: string, x: string, upto: string, piece: string, start: string, end: string, rendered: string)
    requires MarkerPair(start, end) && !Contains(pre, start)
    requires Split(x, start)[0] == upto
    requires |Split(upto, end)| >= 2 && Split(upto, end)[1] == piece
    ensures Inject(pre + start + x, start, end, rendered) == Ok(pre + start + "\n" + rendered + "\n" + end + piece)
  {
    SplitOnce(pre, start, x);
  }

  /** A partial wrapped in line breaks holds a marker only if the partial does. */
  lemma WrapUnmarked(rendered: string, start: string, end: string)
    requires MarkerPair(start, end) && Unmarked(rendered, start, end)
    ensures Unmarked("\n" + rendered + "\n", start, end)
  {
    NewlinesAdd(rendered, start);
    NewlinesAdd(rendered, end);
  }

  lemma NewlinesAdd(r: string, x: string)
    requires Marker(x) && !Contains(r, x)
    ensures !Contains("\n" + r + "\n", x)
  {
    var t := "\n" + r + "\n";
    forall q | 0 <= q <= |t| ensures !OccursAt(t, x, q) {
      if q + |x| <= |t| {
        if q == 0 {
          assert t[q..q + |x|][0] == '\n';
        } else if q + |x| == |t| {
          assert t[q..q + |x|][|x| - 1] == '\n';
        } else {
          assert t[q..q + |x|] == r[q - 1..q - 1 + |x|];
          assert !OccursAt(r, x, q - 1);
        }
      }
    }
  }

  /**
   * On a page with one well-ordered marker pair, injecting a partial that
   * holds no marker a second time gives the same page again.
   */
  lemma InjectIdempotent(pre: string, mid: string, post: string, start: string, end: string, rendered: string)
    requires MarkerPair(start, end) && Unmarked(rendered, start, end)
    requires Unmarked(pre, start, end) && Unmarked(mid, start, end) && Unmarked(post, start, end)
    ensures var once := Inject(pre + start + mid + end + post, start, end, rendered);
      once.Ok? && Inject(once.value, start, end, rendered) == once
  {
    var wrapped := "\n" + rendered + "\n";
    assert pre + start + "\n" + rendered + "\n" + end + post == pre + start + wrapped + end + post;
    InjectWellFormed(pre, mid, post, start, end, rendered);
    WrapUnmarked(rendered, start, end);
    InjectWellFormed(pre, wrapped, post, start, end, rendered);
  }

  // ---------------------------------------------------------------------
  // Partials

  /** `sidebar_template.replace('{ROOT}', root)`. */
  function RenderSidebar(template: string, root: string): string {
    ReplaceAll(template, RootField, root)
  }

  /** The sidebar is the template with the text between `{ROOT}` placeholders kept and each placeholder replaced by the prefix. */
  lemma SidebarRendering(template: string, root: string)
    ensures RenderSidebar(template, root) == Join(Split(template, RootField), root)
    ensures !Contains(template, RootField) ==> RenderSidebar(template, root) == template
  {
    ReplaceAllIsJoinSplit(template, RootField, root);
  }

  /** The keyword arguments of `header_template.format(...)`. */
  function HeaderFields(root: string, today: string): map<string, string> {
    map[
      "STATUS" := "Stable",
      "STATUS_CLASS" := "stable",
      "OWNER" := "GCC Design System",
      "LAST_UPDATED" := today,
      "LAST_REVIEWED" := today,
      "FIGMA_URL" := "#",
      "IMPLEMENTATION_URL" := "#",
      "CHANGELOG_URL" := root + "meta/changelog.html",
      "ROOT" := root
    ]
  }

  /**
   * A header template whose only field is `{CHANGELOG_URL}` renders with
   * every such field replaced by the page's root prefix followed by
   * `meta/changelog.html`.
   */
  lemma ChangelogLink(template: string, path: string, today: string)
    requires forall i | 0 <= i < |Split(template, Field("CHANGELOG_URL"))| :: BraceFree(Split(template, Field("CHANGELOG_URL"))[i])
    ensures Format(template, HeaderFields(GetRootPrefix(path), today)) ==
      Ok(ReplaceAll(template, Field("CHANGELOG_URL"), GetRootPrefix(path) + "meta/changelog.html"))
  {
    FormatIsReplace(template, "CHANGELOG_URL", HeaderFields(GetRootPrefix(path), today));
  }

  /**
   * Wherever `{CHANGELOG_URL}` stands in a header template among the other
   * fields, the text up to it renders as it is, the field becomes the
   * page's root prefix followed by `meta/changelog.html`, and the rest of
   * the template renders with the same nine values (or fails as it would
   * on its own).
   */
  lemma ChangelogField(a: string, b: string, path: string, today: string)
    requires BraceFree(a)
    ensures var fields := HeaderFields(GetRootPrefix(path), today);
      Format(a + Field("CHANGELOG_URL") + b, fields) ==
      Prepend(a + GetRootPrefix(path) + "meta/changelog.html", Format(b, fields))
  {
    var fields := HeaderFields(GetRootPrefix(path), today);
    var url := GetRootPrefix(path) + "meta/changelog.html";
    assert fields["CHANGELOG_URL"] == url;
    assert BraceFree("CHANGELOG_URL");
    FormatFieldAfter(a, "CHANGELOG_URL", b, fields);
    assert a + url == a + GetRootPrefix(path) + "meta/changelog.html";
  }

  /** Steps 1 and 2 of the loop body of `sync` for one page. */
  function ProcessContent(path: string, content: string, sidebarTemplate: string, headerTemplate: string, today: string)
    : Result<string, SyncError>
  {
    var root := GetRootPrefix(path);
    match Inject(content, SidebarStart, SidebarEnd, RenderSidebar(sidebarTemplate, root))
    case Err(e) => Err(e)
    case Ok(withSidebar) =>
      if !Contains(withSidebar, HeaderStart) then Ok(withSidebar)
      else
        match Format(headerTemplate, HeaderFields(root, today))
        case Err(e) => Err(FormatFailed(e))
        case Ok(header) => Inject(withSidebar, HeaderStart, HeaderEnd, header)
  }

  /** A page without either start marker is written back unchanged. */
  lemma ProcessUnmarked(path: string, content: string, sidebarTemplate: string, headerTemplate: string, today: string)
    requires !Contains(content, SidebarStart) && !Contains(content, HeaderStart)
    ensures ProcessContent(path, content, sidebarTemplate, headerTemplate, today) == Ok(content)
  {
  }

  /**
   * A page with one sidebar marker pair and no header marker gets the
   * sidebar rendered for its depth between the markers and nothing else
   * changes, provided the rendered sidebar holds no marker itself.
   */
  lemma ProcessSidebarPage(path: string, pre: string, mid: string, post: string,
                           sidebarTemplate: string, headerTemplate: string, today: string)
    requires Unmarked(pre, SidebarStart, SidebarEnd) && Unmarked(mid, SidebarStart, SidebarEnd) && Unmarked(post, SidebarStart, SidebarEnd)
    requires !Contains(pre, HeaderStart) && !Contains(post, HeaderStart)
    requires Unmarked(RenderSidebar(sidebarTemplate, GetRootPrefix(path)), SidebarStart, SidebarEnd)
    requires !Contains(RenderSidebar(sidebarTemplate, GetRootPrefix(path)), HeaderStart)
    ensures ProcessContent(path, pre + SidebarStart + mid + SidebarEnd + post, sidebarTemplate, headerTemplate, today) ==
      Ok(pre + SidebarStart + "\n" + RenderSidebar(sidebarTemplate, GetRootPrefix(path)) + "\n" + SidebarEnd + post)
  {
    var r := RenderSidebar(sidebarTemplate, GetRootPrefix(path));
    var out := pre + SidebarStart + "\n" + r + "\n" + SidebarEnd + post;
    SidebarMarkers();
    InjectWellFormed(pre, mid, post, SidebarStart, SidebarEnd, r);
    NoHeaderAfterSidebar(pre, r, post);
    ProcessNoHeader(path, pre + SidebarStart + mid + SidebarEnd + post, sidebarTemplate, headerTemplate, today, out);
  }

  /** Injecting a sidebar without a header marker into a text without one does not create one. */
  lemma NoHeaderAfterSidebar(pre: string, r: string, post: string)
    requires !Contains(pre, HeaderStart) && !Contains(post, HeaderStart) && !Contains(r, HeaderStart)
    ensures !Contains(pre + SidebarStart + "\n" + r + "\n" + SidebarEnd + post, HeaderStart)
  {
    var w := "\n" + r + "\n";
    SidebarMarkers();
    HeaderMarkers();
    NewlinesAdd(r, HeaderStart);
    Markup.DifferAt(HeaderStart, SidebarStart, 9);
    Markup.DifferAt(HeaderStart, SidebarEnd, 9);
    LoneLeadIsolated(HeaderStart, SidebarStart);
    LoneLeadIsolated(HeaderStart, SidebarEnd);
    ConcatNoOccur(pre, SidebarStart, w, HeaderStart);
    ConcatNoOccur(pre + SidebarStart + w, SidebarEnd, post, HeaderStart);
    assert pre + SidebarStart + "\n" + r + "\n" + SidebarEnd + post == pre + SidebarStart + w + SidebarEnd + post;
  }

  /** When the page holds no header marker once the sidebar is in, the header step keeps it. */
  lemma ProcessNoHeader(path: string, content: string, sidebarTemplate: string, headerTemplate: string, today: string, out: string)
    requires Inject(content, SidebarStart, SidebarEnd, RenderSidebar(sidebarTemplate, GetRootPrefix(path))) == Ok(out)
    requires !Contains(out, HeaderStart)
    ensures ProcessContent(path, content, sidebarTemplate, headerTemplate, today) == Ok(out)
  {
  }

  /** A sidebar marker and a header marker part at their tenth character, so neither can straddle the other. */
  lemma MarkerFamiliesIsolated()
    ensures Isolated(SidebarStart, HeaderStart) && Isolated(SidebarStart, HeaderEnd)
    ensures Isolated(SidebarEnd, HeaderStart) && Isolated(SidebarEnd, HeaderEnd)
    ensures Isolated(HeaderStart, SidebarStart) && Isolated(HeaderStart, SidebarEnd)
    ensures Isolated(HeaderEnd, SidebarStart) && Isolated(HeaderEnd, SidebarEnd)
  {
    SidebarMarkers();
    HeaderMarkers();
    Markup.DifferAt(SidebarStart, HeaderStart, 9);
    Markup.DifferAt(SidebarStart, HeaderEnd, 9);
    Markup.DifferAt(SidebarEnd, HeaderStart, 9);
    Markup.DifferAt(SidebarEnd, HeaderEnd, 9);
    Markup.DifferAt(HeaderStart, SidebarStart, 9);
    Markup.DifferAt(HeaderStart, SidebarEnd, 9);
    Markup.DifferAt(HeaderEnd, SidebarStart, 9);
    Markup.DifferAt(HeaderEnd, SidebarEnd, 9);
    LoneLeadIsolated(SidebarStart, HeaderStart);
    LoneLeadIsolated(SidebarStart, HeaderEnd);
    LoneLeadIsolated(SidebarEnd, HeaderStart);
    LoneLeadIsolated(SidebarEnd, HeaderEnd);
    LoneLeadIsolated(HeaderStart, SidebarStart);
    LoneLeadIsolated(HeaderStart, SidebarEnd);
    LoneLeadIsolated(HeaderEnd, SidebarStart);
    LoneLeadIsolated(HeaderEnd, SidebarEnd);
  }

  /** The header block, markers included, adds no sidebar marker to the text around it. */
  lemma HeaderBlockNoSidebar(between: string, hmid: string, post: string)
    requires Unmarked(between, SidebarStart, SidebarEnd) && Unmarked(hmid, SidebarStart, SidebarEnd) && Unmarked(post, SidebarStart, SidebarEnd)
    ensures Unmarked(between + HeaderStart + hmid + HeaderEnd + post, SidebarStart, SidebarEnd)
  {
    MarkerFamiliesIsolated();
    ConcatNoOccur(between, HeaderStart, hmid, SidebarStart);
    ConcatNoOccur(between + HeaderStart + hmid, HeaderEnd, post, SidebarStart);
    ConcatNoOccur(between, HeaderStart, hmid, SidebarEnd);
    ConcatNoOccur(between + HeaderStart + hmid, HeaderEnd, post, SidebarEnd);
  }

  /** The injected sidebar block, markers included, adds no header marker to the text around it. */
  lemma SidebarBlockNoHeader(pre: string, r: string, between: string)
    requires Unmarked(pre, HeaderStart, HeaderEnd) && Unmarked(r, HeaderStart, HeaderEnd) && Unmarked(between, HeaderStart, HeaderEnd)
    ensures Unmarked(pre + SidebarStart + "\n" + r + "\n" + SidebarEnd + between, HeaderStart, HeaderEnd)
  {
    var w := "\n" + r + "\n";
    HeaderMarkers();
    MarkerFamiliesIsolated();
    NewlinesAdd(r, HeaderStart);
    NewlinesAdd(r, HeaderEnd);
    ConcatNoOccur(pre, SidebarStart, w, HeaderStart);
    ConcatNoOccur(pre + SidebarStart + w, SidebarEnd, between, HeaderStart);
    ConcatNoOccur(pre, SidebarStart, w, HeaderEnd);
    ConcatNoOccur(pre + SidebarStart + w, SidebarEnd, between, HeaderEnd);
    assert pre + SidebarStart + "\n" + r + "\n" + SidebarEnd + between == pre + SidebarStart + w + SidebarEnd + between;
  }

  /** The sidebar step on a page whose sidebar pair comes before a header pair. */
  lemma SidebarBeforeHeader(pre: string, mid: string, between: string, hmid: string, post: string, r: string)
    requires Unmarked(pre, SidebarStart, SidebarEnd) && Unmarked(mid, SidebarStart, SidebarEnd)
    requires Unmarked(between, SidebarStart, SidebarEnd) && Unmarked(hmid, SidebarStart, SidebarEnd) && Unmarked(post, SidebarStart, SidebarEnd)
    ensures Inject(pre + SidebarStart + mid + SidebarEnd + between + HeaderStart + hmid + HeaderEnd + post, SidebarStart, SidebarEnd, r) ==
      Ok((pre + SidebarStart + "\n" + r + "\n" + SidebarEnd + between) + HeaderStart + hmid + HeaderEnd + post)
  {
    var tail := between + HeaderStart + hmid + HeaderEnd + post;
    SidebarMarkers();
    HeaderBlockNoSidebar(between, hmid, post);
    RegroupTail(pre + SidebarStart + mid + SidebarEnd, between, HeaderStart, hmid, HeaderEnd, post);
    InjectWellFormed(pre, mid, tail, SidebarStart, SidebarEnd, r);
    RegroupTail(pre + SidebarStart + "\n" + r + "\n" + SidebarEnd, between, HeaderStart, hmid, HeaderEnd, post);
  }

  lemma StandsAfter(a: string, x: string, b: string)
    ensures Contains(a + x + b, x)
  {
    assert (a + x + b)[|a|..|a| + |x|] == x;
    assert OccursAt(a + x + b, x, |a|);
  }

  lemma RegroupTail(a: string, b: string, c: string, d: string, e: string, f: string)
    ensures a + b + c + d + e + f == a + (b + c + d + e + f)
  {
  }

  /**
   * A page with a sidebar marker pair followed by a header marker pair gets
   * both partials: the sidebar rendered for its depth between the first
   * pair, the formatted header between the second, and the text around
   * and between the blocks kept, provided neither partial holds a marker.
   */
  lemma ProcessBothPairs(path: string, pre: string, mid: string, between: string, hmid: string, post: string,
                         sidebarTemplate: string, headerTemplate: string, today: string, header: string)
    requires Unmarked(pre, SidebarStart, SidebarEnd) && Unmarked(mid, SidebarStart, SidebarEnd)
    requires Unmarked(between, SidebarStart, SidebarEnd) && Unmarked(hmid, SidebarStart, SidebarEnd) && Unmarked(post, SidebarStart, SidebarEnd)
    requires Unmarked(pre, HeaderStart, HeaderEnd) && Unmarked(between, HeaderStart, HeaderEnd)
    requires Unmarked(hmid, HeaderStart, HeaderEnd) && Unmarked(post, HeaderStart, HeaderEnd)
    requires Unmarked(RenderSidebar(sidebarTemplate, GetRootPrefix(path)), SidebarStart, SidebarEnd)
    requires Unmarked(RenderSidebar(sidebarTemplate, GetRootPrefix(path)), HeaderStart, HeaderEnd)
    requires Format(headerTemplate, HeaderFields(GetRootPrefix(path), today)) == Ok(header)
    ensures ProcessContent(path, pre + SidebarStart + mid + SidebarEnd + between + HeaderStart + hmid + HeaderEnd + post,
                           sidebarTemplate, headerTemplate, today) ==
      Ok(pre + SidebarStart + "\n" + RenderSidebar(sidebarTemplate, GetRootPrefix(path)) + "\n" + SidebarEnd +
         between + HeaderStart + "\n" + header + "\n" + HeaderEnd + post)
  {
    var r := RenderSidebar(sidebarTemplate, GetRootPrefix(path));
    var p := pre + SidebarStart + "\n" + r + "\n" + SidebarEnd + between;
    SidebarBeforeHeader(pre, mid, between, hmid, post, r);
    StandsAfter(p, HeaderStart, hmid + HeaderEnd + post);
    assert p + HeaderStart + (hmid + HeaderEnd + post) == p + HeaderStart + hmid + HeaderEnd + post;
    HeaderMarkers();
    SidebarBlockNoHeader(pre, r, between);
    InjectWellFormed(p, hmid, post, HeaderStart, HeaderEnd, header);
    assert p + HeaderStart + "\n" + header + "\n" + HeaderEnd + post ==
      pre + SidebarStart + "\n" + r + "\n" + SidebarEnd + between + HeaderStart + "\n" + header + "\n" + HeaderEnd + post;
  }

  // ---------------------------------------------------------------------
  // The file list and the main loop

  /** The `.html` names of a listing, joined to their directory. */
  function HtmlIn(dir: string, names: seq<string>): seq<string>
    decreases |names|
  {
    if names == [] then []
    else
      var n := names[|names| - 1];
      HtmlIn(dir, names[..|names| - 1]) + (if EndsWith(n, ".html") then [dir + "/" + n] else [])
  }

  /** The pages contributed by the existing ones of `dirs`; `listing` maps each existing directory to its `os.listdir` order. */
  function Listed(listing: map<string, seq<string>>, dirs: seq<string>): seq<string>
    decreases |dirs|
  {
    if dirs == [] then []
    else
      var d := dirs[|dirs| - 1];
      Listed(listing, dirs[..|dirs| - 1]) + (if d in listing then HtmlIn(d, listing[d]) else [])
  }

  /** `files_to_process`, built by the nested loops of `sync`. */
  method FilesToProcess(listing: map<string, seq<string>>) returns (files: seq<string>)
    ensures files == ["index.html"] + Listed(listing, TargetDirs)
  {
    files := ["index.html"];
    for i := 0 to |TargetDirs|
      invariant files == ["index.html"] + Listed(listing, TargetDirs[..i])
    {
      assert TargetDirs[..i + 1][..i] == TargetDirs[..i];
      var d := TargetDirs[i];
      if d in listing {
        var names := listing[d];
        var before := files;
        for j := 0 to |names|
          invariant files == before + HtmlIn(d, names[..j])
        {
          assert names[..j + 1][..j] == names[..j];
          if EndsWith(names[j], ".html") {
            files := files + [d + "/" + names[j]];
          }
        }
        assert names[..|names|] == names;
      }
    }
    assert TargetDirs[..|TargetDirs|] == TargetDirs;
  }

  /** Directory entries never contain the separator. */
  predicate PlainNames(listing: map<string, seq<string>>) {
    forall d | d in listing :: forall k | 0 <= k < |listing[d]| :: NoChar(listing[d][k], '/')
  }

  /** Every page of the list is an `.html` file at the root or one directory down. */
  lemma {:induction false} ListedShape(listing: map<string, seq<string>>, dirs: seq<string>)
    requires PlainNames(listing)
    requires forall k | 0 <= k < |dirs| :: NoChar(dirs[k], '/')
    decreases |dirs|
    ensures forall f | f in Listed(listing, dirs) :: EndsWith(f, ".html") && CountChar(f, '/') == 1
  {
    if dirs != [] {
      var d := dirs[|dirs| - 1];
      ListedShape(listing, dirs[..|dirs| - 1]);
      if d in listing {
        HtmlInShape(d, listing[d]);
      }
    }
  }

  lemma {:induction false} HtmlInShape(dir: string, names: seq<string>)
    requires NoChar(dir, '/') && forall k | 0 <= k < |names| :: NoChar(names[k], '/')
    decreases |names|
    ensures forall f | f in HtmlIn(dir, names) :: EndsWith(f, ".html") && CountChar(f, '/') == 1
  {
    if names != [] {
      var n := names[|names| - 1];
      HtmlInShape(dir, names[..|names| - 1]);
      if EndsWith(n, ".html") {
        var f := dir + "/" + n;
        assert f[|f| - |".html"|..] == n[|n| - |".html"|..];
        OneSeparator(dir, n);
        assert NoChar(n, '/');
      }
      assert HtmlIn(dir, names) == HtmlIn(dir, names[..|names| - 1]) + (if EndsWith(n, ".html") then [dir + "/" + n] else []);
    }
  }

  lemma {:induction false} NoCharCount(s: string, c: char)
    requires NoChar(s, c)
    decreases |s|
    ensures CountChar(s, c) == 0
  {
    if s != [] {
      NoCharCount(s[1..], c);
    }
  }

  /**
   * Every page `sync` processes gets the root prefix `""` (the root
   * `index.html`) or `"../"` (a page in one of the target directories).
   */
  lemma FilesToProcessPrefixes(listing: map<string, seq<string>>)
    requires PlainNames(listing)
    ensures forall f | f in ["index.html"] + Listed(listing, TargetDirs) ::
      EndsWith(f, ".html") && GetRootPrefix(f) == (if f == "index.html" then "" else "../")
  {
    forall k | 0 <= k < |TargetDirs| ensures NoChar(TargetDirs[k], '/') { }
    ListedShape(listing, TargetDirs);
    RootPrefixTop("index.html");
    forall f | f in ["index.html"] + Listed(listing, TargetDirs)
      ensures EndsWith(f, ".html") && GetRootPrefix(f) == (if f == "index.html" then "" else "../")
    {
      if f in Listed(listing, TargetDirs) {
        RootPrefixDepth(f);
        assert Repeat("../", 1) == "../";
      }
    }
  }

  /** The site after `sync` has processed `files` in order, with the pages written, and the exception that stopped it if any. */
  datatype Run = Run(tree: Bulk.Tree, writes: seq<string>, error: Option<SyncError>)

  function SyncRun(fs: Bulk.Tree, files: seq<string>, sidebarTemplate: string, headerTemplate: string, today: string): Run
    decreases |files|
  {
    if files == [] then Run(fs, [], None)
    else SyncStep(SyncRun(fs, files[..|files| - 1], sidebarTemplate, headerTemplate, today), files[|files| - 1],
                  sidebarTemplate, headerTemplate, today)
  }

  /** One iteration of the loop of `sync`: read, process and write one page, unless an exception was raised before. */
  function SyncStep(before: Run, path: string, sidebarTemplate: string, headerTemplate: string, today: string): Run {
    if before.error.Some? then before
    else if path !in before.tree then Run(before.tree, before.writes, Some(FileNotFound(path)))
    else
      match ProcessContent(path, before.tree[path], sidebarTemplate, headerTemplate, today)
      case Err(e) => Run(before.tree, before.writes, Some(e))
      case Ok(c) => Run(before.tree[path := c], before.writes + [path], None)
  }

  /** A step without an exception follows a run without one and writes its page. */
  lemma StepWrites(before: Run, path: string, sidebarTemplate: string, headerTemplate: string, today: string)
    requires SyncStep(before, path, sidebarTemplate, headerTemplate, today).error.None?
    ensures before.error.None?
    ensures SyncStep(before, path, sidebarTemplate, headerTemplate, today).writes == before.writes + [path]
  {
  }

  /** Once an exception is raised, later pages are not visited. */
  lemma {:induction false} SyncRunStops(fs: Bulk.Tree, files: seq<string>, n: nat,
                                        sidebarTemplate: string, headerTemplate: string, today: string)
    requires n <= |files| && SyncRun(fs, files[..n], sidebarTemplate, headerTemplate, today).error.Some?
    decreases |files| - n
    ensures SyncRun(fs, files, sidebarTemplate, headerTemplate, today) == SyncRun(fs, files[..n], sidebarTemplate, headerTemplate, today)
  {
    if n < |files| {
      assert files[..n + 1][..n] == files[..n];
      SyncRunStops(fs, files, n + 1, sidebarTemplate, headerTemplate, today);
    } else {
      assert files[..n] == files;
    }
  }

  /** When no exception is raised, every processed page is written back, changed or not. */
  lemma {:induction false} SyncWritesAll(fs: Bulk.Tree, files: seq<string>, sidebarTemplate: string, headerTemplate: string, today: string)
    requires SyncRun(fs, files, sidebarTemplate, headerTemplate, today).error.None?
    decreases |files|
    ensures SyncRun(fs, files, sidebarTemplate, headerTemplate, today).writes == files
  {
    if files != [] {
      var init, last := files[..|files| - 1], files[|files| - 1];
      assert files == init + [last];
      var before := SyncRun(fs, init, sidebarTemplate, headerTemplate, today);
      assert SyncRun(fs, files, sidebarTemplate, headerTemplate, today) == SyncStep(before, last, sidebarTemplate, headerTemplate, today);
      StepWrites(before, last, sidebarTemplate, headerTemplate, today);
      SyncWritesAll(fs, init, sidebarTemplate, headerTemplate, today);
    }
  }

  /** `sync()`: build the page list, then process and write each page; an exception ends the run. */
  method Sync(fs: Bulk.Tree, listing: map<string, seq<string>>, sidebarTemplate: string, headerTemplate: string, today: string)
    returns (tree: Bulk.Tree, writes: seq<string>, error: Option<SyncError>)
    ensures Run(tree, writes, error) ==
      SyncRun(fs, ["index.html"] + Listed(listing, TargetDirs), sidebarTemplate, headerTemplate, today)
  {
    var files := FilesToProcess(listing);
    tree, writes, error := fs, [], None;
    var i := 0;
    while i < |files| && error.None?
      invariant 0 <= i <= |files|
      invariant Run(tree, writes, error) == SyncRun(fs, files[..i], sidebarTemplate, headerTemplate, today)
    {
      assert files[..i + 1][..i] == files[..i];
      var path := files[i];
      if path !in tree {
        error := Some(FileNotFound(path));
      } else {
        var content := tree[path];
        match ProcessContent(path, content, sidebarTemplate, headerTemplate, today)
        case Err(e) =>
          error := Some(e);
        case Ok(c) =>
          tree := tree[path := c];
          writes := writes + [path];
      }
      i := i + 1;
    }
    if error.Some? {
      SyncRunStops(fs, files, i, sidebarTemplate, headerTemplate, today);
    } else {
      assert files[..i] == files;
    }
  }
}
