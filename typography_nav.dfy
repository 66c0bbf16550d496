/**
 * `tools/update_typography_nav.py`: collapses the nested Typography entry
 * of the navigation into one link, whose target depends on where the page
 * lies.  The pages come from `os.walk('.')`, which yields directory paths
 * such as `./components`, so every page path starts with `./`.
 */
module TypographyNav {
  import opened Text
  import Bulk

  const Foundations := "foundations/"
  const Components := "components/"
  const Patterns := "patterns/"
  const Meta := "tools/meta/"
  const RootIndex := "index.html"

  /** `<li><a href="HREF" class="nav-link">Typography</a></li>`. */
  function TypographyItem(href: string): string {
    "<li><a href=\"" + href + "\" class=\"nav-link\">Typography</a></li>"
  }

  /** The replacement chosen for a page path, test by test as the script writes them. */
  function ReplacementLink(path: string): string {
    if Contains(path, Foundations) || Foundations <= path then TypographyItem("typography.html")
    else if Contains(path, Components) || Components <= path then TypographyItem("../foundations/typography.html")
    else if Contains(path, Patterns) || Patterns <= path then TypographyItem("../foundations/typography.html")
    else if Contains(path, Meta) || Meta <= path then TypographyItem("../../foundations/typography.html")
    else if path == RootIndex then TypographyItem("foundations/typography.html")
    else TypographyItem("typography.html")
  }

  /**
   * The link target by the containment tests alone: pages under
   * `foundations/` link to their sibling, pages one directory down climb one
   * level, pages under `tools/meta/` climb two, the root index descends.
   */
  function LinkTarget(path: string): (href: string)
    ensures href in {"typography.html", "../foundations/typography.html", "../../foundations/typography.html", "foundations/typography.html"}
    ensures href == "foundations/typography.html" ==> path == RootIndex
  {
    if Contains(path, Foundations) then "typography.html"
    else if Contains(path, Components) || Contains(path, Patterns) then "../foundations/typography.html"
    else if Contains(path, Meta) then "../../foundations/typography.html"
    else if path == RootIndex then "foundations/typography.html"
    else "typography.html"
  }

  /** A prefix is an occurrence. */
  lemma PrefixContained(path: string, x: string)
    requires x <= path
    ensures Contains(path, x)
  {
    assert OccursAt(path, x, 0);
  }

  /**
   * Each `'x/' in p or p.startswith('x/')` test is the containment test
   * alone, so the replacement is the Typography item for `LinkTarget`; the
   * `foundations/` test comes first, so it wins over the others.
   */
  lemma ReplacementIsTarget(path: string)
    ensures ReplacementLink(path) == TypographyItem(LinkTarget(path))
    ensures Contains(path, Foundations) ==> ReplacementLink(path) == TypographyItem("typography.html")
  {
    if Foundations <= path { PrefixContained(path, Foundations); }
    if Components <= path { PrefixContained(path, Components); }
    if Patterns <= path { PrefixContained(path, Patterns); }
    if Meta <= path { PrefixContained(path, Meta); }
  }

  /** The body of `update_typography_nav` after the read, with the DOTALL rewrite as `collapse`. */
  method UpdateTypographyNav(path: string, content: string, collapse: (string, string) -> string)
    returns (newContent: string, changed: bool)
    ensures newContent == collapse(content, ReplacementLink(path))
    ensures changed <==> newContent != content
  {
    var replacement := ReplacementLink(path);
    newContent := collapse(content, replacement);
    changed := newContent != content;
  }

  // ---------------------------------------------------------------------
  // The walk

  /** `os.path.join(root, file)` for a directory path that does not end in `/`. */
  function JoinPath(root: string, file: string): string {
    root + "/" + file
  }

  /** The two `continue` tests of `main`. */
  predicate Skipped(root: string) {
    (Contains(root, "typography") && root != ".") || Contains(root, "tools/meta")
  }

  /** The `.html` files of one directory, joined to its path, in listing order. */
  function HtmlPaths(root: string, files: seq<string>): seq<string>
    decreases |files|
  {
    if files == [] then []
    else
      var f := files[|files| - 1];
      HtmlPaths(root, files[..|files| - 1]) + (if EndsWith(f, ".html") then [JoinPath(root, f)] else [])
  }

  /** The pages `main` processes, in walk order, for a walk given as `(root, files)` entries. */
  function WalkFiles(walk: seq<(string, seq<string>)>): seq<string>
    decreases |walk|
  {
    if walk == [] then []
    else
      var entry := walk[|walk| - 1];
      WalkFiles(walk[..|walk| - 1]) + (if Skipped(entry.0) then [] else HtmlPaths(entry.0, entry.1))
  }

  /**
   * `main`: the walk over `(root, files)` entries, each processed page
   * rewritten and recorded in `updated` when it changed.
   */
  method UpdateTypography(fs: Bulk.Tree, walk: seq<(string, seq<string>)>, collapse: (string, string) -> string)
    returns (tree: Bulk.Tree, updated: seq<string>)
    ensures var o := Bulk.RunAll(fs, WalkFiles(walk), (p, c) => collapse(c, ReplacementLink(p)));
      tree == o.tree && updated == o.writes
  {
    tree, updated := fs, [];
    ghost var count: nat := 0;
    var i := 0;
    while i < |walk|
      invariant 0 <= i <= |walk|
      invariant var o := Bulk.RunAll(fs, WalkFiles(walk[..i]), (p, c) => collapse(c, ReplacementLink(p)));
        tree == o.tree && updated == o.writes && count == o.updated
    {
      var root, files := walk[i].0, walk[i].1;
      WalkStep(walk, i);
      if !Skipped(root) {
        ghost var before := WalkFiles(walk[..i]);
        assert WalkFiles(walk[..i + 1]) == before + HtmlPaths(root, files);
        tree, updated, count := UpdateDirectory(fs, before, root, files, collapse, tree, updated, count);
      } else {
        assert WalkFiles(walk[..i + 1]) == WalkFiles(walk[..i]);
      }
      i := i + 1;
    }
    assert walk[..|walk|] == walk;
  }

  /** The inner loop of `main` over the files of one directory that is not skipped. */
  method UpdateDirectory(ghost fs: Bulk.Tree, ghost before: seq<string>, root: string, files: seq<string>,
                         collapse: (string, string) -> string, tree0: Bulk.Tree, updated0: seq<string>, ghost count0: nat)
    returns (tree: Bulk.Tree, updated: seq<string>, ghost count: nat)
    requires var o := Bulk.RunAll(fs, before, (p, c) => collapse(c, ReplacementLink(p)));
      tree0 == o.tree && updated0 == o.writes && count0 == o.updated
    ensures var o := Bulk.RunAll(fs, before + HtmlPaths(root, files), (p, c) => collapse(c, ReplacementLink(p)));
      tree == o.tree && updated == o.writes && count == o.updated
  {
    ghost var edit := (p: string, c: string) => collapse(c, ReplacementLink(p));
    tree, updated, count := tree0, updated0, count0;
    assert before + HtmlPaths(root, files[..0]) == before by {
      assert files[..0] == [];
    }
    var j := 0;
    while j < |files|
      invariant 0 <= j <= |files|
      invariant var o := Bulk.RunAll(fs, before + HtmlPaths(root, files[..j]), edit);
        tree == o.tree && updated == o.writes && count == o.updated
    {
      var file := files[j];
      ghost var listed := before + HtmlPaths(root, files[..j]);
      HtmlStep(root, files, j);
      if EndsWith(file, ".html") {
        var path := JoinPath(root, file);
        assert before + HtmlPaths(root, files[..j + 1]) == listed + [path];
        tree, updated, count := UpdatePage(fs, listed, path, collapse, tree, updated, count);
      } else {
        assert before + HtmlPaths(root, files[..j + 1]) == listed;
      }
      j := j + 1;
    }
    assert files[..|files|] == files;
  }

  /** One page of the inner loop: `update_typography_nav`, then `updated.append` when it changed. */
  method UpdatePage(ghost fs: Bulk.Tree, ghost listed: seq<string>, path: string,
                    collapse: (string, string) -> string, tree0: Bulk.Tree, updated0: seq<string>, ghost count0: nat)
    returns (tree: Bulk.Tree, updated: seq<string>, ghost count: nat)
    requires var o := Bulk.RunAll(fs, listed, (p, c) => collapse(c, ReplacementLink(p)));
      tree0 == o.tree && updated0 == o.writes && count0 == o.updated
    ensures var o := Bulk.RunAll(fs, listed + [path], (p, c) => collapse(c, ReplacementLink(p)));
      tree == o.tree && updated == o.writes && count == o.updated
  {
    Bulk.RunAllSnoc(fs, listed, path, (p, c) => collapse(c, ReplacementLink(p)));
    tree, updated, count := tree0, updated0, count0;
    if path in tree {
      var newContent, changed := UpdateTypographyNav(path, tree[path], collapse);
      if changed {
        tree := tree[path := newContent];
        updated := updated + [path];
        count := count + 1;
      }
    }
  }

  lemma WalkStep(walk: seq<(string, seq<string>)>, i: nat)
    requires i < |walk|
    ensures WalkFiles(walk[..i + 1]) ==
      WalkFiles(walk[..i]) + (if Skipped(walk[i].0) then [] else HtmlPaths(walk[i].0, walk[i].1))
  {
    assert walk[..i + 1][..i] == walk[..i];
  }

  lemma HtmlStep(root: string, files: seq<string>, j: nat)
    requires j < |files|
    ensures HtmlPaths(root, files[..j + 1]) ==
      HtmlPaths(root, files[..j]) + (if EndsWith(files[j], ".html") then [JoinPath(root, files[j])] else [])
  {
    assert files[..j + 1][..j] == files[..j];
  }

  /** A directory's listed paths are exactly its `.html` files joined to it. */
  lemma {:induction false} HtmlPathsExactly(root: string, files: seq<string>, p: string)
    decreases |files|
    ensures p in HtmlPaths(root, files) <==> exists f | f in files :: EndsWith(f, ".html") && p == JoinPath(root, f)
  {
    if files != [] {
      var init, f := files[..|files| - 1], files[|files| - 1];
      HtmlPathsExactly(root, init, p);
      assert files == init + [f];
      assert forall g :: g in files <==> g in init || g == f;
    }
  }

  /** Every `.html` file of a directory that is not skipped is processed. */
  lemma {:induction false} WalkFilesListed(walk: seq<(string, seq<string>)>, i: nat, p: string)
    requires i < |walk| && !Skipped(walk[i].0) && p in HtmlPaths(walk[i].0, walk[i].1)
    decreases |walk|
    ensures p in WalkFiles(walk)
  {
    var n := |walk| - 1;
    if i < n {
      assert walk[..n][i] == walk[i];
      WalkFilesListed(walk[..n], i, p);
    }
  }

  /** Every processed page is an `.html` file of a directory that is not skipped. */
  lemma {:induction false} WalkFilesFrom(walk: seq<(string, seq<string>)>, p: string)
    requires p in WalkFiles(walk)
    decreases |walk|
    ensures exists i | 0 <= i < |walk| :: !Skipped(walk[i].0) && p in HtmlPaths(walk[i].0, walk[i].1)
  {
    var n := |walk| - 1;
    if p in WalkFiles(walk[..n]) {
      WalkFilesFrom(walk[..n], p);
      var i :| 0 <= i < n && !Skipped(walk[..n][i].0) && p in HtmlPaths(walk[..n][i].0, walk[..n][i].1);
      assert walk[..n][i] == walk[i];
    } else {
      assert !Skipped(walk[n].0) && p in HtmlPaths(walk[n].0, walk[n].1);
    }
  }

  // ---------------------------------------------------------------------
  // Which tests can fire for a walked page

  lemma SlashFree()
    ensures NoChar(RootIndex, '/')
  {
  }

  /** A joined path holds a `/`, so it is never `index.html`: the root-index test never holds in `main`. */
  lemma IndexBranchDead(root: string, file: string)
    ensures JoinPath(root, file) != RootIndex
  {
    var p := JoinPath(root, file);
    assert p[|root|] == '/';
    SlashFree();
    if |p| == |RootIndex| {
      assert RootIndex[|root|] != '/';
    }
  }

  /**
   * A page in a directory that is not skipped, with a file name without
   * `/`, never contains `tools/meta/`: the fourth test never holds in `main`.
   */
  lemma MetaBranchDead(root: string, file: string)
    requires !Skipped(root) && NoChar(file, '/')
    ensures !Contains(JoinPath(root, file), Meta)
  {
    var p := JoinPath(root, file);
    forall j | 0 <= j <= |p| ensures !OccursAt(p, Meta, j) {
      if j + |Meta| <= |p| {
        if j + 10 <= |root| {
          assert !OccursAt(root, "tools/meta", j);
          assert p[j..j + 10] == root[j..j + 10];
          assert p[j..j + |Meta|][..10] == p[j..j + 10];
          assert Meta[..10] == "tools/meta";
        } else {
          assert p[j..j + |Meta|][10] == p[j + 10] == file[j + 10 - |root| - 1];
        }
      }
    }
  }


  /**
   * The root page as `main` spells it, `./index.html`, gets the link for a
   * page beside `typography.html`, so its Typography link points to a file
   * that is not there.
   */
  lemma RootIndexFallsThrough()
    ensures JoinPath(".", RootIndex) == "./index.html"
    ensures ReplacementLink("./index.html") == TypographyItem("typography.html")
    ensures ReplacementLink(RootIndex) == TypographyItem("foundations/typography.html")
  {
    ReplacementIsTarget("./index.html");
    ReplacementIsTarget(RootIndex);
    NoLeadNoOccurrence(RootIndex, Foundations);
    NoLeadNoOccurrence(RootIndex, Components);
    NoLeadNoOccurrence(RootIndex, Patterns);
    assert !Contains(RootIndex, Meta) by {
      assert |Meta| > |RootIndex|;
    }
    DirectoryWords();
    assert "./index.html" == "./" + RootIndex;
    DotSlashContains(RootIndex, Foundations);
    DotSlashContains(RootIndex, Components);
    DotSlashContains(RootIndex, Patterns);
    DotSlashContains(RootIndex, Meta);
  }

  /**
   * Pages under `./meta/` and `./product-specific/` pass none of the
   * directory tests either, so they too link to a `typography.html` beside
   * them, which is not there.
   */
  lemma OtherDirectoriesFallThrough()
    ensures ReplacementLink("./meta/changelog.html") == TypographyItem("typography.html")
    ensures ReplacementLink("./product-specific/index.html") == TypographyItem("typography.html")
  {
    var meta, product := "./meta/changelog.html", "./product-specific/index.html";
    MetaPageWords();
    assert |meta| != |RootIndex|;
    LastBranch(meta);
    ProductPageWords();
    assert |product| != |RootIndex|;
    LastBranch(product);
  }

  /** A path holding none of the four directory words, other than the root index, gets the last branch. */
  lemma LastBranch(path: string)
    requires !Contains(path, Foundations) && !Contains(path, Components) && !Contains(path, Patterns) && !Contains(path, Meta)
    requires path != RootIndex
    ensures ReplacementLink(path) == TypographyItem("typography.html")
  {
    ReplacementIsTarget(path);
  }

  lemma MetaPageWords()
    ensures var path := "./meta/changelog.html";
      !Contains(path, Foundations) && !Contains(path, Components) && !Contains(path, Patterns) && !Contains(path, Meta)
  {
    var path := "./meta/changelog.html";
    DirectoryWords();
    NoLeadNoOccurrence(path, Foundations);
    NoLeadPairNoOccurrence(path, Components);
    NoLeadNoOccurrence(path, Patterns);
    NoLeadPairNoOccurrence(path, Meta);
  }

  lemma ProductPageWords()
    ensures var path := "./product-specific/index.html";
      !Contains(path, Foundations) && !Contains(path, Components) && !Contains(path, Patterns) && !Contains(path, Meta)
  {
    var path := "./product-specific/index.html";
    DirectoryWords();
    NoLeadPairNoOccurrence(path, Foundations);
    NoLeadPairNoOccurrence(path, Components);
    NoLeadPairNoOccurrence(path, Patterns);
    NoLeadPairNoOccurrence(path, Meta);
  }

  /** The choice made on the path relative to the top, with the walk's `./` removed. */
  function CorrectedReplacementLink(path: string): string {
    ReplacementLink(if "./" <= path then path[2..] else path)
  }

  /** A word that starts with neither `.` nor `/` occurs after `./` exactly when it occurs in the rest. */
  lemma DotSlashContains(rel: string, x: string)
    requires |x| > 0 && x[0] != '.' && x[0] != '/'
    ensures Contains("./" + rel, x) <==> Contains(rel, x)
  {
    var p := "./" + rel;
    assert p[2..] == rel;
    if Contains(p, x) {
      var j :| 0 <= j <= |p| && OccursAt(p, x, j);
      assert p[j..j + |x|][0] == p[j];
      assert j >= 2;
      assert OccursAt(p[2..], x, j - 2) by {
        assert p[2..][j - 2..j - 2 + |x|] == p[j..j + |x|];
      }
    }
    if Contains(rel, x) {
      var j :| 0 <= j <= |rel| && OccursAt(rel, x, j);
      OccursInSuffix(p, x, 2, j);
    }
  }

  lemma DirectoryWords()
    ensures Foundations[0] == 'f' && Components[0] == 'c' && Patterns[0] == 'p' && Meta[0] == 't'
  {
  }

  /**
   * With the `./` removed, the walked root page links into `foundations/`,
   * and every other walked page gets the link it got before.
   */
  lemma CorrectedRootIndex(rel: string)
    ensures CorrectedReplacementLink(JoinPath(".", RootIndex)) == TypographyItem("foundations/typography.html")
    ensures rel != RootIndex ==> CorrectedReplacementLink("./" + rel) == ReplacementLink("./" + rel)
  {
    RootIndexFallsThrough();
    var p := "./" + rel;
    assert p[..2] == "./" && p[2..] == rel;
    DirectoryWords();
    DotSlashContains(rel, Foundations);
    DotSlashContains(rel, Components);
    DotSlashContains(rel, Patterns);
    DotSlashContains(rel, Meta);
    ReplacementIsTarget(p);
    ReplacementIsTarget(rel);
    if rel != RootIndex {
      assert p != RootIndex by {
        IndexBranchDead(".", rel);
      }
    }
  }
}
