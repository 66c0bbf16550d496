/**
 * `tools/update_navigation_labels.py`: renames the captions of navigation
 * links.  For each entry of the `nav_updates` dictionary, in insertion order,
 * two `re.sub` calls rewrite the links of class `nav-link` and of class
 * `nav-link active` whose whole caption is the old label, keeping the
 * captured tags around the caption and putting the new label between them.
 */
module NavigationLabels {
  import opened Text
  import opened Rewrite
  import Anchors
  import Bulk

  const NavLink := "nav-link"
  const ActiveLink := "nav-link active"

  /** The `nav_updates` dictionary, in insertion order. */
  const NavUpdates: seq<(string, string)> := [
    ("Color", "1 Color Library"),
    ("Effects", "Effects"),
    ("Spacing", "2 Spacing System"),
    ("Grid", "2 Grid System"),
    ("Icons", "Icons GCC Component"),
    ("Illustrations", "Illustrations GCC Component"),
    ("Logo", "Logo GCC Component"),
    ("System Resources", "System Resources GCC Component")
  ]

  /**
   * The two patterns built for one entry: `(<a href="[^"]*" class="nav-link">)OLD(</a>)`
   * and the same with `nav-link active`, each replaced by group 1, the new
   * label and group 2.
   */
  function EntryRules(entry: (string, string)): (rules: seq<Rule>)
    ensures |rules| == 2 && AllWellFormed(rules)
  {
    [Rule(Anchor("", NavLink, false, entry.0), Relabel(entry.1)),
     Rule(Anchor("", ActiveLink, false, entry.0), Relabel(entry.1))]
  }

  /** All the substitutions of `update_navigation_in_file`, in the order they run. */
  function TableRules(updates: seq<(string, string)>): (rules: seq<Rule>)
    decreases |updates|
    ensures |rules| == 2 * |updates| && AllWellFormed(rules)
  {
    if updates == [] then []
    else TableRules(updates[..|updates| - 1]) + EntryRules(updates[|updates| - 1])
  }

  /** The text `update_navigation_in_file` leaves in a page. */
  function UpdatedLabels(content: string): string {
    Pipeline(TableRules(NavUpdates), content)
  }

  /** The nested loops of `update_navigation_in_file` over a table of entries. */
  method ApplyTable(updates: seq<(string, string)>, content: string) returns (newContent: string)
    ensures newContent == Pipeline(TableRules(updates), content)
  {
    newContent := content;
    var i := 0;
    while i < |updates|
      invariant 0 <= i <= |updates|
      invariant newContent == Pipeline(TableRules(updates[..i]), content)
    {
      var before := newContent;
      var patterns := EntryRules(updates[i]);
      var j := 0;
      while j < |patterns|
        invariant 0 <= j <= |patterns|
        invariant newContent == Pipeline(patterns[..j], before)
      {
        PipelineStep(patterns, j, before);
        newContent := Sub(patterns[j], newContent);
        j := j + 1;
      }
      TableStep(updates, i, content, newContent);
      i := i + 1;
    }
    assert updates[..|updates|] == updates;
  }

  /** One more rule of a list, run on the text the earlier ones left. */
  lemma PipelineStep(rules: seq<Rule>, j: nat, s: string)
    requires AllWellFormed(rules) && j < |rules|
    ensures Pipeline(rules[..j + 1], s) == Sub(rules[j], Pipeline(rules[..j], s))
  {
    assert rules[..j + 1][..j] == rules[..j];
  }

  /** One more table entry: its rules, run on the text the earlier entries left. */
  lemma TableStep(updates: seq<(string, string)>, i: nat, content: string, out: string)
    requires i < |updates|
    requires out == Pipeline(EntryRules(updates[i])[..|EntryRules(updates[i])|], Pipeline(TableRules(updates[..i]), content))
    ensures out == Pipeline(TableRules(updates[..i + 1]), content)
  {
    var patterns := EntryRules(updates[i]);
    assert patterns[..|patterns|] == patterns;
    assert updates[..i + 1][..i] == updates[..i];
    PipelineAppend(TableRules(updates[..i]), patterns, content);
  }

  /** The body of `update_navigation_in_file` after the read: the new text, and whether it differs. */
  method UpdateNavigationInFile(content: string) returns (newContent: string, changed: bool)
    ensures newContent == UpdatedLabels(content)
    ensures changed <==> newContent != content
  {
    newContent := ApplyTable(NavUpdates, content);
    changed := newContent != content;
  }

  /** `main`: every page found is updated in listing order, written and counted when it changed. */
  method UpdateLabels(fs: Bulk.Tree, files: seq<string>)
    returns (tree: Bulk.Tree, updated: nat, writes: seq<string>)
    ensures var o := Bulk.RunAll(fs, files, (p, c) => UpdatedLabels(c));
      tree == o.tree && updated == o.updated && writes == o.writes
    ensures Bulk.Distinct(files) ==>
      tree.Keys == fs.Keys && updated == |writes| &&
      forall p | p in fs :: tree[p] == if p in files then UpdatedLabels(fs[p]) else fs[p]
  {
    var edit := (p: string, c: string) => UpdatedLabels(c);
    tree, updated, writes := Bulk.UpdateAll(fs, files, edit);
    if Bulk.Distinct(files) {
      Bulk.RunAllEffect(fs, files, edit);
    }
  }

  // ---------------------------------------------------------------------
  // Pages as markup and links

  /**
   * A page cut into links and the markup between them.  Markup may hold any
   * tag except the start of a link, `<a href="`.
   */
  datatype Piece = Markup(text: string) | Link(href: string, cls: string, caption: string)

  /** Every `<` of `t` is followed, inside `t`, by something other than `a href="`. */
  predicate NoLinkStart(t: string) {
    forall j | 0 <= j < |t| && t[j] == '<' :: j + |AnchorStart| <= |t| && t[j..j + |AnchorStart|] != AnchorStart
  }

  predicate PieceOk(p: Piece) {
    match p
    case Markup(t) => NoLinkStart(t)
    case Link(href, cls, caption) => Anchors.Plain(href, cls, caption)
  }

  predicate PiecesOk(ps: seq<Piece>) {
    forall i | 0 <= i < |ps| :: PieceOk(ps[i])
  }

  function RenderPiece(p: Piece): string {
    match p
    case Markup(t) => t
    case Link(href, cls, caption) => AnchorText(href, cls, caption)
  }

  function Render(ps: seq<Piece>): string
    decreases |ps|
  {
    if ps == [] then [] else RenderPiece(ps[0]) + Render(ps[1..])
  }

  /** A rule that relabels exact-class links and keeps pieces well formed. */
  predicate RelabelRule(r: Rule) {
    r.pattern.Anchor? && !r.pattern.classTail && r.replacement.Relabel? &&
    NoChar(r.pattern.cls, '"') && NoChar(r.pattern.caption, '<') && NoChar(r.replacement.caption, '<')
  }

  predicate RelabelRules(rules: seq<Rule>) {
    forall i | 0 <= i < |rules| :: RelabelRule(rules[i])
  }

  /** What one rule makes of one piece. */
  function RelabelPiece(r: Rule, p: Piece): Piece
    requires RelabelRule(r)
  {
    match p
    case Markup(_) => p
    case Link(href, cls, caption) =>
      if EndsWith(href, r.pattern.hrefSuffix) && cls == r.pattern.cls && caption == r.pattern.caption
      then Link(href, cls, r.replacement.caption)
      else p
  }

  /** What a list of rules makes of one piece. */
  function PieceAfter(rules: seq<Rule>, p: Piece): Piece
    requires RelabelRules(rules)
    decreases |rules|
  {
    if rules == [] then p else RelabelPiece(rules[|rules| - 1], PieceAfter(rules[..|rules| - 1], p))
  }

  function PiecesAfter(rules: seq<Rule>, ps: seq<Piece>): (qs: seq<Piece>)
    requires RelabelRules(rules)
  {
    seq(|ps|, i requires 0 <= i < |ps| => PieceAfter(rules, ps[i]))
  }

  /** Markup passes through a link rule unchanged: no match can start inside it. */
  lemma MarkupSkipped(r: Rule, t: string, rest: string)
    requires RelabelRule(r) && NoLinkStart(t)
    ensures Sub(r, t + rest) == t + Sub(r, rest)
  {
    var s := t + rest;
    forall j | 0 <= j < |t| && j < |s| ensures MatchAt(r.pattern, s[j..]).None? {
      if t[j] == '<' {
        assert s[j..][..|AnchorStart|] == t[j..j + |AnchorStart|];
      } else {
        assert s[j..][0] == t[j];
      }
    }
    SubSkip(r, t, rest);
  }

  /** One link passes through a rule relabelled exactly when the rule matches it. */
  lemma LinkRelabelled(r: Rule, href: string, cls: string, caption: string, rest: string)
    requires RelabelRule(r) && Anchors.Plain(href, cls, caption)
    ensures Sub(r, AnchorText(href, cls, caption) + rest) ==
      RenderPiece(RelabelPiece(r, Link(href, cls, caption))) + Sub(r, rest)
  {
    var x := AnchorText(href, cls, caption);
    assert [] + x + rest == x + rest;
    assert [] + RenderPiece(RelabelPiece(r, Link(href, cls, caption))) + Sub(r, rest) ==
      RenderPiece(RelabelPiece(r, Link(href, cls, caption))) + Sub(r, rest);
    if EndsWith(href, r.pattern.hrefSuffix) && cls == r.pattern.cls && caption == r.pattern.caption {
      Anchors.SubRelabel(r, [], href, rest);
    } else {
      Anchors.SubAnchorKept(r, [], href, cls, caption, rest);
    }
  }

  /** A link rule rewrites a page piece by piece. */
  lemma {:induction false} SubPieces(r: Rule, ps: seq<Piece>)
    requires RelabelRule(r) && PiecesOk(ps)
    decreases |ps|
    ensures Sub(r, Render(ps)) == Render(seq(|ps|, i requires 0 <= i < |ps| => RelabelPiece(r, ps[i])))
  {
    var qs := seq(|ps|, i requires 0 <= i < |ps| => RelabelPiece(r, ps[i]));
    if ps == [] {
      SubEmpty(r);
    } else {
      var rest := Render(ps[1..]);
      SubPieces(r, ps[1..]);
      assert qs[1..] == seq(|ps[1..]|, i requires 0 <= i < |ps[1..]| => RelabelPiece(r, ps[1..][i]));
      match ps[0]
      case Markup(t) =>
        MarkupSkipped(r, t, rest);
      case Link(href, cls, caption) =>
        LinkRelabelled(r, href, cls, caption, rest);
    }
  }

  lemma SubEmpty(r: Rule)
    requires WellFormed(r)
    ensures Sub(r, []) == []
  {
  }

  /** A relabelled piece is still well formed. */
  lemma RelabelKeepsOk(r: Rule, p: Piece)
    requires RelabelRule(r) && PieceOk(p)
    ensures PieceOk(RelabelPiece(r, p))
  {
  }

  lemma {:induction false} PieceAfterOk(rules: seq<Rule>, p: Piece)
    requires RelabelRules(rules) && PieceOk(p)
    decreases |rules|
    ensures PieceOk(PieceAfter(rules, p))
  {
    if rules != [] {
      PieceAfterOk(rules[..|rules| - 1], p);
      RelabelKeepsOk(rules[|rules| - 1], PieceAfter(rules[..|rules| - 1], p));
    }
  }

  /** Link rules run one after another rewrite a page piece by piece. */
  lemma {:induction false} PipelinePieces(rules: seq<Rule>, ps: seq<Piece>)
    requires RelabelRules(rules) && PiecesOk(ps)
    decreases |rules|
    ensures AllWellFormed(rules)
    ensures Pipeline(rules, Render(ps)) == Render(PiecesAfter(rules, ps))
  {
    if rules == [] {
      assert PiecesAfter(rules, ps) == ps;
    } else {
      var init, last := rules[..|rules| - 1], rules[|rules| - 1];
      assert RelabelRules(init);
      PipelinePieces(init, ps);
      var mid := PiecesAfter(init, ps);
      forall i | 0 <= i < |mid| ensures PieceOk(mid[i]) {
        PieceAfterOk(init, ps[i]);
      }
      SubPieces(last, mid);
      assert seq(|mid|, i requires 0 <= i < |mid| => RelabelPiece(last, mid[i])) == PiecesAfter(rules, ps);
    }
  }

  // ---------------------------------------------------------------------
  // The table as a dictionary

  /** The label a caption ends with after the table's entries are applied in order. */
  function ChainLabel(updates: seq<(string, string)>, caption: string): string
    decreases |updates|
  {
    if updates == [] then caption
    else
      var c := ChainLabel(updates[..|updates| - 1], caption);
      if c == updates[|updates| - 1].0 then updates[|updates| - 1].1 else c
  }

  /** What the table's rules make of one piece: a link of either class gets its chained label. */
  function LinkAfterTable(updates: seq<(string, string)>, p: Piece): Piece {
    match p
    case Markup(_) => p
    case Link(href, cls, caption) =>
      if cls == NavLink || cls == ActiveLink then Link(href, cls, ChainLabel(updates, caption)) else p
  }

  predicate LabelsPlain(updates: seq<(string, string)>) {
    forall i | 0 <= i < |updates| :: NoChar(updates[i].0, '<') && NoChar(updates[i].1, '<')
  }

  lemma TableRulesRelabel(updates: seq<(string, string)>)
    requires LabelsPlain(updates)
    decreases |updates|
    ensures RelabelRules(TableRules(updates))
  {
    if updates != [] {
      TableRulesRelabel(updates[..|updates| - 1]);
    }
  }

  lemma ClassFacts()
    ensures NoChar(NavLink, '"') && NoChar(ActiveLink, '"') && NavLink != ActiveLink
  {
  }

  /** The table's rules act on one piece as the chained label does, for links of the two classes only. */
  lemma {:induction false} PieceAfterTable(updates: seq<(string, string)>, p: Piece)
    requires LabelsPlain(updates)
    decreases |updates|
    ensures RelabelRules(TableRules(updates))
    ensures PieceAfter(TableRules(updates), p) == LinkAfterTable(updates, p)
  {
    TableRulesRelabel(updates);
    if updates != [] {
      var n := |updates| - 1;
      var init := updates[..n];
      var done := TableRules(init);
      var rules := TableRules(updates);
      var pair := EntryRules(updates[n]);
      assert LabelsPlain(init);
      PieceAfterTable(init, p);
      ClassFacts();
      assert rules[..|rules| - 1] == done + [pair[0]];
      assert (done + [pair[0]])[..|done|] == done;
      assert PieceAfter(rules, p) == RelabelPiece(pair[1], RelabelPiece(pair[0], PieceAfter(done, p)));
    }
  }

  /** Dictionary keys are distinct. */
  predicate DistinctKeys(updates: seq<(string, string)>) {
    forall i, j | 0 <= i < j < |updates| :: updates[i].0 != updates[j].0
  }

  /** No new label is the key of another entry, so no link is relabelled twice. */
  predicate Unchained(updates: seq<(string, string)>) {
    forall i, j | 0 <= i < |updates| && 0 <= j < |updates| && i != j :: updates[j].0 != updates[i].1
  }

  /** A caption that is no key keeps its text. */
  lemma {:induction false} ChainLabelMiss(updates: seq<(string, string)>, caption: string)
    requires forall i | 0 <= i < |updates| :: updates[i].0 != caption
    decreases |updates|
    ensures ChainLabel(updates, caption) == caption
  {
    if updates != [] {
      ChainLabelMiss(updates[..|updates| - 1], caption);
    }
  }

  /**
   * A caption that is the key of an entry ends up with that entry's label,
   * whatever the order of the entries: the table acts as a dictionary.
   */
  lemma {:induction false} ChainLabelHit(updates: seq<(string, string)>, k: nat)
    requires k < |updates| && DistinctKeys(updates) && Unchained(updates)
    decreases |updates|
    ensures ChainLabel(updates, updates[k].0) == updates[k].1
  {
    var n := |updates| - 1;
    var init := updates[..n];
    if k == n {
      ChainLabelMiss(init, updates[k].0);
    } else {
      assert DistinctKeys(init) && Unchained(init);
      ChainLabelHit(init, k);
      assert init[k] == updates[k];
    }
  }

  lemma NavKeysPlain()
    ensures NoChar("Color", '<') && NoChar("Effects", '<') && NoChar("Spacing", '<') && NoChar("Grid", '<')
    ensures NoChar("Icons", '<') && NoChar("Illustrations", '<') && NoChar("Logo", '<') && NoChar("System Resources", '<')
  {
  }

  lemma NavValuesPlain()
    ensures NoChar("1 Color Library", '<') && NoChar("2 Spacing System", '<') && NoChar("2 Grid System", '<')
    ensures NoChar("Icons GCC Component", '<') && NoChar("Illustrations GCC Component", '<')
    ensures NoChar("Logo GCC Component", '<') && NoChar("System Resources GCC Component", '<')
  {
  }

  lemma NavLabelsPlain()
    ensures LabelsPlain(NavUpdates)
  {
    NavKeysPlain();
    NavValuesPlain();
  }

  lemma NavKeysDistinct()
    ensures DistinctKeys(NavUpdates)
  {
  }

  lemma NavUnchained()
    ensures Unchained(NavUpdates)
  {
    forall i | 0 <= i < |NavUpdates|
      ensures forall j | 0 <= j < |NavUpdates| && i != j :: NavUpdates[j].0 != NavUpdates[i].1
    {
      ValueNoOtherKey(i);
    }
  }

  /** The label of entry `i` is the caption of no other entry. */
  lemma ValueNoOtherKey(i: nat)
    requires i < |NavUpdates|
    ensures forall j | 0 <= j < |NavUpdates| && i != j :: NavUpdates[j].0 != NavUpdates[i].1
  {
    var v := NavUpdates[i].1;
    forall j | 0 <= j < |NavUpdates| && i != j ensures NavUpdates[j].0 != v {
      var k := NavUpdates[j].0;
      if |k| == |v| {
        assert k[0] != v[0];
      }
    }
  }

  /**
   * `nav_updates` read as a dictionary: a key's caption ends up with its
   * label, whatever the entries' order, and any other caption is kept.
   */
  lemma NavUpdatesDictionary()
    ensures forall k | 0 <= k < |NavUpdates| :: ChainLabel(NavUpdates, NavUpdates[k].0) == NavUpdates[k].1
    ensures forall c | forall k | 0 <= k < |NavUpdates| :: NavUpdates[k].0 != c :: ChainLabel(NavUpdates, c) == c
  {
    NavKeysDistinct();
    NavUnchained();
    forall k | 0 <= k < |NavUpdates| ensures ChainLabel(NavUpdates, NavUpdates[k].0) == NavUpdates[k].1 {
      ChainLabelHit(NavUpdates, k);
    }
    forall c | forall k | 0 <= k < |NavUpdates| :: NavUpdates[k].0 != c ensures ChainLabel(NavUpdates, c) == c {
      ChainLabelMiss(NavUpdates, c);
    }
  }

  /**
   * The effect of `update_navigation_in_file` on a page of markup and
   * links: every link of class `nav-link` or `nav-link active` gets the
   * label `ChainLabel` gives its caption, which `NavUpdatesDictionary`
   * shows is the dictionary's value for a key and the caption itself
   * otherwise; every other link, and all the markup, is kept.
   */
  lemma LabelsOnPage(ps: seq<Piece>)
    requires PiecesOk(ps)
    ensures UpdatedLabels(Render(ps)) == Render(seq(|ps|, i requires 0 <= i < |ps| => LinkAfterTable(NavUpdates, ps[i])))
  {
    var rules := TableRules(NavUpdates);
    NavLabelsPlain();
    TableRulesRelabel(NavUpdates);
    PipelinePieces(rules, ps);
    forall i | 0 <= i < |ps| ensures PieceAfter(rules, ps[i]) == LinkAfterTable(NavUpdates, ps[i]) {
      PieceAfterTable(NavUpdates, ps[i]);
    }
    assert PiecesAfter(rules, ps) == seq(|ps|, i requires 0 <= i < |ps| => LinkAfterTable(NavUpdates, ps[i]));
  }

  /** The `'Effects': 'Effects'` entry never changes a page. */
  lemma EffectsUnchanged(s: string)
    ensures Sub(EntryRules(NavUpdates[1])[0], s) == s && Sub(EntryRules(NavUpdates[1])[1], s) == s
  {
    SubSameCaption(EntryRules(NavUpdates[1])[0], s);
    SubSameCaption(EntryRules(NavUpdates[1])[1], s);
  }
}
