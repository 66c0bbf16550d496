/**
 * Python's `re.sub(pattern, repl, text)` for the handful of pattern shapes the
 * maintenance scripts use, written as the scan the regex engine performs: try
 * to match at the current position; on a match emit the replacement and
 * continue after the match, otherwise copy one character and move on.  Every
 * pattern here matches at most one way at a given position, so no
 * backtracking engine is needed.
 */
module Rewrite {
  import opened Text

  /** The patterns of the scripts' `re.sub` calls. */
  datatype Pattern =
      /** A pattern without metacharacters: it matches its own text. */
    | Literal(text: string)
      /** `open.*?close` with `re.DOTALL`: the shortest span from `open` to the next `close`. */
    | LazySpan(open: string, close: string)
      /**
       * `<a href="[^"]*SUFFIX" class="CLS[^"]*">CAPTION</a>` when `classTail`
       * holds, `<a href="[^"]*SUFFIX" class="CLS">CAPTION</a>` otherwise.
       */
    | Anchor(hrefSuffix: string, cls: string, classTail: bool, caption: string)

  /** What replaces a match. */
  datatype Replacement =
      /** A fixed replacement string. */
    | Const(text: string)
      /** `lambda m: m.group(0).replace(pat, rep)`. */
    | Within(pat: string, rep: string)
      /** `lambda m: m.group(1) + caption + m.group(2)` for an anchor pattern whose groups are the tags around its caption. */
    | Relabel(caption: string)

  datatype Rule = Rule(pattern: Pattern, replacement: Replacement)

  const AnchorStart := "<a href=\""
  const ClassAttr := "\" class=\""
  const AnchorEnd := "</a>"

  /** The text of an anchor with the given `href`, `class` and caption. */
  function AnchorText(href: string, cls: string, caption: string): string {
    AnchorStart + href + ClassAttr + cls + "\">" + caption + AnchorEnd
  }

  predicate ValidPattern(p: Pattern) {
    match p
    case Literal(x) => |x| > 0
    case LazySpan(o, _) => |o| > 0
    case Anchor(_, _, _, _) => true
  }

  predicate WellFormed(r: Rule) {
    ValidPattern(r.pattern) &&
    (r.replacement.Within? ==> |r.replacement.pat| > 0) &&
    (r.replacement.Relabel? ==> r.pattern.Anchor?)
  }

  /** The character every match of `p` starts with. */
  function Lead(p: Pattern): char
    requires ValidPattern(p)
  {
    match p
    case Literal(x) => x[0]
    case LazySpan(o, _) => o[0]
    case Anchor(_, _, _, _) => '<'
  }

  /** The index of the first `"` at or after `i` (`|t|` when there is none): where `[^"]*` starting at `i` stops. */
  function QuoteFrom(t: string, i: nat): (k: nat)
    requires i <= |t|
    ensures i <= k <= |t|
  {
    i + CharIndex(t[i..], '"')
  }

  /** `[^"]*` starting at `i` stops at the first quote after `i`. */
  lemma QuoteFromAfter(t: string, i: nat, a: string, rest: string)
    requires i <= |t| && t[i..] == a + ['"'] + rest && NoChar(a, '"')
    ensures QuoteFrom(t, i) == i + |a|
  {
    CharIndexAfter(a, '"', rest);
  }

  /** `">CAPTION</a>`: how every match of a link pattern ends. */
  function LinkClose(caption: string): string {
    "\">" + caption + AnchorEnd
  }

  /** The length of the anchor matched at the start of `t`, if any. */
  function AnchorMatch(suffix: string, cls: string, classTail: bool, caption: string, t: string): (k: Option<nat>)
    ensures k.Some? ==> |AnchorStart| + |caption| + 4 <= k.value <= |t| && AnchorStart <= t
    ensures k.Some? ==> t[k.value - |caption| - 4..k.value] == caption + AnchorEnd
  {
    match CaptionAt(suffix, cls, classTail, t)
    case None => None
    case Some(c) => CloseAt(caption, t, c)
  }

  /** Where `">CAPTION</a>` must start for the anchor at the start of `t` to match, if its `href` and class match. */
  function CaptionAt(suffix: string, cls: string, classTail: bool, t: string): (c: Option<nat>)
    ensures c.Some? ==> |AnchorStart| <= c.value <= |t| && AnchorStart <= t
  {
    if !(AnchorStart <= t) then None
    else
      var i := |AnchorStart|;
      var h := QuoteFrom(t, i);
      if h == |t| || !EndsWith(t[i..h], suffix) || !(ClassAttr + cls <= t[h..]) then None
      else
        var j := h + |ClassAttr + cls|;
        Some(if classTail then QuoteFrom(t, j) else j)
  }

  /** The end of `">CAPTION</a>` when it starts at index `c` of `t`. */
  function CloseAt(caption: string, t: string, c: nat): (k: Option<nat>)
    requires c <= |t|
    ensures k.Some? ==> k.value == c + |caption| + 6 <= |t|
    ensures k.Some? ==> t[k.value - |caption| - 4..k.value] == caption + AnchorEnd
  {
    var close := LinkClose(caption);
    if close <= t[c..] then
      PrefixOccurs(t, close, c);
      assert t[c + 2..c + |close|] == t[c..c + |close|][2..];
      Some(c + |close|)
    else None
  }

  /** A match of `CloseAt` ends with the whole `">CAPTION</a>`. */
  lemma CloseAtClose(caption: string, t: string, c: nat)
    requires c <= |t|
    ensures var k := CloseAt(caption, t, c);
      k.Some? ==> t[k.value - |caption| - 6..k.value] == LinkClose(caption)
  {
    if LinkClose(caption) <= t[c..] {
      PrefixOccurs(t, LinkClose(caption), c);
    }
  }

  /** A match of an anchor pattern ends with `">CAPTION</a>`. */
  lemma AnchorMatchClose(p: Pattern, t: string)
    requires p.Anchor?
    ensures var k := MatchAt(p, t);
      k.Some? ==> |p.caption| + 6 <= k.value && t[k.value - |p.caption| - 6..k.value] == LinkClose(p.caption)
  {
    match CaptionAt(p.hrefSuffix, p.cls, p.classTail, t)
    case None =>
    case Some(c) => CloseAtClose(p.caption, t, c);
  }

  /** The length of the match of `p` at the start of `t` (`re.match`), if any. */
  function MatchAt(p: Pattern, t: string): (r: Option<nat>)
    requires ValidPattern(p)
    ensures r.Some? ==> 0 < r.value <= |t| && t[0] == Lead(p)
    ensures r.Some? && p.Anchor? ==>
      |p.caption| + 4 <= r.value && t[r.value - |p.caption| - 4..r.value] == p.caption + AnchorEnd
  {
    match p
    case Literal(x) => if x <= t then Some(|x|) else None
    case LazySpan(o, c) =>
      if o <= t then
        match Find(t[|o|..], c)
        case None => None
        case Some(j) => Some(|o| + j + |c|)
      else None
    case Anchor(suffix, cls, tail, caption) => AnchorMatch(suffix, cls, tail, caption, t)
  }

  /** The text that replaces the match `m` of `r`'s pattern. */
  function Expand(r: Rule, m: string): string
    requires WellFormed(r)
    requires r.replacement.Relabel? ==> |r.pattern.caption| + 4 <= |m|
  {
    match r.replacement
    case Const(t) => t
    case Within(a, b) => ReplaceAll(m, a, b)
    case Relabel(l) => m[..|m| - |r.pattern.caption| - 4] + l + AnchorEnd
  }

  /** `re.sub(pattern, repl, s)`: every leftmost, non-overlapping match replaced. */
  function Sub(r: Rule, s: string): string
    requires WellFormed(r)
    decreases |s|
  {
    if s == [] then []
    else
      match MatchAt(r.pattern, s)
      case Some(k) => Expand(r, s[..k]) + Sub(r, s[k..])
      case None => [s[0]] + Sub(r, s[1..])
  }

  predicate AllWellFormed(rules: seq<Rule>) {
    forall i | 0 <= i < |rules| :: WellFormed(rules[i])
  }

  /** `for pattern, repl in rules: s = re.sub(pattern, repl, s)`. */
  function Pipeline(rules: seq<Rule>, s: string): string
    requires AllWellFormed(rules)
    decreases |rules|
  {
    if rules == [] then s
    else Sub(rules[|rules| - 1], Pipeline(rules[..|rules| - 1], s))
  }

  /** The rule loop of the scripts, run over a local `content` variable. */
  method ApplyRules(rules: seq<Rule>, s: string) returns (content: string)
    requires AllWellFormed(rules)
    ensures content == Pipeline(rules, s)
  {
    content := s;
    var i := 0;
    while i < |rules|
      invariant 0 <= i <= |rules|
      invariant content == Pipeline(rules[..i], s)
    {
      assert rules[..i + 1][..i] == rules[..i];
      content := Sub(rules[i], content);
      i := i + 1;
    }
    assert rules[..|rules|] == rules;
  }

  // ---------------------------------------------------------------------
  // The scan

  /** Positions of `s` below `n` where the pattern does not match. */
  predicate NoMatchBefore(p: Pattern, s: string, n: nat)
    requires ValidPattern(p)
  {
    forall j | 0 <= j < n && j < |s| :: MatchAt(p, s[j..]).None?
  }

  /** One step of the scan at a position where the pattern matches. */
  lemma SubHit(r: Rule, s: string, k: nat)
    requires WellFormed(r) && s != [] && MatchAt(r.pattern, s) == Some(k)
    ensures Sub(r, s) == Expand(r, s[..k]) + Sub(r, s[k..])
  {
  }

  /** A match that spans all of `x` is replaced, and the scan resumes after it. */
  lemma SubAt(r: Rule, x: string, b: string)
    requires WellFormed(r) && x != [] && MatchAt(r.pattern, x + b) == Some(|x|)
    ensures r.replacement.Relabel? ==> |r.pattern.caption| + 4 <= |x|
    ensures Sub(r, x + b) == Expand(r, x) + Sub(r, b)
  {
    SubHit(r, x + b, |x|);
    assert (x + b)[..|x|] == x && (x + b)[|x|..] == b;
  }

  /** One step of the scan at a position where the pattern does not match. */
  lemma SubMiss(r: Rule, s: string)
    requires WellFormed(r) && s != [] && MatchAt(r.pattern, s).None?
    ensures Sub(r, s) == [s[0]] + Sub(r, s[1..])
  {
  }

  /** Text before the first possible match passes through unchanged. */
  lemma {:induction false} SubSkip(r: Rule, a: string, b: string)
    requires WellFormed(r) && NoMatchBefore(r.pattern, a + b, |a|)
    decreases |a|
    ensures Sub(r, a + b) == a + Sub(r, b)
  {
    if a != [] {
      var s := a + b;
      var t := a[1..] + b;
      assert s[0..] == s;
      assert s[1..] == t;
      forall j | 0 <= j < |a| - 1 && j < |t| ensures MatchAt(r.pattern, t[j..]).None? {
        assert t[j..] == s[j + 1..];
      }
      SubSkip(r, a[1..], b);
      SubMiss(r, s);
      ConcatAssoc([a[0]], a[1..], Sub(r, b));
      assert [a[0]] + a[1..] == a;
    } else {
      assert a + b == b;
    }
  }

  /** Text free of the lead character of the pattern passes through unchanged. */
  lemma SubSkipLeadFree(r: Rule, a: string, b: string)
    requires WellFormed(r) && NoChar(a, Lead(r.pattern))
    ensures Sub(r, a + b) == a + Sub(r, b)
  {
    forall j | 0 <= j < |a| && j < |a + b| ensures MatchAt(r.pattern, (a + b)[j..]).None? {
      assert (a + b)[j..][0] == a[j];
    }
    SubSkip(r, a, b);
  }

  /** A text where the pattern matches nowhere is left as it is. */
  lemma SubNoMatch(r: Rule, s: string)
    requires WellFormed(r) && NoMatchBefore(r.pattern, s, |s|)
    ensures Sub(r, s) == s
  {
    assert s + [] == s;
    SubSkip(r, s, []);
  }

  /** A literal pattern substitutes exactly like `str.replace`. */
  lemma {:induction false} SubLiteral(x: string, y: string, s: string)
    requires |x| > 0
    decreases |s|
    ensures Sub(Rule(Literal(x), Const(y)), s) == ReplaceAll(s, x, y)
  {
    if s != [] {
      var r := Rule(Literal(x), Const(y));
      if x <= s {
        assert OccursAt(s, x, 0);
        ReplaceAllHead(s, x, y);
        SubLiteral(x, y, s[|x|..]);
      } else {
        assert !OccursAt(s, x, 0) by {
          if |x| <= |s| { assert s[..|x|] == s[0..|x|]; }
        }
        ReplaceAllTail(s, x, y);
        SubLiteral(x, y, s[1..]);
      }
    } else {
      assert !OccursAt(s, x, 0);
    }
  }

  /** A relabelling rule whose new caption is its old one never changes the text. */
  lemma {:induction false} SubSameCaption(r: Rule, s: string)
    requires WellFormed(r) && r.replacement.Relabel? && r.replacement.caption == r.pattern.caption
    decreases |s|
    ensures Sub(r, s) == s
  {
    if s != [] {
      var m := MatchAt(r.pattern, s);
      if m.Some? {
        SubSameCaption(r, s[m.value..]);
        SameCaptionHit(r, s, m.value);
        HitKept(r, s, m.value);
      } else {
        SubSameCaption(r, s[1..]);
        SameCaptionMiss(r, s);
      }
    }
  }

  lemma SameCaptionHit(r: Rule, s: string, k: nat)
    requires WellFormed(r) && r.replacement.Relabel? && r.replacement.caption == r.pattern.caption
    requires MatchAt(r.pattern, s) == Some(k)
    ensures |r.pattern.caption| + 4 <= k <= |s| && Expand(r, s[..k]) == s[..k]
  {
    HitEnd(r.pattern, s, k);
    SameCaptionMatch(r, s[..k]);
  }

  /** The text up to the end `k` of an anchor match ends with the caption and the closing tag. */
  lemma HitEnd(p: Pattern, s: string, k: nat)
    requires ValidPattern(p) && p.Anchor? && MatchAt(p, s) == Some(k)
    ensures |p.caption| + 4 <= k <= |s| && s[..k][k - |p.caption| - 4..] == p.caption + AnchorEnd
  {
    PrefixTail(s, k, k - |p.caption| - 4);
  }

  lemma PrefixTail(s: string, k: nat, n: nat)
    requires n <= k <= |s|
    ensures s[..k][n..] == s[n..k]
  {
  }

  /** A match that expands to itself, followed by a rest that is kept, leaves the text as it is. */
  lemma HitKept(r: Rule, s: string, k: nat)
    requires WellFormed(r) && s != [] && MatchAt(r.pattern, s) == Some(k)
    requires r.replacement.Relabel? ==> |r.pattern.caption| + 4 <= k
    requires Expand(r, s[..k]) == s[..k] && Sub(r, s[k..]) == s[k..]
    ensures Sub(r, s) == s
  {
    SubHit(r, s, k);
    assert s == s[..k] + s[k..];
  }

  lemma SameCaptionMiss(r: Rule, s: string)
    requires WellFormed(r) && r.replacement.Relabel?
    requires s != [] && MatchAt(r.pattern, s).None? && Sub(r, s[1..]) == s[1..]
    ensures Sub(r, s) == s
  {
    SubMiss(r, s);
    assert s == [s[0]] + s[1..];
  }

  lemma SameCaptionMatch(r: Rule, m: string)
    requires WellFormed(r) && r.replacement.Relabel? && r.replacement.caption == r.pattern.caption
    requires |r.pattern.caption| + 4 <= |m| && m[|m| - |r.pattern.caption| - 4..] == r.pattern.caption + AnchorEnd
    ensures Expand(r, m) == m
  {
    var n := |m| - |r.pattern.caption| - 4;
    assert m == m[..n] + m[n..];
  }

  // ---------------------------------------------------------------------
  // Rule lists

  lemma {:induction false} PipelineAppend(r1: seq<Rule>, r2: seq<Rule>, s: string)
    requires AllWellFormed(r1) && AllWellFormed(r2)
    decreases |r2|
    ensures AllWellFormed(r1 + r2)
    ensures Pipeline(r1 + r2, s) == Pipeline(r2, Pipeline(r1, s))
  {
    if r2 == [] {
      assert r1 + r2 == r1;
    } else {
      var init := r2[..|r2| - 1];
      assert (r1 + r2)[..|r1 + r2| - 1] == r1 + init;
      PipelineAppend(r1, init, s);
    }
  }

  /** The rules of a table of `(old, new)` pairs whose patterns are plain text. */
  function LiteralRules(pairs: seq<(string, string)>): (rules: seq<Rule>)
    requires NonEmptyPatterns(pairs)
    ensures |rules| == |pairs| && AllWellFormed(rules)
    ensures forall i | 0 <= i < |pairs| :: rules[i] == Rule(Literal(pairs[i].0), Const(pairs[i].1))
  {
    seq(|pairs|, i requires 0 <= i < |pairs| => Rule(Literal(pairs[i].0), Const(pairs[i].1)))
  }

  predicate NonEmptyPatterns(pairs: seq<(string, string)>) {
    forall i | 0 <= i < |pairs| :: |pairs[i].0| > 0
  }

  /** `for old, new in pairs: s = s.replace(old, new)`. */
  function ReplaceChain(pairs: seq<(string, string)>, s: string): string
    requires NonEmptyPatterns(pairs)
    decreases |pairs|
  {
    if pairs == [] then s
    else
      var last := pairs[|pairs| - 1];
      ReplaceAll(ReplaceChain(pairs[..|pairs| - 1], s), last.0, last.1)
  }

  /** The `re.sub` loop over a table of plain-text patterns is a chain of `str.replace` calls. */
  lemma {:induction false} LiteralPipeline(pairs: seq<(string, string)>, s: string)
    requires NonEmptyPatterns(pairs)
    decreases |pairs|
    ensures Pipeline(LiteralRules(pairs), s) == ReplaceChain(pairs, s)
  {
    if pairs != [] {
      var n := |pairs| - 1;
      var rules := LiteralRules(pairs);
      assert rules[..n] == LiteralRules(pairs[..n]);
      LiteralPipeline(pairs[..n], s);
      SubLiteral(pairs[n].0, pairs[n].1, ReplaceChain(pairs[..n], s));
    }
  }

  /** No pattern of the table occurs in `s`. */
  predicate NoneOccur(pairs: seq<(string, string)>, s: string) {
    forall i | 0 <= i < |pairs| :: !Contains(s, pairs[i].0)
  }

  /**
   * No replacement text can create or complete an occurrence of its own or
   * an earlier pair's pattern.
   */
  predicate Settled(pairs: seq<(string, string)>) {
    forall k, j | 0 <= k <= j < |pairs| :: Isolated(pairs[k].0, pairs[j].1)
  }

  /** Two settled tables, with no later replacement touching an earlier pattern, make a settled table. */
  lemma SettledConcat(a: seq<(string, string)>, b: seq<(string, string)>)
    requires Settled(a) && Settled(b)
    requires forall k, j | 0 <= k < |a| && 0 <= j < |b| :: Isolated(a[k].0, b[j].1)
    ensures Settled(a + b)
  {
    var ab := a + b;
    forall k, j | 0 <= k <= j < |ab| ensures Isolated(ab[k].0, ab[j].1) {
      if j < |a| {
        assert ab[k] == a[k] && ab[j] == a[j];
      } else if k < |a| {
        assert ab[k] == a[k] && ab[j] == b[j - |a|];
      } else {
        assert ab[k] == b[k - |a|] && ab[j] == b[j - |a|];
      }
    }
  }

  /** The rules of two tables run one after the other are the rules of the joined table. */
  lemma LiteralRulesAppend(a: seq<(string, string)>, b: seq<(string, string)>)
    requires NonEmptyPatterns(a) && NonEmptyPatterns(b)
    ensures NonEmptyPatterns(a + b)
    ensures LiteralRules(a + b) == LiteralRules(a) + LiteralRules(b)
  {
    assert forall i | 0 <= i < |a + b| :: (a + b)[i] == if i < |a| then a[i] else b[i - |a|];
  }

  /** Content containing none of the patterns comes out of the chain unchanged. */
  lemma {:induction false} ChainUntouched(pairs: seq<(string, string)>, s: string)
    requires NonEmptyPatterns(pairs) && NoneOccur(pairs, s)
    decreases |pairs|
    ensures ReplaceChain(pairs, s) == s
  {
    if pairs != [] {
      var n := |pairs| - 1;
      assert NonEmptyPatterns(pairs[..n]) && NoneOccur(pairs[..n], s) by {
        forall i | 0 <= i < n ensures pairs[..n][i] == pairs[i] { }
      }
      ChainUntouched(pairs[..n], s);
    }
  }

  /** After a settled chain has run, none of its patterns is left. */
  lemma {:induction false} ChainClears(pairs: seq<(string, string)>, s: string)
    requires NonEmptyPatterns(pairs) && Settled(pairs)
    decreases |pairs|
    ensures NoneOccur(pairs, ReplaceChain(pairs, s))
  {
    if pairs != [] {
      var n := |pairs| - 1;
      var init := pairs[..n];
      assert NonEmptyPatterns(init) && Settled(init) by {
        forall i | 0 <= i < n ensures init[i] == pairs[i] { }
      }
      ChainClears(init, s);
      var before := ReplaceChain(init, s);
      forall k | 0 <= k <= n ensures !Contains(ReplaceChain(pairs, s), pairs[k].0) {
        assert Isolated(pairs[k].0, pairs[n].1);
        if k < n {
          assert init[k] == pairs[k];
        }
        ReplaceAllLeavesNone(before, pairs[n].0, pairs[n].1, pairs[k].0);
      }
    }
  }

  /** Running a settled table of plain-text rules a second time changes nothing. */
  lemma PipelineIdempotent(pairs: seq<(string, string)>, s: string)
    requires NonEmptyPatterns(pairs) && Settled(pairs)
    ensures Pipeline(LiteralRules(pairs), Pipeline(LiteralRules(pairs), s)) == Pipeline(LiteralRules(pairs), s)
  {
    var once := ReplaceChain(pairs, s);
    LiteralPipeline(pairs, s);
    LiteralPipeline(pairs, once);
    ChainClears(pairs, s);
    ChainUntouched(pairs, once);
  }

  /** Every rule of the list leaves `s` as it is. */
  predicate Fixes(rules: seq<Rule>, s: string)
    requires AllWellFormed(rules)
  {
    forall i | 0 <= i < |rules| :: Sub(rules[i], s) == s
  }

  /** Rules that each leave `s` as it is leave it as it is together. */
  lemma {:induction false} PipelineFixed(rules: seq<Rule>, s: string)
    requires AllWellFormed(rules) && Fixes(rules, s)
    decreases |rules|
    ensures Pipeline(rules, s) == s
  {
    if rules != [] {
      var n := |rules| - 1;
      FixesPrefix(rules, s, n);
      PipelineFixed(rules[..n], s);
    }
  }

  lemma FixesPrefix(rules: seq<Rule>, s: string, n: nat)
    requires AllWellFormed(rules) && Fixes(rules, s) && n <= |rules|
    ensures AllWellFormed(rules[..n]) && Fixes(rules[..n], s)
  {
    forall i | 0 <= i < n ensures rules[..n][i] == rules[i] { }
  }

  /**
   * An anchor rule leaves alone a text in which its caption never stands
   * between `">` and the closing tag.
   */
  lemma AnchorAbsent(r: Rule, s: string)
    requires WellFormed(r) && r.pattern.Anchor? && !Contains(s, LinkClose(r.pattern.caption))
    ensures Sub(r, s) == s
  {
    var x := LinkClose(r.pattern.caption);
    forall j | 0 <= j < |s| ensures MatchAt(r.pattern, s[j..]).None? {
      var m := MatchAt(r.pattern, s[j..]);
      if m.Some? {
        AnchorMatchClose(r.pattern, s[j..]);
        OccursInSuffix(s, x, j, m.value - |x|);
      }
    }
    SubNoMatch(r, s);
  }

  // ---------------------------------------------------------------------
  // Lazy spans

  /** Without any `close` in the text, a span rule finds nothing to replace. */
  lemma SpanNoClose(r: Rule, s: string)
    requires WellFormed(r) && r.pattern.LazySpan? && !Contains(s, r.pattern.close)
    ensures Sub(r, s) == s
  {
    var o, c := r.pattern.open, r.pattern.close;
    forall j | 0 <= j < |s| ensures MatchAt(r.pattern, s[j..]).None? {
      var t := s[j..];
      if o <= t {
        var m := j + |o|;
        assert t[|o|..] == s[m..];
        NotInSuffix(s, c, m);
        assert Find(t[|o|..], c).None?;
      }
    }
    SubNoMatch(r, s);
  }

  /** With `close` absent from `m`, the span `open + m + close` is a match. */
  lemma SpanMatch(p: Pattern, m: string, b: string)
    requires ValidPattern(p) && p.LazySpan? && LoneLead(p.close) && !Contains(m, p.close)
    ensures MatchAt(p, p.open + m + p.close + b) == Some(|p.open + m + p.close|)
  {
    SpanLayout(p.open, m, p.close, b);
    FindAfter(m, p.close, b);
  }

  lemma SpanLayout(o: string, m: string, c: string, b: string)
    ensures o <= o + m + c + b && (o + m + c + b)[|o|..] == m + c + b
  {
    assert o + m + c + b == o + (m + c + b);
  }

  /** Before the first `open`, a span rule matches nowhere. */
  lemma SpanSkip(r: Rule, a: string, rest: string)
    requires WellFormed(r) && r.pattern.LazySpan? && LoneLead(r.pattern.open)
    requires !Contains(a, r.pattern.open) && r.pattern.open <= rest
    ensures Sub(r, a + rest) == a + Sub(r, rest)
  {
    var o := r.pattern.open;
    var s := a + rest;
    assert s == a + o + rest[|o|..];
    FindAfter(a, o, rest[|o|..]);
    forall j | 0 <= j < |a| && j < |s| ensures MatchAt(r.pattern, s[j..]).None? {
      PrefixOccurs(s, o, j);
    }
    SubSkip(r, a, rest);
  }

  /**
   * The first span of the text is replaced and the text before it is kept:
   * with `open` absent from `a` and `close` absent from `m`, the span
   * `open + m + close` is the first match.
   */
  lemma SpanReplaced(r: Rule, a: string, m: string, b: string)
    requires WellFormed(r) && r.pattern.LazySpan? && r.replacement.Const?
    requires LoneLead(r.pattern.open) && LoneLead(r.pattern.close)
    requires !Contains(a, r.pattern.open) && !Contains(m, r.pattern.close)
    ensures Sub(r, a + r.pattern.open + m + r.pattern.close + b) == a + r.replacement.text + Sub(r, b)
  {
    var o, c := r.pattern.open, r.pattern.close;
    var rest := o + m + c + b;
    assert a + o + m + c + b == a + rest;
    SpanSkip(r, a, rest);
    SpanMatch(r.pattern, m, b);
    var k := |o| + |m| + |c|;
    assert rest[k..] == b;
  }

  /** A span rule whose replacement is itself one span. */
  predicate SpanRule(r: Rule, inner: string) {
    WellFormed(r) && r.pattern.LazySpan? && r.replacement.Const? &&
    LoneLead(r.pattern.open) && LoneLead(r.pattern.close) &&
    r.pattern.open[0] == r.pattern.close[0] && !Contains(inner, r.pattern.close) &&
    r.replacement.text == r.pattern.open + inner + r.pattern.close
  }

  /** The scan of a text starting with the lead character emits that character first. */
  lemma SpanSubLead(r: Rule, inner: string, v: string)
    requires SpanRule(r, inner) && v != [] && v[0] == r.pattern.open[0]
    ensures Sub(r, v) != [] && Sub(r, v)[0] == r.pattern.open[0]
  {
    match MatchAt(r.pattern, v)
    case Some(k) => SubHit(r, v, k);
    case None => SubMiss(r, v);
  }

  /** Where the first pass found no span, the second pass finds none either. */
  lemma SpanStillMisses(r: Rule, inner: string, s: string)
    requires SpanRule(r, inner) && s != [] && MatchAt(r.pattern, s).None?
    ensures MatchAt(r.pattern, [s[0]] + Sub(r, s[1..])).None?
  {
    var o, c := r.pattern.open, r.pattern.close;
    if o <= s {
      NotOpenedAgain(s, o, c);
      SpanNoClose(r, s[1..]);
      assert [s[0]] + s[1..] == s;
    } else {
      StillUnopened(r, inner, s);
    }
  }

  /** A text not starting with `open` does not start with it after its tail is rewritten. */
  lemma StillUnopened(r: Rule, inner: string, s: string)
    requires SpanRule(r, inner) && s != [] && !(r.pattern.open <= s)
    ensures !(r.pattern.open <= [s[0]] + Sub(r, s[1..]))
  {
    var L := r.pattern.open[0];
    var u := s[1..];
    var n := CharIndex(u, L);
    assert u == u[..n] + u[n..];
    SubSkipLeadFree(r, u[..n], u[n..]);
    var z := Sub(r, u[n..]);
    if u[n..] != [] {
      SpanSubLead(r, inner, u[n..]);
    }
    PrefixBlocked(s, r.pattern.open, n, z);
  }

  /**
   * If `s` does not start with `o`, neither does `s` with its tail replaced by
   * the tail's `o[0]`-free prefix followed by a text that starts with `o[0]`.
   */
  lemma PrefixBlocked(s: string, o: string, n: nat, z: string)
    requires s != [] && !(o <= s) && LoneLead(o) && n <= |s| - 1
    requires NoChar(s[1..][..n], o[0]) && (z == [] || z[0] == o[0])
    ensures !(o <= [s[0]] + (s[1..][..n] + z))
  {
    var t := [s[0]] + (s[1..][..n] + z);
    if n >= |o| - 1 {
      assert t[..|o|] == s[..|o|];
    } else if |t| > n + 1 {
      assert t[n + 1] == z[0];
      assert t[n + 1] != o[n + 1];
    }
  }

  /** After an `open` whose rest holds no `close`, no `close` occurs past its first character. */
  lemma NotOpenedAgain(s: string, o: string, c: string)
    requires LoneLead(o) && LoneLead(c) && o[0] == c[0] && o <= s && Find(s[|o|..], c).None?
    ensures !Contains(s[1..], c)
  {
    var u := s[1..];
    forall q | 0 <= q <= |u| ensures !OccursAt(u, c, q) {
      if q + |c| <= |u| {
        if q + 1 >= |o| {
          assert u[q..q + |c|] == s[|o|..][q + 1 - |o|..q + 1 - |o| + |c|];
          assert !OccursAt(s[|o|..], c, q + 1 - |o|);
        } else {
          assert u[q..q + |c|][0] == o[q + 1] != c[0];
        }
      }
    }
  }

  /**
   * A span rule whose replacement is one complete span is idempotent: the
   * second pass finds every inserted span again and replaces it by itself,
   * and finds nothing anywhere else.
   */
  lemma {:induction false} SpanIdempotent(r: Rule, inner: string, s: string)
    requires SpanRule(r, inner)
    decreases |s|
    ensures Sub(r, Sub(r, s)) == Sub(r, s)
  {
    if s != [] {
      match MatchAt(r.pattern, s)
      case Some(k) =>
        SubHit(r, s, k);
        SpanIdempotent(r, inner, s[k..]);
        SpanFoundAgain(r, inner, Sub(r, s[k..]));
      case None =>
        SubMiss(r, s);
        SpanIdempotent(r, inner, s[1..]);
        SpanMissedAgain(r, inner, s);
    }
  }

  /** An inserted span, followed by settled text, is replaced by itself. */
  lemma SpanFoundAgain(r: Rule, inner: string, x: string)
    requires SpanRule(r, inner) && Sub(r, x) == x
    ensures Sub(r, r.replacement.text + x) == r.replacement.text + x
  {
    var rep := r.replacement.text;
    var rx := rep + x;
    var n := |rep|;
    SpanMatch(r.pattern, inner, x);
    assert r.pattern.open + inner + r.pattern.close + x == rx;
    SubHit(r, rx, n);
    assert rx[..n] == rep && rx[n..] == x;
  }

  /** A character the first pass kept, followed by settled text, is kept again. */
  lemma SpanMissedAgain(r: Rule, inner: string, s: string)
    requires SpanRule(r, inner) && s != [] && MatchAt(r.pattern, s).None?
    requires Sub(r, Sub(r, s[1..])) == Sub(r, s[1..])
    ensures Sub(r, [s[0]] + Sub(r, s[1..])) == [s[0]] + Sub(r, s[1..])
  {
    var y := Sub(r, s[1..]);
    SpanStillMisses(r, inner, s);
    SubMiss(r, [s[0]] + y);
    assert ([s[0]] + y)[1..] == y;
  }
}
