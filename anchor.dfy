/**
 * What the anchor patterns of the link-label rules do to one navigation link
 * `<a href="HREF" class="CLASS">CAPTION</a>`: which links they match, and
 * what the three kinds of replacement leave in place of a matched link.
 */
module Anchors {
  import opened Text
  import opened Rewrite

  /** The part of a link before its caption. */
  function AnchorHead(href: string, cls: string): string {
    AnchorStart + href + ClassAttr + cls + "\">"
  }

  /** A link as the site writes them: `href` and class without quotes, and no `<` before the closing tag. */
  predicate Plain(href: string, cls: string, caption: string) {
    NoChar(href, '"') && NoChar(cls, '"') && NoChar(href, '<') && NoChar(cls, '<') && NoChar(caption, '<')
  }

  /** Two texts, each free of `d`, that line up up to the first `d` are equal. */
  lemma Delimited(x: string, y: string, d: char, r: string)
    requires NoChar(x, d) && NoChar(y, d) && x + [d] <= y + [d] + r
    ensures x == y
  {
    var u := y + [d] + r;
    assert u == x + [d] + u[|x| + 1..];
    CharIndexAfter(x, d, u[|x| + 1..]);
    CharIndexAfter(y, d, r);
    assert x == u[..|x|] == y;
  }

  /** Where the matcher's indices fall in a link followed by `b`. */
  lemma AnchorLayout(href: string, cls: string, caption: string, b: string)
    requires NoChar(href, '"')
    ensures var t := AnchorText(href, cls, caption) + b;
      var i := |AnchorStart|;
      var h := i + |href|;
      AnchorStart <= t && QuoteFrom(t, i) == h && t[i..h] == href &&
      t[h..] == ClassAttr + cls + ("\">" + caption + AnchorEnd) + b
  {
    var t := AnchorText(href, cls, caption) + b;
    var i := |AnchorStart|;
    var tail := cls + "\">" + caption + AnchorEnd + b;
    assert t == AnchorStart + href + ClassAttr + tail;
    assert t[i..] == href + ['"'] + (ClassAttr[1..] + tail);
    CharIndexAfter(href, '"', ClassAttr[1..] + tail);
  }

  /** The same layout seen from the end of the `href`, for a class that is the pattern's class followed by `tail`. */
  lemma TailLayout(u: string, pcls: string, tail: string, caption: string, b: string)
    requires u == ClassAttr + (pcls + tail) + ("\">" + caption + AnchorEnd) + b
    ensures ClassAttr + pcls <= u
    ensures u[|ClassAttr + pcls|..] == tail + ['"'] + (">" + caption + AnchorEnd + b)
    ensures "\">" + caption + AnchorEnd <= u[|ClassAttr + pcls| + |tail|..]
  {
    assert u == ClassAttr + pcls + (tail + ("\">" + caption + AnchorEnd + b));
  }

  /** The matcher's verdict on an exact-class pattern once its indices are known. */
  lemma AnchorMatchExact(p: Pattern, t: string, h: nat, c: nat)
    requires p.Anchor? && !p.classTail && AnchorStart <= t
    requires h == QuoteFrom(t, |AnchorStart|) && h < |t|
    requires EndsWith(t[|AnchorStart|..h], p.hrefSuffix) && ClassAttr + p.cls <= t[h..]
    requires c == h + |ClassAttr + p.cls|
    requires "\">" + p.caption + AnchorEnd <= t[c..]
    ensures MatchAt(p, t) == Some(c + |"\">" + p.caption + AnchorEnd|)
  {
    AnchorMatchUnfold(p, t, h, c);
    CloseAtHit(p.caption, t, c);
  }

  /** The matcher's verdict on a pattern that allows more class text once its indices are known. */
  lemma AnchorMatchTail(p: Pattern, t: string, h: nat, j: nat, c: nat)
    requires p.Anchor? && p.classTail && AnchorStart <= t
    requires h == QuoteFrom(t, |AnchorStart|) && h < |t|
    requires EndsWith(t[|AnchorStart|..h], p.hrefSuffix) && ClassAttr + p.cls <= t[h..]
    requires j == h + |ClassAttr + p.cls| && j <= |t| && c == QuoteFrom(t, j)
    requires "\">" + p.caption + AnchorEnd <= t[c..]
    ensures MatchAt(p, t) == Some(c + |"\">" + p.caption + AnchorEnd|)
  {
    AnchorMatchUnfold(p, t, h, j);
    CloseAtHit(p.caption, t, c);
  }

  /** Once the `href` and the class are known to fit, the matcher's verdict is that of the closing text. */
  lemma AnchorMatchUnfold(p: Pattern, t: string, h: nat, j: nat)
    requires p.Anchor? && AnchorStart <= t
    requires h == QuoteFrom(t, |AnchorStart|) && h < |t|
    requires EndsWith(t[|AnchorStart|..h], p.hrefSuffix) && ClassAttr + p.cls <= t[h..]
    requires j == h + |ClassAttr + p.cls|
    ensures j <= |t| && QuoteFrom(t, j) <= |t|
    ensures MatchAt(p, t) == CloseAt(p.caption, t, if p.classTail then QuoteFrom(t, j) else j)
  {
    MatchAtAnchor(p, t);
    AnchorMatchSteps(p.hrefSuffix, p.cls, p.classTail, p.caption, t, h, j);
  }

  lemma MatchAtAnchor(p: Pattern, t: string)
    requires p.Anchor?
    ensures MatchAt(p, t) == AnchorMatch(p.hrefSuffix, p.cls, p.classTail, p.caption, t)
  {
  }

  lemma AnchorMatchSteps(suffix: string, cls: string, classTail: bool, caption: string, t: string, h: nat, j: nat)
    requires AnchorStart <= t && h == QuoteFrom(t, |AnchorStart|) && h < |t|
    requires EndsWith(t[|AnchorStart|..h], suffix) && ClassAttr + cls <= t[h..]
    requires j == h + |ClassAttr + cls|
    ensures j <= |t| && QuoteFrom(t, j) <= |t|
    ensures AnchorMatch(suffix, cls, classTail, caption, t) == CloseAt(caption, t, if classTail then QuoteFrom(t, j) else j)
  {
    assert j <= |t|;
    assert CaptionAt(suffix, cls, classTail, t) == Some(if classTail then QuoteFrom(t, j) else j);
  }

  /** The closing text found where it is expected. */
  lemma CloseAtHit(caption: string, t: string, c: nat)
    requires c <= |t| && "\">" + caption + AnchorEnd <= t[c..]
    ensures CloseAt(caption, t, c) == Some(c + |"\">" + caption + AnchorEnd|)
  {
  }

  /** An anchor pattern matches a link whose `href` ends with its suffix, whose class is its class (followed, when the pattern allows, by more class text), and whose caption is its caption: the whole link and nothing more. */
  lemma AnchorMatches(p: Pattern, href: string, tail: string, b: string)
    requires p.Anchor? && NoChar(href, '"') && EndsWith(href, p.hrefSuffix)
    requires NoChar(tail, '"') && (p.classTail || tail == [])
    ensures var x := AnchorText(href, p.cls + tail, p.caption);
      MatchAt(p, x + b) == Some(|x|)
  {
    var x := AnchorText(href, p.cls + tail, p.caption);
    AnchorLayout(href, p.cls + tail, p.caption, b);
    AnchorMatchesAt(p, x + b, |AnchorStart| + |href|, tail, b);
  }

  /** The same, once the end `h` of the `href` is known. */
  lemma AnchorMatchesAt(p: Pattern, t: string, h: nat, tail: string, b: string)
    requires p.Anchor? && NoChar(tail, '"') && (p.classTail || tail == [])
    requires AnchorStart <= t && h == QuoteFrom(t, |AnchorStart|) && h <= |t|
    requires EndsWith(t[|AnchorStart|..h], p.hrefSuffix)
    requires t[h..] == ClassAttr + (p.cls + tail) + ("\">" + p.caption + AnchorEnd) + b
    ensures MatchAt(p, t) == Some(|t| - |b|)
  {
    var j := h + |ClassAttr + p.cls|;
    var c := j + |tail|;
    AnchorIndices(t, h, p.cls, tail, p.caption, b);
    if p.classTail {
      QuoteFromAfter(t, j, tail, ">" + p.caption + AnchorEnd + b);
      AnchorMatchTail(p, t, h, j, c);
    } else {
      AnchorMatchExact(p, t, h, c);
    }
  }

  /** Where the class, its tail and the closing text stand in a text laid out as an anchor from index `h` on. */
  lemma AnchorIndices(t: string, h: nat, cls: string, tail: string, caption: string, b: string)
    requires h <= |t| && t[h..] == ClassAttr + (cls + tail) + ("\">" + caption + AnchorEnd) + b
    ensures ClassAttr + cls <= t[h..] && h + |ClassAttr + cls| + |tail| <= |t|
    ensures t[h + |ClassAttr + cls|..] == tail + ['"'] + (">" + caption + AnchorEnd + b)
    ensures "\">" + caption + AnchorEnd <= t[h + |ClassAttr + cls| + |tail|..]
    ensures |t| - |b| == h + |ClassAttr + cls| + |tail| + |"\">" + caption + AnchorEnd|
  {
    var k := |ClassAttr + cls|;
    var u := t[h..];
    TailLayout(u, cls, tail, caption, b);
    assert t[h + k..] == u[k..];
    assert t[h + k + |tail|..] == u[k + |tail|..];
  }

  /** What a match of an exact-class anchor pattern tells about the text. */
  lemma AnchorMatchFacts(p: Pattern, t: string)
    requires p.Anchor? && !p.classTail && MatchAt(p, t).Some?
    ensures AnchorStart <= t
    ensures var h := QuoteFrom(t, |AnchorStart|);
      h < |t| && EndsWith(t[|AnchorStart|..h], p.hrefSuffix) && ClassAttr + p.cls <= t[h..] &&
      "\">" + p.caption + AnchorEnd <= t[h + |ClassAttr + p.cls|..]
  {
    assert MatchAt(p, t) == AnchorMatch(p.hrefSuffix, p.cls, p.classTail, p.caption, t);
  }

  /** The class text a pattern requires, followed by a quote, is the whole class of the link. */
  lemma ClassAgree(pcls: string, cls: string, rest: string)
    requires NoChar(pcls, '"') && NoChar(cls, '"')
    requires ClassAttr + pcls <= ClassAttr + cls + rest && |ClassAttr + pcls| < |ClassAttr + cls + rest|
    requires rest != [] && rest[0] == '"' && (ClassAttr + cls + rest)[|ClassAttr + pcls|] == '"'
    ensures pcls == cls
  {
    var u := ClassAttr + cls + rest;
    assert u[|ClassAttr|..] == cls + ['"'] + rest[1..];
    assert pcls + ['"'] <= cls + ['"'] + rest[1..] by {
      assert u[|ClassAttr|..][..|pcls|] == pcls;
    }
    Delimited(pcls, cls, '"', rest[1..]);
  }

  /** The caption a pattern requires, followed by the closing tag, is the whole caption of the link. */
  lemma CaptionAgree(pcap: string, cap: string, b: string)
    requires NoChar(pcap, '<') && NoChar(cap, '<')
    requires "\">" + pcap + AnchorEnd <= "\">" + cap + AnchorEnd + b
    ensures pcap == cap
  {
    var u := "\">" + cap + AnchorEnd + b;
    assert u[2..] == cap + ['<'] + ("/a>" + b);
    assert pcap + ['<'] <= cap + ['<'] + ("/a>" + b) by {
      assert ("\">" + pcap + AnchorEnd)[2..] == pcap + ['<'] + "/a>";
    }
    Delimited(pcap, cap, '<', "/a>" + b);
  }

  /** An exact-class anchor pattern matches a plain link only if the suffix, the class and the caption all agree. */
  lemma AnchorMatchOnly(p: Pattern, href: string, cls: string, caption: string, b: string)
    requires p.Anchor? && !p.classTail && Plain(href, cls, caption)
    requires NoChar(p.cls, '"') && NoChar(p.caption, '<')
    ensures MatchAt(p, AnchorText(href, cls, caption) + b).Some? ==>
      EndsWith(href, p.hrefSuffix) && cls == p.cls && caption == p.caption
  {
    var t := AnchorText(href, cls, caption) + b;
    if MatchAt(p, t).Some? {
      AnchorMatchFacts(p, t);
      AnchorLayout(href, cls, caption, b);
      MatchedTail(p.cls, p.caption, cls, caption, b, t[|AnchorStart| + |href|..]);
    }
  }

  /** The text after the `href` of a link, matched by the rest of an exact-class pattern, has the pattern's class and caption. */
  lemma MatchedTail(pcls: string, pcap: string, cls: string, cap: string, b: string, u: string)
    requires NoChar(pcls, '"') && NoChar(cls, '"') && NoChar(pcap, '<') && NoChar(cap, '<')
    requires u == ClassAttr + cls + ("\">" + cap + AnchorEnd) + b
    requires ClassAttr + pcls <= u && "\">" + pcap + AnchorEnd <= u[|ClassAttr + pcls|..]
    ensures pcls == cls && pcap == cap
  {
    var rest := "\">" + cap + AnchorEnd + b;
    assert u == ClassAttr + cls + rest;
    assert u[|ClassAttr + pcls|] == u[|ClassAttr + pcls|..][0];
    ClassAgree(pcls, cls, rest);
    assert u[|ClassAttr + cls|..] == rest;
    CaptionAgree(pcap, cap, b);
  }

  /** A plain link holds `<` only at its start and at its closing tag. */
  lemma PlainLeads(href: string, cls: string, caption: string)
    requires Plain(href, cls, caption)
    ensures var x := AnchorText(href, cls, caption);
      forall k | 0 < k < |x| - 4 :: x[k] != '<'
  {
    var x := AnchorText(href, cls, caption);
    var mid := "a href=\"" + href + ClassAttr + cls + "\">" + caption;
    assert x == ['<'] + mid + AnchorEnd;
    forall k | 0 < k < |x| - 4 ensures x[k] != '<' {
      assert x[k] == mid[k - 1];
    }
  }

  /** A closing tag never starts a match of an anchor pattern. */
  lemma ClosingTagMisses(p: Pattern, t: string)
    requires p.Anchor? && |t| >= 2 && t[1] == '/'
    ensures MatchAt(p, t).None?
  {
    assert AnchorStart[1] == 'a';
    assert MatchAt(p, t) == AnchorMatch(p.hrefSuffix, p.cls, p.classTail, p.caption, t);
  }

  /** An exact-class pattern matches nowhere inside a plain link it does not match at its start. */
  lemma AnchorKeptInside(p: Pattern, href: string, cls: string, caption: string, b: string)
    requires p.Anchor? && !p.classTail
    requires NoChar(p.cls, '"') && NoChar(p.caption, '<') && Plain(href, cls, caption)
    requires !EndsWith(href, p.hrefSuffix) || cls != p.cls || caption != p.caption
    ensures NoMatchBefore(p, AnchorText(href, cls, caption) + b, |AnchorText(href, cls, caption)|)
  {
    var x := AnchorText(href, cls, caption);
    var s := x + b;
    PlainLeads(href, cls, caption);
    forall j | 0 <= j < |x| && j < |s| ensures MatchAt(p, s[j..]).None? {
      if j == 0 {
        AnchorMatchOnly(p, href, cls, caption, b);
        assert s[j..] == s;
      } else if j == |x| - 4 {
        assert s[j..][1] == '/';
        ClosingTagMisses(p, s[j..]);
      } else {
        assert s[j..][0] == x[j];
      }
    }
  }

  /**
   * A plain link that an exact-class anchor pattern does not match (another
   * suffix, another class, another caption) is left as it is, and so is text
   * before it without `<`.
   */
  lemma SubAnchorKept(r: Rule, a: string, href: string, cls: string, caption: string, b: string)
    requires WellFormed(r) && r.pattern.Anchor? && !r.pattern.classTail
    requires NoChar(r.pattern.cls, '"') && NoChar(r.pattern.caption, '<')
    requires NoChar(a, '<') && Plain(href, cls, caption)
    requires !EndsWith(href, r.pattern.hrefSuffix) || cls != r.pattern.cls || caption != r.pattern.caption
    ensures Sub(r, a + AnchorText(href, cls, caption) + b) == a + AnchorText(href, cls, caption) + Sub(r, b)
  {
    var x := AnchorText(href, cls, caption);
    AnchorKeptInside(r.pattern, href, cls, caption, b);
    SubSkip(r, x, b);
    SubAround(r, a, x, b, x);
  }

  /** What the scan makes of `x + b` it makes of it after a context without the lead character. */
  lemma SubAround(r: Rule, a: string, x: string, b: string, y: string)
    requires WellFormed(r) && NoChar(a, Lead(r.pattern)) && Sub(r, x + b) == y + Sub(r, b)
    ensures Sub(r, a + x + b) == a + y + Sub(r, b)
  {
    SubSkipLeadFree(r, a, x + b);
    ConcatAssoc(a, x, b);
    ConcatAssoc(a, y, Sub(r, b));
  }

  /** A `Relabel` rule turns a link it matches into the same link with the new caption. */
  lemma SubRelabel(r: Rule, a: string, href: string, b: string)
    requires WellFormed(r) && r.pattern.Anchor? && !r.pattern.classTail && r.replacement.Relabel?
    requires NoChar(a, '<') && NoChar(href, '"') && EndsWith(href, r.pattern.hrefSuffix)
    ensures Sub(r, a + AnchorText(href, r.pattern.cls, r.pattern.caption) + b) ==
      a + AnchorText(href, r.pattern.cls, r.replacement.caption) + Sub(r, b)
  {
    var p := r.pattern;
    var x := AnchorText(href, p.cls, p.caption);
    assert p.cls + [] == p.cls;
    AnchorMatches(p, href, [], b);
    SubAt(r, x, b);
    RelabelExpand(r, href);
    SubAround(r, a, x, b, AnchorText(href, p.cls, r.replacement.caption));
  }

  lemma RelabelExpand(r: Rule, href: string)
    requires WellFormed(r) && r.pattern.Anchor? && r.replacement.Relabel?
    ensures Expand(r, AnchorText(href, r.pattern.cls, r.pattern.caption)) == AnchorText(href, r.pattern.cls, r.replacement.caption)
  {
    var x := AnchorText(href, r.pattern.cls, r.pattern.caption);
    assert x == AnchorHead(href, r.pattern.cls) + r.pattern.caption + AnchorEnd;
    assert x[..|x| - |r.pattern.caption| - 4] == AnchorHead(href, r.pattern.cls);
  }

  /**
   * A `Within` rule that replaces the caption of the links it matches turns
   * such a link into the same link with the new caption, when the caption's
   * first character does not occur in the link before it.
   */
  lemma SubWithin(r: Rule, a: string, href: string, tail: string, b: string)
    requires WellFormed(r) && r.pattern.Anchor? && r.replacement.Within? && r.replacement.pat == r.pattern.caption
    requires NoChar(a, '<') && NoChar(href, '"') && EndsWith(href, r.pattern.hrefSuffix)
    requires NoChar(tail, '"') && (r.pattern.classTail || tail == [])
    requires NoChar(AnchorHead(href, r.pattern.cls + tail), r.pattern.caption[0]) && !Contains(AnchorEnd, r.pattern.caption)
    ensures Sub(r, a + AnchorText(href, r.pattern.cls + tail, r.pattern.caption) + b) ==
      a + AnchorText(href, r.pattern.cls + tail, r.replacement.rep) + Sub(r, b)
  {
    var p := r.pattern;
    var x := AnchorText(href, p.cls + tail, p.caption);
    AnchorMatches(p, href, tail, b);
    SubAt(r, x, b);
    WithinExpand(AnchorHead(href, p.cls + tail), p.caption, r.replacement.rep);
    assert x == AnchorHead(href, p.cls + tail) + p.caption + AnchorEnd;
    SubAround(r, a, x, b, AnchorText(href, p.cls + tail, r.replacement.rep));
  }

  /** Replacing the caption inside a link whose head lacks the caption's first character. */
  lemma WithinExpand(head: string, cap: string, rep: string)
    requires |cap| > 0 && NoChar(head, cap[0]) && !Contains(AnchorEnd, cap)
    ensures ReplaceAll(head + cap + AnchorEnd, cap, rep) == head + rep + AnchorEnd
  {
    var x := head + cap + AnchorEnd;
    FindAfterLeadFree(head, cap, AnchorEnd);
    ReplaceAllFound(x, cap, rep, |head|);
    assert x[..|head|] == head && x[|head| + |cap|..] == AnchorEnd;
  }
}
