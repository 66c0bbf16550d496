/**
 * Shapes of the HTML fragments the rewrite rules search for and insert, and
 * the facts that let a proof conclude that inserting one fragment cannot
 * create an occurrence of another.
 */
module Markup {
  import opened Text

  /**
   * A fragment that begins with an opening tag (`<` not followed by `/`) and
   * in which every later `<` begins a closing tag `</`, such as
   * `<title>Icons - GCC Design System</title>`.
   */
  predicate TagShaped(x: string) {
    |x| >= 2 && x[0] == '<' && x[1] != '/' &&
    forall i | 0 < i < |x| && x[i] == '<' :: i + 1 < |x| && x[i + 1] == '/'
  }

  /** Two texts that differ at a position both have are not prefixes of each other. */
  lemma DifferAt(x: string, y: string, i: nat)
    requires i < |x| && i < |y| && x[i] != y[i]
    ensures !PrefixRelated(x, y)
  {
  }

  /** A suffix of a tag-shaped fragment is never in prefix relation with another one. */
  lemma TagShapedNoStraddle(x: string, y: string)
    requires TagShaped(x) && TagShaped(y)
    ensures NoStraddle(x, y)
  {
    forall k | 0 < k < |x| ensures !PrefixRelated(x[k..], y) {
      if x[k] == '<' {
        DifferAt(x[k..], y, 1);
      } else {
        DifferAt(x[k..], y, 0);
      }
    }
  }

  /**
   * Replacing with a tag-shaped fragment `y` can neither create nor complete
   * an occurrence of another tag-shaped fragment `x`.
   */
  lemma TagShapedIsolated(x: string, y: string)
    requires TagShaped(x) && TagShaped(y) && !PrefixRelated(x, y)
    ensures Isolated(x, y)
  {
    TagShapedNoStraddle(x, y);
    TagShapedNoStraddle(y, x);
    forall q | 0 <= q <= |y| ensures !OccursAt(y, x, q) {
      if q > 0 && q + |x| <= |y| {
        assert y[q..q + |x|][1] == y[q + 1];
      }
    }
  }

  /** An opening tag such as `<h1>` or `<span class="x">`: `<`, not `/`, and no other `<`. */
  predicate OpenTag(o: string) {
    |o| >= 2 && o[0] == '<' && o[1] != '/' && NoChar(o[1..], '<')
  }

  /** A closing tag such as `</h1>`: `</` and no other `<`. */
  predicate CloseTag(c: string) {
    |c| >= 2 && c[0] == '<' && c[1] == '/' && NoChar(c[1..], '<')
  }

  /** Text without `<` between an opening and a closing tag is a tag-shaped element. */
  lemma ElementShaped(o: string, t: string, c: string)
    requires OpenTag(o) && NoChar(t, '<') && CloseTag(c)
    ensures TagShaped(o + t + c)
  {
    var x := o + t + c;
    var n := |o| + |t|;
    forall i | 0 < i < |x| ensures x[i] == '<' ==> i + 1 < |x| && x[i + 1] == '/' {
      if i < |o| {
        assert x[i] == o[1..][i - 1];
      } else if i < n {
        assert x[i] == t[i - |o|];
      } else if i > n {
        assert x[i] == c[1..][i - n - 1];
      }
    }
  }

  /** Position `|o| + k` of an element is position `k` of its text, or the `<` of the closing tag. */
  lemma ElementAt(o: string, t: string, c: string, k: nat)
    requires k <= |t| && CloseTag(c)
    ensures |o + t + c| > |o| + k && (o + t + c)[|o| + k] == if k < |t| then t[k] else '<'
  {
  }

  /**
   * Two elements with the same tags whose texts differ at a position both
   * have, or where the shorter text ends and the longer one has no `<`, are
   * not prefixes of each other.
   */
  lemma ElementsDiffer(o: string, t: string, u: string, c: string, k: nat)
    requires CloseTag(c) && k < |t| && k <= |u| && t[k] != if k < |u| then u[k] else '<'
    ensures !PrefixRelated(o + t + c, o + u + c)
  {
    ElementAt(o, t, c, k);
    ElementAt(o, u, c, k);
    DifferAt(o + t + c, o + u + c, |o| + k);
  }

  /** Elements whose opening tags differ at a position are not prefixes of each other. */
  lemma TagsDiffer(o: string, t: string, c: string, p: string, u: string, d: string, k: nat)
    requires k < |o| && k < |p| && o[k] != p[k]
    ensures !PrefixRelated(o + t + c, p + u + d)
  {
    assert (o + t + c)[k] == o[k];
    assert (p + u + d)[k] == p[k];
    DifferAt(o + t + c, p + u + d, k);
  }
}
