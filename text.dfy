/**
 * Python `str` operations the maintenance scripts rely on, over `string`:
 * substring search (`in`, `find`), `replace`, `split`, `join` and `*` on a
 * string, together with the facts about occurrences that the rewriting
 * proofs need.
 */
module Text {

  datatype Option<T> = None | Some(value: T)

  datatype Result<T, E> = Ok(value: T) | Err(error: E)

  /** `p` occurs in `s` starting at index `i`. */
  predicate OccursAt(s: string, p: string, i: int) {
    0 <= i && i + |p| <= |s| && s[i..i + |p|] == p
  }

  /** Python's `p in s`. */
  predicate Contains(s: string, p: string) {
    exists i | 0 <= i <= |s| :: OccursAt(s, p, i)
  }

  /** The character `c` does not appear in `s`. */
  predicate NoChar(s: string, c: char) {
    forall i | 0 <= i < |s| :: s[i] != c
  }

  lemma NoCharConcat(a: string, b: string, c: char)
    requires NoChar(a, c) && NoChar(b, c)
    ensures NoChar(a + b, c)
  {
  }

  /** `s` ends with `suffix` (Python's `str.endswith`). */
  predicate EndsWith(s: string, suffix: string) {
    |suffix| <= |s| && s[|s| - |suffix|..] == suffix
  }

  /** Concatenation regroups freely; stated once so that proofs can cite it without unfolding. */
  lemma ConcatAssoc(a: string, b: string, c: string)
    ensures a + (b + c) == a + b + c
  {
  }

  /** The first occurrence of `p` in `s` at or after index `k`. */
  function FindFrom(s: string, p: string, k: nat): (r: Option<nat>)
    requires k <= |s|
    decreases |s| - k
    ensures r.Some? ==> k <= r.value && OccursAt(s, p, r.value)
    ensures forall j :: k <= j && (r.Some? ==> j < r.value) ==> !OccursAt(s, p, j)
  {
    if k + |p| > |s| then None
    else if s[k..k + |p|] == p then Some(k)
    else FindFrom(s, p, k + 1)
  }

  /** The first occurrence of `p` in `s` (Python's `str.find`, with None for -1). */
  function Find(s: string, p: string): (r: Option<nat>)
    ensures r.Some? <==> Contains(s, p)
    ensures r.Some? ==> OccursAt(s, p, r.value)
    ensures r.Some? ==> forall j :: 0 <= j < r.value ==> !OccursAt(s, p, j)
  {
    FindFrom(s, p, 0)
  }

  /** The index of the first `c` in `s`, or `|s|` when there is none. */
  function CharIndex(s: string, c: char): (i: nat)
    ensures i <= |s| && NoChar(s[..i], c)
    ensures i < |s| ==> s[i] == c
  {
    if s == [] then 0
    else if s[0] == c then 0
    else
      var j := CharIndex(s[1..], c);
      assert s[1..][..j] == s[1..j + 1];
      1 + j
  }

  /** Python's `s.replace(pat, rep)`: every leftmost, non-overlapping occurrence replaced. */
  function ReplaceAll(s: string, pat: string, rep: string): (r: string)
    requires |pat| > 0
    decreases |s|
    ensures !Contains(s, pat) ==> r == s
  {
    match Find(s, pat)
    case None => s
    case Some(i) => s[..i] + rep + ReplaceAll(s[i + |pat|..], pat, rep)
  }

  /** Python's `s.split(sep)` for a non-empty separator. */
  function Split(s: string, sep: string): (parts: seq<string>)
    requires |sep| > 0
    decreases |s|
    ensures |parts| >= 1
    ensures |parts| == 1 <==> !Contains(s, sep)
  {
    match Find(s, sep)
    case None => [s]
    case Some(i) => [s[..i]] + Split(s[i + |sep|..], sep)
  }

  /** Python's `sep.join(parts)`. */
  function Join(parts: seq<string>, sep: string): string {
    if parts == [] then ""
    else if |parts| == 1 then parts[0]
    else parts[0] + sep + Join(parts[1..], sep)
  }

  /** Python's `s * n` for `n >= 0`. */
  function Repeat(s: string, n: nat): string {
    if n == 0 then "" else s + Repeat(s, n - 1)
  }

  /** The number of occurrences of the character `c` in `s`. */
  function CountChar(s: string, c: char): nat {
    if s == [] then 0 else (if s[0] == c then 1 else 0) + CountChar(s[1..], c)
  }

  // ---------------------------------------------------------------------
  // Occurrences under slicing and concatenation

  lemma OccursInSuffix(s: string, p: string, m: nat, j: int)
    requires m <= |s| && OccursAt(s[m..], p, j)
    ensures OccursAt(s, p, m + j)
  {
    assert s[m..][j..j + |p|] == s[m + j..m + j + |p|];
  }

  lemma OccursInPrefix(s: string, p: string, n: nat, j: int)
    requires n <= |s| && OccursAt(s[..n], p, j)
    ensures OccursAt(s, p, j)
  {
    assert s[..n][j..j + |p|] == s[j..j + |p|];
  }

  /** Nothing before the first occurrence of `sep` contains `sep`. */
  lemma FirstOccurrencePrefix(s: string, sep: string, i: nat)
    requires |sep| > 0 && i <= |s|
    requires forall j :: 0 <= j < i ==> !OccursAt(s, sep, j)
    ensures !Contains(s[..i], sep)
  {
    forall j | 0 <= j <= i ensures !OccursAt(s[..i], sep, j) {
      if j + |sep| <= i {
        assert s[..i][j..j + |sep|] == s[j..j + |sep|];
        assert !OccursAt(s, sep, j);
      }
    }
  }

  lemma NotInSuffix(s: string, p: string, m: nat)
    requires m <= |s| && !Contains(s, p)
    ensures !Contains(s[m..], p)
  {
    forall j | 0 <= j <= |s| - m ensures !OccursAt(s[m..], p, j) {
      if j + |p| <= |s| - m {
        assert s[m..][j..j + |p|] == s[m + j..m + j + |p|];
        assert !OccursAt(s, p, m + j);
      }
    }
  }

  lemma NotInPrefix(s: string, p: string, n: nat)
    requires n <= |s| && !Contains(s, p)
    ensures !Contains(s[..n], p)
  {
    forall j | 0 <= j <= n ensures !OccursAt(s[..n], p, j) {
      if j + |p| <= n {
        assert s[..n][j..j + |p|] == s[j..j + |p|];
        assert !OccursAt(s, p, j);
      }
    }
  }

  // ---------------------------------------------------------------------
  // split, join and replace

  /** `join` of a list with a head: the head, the separator, then the rest joined. */
  lemma JoinCons(head: string, tail: seq<string>, sep: string)
    requires |tail| > 0
    ensures Join([head] + tail, sep) == head + sep + Join(tail, sep)
  {
    assert ([head] + tail)[1..] == tail;
  }

  /** One step of `split`: the text before the first separator, then the split of the rest. */
  lemma SplitStep(s: string, sep: string, i: nat)
    requires |sep| > 0 && Find(s, sep) == Some(i)
    ensures Split(s, sep) == [s[..i]] + Split(s[i + |sep|..], sep)
  {
    SomeValue(Find(s, sep), i);
    SplitUnfold(s, sep);
    assert s[..Find(s, sep).value] == s[..i];
    assert s[Find(s, sep).value + |sep|..] == s[i + |sep|..];
  }

  lemma SplitUnfold(s: string, sep: string)
    requires |sep| > 0 && Find(s, sep).Some?
    ensures Split(s, sep) == [s[..Find(s, sep).value]] + Split(s[Find(s, sep).value + |sep|..], sep)
  {
  }

  /** Joining the pieces of a split with the same separator gives the text back. */
  lemma {:induction false} SplitJoin(s: string, sep: string)
    requires |sep| > 0
    decreases |s|
    ensures Join(Split(s, sep), sep) == s
  {
    match Find(s, sep)
    case None =>
    case Some(i) =>
      var rest := s[i + |sep|..];
      SplitJoin(rest, sep);
      SplitJoinStep(s, sep, i);
  }

  lemma SplitJoinStep(s: string, sep: string, i: nat)
    requires |sep| > 0 && Find(s, sep) == Some(i)
    requires Join(Split(s[i + |sep|..], sep), sep) == s[i + |sep|..]
    ensures Join(Split(s, sep), sep) == s
  {
    SplitStep(s, sep, i);
    Reassemble(s, sep, i);
    JoinCons(s[..i], Split(s[i + |sep|..], sep), sep);
  }

  /** Cutting `s` around an occurrence of `p`. */
  lemma Reassemble(s: string, p: string, i: nat)
    requires OccursAt(s, p, i)
    ensures s == s[..i] + p + s[i + |p|..]
  {
    assert s == s[..i] + s[i..i + |p|] + s[i + |p|..];
  }

  /** `replace` is `join` of `split`: each occurrence replaced, the text between kept. */
  lemma {:induction false} ReplaceAllIsJoinSplit(s: string, pat: string, rep: string)
    requires |pat| > 0
    decreases |s|
    ensures ReplaceAll(s, pat, rep) == Join(Split(s, pat), rep)
  {
    match Find(s, pat)
    case None =>
    case Some(i) =>
      var rest := s[i + |pat|..];
      ReplaceAllFound(s, pat, rep, i);
      SplitStep(s, pat, i);
      ReplaceAllIsJoinSplit(rest, pat, rep);
      var parts := [s[..i]] + Split(rest, pat);
      assert parts[1..] == Split(rest, pat);
  }

  /**
   * Splitting a join gives the pieces back when no piece holds the
   * separator's first character.
   */
  lemma {:induction false} JoinSplit(parts: seq<string>, sep: string)
    requires |sep| > 0 && |parts| > 0
    requires forall k :: 0 <= k < |parts| ==> NoChar(parts[k], sep[0])
    decreases |parts|
    ensures Split(Join(parts, sep), sep) == parts
  {
    if |parts| == 1 {
      NoLeadNoOccurrence(parts[0], sep);
    } else {
      var rest := Join(parts[1..], sep);
      SplitAfterLeadFree(parts[0], sep, rest);
      JoinSplit(parts[1..], sep);
      assert parts == [parts[0]] + parts[1..];
    }
  }

  /** The first piece of a split is the text before the first separator. */
  lemma SplitAfterLeadFree(a: string, sep: string, rest: string)
    requires |sep| > 0 && NoChar(a, sep[0])
    ensures Split(a + sep + rest, sep) == [a] + Split(rest, sep)
  {
    var s := a + sep + rest;
    var n := |a|;
    FindAfterLeadFree(a, sep, rest);
    SplitStep(s, sep, n);
    assert s[..n] == a;
    assert s[n + |sep|..] == rest;
  }

  /** A text without `p`'s first character does not contain `p`. */
  lemma NoLeadNoOccurrence(s: string, p: string)
    requires |p| > 0 && NoChar(s, p[0])
    ensures !Contains(s, p)
  {
    forall j | 0 <= j <= |s| ensures !OccursAt(s, p, j) {
      if j + |p| <= |s| {
        assert s[j..j + |p|][0] == s[j];
      }
    }
  }

  /** `c0` never stands right before `c1` in `s`. */
  predicate PairFree(s: string, c0: char, c1: char) {
    forall j | 0 <= j < |s| - 1 :: !(s[j] == c0 && s[j + 1] == c1)
  }

  /** `a`, `b`, `c` never stand in a row in `s`. */
  predicate TripleFree(s: string, a: char, b: char, c: char) {
    forall j | 0 <= j < |s| - 2 :: !(s[j] == a && s[j + 1] == b && s[j + 2] == c)
  }

  /** A text in which `p`'s first two characters never stand side by side does not contain `p`. */
  lemma NoLeadPairNoOccurrence(s: string, p: string)
    requires |p| > 1 && PairFree(s, p[0], p[1])
    ensures !Contains(s, p)
  {
    forall j | 0 <= j <= |s| ensures !OccursAt(s, p, j) {
      if j + |p| <= |s| {
        assert s[j..j + |p|][0] == s[j] && s[j..j + |p|][1] == s[j + 1];
      }
    }
  }

  /** A text in which `p`'s first three characters never stand in a row does not contain `p`. */
  lemma NoLeadTripleNoOccurrence(s: string, p: string)
    requires |p| > 2 && TripleFree(s, p[0], p[1], p[2])
    ensures !Contains(s, p)
  {
    forall j | 0 <= j <= |s| ensures !OccursAt(s, p, j) {
      if j + |p| <= |s| {
        assert s[j..j + |p|][0] == s[j] && s[j..j + |p|][1] == s[j + 1] && s[j..j + |p|][2] == s[j + 2];
      }
    }
  }

  /** A pair missing from both texts and from their seam is missing from the join. */
  lemma PairFreeJoin(u: string, v: string, c0: char, c1: char)
    requires PairFree(u, c0, c1) && PairFree(v, c0, c1) && |u| > 0 && |v| > 0
    requires !(u[|u| - 1] == c0 && v[0] == c1)
    ensures PairFree(u + v, c0, c1)
  {
    var s := u + v;
    forall j | 0 <= j < |s| - 1 ensures !(s[j] == c0 && s[j + 1] == c1) {
      if j + 1 < |u| {
        assert s[j] == u[j] && s[j + 1] == u[j + 1];
      } else if j >= |u| {
        assert s[j] == v[j - |u|] && s[j + 1] == v[j - |u| + 1];
      }
    }
  }

  /** A triple missing from both texts and from the two windows across their seam is missing from the join. */
  lemma TripleFreeJoin(u: string, v: string, a: char, b: char, c: char)
    requires TripleFree(u, a, b, c) && TripleFree(v, a, b, c) && |u| > 1 && |v| > 1
    requires !(u[|u| - 2] == a && u[|u| - 1] == b && v[0] == c)
    requires !(u[|u| - 1] == a && v[0] == b && v[1] == c)
    ensures TripleFree(u + v, a, b, c)
  {
    var s := u + v;
    forall j | 0 <= j < |s| - 2 ensures !(s[j] == a && s[j + 1] == b && s[j + 2] == c) {
      if j + 2 < |u| {
        assert s[j] == u[j] && s[j + 1] == u[j + 1] && s[j + 2] == u[j + 2];
      } else if j >= |u| {
        assert s[j] == v[j - |u|] && s[j + 1] == v[j - |u| + 1] && s[j + 2] == v[j - |u| + 2];
      }
    }
  }

  /** Text without `p`'s first character, put in front, adds no occurrence of `p`. */
  lemma NoOccurAfterLeadFree(u: string, v: string, p: string)
    requires |p| > 0 && NoChar(u, p[0]) && !Contains(v, p)
    ensures !Contains(u + v, p)
  {
    var s := u + v;
    forall j | 0 <= j <= |s| ensures !OccursAt(s, p, j) {
      if j + |p| <= |s| {
        if j < |u| {
          assert s[j..j + |p|][0] == u[j];
        } else {
          assert s[j..j + |p|] == v[j - |u|..j - |u| + |p|];
          assert !OccursAt(v, p, j - |u|);
        }
      }
    }
  }

  /** When `a` lacks `p`'s first character, the first `p` in `a + p + b` is right after `a`. */
  lemma FindAfterLeadFree(a: string, p: string, b: string)
    requires |p| > 0 && NoChar(a, p[0])
    ensures Find(a + p + b, p) == Some(|a|)
  {
    var s := a + p + b;
    assert s[|a|..|a| + |p|] == p;
    assert OccursAt(s, p, |a|);
    forall j | 0 <= j < |a| ensures !OccursAt(s, p, j) {
      assert s[j..j + |p|][0] == s[j] == a[j];
    }
  }

  /** Occurrences in `s[1..]` are the occurrences in `s` shifted by one. */
  lemma OccursShift(s: string, p: string, j: nat)
    requires |s| > 0
    ensures OccursAt(s, p, j + 1) == OccursAt(s[1..], p, j)
  {
    if j + 1 + |p| <= |s| {
      assert s[1..][j..j + |p|] == s[j + 1..j + 1 + |p|];
    }
  }

  /** Searching a text that does not start with `p` is searching its tail. */
  lemma FindTail(s: string, p: string)
    requires |s| > 0 && !OccursAt(s, p, 0)
    ensures Find(s, p) == match Find(s[1..], p) case None => None case Some(i) => Some(i + 1)
  {
    forall j: nat ensures OccursAt(s, p, j + 1) == OccursAt(s[1..], p, j) {
      OccursShift(s, p, j);
    }
    match Find(s[1..], p)
    case None =>
      forall j | 0 <= j <= |s| ensures !OccursAt(s, p, j) {
        if j > 0 { OccursShift(s, p, j - 1); }
      }
    case Some(i) =>
      OccursShift(s, p, i);
      forall j | 0 <= j < i + 1 ensures !OccursAt(s, p, j) {
        if j > 0 { OccursShift(s, p, j - 1); }
      }
  }

  /** A prefix of the suffix starting at `j` occurs at `j`, and conversely. */
  lemma PrefixOccurs(s: string, p: string, j: nat)
    requires j <= |s|
    ensures p <= s[j..] <==> OccursAt(s, p, j)
  {
    if j + |p| <= |s| {
      assert s[j..][..|p|] == s[j..j + |p|];
    }
  }

  /** `replace` at a text that starts with `pat`: the replacement, then the rest. */
  lemma ReplaceAllHead(s: string, pat: string, rep: string)
    requires |pat| > 0 && OccursAt(s, pat, 0)
    ensures ReplaceAll(s, pat, rep) == rep + ReplaceAll(s[|pat|..], pat, rep)
  {
    assert Find(s, pat) == Some(0);
  }

  /** `replace` at a text that does not start with `pat` keeps its first character. */
  lemma ReplaceAllTail(s: string, pat: string, rep: string)
    requires |pat| > 0 && |s| > 0 && !OccursAt(s, pat, 0)
    ensures ReplaceAll(s, pat, rep) == [s[0]] + ReplaceAll(s[1..], pat, rep)
  {
    FindTail(s, pat);
    if Find(s[1..], pat).Some? {
      ReplaceAllTailFound(s, pat, rep, Find(s[1..], pat).value);
    }
  }

  lemma ReplaceAllTailFound(s: string, pat: string, rep: string, i: nat)
    requires |pat| > 0 && |s| > 0
    requires Find(s, pat) == Some(i + 1) && Find(s[1..], pat) == Some(i)
    ensures ReplaceAll(s, pat, rep) == [s[0]] + ReplaceAll(s[1..], pat, rep)
  {
    var t := s[1..];
    SomeValue(Find(t, pat), i);
    var j := i + 1;
    SomeValue(Find(s, pat), j);
    ReplaceAllFound(t, pat, rep, i);
    ReplaceAllFound(s, pat, rep, j);
    TailStep(s, pat, rep, i, j);
  }

  lemma TailStep(s: string, pat: string, rep: string, i: nat, j: nat)
    requires |pat| > 0 && j == i + 1 && j + |pat| <= |s|
    requires ReplaceAll(s, pat, rep) == s[..j] + rep + ReplaceAll(s[j + |pat|..], pat, rep)
    requires ReplaceAll(s[1..], pat, rep) == s[1..][..i] + rep + ReplaceAll(s[1..][i + |pat|..], pat, rep)
    ensures ReplaceAll(s, pat, rep) == [s[0]] + ReplaceAll(s[1..], pat, rep)
  {
    var rest := s[j + |pat|..];
    assert rest == s[1..][i + |pat|..];
    TailGlue(ReplaceAll(s, pat, rep), ReplaceAll(s[1..], pat, rep), s, i, rep, ReplaceAll(rest, pat, rep));
  }

  lemma TailGlue(x: string, y: string, s: string, i: nat, m: string, b: string)
    requires i + 1 <= |s|
    requires x == s[..i + 1] + m + b && y == s[1..][..i] + m + b
    ensures x == [s[0]] + y
  {
    assert s[..i + 1] == [s[0]] + s[1..][..i];
  }

  /** `replace` at the first occurrence of `pat`. */
  lemma ReplaceAllFound(s: string, pat: string, rep: string, i: nat)
    requires |pat| > 0 && Find(s, pat).Some? && Find(s, pat).value == i
    ensures i + |pat| <= |s|
    ensures ReplaceAll(s, pat, rep) == s[..i] + rep + ReplaceAll(s[i + |pat|..], pat, rep)
  {
    var head, tail := s[..i], ReplaceAll(s[i + |pat|..], pat, rep);
    assert s[..Find(s, pat).value] == head;
    assert ReplaceAll(s[Find(s, pat).value + |pat|..], pat, rep) == tail;
    ReplaceAllUnfold(s, pat, rep);
  }

  /** The value inside a known `Some`. */
  lemma SomeValue(o: Option<nat>, i: nat)
    requires o == Some(i)
    ensures o.Some? && o.value == i
  {
  }

  lemma ReplaceAllUnfold(s: string, pat: string, rep: string)
    requires |pat| > 0 && Find(s, pat).Some?
    ensures ReplaceAll(s, pat, rep) == s[..Find(s, pat).value] + rep + ReplaceAll(s[Find(s, pat).value + |pat|..], pat, rep)
  {
  }

  /** The first `c` in `a + [c] + b` is the one right after a `c`-free `a`. */
  lemma {:induction false} CharIndexAfter(a: string, c: char, b: string)
    requires NoChar(a, c)
    decreases |a|
    ensures CharIndex(a + [c] + b, c) == |a|
  {
    if a != [] {
      assert (a + [c] + b)[1..] == a[1..] + [c] + b;
      CharIndexAfter(a[1..], c, b);
    }
  }

  /** The first `c` of `a + b` is the first `c` of `a`, or else the first `c` of `b` shifted past `a`. */
  lemma {:induction false} CharIndexConcat(a: string, b: string, c: char)
    decreases |a|
    ensures CharIndex(a + b, c) == if CharIndex(a, c) < |a| then CharIndex(a, c) else |a| + CharIndex(b, c)
  {
    if a == [] {
      assert a + b == b;
    } else if a[0] != c {
      assert (a + b)[1..] == a[1..] + b;
      CharIndexConcat(a[1..], b, c);
    }
  }

  /** With `sep` a single character, `split` yields one piece more than there are separators. */
  lemma {:induction false} SplitCharCount(s: string, c: char)
    decreases |s|
    ensures |Split(s, [c])| == CountChar(s, c) + 1
  {
    var sep := [c];
    if s == [] {
      assert !OccursAt(s, sep, 0);
    } else {
      var t := s[1..];
      SplitCharCount(t, c);
      assert OccursAt(s, sep, 0) == (s[0] == c) by { assert s[0..1] == [s[0]]; }
      if s[0] == c {
        assert Find(s, sep) == Some(0);
      } else {
        FindTail(s, sep);
        match Find(t, sep)
        case None =>
        case Some(i) =>
          assert s[i + 2..] == t[i + 1..];
      }
    }
  }

  lemma {:induction false} RepeatLength(s: string, n: nat)
    ensures |Repeat(s, n)| == n * |s|
  {
    if n > 0 { RepeatLength(s, n - 1); }
  }

  /** One more copy at the end: `s * (n + 1) == s * n + s`. */
  lemma {:induction false} RepeatSnoc(s: string, n: nat)
    ensures Repeat(s, n + 1) == Repeat(s, n) + s
  {
    if n > 0 { RepeatSnoc(s, n - 1); }
  }

  // ---------------------------------------------------------------------
  // When a replacement cannot create new occurrences

  /** One of `u`, `v` is a prefix of the other. */
  predicate PrefixRelated(u: string, v: string) {
    u <= v || v <= u
  }

  /** No occurrence of `x` can begin before a copy of `y` and run into it. */
  predicate NoStraddle(x: string, y: string) {
    forall k | 0 < k < |x| :: !PrefixRelated(x[k..], y)
  }

  /**
   * `x` cannot occur in `a + y + b` overlapping the copy of `y`: not inside
   * it, not running into it, and not starting in it and running out of it.
   */
  predicate Isolated(x: string, y: string) {
    |x| > 0 && NoStraddle(x, y) && NoStraddle(y, x) && !Contains(y, x) && !(y <= x)
  }

  /** `x` is non-empty and its first character appears nowhere else in it. */
  predicate LoneLead(x: string) {
    |x| > 0 && forall i | 0 < i < |x| :: x[i] != x[0]
  }

  /** A text free of `x` stays free of it when an isolated `y` is spliced in. */
  lemma ConcatNoOccur(a: string, y: string, b: string, x: string)
    requires !Contains(a, x) && !Contains(b, x) && Isolated(x, y)
    ensures !Contains(a + y + b, x)
  {
    var t := a + y + b;
    forall p | 0 <= p <= |t| ensures !OccursAt(t, x, p) {
      if p + |x| <= |t| {
        var w := t[p..p + |x|];
        if p + |x| <= |a| {
          assert w == a[p..p + |x|];
          assert !OccursAt(a, x, p);
        } else if p < |a| {
          SpliceStraddle(a, y, b, x, p);
        } else if p < |a| + |y| {
          SpliceInside(a, y, b, x, p);
        } else {
          var q := p - |a| - |y|;
          assert w == b[q..q + |x|];
          assert !OccursAt(b, x, q);
        }
      }
    }
  }

  /** An occurrence of `x` cannot start in `a` and run into the spliced `y`. */
  lemma SpliceStraddle(a: string, y: string, b: string, x: string, p: nat)
    requires Isolated(x, y) && p < |a| < p + |x| <= |a + y + b|
    ensures !OccursAt(a + y + b, x, p)
  {
    var t := a + y + b;
    var w := t[p..p + |x|];
    var k := |a| - p;
    assert t[|a|..|a| + |y|] == y;
    if |x| - k <= |y| {
      assert w[k..] == t[|a|..p + |x|] == y[..|x| - k];
      assert !(x[k..] <= y);
    } else {
      assert w[k..k + |y|] == t[|a|..|a| + |y|] == y;
      assert !(y <= x[k..]);
    }
  }

  /** An occurrence of `x` cannot start inside the spliced `y`. */
  lemma SpliceInside(a: string, y: string, b: string, x: string, p: nat)
    requires Isolated(x, y) && |a| <= p < |a| + |y| && p + |x| <= |a + y + b|
    ensures !OccursAt(a + y + b, x, p)
  {
    var t := a + y + b;
    var w := t[p..p + |x|];
    var q := p - |a|;
    assert t[|a|..|a| + |y|] == y;
    if p + |x| <= |a| + |y| {
      assert w == y[q..q + |x|];
      assert !OccursAt(y, x, q);
    } else if q == 0 {
      assert w[..|y|] == y;
    } else {
      assert w[..|y| - q] == y[q..];
      assert !(y[q..] <= x);
    }
  }

  /**
   * `replace(pat, rep)` removes every `pat` and adds no `x` as long as `rep`
   * keeps `x` isolated; a text already free of `x` stays free of it.
   */
  lemma {:induction false} ReplaceAllLeavesNone(s: string, pat: string, rep: string, x: string)
    requires |pat| > 0 && Isolated(x, rep)
    requires x == pat || !Contains(s, x)
    decreases |s|
    ensures !Contains(ReplaceAll(s, pat, rep), x)
  {
    match Find(s, pat)
    case None =>
    case Some(i) =>
      var a := s[..i];
      var rest := s[i + |pat|..];
      if x == pat {
        FirstOccurrencePrefix(s, pat, i);
      } else {
        NotInPrefix(s, x, i);
        NotInSuffix(s, x, i + |pat|);
      }
      ReplaceAllLeavesNone(rest, pat, rep, x);
      ConcatNoOccur(a, rep, ReplaceAll(rest, pat, rep), x);
  }

  /** Two markers that start with the same lone character and differ early are isolated. */
  lemma LoneLeadIsolated(x: string, y: string)
    requires LoneLead(x) && LoneLead(y) && x[0] == y[0] && !PrefixRelated(x, y)
    ensures Isolated(x, y)
  {
    forall k | 0 < k < |x| ensures !PrefixRelated(x[k..], y) {
      assert x[k..][0] == x[k];
    }
    forall k | 0 < k < |y| ensures !PrefixRelated(y[k..], x) {
      assert y[k..][0] == y[k];
    }
    forall q | 0 <= q <= |y| ensures !OccursAt(y, x, q) {
      if q + |x| <= |y| {
        assert y[q..q + |x|][0] == y[q];
      }
    }
  }

  /** With `x` starting with a lone character, the first `x` in `a + x + b` is the one after `a`. */
  lemma FindAfter(a: string, x: string, b: string)
    requires LoneLead(x) && !Contains(a, x)
    ensures Find(a + x + b, x) == Some(|a|)
  {
    var s := a + x + b;
    assert s[|a|..|a| + |x|] == x;
    assert OccursAt(s, x, |a|);
    forall j | 0 <= j < |a| ensures !OccursAt(s, x, j) {
      if j + |x| <= |a| {
        assert s[j..j + |x|] == a[j..j + |x|];
        assert !OccursAt(a, x, j);
      } else {
        assert s[j..j + |x|][|a| - j] == s[|a|] == x[0];
      }
    }
  }

  /** Splitting at a lone-lead separator that first occurs after `a`. */
  lemma SplitOnce(a: string, x: string, b: string)
    requires LoneLead(x) && !Contains(a, x)
    ensures Split(a + x + b, x) == [a] + Split(b, x)
  {
    var s := a + x + b;
    var n := |a|;
    FindAfter(a, x, b);
    SplitStep(s, x, n);
    assert s[..n] == a;
    assert s[n + |x|..] == b;
  }

  /** Splitting a text without the separator gives the text alone. */
  lemma SplitNone(s: string, x: string)
    requires |x| > 0 && !Contains(s, x)
    ensures Split(s, x) == [s]
  {
  }
}
