/**
 * Python's `str.format(**fields)` restricted to named fields: `{{` and `}}`
 * stand for single braces, `{name}` for the value of `name`, and anything
 * else with a brace is malformed.
 */
module Template {
  import opened Text

  datatype FormatError =
      /** `ValueError`: a lone `}` or `{`, or a field that never closes. */
    | Malformed
      /** `KeyError(name)`: a field with no value. */
    | MissingField(name: string)

  /** The text `{name}`. */
  function Field(name: string): string {
    "{" + name + "}"
  }

  predicate BraceFree(s: string) {
    NoChar(s, '{') && NoChar(s, '}')
  }

  function Prepend(a: string, r: Result<string, FormatError>): Result<string, FormatError> {
    if r.Ok? then Ok(a + r.value) else r
  }

  /** `t.format(**fields)`, read left to right; the first error met is the one raised. */
  function Format(t: string, fields: map<string, string>): Result<string, FormatError>
    decreases |t|
  {
    if t == [] then Ok([])
    else if t[0] == '{' then
      if |t| == 1 then Err(Malformed)
      else if t[1] == '{' then Prepend("{", Format(t[2..], fields))
      else
        var n := CharIndex(t[1..], '}');
        if n == |t| - 1 then Err(Malformed)
        else
          var name := t[1..n + 1];
          if !NoChar(name, '{') then Err(Malformed)
          else if name !in fields then Err(MissingField(name))
          else Prepend(fields[name], Format(t[n + 2..], fields))
    else if t[0] == '}' then
      if |t| >= 2 && t[1] == '}' then Prepend("}", Format(t[2..], fields))
      else Err(Malformed)
    else Prepend([t[0]], Format(t[1..], fields))
  }

  /** Text without braces is copied through. */
  lemma {:induction false} FormatPlainPrefix(a: string, b: string, fields: map<string, string>)
    requires BraceFree(a)
    decreases |a|
    ensures Format(a + b, fields) == Prepend(a, Format(b, fields))
  {
    if a == [] {
      assert a + b == b;
      if Format(b, fields).Ok? {
        assert a + Format(b, fields).value == Format(b, fields).value;
      }
    } else {
      var t := a + b;
      assert t[0] == a[0] && a[0] != '{' && a[0] != '}';
      assert t[1..] == a[1..] + b;
      assert BraceFree(a[1..]) by {
        forall i | 0 <= i < |a| - 1 ensures a[1..][i] == a[i + 1] { }
      }
      FormatPlainPrefix(a[1..], b, fields);
      assert Format(t, fields) == Prepend([a[0]], Format(t[1..], fields));
      if Format(b, fields).Ok? {
        var v := Format(b, fields).value;
        assert [a[0]] + (a[1..] + v) == a + v;
      }
    }
  }

  function Append(r: Result<string, FormatError>, c: string): Result<string, FormatError> {
    if r.Ok? then Ok(r.value + c) else r
  }

  /**
   * Text without braces after a template renders verbatim after it, and a
   * template that raises still raises the same error.
   */
  lemma {:induction false} FormatAppendPlain(t: string, c: string, fields: map<string, string>)
    requires BraceFree(c)
    decreases |t|, 3
    ensures Format(t + c, fields) == Append(Format(t, fields), c)
  {
    if t == [] {
      assert t + c == c;
      FormatPlain(c, fields);
    } else if t[0] == '{' {
      AppendOpen(t, c, fields);
    } else if t[0] == '}' {
      AppendClose(t, c, fields);
    } else {
      assert (t + c)[1..] == t[1..] + c;
      FormatAppendPlain(t[1..], c, fields);
      AppendPrepend([t[0]], Format(t[1..], fields), c);
    }
  }

  lemma {:induction false} AppendOpen(t: string, c: string, fields: map<string, string>)
    requires BraceFree(c) && t != [] && t[0] == '{'
    decreases |t|, 2
    ensures Format(t + c, fields) == Append(Format(t, fields), c)
  {
    var u := t + c;
    if |t| == 1 {
      if c != [] {
        BraceFreeIndex(c, '}');
        assert u[1..] == c;
      }
    } else if t[1] == '{' {
      assert u[2..] == t[2..] + c;
      FormatAppendPlain(t[2..], c, fields);
      AppendPrepend("{", Format(t[2..], fields), c);
    } else {
      AppendField(t, c, fields);
    }
  }

  lemma {:induction false} AppendField(t: string, c: string, fields: map<string, string>)
    requires BraceFree(c) && |t| >= 2 && t[0] == '{' && t[1] != '{'
    decreases |t|, 1
    ensures Format(t + c, fields) == Append(Format(t, fields), c)
  {
    var u := t + c;
    var n := CharIndex(t[1..], '}');
    assert u[1..] == t[1..] + c;
    CharIndexConcat(t[1..], c, '}');
    BraceFreeIndex(c, '}');
    if n < |t| - 1 {
      AppendFieldClosed(t, c, fields, n);
    }
  }

  /** The closed-field case of `AppendField`, with `n` the index of the first `}` after the `{`. */
  lemma {:induction false} AppendFieldClosed(t: string, c: string, fields: map<string, string>, n: nat)
    requires BraceFree(c) && |t| >= 2 && t[0] == '{' && t[1] != '{'
    requires n == CharIndex(t[1..], '}') && n < |t| - 1
    decreases |t|, 0
    ensures Format(t + c, fields) == Append(Format(t, fields), c)
  {
    var u := t + c;
    assert u[1..] == t[1..] + c;
    CharIndexConcat(t[1..], c, '}');
    assert u[1..n + 1] == t[1..n + 1];
    assert u[n + 2..] == t[n + 2..] + c;
    FormatAppendPlain(t[n + 2..], c, fields);
    if t[1..n + 1] in fields {
      AppendPrepend(fields[t[1..n + 1]], Format(t[n + 2..], fields), c);
    }
  }

  lemma {:induction false} AppendClose(t: string, c: string, fields: map<string, string>)
    requires BraceFree(c) && t != [] && t[0] == '}'
    decreases |t|, 0
    ensures Format(t + c, fields) == Append(Format(t, fields), c)
  {
    var u := t + c;
    if |t| >= 2 && t[1] == '}' {
      assert u[2..] == t[2..] + c;
      FormatAppendPlain(t[2..], c, fields);
      AppendPrepend("}", Format(t[2..], fields), c);
    } else if |t| == 1 && c != [] {
      assert u[1] == c[0];
    }
  }

  lemma AppendPrepend(a: string, r: Result<string, FormatError>, c: string)
    ensures Append(Prepend(a, r), c) == Prepend(a, Append(r, c))
  {
    if r.Ok? {
      ConcatAssoc(a, r.value, c);
    }
  }

  /** In a text without `ch`, the search for `ch` runs to the end. */
  lemma BraceFreeIndex(s: string, ch: char)
    requires NoChar(s, ch)
    ensures CharIndex(s, ch) == |s|
  {
  }

  /** A template without braces renders to itself, whatever the fields. */
  lemma FormatPlain(t: string, fields: map<string, string>)
    requires BraceFree(t)
    ensures Format(t, fields) == Ok(t)
  {
    FormatPlainPrefix(t, [], fields);
    assert t + [] == t;
  }

  /** A field at the start of the template renders as its value. */
  lemma FormatFieldHead(name: string, b: string, fields: map<string, string>)
    requires |name| > 0 && BraceFree(name)
    ensures Format(Field(name) + b, fields) ==
      if name in fields then Prepend(fields[name], Format(b, fields)) else Err(MissingField(name))
  {
    var t := Field(name) + b;
    assert t[1..] == name + "}" + b;
    CharIndexAfter(name, '}', b);
    assert t[1..|name| + 1] == name;
    assert t[|name| + 2..] == b;
  }

  /** A field after plain text renders as its value, and the rest renders on its own. */
  lemma FormatFieldAfter(a: string, name: string, b: string, fields: map<string, string>)
    requires BraceFree(a) && |name| > 0 && BraceFree(name) && name in fields
    ensures Format(a + Field(name) + b, fields) == Prepend(a + fields[name], Format(b, fields))
  {
    FormatFieldHead(name, b, fields);
    assert a + Field(name) + b == a + (Field(name) + b);
    FormatPlainPrefix(a, Field(name) + b, fields);
    if Format(b, fields).Ok? {
      assert a + (fields[name] + Format(b, fields).value) == a + fields[name] + Format(b, fields).value;
    }
  }

  /** A field with no value raises `KeyError` when nothing before it is malformed. */
  lemma FormatMissing(a: string, name: string, b: string, fields: map<string, string>)
    requires BraceFree(a) && |name| > 0 && BraceFree(name) && name !in fields
    ensures Format(a + Field(name) + b, fields) == Err(MissingField(name))
  {
    FormatPlainPrefix(a, Field(name) + b, fields);
    FormatFieldHead(name, b, fields);
    assert a + Field(name) + b == a + (Field(name) + b);
  }

  /**
   * A template whose only braces are the `{name}` fields between brace-free
   * pieces renders to the pieces joined with the field's value.
   */
  lemma {:induction false} FormatJoin(pieces: seq<string>, name: string, fields: map<string, string>)
    requires |pieces| > 0 && |name| > 0 && BraceFree(name) && name in fields
    requires forall i | 0 <= i < |pieces| :: BraceFree(pieces[i])
    decreases |pieces|
    ensures Format(Join(pieces, Field(name)), fields) == Ok(Join(pieces, fields[name]))
  {
    if |pieces| == 1 {
      FormatPlain(pieces[0], fields);
    } else {
      var rest := pieces[1..];
      forall i | 0 <= i < |rest| ensures BraceFree(rest[i]) {
        assert rest[i] == pieces[i + 1];
      }
      FormatJoin(rest, name, fields);
      FormatJoinStep(pieces[0], Join(rest, Field(name)), Join(rest, fields[name]), name, fields);
    }
  }

  /** A brace-free piece and a field in front of a template that renders. */
  lemma FormatJoinStep(head: string, rest: string, restValue: string, name: string, fields: map<string, string>)
    requires BraceFree(head) && |name| > 0 && BraceFree(name) && name in fields
    requires Format(rest, fields) == Ok(restValue)
    ensures Format(head + Field(name) + rest, fields) == Ok(head + fields[name] + restValue)
  {
    FormatPlainPrefix(head, Field(name) + rest, fields);
    FormatFieldHead(name, rest, fields);
    ConcatAssoc(head, Field(name), rest);
    ConcatAssoc(head, fields[name], restValue);
  }

  /**
   * When `{name}` is the template's only use of braces, `format` is
   * `str.replace` of every `{name}` by the value, and nothing else changes.
   */
  lemma FormatIsReplace(t: string, name: string, fields: map<string, string>)
    requires |name| > 0 && BraceFree(name) && name in fields
    requires forall i | 0 <= i < |Split(t, Field(name))| :: BraceFree(Split(t, Field(name))[i])
    ensures Format(t, fields) == Ok(ReplaceAll(t, Field(name), fields[name]))
  {
    var key := Field(name);
    SplitJoin(t, key);
    FormatJoin(Split(t, key), name, fields);
    ReplaceAllIsJoinSplit(t, key, fields[name]);
  }
}
