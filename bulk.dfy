/**
 * The `main` loop shared by the scripts that rewrite every page found by
 * `Path('.').rglob('*.html')`: each page is read, rewritten, written back
 * only when the rewrite changed it, and counted when it was written.  A
 * listed page missing from the tree is passed over, as the `except` clauses
 * of the scripts that have them do.
 */
module Bulk {
  /** The site as a map from relative path to file content. */
  type Tree = map<string, string>

  /** The state after visiting some of the pages: the tree, `updated_count`, and the pages written, in order. */
  datatype Outcome = Outcome(tree: Tree, updated: nat, writes: seq<string>)

  /** One call of the per-file update function followed by `if ...: updated_count += 1`. */
  function Visit(o: Outcome, path: string, edit: (string, string) -> string): Outcome {
    if path in o.tree && edit(path, o.tree[path]) != o.tree[path] then
      Outcome(o.tree[path := edit(path, o.tree[path])], o.updated + 1, o.writes + [path])
    else o
  }

  /** The outcome of visiting `files` in order, starting from `fs`. */
  function RunAll(fs: Tree, files: seq<string>, edit: (string, string) -> string): Outcome
    decreases |files|
  {
    if files == [] then Outcome(fs, 0, [])
    else Visit(RunAll(fs, files[..|files| - 1], edit), files[|files| - 1], edit)
  }

  /** The loop of `main`. */
  method UpdateAll(fs: Tree, files: seq<string>, edit: (string, string) -> string)
    returns (tree: Tree, updated: nat, writes: seq<string>)
    ensures Outcome(tree, updated, writes) == RunAll(fs, files, edit)
  {
    tree, updated, writes := fs, 0, [];
    var i := 0;
    while i < |files|
      invariant 0 <= i <= |files|
      invariant Outcome(tree, updated, writes) == RunAll(fs, files[..i], edit)
    {
      assert files[..i + 1][..i] == files[..i];
      var path := files[i];
      if path in tree {
        var content := tree[path];
        var updatedContent := edit(path, content);
        if updatedContent != content {
          tree := tree[path := updatedContent];
          updated := updated + 1;
          writes := writes + [path];
        }
      }
      i := i + 1;
    }
    assert files[..|files|] == files;
  }

  /** Visiting one more page is one more step after the visits before it. */
  lemma RunAllSnoc(fs: Tree, files: seq<string>, path: string, edit: (string, string) -> string)
    ensures RunAll(fs, files + [path], edit) == Visit(RunAll(fs, files, edit), path, edit)
  {
    assert (files + [path])[..|files|] == files;
  }

  predicate Distinct(files: seq<string>) {
    forall i, j | 0 <= i < j < |files| :: files[i] != files[j]
  }

  /** The listed pages whose update changes them, in listing order. */
  function Changed(fs: Tree, files: seq<string>, edit: (string, string) -> string): seq<string>
    decreases |files|
  {
    if files == [] then []
    else
      var p := files[|files| - 1];
      Changed(fs, files[..|files| - 1], edit) + (if p in fs && edit(p, fs[p]) != fs[p] then [p] else [])
  }

  /**
   * Over a listing without repetitions (as `rglob` yields): no file is
   * created or removed, every listed page holds its update, every other page
   * is unchanged, exactly the pages the update changes are written, and
   * `updated_count` is their number.
   */
  lemma {:induction false} RunAllEffect(fs: Tree, files: seq<string>, edit: (string, string) -> string)
    requires Distinct(files)
    decreases |files|
    ensures var o := RunAll(fs, files, edit);
      o.tree.Keys == fs.Keys &&
      (forall p | p in fs :: o.tree[p] == if p in files then edit(p, fs[p]) else fs[p]) &&
      o.writes == Changed(fs, files, edit) && o.updated == |o.writes|
  {
    if files != [] {
      var n := |files| - 1;
      var init, last := files[..n], files[n];
      assert Distinct(init);
      RunAllEffect(fs, init, edit);
      assert last !in init by {
        forall i | 0 <= i < n ensures init[i] != last {
          assert init[i] == files[i];
        }
      }
      assert forall p :: p in files <==> p in init || p == last by {
        assert files == init + [last];
      }
    }
  }
}
