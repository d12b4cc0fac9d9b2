/** The bounded recursive walk over a shared folder, whose child relation may be cyclic. */
module FolderWalk {
  import opened Options

  const MAX_FOLDER_NODES := 10000

  /** An entry of a child list: a null node, a file, a folder, or any other node type. */
  datatype Entry = Null | File(handle: int) | Folder(id: int) | Other

  /** Child lists by folder; a folder without a list is one the SDK returns no list for. */
  type Graph = map<int, seq<Entry>>

  // ----- The unfolding of a folder -----

  /** All entries below a folder in preorder, provided every list exists and nothing lies deeper
      than `depth` lists. */
  ghost function Unfold(graph: Graph, id: int, depth: nat): Option<seq<Entry>>
    decreases depth, 0
  {
    if depth == 0 || id !in graph then None else UnfoldList(graph, graph[id], depth - 1)
  }

  /** The unfolding of a child list, each folder unfolded at most `depth` lists deep. */
  ghost function UnfoldList(graph: Graph, entries: seq<Entry>, depth: nat): Option<seq<Entry>>
    decreases depth, |entries| + 1
  {
    if entries == [] then Some([])
    else
      var last := entries[|entries| - 1];
      var front := UnfoldList(graph, entries[..|entries| - 1], depth);
      var inner := if last.Folder? then Unfold(graph, last.id, depth) else Some([]);
      if front.Some? && inner.Some? then Some(front.value + [last] + inner.value) else None
  }

  function FilesOf(entries: seq<Entry>): seq<Entry> {
    if entries == [] then []
    else
      var last := entries[|entries| - 1];
      FilesOf(entries[..|entries| - 1]) + if last.File? then [last] else []
  }

  /** The folder unfolds completely, into these entries. */
  ghost predicate UnfoldsTo(graph: Graph, id: int, entries: seq<Entry>) {
    exists depth: nat :: Unfold(graph, id, depth) == Some(entries)
  }

  ghost predicate ListUnfoldsTo(graph: Graph, list: seq<Entry>, entries: seq<Entry>) {
    exists depth: nat :: UnfoldList(graph, list, depth) == Some(entries)
  }

  lemma {:induction false} FilesAppend(a: seq<Entry>, b: seq<Entry>)
    ensures FilesOf(a + b) == FilesOf(a) + FilesOf(b)
  {
    if b == [] {
      assert a + b == a;
    } else {
      assert (a + b)[..|a + b| - 1] == a + b[..|b| - 1];
      FilesAppend(a, b[..|b| - 1]);
    }
  }

  lemma FilesNext(done: seq<Entry>, child: Entry, inner: seq<Entry>)
    ensures FilesOf(done + [child] + inner) == FilesOf(done) + (if child.File? then [child] else []) + FilesOf(inner)
  {
    FilesAppend(done + [child], inner);
    FilesAppend(done, [child]);
    assert [child][..0] == [];
  }

  lemma {:induction false} DeeperUnfold(graph: Graph, id: int, depth: nat, deeper: nat)
    requires depth <= deeper && Unfold(graph, id, depth).Some?
    ensures Unfold(graph, id, deeper) == Unfold(graph, id, depth)
    decreases depth, 0
  {
    DeeperUnfoldList(graph, graph[id], depth - 1, deeper - 1);
  }

  lemma {:induction false} DeeperUnfoldList(graph: Graph, entries: seq<Entry>, depth: nat, deeper: nat)
    requires depth <= deeper && UnfoldList(graph, entries, depth).Some?
    ensures UnfoldList(graph, entries, deeper) == UnfoldList(graph, entries, depth)
    decreases depth, |entries| + 1
  {
    if entries == [] {
    } else {
      var last := entries[|entries| - 1];
      DeeperUnfoldList(graph, entries[..|entries| - 1], depth, deeper);
      if last.Folder? {
        DeeperUnfold(graph, last.id, depth, deeper);
      }
    }
  }

  /** A list unfolds in one way only. */
  lemma ListUnfoldsOnce(graph: Graph, list: seq<Entry>, a: seq<Entry>, b: seq<Entry>)
    requires ListUnfoldsTo(graph, list, a) && ListUnfoldsTo(graph, list, b)
    ensures a == b
  {
    var d: nat :| UnfoldList(graph, list, d) == Some(a);
    var e: nat :| UnfoldList(graph, list, e) == Some(b);
    DeeperUnfoldList(graph, list, d, if d <= e then e else d);
    DeeperUnfoldList(graph, list, e, if d <= e then e else d);
  }

  lemma UnfoldsByList(graph: Graph, id: int, entries: seq<Entry>)
    ensures UnfoldsTo(graph, id, entries) <==> id in graph && ListUnfoldsTo(graph, graph[id], entries)
  {
    if UnfoldsTo(graph, id, entries) {
      var depth: nat :| Unfold(graph, id, depth) == Some(entries);
      assert UnfoldList(graph, graph[id], depth - 1) == Some(entries);
    }
    if id in graph && ListUnfoldsTo(graph, graph[id], entries) {
      var depth: nat :| UnfoldList(graph, graph[id], depth) == Some(entries);
      assert Unfold(graph, id, depth + 1) == Some(entries);
    }
  }

  /** Appending an entry to a list appends the entry and what lies below it to the unfolding. */
  lemma UnfoldNext(graph: Graph, list: seq<Entry>, k: nat, front: seq<Entry>, inner: seq<Entry>)
    requires k < |list| && ListUnfoldsTo(graph, list[..k], front)
    requires if list[k].Folder? then UnfoldsTo(graph, list[k].id, inner) else inner == []
    ensures ListUnfoldsTo(graph, list[..k + 1], front + [list[k]] + inner)
  {
    var d: nat :| UnfoldList(graph, list[..k], d) == Some(front);
    var e: nat := 0;
    if list[k].Folder? {
      e :| Unfold(graph, list[k].id, e) == Some(inner);
    }
    var depth := if d <= e then e else d;
    DeeperUnfoldList(graph, list[..k], d, depth);
    if list[k].Folder? {
      DeeperUnfold(graph, list[k].id, e, depth);
    }
    assert list[..k + 1][..k] == list[..k];
    assert UnfoldList(graph, list[..k + 1], depth) == Some(front + [list[k]] + inner);
  }

  /** Unfolding a list unfolds each of its fronts and the folder that follows. */
  lemma {:induction false} UnfoldFront(graph: Graph, list: seq<Entry>, k: nat, entries: seq<Entry>)
    returns (front: seq<Entry>, inner: seq<Entry>)
    requires k < |list| && ListUnfoldsTo(graph, list, entries)
    ensures ListUnfoldsTo(graph, list[..k], front)
    ensures if list[k].Folder? then UnfoldsTo(graph, list[k].id, inner) else inner == []
    ensures front + [list[k]] + inner <= entries
    decreases |list|
  {
    var depth: nat :| UnfoldList(graph, list, depth) == Some(entries);
    var last, init := list[|list| - 1], list[..|list| - 1];
    var before := UnfoldList(graph, init, depth).value;
    if k == |list| - 1 {
      front, inner := before, if last.Folder? then Unfold(graph, last.id, depth).value else [];
    } else {
      assert ListUnfoldsTo(graph, init, before);
      front, inner := UnfoldFront(graph, init, k, before);
      assert init[..k] == list[..k];
    }
  }

  // ----- The walk -----

  /** The folder unfolds completely within what `visited` entries leave of the budget. */
  ghost predicate Fits(graph: Graph, id: int, visited: nat) {
    exists entries :: UnfoldsTo(graph, id, entries) && visited + |entries| <= MAX_FOLDER_NODES
  }

  /** `files` and `visited` have grown by exactly these entries. */
  ghost predicate Grown(entries: seq<Entry>, files0: seq<Entry>, visited0: nat, files: seq<Entry>, visited: nat) {
    visited == visited0 + |entries| <= MAX_FOLDER_NODES && files == files0 + FilesOf(entries)
  }

  lemma Regroup(a: seq<Entry>, b: seq<Entry>, c: seq<Entry>, d: seq<Entry>)
    ensures a + b + c + d == a + (b + c + d)
  {
  }

  lemma GrownNext(
      done: seq<Entry>, child: Entry, inner: seq<Entry>, files0: seq<Entry>, visited0: nat,
      files: seq<Entry>, visited: nat)
    requires visited == visited0 + |done| + 1 + |inner| <= MAX_FOLDER_NODES
    requires files == files0 + FilesOf(done) + (if child.File? then [child] else []) + FilesOf(inner)
    ensures Grown(done + [child] + inner, files0, visited0, files, visited)
  {
    FilesNext(done, child, inner);
    Regroup(files0, FilesOf(done), if child.File? then [child] else [], FilesOf(inner));
  }

  /** When the entries before position `index` and whatever lies below it do not fit, nothing that
      the folder unfolds to fits. */
  lemma WalkFails(graph: Graph, parent: int, index: nat, done: seq<Entry>, start: nat)
    requires parent in graph && index < |graph[parent]|
    requires ListUnfoldsTo(graph, graph[parent][..index], done)
    requires start + |done| + 1 > MAX_FOLDER_NODES
          || (graph[parent][index].Folder? && !Fits(graph, graph[parent][index].id, start + |done| + 1))
    ensures !Fits(graph, parent, start)
  {
    forall entries | UnfoldsTo(graph, parent, entries) ensures start + |entries| > MAX_FOLDER_NODES {
      UnfoldsByList(graph, parent, entries);
      var front, inner := UnfoldFront(graph, graph[parent], index, entries);
      ListUnfoldsOnce(graph, graph[parent][..index], front, done);
    }
  }

  class FolderScan {
    var files: seq<Entry>
    var visited: nat

    constructor ()
      ensures files == [] && visited == 0
    {
      files, visited := [], 0;
    }

    /** Succeeds exactly when the folder unfolds completely within the budget that is left, and has
        then appended its files in preorder. Each recursive call is paid for by an entry. */
    method CollectFolderFiles(graph: Graph, parent: int) returns (ok: bool)
      requires visited <= MAX_FOLDER_NODES
      modifies this
      ensures ok <==> Fits(graph, parent, old(visited))
      ensures ok ==> exists entries ::
                UnfoldsTo(graph, parent, entries) && Grown(entries, old(files), old(visited), files, visited)
      decreases MAX_FOLDER_NODES + 1 - visited
    {
      if parent !in graph {
        return false;
      }
      var children := graph[parent];
      ghost var done: seq<Entry> := [];
      assert UnfoldList(graph, children[..0], 0) == Some([]);
      for index := 0 to |children|
        invariant ListUnfoldsTo(graph, children[..index], done)
        invariant Grown(done, old(files), old(visited), files, visited)
      {
        visited := visited + 1;
        if visited > MAX_FOLDER_NODES {
          WalkFails(graph, parent, index, done, old(visited));
          return false;
        }
        var child := children[index];
        ghost var inner: seq<Entry> := [];
        if child.File? {
          files := files + [child];
        } else if child.Folder? {
          var below := CollectFolderFiles(graph, child.id);
          if !below {
            WalkFails(graph, parent, index, done, old(visited));
            return false;
          }
          inner :| UnfoldsTo(graph, child.id, inner)
                && Grown(inner, old(files) + FilesOf(done), old(visited) + |done| + 1, files, visited);
        }
        UnfoldNext(graph, children, index, done, inner);
        GrownNext(done, child, inner, old(files), old(visited), files, visited);
        done := done + [child] + inner;
      }
      assert children[..|children|] == children;
      UnfoldsByList(graph, parent, done);
      ok := true;
    }
  }

  /** A folder link without a selected handle resolves exactly when the whole folder unfolds within
      the limit and holds one file. */
  method ResolveOnlyFile(graph: Graph, root: int) returns (file: Option<Entry>)
    ensures file.Some? <==> exists entries ::
              UnfoldsTo(graph, root, entries) && |entries| <= MAX_FOLDER_NODES && |FilesOf(entries)| == 1
    ensures file.Some? ==> exists entries :: UnfoldsTo(graph, root, entries) && FilesOf(entries) == [file.value]
  {
    var scan := new FolderScan();
    var ok := scan.CollectFolderFiles(graph, root);
    if !ok {
      return None;
    }
    ghost var entries :| UnfoldsTo(graph, root, entries) && Grown(entries, [], 0, scan.files, scan.visited);
    forall other | UnfoldsTo(graph, root, other) ensures other == entries {
      UnfoldsByList(graph, root, other);
      UnfoldsByList(graph, root, entries);
      ListUnfoldsOnce(graph, graph[root], other, entries);
    }
    if |scan.files| != 1 {
      return None;
    }
    assert FilesOf(entries) == [scan.files[0]];
    file := Some(scan.files[0]);
  }
}
