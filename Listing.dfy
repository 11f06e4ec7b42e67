/** Entry lists: the archive entries as the codec lists them, the local files
    that an add puts into the archive, and the specifications of the list
    computations in Zip.java (tree-view rows, subtree expansion, the index
    lists of delete/extract/save, the rewritten lists of delete, rename and add,
    and the directory entries synthesized for the tree view). */
module Listing {
  import opened PathNames

  datatype Option<T> = None | Some(value: T)

  /** An archive entry: its name, its uncompressed size and its modification
      time (-1 when unknown). A directory is an entry whose name ends in '/'. */
  datatype Entry = Entry(name: string, size: int, time: int)

  /** ZipEntry.isDirectory. */
  predicate IsDirectory(e: Entry) {
    EndsWithSlash(e.name)
  }

  /** `new ZipEntry(name)`: the directory entry synthesized for the tree view,
      with unknown size and time. */
  function Synthesized(name: string): Entry {
    Entry(name, -1, -1)
  }

  /** ZipFile.getEntry(name) != null. */
  predicate HasName(es: seq<Entry>, name: string) {
    exists i :: 0 <= i < |es| && es[i].name == name
  }

  /** A file or directory on the local disk, as the add operation sees it. */
  datatype LocalFile = LocalFile(name: string, readable: bool, modified: int, content: Content)
  datatype Content = Bytes(length: int) | Folder(children: seq<LocalFile>)

  // ---------------------------------------------------------------------------
  // Tree-view projection

  /** The positions below `n` whose mark is set, in increasing order. */
  function Positions(marks: seq<bool>, n: nat): seq<nat>
    requires n <= |marks|
    decreases n
  {
    if n == 0 then [] else Positions(marks, n - 1) + (if marks[n - 1] then [n - 1] else [])
  }

  /** Exactly the marked positions below `n` are listed. */
  lemma {:induction false} PositionsMembers(marks: seq<bool>, n: nat)
    requires n <= |marks|
    ensures forall k :: 0 <= k < |Positions(marks, n)| ==> Positions(marks, n)[k] < n && marks[Positions(marks, n)[k]]
    ensures forall i :: 0 <= i < n && marks[i] ==> i in Positions(marks, n)
    decreases n
  {
    if n > 0 {
      PositionsMembers(marks, n - 1);
    }
  }

  /** The listed positions increase. */
  lemma {:induction false} PositionsIncreasing(marks: seq<bool>, n: nat)
    requires n <= |marks|
    ensures forall k, l :: 0 <= k < l < |Positions(marks, n)| ==> Positions(marks, n)[k] < Positions(marks, n)[l]
    decreases n
  {
    if n > 0 {
      PositionsIncreasing(marks, n - 1);
      PositionsMembers(marks, n - 1);
    }
  }

  /** Listing fewer positions gives a prefix. */
  lemma {:induction false} PositionsOfPrefix(marks: seq<bool>, n: nat, m: nat)
    requires n <= m <= |marks|
    ensures Positions(marks, n) <= Positions(marks, m)
    decreases m
  {
    if n < m {
      PositionsOfPrefix(marks, n, m - 1);
    }
  }

  /** Which entries have the cursor `p` as their parent. */
  function ChildMarks(es: seq<Entry>, p: string): (r: seq<bool>)
    ensures |r| == |es|
    ensures forall i :: 0 <= i < |es| ==> (r[i] <==> ParentName(es[i].name) == p)
  {
    seq(|es|, i requires 0 <= i < |es| => ParentName(es[i].name) == p)
  }

  /** Positions, in list order, of the first `n` entries whose parent is `p`. */
  function ChildrenUpTo(es: seq<Entry>, p: string, n: nat): seq<nat>
    requires n <= |es|
  {
    Positions(ChildMarks(es, p), n)
  }

  /** Counting one more entry adds its position when it is a child of `p`. */
  lemma ChildrenUpToStep(es: seq<Entry>, p: string, n: nat)
    requires n < |es|
    ensures ChildrenUpTo(es, p, n + 1) ==
      ChildrenUpTo(es, p, n) + (if ParentName(es[n].name) == p then [n] else [])
  {
  }

  /** The rows the tree view shows at cursor `p`. */
  function Children(es: seq<Entry>, p: string): seq<nat> {
    ChildrenUpTo(es, p, |es|)
  }

  /** Every tree-view row is the position of a child of `p`. */
  lemma ChildrenSound(es: seq<Entry>, p: string)
    ensures forall k :: 0 <= k < |Children(es, p)| ==>
      Children(es, p)[k] < |es| && ParentName(es[Children(es, p)[k]].name) == p
  {
    PositionsMembers(ChildMarks(es, p), |es|);
  }

  /** Every child of `p` is some row. */
  lemma ChildrenComplete(es: seq<Entry>, p: string, i: int)
    requires 0 <= i < |es| && ParentName(es[i].name) == p
    ensures i in Children(es, p)
  {
    PositionsMembers(ChildMarks(es, p), |es|);
  }

  /** Rows keep list order. */
  lemma ChildrenIncreasing(es: seq<Entry>, p: string)
    ensures forall k, l :: 0 <= k < l < |Children(es, p)| ==> Children(es, p)[k] < Children(es, p)[l]
  {
    PositionsIncreasing(ChildMarks(es, p), |es|);
  }

  /** The rows among the first `n` entries are a prefix of the rows. */
  lemma ChildrenOfPrefix(es: seq<Entry>, p: string, n: nat)
    requires n <= |es|
    ensures ChildrenUpTo(es, p, n) <= Children(es, p)
  {
    PositionsOfPrefix(ChildMarks(es, p), n, |es|);
  }

  /** A child of `p` found after `index` earlier children is row `index`. */
  lemma ChildAtRow(es: seq<Entry>, p: string, n: nat, index: nat)
    requires n < |es| && ParentName(es[n].name) == p && index == |ChildrenUpTo(es, p, n)|
    ensures index < |Children(es, p)| && Children(es, p)[index] == n
  {
    ChildrenUpToStep(es, p, n);
    ChildrenOfPrefix(es, p, n + 1);
    assert ChildrenUpTo(es, p, n + 1)[index] == n;
  }

  /** Distinct rows map to distinct entries: row translation is a bijection
      onto the children of `p`. */
  lemma RowsAreBijective(es: seq<Entry>, p: string, k: nat, l: nat)
    requires k < |Children(es, p)| && l < |Children(es, p)|
    ensures Children(es, p)[k] == Children(es, p)[l] <==> k == l
  {
    var r := Children(es, p);
    ChildrenIncreasing(es, p);
    if k < l {
      assert r[k] < r[l];
    } else if l < k {
      assert r[l] < r[k];
    }
  }

  // ---------------------------------------------------------------------------
  // Subtree expansion

  /** Positions, in list order, of the entries inside directory `dir`. */
  function UnderIndices(es: seq<Entry>, dir: string): (r: seq<nat>)
    decreases |es|
  {
    if |es| == 0 then []
    else
      var n := |es| - 1;
      UnderIndices(es[..n], dir) + (if IsUnder(es[n].name, dir) then [n] else [])
  }

  /** The subtree list holds exactly the positions of the entries inside `dir`. */
  lemma {:induction false} UnderIndicesMembers(es: seq<Entry>, dir: string, i: int)
    ensures i in UnderIndices(es, dir) <==> 0 <= i < |es| && IsUnder(es[i].name, dir)
    decreases |es|
  {
    if |es| > 0 {
      var n := |es| - 1;
      UnderIndicesMembers(es[..n], dir, i);
      if 0 <= i < n {
        assert es[..n][i] == es[i];
      }
    }
  }

  /** Sum of the sizes of the files inside `dir` (getDirSize). */
  function FileBytesUnder(es: seq<Entry>, dir: string): int
    decreases |es|
  {
    if |es| == 0 then 0
    else
      var n := |es| - 1;
      FileBytesUnder(es[..n], dir) + (if !IsDirectory(es[n]) && IsUnder(es[n].name, dir) then es[n].size else 0)
  }

  /** A directory's size never counts a file outside it: if no file lies
      inside `dir`, its size is 0. */
  lemma {:induction false} EmptyDirHasNoBytes(es: seq<Entry>, dir: string)
    requires forall i :: 0 <= i < |es| && !IsDirectory(es[i]) ==> !IsUnder(es[i].name, dir)
    ensures FileBytesUnder(es, dir) == 0
    decreases |es|
  {
    if |es| > 0 {
      EmptyDirHasNoBytes(es[..|es| - 1], dir);
    }
  }

  /** A directory's size is never negative when no file size is negative;
      the sizes of directory entries do not count. */
  lemma {:induction false} DirBytesNonNegative(es: seq<Entry>, dir: string)
    requires forall i :: 0 <= i < |es| && !IsDirectory(es[i]) ==> es[i].size >= 0
    ensures FileBytesUnder(es, dir) >= 0
    decreases |es|
  {
    if |es| > 0 {
      DirBytesNonNegative(es[..|es| - 1], dir);
    }
  }

  // ---------------------------------------------------------------------------
  // Selections: the index lists of delete, extract and save

  /** Number of rows the table shows: every entry in the flat view, the
      children of the cursor in the tree view. */
  function RowCount(es: seq<Entry>, path: Option<string>): nat {
    if path.None? then |es| else |Children(es, path.value)|
  }

  predicate ValidRows(es: seq<Entry>, path: Option<string>, rows: seq<int>) {
    forall k :: 0 <= k < |rows| ==> 0 <= rows[k] < RowCount(es, path)
  }

  predicate ValidIndices(es: seq<Entry>, abs: seq<int>) {
    forall k :: 0 <= k < |abs| ==> 0 <= abs[k] < |es|
  }

  /** The absolute position shown at table row `row`: the row itself in the
      flat view, the row-th child of the cursor in the tree view. */
  function RowIndex(es: seq<Entry>, path: Option<string>, row: int): (i: nat)
    requires 0 <= row < RowCount(es, path)
    ensures i < |es|
    ensures path.Some? ==> ParentName(es[i].name) == path.value
  {
    if path.None? then row
    else
      ChildrenSound(es, path.value);
      Children(es, path.value)[row]
  }

  /** Absolute positions of the selected rows (convertIndex in the tree view). */
  function RowsToIndices(es: seq<Entry>, path: Option<string>, rows: seq<int>): (abs: seq<int>)
    requires ValidRows(es, path, rows)
    ensures |abs| == |rows| && ValidIndices(es, abs)
  {
    seq(|rows|, k requires 0 <= k < |rows| => RowIndex(es, path, rows[k]))
  }

  /** For each selected directory in turn, the positions of everything inside it. */
  function SubtreeLists(es: seq<Entry>, abs: seq<int>): (r: seq<int>)
    requires ValidIndices(es, abs)
    decreases |abs|
  {
    if |abs| == 0 then []
    else
      var n := |abs| - 1;
      SubtreeLists(es, abs[..n]) + (if IsDirectory(es[abs[n]]) then UnderIndices(es, es[abs[n]].name) else [])
  }

  /** A position is in the subtree lists exactly when it lies inside a selected directory. */
  lemma {:induction false} SubtreeListsMembers(es: seq<Entry>, abs: seq<int>, i: int)
    requires ValidIndices(es, abs)
    ensures i in SubtreeLists(es, abs) <==>
      0 <= i < |es| && exists k :: 0 <= k < |abs| && IsDirectory(es[abs[k]]) && IsUnder(es[i].name, es[abs[k]].name)
    decreases |abs|
  {
    if |abs| > 0 {
      var n := |abs| - 1;
      var pre := abs[..n];
      SubtreeListsMembers(es, pre, i);
      var tail := if IsDirectory(es[abs[n]]) then UnderIndices(es, es[abs[n]].name) else [];
      assert SubtreeLists(es, abs) == SubtreeLists(es, pre) + tail;
      if IsDirectory(es[abs[n]]) {
        UnderIndicesMembers(es, es[abs[n]].name, i);
      }
      if i in SubtreeLists(es, pre) {
        var k :| 0 <= k < |pre| && IsDirectory(es[pre[k]]) && IsUnder(es[i].name, es[pre[k]].name);
        assert pre[k] == abs[k];
      }
      if 0 <= i < |es| && exists k :: 0 <= k < |abs| && IsDirectory(es[abs[k]]) && IsUnder(es[i].name, es[abs[k]].name) {
        var k :| 0 <= k < |abs| && IsDirectory(es[abs[k]]) && IsUnder(es[i].name, es[abs[k]].name);
        if k < n {
          assert pre[k] == abs[k];
        }
      }
    }
  }

  /** The index list built by getIndexList: in the tree view every selected
      directory contributes its whole subtree, then the selected positions follow. */
  function Selection(es: seq<Entry>, path: Option<string>, rows: seq<int>): seq<int>
    requires ValidRows(es, path, rows)
  {
    var abs := RowsToIndices(es, path, rows);
    (if path.Some? then SubtreeLists(es, abs) else []) + abs
  }

  /** Which entries a selection takes: the selected ones and, in the tree
      view, every entry that has a selected directory as an ancestor. */
  lemma SelectionMembers(es: seq<Entry>, path: Option<string>, rows: seq<int>, i: int)
    requires ValidRows(es, path, rows)
    ensures var abs := RowsToIndices(es, path, rows);
      i in Selection(es, path, rows) <==>
        0 <= i < |es| &&
        (i in abs ||
         (path.Some? && exists k :: 0 <= k < |abs| && IsDirectory(es[abs[k]]) && IsUnder(es[i].name, es[abs[k]].name)))
  {
    var abs := RowsToIndices(es, path, rows);
    if path.Some? {
      SubtreeListsMembers(es, abs, i);
    }
  }

  /** The entries whose positions are not in `dropped`, in their original order
      (the copy loop `if (indexSet.contains(i)) continue;`). */
  function Keep(es: seq<Entry>, dropped: set<int>): seq<Entry>
    decreases |es|
  {
    if |es| == 0 then []
    else
      var n := |es| - 1;
      Keep(es[..n], dropped) + (if n in dropped then [] else [es[n]])
  }

  /** The copy keeps exactly the entries at positions outside `dropped`. */
  lemma {:induction false} KeepMembers(es: seq<Entry>, dropped: set<int>, e: Entry)
    ensures e in Keep(es, dropped) <==> exists i :: 0 <= i < |es| && i !in dropped && es[i] == e
    decreases |es|
  {
    if |es| > 0 {
      var n := |es| - 1;
      KeepMembers(es[..n], dropped, e);
      if exists i :: 0 <= i < |es| && i !in dropped && es[i] == e {
        var i :| 0 <= i < |es| && i !in dropped && es[i] == e;
        if i < n {
          assert es[..n][i] == e;
        }
      }
    }
  }

  /** The copy's length: the entry count drops by the number of dropped positions. */
  lemma {:induction false} KeepCount(es: seq<Entry>, dropped: set<int>)
    ensures |Keep(es, dropped)| == |es| - |set i | 0 <= i < |es| && i in dropped|
    decreases |es|
  {
    if |es| == 0 {
      assert (set i | 0 <= i < |es| && i in dropped) == {};
    } else {
      var n := |es| - 1;
      KeepCount(es[..n], dropped);
      var before := set i | 0 <= i < n && i in dropped;
      var after := set i | 0 <= i < |es| && i in dropped;
      assert |es[..n]| == n;
      if n in dropped {
        assert after == before + {n};
        assert n !in before;
      } else {
        assert after == before;
      }
    }
  }

  /** The copy depends only on which real positions are dropped. */
  lemma {:induction false} KeepAgrees(es: seq<Entry>, a: set<int>, b: set<int>)
    requires forall i :: 0 <= i < |es| ==> (i in a <==> i in b)
    ensures Keep(es, a) == Keep(es, b)
    decreases |es|
  {
    if |es| > 0 {
      KeepAgrees(es[..|es| - 1], a, b);
    }
  }

  /** Whether the delete of `rows` removes position `i`. */
  predicate Doomed(es: seq<Entry>, path: Option<string>, rows: seq<int>, i: int)
    requires ValidRows(es, path, rows)
  {
    var abs := RowsToIndices(es, path, rows);
    0 <= i < |es| && (i in abs || (path.Some? && exists k :: 0 <= k < |abs| && IsDirectory(es[abs[k]]) && IsUnder(es[i].name, es[abs[k]].name)))
  }

  /** Delete writes the original entries in order minus the selected ones and,
      in the tree view, minus everything inside a selected directory. */
  lemma DeleteWritesSurvivors(es: seq<Entry>, path: Option<string>, rows: seq<int>)
    requires ValidRows(es, path, rows)
    ensures Keep(es, set i | i in Selection(es, path, rows)) ==
            Keep(es, set i | 0 <= i < |es| && Doomed(es, path, rows, i))
  {
    var sel := Selection(es, path, rows);
    var a := set i | i in sel;
    var b := set i | 0 <= i < |es| && Doomed(es, path, rows, i);
    forall i | 0 <= i < |es|
      ensures i in a <==> i in b
    {
      SelectedIsDoomed(es, path, rows, i);
    }
    KeepAgrees(es, a, b);
  }

  lemma SelectedIsDoomed(es: seq<Entry>, path: Option<string>, rows: seq<int>, i: int)
    requires ValidRows(es, path, rows)
    ensures i in Selection(es, path, rows) <==> Doomed(es, path, rows, i)
  {
    SelectionMembers(es, path, rows, i);
  }

  // ---------------------------------------------------------------------------
  // Rename

  /** The characters a new leaf name must not contain, in the order they are checked. */
  const Reserved: seq<char> := ['*', '|', '\\', ':', '"', '<', '>', '?', '/']

  /** The full new name: the old parent, the new leaf and the old directory suffix. */
  function NewFullName(oldName: string, leaf: string): (r: string)
    ensures EndsWithSlash(r) <==> EndsWithSlash(oldName) || (leaf != [] && leaf[|leaf| - 1] == '/') || (leaf == [] && EndsWithSlash(ParentName(oldName)))
  {
    ParentName(oldName) + leaf + DirSuffix(oldName)
  }

  /** Renaming only the leaf keeps the parent and, for a leaf without '/',
      the new name sits in the same directory as the old one. */
  lemma NewNameSameParent(oldName: string, leaf: string)
    requires leaf != [] && forall i :: 0 <= i < |leaf| ==> leaf[i] != '/'
    ensures ParentName(NewFullName(oldName, leaf)) == ParentName(oldName)
    ensures LeafName(NewFullName(oldName, leaf)) == leaf
  {
    var p := ParentName(oldName);
    var n := NewFullName(oldName, leaf);
    var s := StripSlash(n);
    assert s == p + leaf;
    var k := LastIndexOf(s, '/');
    if p == "" {
      assert forall i :: 0 <= i < |s| ==> s[i] != '/';
      assert k == -1;
    } else {
      assert s[|p| - 1] == '/';
      assert k == |p| - 1;
      assert s[..k + 1] == p;
    }
  }

  /** checkName: does entry `e` already use `newName`? A directory entry
      loses its '/' when the new name has none, a file entry gains one when
      the new name ends in '/'. */
  predicate Clashes(e: Entry, newName: string) {
    if IsDirectory(e) then
      (if !EndsWithSlash(newName) then e.name[..|e.name| - 1] else e.name) == newName
    else
      (if EndsWithSlash(newName) then e.name + "/" else e.name) == newName
  }

  /** checkName compares names once the trailing '/' difference is ignored. */
  lemma ClashIgnoresSuffix(e: Entry, newName: string)
    ensures Clashes(e, newName) <==> StripSlash(e.name) == StripSlash(newName)
  {
    if IsDirectory(e) && EndsWithSlash(newName) {
      if StripSlash(e.name) == StripSlash(newName) {
        assert e.name == StripSlash(e.name) + "/";
        assert newName == StripSlash(newName) + "/";
      }
    } else if !IsDirectory(e) && EndsWithSlash(newName) {
      if StripSlash(e.name) == StripSlash(newName) {
        assert newName == StripSlash(newName) + "/";
      }
    }
  }

  /** The name an entry gets in the rewritten archive: the target gets the new
      name; in the tree view an entry inside the old directory has that
      directory's prefix replaced; any other entry keeps its name. */
  function RenamedName(name: string, isTarget: bool, oldName: string, newName: string, tree: bool): string {
    if isTarget then newName
    else if tree && IsUnder(name, oldName) then newName + name[|oldName|..]
    else name
  }

  /** The entry list rename writes; sizes and times are carried over. */
  function Renamed(es: seq<Entry>, target: nat, newName: string, tree: bool): (r: seq<Entry>)
    requires target < |es|
    ensures |r| == |es|
    ensures forall i :: 0 <= i < |es| ==> r[i].size == es[i].size && r[i].time == es[i].time
  {
    seq(|es|, i requires 0 <= i < |es| =>
      Entry(RenamedName(es[i].name, i == target, es[target].name, newName, tree), es[i].size, es[i].time))
  }

  /** Rename changes no entry outside the renamed subtree, and moves every
      entry inside it under the new directory name. */
  lemma RenameMovesSubtreeOnly(es: seq<Entry>, target: nat, newName: string, tree: bool, i: nat)
    requires target < |es| && i < |es| && i != target
    requires EndsWithSlash(newName) == EndsWithSlash(es[target].name)
    ensures var r := Renamed(es, target, newName, tree);
      if tree && IsUnder(es[i].name, es[target].name) then
        IsUnder(r[i].name, newName) && r[i].name[|newName|..] == es[i].name[|es[target].name|..]
      else r[i] == es[i]
  {
  }

  /** Renaming back restores the archive, provided nothing already lay inside
      the new name (which checkName guarantees in the tree view, see
      NothingUnderFreeName). */
  lemma RenameRoundTrip(es: seq<Entry>, target: nat, newName: string, tree: bool)
    requires target < |es|
    requires EndsWithSlash(newName) == EndsWithSlash(es[target].name)
    requires tree ==> forall i :: 0 <= i < |es| ==> !IsUnder(es[i].name, newName)
    ensures Renamed(Renamed(es, target, newName, tree), target, es[target].name, tree) == es
  {
    var oldName := es[target].name;
    var r1 := Renamed(es, target, newName, tree);
    var r2 := Renamed(r1, target, oldName, tree);
    forall i | 0 <= i < |es|
      ensures r2[i] == es[i]
    {
      if i != target && tree && IsUnder(es[i].name, oldName) {
        var sfx := es[i].name[|oldName|..];
        assert r1[i].name == newName + sfx;
        assert IsUnder(r1[i].name, newName);
        assert es[i].name == oldName + sfx;
      }
    }
  }

  /** A list in which every ancestor of every entry is itself an entry. */
  ghost predicate AncestorClosed(es: seq<Entry>) {
    forall i, d :: 0 <= i < |es| && IsUnder(es[i].name, d) ==> HasName(es, d)
  }

  /** In an ancestor-closed list, a directory name no entry clashes with has
      nothing inside it. */
  lemma NothingUnderFreeName(es: seq<Entry>, newName: string)
    requires AncestorClosed(es)
    requires forall i :: 0 <= i < |es| ==> !Clashes(es[i], newName)
    ensures forall i :: 0 <= i < |es| ==> !IsUnder(es[i].name, newName)
  {
    forall j | 0 <= j < |es|
      ensures es[j].name != newName
    {
      ClashIgnoresSuffix(es[j], es[j].name);
    }
    assert !HasName(es, newName);
  }

  // ---------------------------------------------------------------------------
  // Add

  /** addFileNDir: the entries written for local files placed under `parent`.
      Unreadable files are skipped; a directory writes its own entry, then its
      contents under it. */
  function Archived(fs: seq<LocalFile>, parent: string): seq<Entry>
    decreases fs
  {
    if |fs| == 0 then [] else ArchivedOne(fs[0], parent) + Archived(fs[1..], parent)
  }

  function ArchivedOne(f: LocalFile, parent: string): seq<Entry>
    decreases f
  {
    if !f.readable then []
    else match f.content
      case Bytes(n) => [Entry(parent + f.name, n, f.modified)]
      case Folder(cs) => [Entry(parent + f.name + "/", 0, f.modified)] + Archived(cs, parent + f.name + "/")
  }

  /** Writing one more file after a list writes its entries after the list's. */
  lemma {:induction false} ArchivedAppend(fs: seq<LocalFile>, f: LocalFile, parent: string)
    ensures Archived(fs + [f], parent) == Archived(fs, parent) + ArchivedOne(f, parent)
    decreases |fs|
  {
    if |fs| == 0 {
      assert Archived([f], parent) == ArchivedOne(f, parent) + Archived([], parent);
    } else {
      assert (fs + [f])[1..] == fs[1..] + [f];
      ArchivedAppend(fs[1..], f, parent);
    }
  }

  /** Every entry written for local files lands under the destination directory. */
  lemma {:induction false} ArchivedStaysInside(fs: seq<LocalFile>, parent: string)
    ensures forall e :: e in Archived(fs, parent) ==> parent <= e.name
    decreases fs
  {
    if |fs| > 0 {
      ArchivedOneStaysInside(fs[0], parent);
      ArchivedStaysInside(fs[1..], parent);
    }
  }

  lemma {:induction false} ArchivedOneStaysInside(f: LocalFile, parent: string)
    ensures forall e :: e in ArchivedOne(f, parent) ==> parent <= e.name
    decreases f
  {
    if f.readable && f.content.Folder? {
      var dir := parent + f.name + "/";
      ArchivedStaysInside(f.content.children, dir);
      forall e | e in Archived(f.content.children, dir)
        ensures parent <= e.name
      {
        assert dir <= e.name;
        assert e.name[..|parent|] == dir[..|parent|];
      }
    }
  }

  /** The entries that exist on disk (the non-null slots of `files`). */
  function Present(files: seq<Option<LocalFile>>): (r: seq<LocalFile>)
    ensures |r| <= |files|
    ensures forall f :: f in r <==> Some(f) in files
  {
    if |files| == 0 then []
    else
      assert files == [files[0]] + files[1..];
      (if files[0].Some? then [files[0].value] else []) + Present(files[1..])
  }

  /** Present keeps the order of the slots: the present files of two lists
      one after the other are those of the first followed by those of the
      second. */
  lemma {:induction false} PresentAppend(a: seq<Option<LocalFile>>, b: seq<Option<LocalFile>>)
    ensures Present(a + b) == Present(a) + Present(b)
    decreases |a|
  {
    if |a| > 0 {
      assert (a + b)[1..] == a[1..] + b;
      PresentAppend(a[1..], b);
    } else {
      assert a + b == b;
    }
  }

  // ---------------------------------------------------------------------------
  // Directory entries synthesized for the tree view

  /** The names on `chain` the codec does not list. */
  function MissingIn(codec: seq<Entry>, chain: seq<string>): set<string> {
    set d | d in chain && !HasName(codec, d)
  }

  /** One step of the ancestor walk: the head of the chain is missing or not. */
  lemma MissingInStep(codec: seq<Entry>, p: string)
    requires |p| > 0
    ensures MissingIn(codec, Chain(p)) ==
      (if HasName(codec, p) then {} else {p}) + MissingIn(codec, Chain(ParentName(p)))
  {
    assert Chain(p) == [p] + Chain(ParentName(p));
    MissingInCons(codec, p, Chain(ParentName(p)));
  }

  lemma MissingInCons(codec: seq<Entry>, p: string, rest: seq<string>)
    ensures MissingIn(codec, [p] + rest) == (if HasName(codec, p) then {} else {p}) + MissingIn(codec, rest)
  {
    forall d
      ensures d in MissingIn(codec, [p] + rest) <==> d in (if HasName(codec, p) then {} else {p}) + MissingIn(codec, rest)
    {
      assert d in [p] + rest <==> d == p || d in rest;
    }
  }

  /** getMissingEntries' name set after its first `n` entries: every ancestor
      of one of them that the codec does not list. */
  function MissingDirs(codec: seq<Entry>, n: nat): set<string>
    requires n <= |codec|
    decreases n
  {
    if n == 0 then {}
    else MissingDirs(codec, n - 1) + MissingAbove(codec, codec[n - 1].name)
  }

  /** The directory prefixes of `name` (its ancestors) that the codec does not list. */
  function MissingAbove(codec: seq<Entry>, name: string): set<string> {
    set k | 0 <= k < |name| - 1 && name[k] == '/' && !HasName(codec, name[..k + 1]) :: name[..k + 1]
  }

  lemma MissingAboveMembers(codec: seq<Entry>, name: string, d: string)
    ensures d in MissingAbove(codec, name) <==> !HasName(codec, d) && IsUnder(name, d)
  {
    if IsUnder(name, d) && !HasName(codec, d) {
      var k := |d| - 1;
      assert d == name[..k + 1];
    }
  }

  lemma MissingAboveIsAncestors(codec: seq<Entry>, name: string)
    ensures MissingAbove(codec, name) == MissingIn(codec, Ancestors(name))
  {
    forall d | true
      ensures d in MissingAbove(codec, name) <==> d in MissingIn(codec, Ancestors(name))
    {
      MissingAboveMembers(codec, name, d);
      MissingInAncestors(codec, name, d);
    }
  }

  /** One of the first `n` entries lies inside `d`. */
  predicate SomeUnder(codec: seq<Entry>, n: nat, d: string)
    requires n <= |codec|
    decreases n
  {
    n > 0 && (SomeUnder(codec, n - 1, d) || IsUnder(codec[n - 1].name, d))
  }

  lemma {:induction false} SomeUnderWitness(codec: seq<Entry>, n: nat, d: string)
    requires n <= |codec|
    ensures SomeUnder(codec, n, d) <==> exists i :: 0 <= i < n && IsUnder(codec[i].name, d)
    decreases n
  {
    if n > 0 {
      SomeUnderWitness(codec, n - 1, d);
      if !SomeUnder(codec, n, d) {
        forall i | 0 <= i < n
          ensures !IsUnder(codec[i].name, d)
        {
        }
      }
    }
  }

  /** An unlisted ancestor of `name` is exactly an unlisted directory that holds it. */
  lemma MissingInAncestors(codec: seq<Entry>, name: string, d: string)
    ensures d in MissingIn(codec, Ancestors(name)) <==> !HasName(codec, d) && IsUnder(name, d)
  {
    AncestorsAreProperDirPrefixes(name, d);
  }

  lemma MissingDirsStep(codec: seq<Entry>, n: nat, d: string)
    requires 0 < n <= |codec|
    ensures d in MissingDirs(codec, n) <==>
      d in MissingDirs(codec, n - 1) || d in MissingAbove(codec, codec[n - 1].name)
  {
  }

  lemma {:induction false} MissingDirsUnder(codec: seq<Entry>, n: nat, d: string)
    requires n <= |codec|
    ensures d in MissingDirs(codec, n) <==> !HasName(codec, d) && SomeUnder(codec, n, d)
    decreases n
  {
    if n > 0 {
      MissingDirsUnder(codec, n - 1, d);
      MissingAboveMembers(codec, codec[n - 1].name, d);
      MissingDirsStep(codec, n, d);
    }
  }

  /** A missing directory is exactly an unlisted name that one of the first `n`
      entries lies inside. */
  lemma MissingDirsMembers(codec: seq<Entry>, n: nat, d: string)
    requires n <= |codec|
    ensures d in MissingDirs(codec, n) <==>
      !HasName(codec, d) && exists i :: 0 <= i < n && IsUnder(codec[i].name, d)
  {
    MissingDirsUnder(codec, n, d);
    SomeUnderWitness(codec, n, d);
  }

  /** What loadEntries leaves in entryList: the codec's entries first, in their
      order; in the tree view, followed by one synthesized entry per missing
      directory and nothing else. */
  ghost predicate LoadedFrom(codec: seq<Entry>, tree: bool, es: seq<Entry>) {
    |codec| <= |es| && es[..|codec|] == codec &&
    (!tree ==> |es| == |codec|) &&
    (tree ==>
      (forall i :: |codec| <= i < |es| ==> es[i] == Synthesized(es[i].name) && es[i].name in MissingDirs(codec, |codec|)) &&
      (forall d :: d in MissingDirs(codec, |codec|) ==> exists i :: |codec| <= i < |es| && es[i].name == d) &&
      (forall i, j :: |codec| <= i < j < |es| ==> es[i].name != es[j].name))
  }

  /** After a tree-view load every ancestor directory of every entry is an entry. */
  lemma LoadedTreeIsClosed(codec: seq<Entry>, es: seq<Entry>)
    requires LoadedFrom(codec, true, es)
    ensures AncestorClosed(es)
  {
    forall i, d | 0 <= i < |es| && IsUnder(es[i].name, d)
      ensures HasName(es, d)
    {
      var c: nat;
      if i < |codec| {
        c := i;
        assert codec[c] == es[i];
      } else {
        var m := es[i].name;
        MissingDirsMembers(codec, |codec|, m);
        var c' :| 0 <= c' < |codec| && IsUnder(codec[c'].name, m);
        UnderTransitive(codec[c'].name, m, d);
        c := c';
      }
      assert IsUnder(codec[c].name, d);
      if HasName(codec, d) {
        var j :| 0 <= j < |codec| && codec[j].name == d;
        assert es[j] == codec[j];
      } else {
        MissingDirsMembers(codec, |codec|, d);
        var j :| |codec| <= j < |es| && es[j].name == d;
      }
    }
  }
}
