/** The window's directory history (JZip.goPrev, goNext, goTo, goToHome,
    goToParent and the double-click on a directory row), the stacks that
    open and close reset, and the "open recent" menu.

    The history holds cursors as getPath shows them ("/", "/a/b"); going
    back or forward hands the shown form to setPath. */
module Navigation {
  import opened PathNames
  import opened Listing
  import opened Archives

  /** The cursor of the tree view and the two history stacks (top = last). */
  datatype Nav = Nav(cursor: string, back: seq<string>, forward: seq<string>)

  /** The cursor setPath(text) leaves behind, starting from `c`. */
  function Moved(es: seq<Entry>, c: string, text: string): (r: string)
    ensures r == c || r == "" || (EndsWithSlash(r) && HasName(es, r))
  {
    Resolve(es, Some(c), text).value
  }

  /** goPrev: nothing when the back stack is empty; otherwise the shown
      cursor goes on the forward stack and the cursor moves to the popped
      back entry. */
  function Back(es: seq<Entry>, n: Nav): (r: Nav)
    ensures |r.back| + |r.forward| == |n.back| + |n.forward|
    ensures |n.back| > 0 ==> r.back == n.back[..|n.back| - 1] && r.forward == n.forward + [DisplayPath(n.cursor)]
    ensures |n.back| > 0 ==> r.cursor == Moved(es, n.cursor, n.back[|n.back| - 1])
    ensures |n.back| == 0 ==> r == n
  {
    if |n.back| == 0 then n
    else
      var top := n.back[|n.back| - 1];
      Nav(Moved(es, n.cursor, top), n.back[..|n.back| - 1], n.forward + [DisplayPath(n.cursor)])
  }

  /** goNext: the mirror image of goPrev. */
  function Forward(es: seq<Entry>, n: Nav): (r: Nav)
    ensures |r.back| + |r.forward| == |n.back| + |n.forward|
    ensures |n.forward| > 0 ==> r.forward == n.forward[..|n.forward| - 1] && r.back == n.back + [DisplayPath(n.cursor)]
    ensures |n.forward| > 0 ==> r.cursor == Moved(es, n.cursor, n.forward[|n.forward| - 1])
    ensures |n.forward| == 0 ==> r == n
  {
    if |n.forward| == 0 then n
    else
      var top := n.forward[|n.forward| - 1];
      Nav(Moved(es, n.cursor, top), n.back + [DisplayPath(n.cursor)], n.forward[..|n.forward| - 1])
  }

  /** A fresh move (goTo, goToHome, goToParent, double-click): the shown
      cursor is pushed on the back stack, the forward stack is cleared. */
  function Pushed(n: Nav, c: string): (r: Nav)
    ensures r.forward == [] && |r.back| == |n.back| + 1 && r.back[..|n.back|] == n.back
  {
    Nav(c, n.back + [DisplayPath(n.cursor)], [])
  }

  /** goTo(text): nothing when `text` is what getPath shows. */
  function Jump(es: seq<Entry>, n: Nav, text: string): (r: Nav)
    ensures text == DisplayPath(n.cursor) ==> r == n
    ensures text != DisplayPath(n.cursor) ==> r.forward == [] && r.back == n.back + [DisplayPath(n.cursor)]
    ensures r.cursor == n.cursor || r.cursor == "" || (EndsWithSlash(r.cursor) && HasName(es, r.cursor))
  {
    if text == DisplayPath(n.cursor) then n else Pushed(n, Moved(es, n.cursor, text))
  }

  /** goToHome: nothing at the root, else to the root. */
  function Home(n: Nav): Nav {
    if DisplayPath(n.cursor) == "/" then n else Pushed(n, "")
  }

  /** goToParent: nothing at the root, else one level up. */
  function Up(n: Nav): Nav {
    if DisplayPath(n.cursor) == "/" then n else Pushed(n, ParentName(n.cursor))
  }

  /** Double-click on a directory row of the tree view. */
  function OpenRow(es: seq<Entry>, n: Nav, row: nat): (r: Nav)
    requires row < RowCount(es, Some(n.cursor))
    ensures ParentName(r.cursor) == n.cursor && HasName(es, r.cursor)
    ensures r.forward == [] && r.back == n.back + [DisplayPath(n.cursor)]
  {
    Pushed(n, es[RowIndex(es, Some(n.cursor), row)].name)
  }

  /** The root is the only cursor getPath shows as "/" (a one-character
      name such as an entry called "/" is shown as "/" as well). */
  lemma ShownRoot(c: string)
    requires c == "" || |c| >= 2
    ensures DisplayPath(c) == "/" <==> c == ""
  {
    if c != "" {
      assert |DisplayPath(c)| == |c|;
    }
  }

  /** goToHome lands on the root, and records a move exactly when it was
      elsewhere. */
  lemma HomeReachesRoot(n: Nav)
    requires n.cursor == "" || |n.cursor| >= 2
    ensures Home(n).cursor == ""
    ensures n.cursor == "" ==> Home(n) == n
    ensures n.cursor != "" ==> Home(n) == Pushed(n, "")
  {
    ShownRoot(n.cursor);
  }

  /** goToParent never leaves the cursor below where it was. */
  lemma UpClimbs(n: Nav)
    ensures var r := Up(n);
      r.cursor == n.cursor || IsUnder(n.cursor, r.cursor) || (r.cursor == "" && n.cursor != "")
  {
    var p := ParentName(n.cursor);
    if n.cursor != "" && p != "" {
      ParentIsLongestDirPrefix(n.cursor, p);
    }
  }

  /** Popping the top of a stack and pushing it again gives the stack back. */
  lemma PopPush(s: seq<string>)
    requires |s| > 0
    ensures s[..|s| - 1] + [s[|s| - 1]] == s
  {
  }

  /** Moving to the shown form of a reachable cursor lands on that cursor. */
  lemma MovedToShown(es: seq<Entry>, from: string, c: string)
    requires Reachable(es, c)
    ensures Moved(es, from, DisplayPath(c)) == c
  {
    ShowThenResolve(es, c, Some(from));
  }

  /** Back, then forward, restores the history whenever the cursor and the
      entry on top of the back stack are shown forms setPath reads back. */
  lemma ForwardUndoesBack(es: seq<Entry>, n: Nav, c: string)
    requires Reachable(es, n.cursor) && Reachable(es, c)
    requires |n.back| > 0 && n.back[|n.back| - 1] == DisplayPath(c)
    ensures Forward(es, Back(es, n)) == n
  {
    var k := |n.back| - 1;
    MovedToShown(es, n.cursor, c);
    var m := Back(es, n);
    assert m == Nav(c, n.back[..k], n.forward + [DisplayPath(n.cursor)]);
    MovedToShown(es, c, n.cursor);
    PopPush(n.back);
  }

  /** Forward, then back, restores the history under the same condition. */
  lemma BackUndoesForward(es: seq<Entry>, n: Nav, c: string)
    requires Reachable(es, n.cursor) && Reachable(es, c)
    requires |n.forward| > 0 && n.forward[|n.forward| - 1] == DisplayPath(c)
    ensures Back(es, Forward(es, n)) == n
  {
    var k := |n.forward| - 1;
    MovedToShown(es, n.cursor, c);
    var m := Forward(es, n);
    assert m == Nav(c, n.back + [DisplayPath(n.cursor)], n.forward[..k]);
    MovedToShown(es, c, n.cursor);
    PopPush(n.forward);
  }

  /** Back after a fresh move returns to where the move started, and the
      move's destination waits on the forward stack. */
  lemma BackUndoesMove(es: seq<Entry>, n: Nav, c: string)
    requires Reachable(es, n.cursor)
    ensures Back(es, Pushed(n, c)) == Nav(n.cursor, n.back, [DisplayPath(c)])
  {
    ShowThenResolve(es, n.cursor, Some(c));
    assert (n.back + [DisplayPath(n.cursor)])[..|n.back|] == n.back;
  }

  /** Back after goTo to a new path returns to where goTo started. */
  lemma BackUndoesJump(es: seq<Entry>, n: Nav, text: string)
    requires Reachable(es, n.cursor) && text != DisplayPath(n.cursor)
    ensures Back(es, Jump(es, n, text)) == Nav(n.cursor, n.back, [DisplayPath(Jump(es, n, text).cursor)])
  {
    BackUndoesMove(es, n, Moved(es, n.cursor, text));
  }

  /** Opening a directory row, then going up, lands back on the starting
      cursor, with both moves on the back stack. */
  lemma UpUndoesOpen(es: seq<Entry>, n: Nav, row: nat)
    requires row < RowCount(es, Some(n.cursor))
    requires var c := es[RowIndex(es, Some(n.cursor), row)].name; EndsWithSlash(c) && c != "/"
    ensures Up(OpenRow(es, n, row)) ==
      Nav(n.cursor, n.back + [DisplayPath(n.cursor), DisplayPath(OpenRow(es, n, row).cursor)], [])
  {
    var c := OpenRow(es, n, row).cursor;
    assert ParentName(c) == n.cursor;
    ShownRoot(c);
  }

  // ---------------------------------------------------------------------------
  // The "open recent" menu

  /** The number of items the menu keeps. */
  const MaxRecent: nat := 5

  /** The position of the first item equal to `p`, or |s| when there is none. */
  function FirstIndex(s: seq<string>, p: string): (k: nat)
    ensures k <= |s|
    ensures forall j :: 0 <= j < k ==> s[j] != p
    ensures k < |s| ==> s[k] == p
  {
    if |s| == 0 then 0
    else if s[0] == p then 0
    else 1 + FirstIndex(s[1..], p)
  }

  /** The menu with the first item equal to `p` removed. */
  function Without(s: seq<string>, p: string): seq<string> {
    var k := FirstIndex(s, p);
    if k < |s| then s[..k] + s[k + 1..] else s
  }

  /** A full menu loses its fifth item. */
  function Trimmed(s: seq<string>): seq<string> {
    if |s| >= MaxRecent then s[..MaxRecent - 1] + s[MaxRecent..] else s
  }

  /** The menu after opening `p`: `p` is taken out, a full menu loses its
      fifth item, and `p` goes on top. */
  function Remembered(recent: seq<string>, p: string): seq<string> {
    [p] + Trimmed(Without(recent, p))
  }

  predicate Distinct(s: seq<string>) {
    forall i, j :: 0 <= i < j < |s| ==> s[i] != s[j]
  }

  /** Removing the first `p` from a list without repeats removes every `p`
      and nothing else. */
  lemma WithoutShape(s: seq<string>, p: string)
    requires Distinct(s)
    ensures var w := Without(s, p);
      && Distinct(w)
      && p !in w
      && |w| == (if p in s then |s| - 1 else |s|)
      && (forall x :: x in w <==> x in s && x != p)
  {
    var k := FirstIndex(s, p);
    var w := Without(s, p);
    if k < |s| {
      forall j | 0 <= j < |w|
        ensures w[j] == s[if j < k then j else j + 1]
      {
      }
      forall i, j | 0 <= i < j < |w|
        ensures w[i] != w[j]
      {
        assert w[i] == s[if i < k then i else i + 1];
      }
      forall x | x in s && x != p
        ensures x in w
      {
        var i :| 0 <= i < |s| && s[i] == x;
        assert w[if i < k then i else i - 1] == x;
      }
    }
  }

  /** Trimming keeps the first four items of a full menu, all of a shorter one. */
  lemma TrimmedShape(s: seq<string>)
    requires Distinct(s)
    ensures var t := Trimmed(s);
      && Distinct(t)
      && |t| == (if |s| >= MaxRecent then |s| - 1 else |s|)
      && (forall x :: x in t ==> x in s)
      && (|s| < MaxRecent ==> t == s)
  {
    var t := Trimmed(s);
    if |s| >= MaxRecent {
      forall i, j | 0 <= i < j < |t|
        ensures t[i] != t[j]
      {
        assert t[i] == s[if i < MaxRecent - 1 then i else i + 1];
        assert t[j] == s[if j < MaxRecent - 1 then j else j + 1];
      }
    }
  }

  /** The menu keeps at most five distinct items, the last opened first; it
      only forgets an item when it was full and did not already list `p`. */
  lemma RememberedShape(recent: seq<string>, p: string)
    requires |recent| <= MaxRecent && Distinct(recent)
    ensures var r := Remembered(recent, p);
      && r[0] == p
      && |r| <= MaxRecent
      && Distinct(r)
      && (forall x :: x in r ==> x == p || x in recent)
      && (p in recent || |recent| < MaxRecent ==> forall x :: x in recent ==> x in r)
  {
    var w := Without(recent, p);
    WithoutShape(recent, p);
    var t := Trimmed(w);
    TrimmedShape(w);
    var r := Remembered(recent, p);
    forall i, j | 0 <= i < j < |r|
      ensures r[i] != r[j]
    {
      assert r[j] == t[j - 1];
      if i > 0 {
        assert r[i] == t[i - 1];
      }
    }
  }

  // ---------------------------------------------------------------------------
  // The window

  /** The window's state that the history and the menu touch. */
  class Window {
    /** The open archive, null when none is open. */
    var zip: Archive?
    /** prevStack and nextStack: None until an archive is opened and after close. */
    var prevStack: Option<seq<string>>
    var nextStack: Option<seq<string>>
    /** The paths the "open recent" menu lists, top first. */
    var recent: seq<string>

    /** The tree view of an open archive, with its history. */
    ghost predicate Browsing()
      reads this, zip
    {
      zip != null && zip.path.Some? && prevStack.Some? && nextStack.Some?
    }

    /** The history as a value. */
    ghost function History(): Nav
      reads this, zip
      requires Browsing()
    {
      Nav(zip.path.value, prevStack.value, nextStack.value)
    }

    constructor()
      ensures zip == null && prevStack.None? && nextStack.None? && recent == []
    {
      zip := null;
      prevStack := None;
      nextStack := None;
      recent := [];
    }

    /** goPrev. */
    method GoPrev()
      requires Browsing()
      modifies this`prevStack, this`nextStack, zip`path
      ensures Browsing() && History() == Back(zip.entries, old(History()))
    {
      if |prevStack.value| == 0 {
        return;
      }
      var shown := zip.GetPath().value;
      nextStack := Some(nextStack.value + [shown]);
      var top := prevStack.value[|prevStack.value| - 1];
      prevStack := Some(prevStack.value[..|prevStack.value| - 1]);
      zip.SetPath(top);
    }

    /** goNext. */
    method GoNext()
      requires Browsing()
      modifies this`prevStack, this`nextStack, zip`path
      ensures Browsing() && History() == Forward(zip.entries, old(History()))
    {
      if |nextStack.value| == 0 {
        return;
      }
      var shown := zip.GetPath().value;
      prevStack := Some(prevStack.value + [shown]);
      var top := nextStack.value[|nextStack.value| - 1];
      nextStack := Some(nextStack.value[..|nextStack.value| - 1]);
      zip.SetPath(top);
    }

    /** goTo. */
    method GoTo(text: string)
      requires Browsing()
      modifies this`prevStack, this`nextStack, zip`path
      ensures Browsing() && History() == Jump(zip.entries, old(History()), text)
    {
      var shown := zip.GetPath().value;
      if text == shown {
        return;
      }
      prevStack := Some(prevStack.value + [shown]);
      nextStack := Some([]);
      zip.SetPath(text);
    }

    /** goToHome. */
    method GoToHome()
      requires Browsing()
      modifies this`prevStack, this`nextStack, zip`path
      ensures Browsing() && History() == Home(old(History()))
    {
      var shown := zip.GetPath().value;
      if shown == "/" {
        return;
      }
      prevStack := Some(prevStack.value + [shown]);
      nextStack := Some([]);
      zip.GoToTop();
    }

    /** goToParent. */
    method GoToParent()
      requires Browsing()
      modifies this`prevStack, this`nextStack, zip`path
      ensures Browsing() && History() == Up(old(History()))
    {
      var shown := zip.GetPath().value;
      if shown == "/" {
        return;
      }
      prevStack := Some(prevStack.value + [shown]);
      nextStack := Some([]);
      zip.GoToParent();
    }

    /** The double-click on a row of the tree view: a directory row is
        opened as a fresh move; a file row is handed to openFile. */
    method DoubleClick(row: int)
      requires Browsing() && 0 <= row < RowCount(zip.entries, zip.path)
      modifies this`prevStack, this`nextStack, zip`path
      ensures Browsing()
      ensures EndsWithSlash(old(zip.entries)[RowIndex(old(zip.entries), old(zip.path), row)].name) ==>
        History() == OpenRow(zip.entries, old(History()), row)
      ensures !EndsWithSlash(old(zip.entries)[RowIndex(old(zip.entries), old(zip.path), row)].name) ==>
        History() == old(History())
    {
      var isDir := zip.IsDirectoryAt(row);
      if isDir {
        var shown := zip.GetPath().value;
        prevStack := Some(prevStack.value + [shown]);
        nextStack := Some([]);
        zip.OpenDir(row);
      }
    }

    /** open's update of the "open recent" menu. */
    method Remember(p: string)
      modifies this`recent
      ensures recent == Remembered(old(recent), p)
    {
      var s := recent;
      var i := 0;
      while i < |s|
        invariant 0 <= i <= |s| && s == recent
        invariant forall j :: 0 <= j < i ==> s[j] != p
      {
        if s[i] == p {
          assert i == FirstIndex(recent, p);
          s := s[..i] + s[i + 1..];
          break;
        }
        i := i + 1;
      }
      assert s == Without(recent, p);
      if |s| >= MaxRecent {
        s := s[..MaxRecent - 1] + s[MaxRecent..];
      }
      recent := [p] + s;
    }

    /** open: a listing that is not a zip archive (None) changes nothing;
        otherwise the archive is opened in the chosen view, both history
        stacks start empty and the path goes on top of the recent menu. */
    method Open(filePath: string, listing: Option<seq<Entry>>, dir: bool)
      modifies this
      ensures listing.None? ==>
        (zip == old(zip) && prevStack == old(prevStack) && nextStack == old(nextStack) && recent == old(recent))
      ensures listing.Some? ==>
        (zip != null && fresh(zip) && zip.codec == listing.value &&
         zip.path == (if dir then Some("") else None) &&
         LoadedFrom(zip.codec, dir, zip.entries) && zip.entries == zip.loaded && zip.Valid() &&
         prevStack == Some([]) && nextStack == Some([]) &&
         recent == Remembered(old(recent), filePath))
    {
      if listing.None? {
        return;
      }
      zip := new Archive(listing.value, dir);
      prevStack := Some([]);
      nextStack := Some([]);
      Remember(filePath);
    }

    /** close: no archive and no history. */
    method Close()
      modifies this`zip, this`prevStack, this`nextStack
      ensures zip == null && prevStack.None? && nextStack.None?
    {
      zip := null;
      prevStack := None;
      nextStack := None;
    }
  }
}
