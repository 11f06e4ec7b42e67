/** The archive object of Zip.java: the codec's listing, the in-memory entry
    list, the view cursor, and the operations that read and move the cursor,
    build index lists and rewrite the archive. */
module Archives {
  import opened PathNames
  import opened Listing
  import opened Sorting

  /** The answers of the overwrite dialog (OverwriteDialog.Overwrite). */
  datatype Overwrite = Cancel | Yes | No | AllYes | AllNo

  /** What a rename reports. */
  datatype RenameOutcome =
    | BadCharacter(c: char)   // the new leaf holds a reserved character
    | NameTaken               // an entry already uses the new name
    | RenamedTo(newName: string)

  /** What an add reports. */
  datatype AddOutcome = Cancelled | NothingToAdd | Added

  /** The first of `cs` that occurs in `name`, in the order of `cs`. */
  function FirstIn(cs: seq<char>, name: string): (r: Option<char>)
    ensures r.Some? ==> r.value in name
    ensures r.Some? ==> exists k :: 0 <= k < |cs| && cs[k] == r.value && forall m :: 0 <= m < k ==> cs[m] !in name
    ensures r.None? <==> forall k :: 0 <= k < |cs| ==> cs[k] !in name
  {
    if |cs| == 0 then None
    else if cs[0] in name then Some(cs[0])
    else
      var r := FirstIn(cs[1..], name);
      if r.Some? then
        var k :| 0 <= k < |cs| - 1 && cs[1..][k] == r.value && forall m :: 0 <= m < k ==> cs[1..][m] !in name;
        assert cs[k + 1] == r.value && forall m :: 0 <= m < k + 1 ==> cs[m] !in name;
        r
      else r
  }

  /** setPath's normalisation: "/" and "" name the root; otherwise one leading
      '/' is dropped and a trailing '/' is ensured. */
  function PathTarget(text: string): (t: string)
    ensures t == "" <==> text == "/" || text == ""
    ensures t == "" || EndsWithSlash(t)
  {
    if text == "/" || text == "" then ""
    else
      var u := if text[0] == '/' then text[1..] else text;
      if EndsWithSlash(u) then u else u + "/"
  }

  /** The cursor after setPath(text): the root, the named directory if an
      entry has exactly that name, or else the unchanged cursor. */
  function Resolve(es: seq<Entry>, cursor: Option<string>, text: string): (r: Option<string>)
    ensures text == "/" || text == "" ==> r == Some("")
    ensures r == cursor || r == Some("") || (r.Some? && EndsWithSlash(r.value) && HasName(es, r.value))
    ensures r.Some? && r.value != "" && r != cursor ==> r.value == PathTarget(text)
  {
    var t := PathTarget(text);
    if t == "" then Some("")
    else if HasName(es, t) then Some(t)
    else cursor
  }

  /** A cursor that getPath shows in a form setPath reads back: the root, or
      an existing directory entry whose name does not end in "//". */
  predicate Reachable(es: seq<Entry>, c: string) {
    c == "" || (HasName(es, c) && EndsWithSlash(c) && |c| >= 2 && c[|c| - 2] != '/')
  }

  /** setPath(getPath()) returns to a reachable cursor, from any cursor. */
  lemma ShowThenResolve(es: seq<Entry>, c: string, from: Option<string>)
    requires Reachable(es, c)
    ensures Resolve(es, from, DisplayPath(c)) == Some(c)
  {
    if c != "" {
      var shown := DisplayPath(c);
      var u := shown[1..];
      assert u == c[..|c| - 1];
      assert !EndsWithSlash(u);
      assert u + "/" == c;
    }
  }

  /** For a directory name ending in "//" getPath drops one '/', so setPath
      lands on the name one '/' shorter (its parent "a/" for "a//") when that
      is an entry, and otherwise stays where it was. */
  lemma ShowDoubleSlashGoesUp(es: seq<Entry>, c: string, from: Option<string>)
    requires |c| >= 2 && c[|c| - 1] == '/' && c[|c| - 2] == '/'
    ensures Resolve(es, from, DisplayPath(c)) == if HasName(es, c[..|c| - 1]) then Some(c[..|c| - 1]) else from
  {
    var shown := DisplayPath(c);
    assert shown[1..] == c[..|c| - 1];
    assert PathTarget(shown) == c[..|c| - 1];
  }

  // ---------------------------------------------------------------------------
  // The overwrite decision

  /** Only YES and NO make checkOverwrite show the dialog. */
  predicate Asks(current: Overwrite) {
    current == Yes || current == No
  }

  /** checkOverwrite: the stored answer after one check and whether the entry
      is overwritten, given the dialog's reply if it is shown. */
  function Decide(current: Overwrite, reply: Overwrite): (r: (Overwrite, bool))
    ensures !Asks(current) ==> r.0 == current
    ensures Asks(current) ==> r.0 == reply
  {
    match current
    case AllYes => (AllYes, true)
    case AllNo => (AllNo, false)
    case Yes => (reply, reply == Yes || reply == AllYes)
    case No => (reply, reply == Yes || reply == AllYes)
    case Cancel => (Cancel, false)
  }

  /** A check overwrites exactly when the stored answer afterwards is YES or ALL_YES. */
  lemma OverwritesExactlyOnYes(current: Overwrite, reply: Overwrite)
    ensures Decide(current, reply).1 <==> Decide(current, reply).0 in {Yes, AllYes}
  {
  }

  /** The decisions of successive checks, `replies[k]` being what the dialog
      would return at the k-th check. */
  function Decisions(current: Overwrite, replies: seq<Overwrite>): (r: seq<bool>)
    ensures |r| == |replies|
    decreases |replies|
  {
    if |replies| == 0 then []
    else
      var d := Decide(current, replies[0]);
      [d.1] + Decisions(d.0, replies[1..])
  }

  /** After ALL_YES every later check overwrites; after ALL_NO none does;
      whatever the dialog would have said. */
  lemma {:induction false} BlanketAnswersStick(current: Overwrite, replies: seq<Overwrite>)
    requires current == AllYes || current == AllNo
    ensures forall k :: 0 <= k < |replies| ==> Decisions(current, replies)[k] == (current == AllYes)
    decreases |replies|
  {
    if |replies| > 0 {
      BlanketAnswersStick(current, replies[1..]);
    }
  }

  /** Once the reply is ALL_YES (ALL_NO), that answer holds for the rest of the session. */
  lemma BlanketReplySticks(current: Overwrite, replies: seq<Overwrite>, k: nat)
    requires k < |replies| && Asks(current) && (replies[0] == AllYes || replies[0] == AllNo)
    ensures Decisions(current, replies)[k] == (replies[0] == AllYes)
  {
    if k > 0 {
      BlanketAnswersStick(replies[0], replies[1..]);
    }
  }

  // ---------------------------------------------------------------------------
  // The add operation

  /** The name a local file gets in the archive: under the cursor in the tree
      view, at the top in the flat view. */
  function Target(path: Option<string>, f: LocalFile): string {
    (if path.Some? then path.value else "") + f.name
  }

  /** An entry that adding a file named `t` may replace: a file of that name,
      a directory of that name, or anything inside that directory. */
  predicate Replaces(n: string, t: string) {
    n == t || n == t + "/" || IsUnder(n, t + "/")
  }

  /** Some entry has the name `t` as a file or as a directory. */
  predicate Taken(es: seq<Entry>, t: string) {
    exists j :: 0 <= j < |es| && (es[j].name == t || es[j].name == t + "/")
  }

  /** Entry `j` is replaced by one of the files being added. */
  ghost predicate Marked(es: seq<Entry>, path: Option<string>, files: seq<Option<LocalFile>>, j: int)
    requires 0 <= j < |es|
  {
    exists i :: 0 <= i < |files| && files[i].Some? && Replaces(es[j].name, Target(path, files[i].value))
  }

  /** Every entry named `t` or `t/` is marked and, if the directory `t/` is an
      entry, so is everything inside it. */
  ghost predicate CoveredName(es: seq<Entry>, t: string, marked: set<int>) {
    (forall j :: 0 <= j < |es| && (es[j].name == t || es[j].name == t + "/") ==> j in marked) &&
    (HasName(es, t + "/") ==> forall k :: 0 <= k < |es| && IsUnder(es[k].name, t + "/") ==> k in marked)
  }

  ghost predicate AlwaysAgrees(answer: (nat, string) -> Overwrite) {
    forall n, s :: answer(n, s) == Yes || answer(n, s) == AllYes
  }

  ghost predicate AlwaysRefuses(answer: (nat, string) -> Overwrite) {
    forall n, s :: answer(n, s) == No || answer(n, s) == AllNo
  }

  /** addFileNDir: the entries written for the local files, in order; an
      unreadable file is reported and skipped, a directory is written and
      then its contents under it. */
  method WriteFiles(fs: seq<LocalFile>, parent: string) returns (written: seq<Entry>)
    ensures written == Archived(fs, parent)
    decreases fs
  {
    written := [];
    var i := 0;
    while i < |fs|
      invariant 0 <= i <= |fs|
      invariant written == Archived(fs[..i], parent)
    {
      var file := fs[i];
      ArchivedAppend(fs[..i], file, parent);
      assert fs[..i + 1] == fs[..i] + [file];
      if file.readable {
        match file.content {
          case Folder(children) =>
            var dirName := parent + file.name + "/";
            var inner := WriteFiles(children, dirName);
            written := written + [Entry(dirName, 0, file.modified)] + inner;
          case Bytes(n) =>
            written := written + [Entry(parent + file.name, n, file.modified)];
        }
      }
      i := i + 1;
    }
    assert fs[..|fs|] == fs;
  }

  /** The state one add works on: the files to add (None for a missing or
      dropped one), the stored overwrite answer, the number of dialogs shown
      so far and the positions of the entries to drop. */
  datatype AddState = AddState(files: seq<Option<LocalFile>>, overwrite: Overwrite, asked: nat, marks: set<int>)

  /** The positions of the entries inside the directory `dirName`. */
  function Inside(es: seq<Entry>, dirName: string): (r: set<int>)
    ensures forall k :: k in r <==> 0 <= k < |es| && IsUnder(es[k].name, dirName)
  {
    set k | 0 <= k < |es| && IsUnder(es[k].name, dirName)
  }

  /** getIndexSet's body for file `i`, named `t` in the archive, and entry
      `j`, and whether it stops: a collision with `t` or `t/` is put to
      checkOverwrite; accepted, the entry is marked (with its subtree for the
      directory); refused, the add stops on CANCEL and otherwise drops the
      file and goes on. */
  function EntryStep(es: seq<Entry>, t: string, i: nat, j: nat, answer: (nat, string) -> Overwrite, s: AddState)
    : (r: (AddState, bool))
    requires i < |s.files| && j < |es|
    ensures |r.0.files| == |s.files| && s.marks <= r.0.marks
    ensures es[j].name != t && es[j].name != t + "/" ==> r == (s, false)
  {
    var n := es[j].name;
    if n != t && n != t + "/" then (s, false)
    else
      var d := Decide(s.overwrite, answer(s.asked, StripSlash(n)));
      var asked := if Asks(s.overwrite) then s.asked + 1 else s.asked;
      if d.1 then
        (s.(overwrite := d.0, asked := asked, marks := s.marks + {j} + if n == t + "/" then Inside(es, n) else {}), false)
      else if d.0 == Cancel then (s.(overwrite := d.0, asked := asked), true)
      else (s.(files := s.files[i := None], overwrite := d.0, asked := asked), false)
  }

  /** getIndexSet's loop over the entries from `j` on, for file `i`. */
  function FileSteps(es: seq<Entry>, t: string, i: nat, j: nat, answer: (nat, string) -> Overwrite, s: AddState)
    : (r: (AddState, bool))
    requires i < |s.files| && j <= |es|
    ensures |r.0.files| == |s.files| && s.marks <= r.0.marks
    decreases |es| - j
  {
    if j == |es| then (s, false)
    else
      var u := EntryStep(es, t, i, j, answer, s);
      if u.1 then u else FileSteps(es, t, i, j + 1, answer, u.0)
  }

  /** getIndexSet's loop over the files from `i` on: a file that is None is
      skipped, every other one is checked against every entry. */
  function IndexSetFrom(es: seq<Entry>, path: Option<string>, i: nat, answer: (nat, string) -> Overwrite, s: AddState)
    : (r: (AddState, bool))
    requires i <= |s.files|
    ensures |r.0.files| == |s.files| && s.marks <= r.0.marks
    decreases |s.files| - i
  {
    if i == |s.files| then (s, false)
    else if s.files[i].None? then IndexSetFrom(es, path, i + 1, answer, s)
    else
      var u := FileSteps(es, Target(path, s.files[i].value), i, 0, answer, s);
      if u.1 then u else IndexSetFrom(es, path, i + 1, answer, u.0)
  }

  /** The state an add reaches: getIndexSet run from the answer NO, no dialog
      shown and nothing marked. */
  function AddResult(es: seq<Entry>, path: Option<string>, found: seq<Option<LocalFile>>,
                     answer: (nat, string) -> Overwrite): (r: AddState)
    ensures |r.files| == |found|
  {
    IndexSetFrom(es, path, 0, answer, AddState(found, No, 0, {})).0
  }

  // Every step only drops the file at hand and only marks what it replaces.

  /** What one file's checks may do to the state: drop that file, when its
      name is taken, and mark entries it replaces. */
  ghost predicate FileEffect(es: seq<Entry>, t: string, i: nat, s: AddState, u: AddState) {
    && i < |s.files| == |u.files|
    && (forall i' :: 0 <= i' < |s.files| && i' != i ==> u.files[i'] == s.files[i'])
    && (u.files[i] == s.files[i] || (u.files[i].None? && Taken(es, t)))
    && s.marks <= u.marks
    && (forall k :: k in u.marks - s.marks ==> 0 <= k < |es| && Replaces(es[k].name, t))
  }

  lemma EntryStepEffect(es: seq<Entry>, t: string, i: nat, j: nat, answer: (nat, string) -> Overwrite, s: AddState)
    requires i < |s.files| && j < |es|
    ensures FileEffect(es, t, i, s, EntryStep(es, t, i, j, answer, s).0)
    ensures EntryStep(es, t, i, j, answer, s).1 ==> EntryStep(es, t, i, j, answer, s).0.overwrite == Cancel
  {
    var u := EntryStep(es, t, i, j, answer, s).0;
    forall k | k in u.marks - s.marks
      ensures 0 <= k < |es| && Replaces(es[k].name, t)
    {
      if k != j {
        assert IsUnder(es[k].name, t + "/");
      }
    }
  }

  lemma {:induction false} FileStepsEffect(es: seq<Entry>, t: string, i: nat, j: nat, answer: (nat, string) -> Overwrite, s: AddState)
    requires i < |s.files| && j <= |es|
    ensures FileEffect(es, t, i, s, FileSteps(es, t, i, j, answer, s).0)
    ensures FileSteps(es, t, i, j, answer, s).1 ==> FileSteps(es, t, i, j, answer, s).0.overwrite == Cancel
    decreases |es| - j
  {
    if j < |es| {
      var u := EntryStep(es, t, i, j, answer, s);
      EntryStepEffect(es, t, i, j, answer, s);
      if !u.1 {
        FileStepsEffect(es, t, i, j + 1, answer, u.0);
        var r := FileSteps(es, t, i, j + 1, answer, u.0).0;
        forall k | k in r.marks - s.marks
          ensures 0 <= k < |es| && Replaces(es[k].name, t)
        {
          if k !in u.0.marks {
            assert k in r.marks - u.0.marks;
          }
        }
      }
    }
  }

  /** What the add may have done so far to the files `found`: dropped files
      whose name is taken, and marked entries some file replaces. */
  ghost predicate AddEffect(es: seq<Entry>, path: Option<string>, found: seq<Option<LocalFile>>, s: AddState) {
    && |s.files| == |found|
    && (forall i :: 0 <= i < |found| ==>
          s.files[i] == found[i] || (found[i].Some? && s.files[i].None? && Taken(es, Target(path, found[i].value))))
    && (forall j :: j in s.marks ==> 0 <= j < |es| && Marked(es, path, found, j))
  }

  lemma {:induction false} IndexSetFromEffect(es: seq<Entry>, path: Option<string>, found: seq<Option<LocalFile>>,
                                              i: nat, answer: (nat, string) -> Overwrite, s: AddState)
    requires i <= |s.files| && AddEffect(es, path, found, s)
    requires forall i' :: i <= i' < |found| ==> s.files[i'] == found[i']
    ensures AddEffect(es, path, found, IndexSetFrom(es, path, i, answer, s).0)
    ensures IndexSetFrom(es, path, i, answer, s).1 ==> IndexSetFrom(es, path, i, answer, s).0.overwrite == Cancel
    decreases |s.files| - i
  {
    if i < |s.files| {
      if s.files[i].None? {
        IndexSetFromEffect(es, path, found, i + 1, answer, s);
      } else {
        var t := Target(path, s.files[i].value);
        var u := FileSteps(es, t, i, 0, answer, s);
        FileStepsEffect(es, t, i, 0, answer, s);
        forall j | j in u.0.marks
          ensures 0 <= j < |es| && Marked(es, path, found, j)
        {
          if j !in s.marks {
            assert j in u.0.marks - s.marks;
            assert found[i].Some? && Replaces(es[j].name, Target(path, found[i].value));
          }
        }
        assert AddEffect(es, path, found, u.0);
        if !u.1 {
          IndexSetFromEffect(es, path, found, i + 1, answer, u.0);
        }
      }
    }
  }

  /** An add only leaves out files that are missing or whose name is taken,
      only drops entries that one of the files replaces, and stops only on
      CANCEL. */
  lemma AddDropsOnlyReplaced(es: seq<Entry>, path: Option<string>, found: seq<Option<LocalFile>>,
                             answer: (nat, string) -> Overwrite)
    ensures var r := AddResult(es, path, found, answer);
      && (forall i :: 0 <= i < |found| ==>
            r.files[i] == found[i] || (found[i].Some? && r.files[i].None? && Taken(es, Target(path, found[i].value))))
      && (forall j :: j in r.marks ==> 0 <= j < |es| && Marked(es, path, found, j))
  {
    IndexSetFromEffect(es, path, found, 0, answer, AddState(found, No, 0, {}));
  }

  /** Mixed replies are honoured one collision at a time: adding files "a"
      and "b" over entries "a" and "b" with YES to the first dialog and NO to
      the second replaces "a" and leaves "b" out. */
  lemma MixedRepliesDecideEachCollision(fa: LocalFile, fb: LocalFile, answer: (nat, string) -> Overwrite)
    requires fa.name == "a" && fb.name == "b"
    requires forall shown :: answer(0, shown) == Yes && answer(1, shown) == No
    ensures var r := AddResult([Entry("a", 1, 0), Entry("b", 1, 0)], Some(""), [Some(fa), Some(fb)], answer);
      r.overwrite == No && r.marks == {0} && r.files == [Some(fa), None]
  {
    var es := [Entry("a", 1, 0), Entry("b", 1, 0)];
    var s0 := AddState([Some(fa), Some(fb)], No, 0, {});
    assert Target(Some(""), fa) == "a" && Target(Some(""), fb) == "b";
    assert answer(0, StripSlash("a")) == Yes && answer(1, StripSlash("b")) == No;
    var s1 := AddState([Some(fa), Some(fb)], Yes, 1, {0});
    assert FileSteps(es, "a", 0, 0, answer, s0) == (s1, false) by {
      assert es[0].name == "a" != "a" + "/";
      assert Decide(No, answer(0, StripSlash("a"))) == (Yes, true);
      assert s0.marks + {0} + {} == {0};
      assert EntryStep(es, "a", 0, 0, answer, s0) == (s1, false);
      assert EntryStep(es, "a", 0, 1, answer, s1) == (s1, false);
    }
    var s2 := AddState([Some(fa), None], No, 2, {0});
    assert FileSteps(es, "b", 1, 0, answer, s1) == (s2, false) by {
      assert EntryStep(es, "b", 1, 0, answer, s1) == (s1, false);
      assert [Some(fa), Some(fb)][1 := None] == [Some(fa), None];
      assert EntryStep(es, "b", 1, 1, answer, s1) == (s2, false);
    }
    assert IndexSetFrom(es, Some(""), 2, answer, s2) == (s2, false);
    assert IndexSetFrom(es, Some(""), 1, answer, s1) == (s2, false);
    assert IndexSetFrom(es, Some(""), 0, answer, s0) == (s2, false);
  }

  // When every dialog agrees.

  lemma EntryStepAgrees(es: seq<Entry>, t: string, i: nat, j: nat, answer: (nat, string) -> Overwrite, s: AddState)
    requires i < |s.files| && j < |es|
    requires AlwaysAgrees(answer) && s.overwrite in {No, Yes, AllYes}
    ensures var r := EntryStep(es, t, i, j, answer, s);
      && !r.1 && r.0.files == s.files && r.0.overwrite in {No, Yes, AllYes}
      && (es[j].name == t || es[j].name == t + "/" ==> j in r.0.marks)
      && (es[j].name == t + "/" ==> Inside(es, t + "/") <= r.0.marks)
  {
    var reply := answer(s.asked, StripSlash(es[j].name));
    assert reply == Yes || reply == AllYes;
  }

  lemma {:induction false} FileStepsAgree(es: seq<Entry>, t: string, i: nat, j: nat, answer: (nat, string) -> Overwrite, s: AddState)
    requires i < |s.files| && j <= |es|
    requires AlwaysAgrees(answer) && s.overwrite in {No, Yes, AllYes}
    ensures var r := FileSteps(es, t, i, j, answer, s);
      && !r.1 && r.0.files == s.files && r.0.overwrite in {No, Yes, AllYes}
      && (forall j' :: j <= j' < |es| && (es[j'].name == t || es[j'].name == t + "/") ==> j' in r.0.marks)
      && (forall j' :: j <= j' < |es| && es[j'].name == t + "/" ==> Inside(es, t + "/") <= r.0.marks)
    decreases |es| - j
  {
    if j < |es| {
      EntryStepAgrees(es, t, i, j, answer, s);
      FileStepsAgree(es, t, i, j + 1, answer, EntryStep(es, t, i, j, answer, s).0);
    }
  }

  /** After one file's checks under agreeing dialogs, its name is covered. */
  lemma FileStepsCover(es: seq<Entry>, t: string, i: nat, answer: (nat, string) -> Overwrite, s: AddState)
    requires i < |s.files|
    requires AlwaysAgrees(answer) && s.overwrite in {No, Yes, AllYes}
    ensures CoveredName(es, t, FileSteps(es, t, i, 0, answer, s).0.marks)
  {
    var r := FileSteps(es, t, i, 0, answer, s).0;
    FileStepsAgree(es, t, i, 0, answer, s);
    if HasName(es, t + "/") {
      var j :| 0 <= j < |es| && es[j].name == t + "/";
      assert Inside(es, t + "/") <= r.marks;
    }
  }

  lemma {:induction false} IndexSetFromAgrees(es: seq<Entry>, path: Option<string>, i: nat,
                                              answer: (nat, string) -> Overwrite, s: AddState)
    requires i <= |s.files|
    requires AlwaysAgrees(answer) && s.overwrite in {No, Yes, AllYes}
    ensures var r := IndexSetFrom(es, path, i, answer, s);
      && !r.1 && r.0.files == s.files && r.0.overwrite in {No, Yes, AllYes}
      && forall i' :: i <= i' < |s.files| && s.files[i'].Some? ==> CoveredName(es, Target(path, s.files[i'].value), r.0.marks)
    decreases |s.files| - i
  {
    if i < |s.files| {
      var r := IndexSetFrom(es, path, i, answer, s).0;
      if s.files[i].None? {
        IndexSetFromAgrees(es, path, i + 1, answer, s);
      } else {
        var t := Target(path, s.files[i].value);
        var u := FileSteps(es, t, i, 0, answer, s).0;
        FileStepsAgree(es, t, i, 0, answer, s);
        FileStepsCover(es, t, i, answer, s);
        IndexSetFromAgrees(es, path, i + 1, answer, u);
        CoveredGrows(es, t, u.marks, r.marks);
      }
    }
  }

  /** When every dialog agrees, nothing is cancelled, every file goes in and
      every file's old entries, with their subtrees, are dropped. */
  lemma AgreeingAddCoversAll(es: seq<Entry>, path: Option<string>, found: seq<Option<LocalFile>>,
                             answer: (nat, string) -> Overwrite)
    requires AlwaysAgrees(answer)
    ensures var r := AddResult(es, path, found, answer);
      && r.overwrite != Cancel && r.files == found
      && forall i :: 0 <= i < |found| && found[i].Some? ==> CoveredName(es, Target(path, found[i].value), r.marks)
  {
    IndexSetFromAgrees(es, path, 0, answer, AddState(found, No, 0, {}));
  }

  // When every dialog refuses.

  lemma EntryStepRefuses(es: seq<Entry>, t: string, i: nat, j: nat, answer: (nat, string) -> Overwrite, s: AddState)
    requires i < |s.files| && j < |es|
    requires AlwaysRefuses(answer) && s.overwrite in {No, AllNo}
    ensures var r := EntryStep(es, t, i, j, answer, s);
      && !r.1 && r.0.marks == s.marks && r.0.overwrite in {No, AllNo}
      && (forall i' :: 0 <= i' < |s.files| && i' != i ==> r.0.files[i'] == s.files[i'])
      && (r.0.files[i].None? <==> s.files[i].None? || es[j].name == t || es[j].name == t + "/")
  {
    var reply := answer(s.asked, StripSlash(es[j].name));
    assert reply == No || reply == AllNo;
  }

  lemma {:induction false} FileStepsRefuse(es: seq<Entry>, t: string, i: nat, j: nat, answer: (nat, string) -> Overwrite, s: AddState)
    requires i < |s.files| && j <= |es|
    requires AlwaysRefuses(answer) && s.overwrite in {No, AllNo}
    ensures var r := FileSteps(es, t, i, j, answer, s);
      && !r.1 && r.0.marks == s.marks && r.0.overwrite in {No, AllNo}
      && (forall i' :: 0 <= i' < |s.files| && i' != i ==> r.0.files[i'] == s.files[i'])
      && (r.0.files[i].None? <==>
            s.files[i].None? || exists j' :: j <= j' < |es| && (es[j'].name == t || es[j'].name == t + "/"))
    decreases |es| - j
  {
    if j < |es| {
      EntryStepRefuses(es, t, i, j, answer, s);
      FileStepsRefuse(es, t, i, j + 1, answer, EntryStep(es, t, i, j, answer, s).0);
    }
  }

  lemma {:induction false} IndexSetFromRefuses(es: seq<Entry>, path: Option<string>, i: nat,
                                               answer: (nat, string) -> Overwrite, s: AddState)
    requires i <= |s.files|
    requires AlwaysRefuses(answer) && s.overwrite in {No, AllNo}
    ensures var r := IndexSetFrom(es, path, i, answer, s);
      && !r.1 && r.0.marks == s.marks && r.0.overwrite in {No, AllNo}
      && (forall i' :: 0 <= i' < i ==> r.0.files[i'] == s.files[i'])
      && (forall i' :: i <= i' < |s.files| ==>
            (r.0.files[i'].Some? <==> s.files[i'].Some? && !Taken(es, Target(path, s.files[i'].value))))
    decreases |s.files| - i
  {
    if i < |s.files| {
      if s.files[i].None? {
        IndexSetFromRefuses(es, path, i + 1, answer, s);
      } else {
        var t := Target(path, s.files[i].value);
        var u := FileSteps(es, t, i, 0, answer, s).0;
        FileStepsRefuse(es, t, i, 0, answer, s);
        IndexSetFromRefuses(es, path, i + 1, answer, u);
      }
    }
  }

  /** When every dialog refuses, nothing is cancelled, nothing is dropped and
      exactly the files that exist and whose name is free go in. */
  lemma RefusingAddKeepsEntries(es: seq<Entry>, path: Option<string>, found: seq<Option<LocalFile>>,
                                answer: (nat, string) -> Overwrite)
    requires AlwaysRefuses(answer)
    ensures var r := AddResult(es, path, found, answer);
      && r.overwrite != Cancel && r.marks == {}
      && forall i :: 0 <= i < |found| ==>
           (r.files[i].Some? <==> found[i].Some? && !Taken(es, Target(path, found[i].value)))
  {
    IndexSetFromRefuses(es, path, 0, answer, AddState(found, No, 0, {}));
  }

  /** The state of one add: the files to add (None for a missing one), the
      stored overwrite answer, the number of dialogs shown so far and the
      positions of the entries to drop. */
  class AddTask {
    var files: seq<Option<LocalFile>>
    var overwrite: Overwrite
    var asked: nat
    var indexSet: set<int>

    constructor(found: seq<Option<LocalFile>>)
      ensures files == found && overwrite == No && asked == 0 && indexSet == {}
    {
      files := found;
      overwrite := No;
      asked := 0;
      indexSet := {};
    }

    /** The task's fields as a value. */
    ghost function State(): AddState
      reads this
    {
      AddState(files, overwrite, asked, indexSet)
    }

    /** checkOverwrite: ask about `fileName` (shown without its trailing '/')
        unless a blanket answer was given. */
    method CheckOverwrite(fileName: string, answer: (nat, string) -> Overwrite) returns (yes: bool)
      modifies this`overwrite, this`asked
      ensures (overwrite, yes) == Decide(old(overwrite), answer(old(asked), StripSlash(fileName)))
      ensures asked == if Asks(old(overwrite)) then old(asked) + 1 else old(asked)
    {
      var shown := fileName;
      if EndsWithSlash(shown) {
        shown := shown[..|shown| - 1];
      }
      match overwrite {
        case AllYes => yes := true;
        case AllNo => yes := false;
        case Cancel => yes := false;
        case _ =>
          overwrite := answer(asked, shown);
          asked := asked + 1;
          yes := overwrite == Yes || overwrite == AllYes;
      }
    }

    /** getIndexSet's innermost loop: mark every entry inside `dirName`. */
    method MarkSubtree(es: seq<Entry>, dirName: string)
      modifies this`indexSet
      ensures indexSet == old(indexSet) + Inside(es, dirName)
    {
      var k := 0;
      while k < |es|
        invariant 0 <= k <= |es|
        invariant indexSet == old(indexSet) + set k' | 0 <= k' < k && IsUnder(es[k'].name, dirName)
      {
        var under := HasAncestor(es[k].name, dirName);
        if under {
          indexSet := indexSet + {k};
        }
        k := k + 1;
      }
    }

    /** getIndexSet's body for file `i` and entry `j`. */
    method CheckEntry(es: seq<Entry>, i: nat, j: nat, fileName: string, answer: (nat, string) -> Overwrite)
      returns (stop: bool)
      requires i < |files| && j < |es|
      modifies this`files, this`indexSet, this`overwrite, this`asked
      ensures (State(), stop) == EntryStep(es, fileName, i, j, answer, old(State()))
    {
      ghost var s := State();
      var dirName := fileName + "/";
      var entryName := es[j].name;
      stop := false;
      if entryName == fileName || entryName == dirName {
        var yes := CheckOverwrite(entryName, answer);
        if yes {
          indexSet := indexSet + {j};
          if entryName == dirName {
            MarkSubtree(es, dirName);
          }
          assert indexSet == s.marks + {j} + if entryName == dirName then Inside(es, dirName) else {};
        } else {
          if overwrite == Cancel {
            return true;
          }
          files := files[i := None];
        }
      }
    }

    /** getIndexSet's loop over the entries for file `i`. */
    method CheckFile(es: seq<Entry>, path: Option<string>, i: nat, answer: (nat, string) -> Overwrite)
      returns (stop: bool)
      requires i < |files| && files[i].Some?
      modifies this`files, this`indexSet, this`overwrite, this`asked
      ensures (State(), stop) == FileSteps(es, Target(path, old(files)[i].value), i, 0, answer, old(State()))
    {
      var fileName := Target(path, files[i].value);
      stop := false;
      var j := 0;
      while j < |es|
        invariant 0 <= j <= |es| && i < |files| && !stop
        invariant FileSteps(es, fileName, i, j, answer, State()) == FileSteps(es, fileName, i, 0, answer, old(State()))
      {
        stop := CheckEntry(es, i, j, fileName, answer);
        if stop {
          return;
        }
        j := j + 1;
      }
    }

    /** getIndexSet: check every file that exists against every entry. */
    method GetIndexSet(es: seq<Entry>, path: Option<string>, answer: (nat, string) -> Overwrite)
      modifies this`files, this`indexSet, this`overwrite, this`asked
      ensures State() == IndexSetFrom(es, path, 0, answer, AddState(old(files), old(overwrite), old(asked), {})).0
    {
      indexSet := {};
      var i := 0;
      while i < |files|
        invariant 0 <= i <= |files|
        invariant IndexSetFrom(es, path, i, answer, State()) ==
                  IndexSetFrom(es, path, 0, answer, AddState(old(files), old(overwrite), old(asked), {}))
      {
        if files[i].Some? {
          var stop := CheckFile(es, path, i, answer);
          if stop {
            return;
          }
        }
        i := i + 1;
      }
    }

    /** run: look for collisions; stop on CANCEL; if any file is left, write
        the kept entries followed by the new ones, and reload. */
    method Run(archive: Archive, answer: (nat, string) -> Overwrite) returns (outcome: AddOutcome)
      modifies this, archive
      ensures State() == IndexSetFrom(old(archive.entries), old(archive.path), 0, answer,
                                      AddState(old(files), old(overwrite), old(asked), {})).0
      ensures outcome == Cancelled <==> overwrite == Cancel
      ensures outcome == Added <==> overwrite != Cancel && exists i :: 0 <= i < |files| && files[i].Some?
      ensures outcome != Added ==> unchanged(archive)
      ensures outcome == Added ==>
        archive.codec == Keep(old(archive.entries), indexSet) +
                         Archived(Present(files), if old(archive.path).Some? then old(archive.path).value else "") &&
        archive.path == old(archive.path) && LoadedFrom(archive.codec, archive.path.Some?, archive.entries) &&
        archive.entries == archive.loaded && archive.Valid()
    {
      GetIndexSet(archive.entries, archive.path, answer);
      if overwrite == Cancel {
        return Cancelled;
      }
      var k := 0;
      while k < |files| && files[k].None?
        invariant 0 <= k <= |files|
        invariant forall i :: 0 <= i < k ==> files[i].None?
      {
        k := k + 1;
      }
      if k == |files| {
        return NothingToAdd;
      }
      var kept := archive.CopyExcept(indexSet);
      var added := WriteFiles(Present(files), if archive.path.Some? then archive.path.value else "");
      archive.Rewrite(kept + added);
      outcome := Added;
    }
  }

  /** A rename that rename accepts can be undone by renaming the entry back to
      its old leaf, when no other entry shared the old name up to the
      trailing '/': no entry then clashes with the old name, the back-rename
      builds exactly the old name and writes the original list again. */
  lemma RenameCanBeUndone(es: seq<Entry>, target: nat, leaf: string, tree: bool)
    requires target < |es| && (tree ==> AncestorClosed(es))
    requires forall i :: 0 <= i < |es| && i != target ==> StripSlash(es[i].name) != StripSlash(es[target].name)
    requires leaf != "" && FirstIn(Reserved, leaf).None?
    requires forall i :: 0 <= i < |es| ==> !Clashes(es[i], NewFullName(es[target].name, leaf))
    ensures var r := Renamed(es, target, NewFullName(es[target].name, leaf), tree);
      && (forall i :: 0 <= i < |r| ==> !Clashes(r[i], es[target].name))
      && NewFullName(r[target].name, LeafName(es[target].name)) == es[target].name
      && Renamed(r, target, es[target].name, tree) == es
  {
    var oldName := es[target].name;
    var newName := NewFullName(oldName, leaf);
    var r := Renamed(es, target, newName, tree);
    assert Reserved[8] == '/';
    assert forall k :: 0 <= k < |leaf| ==> leaf[k] != '/';
    NewNameSameParent(oldName, leaf);
    assert DirSuffix(newName) == DirSuffix(oldName);
    ParentLeafRebuild(oldName);
    if tree {
      NothingUnderFreeName(es, newName);
    }
    RenameRoundTrip(es, target, newName, tree);
    forall i | 0 <= i < |r|
      ensures !Clashes(r[i], oldName)
    {
      ClashIgnoresSuffix(r[i], oldName);
      if i == target {
        ClashIgnoresSuffix(es[target], newName);
      } else if tree && IsUnder(es[i].name, oldName) {
        MovedNameDiffers(oldName, leaf, r[i].name);
      } else {
        assert r[i] == es[i];
      }
    }
  }

  /** An entry moved under the new directory name keeps the '/' that ends the
      new leaf, where the old name has a character of its leaf or has ended. */
  lemma MovedNameDiffers(oldName: string, leaf: string, moved: string)
    requires EndsWithSlash(oldName) && leaf != [] && forall k :: 0 <= k < |leaf| ==> leaf[k] != '/'
    requires IsUnder(moved, NewFullName(oldName, leaf))
    ensures StripSlash(moved) != StripSlash(oldName)
  {
    var p := ParentName(oldName);
    var newName := NewFullName(oldName, leaf);
    ParentLeafRebuild(oldName);
    var ol := LeafName(oldName);
    assert StripSlash(oldName) == p + ol;
    var at := |p| + |leaf|;
    assert newName[at] == '/';
    assert StripSlash(moved)[at] == '/';
    if |p + ol| > at {
      assert (p + ol)[at] == ol[|leaf|];
    }
  }

  /** rename's name assembly: the parent name (when there is one), the new
      leaf, and '/' for a directory entry. */
  method JoinName(e: Entry, name: string) returns (newName: string)
    ensures newName == NewFullName(e.name, name)
  {
    var parentName := ParentName(e.name);
    newName := name;
    if |parentName| != 0 {
      newName := parentName + newName;
    }
    if IsDirectory(e) {
      newName := newName + "/";
    }
  }

  /** Marking more entries keeps a name covered. */
  lemma CoveredGrows(es: seq<Entry>, t: string, a: set<int>, b: set<int>)
    requires a <= b && CoveredName(es, t, a)
    ensures CoveredName(es, t, b)
  {
  }

  /** The rows of the table and the cursor's state. */
  class Archive {
    /** What the archive file lists, in the codec's order. */
    var codec: seq<Entry>
    /** entryList. */
    var entries: seq<Entry>
    /** The cursor: None is the flat view, Some("") the root of the tree view. */
    var path: Option<string>
    /** The number of entries the codec lists. */
    var originalSize: nat
    /** The list loadEntries built and whether it was built for the tree view. */
    ghost var loaded: seq<Entry>
    ghost var tree: bool

    /** entryList is a rearrangement of what the last load built. */
    ghost predicate Valid()
      reads this
    {
      originalSize == |codec| &&
      LoadedFrom(codec, tree, loaded) &&
      multiset(entries) == multiset(loaded) &&
      tree == path.Some?
    }

    /** Zip(file, zipFile, dir): open in the tree view at the root, or flat. */
    constructor(listing: seq<Entry>, dir: bool)
      ensures codec == listing
      ensures path == if dir then Some("") else None
      ensures LoadedFrom(codec, dir, entries)
      ensures entries == loaded && Valid()
    {
      codec := listing;
      path := if dir then Some("") else None;
      entries := [];
      originalSize := 0;
      new;
      LoadEntries();
    }

    /** loadEntries: the codec's entries in order, then (tree view) the
        synthesized directories. */
    method LoadEntries()
      modifies this
      ensures codec == old(codec) && path == old(path)
      ensures originalSize == |codec|
      ensures LoadedFrom(codec, path.Some?, entries)
      ensures entries == loaded && tree == path.Some? && Valid()
    {
      entries := [];
      var i := 0;
      while i < |codec|
        invariant 0 <= i <= |codec|
        invariant codec == old(codec) && path == old(path)
        invariant entries == codec[..i]
      {
        entries := entries + [codec[i]];
        i := i + 1;
      }
      assert codec[..|codec|] == codec;
      originalSize := |entries|;
      if path.Some? {
        GetMissingEntries();
      } else {
        assert entries[..|codec|] == codec;
      }
      loaded := entries;
      tree := path.Some?;
    }

    /** getMissingEntries: collect every ancestor name the codec lacks, then
        append one synthesized entry per collected name. */
    method GetMissingEntries()
      requires entries == codec
      modifies this`entries
      ensures LoadedFrom(codec, true, entries)
    {
      var nameSet := MissingNames();
      AppendDirectories(nameSet);
    }

    /** getMissingEntries' first loop: the ancestors of every entry that the
        codec does not list. */
    method MissingNames() returns (nameSet: set<string>)
      requires entries == codec
      ensures nameSet == MissingDirs(codec, |codec|)
    {
      var es := entries;
      nameSet := {};
      var i := 0;
      while i < |es|
        invariant 0 <= i <= |es|
        invariant nameSet == MissingDirs(es, i)
      {
        nameSet := CollectMissing(es[i].name, nameSet);
        i := i + 1;
      }
    }

    /** getMissingEntries' inner loop: the ancestors of `name` the codec does
        not list join `nameSet`. */
    method CollectMissing(name: string, nameSet: set<string>) returns (r: set<string>)
      ensures r == nameSet + MissingAbove(codec, name)
    {
      MissingAboveIsAncestors(codec, name);
      r := nameSet;
      var parent := ParentName(name);
      while |parent| != 0
        invariant parent == "" || EndsWithSlash(parent)
        invariant r + MissingIn(codec, Chain(parent)) == nameSet + MissingIn(codec, Ancestors(name))
        decreases |parent|
      {
        MissingInStep(codec, parent);
        if !HasName(codec, parent) {
          r := r + {parent};
        }
        parent := ParentName(parent);
      }
    }

    /** getMissingEntries' last loop: one synthesized entry per collected name. */
    method AppendDirectories(names: set<string>)
      requires entries == codec
      modifies this`entries
      ensures |codec| <= |entries| && entries[..|codec|] == codec
      ensures forall k :: |codec| <= k < |entries| ==> entries[k] == Synthesized(entries[k].name) && entries[k].name in names
      ensures forall d :: d in names ==> exists k :: |codec| <= k < |entries| && entries[k].name == d
      ensures forall k, l :: |codec| <= k < l < |entries| ==> entries[k].name != entries[l].name
    {
      var remaining := names;
      ghost var added: seq<string> := [];
      while remaining != {}
        invariant remaining <= names
        invariant entries == codec + seq(|added|, k requires 0 <= k < |added| => Synthesized(added[k]))
        invariant forall k :: 0 <= k < |added| ==> added[k] in names && added[k] !in remaining
        invariant forall d :: d in names && d !in remaining ==> d in added
        invariant forall k, l :: 0 <= k < l < |added| ==> added[k] != added[l]
        decreases |remaining|
      {
        var name :| name in remaining;
        entries := entries + [Synthesized(name)];
        added := added + [name];
        remaining := remaining - {name};
      }
      forall d | d in names
        ensures exists k :: |codec| <= k < |entries| && entries[k].name == d
      {
        var k :| 0 <= k < |added| && added[k] == d;
        assert entries[|codec| + k].name == d;
      }
    }

    /** In the flat view the table shows every loaded entry. */
    lemma FlatShowsEveryEntry()
      requires Valid() && path.None?
      ensures |entries| == originalSize
    {
      assert |multiset(entries)| == |multiset(loaded)|;
    }

    /** In the tree view every ancestor of every entry is an entry, whatever
        order the sorts have put the list in. */
    lemma TreeIsClosed()
      requires Valid() && path.Some?
      ensures AncestorClosed(entries)
    {
      LoadedTreeIsClosed(codec, loaded);
      forall i, d | 0 <= i < |entries| && IsUnder(entries[i].name, d)
        ensures HasName(entries, d)
      {
        assert entries[i] in multiset(loaded);
        var i' :| 0 <= i' < |loaded| && loaded[i'] == entries[i];
        assert IsUnder(loaded[i'].name, d);
        assert HasName(loaded, d);
        var j :| 0 <= j < |loaded| && loaded[j].name == d;
        assert loaded[j] in multiset(entries);
        var j' :| 0 <= j' < |entries| && entries[j'] == loaded[j];
      }
    }

    /** getSize: the number of rows the table shows. */
    method GetSize() returns (count: int)
      requires Valid()
      ensures count == RowCount(entries, path)
    {
      if path.Some? {
        var p := path.value;
        var es := entries;
        count := 0;
        var i := 0;
        while i < |es|
          invariant 0 <= i <= |es|
          invariant count == |ChildrenUpTo(es, p, i)|
        {
          ChildrenUpToStep(es, p, i);
          if ParentName(es[i].name) == p {
            count := count + 1;
          }
          i := i + 1;
        }
      } else {
        FlatShowsEveryEntry();
        count := originalSize;
      }
    }

    /** convertIndex: the position of the index-th child of the cursor, or
        the list length when there is no such child. */
    method ConvertIndex(index: int) returns (newIndex: int)
      requires path.Some? && 0 <= index
      ensures index < |Children(entries, path.value)| ==> newIndex == RowIndex(entries, path, index)
      ensures index >= |Children(entries, path.value)| ==> newIndex == |entries|
    {
      var p := path.value;
      var es := entries;
      newIndex := 0;
      var k := index;
      while newIndex < |es|
        invariant 0 <= newIndex <= |es|
        invariant 0 <= k == index - |ChildrenUpTo(es, p, newIndex)|
      {
        ChildrenUpToStep(es, p, newIndex);
        if ParentName(es[newIndex].name) == p {
          if k == 0 {
            ChildAtRow(es, p, newIndex, index);
            break;
          }
          k := k - 1;
        }
        newIndex := newIndex + 1;
      }
    }

    /** getDirSize: the sum of the sizes of the files inside `dirName`. */
    method DirSize(dirName: string) returns (size: int)
      ensures size == FileBytesUnder(entries, dirName)
    {
      size := 0;
      var i := 0;
      while i < |entries|
        invariant 0 <= i <= |entries|
        invariant size == FileBytesUnder(entries[..i], dirName)
      {
        assert entries[..i + 1][..i] == entries[..i];
        if !IsDirectory(entries[i]) {
          var under := HasAncestor(entries[i].name, dirName);
          if under {
            size := size + entries[i].size;
          }
        }
        i := i + 1;
      }
      assert entries[..|entries|] == entries;
    }

    /** getEntrySize: a file's size, or in the tree view a directory's total. */
    method EntrySize(row: int) returns (size: int)
      requires 0 <= row < RowCount(entries, path)
      ensures var e := entries[RowIndex(entries, path, row)];
        size == if path.Some? && IsDirectory(e) then FileBytesUnder(entries, e.name) else e.size
    {
      if path.Some? {
        var index := ConvertIndex(row);
        var e := entries[index];
        if IsDirectory(e) {
          size := DirSize(e.name);
        } else {
          size := e.size;
        }
      } else {
        size := entries[row].size;
      }
    }

    /** isDirecotry: whether the entry shown at `row` is a directory. */
    method IsDirectoryAt(row: int) returns (b: bool)
      requires 0 <= row < RowCount(entries, path)
      ensures b <==> EndsWithSlash(entries[RowIndex(entries, path, row)].name)
    {
      var index := row;
      if path.Some? {
        index := ConvertIndex(row);
      }
      b := IsDirectory(entries[index]);
    }

    /** getPath: the cursor as shown to the user, None in the flat view. */
    function GetPath(): (r: Option<string>)
      reads this
      ensures r.Some? <==> path.Some?
      ensures path.Some? ==> |r.value| > 0 && r.value[0] == '/'
    {
      if path.None? then None else Some(DisplayPath(path.value))
    }

    /** setPath: move to the root or to the named directory, if it exists. */
    method SetPath(text: string)
      modifies this`path
      ensures path == Resolve(entries, old(path), text)
    {
      if text == "/" || |text| == 0 {
        path := Some("");
        return;
      }
      var t := text;
      if t[0] == '/' {
        t := t[1..];
      }
      if !EndsWithSlash(t) {
        t := t + "/";
      }
      assert t == PathTarget(text);
      var i := 0;
      while i < |entries|
        invariant 0 <= i <= |entries|
        invariant forall k :: 0 <= k < i ==> entries[k].name != t
      {
        if entries[i].name == t {
          path := Some(t);
          return;
        }
        i := i + 1;
      }
    }

    /** goToParent: one level up (the root stays the root). */
    method GoToParent()
      requires path.Some?
      modifies this`path
      ensures path == Some(ParentName(old(path).value))
      ensures path.value == "" || IsUnder(old(path).value, path.value)
    {
      if |path.value| != 0 {
        if ParentName(path.value) != "" {
          ParentIsLongestDirPrefix(path.value, ParentName(path.value));
        }
        path := Some(ParentName(path.value));
      }
    }

    /** goToTop: back to the root. */
    method GoToTop()
      requires path.Some?
      modifies this`path
      ensures path == Some("")
    {
      if |path.value| != 0 {
        path := Some("");
      }
    }

    /** openDir: the cursor becomes the full name of the entry at `row`, whose
        parent is the old cursor, so goToParent comes straight back. */
    method OpenDir(row: int)
      requires path.Some? && 0 <= row < RowCount(entries, path)
      modifies this`path
      ensures path == Some(entries[RowIndex(entries, old(path), row)].name)
      ensures ParentName(path.value) == old(path).value
    {
      var index := ConvertIndex(row);
      path := Some(entries[index].name);
    }

    // -------------------------------------------------------------------------
    // Index lists of delete, extract and save

    /** The ancestor walk over the whole list: the positions, in list order,
        of the entries inside `dirName`. */
    method SubtreeOf(dirName: string) returns (list: seq<int>)
      ensures list == UnderIndices(entries, dirName)
    {
      list := [];
      var i := 0;
      while i < |entries|
        invariant 0 <= i <= |entries|
        invariant list == UnderIndices(entries[..i], dirName)
      {
        assert entries[..i + 1][..i] == entries[..i];
        var under := HasAncestor(entries[i].name, dirName);
        if under {
          list := list + [i];
        }
        i := i + 1;
      }
      assert entries[..|entries|] == entries;
    }

    /** getIndexList's first loop: every selected row becomes an absolute
        position (in place in the source's index array). */
    method ConvertRows(rows: seq<int>) returns (indices: seq<int>)
      requires path.Some? && ValidRows(entries, path, rows)
      ensures indices == RowsToIndices(entries, path, rows)
    {
      indices := rows;
      var i := 0;
      while i < |indices|
        invariant 0 <= i <= |indices| == |rows|
        invariant forall k :: 0 <= k < |rows| ==>
          indices[k] == if k < i then RowIndex(entries, path, rows[k]) else rows[k]
      {
        var c := ConvertIndex(indices[i]);
        indices := indices[i := c];
        i := i + 1;
      }
    }

    /** getIndexList's second loop: the subtree of every selected directory,
        one after the other. */
    method Subtrees(indices: seq<int>) returns (list: seq<int>)
      requires ValidIndices(entries, indices)
      ensures list == SubtreeLists(entries, indices)
    {
      list := [];
      var k := 0;
      while k < |indices|
        invariant 0 <= k <= |indices|
        invariant ValidIndices(entries, indices[..k])
        invariant list == SubtreeLists(entries, indices[..k])
      {
        assert indices[..k + 1][..k] == indices[..k];
        var dirEntry := entries[indices[k]];
        if IsDirectory(dirEntry) {
          var sub := SubtreeOf(dirEntry.name);
          list := list + sub;
        }
        k := k + 1;
      }
      assert indices[..|indices|] == indices;
    }

    /** getIndexList for selected rows: convert the rows, add the subtree of
        every selected directory (tree view), then the selected positions. */
    method SelectionList(rows: seq<int>) returns (list: seq<int>)
      requires ValidRows(entries, path, rows)
      ensures list == Selection(entries, path, rows)
    {
      var indices := rows;
      list := [];
      if path.Some? {
        indices := ConvertRows(rows);
        list := Subtrees(indices);
      }
      list := list + indices;
    }

    /** getIndexList of extract and save: every position when no rows are
        given (extract all, save all), else the selection. */
    method IndexList(rows: Option<seq<int>>) returns (list: seq<int>)
      requires rows.Some? ==> ValidRows(entries, path, rows.value)
      ensures rows.None? ==> list == seq(|entries|, i => i)
      ensures rows.Some? ==> list == Selection(entries, path, rows.value)
    {
      if rows.None? {
        list := [];
        var i := 0;
        while i < |entries|
          invariant 0 <= i <= |entries|
          invariant list == seq(i, k => k)
        {
          list := list + [i];
          i := i + 1;
        }
      } else {
        list := SelectionList(rows.value);
      }
    }

    // -------------------------------------------------------------------------
    // Copy-rewrite

    /** The copy loop: every entry whose position is not dropped, in order. */
    method CopyExcept(dropped: set<int>) returns (written: seq<Entry>)
      ensures written == Keep(entries, dropped)
    {
      written := [];
      var i := 0;
      while i < |entries|
        invariant 0 <= i <= |entries|
        invariant written == Keep(entries[..i], dropped)
      {
        assert entries[..i + 1][..i] == entries[..i];
        if i !in dropped {
          written := written + [entries[i]];
        }
        i := i + 1;
      }
      assert entries[..|entries|] == entries;
    }

    /** The rewritten file replaces the old one and the entries are reloaded
        from it; the cursor stays where it was. */
    method Rewrite(written: seq<Entry>)
      modifies this
      ensures codec == written && path == old(path)
      ensures LoadedFrom(codec, path.Some?, entries)
      ensures entries == loaded && tree == path.Some? && Valid()
    {
      codec := written;
      LoadEntries();
    }

    /** delete: write every entry except the selected ones and, in the tree
        view, except everything inside a selected directory; then reload. */
    method Delete(rows: seq<int>)
      requires ValidRows(entries, path, rows)
      modifies this
      ensures codec == Keep(old(entries), set i | 0 <= i < |old(entries)| && Doomed(old(entries), old(path), rows, i))
      ensures path == old(path) && LoadedFrom(codec, path.Some?, entries) && Valid()
    {
      var indexList := SelectionList(rows);
      var written := CopyExcept(set i | i in indexList);
      DeleteWritesSurvivors(entries, path, rows);
      Rewrite(written);
    }

    /** rename's checkName: true when no entry already uses `newName`. */
    method CheckName(newName: string) returns (free: bool)
      ensures free <==> forall i :: 0 <= i < |entries| ==> !Clashes(entries[i], newName)
    {
      var i := 0;
      while i < |entries|
        invariant 0 <= i <= |entries|
        invariant forall k :: 0 <= k < i ==> !Clashes(entries[k], newName)
      {
        var entryName := entries[i].name;
        if IsDirectory(entries[i]) {
          if !EndsWithSlash(newName) {
            entryName := entryName[..|entryName| - 1];
          }
          if entryName == newName {
            return false;
          }
        } else {
          if EndsWithSlash(newName) {
            entryName := entryName + "/";
          }
          if entryName == newName {
            return false;
          }
        }
        i := i + 1;
      }
      return true;
    }

    /** rename's copy loop: the target gets the new name, (tree view) the
        entries inside it get the new prefix, the rest keep theirs. */
    method RenameCopy(target: int, newName: string) returns (written: seq<Entry>)
      requires 0 <= target < |entries|
      ensures written == Renamed(entries, target, newName, path.Some?)
    {
      var originalName := entries[target].name;
      written := [];
      var i := 0;
      while i < |entries|
        invariant 0 <= i <= |entries| && |written| == i
        invariant forall k :: 0 <= k < i ==> written[k] == Renamed(entries, target, newName, path.Some?)[k]
      {
        var name := entries[i].name;
        var entry: Option<Entry> := None;
        if i == target {
          entry := Some(Entry(newName, entries[i].size, entries[i].time));
        }
        if entry.None? && path.Some? {
          var under := HasAncestor(name, originalName);
          if under {
            entry := Some(Entry(newName + name[|originalName|..], entries[i].size, entries[i].time));
          }
        }
        if entry.None? {
          entry := Some(entries[i]);
        }
        written := written + [entry.value];
        i := i + 1;
      }
    }

    /** sortByDir, sortByName, sortByPath, sortByType: Collections.sort of
        entryList with the column's comparator. sortByPath leaves the tree
        view alone. */
    method SortBy(c: Comparator)
      requires Valid()
      modifies this`entries
      ensures c.ByPath? && path.Some? ==> entries == old(entries)
      ensures !(c.ByPath? && path.Some?) ==> Ordered(c, entries)
      ensures multiset(entries) == multiset(old(entries)) && Valid()
    {
      if c.ByPath? && path.Some? {
        return;
      }
      SortIsOrderedPermutation(c, entries);
      entries := Sort(c, entries);
    }

    /** rename's first loop: the first reserved character the new leaf holds. */
    static method CheckCharacters(characters: seq<char>, name: string) returns (bad: Option<char>)
      ensures bad == FirstIn(characters, name)
    {
      var k := 0;
      while k < |characters|
        invariant 0 <= k <= |characters|
        invariant FirstIn(characters, name) == FirstIn(characters[k..], name)
      {
        assert characters[k..][1..] == characters[k + 1..];
        if characters[k] in name {
          return Some(characters[k]);
        }
        k := k + 1;
      }
      return None;
    }

    /** rename: refuse a leaf holding a reserved character or a name already
        in use; otherwise write the renamed list and reload. */
    method Rename(row: int, name: string) returns (outcome: RenameOutcome)
      requires 0 <= row < RowCount(entries, path)
      modifies this
      ensures FirstIn(Reserved, name).Some? ==>
        outcome == BadCharacter(FirstIn(Reserved, name).value) && unchanged(this)
      ensures FirstIn(Reserved, name).None? ==>
        var target := RowIndex(old(entries), old(path), row);
        var newName := NewFullName(old(entries)[target].name, name);
        if exists i :: 0 <= i < |old(entries)| && Clashes(old(entries)[i], newName) then
          outcome == NameTaken && unchanged(this)
        else
          outcome == RenamedTo(newName) && path == old(path) &&
          codec == Renamed(old(entries), target, newName, old(path).Some?) &&
          LoadedFrom(codec, path.Some?, entries) && entries == loaded && Valid()
    {
      var bad := CheckCharacters(Reserved, name);
      if bad.Some? {
        return BadCharacter(bad.value);
      }
      var index := row;
      if path.Some? {
        index := ConvertIndex(row);
      }
      var newName := JoinName(entries[index], name);
      outcome := ApplyRename(index, newName);
    }

    /** rename's run: refuse a name in use, else write the renamed list and reload. */
    method ApplyRename(target: int, newName: string) returns (outcome: RenameOutcome)
      requires 0 <= target < |entries|
      modifies this
      ensures (exists i :: 0 <= i < |old(entries)| && Clashes(old(entries)[i], newName)) ==>
        outcome == NameTaken && unchanged(this)
      ensures (forall i :: 0 <= i < |old(entries)| ==> !Clashes(old(entries)[i], newName)) ==>
        outcome == RenamedTo(newName) && path == old(path) &&
        codec == Renamed(old(entries), target, newName, old(path).Some?) &&
        LoadedFrom(codec, path.Some?, entries) && entries == loaded && Valid()
    {
      var free := CheckName(newName);
      if !free {
        return NameTaken;
      }
      var written := RenameCopy(target, newName);
      Rewrite(written);
      outcome := RenamedTo(newName);
    }

    /** addFile: add the local files (None for one that does not exist) under
        the cursor, asking `answer` about every collision. */
    method AddFile(found: seq<Option<LocalFile>>, answer: (nat, string) -> Overwrite) returns (outcome: AddOutcome)
      modifies this
      ensures var r := AddResult(old(entries), old(path), found, answer);
        && (outcome == Cancelled <==> r.overwrite == Cancel)
        && (outcome == Added <==> r.overwrite != Cancel && exists i :: 0 <= i < |r.files| && r.files[i].Some?)
        && (outcome != Added ==> unchanged(this))
        && (outcome == Added ==>
              codec == Keep(old(entries), r.marks) + Archived(Present(r.files), if old(path).Some? then old(path).value else "") &&
              path == old(path) && LoadedFrom(codec, path.Some?, entries) && entries == loaded && Valid())
      ensures AlwaysAgrees(answer) || AlwaysRefuses(answer) ==> outcome != Cancelled
    {
      var task := new AddTask(found);
      outcome := task.Run(this, answer);
      if AlwaysAgrees(answer) {
        AgreeingAddCoversAll(old(entries), old(path), found, answer);
      }
      if AlwaysRefuses(answer) {
        RefusingAddKeepsEntries(old(entries), old(path), found, answer);
      }
    }
  }
}
