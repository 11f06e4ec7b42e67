# JZip archive-entry engine and navigation history in Dafny

JZip is an SWT archive manager. This project models the part of it that does not
touch widgets or bytes.

- **The entry engine of `Zip.java`.** An archive is the list of entries its ZIP
  codec lists. `entryList` is what the table works from. The `path` cursor is
  `None` in the flat view and the current directory's entry name in the tree view.
  Every modifying operation (delete, rename, add) computes the list of entries to
  write, hands it to the codec and reloads. The model covers:
  - the entry-name path algebra (`getParentEntryName`, `getEntryName`,
    `getEntryPath`, `getPath`, `getType`);
  - loading, including the directory entries synthesized for the tree view;
  - the tree-view row translation (`getSize`, `convertIndex`);
  - the cursor moves (`setPath`, `goToParent`, `goToTop`, `openDir`);
  - the subtree walk that every operation repeats;
  - the index lists of delete, extract and save;
  - the lists that delete, rename and add write;
  - the overwrite question of add and extract;
  - the four sorts that are total orders.
- **The window state of `JZip.java`.** The model covers the back/forward history
  (`goPrev`, `goNext`, `goTo`, `goToHome`, `goToParent`, the double-click on a
  directory row), the resetting of the history stacks by `open` and `close`, and
  the five-item "open recent" menu.

Layout:

| file | module | content |
|---|---|---|
| `PathNames.dfy` | `PathNames` | Name algebra, the ancestor walk (`HasAncestor`), and the central lemma that the walk meets `d` exactly when `d` is a '/'-terminated proper prefix. |
| `Listing.dfy` | `Listing` | Entries and local files, and the specification functions of the list computations with their lemmas. |
| `Sorting.dfy` | `Sorting` | Java `String.compareTo`, the comparators, and a stable insertion sort proved ordered and a permutation. |
| `Archives.dfy` | `Archives` | The overwrite decision, `class AddTask` (the add runnable: files, overwrite answer, marked positions) and `class Archive` (the `Zip` object). |
| `Navigation.dfy` | `Navigation` | The history as a value with its round-trip lemmas, the recent menu, and `class Window`. |

The overwrite dialog is the parameter `answer: (nat, string) -> Overwrite`. Its
arguments are how many dialogs came before and the name shown. Whether a local
file exists, whether it is readable, and the archive listing read from disk are
all inputs as well.

## Model

| member | source | states |
|---|---|---|
| PathNames.LastIndexOf | src/net/kldp/jzip/Zip.java:1347-1351 | `lastIndexOf`: -1 or a position holding the character, with no later occurrence. |
| PathNames.StripSlash | src/net/kldp/jzip/Zip.java:1343-1345 | Drops exactly one trailing '/' and nothing else. The result is a prefix of the name. |
| PathNames.ParentName | src/net/kldp/jzip/Zip.java:1342-1352 | getParentEntryName returns "" or a '/'-terminated prefix that is strictly shorter than a non-empty name. It is the longest '/'-terminated prefix of the name without its trailing '/', so every ancestor walk terminates. |
| PathNames.LeafName | src/net/kldp/jzip/Zip.java:1191-1203 | getEntryName returns a leaf with no '/' in it. |
| PathNames.ParentLeafRebuild | src/net/kldp/jzip/Zip.java:1191-1203 | Parent, then leaf, then '/' for a directory, rebuild the original name. |
| PathNames.DisplayPath | src/net/kldp/jzip/Zip.java:1370-1378 | getPath's form of the cursor always starts with '/'. |
| PathNames.EntryPath | src/net/kldp/jzip/Zip.java:1212-1224 | getEntryPath is getPath's form of the entry's parent directory. |
| PathNames.ParentIsLongestDirPrefix | src/net/kldp/jzip/Zip.java:1342-1352 | A directory name is a prefix of the parent exactly when the entry lies under it. |
| PathNames.ChainIsDirPrefixes | src/net/kldp/jzip/Zip.java:1296-1305 | The walk `parent = getParentEntryName(parent)` from a directory name visits exactly its '/'-terminated prefixes. |
| PathNames.AncestorsAreProperDirPrefixes | src/net/kldp/jzip/Zip.java:1136-1149 | The ancestor walk of a name meets `dirName` if and only if `dirName` ends in '/' and is a proper prefix of the name. |
| PathNames.UnderTransitive | src/net/kldp/jzip/Zip.java:1342-1352 | Lying inside a directory is transitive. |
| PathNames.HasAncestor | src/net/kldp/jzip/Zip.java:1786-1799 | The walk loop with `break` answers true exactly when the name lies inside `dirName`. |
| PathNames.Lower | src/net/kldp/jzip/Zip.java:1459-1495 | `toLowerCase` on ASCII letters, with every other character kept, at the same length. |
| PathNames.ExtensionLabel | src/net/kldp/jzip/Zip.java:1459-1495 | An extension never gets the directory label, and gets "일반 파일" exactly when it is none of the 19 recognised extensions. |
| PathNames.ExtensionCategories | src/net/kldp/jzip/Zip.java:1473-1493 | One extension of each category gets that category's label (png, ogg, mpeg, txt, htm, jar), and the extension is compared after lower-casing, so "MP3" is music. |
| PathNames.TypeLabel | src/net/kldp/jzip/Zip.java:1459-1495 | getType returns "디렉토리" exactly for directory entries, and "일반 파일" for a file whose leaf has no '.'. |
| Listing.ChildrenSound | src/net/kldp/jzip/Zip.java:1385-1402 | Children (getSize and convertIndex's child walk): every tree-view row is the position of an entry whose parent is the cursor. |
| Listing.ChildrenComplete | src/net/kldp/jzip/Zip.java:1385-1402 | Children: every entry whose parent is the cursor is shown as a row. |
| Listing.ChildrenIncreasing | src/net/kldp/jzip/Zip.java:534-550 | Children: rows keep list order. |
| Listing.ChildrenOfPrefix | src/net/kldp/jzip/Zip.java:534-550 | The rows of a prefix of the list are a prefix of the rows. |
| Listing.RowsAreBijective | src/net/kldp/jzip/Zip.java:534-550 | Distinct rows map to distinct absolute positions. |
| Listing.RowIndex | src/net/kldp/jzip/Zip.java:534-550 | The position behind a row is in range. In the tree view its entry's parent is the cursor. |
| Listing.RowsToIndices | src/net/kldp/jzip/Zip.java:608-610 | Converting the selected rows gives one in-range position per row. |
| Listing.UnderIndicesMembers | src/net/kldp/jzip/Zip.java:618-632 | The subtree list holds exactly the positions of the entries inside the directory. |
| Listing.EmptyDirHasNoBytes | src/net/kldp/jzip/Zip.java:1128-1154 | FileBytesUnder (getDirSize): a directory with no file inside it has size 0. |
| Listing.DirBytesNonNegative | src/net/kldp/jzip/Zip.java:1128-1154 | getDirSize is not negative when no file size is negative (directory entries do not count). |
| Listing.SubtreeListsMembers | src/net/kldp/jzip/Zip.java:612-635 | A position is in the subtree lists exactly when it lies inside a selected directory. |
| Listing.SelectionMembers | src/net/kldp/jzip/Zip.java:602-641 | getIndexList takes exactly the selected entries and, in the tree view, everything inside a selected directory. |
| Listing.KeepMembers | src/net/kldp/jzip/Zip.java:660-664 | Keep (the copy loop): writes exactly the entries at positions outside the dropped set, in order. |
| Listing.KeepCount | src/net/kldp/jzip/Zip.java:660-664 | The copy loses one entry per dropped position. |
| Listing.KeepAgrees | src/net/kldp/jzip/Zip.java:660-664 | The copy depends only on which real positions are dropped. |
| Listing.DeleteWritesSurvivors | src/net/kldp/jzip/Zip.java:602-681 | delete writes the original list in order, minus the selected entries and, in the tree view, minus everything inside a selected directory. No other entry is dropped. |
| Listing.NewFullName | src/net/kldp/jzip/Zip.java:1688-1698 | The new name ends in '/' when the old one did (or when the leaf itself supplies the '/'). |
| Listing.NewNameSameParent | src/net/kldp/jzip/Zip.java:1688-1698 | For a leaf without '/', the new name keeps the parent and has the new leaf. |
| Listing.ClashIgnoresSuffix | src/net/kldp/jzip/Zip.java:1714-1752 | Clashes (checkName's comparison) is name equality once the trailing '/' is ignored. |
| Listing.Renamed | src/net/kldp/jzip/Zip.java:1773-1807 | rename writes as many entries as before, each with its time (and size) unchanged. |
| Listing.RenameMovesSubtreeOnly | src/net/kldp/jzip/Zip.java:1773-1807 | RenamedName, for a new name of the same kind (directory or file) as the old one: outside the renamed subtree nothing changes. In the tree view every entry inside it moves under the new name and keeps its suffix. |
| Listing.RenameRoundTrip | src/net/kldp/jzip/Zip.java:1773-1807 | Renaming back restores the list, when nothing lay inside the new name. |
| Listing.NothingUnderFreeName | src/net/kldp/jzip/Zip.java:1714-1752 | In a list that holds all its ancestors, a name that passes checkName has nothing inside it. |
| Listing.ArchivedAppend | src/net/kldp/jzip/Zip.java:267-335 | addFileNDir on one more file writes that file's entries after the others. |
| Listing.ArchivedStaysInside | src/net/kldp/jzip/Zip.java:267-335 | Archived (addFileNDir): every entry written for the local files lies under the destination directory. |
| Listing.ArchivedOneStaysInside | src/net/kldp/jzip/Zip.java:267-335 | ArchivedOne: the same for one file and, recursively, for a directory's contents. |
| Listing.Present | src/net/kldp/jzip/Zip.java:269-271 | The files that exist are exactly the non-null slots, no more of them than slots. |
| Listing.PresentAppend | src/net/kldp/jzip/Zip.java:269-271 | The files that exist keep the order of their slots. |
| Listing.MissingInStep | src/net/kldp/jzip/Zip.java:1299-1305 | One step of the ancestor walk collects the current name exactly when the codec lacks it. |
| Listing.MissingDirsMembers | src/net/kldp/jzip/Zip.java:1292-1310 | MissingDirs (getMissingEntries' name set) holds exactly the unlisted names that some entry lies inside. |
| Listing.LoadedTreeIsClosed | src/net/kldp/jzip/Zip.java:1543-1558 | After a tree-view load every ancestor directory of every entry is itself an entry. |
| Sorting.CompareAntisymmetric | src/net/kldp/jzip/Zip.java:2044-2058 | `compareTo` changes sign when its operands are swapped. |
| Sorting.CompareTransitive | src/net/kldp/jzip/Zip.java:2044-2058 | `compareTo` is transitive on "not greater". |
| Sorting.CompareStrings | src/net/kldp/jzip/Zip.java:2044-2058 | `compareTo` is 0 exactly for equal strings. |
| Sorting.Key | src/net/kldp/jzip/Zip.java:2009-2036 | The compared keys: a leaf name has no '/', an entry path starts with '/', and the type is "디렉토리" exactly for a directory. |
| Sorting.CompareMeaning | src/net/kldp/jzip/Zip.java:2009-2036 | sortByDir ties exactly entries of the same kind and puts directories strictly first (files when reversed). The other comparators tie exactly entries with equal keys. |
| Sorting.CompareSwap | src/net/kldp/jzip/Zip.java:2009-2036 | Each comparator (by name, by path, by type, directories first) changes sign when its operands are swapped. |
| Sorting.CompareChains | src/net/kldp/jzip/Zip.java:2009-2036 | Each comparator is transitive on "not greater". |
| Sorting.Insert | src/net/kldp/jzip/Zip.java:2044-2058 | Inserting adds exactly the new entry, as a multiset. |
| Sorting.Sort | src/net/kldp/jzip/Zip.java:2044-2058 | Sorting keeps every entry, each as often. |
| Sorting.InsertKeepsOrder | src/net/kldp/jzip/Zip.java:2044-2058 | Inserting into an ordered list keeps it ordered. |
| Sorting.SortIsOrderedPermutation | src/net/kldp/jzip/Zip.java:2044-2084 | The sorted list holds the same entries, each as often, and no entry precedes one the comparator puts strictly ahead of it. |
| Sorting.DirsFirstSeparates | src/net/kldp/jzip/Zip.java:2009-2036 | After sortByDir no file precedes a directory; with `reverse`, no directory precedes a file. |
| Archives.FirstIn | src/net/kldp/jzip/Zip.java:1662-1675 | The reported character occurs in the name, and no character listed before it does. None means the name holds none of them. |
| Archives.PathTarget | src/net/kldp/jzip/Zip.java:1987-1997 | setPath's normalisation gives "" exactly for "/" and "", and otherwise a '/'-terminated name. |
| Archives.Resolve | src/net/kldp/jzip/Zip.java:1987-2007 | setPath("/") and setPath("") go to the root. Otherwise the cursor stays, or moves to the root, or moves to an existing directory entry, and only to the normalised text. |
| Archives.ShowThenResolve | src/net/kldp/jzip/Zip.java:1370-1378 | setPath(getPath()) returns to the cursor, for the root and for any existing directory whose name does not end in "//". |
| Archives.ShowDoubleSlashGoesUp | src/net/kldp/jzip/Zip.java:1370-1378 | For a directory name ending in "//", setPath(getPath()) lands on the name one '/' shorter (its parent) when that is an entry, and otherwise stays. |
| Archives.Decide | src/net/kldp/jzip/Zip.java:344-375 | checkOverwrite keeps ALL_YES, ALL_NO and CANCEL unchanged. Under YES or NO it stores the dialog's reply (the extract copy at 841-870 behaves the same). |
| Archives.OverwritesExactlyOnYes | src/net/kldp/jzip/Zip.java:841-870 | checkOverwrite returns true exactly when the stored answer is YES or ALL_YES afterwards. |
| Archives.Decisions | src/net/kldp/jzip/Zip.java:344-375 | One decision per check. |
| Archives.BlanketAnswersStick | src/net/kldp/jzip/Zip.java:344-375 | Under ALL_YES every later check overwrites, and under ALL_NO none does, whatever the dialog would say. |
| Archives.BlanketReplySticks | src/net/kldp/jzip/Zip.java:344-375 | An ALL_YES or ALL_NO reply decides every later check. |
| Archives.WriteFiles | src/net/kldp/jzip/Zip.java:267-335 | addFileNDir writes exactly the specified entries. |
| Archives.Inside | src/net/kldp/jzip/Zip.java:420-433 | The positions of exactly the entries inside the directory. |
| Archives.EntryStep | src/net/kldp/jzip/Zip.java:396-439 | One check of a file against an entry: files keep their number and marks only grow; an entry that is neither the file's name nor its directory name changes nothing. |
| Archives.FileSteps | src/net/kldp/jzip/Zip.java:385-440 | The loop over the entries for one file: files keep their number and marks only grow. |
| Archives.IndexSetFrom | src/net/kldp/jzip/Zip.java:380-443 | The loop over the files, skipping missing ones: files keep their number and marks only grow. |
| Archives.AddResult | src/net/kldp/jzip/Zip.java:175-443 | An add starts from NO, no dialog and nothing marked; one slot per file. |
| Archives.EntryStepEffect | src/net/kldp/jzip/Zip.java:396-439 | One check drops only the file at hand, only when its name is taken, marks only entries the file replaces, and stops only on CANCEL. |
| Archives.FileStepsEffect | src/net/kldp/jzip/Zip.java:385-440 | The same for all checks of one file. |
| Archives.IndexSetFromEffect | src/net/kldp/jzip/Zip.java:380-443 | The same for the loop over the files, relative to the files first given. |
| Archives.AddDropsOnlyReplaced | src/net/kldp/jzip/Zip.java:380-443 | An add leaves out only missing files and files whose name is taken, and drops only entries that one of the files replaces. |
| Archives.MixedRepliesDecideEachCollision | src/net/kldp/jzip/Zip.java:380-443 | With YES to the first dialog and NO to the second, adding "a" and "b" over entries "a" and "b" drops entry "a" and leaves file "b" out. |
| Archives.EntryStepAgrees | src/net/kldp/jzip/Zip.java:396-439 | Under agreeing replies one check never drops the file or stops, and marks a colliding entry and, for the directory, its subtree. |
| Archives.FileStepsAgree | src/net/kldp/jzip/Zip.java:385-440 | The same for all later entries of one file. |
| Archives.FileStepsCover | src/net/kldp/jzip/Zip.java:385-440 | Under agreeing replies a file's checks cover its name. |
| Archives.IndexSetFromAgrees | src/net/kldp/jzip/Zip.java:380-443 | Under agreeing replies every later file stays and covers its name. |
| Archives.AgreeingAddCoversAll | src/net/kldp/jzip/Zip.java:380-443 | When every dialog agrees, nothing is cancelled, every file goes in, and every colliding entry with its subtree is dropped. |
| Archives.EntryStepRefuses | src/net/kldp/jzip/Zip.java:396-439 | Under refusing replies one check marks nothing, never stops, and drops the file exactly on a collision. |
| Archives.FileStepsRefuse | src/net/kldp/jzip/Zip.java:385-440 | The same for all later entries of one file. |
| Archives.IndexSetFromRefuses | src/net/kldp/jzip/Zip.java:380-443 | Under refusing replies exactly the later files whose name is taken are dropped. |
| Archives.RefusingAddKeepsEntries | src/net/kldp/jzip/Zip.java:380-443 | When every dialog refuses, nothing is cancelled, nothing is dropped, and exactly the existing files with a free name go in. |
| Archives.AddTask.constructor | src/net/kldp/jzip/Zip.java:175-184 | The add starts with the stored answer NO and nothing marked. |
| Archives.AddTask.CheckOverwrite | src/net/kldp/jzip/Zip.java:344-375 | The stored answer and the result follow Decide. The dialog is shown (the count goes up) only under YES or NO, with the name stripped of its '/'. |
| Archives.AddTask.MarkSubtree | src/net/kldp/jzip/Zip.java:420-433 | Adds exactly the positions of the entries inside the directory. |
| Archives.AddTask.CheckEntry | src/net/kldp/jzip/Zip.java:396-439 | For one file and one entry the new files, stored answer, dialog count, marks and stop flag are exactly those of EntryStep, whatever the replies. |
| Archives.AddTask.CheckFile | src/net/kldp/jzip/Zip.java:385-440 | For one file the new state and stop flag are exactly those of FileSteps from entry 0. |
| Archives.AddTask.GetIndexSet | src/net/kldp/jzip/Zip.java:380-443 | The new state is exactly IndexSetFrom from file 0 with nothing marked, whatever the replies. |
| Archives.AddTask.Run | src/net/kldp/jzip/Zip.java:445-486 | The task's state is that of getIndexSet. Cancelled exactly on CANCEL, and then nothing is written. Otherwise, if a file is left, the archive becomes the unmarked entries in order followed by the new entries; if none is left, nothing changes. After a write the archive's list is exactly what a fresh load of the new entries builds for its view (with the synthesized directories in the tree view), and the cursor stays. |
| Archives.RenameCanBeUndone | src/net/kldp/jzip/Zip.java:1660-1842 | After an accepted rename of an entry whose name no other entry shares up to the trailing '/', no entry clashes with the old name, renaming back to the old leaf rebuilds the old name, and it writes the original list again. |
| Archives.MovedNameDiffers | src/net/kldp/jzip/Zip.java:1773-1807 | An entry moved under the new directory name never equals the old name up to the trailing '/'. |
| Archives.Archive.constructor | src/net/kldp/jzip/Zip.java:138-150 | Opens in the tree view at the root or flat, and its list is exactly what a load builds for that view: the entries in order, then in the tree view the synthesized missing directories. |
| Archives.Archive.LoadEntries | src/net/kldp/jzip/Zip.java:1543-1558 | The codec's entries come first in their order, and originalSize is their count. The tree view appends the synthesized directories; the flat view appends nothing. |
| Archives.Archive.GetMissingEntries | src/net/kldp/jzip/Zip.java:1292-1310 | Appends one synthesized entry for each ancestor name the codec lacks, exactly once each. |
| Archives.Archive.MissingNames | src/net/kldp/jzip/Zip.java:1293-1307 | The name set collects exactly the unlisted ancestors of every entry. |
| Archives.Archive.CollectMissing | src/net/kldp/jzip/Zip.java:1296-1306 | The inner walk adds exactly the unlisted ancestors of one entry. |
| Archives.Archive.AppendDirectories | src/net/kldp/jzip/Zip.java:1308-1309 | One `new ZipEntry(name)` per collected name, each name once. |
| Archives.Archive.FlatShowsEveryEntry | src/net/kldp/jzip/Zip.java:1385-1402 | In the flat view originalSize is the number of entries. |
| Archives.Archive.TreeIsClosed | src/net/kldp/jzip/Zip.java:1292-1310 | Whenever the cursor is set (the tree view), every ancestor of an entry is an entry, in any sort order. |
| Archives.Archive.GetSize | src/net/kldp/jzip/Zip.java:1385-1402 | getSize is the number of rows: the cursor's children, or originalSize when flat. |
| Archives.Archive.ConvertIndex | src/net/kldp/jzip/Zip.java:534-550 | convertIndex returns the position of the index-th child of the cursor in list order, or the list length when there is none. |
| Archives.Archive.DirSize | src/net/kldp/jzip/Zip.java:1128-1154 | getDirSize is the total size of the files inside the directory. |
| Archives.Archive.EntrySize | src/net/kldp/jzip/Zip.java:1233-1251 | A file row's size; in the tree view a directory row gets its directory total. |
| Archives.Archive.IsDirectoryAt | src/net/kldp/jzip/Zip.java:1520-1526 | True exactly when the entry at the row is a directory. |
| Archives.Archive.GetPath | src/net/kldp/jzip/Zip.java:1370-1378 | null in the flat view, otherwise a string starting with '/'. |
| Archives.Archive.SetPath | src/net/kldp/jzip/Zip.java:1987-2007 | The cursor becomes the root, the named directory if an entry has exactly that name, or stays. |
| Archives.Archive.GoToParent | src/net/kldp/jzip/Zip.java:1500-1503 | The cursor becomes its parent, which is the root or a directory above it. |
| Archives.Archive.GoToTop | src/net/kldp/jzip/Zip.java:1508-1511 | The cursor becomes the root. |
| Archives.Archive.OpenDir | src/net/kldp/jzip/Zip.java:1566-1572 | The cursor becomes the full name of the entry at the row, whose parent is the old cursor. |
| Archives.Archive.SubtreeOf | src/net/kldp/jzip/Zip.java:618-632 | The walk over the list collects exactly the subtree positions, in order. |
| Archives.Archive.ConvertRows | src/net/kldp/jzip/Zip.java:608-610 | Every row is replaced by its absolute position. |
| Archives.Archive.Subtrees | src/net/kldp/jzip/Zip.java:612-635 | The subtree of every selected directory, one after the other. |
| Archives.Archive.SelectionList | src/net/kldp/jzip/Zip.java:602-641 | The index list of delete: the subtrees (tree view) followed by the selected positions. |
| Archives.Archive.IndexList | src/net/kldp/jzip/Zip.java:1014-1911 | The index list of extract (lines 1014-1067) and of save (lines 1866-1911), which build it the same way: every position when no rows are given, otherwise the selection. |
| Archives.Archive.CopyExcept | src/net/kldp/jzip/Zip.java:660-681 | The copy loop writes the entries outside the dropped set, in order. |
| Archives.Archive.Rewrite | src/net/kldp/jzip/Zip.java:1826-1836 | The written list becomes the archive. It is reloaded and the cursor stays. |
| Archives.Archive.Delete | src/net/kldp/jzip/Zip.java:602-681 | The archive becomes the old entries minus exactly those the selection dooms, in order, reloaded. |
| Archives.Archive.CheckName | src/net/kldp/jzip/Zip.java:1714-1752 | checkName is true exactly when no entry clashes with the new name. |
| Archives.Archive.RenameCopy | src/net/kldp/jzip/Zip.java:1773-1807 | The rename copy loop writes exactly the renamed list. |
| Archives.Archive.SortBy | src/net/kldp/jzip/Zip.java:2009-2171 | sortByName, sortByPath, sortByDir and sortByType (sortBySize and sortByTime in between are not modelled). sortByPath leaves the tree view alone. Otherwise entryList becomes ordered by the comparator. It stays a permutation of itself. |
| Archives.Archive.CheckCharacters | src/net/kldp/jzip/Zip.java:1662-1675 | Reports the first of the given characters (rename passes `* \| \ : " < > ? /`, in that order) that the new leaf holds. |
| Archives.JoinName | src/net/kldp/jzip/Zip.java:1685-1694 | The assembled name is the old parent, the new leaf and, for a directory, '/'. |
| Archives.Archive.Rename | src/net/kldp/jzip/Zip.java:1660-1700 | A reserved character, or a name already in use, changes nothing. Otherwise the archive becomes the renamed list under the name parent + leaf (+ '/'), the cursor stays, and the list is exactly what a fresh load of the renamed list builds for the current view. |
| Archives.Archive.ApplyRename | src/net/kldp/jzip/Zip.java:1754-1842 | A clash changes nothing. Otherwise the renamed list is written, the cursor stays, and the list is exactly what a fresh load builds for the current view (with the synthesized directories in the tree view). |
| Archives.Archive.AddFile | src/net/kldp/jzip/Zip.java:175-486 | The outcome and the written list are fixed by AddResult: cancelled exactly on CANCEL; added exactly when a file is left, and then the archive is the unmarked old entries followed by the entries of the files left; otherwise nothing changes, the cursor included. After a write the cursor stays and the list is exactly what a fresh load builds for the current view. Always agreeing or always refusing never cancels. |
| Navigation.Moved | src/net/kldp/jzip/Zip.java:1987-2007 | After setPath the cursor is unchanged, the root, or an existing directory. |
| Navigation.Back | src/com/github/seungwon0/JZip/JZip.java:2209-2218 | goPrev does nothing on an empty back stack. Otherwise it pops the back stack, pushes the shown cursor on the forward stack, and moves to what setPath makes of the popped path; the total history length stays. |
| Navigation.Forward | src/com/github/seungwon0/JZip/JZip.java:2195-2204 | goNext is the mirror image: nothing on an empty forward stack, otherwise pop it, push the shown cursor on the back stack, and move to what setPath makes of the popped path. |
| Navigation.Pushed | src/com/github/seungwon0/JZip/JZip.java:2226-2236 | A fresh move appends to the back stack and clears the forward stack. |
| Navigation.Jump | src/com/github/seungwon0/JZip/JZip.java:2226-2236 | goTo the shown path does nothing. Any other goTo records the shown cursor and clears the forward stack. The cursor stays, or becomes the root or an existing directory. |
| Navigation.BackUndoesJump | src/com/github/seungwon0/JZip/JZip.java:2209-2236 | Back after goTo to a new path returns to where it started. |
| Navigation.OpenRow | src/com/github/seungwon0/JZip/JZip.java:437-452 | A double-click moves one level down, to an entry whose parent is the cursor, and records the move. |
| Navigation.ShownRoot | src/net/kldp/jzip/Zip.java:1370-1378 | getPath shows "/" only for the root (for names of two or more characters). |
| Navigation.HomeReachesRoot | src/com/github/seungwon0/JZip/JZip.java:2241-2251 | Home (goToHome) does nothing at the root. Anywhere else it records a move to the root. |
| Navigation.UpClimbs | src/com/github/seungwon0/JZip/JZip.java:2256-2266 | Up (goToParent) stays put, goes to the root, or goes to a directory the cursor lies inside. |
| Navigation.ForwardUndoesBack | src/com/github/seungwon0/JZip/JZip.java:2195-2218 | goPrev then goNext restores the cursor and both stacks, when the directories exist. |
| Navigation.BackUndoesForward | src/com/github/seungwon0/JZip/JZip.java:2195-2218 | goNext then goPrev restores the cursor and both stacks. |
| Navigation.BackUndoesMove | src/com/github/seungwon0/JZip/JZip.java:2209-2236 | Back after a move returns to the start, with the destination waiting on the forward stack. |
| Navigation.UpUndoesOpen | src/com/github/seungwon0/JZip/JZip.java:440-447 | Double-clicking a directory and then going up returns to the start, with both moves recorded. |
| Navigation.FirstIndex | src/com/github/seungwon0/JZip/JZip.java:2379-2387 | The first menu item equal to the path, or the item count. |
| Navigation.WithoutShape | src/com/github/seungwon0/JZip/JZip.java:2379-2387 | Without: removing the first copy of the path from a menu without repeats removes every copy and nothing else. |
| Navigation.TrimmedShape | src/com/github/seungwon0/JZip/JZip.java:2389-2390 | Trimmed: a full menu loses only its fifth item. |
| Navigation.RememberedShape | src/com/github/seungwon0/JZip/JZip.java:2377-2407 | Remembered: after open the menu has the path first and no other copy of it. It holds at most five distinct items, all old ones or the path, and forgets one only when it was full and did not list the path. |
| Navigation.Window.GoPrev | src/com/github/seungwon0/JZip/JZip.java:2209-2218 | The window's history becomes Back of the old one. |
| Navigation.Window.GoNext | src/com/github/seungwon0/JZip/JZip.java:2195-2204 | The window's history becomes Forward of the old one. |
| Navigation.Window.GoTo | src/com/github/seungwon0/JZip/JZip.java:2226-2236 | Nothing happens when the text is the shown path. Otherwise the move is recorded and the forward stack is cleared. |
| Navigation.Window.GoToHome | src/com/github/seungwon0/JZip/JZip.java:2241-2251 | The history becomes Home of the old one. |
| Navigation.Window.GoToParent | src/com/github/seungwon0/JZip/JZip.java:2256-2266 | The history becomes Up of the old one. |
| Navigation.Window.DoubleClick | src/com/github/seungwon0/JZip/JZip.java:437-452 | A directory row records a move into it. A file row leaves the history alone. |
| Navigation.Window.Remember | src/com/github/seungwon0/JZip/JZip.java:2377-2407 | The menu becomes Remembered of the old one. |
| Navigation.Window.Open | src/com/github/seungwon0/JZip/JZip.java:2340-2407 | A file that is not a zip changes nothing. Otherwise there is a fresh archive in the chosen view whose list is exactly what a load builds for that view, both stacks are empty, and the path goes on top of the menu. |
| Navigation.Window.Close | src/com/github/seungwon0/JZip/JZip.java:401-405 | No archive and no stacks. |

## Left out

- **The ZIP codec and all bytes.** The model does not cover `ZipFile`, `ZipOutputStream`, `archive`, `copyFile`, the temporary file and the encoding. A rewrite is the list of entries written. The reload is taken to list exactly those entries, in that order, so `codec == written`.
- **Sizes and times of rewritten entries.** The codec recomputes a written entry's size from its data, and an entry whose time is -1 gets the current time. The model carries the old size and time over.
- **Synthesized directory entries.** The model follows the code, which disagrees with a "zero size, never persisted" reading in two ways:
  - a synthesized directory gets size and time -1 (`new ZipEntry(name)`);
  - because the copy loops walk the whole `entryList`, a rewrite in the tree view writes the synthesized directories into the file as real entries.
- **Flat-view rename.** It does not re-prefix the entries inside a renamed directory (the `path != null` guard). The model does the same.
- **Add: missing files.** Files that do not exist, and the message box shown for them, are an input: `None` in the `found` list.
- **Add: failures.** A local directory that cannot be listed, and write failures, are not modelled. An unreadable file is skipped, as `addFileNDir` does.
- **The overwrite dialog.** It is the function parameter `answer`. Its widget code is not modelled, and neither are RenameDialog, ProgressDialog and the other dialogs. Progress reporting is not modelled.
- **Extract and save.** Only their index lists are modelled (`IndexList`). Writing entries to disk (`extract(int)`, `extractAll`, `save`) is filesystem work and is left out. Extract's overwrite question is the same state machine as add's (`Decide`); its file-existence test is not modelled.
- **`getSizeString`, `getTimeString`, `getDirStrings`, `getStrings`.** These are display formatting with floating point and locale dates.
- **`openFile` and `openWith`.** These launch external programs. A double-click on a file row changes no modelled state.
- **`sortBySize` and `sortByTime`.** Their comparators cast a `long` difference to `int`, which is not a consistent order.
- Sorting.Sort: claims ordered-and-permutation only. It makes no claim about how `Collections.sort` (a stable merge sort) breaks ties, although the insertion sort used here is also stable.
- Archives.Archive.SortBy: the same; ties are not specified.
- Sorting.CompareStrings: compares Dafny characters. Java compares UTF-16 code units, so the two differ only for characters outside the Basic Multilingual Plane.
- PathNames.Lower: lower-cases ASCII letters only. Java's `toLowerCase` also maps other scripts, but the extensions getType recognises are ASCII.
- Archives.Archive.DirSize: integers are unbounded, so the `long` sum cannot overflow in the model.
- **Index arrays.** `getIndexList` overwrites the caller's `indices` array in place. The model converts a copy (`ConvertRows` returns a new sequence), so a caller does not see its rows replaced.
- **`entryList.indexOf(entry)`.** In the extract and save lists it is taken to be the loop position, because each entry object occurs once in the list.
- Navigation.Window: the history methods require the tree view of an open archive, since the toolbar only offers them there. The view choice is the cursor (`zip.path`), not the radio button.
- Navigation.Window.Open: "the file cannot be opened" is the input `None`. The other checks (`canOpen`, a missing file) and the window title are not modelled.
- Navigation.ShownRoot: restricted to names of two or more characters. An entry named "/" is shown as "/" like the root, so goToHome and goToParent treat it as the root.
- Archives.ShowThenResolve: the round trip holds only for directory names that do not end in "//". For such a name getPath drops one '/', so setPath lands on the name one '/' shorter (the parent directory, when it is an entry) or stays put; back and forward then go to that parent instead of the name (ShowDoubleSlashGoesUp).
- Archives.RenameCanBeUndone: does not promise that renaming back passes the reserved-character check, because an archive may already hold a leaf with one of those characters.
