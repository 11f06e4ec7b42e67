/** Path algebra on archive entry names (Zip.java: getParentEntryName,
    getEntryName, getEntryPath, getPath, getType) and the ancestor-chain walk
    that delete, extract, save, add, rename and getDirSize all repeat.

    Names use '/' as separator; a directory entry's name ends in '/'. */
module PathNames {

  /** Java's `name.endsWith("/")`. */
  predicate EndsWithSlash(s: string) {
    |s| > 0 && s[|s| - 1] == '/'
  }

  /** Java's `s.lastIndexOf(c)`: the last position holding `c`, or -1. */
  function LastIndexOf(s: string, c: char): (r: int)
    ensures -1 <= r < |s|
    ensures r >= 0 ==> s[r] == c
    ensures forall i :: r < i < |s| ==> s[i] != c
  {
    if |s| == 0 then -1
    else if s[|s| - 1] == c then |s| - 1
    else LastIndexOf(s[..|s| - 1], c)
  }

  /** The name with one trailing '/' removed (the first step of every helper). */
  function StripSlash(name: string): (r: string)
    ensures r <= name
    ensures |r| == if EndsWithSlash(name) then |name| - 1 else |name|
  {
    if EndsWithSlash(name) then name[..|name| - 1] else name
  }

  /** getParentEntryName: the parent directory's entry name, "" at top level. */
  function ParentName(name: string): (r: string)
    ensures r == "" || EndsWithSlash(r)
    ensures r <= StripSlash(name) && r <= name
    ensures |name| > 0 ==> |r| < |name|
    // r is the LONGEST '/'-terminated prefix of the stripped name
    ensures forall i :: |r| <= i < |StripSlash(name)| ==> StripSlash(name)[i] != '/'
  {
    var s := StripSlash(name);
    var k := LastIndexOf(s, '/');
    if k == -1 then "" else s[..k + 1]
  }

  /** getEntryName: the leaf name, without any '/' and without the directory suffix. */
  function LeafName(name: string): (r: string)
    ensures forall i :: 0 <= i < |r| ==> r[i] != '/'
  {
    var s := StripSlash(name);
    var k := LastIndexOf(s, '/');
    if k == -1 then s else s[k + 1..]
  }

  /** The directory suffix that a directory entry carries after its leaf. */
  function DirSuffix(name: string): string {
    if EndsWithSlash(name) then "/" else ""
  }

  /** Parent, leaf and directory suffix put back together give the name. */
  lemma ParentLeafRebuild(name: string)
    ensures ParentName(name) + LeafName(name) + DirSuffix(name) == name
  {
    var s := StripSlash(name);
    var k := LastIndexOf(s, '/');
    var p, l := ParentName(name), LeafName(name);
    if k == -1 {
      assert p == "" && l == s;
    } else {
      assert p == s[..k + 1] && l == s[k + 1..];
    }
    assert p + l == s;
    if EndsWithSlash(name) {
      assert s + "/" == name;
    } else {
      assert s == name;
    }
  }

  /** Zip.getPath: how a cursor (an entry name or "" for the root) is shown,
      "/" for the root and "/a/b" for the cursor "a/b/". */
  function DisplayPath(cursor: string): (r: string)
    ensures |r| > 0 && r[0] == '/'
  {
    if |cursor| == 0 then "/" else "/" + cursor[..|cursor| - 1]
  }

  /** getEntryPath: the location column of the flat view. */
  function EntryPath(name: string): (r: string)
    ensures r == DisplayPath(ParentName(name))
  {
    var s := StripSlash(name);
    var k := LastIndexOf(s, '/');
    if k == -1 then "/" else "/" + s[..k]
  }

  /** The walk `parent = getParentEntryName(parent)` until the empty name,
      starting at (and including) `p`. */
  function Chain(p: string): seq<string>
    decreases |p|
  {
    if |p| == 0 then [] else [p] + Chain(ParentName(p))
  }

  /** Every ancestor directory name of `name`, nearest first. */
  function Ancestors(name: string): seq<string> {
    Chain(ParentName(name))
  }

  /** `dir` is a directory name and a proper prefix of `name`: the entry
      `name` lies inside the directory `dir`, at any depth. */
  predicate IsUnder(name: string, dir: string) {
    EndsWithSlash(dir) && |dir| < |name| && dir == name[..|dir|]
  }

  /** The parent is the longest directory prefix that lies above `name`. */
  lemma ParentIsLongestDirPrefix(name: string, d: string)
    requires EndsWithSlash(d)
    ensures d <= ParentName(name) <==> IsUnder(name, d)
  {
    var s := StripSlash(name);
    var q := ParentName(name);
    if d <= q {
      assert |d| < |name|;
    }
    if IsUnder(name, d) {
      assert |d| <= |s|;
      assert d == s[..|d|];
      assert s[|d| - 1] == '/';
      assert |d| <= |q|;
      assert d == q[..|d|];
    }
  }

  /** The chain from a directory name holds exactly its directory prefixes. */
  lemma {:induction false} ChainIsDirPrefixes(p: string, d: string)
    requires p == "" || EndsWithSlash(p)
    ensures d in Chain(p) <==> EndsWithSlash(d) && d <= p
    decreases |p|
  {
    if |p| > 0 {
      var q := ParentName(p);
      ChainIsDirPrefixes(q, d);
      if EndsWithSlash(d) {
        ParentIsLongestDirPrefix(p, d);
        assert d <= p <==> d == p || IsUnder(p, d);
      }
    }
  }

  /** Central lemma: the ancestor walk from `name` meets `d` exactly when `d`
      ends in '/' and is a proper prefix of `name`. */
  lemma AncestorsAreProperDirPrefixes(name: string, d: string)
    ensures d in Ancestors(name) <==> IsUnder(name, d)
  {
    ChainIsDirPrefixes(ParentName(name), d);
    if EndsWithSlash(d) {
      ParentIsLongestDirPrefix(name, d);
    }
  }

  /** Lying under a directory is transitive (ancestors of ancestors). */
  lemma UnderTransitive(name: string, mid: string, top: string)
    requires IsUnder(name, mid) && IsUnder(mid, top)
    ensures IsUnder(name, top)
  {
    assert name[..|mid|][..|top|] == name[..|top|];
  }

  /** The loop `while (parent.length() != 0) { if (parent.equals(dirName)) ...;
      parent = getParentEntryName(parent); }` that every subtree operation repeats. */
  method HasAncestor(name: string, dirName: string) returns (found: bool)
    ensures found <==> IsUnder(name, dirName)
  {
    var parent := ParentName(name);
    found := false;
    while |parent| != 0
      invariant parent == "" || EndsWithSlash(parent)
      invariant dirName in Ancestors(name) <==> dirName in Chain(parent)
      decreases |parent|
    {
      if parent == dirName {
        found := true;
        break;
      }
      parent := ParentName(parent);
    }
    AncestorsAreProperDirPrefixes(name, dirName);
  }

  // Labels returned by getType, in the source's own words.
  const DirectoryLabel: string := "디렉토리"
  const PlainLabel: string := "일반 파일"
  const PictureLabel: string := "그림 파일"
  const MusicLabel: string := "음악 파일"
  const VideoLabel: string := "동영상 파일"
  const TextLabel: string := "텍스트  파일"
  const HtmlLabel: string := "HTML 파일"
  const ArchiveLabel: string := "압축 파일"

  /** ASCII lower-casing (String.toLowerCase on ASCII text). */
  function Lower(s: string): (r: string)
    ensures |r| == |s|
    ensures forall i :: 0 <= i < |s| ==> r[i] == if 'A' <= s[i] <= 'Z' then (s[i] as int + 32) as char else s[i]
  {
    if |s| == 0 then ""
    else [if 'A' <= s[0] <= 'Z' then (s[0] as int + 32) as char else s[0]] + Lower(s[1..])
  }

  /** The label for a lower-cased extension. */
  function ExtensionLabel(ext: string): (r: string)
    ensures r != DirectoryLabel
    ensures r == PlainLabel <==>
      ext !in {"jpg", "jpeg", "bmp", "png", "gif", "mp3", "wav", "ogg", "avi", "mpg", "mpeg", "txt",
               "html", "htm", "zip", "gz", "bz2", "rar", "jar"}
  {
    if ext in {"jpg", "jpeg", "bmp", "png", "gif"} then PictureLabel
    else if ext in {"mp3", "wav", "ogg"} then MusicLabel
    else if ext in {"avi", "mpg", "mpeg"} then VideoLabel
    else if ext == "txt" then TextLabel
    else if ext in {"html", "htm"} then HtmlLabel
    else if ext in {"zip", "gz", "bz2", "rar", "jar"} then ArchiveLabel
    else PlainLabel
  }

  /** One extension of every category gets that category's label, and the
      extension is matched after lower-casing, so "MP3" is music too. */
  lemma ExtensionCategories()
    ensures ExtensionLabel("png") == PictureLabel
    ensures ExtensionLabel("ogg") == MusicLabel
    ensures ExtensionLabel("mpeg") == VideoLabel
    ensures ExtensionLabel("txt") == TextLabel
    ensures ExtensionLabel("htm") == HtmlLabel
    ensures ExtensionLabel("jar") == ArchiveLabel
    ensures ExtensionLabel(Lower("MP3")) == MusicLabel
  {
    assert Lower("MP3") == "mp3";
  }

  /** getType: the type column, from the directory suffix and the leaf's extension. */
  function TypeLabel(name: string): (r: string)
    ensures r == DirectoryLabel <==> EndsWithSlash(name)
    ensures !EndsWithSlash(name) && LastIndexOf(LeafName(name), '.') == -1 ==> r == PlainLabel
  {
    if EndsWithSlash(name) then DirectoryLabel
    else
      var leaf := LeafName(name);
      var k := LastIndexOf(leaf, '.');
      if k == -1 then PlainLabel else ExtensionLabel(Lower(leaf[k + 1..]))
  }
}
